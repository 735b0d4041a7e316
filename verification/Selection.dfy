/** When a delivery counts as the delivery of the selected candidates, and what that means for them. */
module Selection {
  import opened Common
  import opened Ledger
  import opened Planner
  import opened Delivery
  import opened DeliverySafety

  datatype Fingerprint = Fingerprint(artifact: Id, sha: Hash, filename: string, source: Id, trackKey: Id, planned: bool)

  function FingerprintOf(c: Candidate): Fingerprint {
    Fingerprint(c.artifact.id, c.artifact.sha, c.filename, c.source, c.trackKey, c.planned)
  }

  function Fingerprints(candidates: seq<Candidate>): multiset<Fingerprint> {
    multiset(seq(|candidates|, i requires 0 <= i < |candidates| => FingerprintOf(candidates[i])))
  }

  predicate SameDelivery(left: seq<Candidate>, right: seq<Candidate>) {
    Fingerprints(left) == Fingerprints(right)
  }

  /* What sameDelivery decides. */

  /** The same artifact and bytes under the same name in the same place, both or neither still to be built. */
  predicate Alike(c: Candidate, d: Candidate) {
    && c.artifact.id == d.artifact.id && c.artifact.sha == d.artifact.sha && c.filename == d.filename
    && c.source == d.source && c.trackKey == d.trackKey && (c.planned <==> d.planned)
  }

  function CountAlike(candidates: seq<Candidate>, c: Candidate): nat {
    if candidates == [] then 0
    else CountAlike(candidates[..|candidates| - 1], c) + if Alike(candidates[|candidates| - 1], c) then 1 else 0
  }

  lemma {:induction false} CountsFingerprints(candidates: seq<Candidate>, c: Candidate)
    ensures Fingerprints(candidates)[FingerprintOf(c)] == CountAlike(candidates, c)
  {
    if candidates == [] {
    } else {
      var front, last := candidates[..|candidates| - 1], candidates[|candidates| - 1];
      CountsFingerprints(front, c);
      var prints := seq(|candidates|, i requires 0 <= i < |candidates| => FingerprintOf(candidates[i]));
      assert prints == seq(|front|, i requires 0 <= i < |front| => FingerprintOf(front[i])) + [FingerprintOf(last)];
      assert FingerprintOf(last) == FingerprintOf(c) <==> Alike(last, c);
    }
  }

  ghost predicate EquallyMany(left: seq<Candidate>, right: seq<Candidate>) {
    forall c :: CountAlike(left, c) == CountAlike(right, c)
  }

  /** Two deliveries are the same exactly when they have equally many candidates alike any one. */
  lemma SameDeliveryExactly(left: seq<Candidate>, right: seq<Candidate>)
    ensures SameDelivery(left, right) <==> EquallyMany(left, right)
  {
    hide CountAlike, FingerprintOf, Fingerprints;
    if SameDelivery(left, right) {
      forall c
        ensures CountAlike(left, c) == CountAlike(right, c)
      {
        CountsFingerprints(left, c);
        CountsFingerprints(right, c);
      }
    }
    if EquallyMany(left, right) {
      forall f: Fingerprint
        ensures Fingerprints(left)[f] == Fingerprints(right)[f]
      {
        PrintedHas(f);
        CountsFingerprints(left, Printed(f));
        CountsFingerprints(right, Printed(f));
        assert CountAlike(left, Printed(f)) == CountAlike(right, Printed(f));
      }
      assert Fingerprints(left) == Fingerprints(right);
    }
  }

  lemma PrintedHas(f: Fingerprint)
    ensures FingerprintOf(Printed(f)) == f
  {
  }

  function Printed(f: Fingerprint): Candidate {
    Candidate(Artifact(f.artifact, "", "", f.sha), "", f.source, f.trackKey, f.filename, None, f.planned)
  }

  lemma {:induction false} CountsHit(candidates: seq<Candidate>, c: Candidate) returns (d: Candidate)
    requires CountAlike(candidates, c) > 0
    ensures d in candidates && Alike(d, c)
  {
    if Alike(candidates[|candidates| - 1], c) {
      d := candidates[|candidates| - 1];
    } else {
      d := CountsHit(candidates[..|candidates| - 1], c);
    }
  }

  lemma {:induction false} CountsMember(candidates: seq<Candidate>, c: Candidate)
    requires c in candidates
    ensures CountAlike(candidates, c) > 0
  {
    var front, last := candidates[..|candidates| - 1], candidates[|candidates| - 1];
    assert candidates == front + [last];
    if last == c {
    } else {
      CountsMember(front, c);
    }
  }

  /** Whatever was selected is among what was delivered. */
  lemma SelectedIsDelivered(delivered: seq<Candidate>, selected: seq<Candidate>, c: Candidate) returns (d: Candidate)
    requires SameDelivery(delivered, selected) && c in selected
    ensures d in delivered && Alike(d, c)
  {
    SameDeliveryExactly(delivered, selected);
    assert CountAlike(delivered, c) == CountAlike(selected, c);
    CountsMember(selected, c);
    d := CountsHit(delivered, c);
  }

  /** The order of the candidates makes no difference. */
  lemma AnyOrderIsSame(left: seq<Candidate>, right: seq<Candidate>)
    requires multiset(left) == multiset(right)
    ensures SameDelivery(left, right)
  {
    SameDeliveryExactly(left, right);
    forall c
      ensures CountAlike(left, c) == CountAlike(right, c)
    {
      CountIgnoresOrder(left, right, c);
    }
  }

  lemma {:induction false} CountWithout(s: seq<Candidate>, k: nat, c: Candidate)
    requires k < |s|
    ensures CountAlike(s, c) == CountAlike(s[..k] + s[k + 1..], c) + if Alike(s[k], c) then 1 else 0
  {
    if k == |s| - 1 {
      assert s[..k] + s[k + 1..] == s[..|s| - 1];
    } else {
      var front, rest := s[..|s| - 1], s[..k] + s[k + 1..];
      CountWithout(front, k, c);
      assert rest[..|rest| - 1] == front[..k] + front[k + 1..];
    }
  }

  lemma {:induction false} CountIgnoresOrder(left: seq<Candidate>, right: seq<Candidate>, c: Candidate)
    requires multiset(left) == multiset(right)
    ensures CountAlike(left, c) == CountAlike(right, c)
    decreases |left|
  {
    hide Alike;
    assert |left| == |multiset(left)| == |multiset(right)| == |right|;
    if left == [] {
    } else {
      var front, last := left[..|left| - 1], left[|left| - 1];
      var k := FoundIn(left, right);
      Without(left, |left| - 1);
      assert front + left[|left|..] == front;
      Without(right, k);
      CountIgnoresOrder(front, right[..k] + right[k + 1..], c);
      CountWithout(right, k, c);
    }
  }

  lemma FoundIn(left: seq<Candidate>, right: seq<Candidate>) returns (k: nat)
    requires left != [] && multiset(left) == multiset(right)
    ensures k < |right| && right[k] == left[|left| - 1]
  {
    assert left[|left| - 1] in multiset(right);
    k :| k < |right| && right[k] == left[|left| - 1];
  }

  /** The candidate's bytes are at its destination, and a published record says so. */
  ghost predicate InPlace(files: Files, ledger: seq<Record>, c: Candidate) {
    && c.Ref() in files && files[c.Ref()] == c.artifact.sha
    && exists r :: r in ledger && r.status == Published && r.ref == c.Ref() && r.artifact.sha == c.artifact.sha
  }

  lemma SelectedInPlace(view: View, files: Files, ledger: seq<Record>, base: nat, selected: seq<Candidate>)
    requires Coherent(view) && ValidLedger(view.records, base)
    requires Finished(view, files, ledger) && SameDelivery(view.candidates, selected)
    ensures forall c :: c in selected ==> InPlace(files, ledger, c)
  {
    hide Coherent, ValidLedger, Finished, SameDelivery;
    forall c | c in selected
      ensures InPlace(files, ledger, c)
    {
      var d := SelectedIsDelivered(view.candidates, selected, c);
      DeliveredInPlace(view, files, ledger, base, d);
    }
  }

  lemma DeliveredInPlace(view: View, files: Files, ledger: seq<Record>, base: nat, c: Candidate)
    requires Coherent(view) && ValidLedger(view.records, base) && Finished(view, files, ledger) && c in view.candidates
    ensures InPlace(files, ledger, c)
  {
    assert Settled(view, files, ledger, c);
    hide Coherent, ValidLedger, Reached, View.Superfluous, Identified, ActionFor;
    if view.Action(c) == Unchanged {
      KeepsFirstExact(view, files, ledger, base, c);
      assert ledger[FirstExact(ledger, c)] in ledger;
    } else {
      var i :| 0 <= i < |ledger| && IsRow(ledger[i], c) && ledger[i].status == Published;
      assert ledger[i] in ledger;
    }
  }
}
