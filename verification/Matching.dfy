/** Which detected candidate an earlier one becomes, and what is said of it, read off the members and the capture. */
module Matching {
  import opened Common
  import opened Discovery

  /** The places of the earlier candidate's members that the detected one has too. */
  function Shared(c: Candidate, prior: Candidate): set<int> {
    set k | 0 <= k < |prior.members| && prior.members[k] in c.members
  }

  function SharedBefore(c: Candidate, prior: Candidate, n: nat): set<int>
    requires n <= |prior.members|
  {
    set k | 0 <= k < n && prior.members[k] in c.members
  }

  lemma {:induction false} OverlapIs(c: Candidate, prior: Candidate, n: nat)
    requires n <= |prior.members|
    ensures Overlap(c, prior, n) == 2 * |SharedBefore(c, prior, n)| + if 0 in SharedBefore(c, prior, n) then 1 else 0
  {
    if n == 0 {
      assert SharedBefore(c, prior, 0) == {};
    } else {
      OverlapIs(c, prior, n - 1);
      var before := SharedBefore(c, prior, n - 1);
      assert SharedBefore(c, prior, n) == before + if prior.members[n - 1] in c.members then {n - 1} else {};
      assert n - 1 !in before;
    }
  }

  /** Two for every shared member, and one more when the first is among them. */
  lemma ScoreIs(c: Candidate, prior: Candidate)
    ensures Score(c, prior) == 2 * |Shared(c, prior)| + if 0 in Shared(c, prior) then 1 else 0
    ensures Score(c, prior) > 0 <==> exists m :: m in prior.members && m in c.members
  {
    OverlapIs(c, prior, |prior.members|);
    assert SharedBefore(c, prior, |prior.members|) == Shared(c, prior);
    if m :| m in prior.members && m in c.members {
      var k :| 0 <= k < |prior.members| && prior.members[k] == m;
      assert k in Shared(c, prior);
    }
    if Shared(c, prior) != {} {
      var k :| k in Shared(c, prior);
      assert prior.members[k] in c.members;
    }
  }

  /** It is not taken yet, of the same source, and shares a member. */
  predicate Fits(detected: seq<Candidate>, taken: set<nat>, prior: Candidate, i: nat)
    requires i < |detected|
  {
    i !in taken && detected[i].source == prior.source && exists m :: m in prior.members && m in detected[i].members
  }

  /** It shares more members, or as many with the earlier candidate's first among them where the other lacks it. */
  predicate SharesMore(a: Candidate, b: Candidate, prior: Candidate) {
    || |Shared(a, prior)| > |Shared(b, prior)|
    || (|Shared(a, prior)| == |Shared(b, prior)| && 0 in Shared(a, prior) && 0 !in Shared(b, prior))
  }

  /** The best match is the first of those that share most, and there is one unless none fits. */
  lemma BestExactly(detected: seq<Candidate>, taken: set<nat>, prior: Candidate, best: Option<nat>)
    ensures IsBest(detected, taken, prior, best) <==>
              match best
              case None => forall i :: 0 <= i < |detected| ==> !Fits(detected, taken, prior, i)
              case Some(b) =>
                && b < |detected| && Fits(detected, taken, prior, b)
                && forall i :: 0 <= i < |detected| && i != b && Fits(detected, taken, prior, i) ==>
                     SharesMore(detected[b], detected[i], prior) || (!SharesMore(detected[i], detected[b], prior) && b < i)
  {
    forall i | 0 <= i < |detected|
      ensures Open(detected, taken, prior, i) <==> Fits(detected, taken, prior, i)
    {
      ScoreIs(detected[i], prior);
    }
    forall a, b | a in detected && b in detected
      ensures Score(a, prior) < Score(b, prior) <==> SharesMore(b, a, prior)
    {
      ScoreIs(a, prior);
      ScoreIs(b, prior);
    }
    hide Open, Fits, SharesMore, Score;
    if best.Some? && best.value < |detected| {
      forall i | 0 <= i < |detected|
        ensures Score(detected[i], prior) < Score(detected[best.value], prior) <==> SharesMore(detected[best.value], detected[i], prior)
        ensures Score(detected[best.value], prior) < Score(detected[i], prior) <==> SharesMore(detected[i], detected[best.value], prior)
      {
        assert detected[i] in detected && detected[best.value] in detected;
      }
    }
  }

  predicate Meets(c: Candidate, prior: Candidate) {
    c.source == prior.source && exists m :: m in prior.members && m in c.members
  }

  lemma TakenMeets(detected: seq<Candidate>, previous: seq<Candidate>, matches: Matches, l: nat)
    requires l < |previous| && Greedy(detected, previous, matches, |previous|) && l in matches
    ensures Meets(detected[matches[l]], previous[l])
  {
    BestExactly(detected, Taken(matches, l), previous[l], MatchOf(matches, l));
    hide SharesMore, IsBest;
  }

  /** An earlier and a detected candidate that share members with each other alone are the same one. */
  lemma SoleMatchTakes(detected: seq<Candidate>, previous: seq<Candidate>, matches: Matches, i: nat, j: nat)
    requires i < |detected| && j < |previous| && Greedy(detected, previous, matches, |previous|)
    requires Meets(detected[i], previous[j])
    requires forall k :: 0 <= k < |detected| && k != i ==> !Meets(detected[k], previous[j])
    requires forall l :: 0 <= l < |previous| && l != j ==> !Meets(detected[i], previous[l])
    ensures j in matches && matches[j] == i
  {
    BestExactly(detected, Taken(matches, j), previous[j], MatchOf(matches, j));
    forall l | l in matches && l < j
      ensures Meets(detected[matches[l]], previous[l])
    {
      TakenMeets(detected, previous, matches, l);
    }
    assert i !in Taken(matches, j);
    hide SharesMore, IsBest, Taken, Meets;
    assert forall k, taken :: 0 <= k < |detected| && Fits(detected, taken, previous[j], k) ==> Meets(detected[k], previous[j]) by {
      MeetsFits(detected, previous[j]);
    }
    assert Fits(detected, Taken(matches, j), previous[j], i) by {
      FitsMeets(detected, Taken(matches, j), previous[j], i);
    }
  }

  lemma MeetsFits(detected: seq<Candidate>, prior: Candidate)
    ensures forall k, taken :: 0 <= k < |detected| && Fits(detected, taken, prior, k) ==> Meets(detected[k], prior)
  {
  }

  lemma FitsMeets(detected: seq<Candidate>, taken: set<nat>, prior: Candidate, i: nat)
    requires i < |detected| && i !in taken && Meets(detected[i], prior)
    ensures Fits(detected, taken, prior, i)
  {
  }

  /* ---- What is said of it ---- */

  /** The capture shows the member: anew, or as the candidate knew it. */
  predicate Shown(prior: Candidate, observed: map<Release, string>, renewed: set<Release>, m: Release) {
    && m in observed && observed[m] != ""
    && (m in renewed || (m in prior.captures && prior.captures[m].capture == observed[m]))
  }

  lemma ShownIs(prior: Candidate, observed: map<Release, string>, renewed: set<Release>)
    ensures forall m :: Shown(prior, observed, renewed, m) <==> Seen(prior, observed, renewed, m)
    ensures forall m :: m in Unseen(prior, observed, renewed, |prior.members|) <==> m in prior.members && !Shown(prior, observed, renewed, m)
  {
    UnseenAre(prior, observed, renewed, |prior.members|);
    hide Unseen;
    assert prior.members[..|prior.members|] == prior.members;
  }

  /** A continued candidate has the detected members and the old ones the capture does not show, with their old captures. */
  lemma ContinuedExactly(c: Candidate, prior: Candidate, observed: map<Release, string>, renewed: set<Release>, r: Candidate, m: Release)
    requires IsDetected(c) && Continues(c, prior, observed, renewed, r)
    ensures var hidden := m in prior.members && !Shown(prior, observed, renewed, m);
            && (m in r.members <==> m in c.members || hidden)
            && (m in r.uncaptured <==> hidden)
            && (m in r.resolved <==> m in prior.members && m !in r.members)
            && (hidden && m in prior.captures ==> m in r.captures && r.captures[m] == prior.captures[m])
            && (!hidden && m in c.captures ==> m in r.captures && r.captures[m] == c.captures[m])
  {
    ShownIs(prior, observed, renewed);
    hide Unseen, Seen, Shown, Canonical, Fingerprinted, Elems;
    var unseen := Unseen(prior, observed, renewed, |prior.members|);
    assert m in unseen <==> m in prior.members && !Shown(prior, observed, renewed, m);
    assert m in c.uncaptured + unseen <==> m in unseen;
  }

  /** With nothing carried over its evidence is the detected one, else that of both, and a new fingerprint of it. */
  lemma ContinuedEvidence(c: Candidate, prior: Candidate, observed: map<Release, string>, renewed: set<Release>, r: Candidate)
    requires IsDetected(c) && Continues(c, prior, observed, renewed, r)
    ensures if forall m :: m in prior.members ==> Shown(prior, observed, renewed, m)
            then r.evidence == c.evidence && r.fingerprint == c.fingerprint
            else Canonical(r.evidence) && (forall e :: e in r.evidence <==> e in c.evidence || e in prior.evidence)
                 && r.fingerprint == Print(map m | m in r.captures :: r.captures[m].evidence, r.evidence)
  {
    ShownIs(prior, observed, renewed);
    hide Unseen, Seen, Shown, Canonical, Carried;
    var unseen := Unseen(prior, observed, renewed, |prior.members|);
    assert c.uncaptured + unseen == unseen;
    if unseen == [] {
      assert forall m :: m in prior.members ==> m !in unseen;
    } else {
      assert unseen[0] in unseen;
      assert forall e :: e in Elems(r.evidence) <==> e in r.evidence;
      assert forall e :: e in Elems(c.evidence + prior.evidence) <==> e in c.evidence || e in prior.evidence;
    }
  }

  /**
   * Its operator's decisions hold: dismissed for the very evidence it has, it stays resolved and silent. It is
   * reported when it is not resolved and its evidence is not the last reported, or it had been resolved.
   */
  lemma DecisionsHold(c: Candidate, prior: Candidate, observed: map<Release, string>, renewed: set<Release>, r: Candidate)
    requires Continues(c, prior, observed, renewed, r)
    ensures r.fingerprint == prior.dismissed ==> r.status == ResolvedStatus && !r.changed
    ensures r.fingerprint != prior.dismissed ==> r.status == c.status
    ensures r.fingerprint == prior.lastReported && prior.status != ResolvedStatus ==> !r.changed
    ensures r.status != ResolvedStatus && (r.fingerprint != prior.lastReported || prior.status == ResolvedStatus) ==> r.changed
    ensures r.fingerprint == prior.fingerprint ==> r.lastChange == prior.lastChange
    ensures r.fingerprint != prior.fingerprint ==> r.lastChange == c.lastChange
    ensures r.firstObserved == prior.firstObserved
  {
  }

  /** An earlier candidate that nothing continues is silent, and resolved when the capture shows all its members. */
  lemma RetiredExactly(prior: Candidate, observed: map<Release, string>, renewed: set<Release>, r: Candidate, m: Release)
    requires Retires(prior, observed, renewed, r)
    ensures m in r.uncaptured <==> m in prior.members && !Shown(prior, observed, renewed, m)
    ensures m in r.resolved <==> m in prior.members && Shown(prior, observed, renewed, m)
    ensures r.status == if forall m :: m in prior.members ==> Shown(prior, observed, renewed, m) then ResolvedStatus else prior.status
    ensures !r.changed && r.members == prior.members && r.evidence == prior.evidence && r.id == prior.id
  {
    ShownIs(prior, observed, renewed);
    hide Unseen, Seen, Shown;
    if r.uncaptured != [] {
      assert r.uncaptured[0] in r.uncaptured;
    }
  }

  /** A detected candidate that continues none is reported as it is, under its own id, or a numbered one when its own is taken. */
  lemma NewExactly(detected: seq<Candidate>, previous: seq<Candidate>, observed: map<Release, string>, renewed: set<Release>,
          matches: Matches, result: seq<Candidate>, i: nat)
    requires (forall c :: c in detected ==> IsDetected(c)) && Reconciled(detected, previous, observed, renewed, matches, result)
    requires i < |detected| && forall j :: j in matches ==> matches[j] != i
    ensures |detected| <= |result| && detected[i] in detected && result[i] == detected[i].(id := result[i].id, changed := true)
    ensures if (exists p :: p in previous && p.id == detected[i].id)
               || (exists k :: 0 <= k < i && result[k].id == detected[i].id && forall j :: j in matches ==> matches[j] != k)
            then exists n: nat ::
                   result[i].id == Digest(detected[i].source + "/" + detected[i].key + "/" + detected[i].members[0] + "/" + Decimal(n))
            else result[i].id == detected[i].id
  {
    assert i !in matches.Values;
    hide Greedy, AllContinue, AllRetire, Decimal;
    assert IsNew(detected, previous, matches, result, i);
    forall k
      ensures k in matches.Values <==> exists j :: j in matches && matches[j] == k
    {
    }
    assert detected[i].id in Reserved(previous, matches, result, i) <==>
             (exists p :: p in previous && p.id == detected[i].id)
             || (exists k :: 0 <= k < i && result[k].id == detected[i].id && forall j :: j in matches ==> matches[j] != k);
  }

  /** The report lists who was observed first before the others, and by digest those observed at one time. */
  lemma ReportedInOrder(digest: CandidateId -> string, all: seq<Candidate>)
    ensures var r := Sorted(ReportOrder(digest), all);
            multiset(r) == multiset(all)
            && forall i, j :: 0 <= i < j < |r| ==>
                 r[i].firstObserved < r[j].firstObserved
                 || (r[i].firstObserved == r[j].firstObserved && !Less(digest(r[j].id), digest(r[i].id)))
  {
    ReportOrderIsOrder(digest);
    SortedSorts(ReportOrder(digest), all);
    hide Less, Sorted;
    var r := Sorted(ReportOrder(digest), all);
    assert forall i, j :: 0 <= i < j < |r| ==> !ReportedBefore(digest, r[j], r[i]);
  }

  /** Evidence is listed by kind, and by value within a kind. */
  lemma EvidenceInOrder(s: seq<Evidence>)
    ensures Canonical(s) <==>
              forall i, j :: 0 <= i < j < |s| ==>
                Less(s[i].kind, s[j].kind) || (s[i].kind == s[j].kind && Less(s[i].value, s[j].value))
  {
    forall a: Evidence, b: Evidence
      ensures Earlier(a, b) <==> Less(a.kind, b.kind) || (a.kind == b.kind && Less(a.value, b.value))
    {
      LessSelf(a.kind);
    }
    hide Less, Earlier;
  }
}
