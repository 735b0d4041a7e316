/**
 * Reconciling the candidates detected in a capture with the ones reported before: who keeps which
 * identity, and where every member of an earlier candidate ends up.
 */
module Discovery {
  import opened Common

  type Release = string

  /** A digest, as the text it was taken of. */
  datatype CandidateId = Digest(text: string)

  datatype Evidence = Evidence(kind: string, value: string)

  /** What was captured of a member, and what it counted as evidence. */
  datatype Capture = Capture(capture: string, evidence: string)

  /** The digest of a candidate's evidence; `Unset` before there is one. */
  datatype Fingerprint = Unset | Print(members: map<Release, string>, evidence: seq<Evidence>)

  datatype Status = Possible | NeedsDecision | ResolvedStatus

  datatype Candidate = Candidate(id: CandidateId, source: string, kind: string, key: string,
                                 members: seq<Release>, captures: map<Release, Capture>,
                                 uncaptured: seq<Release>, resolved: seq<Release>,
                                 evidence: seq<Evidence>, fingerprint: Fingerprint, status: Status,
                                 firstObserved: int, lastChange: int, lastReported: Fingerprint,
                                 dismissalReason: string, dismissed: Fingerprint, changed: bool)

  ghost predicate DistinctCandidates(cs: seq<Candidate>) {
    forall i, j :: 0 <= i < j < |cs| ==> cs[i].id != cs[j].id
  }

  /* ---- Evidence ---- */

  predicate Earlier(a: Evidence, b: Evidence) {
    if a.kind == b.kind then Less(a.value, b.value) else Less(a.kind, b.kind)
  }

  /** No two alike, in order: the one way to list a set of evidence. */
  ghost predicate Canonical(s: seq<Evidence>) {
    forall i, j :: 0 <= i < j < |s| ==> Earlier(s[i], s[j])
  }

  lemma EarlierOrder(a: Evidence, b: Evidence)
    ensures Earlier(a, b) || Earlier(b, a) || a == b
    ensures Earlier(a, b) ==> !Earlier(b, a)
    ensures !Earlier(a, a)
  {
    LessSelf(a.kind);
    LessSelf(a.value);
    if Less(a.kind, b.kind) {
      LessAsymmetric(a.kind, b.kind);
    } else if !Less(b.kind, a.kind) {
      LessTotal(a.kind, b.kind);
      if Less(a.value, b.value) {
        LessAsymmetric(a.value, b.value);
      } else if !Less(b.value, a.value) {
        LessTotal(a.value, b.value);
      }
    }
  }

  lemma EarlierTransitive(a: Evidence, b: Evidence, c: Evidence)
    requires !Earlier(b, a) && !Earlier(c, b)
    ensures !Earlier(c, a)
  {
    if a.kind == b.kind == c.kind {
      LessTransitive(a.value, b.value, c.value);
    } else if a.kind != b.kind && b.kind != c.kind {
      LessTransitive(a.kind, b.kind, c.kind);
      if a.kind == c.kind {
        LessTotal(a.kind, b.kind);
      }
    }
  }

  lemma EarlierIsOrder()
    ensures WeakOrder(Earlier)
  {
    forall a, b | Earlier(a, b)
      ensures !Earlier(b, a)
    {
      EarlierOrder(a, b);
    }
    forall a, b, c | !Earlier(b, a) && !Earlier(c, b)
      ensures !Earlier(c, a)
    {
      EarlierTransitive(a, b, c);
    }
  }

  method SortEvidence(s: seq<Evidence>) returns (r: seq<Evidence>)
    ensures multiset(r) == multiset(s) && InOrder(Earlier, r)
  {
    r := SortBy(Earlier, s);
    EarlierIsOrder();
    SortedSorts(Earlier, s);
  }

  /** The result lists exactly the evidence given, once each and in order. */
  method UniqueEvidence(evidence: seq<Evidence>) returns (r: seq<Evidence>)
    ensures Canonical(r) && Elems(r) == Elems(evidence)
  {
    var sorted := SortEvidence(evidence);
    hide Earlier;
    r := [];
    for i := 0 to |sorted|
      invariant Canonical(r) && Elems(r) == Elems(sorted[..i])
      invariant if i == 0 then r == [] else r != [] && r[|r| - 1] == sorted[i - 1]
    {
      var item := sorted[i];
      assert sorted[..i + 1] == sorted[..i] + [item];
      ElemsAppend(sorted[..i], item);
      ElemsAppend(r, item);
      if r == [] || r[|r| - 1] != item {
        AppendCanonical(r, sorted, i);
        r := r + [item];
      }
    }
    assert sorted[..|sorted|] == sorted;
    assert Elems(sorted) == Elems(evidence) by {
      assert forall e :: e in sorted <==> e in multiset(sorted);
      assert forall e :: e in evidence <==> e in multiset(evidence);
    }
  }

  lemma ElemsAppend(s: seq<Evidence>, x: Evidence)
    ensures Elems(s + [x]) == Elems(s) + {x}
  {
  }

  lemma AppendCanonical(r: seq<Evidence>, sorted: seq<Evidence>, i: nat)
    requires i < |sorted| && InOrder(Earlier, sorted) && Canonical(r)
    requires i > 0 ==> r != [] && r[|r| - 1] == sorted[i - 1] && sorted[i - 1] != sorted[i]
    requires i == 0 ==> r == []
    ensures Canonical(r + [sorted[i]])
  {
    hide Earlier;
    forall k | 0 <= k < |r|
      ensures Earlier(r[k], sorted[i])
    {
      EarlierOrder(sorted[i - 1], sorted[i]);
      EarlierOrder(r[k], sorted[i - 1]);
      EarlierOrder(r[k], sorted[i]);
      if k < |r| - 1 {
        assert Earlier(r[k], r[|r| - 1]);
        EarlierTransitive(r[k], sorted[i - 1], sorted[i]);
        if r[k] == sorted[i] {
          assert !Earlier(sorted[i], sorted[i - 1]);
        }
      }
    }
  }

  /** Equal sets of evidence have equal canonical lists, so fingerprints ignore order and repeats. */
  lemma {:induction false} CanonicalIsUnique(s: seq<Evidence>, t: seq<Evidence>)
    requires Canonical(s) && Canonical(t) && Elems(s) == Elems(t)
    ensures s == t
  {
    hide Earlier;
    EmptyEvidence(s);
    EmptyEvidence(t);
    if s == [] {
    } else {
      FirstEvidence(s, t);
      Rest(s);
      Rest(t);
      CanonicalIsUnique(s[1..], t[1..]);
      assert s == [s[0]] + s[1..] && t == [t[0]] + t[1..];
    }
  }

  lemma EmptyEvidence(s: seq<Evidence>)
    ensures s == [] <==> Elems(s) == {}
  {
    if s != [] {
      assert s[0] in Elems(s);
    }
  }

  lemma FirstEvidence(s: seq<Evidence>, t: seq<Evidence>)
    requires Canonical(s) && Canonical(t) && Elems(s) == Elems(t) && s != [] && t != []
    ensures s[0] == t[0]
  {
    hide Earlier;
    assert s[0] in Elems(t) && t[0] in Elems(s);
    var i :| 0 <= i < |t| && t[i] == s[0];
    var j :| 0 <= j < |s| && s[j] == t[0];
    EarlierOrder(s[0], t[0]);
  }

  lemma Rest(s: seq<Evidence>)
    requires Canonical(s) && s != []
    ensures Elems(s[1..]) == Elems(s) - {s[0]}
  {
    hide Earlier;
    EarlierOrder(s[0], s[0]);
    assert s == [s[0]] + s[1..];
    forall e | e in s[1..]
      ensures e != s[0]
    {
      var i :| 0 <= i < |s[1..]| && s[1..][i] == e;
      assert Earlier(s[0], s[i + 1]);
    }
  }

  /* ---- Matching ---- */

  /** What two candidates share: 2 for each common member, and 1 more for the old one's first. */
  function Overlap(c: Candidate, prior: Candidate, n: nat): nat
    requires n <= |prior.members|
  {
    if n == 0 then 0
    else Overlap(c, prior, n - 1) + (if prior.members[n - 1] in c.members then (if n == 1 then 3 else 2) else 0)
  }

  function Score(c: Candidate, prior: Candidate): nat {
    Overlap(c, prior, |prior.members|)
  }

  predicate Open(detected: seq<Candidate>, taken: set<nat>, prior: Candidate, i: nat)
    requires i < |detected|
  {
    i !in taken && detected[i].source == prior.source && Score(detected[i], prior) > 0
  }

  /** The first of the detected candidates that share most, among those still open. */
  ghost predicate IsBest(detected: seq<Candidate>, taken: set<nat>, prior: Candidate, best: Option<nat>) {
    match best
    case None => forall i :: 0 <= i < |detected| ==> !Open(detected, taken, prior, i)
    case Some(b) =>
      && b < |detected| && Open(detected, taken, prior, b)
      && (forall i :: 0 <= i < |detected| && Open(detected, taken, prior, i) ==>
            Score(detected[i], prior) < Score(detected[b], prior) || (Score(detected[i], prior) == Score(detected[b], prior) && b <= i))
  }

  method FindBest(detected: seq<Candidate>, taken: set<nat>, prior: Candidate) returns (best: Option<nat>)
    ensures IsBest(detected, taken, prior, best)
  {
    best := None;
    var score := 0;
    for i := 0 to |detected|
      invariant score == if best.Some? && best.value < i then Score(detected[best.value], prior) else 0
      invariant best.Some? ==> best.value < i && Open(detected, taken, prior, best.value)
      invariant forall j :: 0 <= j < i && Open(detected, taken, prior, j) ==>
                  best.Some? && (Score(detected[j], prior) < score || (Score(detected[j], prior) == score && best.value <= j))
    {
      if i in taken || prior.source != detected[i].source {
        continue;
      }
      var overlap := 0;
      for k := 0 to |prior.members|
        invariant overlap == Overlap(detected[i], prior, k)
      {
        if prior.members[k] in detected[i].members {
          overlap := overlap + 2;
          if k == 0 {
            overlap := overlap + 1;
          }
        }
      }
      if overlap > score {
        best, score := Some(i), overlap;
      }
    }
  }

  /* ---- Where members end up ---- */

  /** The capture speaks for the member: a renewed version, or the very one the candidate was built on. */
  predicate Seen(prior: Candidate, observed: map<Release, string>, renewed: set<Release>, m: Release) {
    m in observed && observed[m] != "" && (m in renewed || observed[m] == CaptureOf(prior, m).capture)
  }

  function CaptureOf(c: Candidate, m: Release): Capture {
    if m in c.captures then c.captures[m] else Capture("", "")
  }

  function Fingerprinted(captures: map<Release, Capture>, evidence: seq<Evidence>): Fingerprint {
    Print(map m | m in captures :: captures[m].evidence, evidence)
  }

  /** The members of the prior candidate that the capture does not speak for. */
  function Unseen(prior: Candidate, observed: map<Release, string>, renewed: set<Release>, n: nat): seq<Release>
    requires n <= |prior.members|
  {
    if n == 0 then []
    else Unseen(prior, observed, renewed, n - 1) +
         (if Seen(prior, observed, renewed, prior.members[n - 1]) then [] else [prior.members[n - 1]])
  }

  lemma {:induction false} UnseenAre(prior: Candidate, observed: map<Release, string>, renewed: set<Release>, n: nat)
    requires n <= |prior.members|
    ensures forall m :: m in Unseen(prior, observed, renewed, n) <==> m in prior.members[..n] && !Seen(prior, observed, renewed, m)
  {
    hide Seen;
    if n == 0 {
    } else {
      UnseenAre(prior, observed, renewed, n - 1);
      assert prior.members[..n] == prior.members[..n - 1] + [prior.members[n - 1]];
    }
  }

  /**
   * The detected candidate `c` continues the old one as `r`: it keeps the identity and the operator's
   * decisions, and every old member is current, unseen and kept, or resolved.
   */
  ghost predicate Continues(c: Candidate, prior: Candidate, observed: map<Release, string>, renewed: set<Release>,
          r: Candidate) {
    var unseen := Unseen(prior, observed, renewed, |prior.members|);
    && r.id == prior.id && r.source == c.source && r.kind == c.kind && r.key == c.key && r.firstObserved == prior.firstObserved
    && r.lastReported == prior.lastReported && r.dismissalReason == prior.dismissalReason && r.dismissed == prior.dismissed
    && Carried(c, prior, unseen, r.members, r.captures)
    && r.uncaptured == c.uncaptured + unseen
    && (forall m :: m in r.resolved <==> m in c.resolved || (m in prior.members && m !in r.members))
    && (if r.uncaptured == [] then r.evidence == c.evidence && r.fingerprint == c.fingerprint
        else Canonical(r.evidence) && Elems(r.evidence) == Elems(c.evidence + prior.evidence) && r.fingerprint == Fingerprinted(r.captures, r.evidence))
    && r.lastChange == (if r.fingerprint == prior.fingerprint then prior.lastChange else c.lastChange)
    && r.status == (if r.dismissed == r.fingerprint then ResolvedStatus else c.status)
    && r.changed == (r.status != ResolvedStatus && (r.fingerprint != prior.lastReported || prior.status == ResolvedStatus))
  }

  /** The members carried over, and their captures. */
  ghost predicate Carried(c: Candidate, prior: Candidate, unseen: seq<Release>, members: seq<Release>,
          captures: map<Release, Capture>) {
    && (forall m :: m in members <==> m in c.members || m in unseen)
    && c.members <= members
    && (forall m :: m in captures <==> m in c.captures || m in unseen)
    && (forall m :: m in captures ==> captures[m] == if m in unseen then CaptureOf(prior, m) else c.captures[m])
  }

  lemma CarryOne(c: Candidate, prior: Candidate, unseen: seq<Release>, members: seq<Release>,
          captures: map<Release, Capture>, m: Release)
    requires Carried(c, prior, unseen, members, captures)
    ensures Carried(c, prior, unseen + [m], if m in members then members else members + [m], captures[m := CaptureOf(prior, m)])
  {
    hide CaptureOf;
  }

  method KeepUnseen(c: Candidate, prior: Candidate, observed: map<Release, string>, renewed: set<Release>)
      returns (members: seq<Release>, captures: map<Release, Capture>, uncaptured: seq<Release>)
    ensures var unseen := Unseen(prior, observed, renewed, |prior.members|);
            uncaptured == c.uncaptured + unseen && Carried(c, prior, unseen, members, captures)
  {
    members, captures, uncaptured := c.members, c.captures, c.uncaptured;
    ghost var unseen: seq<Release> := [];
    assert Carried(c, prior, unseen, members, captures) && unseen == Unseen(prior, observed, renewed, 0);
    hide *;
    for i := 0 to |prior.members|
      invariant unseen == Unseen(prior, observed, renewed, i)
      invariant uncaptured == c.uncaptured + unseen
      invariant Carried(c, prior, unseen, members, captures)
    {
      var m := prior.members[i];
      UnseenNext(prior, observed, renewed, i);
      if !Seen(prior, observed, renewed, m) {
        CarryOne(c, prior, unseen, members, captures, m);
        members := if m in members then members else members + [m];
        captures := captures[m := CaptureOf(prior, m)];
        Appended(c.uncaptured, unseen, m);
        uncaptured, unseen := uncaptured + [m], unseen + [m];
      }
    }
  }

  lemma Appended(front: seq<Release>, back: seq<Release>, m: Release)
    ensures (front + back) + [m] == front + (back + [m])
  {
  }

  lemma UnseenNext(prior: Candidate, observed: map<Release, string>, renewed: set<Release>, n: nat)
    requires n < |prior.members|
    ensures Unseen(prior, observed, renewed, n + 1) ==
              if Seen(prior, observed, renewed, prior.members[n]) then Unseen(prior, observed, renewed, n)
              else Unseen(prior, observed, renewed, n) + [prior.members[n]]
  {
    hide Seen;
  }

  method ResolveMembers(prior: Candidate, members: seq<Release>, before: seq<Release>) returns (resolved: seq<Release>)
    ensures forall m :: m in resolved <==> m in before || (m in prior.members && m !in members)
  {
    resolved := before;
    for i := 0 to |prior.members|
      invariant forall m :: m in resolved <==> m in before || (m in prior.members[..i] && m !in members)
    {
      assert prior.members[..i + 1] == prior.members[..i] + [prior.members[i]];
      if prior.members[i] !in members {
        resolved := resolved + [prior.members[i]];
      }
    }
    assert prior.members[..|prior.members|] == prior.members;
  }

  method Continue(c: Candidate, prior: Candidate, observed: map<Release, string>,
          renewed: set<Release>) returns (r: Candidate)
    ensures Continues(c, prior, observed, renewed, r)
  {
    hide Canonical, Seen, Unseen, CaptureOf, Elems;
    var members, captures, uncaptured := KeepUnseen(c, prior, observed, renewed);
    var evidence, fingerprint := c.evidence, c.fingerprint;
    if |uncaptured| > 0 {
      evidence := UniqueEvidence(c.evidence + prior.evidence);
      fingerprint := Fingerprinted(captures, evidence);
    }
    var lastChange := if fingerprint == prior.fingerprint then prior.lastChange else c.lastChange;
    var status := if prior.dismissed == fingerprint then ResolvedStatus else c.status;
    var changed := status != ResolvedStatus && (fingerprint != prior.lastReported || prior.status == ResolvedStatus);
    var resolved := ResolveMembers(prior, members, c.resolved);
    r := Candidate(prior.id, c.source, c.kind, c.key, members, captures, uncaptured, resolved, evidence, fingerprint, status,
                   prior.firstObserved, lastChange, prior.lastReported, prior.dismissalReason, prior.dismissed, changed);
    hide Fingerprinted;
  }

  /** An old candidate nothing detected continues. */
  ghost predicate Retires(prior: Candidate, observed: map<Release, string>, renewed: set<Release>, r: Candidate) {
    && r == prior.(changed := false, uncaptured := Unseen(prior, observed, renewed, |prior.members|), resolved := r.resolved, status := r.status)
    && (forall m :: m in r.resolved <==> m in prior.members && Seen(prior, observed, renewed, m))
    && r.status == if r.uncaptured == [] then ResolvedStatus else prior.status
  }

  method Retire(prior: Candidate, observed: map<Release, string>, renewed: set<Release>) returns (r: Candidate)
    ensures Retires(prior, observed, renewed, r)
  {
    hide Seen;
    var resolved, uncaptured := [], [];
    for i := 0 to |prior.members|
      invariant uncaptured == Unseen(prior, observed, renewed, i)
      invariant forall m :: m in resolved <==> m in prior.members[..i] && Seen(prior, observed, renewed, m)
    {
      var m := prior.members[i];
      assert prior.members[..i + 1] == prior.members[..i] + [m];
      if Seen(prior, observed, renewed, m) {
        resolved := resolved + [m];
      } else {
        uncaptured := uncaptured + [m];
      }
    }
    assert prior.members[..|prior.members|] == prior.members;
    hide Unseen;
    var status := if |uncaptured| == 0 then ResolvedStatus else prior.status;
    r := prior.(changed := false, uncaptured := uncaptured, resolved := resolved, status := status);
  }

  /* ---- Ids for new candidates ---- */

  function Suffixed(c: Candidate, suffix: nat): CandidateId
    requires c.members != []
  {
    Digest(c.source + "/" + c.key + "/" + c.members[0] + "/" + Decimal(suffix))
  }

  lemma SuffixesDiffer(c: Candidate, a: nat, b: nat)
    requires c.members != [] && a != b
    ensures Suffixed(c, a) != Suffixed(c, b)
  {
    var front := c.source + "/" + c.key + "/" + c.members[0] + "/";
    if Suffixed(c, a) == Suffixed(c, b) {
      assert (front + Decimal(a))[|front|..] == Decimal(a) && (front + Decimal(b))[|front|..] == Decimal(b);
      DecimalInjective(a, b);
    }
  }

  ghost function Tried(c: Candidate, n: nat): set<CandidateId>
    requires c.members != []
  {
    set k | 0 <= k < n :: Suffixed(c, k)
  }

  lemma TriedNext(c: Candidate, n: nat)
    requires c.members != []
    ensures Tried(c, n + 1) == Tried(c, n) + {Suffixed(c, n)} && Suffixed(c, n) !in Tried(c, n)
  {
    hide Suffixed;
    forall k | 0 <= k < n
      ensures Suffixed(c, k) != Suffixed(c, n)
    {
      SuffixesDiffer(c, k, n);
    }
  }

  lemma {:induction false} TriedSize(c: Candidate, n: nat)
    requires c.members != []
    ensures |Tried(c, n)| == n
  {
    if n == 0 {
      assert Tried(c, n) == {};
    } else {
      TriedSize(c, n - 1);
      TriedNext(c, n - 1);
      hide Tried, Suffixed;
    }
  }

  lemma TriedFit(c: Candidate, n: nat, reserved: set<CandidateId>)
    requires c.members != [] && forall k :: 0 <= k < n ==> Suffixed(c, k) in reserved
    ensures n <= |reserved|
  {
    TriedSize(c, n);
    hide Suffixed;
    SubsetSize(Tried(c, n), reserved);
  }

  /** The candidate's own id, or the first of its numbered ones that is free; there always is one. */
  ghost predicate IsFree(c: Candidate, reserved: set<CandidateId>, id: CandidateId)
    requires c.members != []
  {
    && id !in reserved
    && (id == c.id || (c.id in reserved && exists n: nat :: id == Suffixed(c, n) && forall k :: 0 <= k < n ==> Suffixed(c, k) in reserved))
  }

  method FreeId(c: Candidate, reserved: set<CandidateId>) returns (id: CandidateId)
    requires c.members != []
    ensures IsFree(c, reserved, id)
  {
    hide Suffixed;
    id := c.id;
    var suffix := 0;
    while id in reserved
      invariant suffix == 0 ==> id == c.id
      invariant suffix > 0 ==> c.id in reserved && id == Suffixed(c, suffix - 1)
      invariant forall k :: 0 <= k < suffix - 1 ==> Suffixed(c, k) in reserved
      decreases |reserved| + 1 - suffix
    {
      TriedFit(c, suffix, reserved);
      id := Suffixed(c, suffix);
      suffix := suffix + 1;
    }
  }

  /* ---- Reconciling ---- */

  /** Prior candidate `j` is continued by detected candidate `matches[j]`. */
  type Matches = map<nat, nat>

  function Taken(matches: Matches, n: nat): set<nat> {
    set j | j in matches && j < n :: matches[j]
  }

  function MatchOf(matches: Matches, j: nat): Option<nat> {
    if j in matches then Some(matches[j]) else None
  }

  /** One after the other, the first `n` prior candidates took what fitted them best. */
  ghost predicate Greedy(detected: seq<Candidate>, previous: seq<Candidate>, matches: Matches, n: nat)
    requires n <= |previous|
  {
    && (forall j :: j in matches ==> j < n && matches[j] < |detected|)
    && (forall j :: 0 <= j < n ==> IsBest(detected, Taken(matches, j), previous[j], MatchOf(matches, j)))
  }

  ghost predicate AllContinue(detected: seq<Candidate>, previous: seq<Candidate>, observed: map<Release, string>,
                              renewed: set<Release>, matches: Matches, result: seq<Candidate>)
    requires |detected| <= |result|
  {
    forall j :: j in matches ==>
      && j < |previous| && matches[j] < |detected|
      && Continues(detected[matches[j]], previous[j], observed, renewed, result[matches[j]])
  }

  /** Ids that candidate `i` may not take when it is new: all earlier ones. */
  ghost function Reserved(previous: seq<Candidate>, matches: Matches, result: seq<Candidate>, i: nat): set<CandidateId>
    requires i <= |result|
  {
    (set p | p in previous :: p.id) + (set k | 0 <= k < i && k !in matches.Values :: result[k].id)
  }

  ghost predicate IsNew(detected: seq<Candidate>, previous: seq<Candidate>, matches: Matches, result: seq<Candidate>,
          i: nat)
    requires i < |detected| <= |result| && IsDetected(detected[i])
  {
    && result[i] == detected[i].(id := result[i].id, changed := true)
    && IsFree(detected[i], Reserved(previous, matches, result, i), result[i].id)
  }

  function Unmatched(matches: Matches, n: nat): seq<nat> {
    if n == 0 then [] else Unmatched(matches, n - 1) + (if n - 1 in matches then [] else [n - 1])
  }

  ghost predicate AreUnmatched(places: seq<nat>, matches: Matches, n: nat) {
    && (forall i :: 0 <= i < |places| ==> places[i] < n && places[i] !in matches)
    && (forall i, j :: 0 <= i < j < |places| ==> places[i] < places[j])
  }

  lemma {:induction false} UnmatchedAre(matches: Matches, n: nat)
    ensures AreUnmatched(Unmatched(matches, n), matches, n)
  {
    if n == 0 {
    } else {
      UnmatchedAre(matches, n - 1);
    }
  }

  lemma {:induction false} PlaceOfUnmatched(matches: Matches, n: nat, j: nat) returns (t: nat)
    requires j < n && j !in matches
    ensures t < |Unmatched(matches, n)| && Unmatched(matches, n)[t] == j
  {
    if j == n - 1 {
      t := |Unmatched(matches, n - 1)|;
    } else {
      t := PlaceOfUnmatched(matches, n - 1, j);
    }
  }

  ghost predicate AllRetire(previous: seq<Candidate>, observed: map<Release, string>, renewed: set<Release>,
                            unmatched: seq<nat>, tail: seq<Candidate>)
  {
    && |tail| == |unmatched|
    && forall t :: 0 <= t < |unmatched| ==>
         unmatched[t] < |previous| && Retires(previous[unmatched[t]], observed, renewed, tail[t])
  }

  /** A group of the current capture: it has members, and nothing carried over yet. */
  predicate IsDetected(c: Candidate) {
    c.members != [] && c.uncaptured == [] && c.resolved == []
  }

  ghost predicate Reconciled(detected: seq<Candidate>, previous: seq<Candidate>, observed: map<Release, string>,
                             renewed: set<Release>, matches: Matches, result: seq<Candidate>)
    requires forall c :: c in detected ==> IsDetected(c)
  {
    && |detected| <= |result|
    && Greedy(detected, previous, matches, |previous|)
    && AllContinue(detected, previous, observed, renewed, matches, result)
    && (forall i :: 0 <= i < |detected| && i !in matches.Values ==> IsNew(detected, previous, matches, result, i))
    && AllRetire(previous, observed, renewed, Unmatched(matches, |previous|), result[|detected|..])
  }

  lemma TakenAll(matches: Matches, n: nat)
    requires forall j :: j in matches ==> j < n
    ensures Taken(matches, n) == matches.Values
  {
  }

  lemma TakenBefore(matches: Matches, more: Matches, n: nat, j: nat)
    requires j <= n && forall k :: k != n ==> (k in matches <==> k in more) && (k in matches ==> matches[k] == more[k])
    ensures Taken(more, j) == Taken(matches, j)
  {
    forall x
      ensures x in Taken(more, j) <==> x in Taken(matches, j)
    {
      if x in Taken(more, j) {
        var k :| k in more && k < j && more[k] == x;
      }
      if x in Taken(matches, j) {
        var k :| k in matches && k < j && matches[k] == x;
      }
    }
  }

  /** Only candidates that are still open matter, and those have not changed yet. */
  lemma BestBefore(detected: seq<Candidate>, current: seq<Candidate>, taken: set<nat>, prior: Candidate,
          best: Option<nat>)
    requires |current| == |detected| && forall i :: 0 <= i < |detected| && i !in taken ==> current[i] == detected[i]
    requires IsBest(current, taken, prior, best)
    ensures IsBest(detected, taken, prior, best)
  {
    hide Score;
    forall i | 0 <= i < |detected|
      ensures Open(detected, taken, prior, i) <==> Open(current, taken, prior, i)
    {
    }
  }

  lemma BestIsOpen(detected: seq<Candidate>, taken: set<nat>, prior: Candidate, best: Option<nat>)
    requires IsBest(detected, taken, prior, best)
    ensures best.Some? ==> best.value < |detected| && best.value !in taken && Score(detected[best.value], prior) > 0
  {
  }

  lemma GreedyNext(detected: seq<Candidate>, previous: seq<Candidate>, matches: Matches, n: nat, best: Option<nat>)
    requires n < |previous| && Greedy(detected, previous, matches, n)
    requires IsBest(detected, matches.Values, previous[n], best)
    ensures Greedy(detected, previous, if best.Some? then matches[n := best.value] else matches, n + 1)
    ensures best.Some? ==> best.value < |detected| && best.value !in matches.Values
  {
    hide IsBest;
    var more := if best.Some? then matches[n := best.value] else matches;
    TakenAll(matches, n);
    forall j | 0 <= j <= n
      ensures Taken(more, j) == Taken(matches, j)
    {
      TakenBefore(matches, more, n, j);
    }
    BestIsOpen(detected, matches.Values, previous[n], best);
  }

  lemma ContinueNext(detected: seq<Candidate>, previous: seq<Candidate>, observed: map<Release, string>,
          renewed: set<Release>,
                     matches: Matches, current: seq<Candidate>, n: nat, b: nat, continued: Candidate)
    requires |current| == |detected| && AllContinue(detected, previous, observed, renewed, matches, current)
    requires n < |previous| && b < |detected| && b !in matches.Values
    requires Continues(detected[b], previous[n], observed, renewed, continued)
    ensures AllContinue(detected, previous, observed, renewed, matches[n := b], current[b := continued])
  {
    hide Continues;
    assert forall j :: j in matches ==> matches[j] in matches.Values;
  }

  method MatchAll(detected: seq<Candidate>, previous: seq<Candidate>, observed: map<Release, string>,
          renewed: set<Release>)
      returns (current: seq<Candidate>, taken: set<nat>, used: set<CandidateId>, ghost matches: Matches)
    ensures Greedy(detected, previous, matches, |previous|) && taken == matches.Values
    ensures |current| == |detected| && AllContinue(detected, previous, observed, renewed, matches, current)
    ensures forall i :: 0 <= i < |detected| && i !in taken ==> current[i] == detected[i]
    ensures forall id :: id in used <==> exists j :: j in matches && j < |previous| && previous[j].id == id
  {
    hide IsBest, Continues;
    current, taken, used, matches := detected, {}, {}, map[];
    for n := 0 to |previous|
      invariant Greedy(detected, previous, matches, n) && taken == matches.Values
      invariant |current| == |detected| && AllContinue(detected, previous, observed, renewed, matches, current)
      invariant forall i :: 0 <= i < |detected| && i !in taken ==> current[i] == detected[i]
      invariant forall id :: id in used <==> exists j :: j in matches && j < |previous| && previous[j].id == id
    {
      var prior := previous[n];
      var best := FindBest(current, taken, prior);
      BestBefore(detected, current, taken, prior, best);
      GreedyNext(detected, previous, matches, n, best);
      hide Greedy;
      if best.Some? {
        var continued := Continue(current[best.value], prior, observed, renewed);
        ContinueNext(detected, previous, observed, renewed, matches, current, n, best.value, continued);
        hide AllContinue;
        taken := taken + {best.value};
        used := used + {prior.id};
        matches := matches[n := best.value];
        current := current[best.value := continued];
      }
    }
  }

  lemma ReservedNext(previous: seq<Candidate>, matches: Matches, before: seq<Candidate>, after: seq<Candidate>, i: nat)
    requires i < |before| == |after| && after == before[i := after[i]]
    ensures Reserved(previous, matches, after, i) == Reserved(previous, matches, before, i)
    ensures Reserved(previous, matches, after, i + 1) ==
              Reserved(previous, matches, after, i) + (if i in matches.Values then {} else {after[i].id})
    ensures forall k :: 0 <= k <= i ==> Reserved(previous, matches, after, k) == Reserved(previous, matches, before, k)
  {
  }

  method NameAll(ghost detected: seq<Candidate>, previous: seq<Candidate>, matched: seq<Candidate>, taken: set<nat>,
                 ghost matches: Matches) returns (current: seq<Candidate>)
    requires |matched| == |detected| && taken == matches.Values && forall c :: c in detected ==> IsDetected(c)
    requires forall i :: 0 <= i < |detected| && i !in taken ==> matched[i] == detected[i]
    ensures |current| == |detected| && forall i :: 0 <= i < |detected| && i in taken ==> current[i] == matched[i]
    ensures forall i :: 0 <= i < |detected| && i !in taken ==> IsNew(detected, previous, matches, current, i)
  {
    hide IsFree;
    current := matched;
    var reserved := set p | p in previous :: p.id;
    for index := 0 to |matched|
      invariant |current| == |detected|
      invariant reserved == Reserved(previous, matches, current, index)
      invariant forall i :: 0 <= i < |detected| && (i in taken || i >= index) ==> current[i] == matched[i]
      invariant forall i :: 0 <= i < index && i !in taken ==> IsNew(detected, previous, matches, current, i)
    {
      hide Reserved;
      ghost var before := current;
      if index !in taken {
        assert IsDetected(detected[index]);
        var id := FreeId(current[index], reserved);
        reserved := reserved + {id};
        current := current[index := current[index].(id := id, changed := true)];
      }
      ReservedNext(previous, matches, before, current, index);
    }
  }

  method RetireAll(previous: seq<Candidate>, observed: map<Release, string>, renewed: set<Release>,
          used: set<CandidateId>,
                   ghost matches: Matches) returns (tail: seq<Candidate>)
    requires DistinctCandidates(previous)
    requires forall id :: id in used <==> exists j :: j in matches && j < |previous| && previous[j].id == id
    ensures AllRetire(previous, observed, renewed, Unmatched(matches, |previous|), tail)
  {
    hide Retires;
    tail := [];
    for n := 0 to |previous|
      invariant AllRetire(previous, observed, renewed, Unmatched(matches, n), tail)
    {
      var prior := previous[n];
      if prior.id in used {
        continue;
      }
      var retired := Retire(prior, observed, renewed);
      tail := tail + [retired];
    }
  }

  /** Longest observed first, and by id when observed together. */
  predicate ReportedBefore(digest: CandidateId -> string, a: Candidate, b: Candidate) {
    if a.firstObserved == b.firstObserved then Less(digest(a.id), digest(b.id)) else a.firstObserved < b.firstObserved
  }

  function ReportOrder(digest: CandidateId -> string): (Candidate, Candidate) -> bool {
    (a, b) => ReportedBefore(digest, a, b)
  }

  lemma ReportOrderIsOrder(digest: CandidateId -> string)
    ensures WeakOrder(ReportOrder(digest))
  {
    LessIsOrder();
  }

  /** The result in the order of the report is still the reconciliation of the same candidates. */
  ghost predicate Reports(detected: seq<Candidate>, previous: seq<Candidate>, observed: map<Release, string>,
                          renewed: set<Release>, digest: CandidateId -> string, result: seq<Candidate>)
    requires forall c :: c in detected ==> IsDetected(c)
  {
    exists matches: Matches, all: seq<Candidate> ::
      Reconciled(detected, previous, observed, renewed, matches, all) && result == Sorted(ReportOrder(digest), all)
  }

  /** The whole reconciliation: distinct ids, every prior candidate accounted for, every detected one kept. */
  method Reconcile(detected: seq<Candidate>, previous: seq<Candidate>, observed: map<Release, string>,
          renewed: set<Release>, digest: CandidateId -> string)
      returns (result: seq<Candidate>)
    requires DistinctCandidates(previous) && forall c :: c in detected ==> IsDetected(c)
    ensures Reports(detected, previous, observed, renewed, digest, result)
    ensures DistinctCandidates(result) && InOrder(ReportOrder(digest), result)
    ensures forall p :: p in previous ==> Accounted(p, observed, renewed, result)
    ensures forall d :: d in detected ==> Represented(d, result)
  {
    hide Greedy, AllContinue, AllRetire, IsNew, DistinctCandidates, Unmatched, Accounted, InOrder, ReportOrder, Represented;
    var current, taken, used: set<CandidateId>;
    ghost var matches: Matches;
    current, taken, used, matches := MatchAll(detected, previous, observed, renewed);
    var named := NameAll(detected, previous, current, taken, matches);
    var tail := RetireAll(previous, observed, renewed, used, matches);
    ContinueStays(detected, previous, observed, renewed, matches, current, named + tail);
    NewStays(detected, previous, matches, named, tail);
    var all := named + tail;
    assert all[|detected|..] == tail;
    assert Reconciled(detected, previous, observed, renewed, matches, all);
    result := SortBy(ReportOrder(digest), all);
    Guarantees(detected, previous, observed, renewed, matches, all, digest);
  }

  /** Every detected group is there, with its members. */
  ghost predicate Represented(d: Candidate, result: seq<Candidate>) {
    exists r :: r in result && r.source == d.source && d.members <= r.members
  }

  /** The result has this prior candidate's id, on a candidate that accounts for its members. */
  ghost predicate Accounted(prior: Candidate, observed: map<Release, string>, renewed: set<Release>,
          result: seq<Candidate>) {
    exists r :: r in result && AccountsFor(prior, observed, renewed, r)
  }

  lemma Guarantees(detected: seq<Candidate>, previous: seq<Candidate>, observed: map<Release, string>,
          renewed: set<Release>,
                   matches: Matches, all: seq<Candidate>, digest: CandidateId -> string)
    requires DistinctCandidates(previous) && forall c :: c in detected ==> IsDetected(c)
    requires Reconciled(detected, previous, observed, renewed, matches, all)
    ensures var result := Sorted(ReportOrder(digest), all);
            && DistinctCandidates(result) && InOrder(ReportOrder(digest), result)
            && (forall p :: p in previous ==> Accounted(p, observed, renewed, result))
            && (forall d :: d in detected ==> Represented(d, result))
  {
    ReconciledIdsDistinct(detected, previous, observed, renewed, matches, all);
    hide Reconciled, Sorted, ReportOrder, InOrder, DistinctCandidates, AccountsFor;
    var result := Sorted(ReportOrder(digest), all);
    InReportOrder(digest, all);
    forall p | p in previous
      ensures Accounted(p, observed, renewed, result)
    {
      IsAccounted(detected, previous, observed, renewed, matches, all, p);
    }
    forall d | d in detected
      ensures Represented(d, result)
    {
      IsRepresented(detected, previous, observed, renewed, matches, all, d);
    }
  }

  lemma InReportOrder(digest: CandidateId -> string, all: seq<Candidate>)
    requires DistinctCandidates(all)
    ensures var result := Sorted(ReportOrder(digest), all);
            DistinctCandidates(result) && InOrder(ReportOrder(digest), result) && forall r :: r in all ==> r in result
  {
    var result := Sorted(ReportOrder(digest), all);
    ReportOrderIsOrder(digest);
    SortedSorts(ReportOrder(digest), all);
    hide Sorted, ReportOrder;
    DistinctInAnyOrder((c: Candidate) => c.id, all, result);
    forall r | r in all
      ensures r in result
    {
      assert r in multiset(result);
    }
  }

  lemma IsAccounted(detected: seq<Candidate>, previous: seq<Candidate>, observed: map<Release, string>,
          renewed: set<Release>, matches: Matches, all: seq<Candidate>, p: Candidate)
    requires DistinctCandidates(previous) && forall c :: c in detected ==> IsDetected(c)
    requires Reconciled(detected, previous, observed, renewed, matches, all) && p in previous
    ensures Accounted(p, observed, renewed, all)
  {
    var j :| 0 <= j < |previous| && previous[j] == p;
    hide Reconciled, AccountsFor, DistinctCandidates;
    var i := PreviousKept(detected, previous, observed, renewed, matches, all, j);
    assert all[i] in all;
  }

  lemma IsRepresented(detected: seq<Candidate>, previous: seq<Candidate>, observed: map<Release, string>,
          renewed: set<Release>, matches: Matches, all: seq<Candidate>, d: Candidate)
    requires DistinctCandidates(previous) && forall c :: c in detected ==> IsDetected(c)
    requires Reconciled(detected, previous, observed, renewed, matches, all) && d in detected
    ensures Represented(d, all)
  {
    ResultSize(detected, previous, observed, renewed, matches, all);
    var i :| 0 <= i < |detected| && detected[i] == d;
    hide Reconciled, DistinctCandidates;
    DetectedKept(detected, previous, observed, renewed, matches, all, i);
    assert all[i] in all;
  }

  lemma ContinueStays(detected: seq<Candidate>, previous: seq<Candidate>, observed: map<Release, string>,
          renewed: set<Release>,
                      matches: Matches, current: seq<Candidate>, result: seq<Candidate>)
    requires |detected| == |current| <= |result| && AllContinue(detected, previous, observed, renewed, matches, current)
    requires forall i :: 0 <= i < |detected| && i in matches.Values ==> result[i] == current[i]
    ensures AllContinue(detected, previous, observed, renewed, matches, result)
  {
    hide Continues;
    assert forall j :: j in matches ==> matches[j] in matches.Values;
  }

  lemma NewStays(detected: seq<Candidate>, previous: seq<Candidate>, matches: Matches, named: seq<Candidate>,
          tail: seq<Candidate>)
    requires |named| == |detected| && forall c :: c in detected ==> IsDetected(c)
    requires forall i :: 0 <= i < |detected| && i !in matches.Values ==> IsNew(detected, previous, matches, named, i)
    ensures forall i :: 0 <= i < |detected| && i !in matches.Values ==> IsNew(detected, previous, matches, named + tail, i)
  {
    hide IsFree;
    forall i | 0 <= i < |detected| && i !in matches.Values
      ensures IsNew(detected, previous, matches, named + tail, i)
    {
      assert IsNew(detected, previous, matches, named, i);
      assert Reserved(previous, matches, named + tail, i) == Reserved(previous, matches, named, i);
    }
  }

  /* ---- What reconciling guarantees ---- */

  /** The result at `i` carries the identity of prior candidate `j`. */
  ghost predicate Carries(size: nat, matches: Matches, count: nat, i: nat, j: nat) {
    || (j in matches && matches[j] == i)
    || (i >= size && i - size < |Unmatched(matches, count)| && Unmatched(matches, count)[i - size] == j)
  }

  /** Each place carries at most one prior identity, and each prior identity is in exactly one place. */
  lemma OnePlace(detected: seq<Candidate>, previous: seq<Candidate>, matches: Matches, i: nat, j: nat, k: nat, l: nat)
    requires Greedy(detected, previous, matches, |previous|)
    requires Carries(|detected|, matches, |previous|, i, j) && Carries(|detected|, matches, |previous|, k, l)
    ensures i == k <==> j == l
  {
    UnmatchedAre(matches, |previous|);
    hide Unmatched;
    if j in matches && l in matches {
      MatchesInjective(detected, previous, matches, j, l);
    }
    hide Greedy;
    assert j in matches ==> matches[j] < |detected|;
    assert l in matches ==> matches[l] < |detected|;
  }

  lemma LaterTakesAnother(detected: seq<Candidate>, previous: seq<Candidate>, matches: Matches, j: nat, l: nat)
    requires Greedy(detected, previous, matches, |previous|)
    requires j in matches && l in matches && j < l
    ensures matches[j] != matches[l]
  {
    hide IsBest;
    assert IsBest(detected, Taken(matches, l), previous[l], MatchOf(matches, l));
    BestIsOpen(detected, Taken(matches, l), previous[l], MatchOf(matches, l));
    assert matches[j] in Taken(matches, l);
  }

  lemma MatchesInjective(detected: seq<Candidate>, previous: seq<Candidate>, matches: Matches, j: nat, l: nat)
    requires Greedy(detected, previous, matches, |previous|) && j in matches && l in matches
    ensures matches[j] == matches[l] ==> j == l
  {
    hide Greedy;
    if j < l {
      LaterTakesAnother(detected, previous, matches, j, l);
    } else if l < j {
      LaterTakesAnother(detected, previous, matches, l, j);
    }
  }

  lemma ResultSize(detected: seq<Candidate>, previous: seq<Candidate>, observed: map<Release, string>,
          renewed: set<Release>,
                   matches: Matches, result: seq<Candidate>)
    requires (forall c :: c in detected ==> IsDetected(c)) && Reconciled(detected, previous, observed, renewed, matches, result)
    ensures |result| == |detected| + |Unmatched(matches, |previous|)|
    ensures forall j :: j in matches ==> j < |previous| && matches[j] < |detected|
  {
    hide Unmatched, IsNew, AllContinue, IsBest, Retires;
  }

  lemma HasPlace(detected: seq<Candidate>, previous: seq<Candidate>, observed: map<Release, string>,
          renewed: set<Release>,
                 matches: Matches, result: seq<Candidate>, j: nat) returns (i: nat)
    requires (forall c :: c in detected ==> IsDetected(c)) && Reconciled(detected, previous, observed, renewed, matches, result)
    requires j < |previous|
    ensures i < |result| && Carries(|detected|, matches, |previous|, i, j)
  {
    hide Unmatched, Reconciled, IsDetected;
    ResultSize(detected, previous, observed, renewed, matches, result);
    if j in matches {
      i := matches[j];
    } else {
      var t := PlaceOfUnmatched(matches, |previous|, j);
      i := |detected| + t;
    }
  }

  /** A member of a prior candidate is uncaptured exactly when the capture does not speak for it, else current or resolved. */
  ghost predicate AccountsFor(prior: Candidate, observed: map<Release, string>, renewed: set<Release>, r: Candidate) {
    && r.id == prior.id
    && forall m :: m in prior.members ==>
         && (m in r.uncaptured <==> !Seen(prior, observed, renewed, m))
         && (m in r.uncaptured || m in r.resolved || m in r.members)
  }

  lemma ContinuesAccounts(c: Candidate, prior: Candidate, observed: map<Release, string>, renewed: set<Release>,
          r: Candidate)
    requires Continues(c, prior, observed, renewed, r) && IsDetected(c)
    ensures AccountsFor(prior, observed, renewed, r) && c.members <= r.members
  {
    UnseenAre(prior, observed, renewed, |prior.members|);
    hide Seen, Unseen, CaptureOf, Fingerprinted, Canonical;
    assert prior.members[..|prior.members|] == prior.members;
  }

  lemma RetiresAccounts(prior: Candidate, observed: map<Release, string>, renewed: set<Release>, r: Candidate)
    requires Retires(prior, observed, renewed, r)
    ensures AccountsFor(prior, observed, renewed, r)
  {
    UnseenAre(prior, observed, renewed, |prior.members|);
    hide Seen, Unseen;
    assert prior.members[..|prior.members|] == prior.members;
  }

  lemma CarriedAccounts(detected: seq<Candidate>, previous: seq<Candidate>, observed: map<Release, string>,
          renewed: set<Release>,
                        matches: Matches, result: seq<Candidate>, i: nat, j: nat)
    requires (forall c :: c in detected ==> IsDetected(c)) && Reconciled(detected, previous, observed, renewed, matches, result)
    requires i < |result| && j < |previous| && Carries(|detected|, matches, |previous|, i, j)
    ensures AccountsFor(previous[j], observed, renewed, result[i])
  {
    UnmatchedAre(matches, |previous|);
    hide Unmatched, IsNew, IsBest, Retires, Continues, AccountsFor;
    if j in matches && matches[j] == i {
      assert IsDetected(detected[i]);
      ContinuesAccounts(detected[i], previous[j], observed, renewed, result[i]);
    } else {
      var t := i - |detected|;
      assert result[|detected|..][t] == result[i];
      RetiresAccounts(previous[j], observed, renewed, result[i]);
    }
  }

  lemma SomeCarry(size: nat, count: nat, matches: Matches, i: nat)
    requires i < size + |Unmatched(matches, count)| && forall j :: j in matches ==> j < count
    ensures i >= size || i in matches.Values ==> exists j: nat :: j < count && Carries(size, matches, count, i, j)
  {
    UnmatchedAre(matches, count);
    hide Unmatched;
    if i >= size {
      var j := Unmatched(matches, count)[i - size];
      assert Carries(size, matches, count, i, j);
    } else if i in matches.Values {
      var j :| j in matches && matches[j] == i;
      assert Carries(size, matches, count, i, j);
    }
  }

  /** A place that carries no prior identity has an id that neither a prior candidate nor an earlier new one has. */
  lemma NewIsNew(detected: seq<Candidate>, previous: seq<Candidate>, observed: map<Release, string>,
          renewed: set<Release>,
                 matches: Matches, result: seq<Candidate>, i: nat)
    requires (forall c :: c in detected ==> IsDetected(c)) && Reconciled(detected, previous, observed, renewed, matches, result)
    requires i < |result| && forall j: nat :: j < |previous| ==> !Carries(|detected|, matches, |previous|, i, j)
    ensures i < |detected| && i !in matches.Values && result[i].id !in Reserved(previous, matches, result, i)
  {
    ResultSize(detected, previous, observed, renewed, matches, result);
    SomeCarry(|detected|, |previous|, matches, i);
    hide Unmatched, Carries, IsBest, Retires, Continues, Reserved;
    assert IsNew(detected, previous, matches, result, i);
  }

  /** No two candidates share an id. */
  lemma ReconciledIdsDistinct(detected: seq<Candidate>, previous: seq<Candidate>, observed: map<Release, string>,
          renewed: set<Release>,
                              matches: Matches, result: seq<Candidate>)
    requires DistinctCandidates(previous)
    requires (forall c :: c in detected ==> IsDetected(c)) && Reconciled(detected, previous, observed, renewed, matches, result)
    ensures DistinctCandidates(result)
  {
    forall i, k | 0 <= i < k < |result|
      ensures result[i].id != result[k].id
    {
      TwoPlaces(detected, previous, observed, renewed, matches, result, i, k);
    }
  }

  lemma TwoPlaces(detected: seq<Candidate>, previous: seq<Candidate>, observed: map<Release, string>,
          renewed: set<Release>,
                  matches: Matches, result: seq<Candidate>, i: nat, k: nat)
    requires DistinctCandidates(previous)
    requires (forall c :: c in detected ==> IsDetected(c)) && Reconciled(detected, previous, observed, renewed, matches, result)
    requires i < k < |result|
    ensures result[i].id != result[k].id
  {
    var size, count := |detected|, |previous|;
    if exists j: nat :: j < count && Carries(size, matches, count, i, j) {
      var j: nat :| j < count && Carries(size, matches, count, i, j);
      CarriedAccounts(detected, previous, observed, renewed, matches, result, i, j);
      if exists l: nat :: l < count && Carries(size, matches, count, k, l) {
        var l: nat :| l < count && Carries(size, matches, count, k, l);
        CarriedAccounts(detected, previous, observed, renewed, matches, result, k, l);
        OnePlace(detected, previous, matches, i, j, k, l);
      } else {
        NewIsNew(detected, previous, observed, renewed, matches, result, k);
        assert previous[j] in previous;
      }
    } else {
      NewIsNew(detected, previous, observed, renewed, matches, result, i);
      if exists l: nat :: l < count && Carries(size, matches, count, k, l) {
        var l: nat :| l < count && Carries(size, matches, count, k, l);
        CarriedAccounts(detected, previous, observed, renewed, matches, result, k, l);
        assert previous[l] in previous;
      } else {
        NewIsNew(detected, previous, observed, renewed, matches, result, k);
      }
    }
  }

  /** Every prior id is there exactly once, and its candidate accounts for every prior member. */
  lemma PreviousKept(detected: seq<Candidate>, previous: seq<Candidate>, observed: map<Release, string>,
          renewed: set<Release>,
                     matches: Matches, result: seq<Candidate>, j: nat) returns (i: nat)
    requires DistinctCandidates(previous) && j < |previous|
    requires (forall c :: c in detected ==> IsDetected(c)) && Reconciled(detected, previous, observed, renewed, matches, result)
    ensures i < |result| && AccountsFor(previous[j], observed, renewed, result[i])
    ensures forall k :: 0 <= k < |result| && k != i ==> result[k].id != previous[j].id
  {
    i := HasPlace(detected, previous, observed, renewed, matches, result, j);
    CarriedAccounts(detected, previous, observed, renewed, matches, result, i, j);
    ReconciledIdsDistinct(detected, previous, observed, renewed, matches, result);
    hide Reconciled;
  }

  /** Every detected candidate is there with all its members, and takes an identity only from one it shares a member with. */
  lemma DetectedKept(detected: seq<Candidate>, previous: seq<Candidate>, observed: map<Release, string>,
          renewed: set<Release>,
                     matches: Matches, result: seq<Candidate>, i: nat)
    requires DistinctCandidates(previous) && i < |detected|
    requires (forall c :: c in detected ==> IsDetected(c)) && Reconciled(detected, previous, observed, renewed, matches, result)
    ensures result[i].source == detected[i].source && detected[i].members <= result[i].members
    ensures forall p :: p in previous && p.id == result[i].id ==>
              p.source == detected[i].source && exists m :: m in p.members && m in detected[i].members
  {
    hide Unmatched;
    assert IsDetected(detected[i]);
    if i in matches.Values {
      var j :| j in matches && matches[j] == i;
      ContinuesAccounts(detected[i], previous[j], observed, renewed, result[i]);
      assert IsBest(detected, Taken(matches, j), previous[j], MatchOf(matches, j));
      OverlapShares(detected[i], previous[j], |previous[j].members|);
      hide Continues, IsNew, AllRetire, Greedy;
    } else {
      hide AllContinue, AllRetire, Greedy;
      assert IsNew(detected, previous, matches, result, i);
    }
  }

  lemma {:induction false} OverlapShares(c: Candidate, prior: Candidate, n: nat)
    requires n <= |prior.members| && Overlap(c, prior, n) > 0
    ensures exists m :: m in prior.members && m in c.members
  {
    if prior.members[n - 1] in c.members {
    } else {
      OverlapShares(c, prior, n - 1);
    }
  }
}
