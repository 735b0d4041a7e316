/**
 * What one filesystem target delivers and remembers: candidates, volume editions and publish
 * records. Hashes stand for contents, so two equal hashes are the same bytes; a publish hash is
 * the pair it digests.
 */
module Ledger {
  import opened Common

  type Id = string
  type Hash = string

  /** A destination: target root, source, track and file name joined. The root is fixed here. */
  datatype Path = Dest(source: Id, track: Id, filename: string)

  datatype Status = Publishing | Published | Failed | Superseded

  datatype Artifact = Artifact(id: Id, release: Id, track: Id, sha: Hash)

  /** `release` is empty for a volume; `volume` holds the member releases of its edition. */
  datatype Candidate = Candidate(artifact: Artifact, release: Id, source: Id, trackKey: Id,
                                 filename: string, volume: Option<seq<Id>>, planned: bool)
  {
    function Ref(): Path {
      Dest(source, trackKey, filename)
    }

    function Hash(): PublishHash {
      PublishHash(artifact.sha, Ref())
    }

    /** The chapters this candidate delivers. */
    function Chapters(): set<Id> {
      if volume.Some? then Elems(volume.value) else {release}
    }
  }

  datatype PublishHash = PublishHash(sha: Hash, ref: Path)

  datatype Record = Record(id: nat, artifact: Artifact, release: Id, ref: Path, filename: string,
                           hash: PublishHash, status: Status)
  {
    /** A record that entitles its bytes to occupy its path. */
    predicate Live() {
      status == Published || status == Publishing
    }
  }

  datatype Edition = Edition(artifact: Id, members: seq<Id>)

  type Files = map<Path, Hash>

  /** The shape the store's keys and joins guarantee. */
  ghost predicate ValidLedger(ledger: seq<Record>, nextId: nat) {
    && (forall i :: 0 <= i < |ledger| ==> ledger[i].id < nextId)
    && (forall i, j :: 0 <= i < j < |ledger| ==>
          ledger[i].id != ledger[j].id && !SameRow(ledger[i], ledger[j]))
    && (forall i :: 0 <= i < |ledger| ==> ValidRecord(ledger[i]))
  }

  ghost predicate ValidRecord(r: Record) {
    && r.hash == PublishHash(r.artifact.sha, r.ref)
    && (r.filename == "" || r.filename == r.ref.filename)
    && (r.status == Published ==> r.filename == r.ref.filename)
  }

  /** The store's UNIQUE (artifact, target, publish hash) constraint. */
  predicate SameRow(a: Record, b: Record) {
    a.artifact.id == b.artifact.id && a.hash == b.hash
  }

  /** One artifact id names one artifact, wherever it is read from. */
  ghost predicate ArtifactsAgree(candidates: seq<Candidate>, ledger: seq<Record>) {
    forall c, r :: c in candidates && r in ledger && c.artifact.id == r.artifact.id ==>
      c.artifact == r.artifact && c.release == r.release
  }

  /** Row that an upsert of `r` hits, or |ledger| when it inserts. */
  function Row(ledger: seq<Record>, r: Record): (k: nat)
    ensures k <= |ledger|
    ensures k < |ledger| ==> SameRow(ledger[k], r)
    ensures forall i :: 0 <= i < k ==> !SameRow(ledger[i], r)
  {
    if ledger == [] || SameRow(ledger[0], r) then 0 else 1 + Row(ledger[1..], r)
  }

  /** A conflicting row keeps its id and takes the new status, and the new name when one is given. */
  function Upserted(ledger: seq<Record>, r: Record): seq<Record> {
    var k := Row(ledger, r);
    if k == |ledger| then ledger + [r]
    else ledger[k := ledger[k].(ref := r.ref, status := r.status,
                                filename := if r.filename != "" then r.filename else ledger[k].filename)]
  }

  /** `r` is the ledger's row for delivering `c`. */
  predicate IsRow(r: Record, c: Candidate) {
    r.artifact == c.artifact && r.release == c.release && r.ref == c.Ref() && r.hash == c.Hash()
  }

  function DeliveryRow(c: Candidate, id: nat, status: Status): Record {
    Record(id, c.artifact, c.release, c.Ref(), if status == Published then c.filename else "", c.Hash(), status)
  }

  /** Upserting a candidate's row touches that row only and leaves it live with the new status. */
  lemma UpsertDelivery(ledger: seq<Record>, c: Candidate, id: nat, status: Status)
    requires ValidLedger(ledger, id) && ArtifactsAgree([c], ledger)
    ensures var k := Row(ledger, DeliveryRow(c, id, status));
            var next := Upserted(ledger, DeliveryRow(c, id, status));
            && ValidLedger(next, id + 1)
            && k < |next| && |ledger| <= |next| <= |ledger| + 1
            && (|next| > |ledger| ==> k == |ledger|)
            && IsRow(next[k], c) && next[k].status == status
            && (k < |ledger| ==> IsRow(ledger[k], c) && next[k].id == ledger[k].id)
            && (forall i :: 0 <= i < |next| && i != k ==> i < |ledger| && next[i] == ledger[i])
  {
    var r := DeliveryRow(c, id, status);
    var k := Row(ledger, r);
    assert c in [c];
    if k < |ledger| {
      assert ledger[k] in ledger;
    }
  }

  /** Upserting a record the ledger already holds only changes its status. */
  lemma UpsertExisting(ledger: seq<Record>, k: nat, nextId: nat, r: Record)
    requires ValidLedger(ledger, nextId) && k < |ledger| && ValidRecord(r) && r.status != Published
    requires ledger[k] == r.(status := ledger[k].status) && ledger[k].filename == r.filename
    ensures Upserted(ledger, r) == ledger[k := r]
    ensures ValidLedger(Upserted(ledger, r), nextId)
  {
    assert SameRow(ledger[k], r);
    var j := Row(ledger, r);
    assert j == k by {
      if j < k {
        assert SameRow(ledger[j], ledger[k]);
      }
    }
  }
}
