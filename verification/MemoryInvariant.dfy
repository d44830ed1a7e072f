/** What every sequence of calls keeps true of the memory tables. */
module MemoryInvariant {
  import opened Wrappers
  import opened TextOrder
  import opened MemoryTables

  // ---- the invariant ------------------------------------------------------------------

  /** The versions of a record are exactly its revisions 1 to current. */
  ghost predicate Complete(db: Tables)
  {
    forall id: Id, k: nat :: (id, k) in db.versions <==> id in db.heads && 1 <= k <= db.heads[id].current
  }

  /** A version carries the content and tags of the approved proposal that made it: the create
      whose id the record has, or a replace that targeted the revision before. */
  ghost predicate VersionOk(db: Tables, nfc: Normalizer, id: Id, k: nat)
    requires (id, k) in db.versions
  {
    var v := db.versions[(id, k)];
    v.proposalId in db.proposals &&
    v.contentSha == Sha256(v.body.content) && v.dedupeKey == DedupeKey(nfc, v.body.content, v.namespace) &&
    Made(db.proposals[v.proposalId], v, id, k) && TagsMatch(db, id, k, db.proposals[v.proposalId].payload.value.tags)
  }

  ghost predicate Made(p: Proposal, v: Version, id: Id, k: nat)
  {
    p.status.Approved? && p.namespace == v.namespace && p.scope == v.scope &&
    p.payload.Some? && p.payload.value.body == v.body && Distinct(p.payload.value.tags) &&
    if k == 1 then p.operation.Create? && v.proposalId == id
    else p.operation.Replace? && p.target == Some(id) && p.targetRevision == Some(k - 1)
  }

  ghost predicate TagsMatch(db: Tables, id: Id, k: nat, tags: seq<string>)
  {
    forall t: string :: t in tags <==> (id, k, t) in db.tags
  }

  ghost predicate Provenance(db: Tables, nfc: Normalizer)
  {
    forall id: Id, k: nat | (id, k) in db.versions :: VersionOk(db, nfc, id, k)
  }

  /** A head names an existing version, agrees with its dedupe key, and shares namespace and
      scope with all versions. */
  ghost predicate HeadsOk(db: Tables)
  {
    (forall id | id in db.heads :: db.heads[id].current >= 1 && (id, db.heads[id].current) in db.versions &&
                                   db.heads[id].dedupeKey == db.versions[(id, db.heads[id].current)].dedupeKey) &&
    forall id: Id, k: nat | (id, k) in db.versions ::
      id in db.heads && db.versions[(id, k)].namespace == db.heads[id].namespace &&
      db.versions[(id, k)].scope == db.heads[id].scope
  }

  /** No two active records of one namespace and scope have the same dedupe key. */
  ghost predicate NoDuplicates(db: Tables)
  {
    forall a, b | a in db.heads && b in db.heads && db.heads[a].status.Active? &&
                  OccupiesKey(db.heads[b], db.heads[a].namespace, db.heads[a].scope, db.heads[a].dedupeKey) :: a == b
  }

  ghost predicate Shaped(p: Proposal)
  {
    p.digest == DigestOf(p.operation, p.namespace, p.scope, p.target, p.targetRevision, p.payload) && p.scope.Valid() &&
    match p.operation
    case Create => p.payload.Some? && p.target.None? && p.targetRevision.None?
    case Replace => p.payload.Some? && p.target.Some? && p.targetRevision.Some? && p.targetRevision.value >= 1
    case Archive => p.payload.None? && p.target.Some? && p.targetRevision.Some? && p.targetRevision.value >= 1
  }

  /** A proposal is pending exactly when its revision is 1, exactly when it has no review and no
      decision time; its status is the decision of its review. */
  ghost predicate Lifecycle(db: Tables, id: Id)
    requires id in db.proposals
  {
    var p := db.proposals[id];
    id != [] && Shaped(p) && (p.revision == 1 || p.revision == 2) &&
    (p.status.Pending? <==> p.revision == 1) && (p.status.Pending? <==> id !in db.reviews) &&
    (p.status.Pending? <==> p.decidedAt.None?) &&
    (id in db.reviews ==> (db.reviews[id].decision.Approve? <==> p.status.Approved?))
  }

  /** An approved proposal took effect: it targets an existing version. */
  ghost predicate TookEffect(db: Tables, id: Id)
    requires id in db.proposals
  {
    var p := db.proposals[id];
    p.status.Approved? ==>
      (p.operation.Create? ==> (id, 1) in db.versions) &&
      (p.target.Some? ==> p.targetRevision.Some? && (p.target.value, p.targetRevision.value) in db.versions)
  }

  ghost predicate ProposalsOk(db: Tables)
  {
    (forall id | id in db.proposals :: Lifecycle(db, id) && TookEffect(db, id)) && db.reviews.Keys <= db.proposals.Keys
  }

  /** Idempotency keys identify their rows. */
  ghost predicate KeysOk(db: Tables)
  {
    (forall a, b | a in db.proposals && b in db.proposals && db.proposals[a].key == db.proposals[b].key :: a == b) &&
    (forall a, b | a in db.reviews && b in db.reviews && db.reviews[a].key == db.reviews[b].key :: a == b) &&
    (forall a, b | a in db.feedback && b in db.feedback && db.feedback[a].key == db.feedback[b].key :: a == b)
  }

  /** Tags and feedback belong to existing versions. */
  ghost predicate ReferencesOk(db: Tables)
  {
    (forall id: Id, k: nat, t: string | (id, k, t) in db.tags :: (id, k) in db.versions) &&
    (forall e | e in db.feedback :: (db.feedback[e].recordId, db.feedback[e].revision) in db.versions)
  }

  ghost predicate IsActive(db: Tables, id: Id)
  {
    id in db.heads && db.heads[id].status.Active?
  }

  ghost predicate HasRow(rows: seq<FtsRow>, id: Id)
  {
    exists i :: 0 <= i < |rows| && rows[i].recordId == id
  }

  ghost predicate DistinctIds(rows: seq<FtsRow>)
  {
    forall i, j | 0 <= i < j < |rows| :: rows[i].recordId != rows[j].recordId
  }

  ghost predicate RowOk(db: Tables, row: FtsRow)
  {
    IsActive(db, row.recordId) && (row.recordId, db.heads[row.recordId].current) in db.versions &&
    row == ProjectedRow(db, row.recordId)
  }

  /** The search table holds exactly one row for each active record, and it is the row a rebuild
      from the canonical tables would give it. */
  ghost predicate Projects(db: Tables, rows: seq<FtsRow>)
  {
    (forall i | 0 <= i < |rows| :: RowOk(db, rows[i])) &&
    DistinctIds(rows) &&
    (forall id | IsActive(db, id) :: HasRow(rows, id))
  }

  ghost predicate Inv(db: Tables, nfc: Normalizer)
  {
    Complete(db) && Provenance(db, nfc) && HeadsOk(db) && NoDuplicates(db) && ProposalsOk(db) && KeysOk(db) &&
    ReferencesOk(db) && Projects(db, db.unicode) && Projects(db, db.trigram)
  }

  // ---- removing rows ------------------------------------------------------------------

  lemma {:induction false} WithoutKeepsTheRest(rows: seq<FtsRow>, id: Id)
    ensures forall r :: r in Without(rows, id) <==> r in rows && r.recordId != id
  {
    if rows != [] {
      WithoutKeepsTheRest(rows[1..], id);
      assert rows == [rows[0]] + rows[1..];
    }
  }

  lemma {:induction false} WithoutKeepsDistinct(rows: seq<FtsRow>, id: Id)
    requires DistinctIds(rows)
    ensures DistinctIds(Without(rows, id))
  {
    if rows != [] {
      assert forall i, j | 0 <= i < j < |rows[1..]| :: rows[1..][i] == rows[i + 1] && rows[1..][j] == rows[j + 1];
      WithoutKeepsDistinct(rows[1..], id);
      WithoutKeepsTheRest(rows[1..], id);
      var rest := Without(rows[1..], id);
      forall j | 0 <= j < |rest| ensures rest[j].recordId != rows[0].recordId {
        assert rest[j] in rows[1..];
      }
    }
  }

  lemma {:induction false} WithoutAbsent(rows: seq<FtsRow>, id: Id)
    requires !HasRow(rows, id)
    ensures Without(rows, id) == rows
  {
    if rows != [] {
      assert rows[0].recordId != id;
      forall i | 0 <= i < |rows[1..]| ensures rows[1..][i].recordId != id {
        assert rows[i + 1].recordId != id;
      }
      WithoutAbsent(rows[1..], id);
      assert rows == [rows[0]] + rows[1..];
    }
  }

  // ---- a new proposal -----------------------------------------------------------------

  lemma CandidateKeepsInv(db: Tables, nfc: Normalizer, req: CandidateRequest, now: string)
    requires Inv(db, nfc) && CandidateSpec(db, req, now).Ok?
    ensures Inv(CandidateSpec(db, req, now).value, nfc)
  {
    hide Complete, Provenance, NoDuplicates, Projects, HeadsOk, ProposalsOk, KeysOk, CandidateRequest.Row,
         CandidateRequest.Valid;
    var d := CandidateSpec(db, req, now).value;
    if d != db {
      NewProposalKeepsProposals(db, d, req, now);
      SameRecords(db, d, nfc);
    }
  }

  lemma NewProposalKeepsProposals(db: Tables, d: Tables, req: CandidateRequest, now: string)
    requires ProposalsOk(db) && KeysOk(db) && req.Valid()
    requires req.proposalId !in db.proposals && forall id :: !HasKey(db, req.key, id)
    requires d == db.(proposals := db.proposals[req.proposalId := req.Row(now)])
    ensures ProposalsOk(d) && KeysOk(d)
  {
    hide Lifecycle, TookEffect, KeysOk, CandidateRequest.Valid, CandidateRequest.Row;
    NewProposalKeepsKeys(db, d, req, now);
    forall id | id in d.proposals ensures Lifecycle(d, id) && TookEffect(d, id) {
      if id != req.proposalId {
        OldProposalKept(db, d, id);
      } else {
        NewProposalFits(db, d, req, now);
      }
    }
  }

  lemma OldProposalKept(db: Tables, d: Tables, id: Id)
    requires id in db.proposals && Lifecycle(db, id) && TookEffect(db, id)
    requires id in d.proposals && d.proposals[id] == db.proposals[id] && d.reviews == db.reviews &&
             d.versions == db.versions
    ensures Lifecycle(d, id) && TookEffect(d, id)
  {
  }

  lemma NewProposalFits(db: Tables, d: Tables, req: CandidateRequest, now: string)
    requires req.Valid() && req.proposalId !in db.proposals && db.reviews.Keys <= db.proposals.Keys
    requires d == db.(proposals := db.proposals[req.proposalId := req.Row(now)])
    ensures Lifecycle(d, req.proposalId) && TookEffect(d, req.proposalId)
  {
  }

  lemma NewProposalKeepsKeys(db: Tables, d: Tables, req: CandidateRequest, now: string)
    requires KeysOk(db) && forall id :: !HasKey(db, req.key, id)
    requires d == db.(proposals := db.proposals[req.proposalId := req.Row(now)])
    ensures KeysOk(d)
  {
    forall a, b | a in d.proposals && b in d.proposals && d.proposals[a].key == d.proposals[b].key ensures a == b {
      assert a != req.proposalId ==> !HasKey(db, req.key, a);
      assert b != req.proposalId ==> !HasKey(db, req.key, b);
    }
  }

  /** Proposals can grow, and pending ones be decided, without touching the records. */
  lemma SameRecords(db: Tables, d: Tables, nfc: Normalizer)
    requires Complete(db) && Provenance(db, nfc) && HeadsOk(db) && NoDuplicates(db)
    requires Projects(db, db.unicode) && Projects(db, db.trigram)
    requires d.versions == db.versions && d.heads == db.heads && d.tags == db.tags
    requires d.unicode == db.unicode && d.trigram == db.trigram
    requires forall id | id in db.proposals && db.proposals[id].status.Approved? ::
               id in d.proposals && d.proposals[id] == db.proposals[id]
    ensures Complete(d) && Provenance(d, nfc) && HeadsOk(d) && NoDuplicates(d)
    ensures Projects(d, d.unicode) && Projects(d, d.trigram)
  {
    hide Provenance, Projects;
    SameVersions(db, d, nfc);
    SameRowsProject(db, d, db.unicode);
    SameRowsProject(db, d, db.trigram);
  }

  lemma SameVersions(db: Tables, d: Tables, nfc: Normalizer)
    requires Provenance(db, nfc) && d.versions == db.versions && d.tags == db.tags
    requires forall id | id in db.proposals && db.proposals[id].status.Approved? ::
               id in d.proposals && d.proposals[id] == db.proposals[id]
    ensures Provenance(d, nfc)
  {
  }

  lemma SameRowsProject(db: Tables, d: Tables, rows: seq<FtsRow>)
    requires d.versions == db.versions && d.heads == db.heads && d.tags == db.tags && Projects(db, rows)
    ensures Projects(d, rows)
  {
  }

  // ---- a decision ---------------------------------------------------------------------

  /** The decision can be recorded: the proposal is pending in its scope and the key is new. */
  ghost predicate Decidable(db: Tables, req: ReviewRequest)
  {
    req.Valid() && InScope(db, req.proposalId, req.namespace, req.scope) &&
    db.proposals[req.proposalId].status.Pending? && forall id :: !HasReviewKey(db, req.key, id)
  }

  lemma DecisionKeepsProposals(db: Tables, d: Tables, req: ReviewRequest, applied: Option<nat>, now: string)
    requires ProposalsOk(db) && KeysOk(db) && Decidable(db, req)
    requires d.proposals == Decide(db, req, applied, now).proposals &&
             d.reviews == Decide(db, req, applied, now).reviews
    requires d.feedback == db.feedback && forall key | key in db.versions :: key in d.versions
    requires TookEffect(d, req.proposalId)
    ensures ProposalsOk(d) && KeysOk(d)
  {
    hide KeysOk, Lifecycle, TookEffect;
    DecisionKeepsKeys(db, d, req, applied, now);
    forall id | id in d.proposals ensures Lifecycle(d, id) && TookEffect(d, id) {
      DecisionKeepsProposal(db, d, req, applied, now, id);
    }
  }

  lemma DecisionKeepsProposal(db: Tables, d: Tables, req: ReviewRequest, applied: Option<nat>, now: string, id: Id)
    requires Decidable(db, req) && id in db.proposals && Lifecycle(db, id) && TookEffect(db, id)
    requires d.proposals == Decide(db, req, applied, now).proposals &&
             d.reviews == Decide(db, req, applied, now).reviews
    requires forall key | key in db.versions :: key in d.versions
    requires TookEffect(d, req.proposalId)
    ensures Lifecycle(d, id) && TookEffect(d, id)
  {
  }

  lemma DecisionKeepsKeys(db: Tables, d: Tables, req: ReviewRequest, applied: Option<nat>, now: string)
    requires KeysOk(db) && Decidable(db, req) && d.feedback == db.feedback
    requires d.proposals == Decide(db, req, applied, now).proposals &&
             d.reviews == Decide(db, req, applied, now).reviews
    ensures KeysOk(d)
  {
    forall a, b | a in d.reviews && b in d.reviews && d.reviews[a].key == d.reviews[b].key ensures a == b {
      assert a != req.proposalId ==> !HasReviewKey(db, req.key, a);
      assert b != req.proposalId ==> !HasReviewKey(db, req.key, b);
    }
  }

  lemma RejectKeepsInv(db: Tables, nfc: Normalizer, req: ReviewRequest, now: string)
    requires Inv(db, nfc) && Decidable(db, req) && req.decision.Reject?
    ensures Inv(Decide(db, req, None, now), nfc)
  {
    hide Complete, Provenance, HeadsOk, NoDuplicates, ProposalsOk, KeysOk, Projects;
    var d := Decide(db, req, None, now);
    SameRecords(db, d, nfc);
    DecisionKeepsProposals(db, d, req, None, now);
  }

  /** An approved create (k = 1) or replace (k > 1) adds revision k of a record and makes it
      current. */
  ghost predicate Publishes(db: Tables, d: Tables, nfc: Normalizer, req: ReviewRequest, id: Id, k: nat,
                            payload: Payload, now: string)
  {
    Decidable(db, req) &&
    var v, p := NewVersion(nfc, req, payload, now), db.proposals[req.proposalId];
    req.decision.Approve? && p.payload == Some(payload) && Distinct(payload.tags) &&
    !ActiveDuplicate(db, req.namespace, req.scope, v.dedupeKey, Some(id)) &&
    (if k == 1 then p.operation.Create? && id == req.proposalId && id !in db.heads
     else k > 1 && p.operation.Replace? && p.target == Some(id) && p.targetRevision == Some(k - 1) &&
          IsActive(db, id) && db.heads[id].current == k - 1 && db.heads[id].namespace == req.namespace &&
          db.heads[id].scope == req.scope) &&
    d.versions == db.versions[(id, k) := v] &&
    id in d.heads && d.heads == db.heads[id := d.heads[id]] &&
    OccupiesKey(d.heads[id], req.namespace, req.scope, v.dedupeKey) && d.heads[id].current == k &&
    (k > 1 ==> d.heads[id].createdAt == db.heads[id].createdAt) &&
    d.tags == db.tags + TagRows(id, k, payload.tags) &&
    d.proposals == Decide(db, req, Some(k), now).proposals && d.reviews == Decide(db, req, Some(k), now).reviews &&
    d.feedback == db.feedback &&
    d.unicode == Without(db.unicode, id) + [NewRow(id, payload)] &&
    d.trigram == Without(db.trigram, id) + [NewRow(id, payload)]
  }

  lemma PublishKeepsComplete(db: Tables, d: Tables, nfc: Normalizer, req: ReviewRequest, id: Id, k: nat,
                             payload: Payload, now: string)
    requires Complete(db) && Publishes(db, d, nfc, req, id, k, payload, now)
    ensures Complete(d) && (id, k) !in db.versions
  {
    forall i: Id, j: nat ensures (i, j) in d.versions <==> i in d.heads && 1 <= j <= d.heads[i].current {
      assert (i, j) in db.versions <==> i in db.heads && 1 <= j <= db.heads[i].current;
      assert (i, j) in d.versions <==> (i, j) in db.versions || (i == id && j == k);
    }
  }

  lemma PublishKeepsTags(db: Tables, d: Tables, nfc: Normalizer, req: ReviewRequest, id: Id, k: nat, payload: Payload,
                         now: string)
    requires Complete(db) && ReferencesOk(db) && Publishes(db, d, nfc, req, id, k, payload, now)
    ensures ReferencesOk(d) && TagsMatch(d, id, k, payload.tags)
    ensures forall i: Id, j: nat, t: string | (i, j) != (id, k) :: (i, j, t) in d.tags <==> (i, j, t) in db.tags
  {
  }

  lemma PublishKeepsProvenance(db: Tables, d: Tables, nfc: Normalizer, req: ReviewRequest, id: Id, k: nat,
                               payload: Payload, now: string)
    requires Complete(db) && Provenance(db, nfc) && ReferencesOk(db) && Publishes(db, d, nfc, req, id, k, payload, now)
    ensures Provenance(d, nfc)
  {
  }

  lemma PublishKeepsHeads(db: Tables, d: Tables, nfc: Normalizer, req: ReviewRequest, id: Id, k: nat, payload: Payload,
                          now: string)
    requires Complete(db) && HeadsOk(db) && Publishes(db, d, nfc, req, id, k, payload, now)
    ensures HeadsOk(d)
  {
    hide Complete, DedupeKey, Decide, Decidable, ActiveDuplicate, Without, NewRow, TagRows;
    PublishKeepsComplete(db, d, nfc, req, id, k, payload, now);
    forall i: Id, j: nat | (i, j) in d.versions
      ensures i in d.heads && d.versions[(i, j)].namespace == d.heads[i].namespace &&
              d.versions[(i, j)].scope == d.heads[i].scope
    {
      if (i, j) != (id, k) { assert (i, j) in db.versions; }
    }
  }

  lemma PublishKeepsUnique(db: Tables, d: Tables, nfc: Normalizer, req: ReviewRequest, id: Id, k: nat, payload: Payload,
                           now: string)
    requires NoDuplicates(db) && Publishes(db, d, nfc, req, id, k, payload, now)
    ensures NoDuplicates(d)
  {
    hide DedupeKey, Decide, Decidable, Without, NewRow, TagRows;
    var v := NewVersion(nfc, req, payload, now);
    assert forall o | o in db.heads && o != id :: !OccupiesKey(db.heads[o], req.namespace, req.scope, v.dedupeKey);
  }

  lemma PublishedRow(db: Tables, d: Tables, nfc: Normalizer, req: ReviewRequest, id: Id, k: nat, payload: Payload,
                     now: string)
    requires Complete(db) && ReferencesOk(db) && Publishes(db, d, nfc, req, id, k, payload, now)
    ensures RowOk(d, NewRow(id, payload))
  {
    PublishKeepsComplete(db, d, nfc, req, id, k, payload, now);
    PublishKeepsTags(db, d, nfc, req, id, k, payload, now);
    hide ReferencesOk, Complete;
    forall t: string ensures t in payload.tags <==> t in TagsOf(d, id, k) {
      assert t in payload.tags <==> (id, k, t) in d.tags;
      assert (id, k, t) in d.tags ==> (id, k, t).2 in TagsOf(d, id, k);
    }
    SortedFormsAgree(payload.tags, TagsOf(d, id, k));
  }

  /** The incrementally maintained search table is again exactly what a rebuild would give. */
  lemma PublishKeepsProjection(db: Tables, d: Tables, nfc: Normalizer, req: ReviewRequest, id: Id, k: nat,
                               payload: Payload, now: string, rows: seq<FtsRow>)
    requires Complete(db) && ReferencesOk(db) && Publishes(db, d, nfc, req, id, k, payload, now) && Projects(db, rows)
    ensures Projects(d, Without(rows, id) + [NewRow(id, payload)])
  {
    hide ReferencesOk, Complete, TagsMatch, Publishes, RowOk, NewRow, NewVersion, Without, DistinctIds;
    PublishLeavesOthers(db, d, nfc, req, id, k, payload, now);
    PublishedRow(db, d, nfc, req, id, k, payload, now);
    var w, row := Without(rows, id), NewRow(id, payload);
    WithoutProjects(db, d, rows, id);
    assert row.recordId == id by { RowBelongs(id, payload); }
    AppendRow(d, w, row);
  }

  lemma RowBelongs(id: Id, payload: Payload)
    requires Distinct(payload.tags)
    ensures NewRow(id, payload).recordId == id
  {
  }

  /** Everything but record `id` is the same in both. */
  ghost predicate OthersSame(db: Tables, d: Tables, id: Id)
  {
    (forall o: Id | o != id :: (o in d.heads <==> o in db.heads) && (o in db.heads ==> d.heads[o] == db.heads[o])) &&
    (forall o: Id, j: nat | o != id && (o, j) in db.versions ::
       (o, j) in d.versions && d.versions[(o, j)] == db.versions[(o, j)]) &&
    (forall o: Id, j: nat, t: string | o != id :: (o, j, t) in d.tags <==> (o, j, t) in db.tags)
  }

  lemma PublishLeavesOthers(db: Tables, d: Tables, nfc: Normalizer, req: ReviewRequest, id: Id, k: nat,
                            payload: Payload, now: string)
    requires Publishes(db, d, nfc, req, id, k, payload, now)
    ensures OthersSame(db, d, id) && IsActive(d, id) && Distinct(payload.tags)
  {
  }

  /** The rows of all other active records, each still right. */
  ghost predicate ProjectsOthers(d: Tables, rows: seq<FtsRow>, id: Id)
  {
    DistinctIds(rows) && (forall i | 0 <= i < |rows| :: RowOk(d, rows[i]) && rows[i].recordId != id) &&
    (forall o | IsActive(d, o) && o != id :: HasRow(rows, o))
  }

  lemma WithoutProjects(db: Tables, d: Tables, rows: seq<FtsRow>, id: Id)
    requires Projects(db, rows) && OthersSame(db, d, id)
    ensures ProjectsOthers(d, Without(rows, id), id)
  {
    hide RowOk, Without;
    var w := Without(rows, id);
    WithoutKeepsTheRest(rows, id);
    WithoutKeepsDistinct(rows, id);
    forall i | 0 <= i < |w| ensures RowOk(d, w[i]) && w[i].recordId != id {
      assert w[i] in rows;
      RowSurvives(db, d, w[i], id);
    }
    forall o | IsActive(d, o) && o != id ensures HasRow(w, o) {
      assert IsActive(db, o) && HasRow(rows, o);
      var i :| 0 <= i < |rows| && rows[i].recordId == o;
      assert rows[i] in w;
    }
  }

  lemma AppendRow(d: Tables, rows: seq<FtsRow>, row: FtsRow)
    requires ProjectsOthers(d, rows, row.recordId) && RowOk(d, row)
    ensures Projects(d, rows + [row])
  {
    hide RowOk;
    var next := rows + [row];
    forall o | IsActive(d, o) ensures HasRow(next, o) {
      if o == row.recordId {
        assert next[|rows|].recordId == o;
      } else {
        var i :| 0 <= i < |rows| && rows[i].recordId == o;
        assert next[i].recordId == o;
      }
    }
  }

  /** A row stays right as long as its record stays as it is. */
  lemma RowSurvives(db: Tables, d: Tables, row: FtsRow, id: Id)
    requires RowOk(db, row) && OthersSame(db, d, id) && row.recordId != id
    ensures RowOk(d, row)
  {
    var o, k := row.recordId, db.heads[row.recordId].current;
    forall t: string ensures t in TagsOf(d, o, k) <==> t in TagsOf(db, o, k) {
      assert (o, k, t) in d.tags <==> (o, k, t) in db.tags;
      assert t in TagsOf(d, o, k) <==> (o, k, t) in d.tags;
      assert t in TagsOf(db, o, k) <==> (o, k, t) in db.tags;
    }
    assert TagsOf(d, o, k) == TagsOf(db, o, k);
  }

  lemma PublishKeepsInv(db: Tables, d: Tables, nfc: Normalizer, req: ReviewRequest, id: Id, k: nat, payload: Payload,
                        now: string)
    requires Inv(db, nfc) && Publishes(db, d, nfc, req, id, k, payload, now)
    ensures Inv(d, nfc)
  {
    hide Complete, Provenance, HeadsOk, NoDuplicates, ReferencesOk, Projects, KeysOk, ProposalsOk, TookEffect, Decide,
         Without;
    PublishKeepsComplete(db, d, nfc, req, id, k, payload, now);
    PublishKeepsTags(db, d, nfc, req, id, k, payload, now);
    PublishKeepsProvenance(db, d, nfc, req, id, k, payload, now);
    PublishKeepsHeads(db, d, nfc, req, id, k, payload, now);
    PublishKeepsUnique(db, d, nfc, req, id, k, payload, now);
    PublishKeepsProjection(db, d, nfc, req, id, k, payload, now, db.unicode);
    PublishKeepsProjection(db, d, nfc, req, id, k, payload, now, db.trigram);
    PublishTookEffect(db, d, nfc, req, id, k, payload, now);
    DecisionKeepsProposals(db, d, req, Some(k), now);
  }

  lemma PublishTookEffect(db: Tables, d: Tables, nfc: Normalizer, req: ReviewRequest, id: Id, k: nat, payload: Payload,
                          now: string)
    requires Complete(db) && ProposalsOk(db) && Publishes(db, d, nfc, req, id, k, payload, now)
    ensures TookEffect(d, req.proposalId)
  {
  }

  // ---- archiving ----------------------------------------------------------------------

  /** An approved archive flips the head and drops the search rows. */
  ghost predicate Archives(db: Tables, d: Tables, req: ReviewRequest, id: Id, now: string)
  {
    Decidable(db, req) && req.decision.Approve? && db.proposals[req.proposalId].operation.Archive? &&
    IsActive(db, id) &&
    db.proposals[req.proposalId].target == Some(id) &&
    db.proposals[req.proposalId].targetRevision == Some(db.heads[id].current) &&
    d.versions == db.versions && d.tags == db.tags && d.feedback == db.feedback &&
    d.heads == db.heads[id := db.heads[id].(status := Archived, updatedAt := now)] &&
    d.proposals == Decide(db, req, Some(db.heads[id].current), now).proposals &&
    d.reviews == Decide(db, req, Some(db.heads[id].current), now).reviews &&
    d.unicode == Without(db.unicode, id) && d.trigram == Without(db.trigram, id)
  }

  lemma ArchiveKeepsProjection(db: Tables, d: Tables, req: ReviewRequest, id: Id, now: string, rows: seq<FtsRow>)
    requires Archives(db, d, req, id, now) && Projects(db, rows)
    ensures Projects(d, Without(rows, id))
  {
    hide RowOk, Without, DistinctIds, HasRow;
    assert OthersSame(db, d, id) && !IsActive(d, id);
    WithoutProjects(db, d, rows, id);
  }

  lemma ArchiveKeepsComplete(db: Tables, d: Tables, req: ReviewRequest, id: Id, now: string)
    requires Archives(db, d, req, id, now) && Complete(db)
    ensures Complete(d)
  {
    hide Decide, Decidable, Without;
    forall i: Id, j: nat ensures (i, j) in d.versions <==> i in d.heads && 1 <= j <= d.heads[i].current {
      assert (i, j) in db.versions <==> i in db.heads && 1 <= j <= db.heads[i].current;
    }
  }

  lemma ArchiveKeepsHeads(db: Tables, d: Tables, req: ReviewRequest, id: Id, now: string)
    requires Archives(db, d, req, id, now) && HeadsOk(db)
    ensures HeadsOk(d)
  {
    hide Decide, Decidable, Without;
  }

  lemma ArchiveKeepsUnique(db: Tables, d: Tables, req: ReviewRequest, id: Id, now: string)
    requires Archives(db, d, req, id, now) && NoDuplicates(db)
    ensures NoDuplicates(d)
  {
    hide Decide, Decidable, Without;
  }

  /** Deciding a pending proposal leaves the origin of every version alone. */
  lemma DecisionKeepsProvenance(db: Tables, d: Tables, nfc: Normalizer, req: ReviewRequest, applied: Option<nat>,
                                now: string)
    requires Provenance(db, nfc) && Decidable(db, req) && d.proposals == Decide(db, req, applied, now).proposals
    requires d.versions == db.versions && d.tags == db.tags
    ensures Provenance(d, nfc)
  {
    hide DedupeKey;
    forall i: Id, j: nat | (i, j) in d.versions ensures VersionOk(d, nfc, i, j) {
      assert VersionOk(db, nfc, i, j);
    }
  }

  lemma ArchiveTookEffect(db: Tables, d: Tables, req: ReviewRequest, id: Id, now: string)
    requires Archives(db, d, req, id, now) && HeadsOk(db)
    ensures TookEffect(d, req.proposalId)
  {
  }

  lemma ArchiveKeepsInv(db: Tables, d: Tables, nfc: Normalizer, req: ReviewRequest, id: Id, now: string)
    requires Inv(db, nfc) && Archives(db, d, req, id, now)
    ensures Inv(d, nfc)
  {
    hide Complete, Provenance, NoDuplicates, Projects, HeadsOk, ProposalsOk, KeysOk, Decide, Without, Lifecycle,
         TookEffect;
    ArchiveKeepsProjection(db, d, req, id, now, db.unicode);
    ArchiveKeepsProjection(db, d, req, id, now, db.trigram);
    ArchiveKeepsComplete(db, d, req, id, now);
    ArchiveKeepsHeads(db, d, req, id, now);
    ArchiveKeepsUnique(db, d, req, id, now);
    DecisionKeepsProvenance(db, d, nfc, req, Some(db.heads[id].current), now);
    ArchiveTookEffect(db, d, req, id, now);
    DecisionKeepsProposals(db, d, req, Some(db.heads[id].current), now);
  }

  // ---- feedback -----------------------------------------------------------------------

  lemma FeedbackKeepsInv(db: Tables, nfc: Normalizer, req: FeedbackRequest, now: string)
    requires Inv(db, nfc) && FeedbackSpec(db, req, now).Ok?
    ensures Inv(FeedbackSpec(db, req, now).value, nfc)
  {
    hide Complete, Provenance, HeadsOk, NoDuplicates, Projects, ProposalsOk, KeysOk, ReferencesOk;
    var d := FeedbackSpec(db, req, now).value;
    if d != db {
      NewFeedback(db, d, req, now);
      SameRecords(db, d, nfc);
    }
  }

  lemma NewFeedback(db: Tables, d: Tables, req: FeedbackRequest, now: string)
    requires ProposalsOk(db) && KeysOk(db) && ReferencesOk(db) && FeedbackSpec(db, req, now) == Ok(d) && d != db
    ensures ProposalsOk(d) && KeysOk(d) && ReferencesOk(d) && d == db.(feedback := d.feedback)
  {
    hide Lifecycle, TookEffect;
    forall a, b | a in d.feedback && b in d.feedback && d.feedback[a].key == d.feedback[b].key ensures a == b {
      assert a != req.eventId ==> !HasFeedbackKey(db, req.key, a);
      assert b != req.eventId ==> !HasFeedbackKey(db, req.key, b);
    }
    forall id | id in d.proposals ensures Lifecycle(d, id) && TookEffect(d, id) {
      OldProposalKept(db, d, id);
    }
  }
}
