/** What holds of the memory store after every sequence of calls, and between any two moments of
    one run. */
module MemoryRuns {
  import opened Wrappers
  import opened MemoryTables
  import opened MemoryInvariant

  // ---- a successful review ------------------------------------------------------------

  /** The four ways a review can succeed. */
  ghost predicate Reviewed(db: Tables, d: Tables, nfc: Normalizer, req: ReviewRequest, now: string)
  {
    || d == db
    || (req.decision.Reject? && Decidable(db, req) && d == Decide(db, req, None, now))
    || (exists id, k, payload :: Publishes(db, d, nfc, req, id, k, payload, now))
    || (exists id :: Archives(db, d, req, id, now))
  }

  lemma NoHeadNoRow(db: Tables, rows: seq<FtsRow>, id: Id)
    requires Projects(db, rows) && id !in db.heads
    ensures Without(rows, id) == rows
  {
    hide Without;
    forall i | 0 <= i < |rows| ensures rows[i].recordId != id {
      assert RowOk(db, rows[i]);
    }
    WithoutAbsent(rows, id);
  }

  lemma CreatePublishes(db: Tables, nfc: Normalizer, req: ReviewRequest, payload: Payload, now: string)
    requires Projects(db, db.unicode) && Projects(db, db.trigram)
    requires Decidable(db, req) && req.decision.Approve? && CreateSpec(db, nfc, req, payload, now).Ok?
    requires db.proposals[req.proposalId].operation.Create? && db.proposals[req.proposalId].payload == Some(payload)
    ensures var (t, k) := CreateSpec(db, nfc, req, payload, now).value;
            t.proposals == db.proposals &&
            Publishes(db, Decide(t, req, Some(k), now), nfc, req, req.proposalId, 1, payload, now)
  {
    hide Projects, Without, DedupeKey, NewRow, TagRows;
    NoHeadNoRow(db, db.unicode, req.proposalId);
    NoHeadNoRow(db, db.trigram, req.proposalId);
  }

  lemma ReplacePublishes(db: Tables, nfc: Normalizer, req: ReviewRequest, id: Id, target: nat, payload: Payload,
                         now: string)
    requires Complete(db)
    requires Decidable(db, req) && req.decision.Approve? && target >= 1 &&
             ReplaceSpec(db, nfc, req, id, target, payload, now).Ok?
    requires var p := db.proposals[req.proposalId];
             p.operation.Replace? && p.target == Some(id) && p.targetRevision == Some(target) &&
             p.payload == Some(payload)
    ensures var (t, k) := ReplaceSpec(db, nfc, req, id, target, payload, now).value;
            t.proposals == db.proposals &&
            Publishes(db, Decide(t, req, Some(k), now), nfc, req, id, target + 1, payload, now)
  {
    hide Without, DedupeKey, NewRow, TagRows, Complete;
  }

  lemma ArchiveArchives(db: Tables, req: ReviewRequest, id: Id, target: nat, now: string)
    requires Decidable(db, req) && req.decision.Approve? && ArchiveSpec(db, req, id, target, now).Ok?
    requires var p := db.proposals[req.proposalId];
             p.operation.Archive? && p.target == Some(id) && p.targetRevision == Some(target)
    ensures var (t, k) := ArchiveSpec(db, req, id, target, now).value;
            t.proposals == db.proposals && Archives(db, Decide(t, req, Some(k), now), req, id, now)
  {
    hide Without;
  }

  lemma ApprovalTakesEffect(db: Tables, nfc: Normalizer, req: ReviewRequest, now: string)
    requires Inv(db, nfc) && Decidable(db, req) && req.decision.Approve?
    requires ApplySpec(db, nfc, req, db.proposals[req.proposalId], now).Ok?
    ensures var (t, k) := ApplySpec(db, nfc, req, db.proposals[req.proposalId], now).value;
            t.proposals == db.proposals && Reviewed(db, Decide(t, req, Some(k), now), nfc, req, now)
  {
    hide Complete, Provenance, HeadsOk, NoDuplicates, KeysOk, ReferencesOk, Projects, CreateSpec, ReplaceSpec,
         ArchiveSpec, Publishes, Archives, Decide, TookEffect;
    var p := db.proposals[req.proposalId];
    assert Lifecycle(db, req.proposalId);
    match p.operation
    case Create => CreatePublishes(db, nfc, req, p.payload.value, now);
    case Replace => ReplacePublishes(db, nfc, req, p.target.value, p.targetRevision.value, p.payload.value, now);
    case Archive => ArchiveArchives(db, req, p.target.value, p.targetRevision.value, now);
  }

  lemma ReviewSucceeds(db: Tables, nfc: Normalizer, req: ReviewRequest, now: string)
    requires Inv(db, nfc) && ReviewSpec(db, nfc, req, now).Ok?
    ensures Reviewed(db, ReviewSpec(db, nfc, req, now).value, nfc, req, now)
  {
    hide Inv, ApplySpec, Decide, Publishes, Archives, ReviewRequest.Valid;
    var d := ReviewSpec(db, nfc, req, now).value;
    if d != db {
      assert Decidable(db, req);
      if req.decision.Approve? {
        ApprovalTakesEffect(db, nfc, req, now);
      }
    }
  }

  lemma ReviewKeepsInv(db: Tables, nfc: Normalizer, req: ReviewRequest, now: string)
    requires Inv(db, nfc) && ReviewSpec(db, nfc, req, now).Ok?
    ensures Inv(ReviewSpec(db, nfc, req, now).value, nfc)
  {
    hide Inv, ReviewSpec, Decide, Publishes, Archives;
    ReviewSucceeds(db, nfc, req, now);
    var d := ReviewSpec(db, nfc, req, now).value;
    if d == db {
    } else if req.decision.Reject? && Decidable(db, req) && d == Decide(db, req, None, now) {
      RejectKeepsInv(db, nfc, req, now);
    } else if id, k, payload :| Publishes(db, d, nfc, req, id, k, payload, now) {
      PublishKeepsInv(db, d, nfc, req, id, k, payload, now);
    } else {
      var id :| Archives(db, d, req, id, now);
      ArchiveKeepsInv(db, d, nfc, req, id, now);
    }
  }

  // ---- runs ---------------------------------------------------------------------------

  lemma EmptyIsGood(nfc: Normalizer)
    ensures Inv(EMPTY, nfc)
  {
  }

  lemma CallKeepsInv(db: Tables, nfc: Normalizer, call: Call)
    requires Inv(db, nfc)
    ensures Inv(After(db, nfc, call), nfc)
  {
    hide Inv, CandidateSpec, ReviewSpec, FeedbackSpec;
    match call
    case Candidate(req, now) => if CandidateSpec(db, req, now).Ok? { CandidateKeepsInv(db, nfc, req, now); }
    case Decision(req, now) => if ReviewSpec(db, nfc, req, now).Ok? { ReviewKeepsInv(db, nfc, req, now); }
    case Event(req, now) => if FeedbackSpec(db, req, now).Ok? { FeedbackKeepsInv(db, nfc, req, now); }
  }

  /** Whatever calls are made: versions are exactly the revisions 1 to current and come from the
      approved proposals they should, active dedupe keys are unique, proposals are decided once,
      and both search tables are what a rebuild would produce. */
  lemma {:induction false} EveryRunKeepsInv(nfc: Normalizer, calls: seq<Call>)
    ensures Inv(Run(nfc, calls), nfc)
  {
    hide Inv, After;
    if calls == [] {
      EmptyIsGood(nfc);
    } else {
      EveryRunKeepsInv(nfc, calls[..|calls| - 1]);
      CallKeepsInv(Run(nfc, calls[..|calls| - 1]), nfc, calls[|calls| - 1]);
    }
  }

  // ---- history ------------------------------------------------------------------------

  ghost predicate VersionsStay(a: Tables, b: Tables)
  {
    forall key: VersionKey | key in a.versions ::
      key in b.versions && b.versions[key] == a.versions[key] && TagsOf(b, key.0, key.1) == TagsOf(a, key.0, key.1)
  }

  ghost predicate HeadAdvances(a: Head, b: Head)
  {
    a.current <= b.current && a.namespace == b.namespace && a.scope == b.scope && a.createdAt == b.createdAt &&
    (a.status.Archived? ==> a == b)
  }

  ghost predicate HeadsAdvance(a: Tables, b: Tables)
  {
    forall id | id in a.heads :: id in b.heads && HeadAdvances(a.heads[id], b.heads[id])
  }

  /** A proposal only ever goes from pending to decided. */
  ghost predicate ProposalAdvances(a: Proposal, b: Proposal)
  {
    (a.status.Pending? || a == b) && b == a.(status := b.status, revision := b.revision, decidedAt := b.decidedAt)
  }

  ghost predicate ProposalsAdvance(a: Tables, b: Tables)
  {
    forall id | id in a.proposals :: id in b.proposals && ProposalAdvances(a.proposals[id], b.proposals[id])
  }

  ghost predicate RowsStay<K, V>(a: map<K, V>, b: map<K, V>)
  {
    forall k | k in a :: k in b && b[k] == a[k]
  }

  /** Nothing published is ever rewritten: versions and their tags, archived heads, decided
      proposals, reviews and feedback stay as they are. */
  ghost predicate Evolves(a: Tables, b: Tables)
  {
    VersionsStay(a, b) && HeadsAdvance(a, b) && ProposalsAdvance(a, b) && RowsStay(a.reviews, b.reviews) &&
    RowsStay(a.feedback, b.feedback)
  }

  lemma EvolvesIsTransitive(a: Tables, b: Tables, c: Tables)
    requires Evolves(a, b) && Evolves(b, c)
    ensures Evolves(a, c)
  {
    hide TagsOf;
    assert VersionsStay(a, c);
    forall id | id in a.heads ensures id in c.heads && HeadAdvances(a.heads[id], c.heads[id]) {
      assert HeadAdvances(a.heads[id], b.heads[id]) && HeadAdvances(b.heads[id], c.heads[id]);
    }
    forall id | id in a.proposals ensures id in c.proposals && ProposalAdvances(a.proposals[id], c.proposals[id]) {
      assert ProposalAdvances(a.proposals[id], b.proposals[id]) && ProposalAdvances(b.proposals[id], c.proposals[id]);
    }
  }

  lemma DecisionEvolves(db: Tables, d: Tables, req: ReviewRequest, applied: Option<nat>, now: string)
    requires Decidable(db, req) && ProposalsOk(db)
    requires d.proposals == Decide(db, req, applied, now).proposals &&
             d.reviews == Decide(db, req, applied, now).reviews
    ensures ProposalsAdvance(db, d) && RowsStay(db.reviews, d.reviews)
  {
  }

  lemma PublishEvolves(db: Tables, d: Tables, nfc: Normalizer, req: ReviewRequest, id: Id, k: nat, payload: Payload,
                       now: string)
    requires Complete(db) && ReferencesOk(db) && ProposalsOk(db) && Publishes(db, d, nfc, req, id, k, payload, now)
    ensures Evolves(db, d)
  {
    hide ProposalsOk, Complete, ReferencesOk, Decide, Decidable, TagsMatch, Without, NewRow;
    DecisionEvolves(db, d, req, Some(k), now);
    PublishKeepsComplete(db, d, nfc, req, id, k, payload, now);
    PublishKeepsTags(db, d, nfc, req, id, k, payload, now);
    forall key: VersionKey | key in db.versions
      ensures key in d.versions && d.versions[key] == db.versions[key] &&
              TagsOf(d, key.0, key.1) == TagsOf(db, key.0, key.1)
    {
      SameTags(db, d, key.0, key.1);
    }
  }

  lemma SameTags(db: Tables, d: Tables, id: Id, k: nat)
    requires forall t: string :: (id, k, t) in d.tags <==> (id, k, t) in db.tags
    ensures TagsOf(d, id, k) == TagsOf(db, id, k)
  {
  }

  lemma ArchiveEvolves(db: Tables, d: Tables, req: ReviewRequest, id: Id, now: string)
    requires ProposalsOk(db) && Archives(db, d, req, id, now)
    ensures Evolves(db, d)
  {
    hide ProposalsOk, Decide, Without;
    DecisionEvolves(db, d, req, Some(db.heads[id].current), now);
    forall key: VersionKey | key in db.versions ensures TagsOf(d, key.0, key.1) == TagsOf(db, key.0, key.1) {
      SameTags(db, d, key.0, key.1);
    }
  }

  lemma SameEvolves(db: Tables, d: Tables)
    requires d.versions == db.versions && d.heads == db.heads && d.tags == db.tags
    requires ProposalsAdvance(db, d) && RowsStay(db.reviews, d.reviews) && RowsStay(db.feedback, d.feedback)
    ensures Evolves(db, d)
  {
  }

  lemma ReviewEvolves(db: Tables, nfc: Normalizer, req: ReviewRequest, now: string)
    requires Inv(db, nfc) && ReviewSpec(db, nfc, req, now).Ok?
    ensures Evolves(db, ReviewSpec(db, nfc, req, now).value)
  {
    hide ReviewSpec, Publishes, Archives, Evolves, Complete, Provenance, HeadsOk, NoDuplicates, ProposalsOk, KeysOk,
         ReferencesOk, Projects;
    ReviewSucceeds(db, nfc, req, now);
    var d := ReviewSpec(db, nfc, req, now).value;
    if d == db {
      SameEvolves(db, d);
    } else if req.decision.Reject? && Decidable(db, req) && d == Decide(db, req, None, now) {
      DecisionEvolves(db, d, req, None, now);
      SameEvolves(db, d);
    } else if id, k, payload :| Publishes(db, d, nfc, req, id, k, payload, now) {
      PublishEvolves(db, d, nfc, req, id, k, payload, now);
    } else {
      var id :| Archives(db, d, req, id, now);
      ArchiveEvolves(db, d, req, id, now);
    }
  }

  lemma CallEvolves(db: Tables, nfc: Normalizer, call: Call)
    requires Inv(db, nfc)
    ensures Evolves(db, After(db, nfc, call))
  {
    hide Inv, ReviewSpec, Evolves, CandidateRequest.Row, CandidateRequest.Valid, CandidateRequest.RequestDigest;
    var d := After(db, nfc, call);
    if call.Decision? && d != db {
      ReviewEvolves(db, nfc, call.review, call.at);
    } else {
      SameEvolves(db, d);
    }
  }

  /** Between any two moments of a run nothing published is rewritten. */
  lemma {:induction false} RunsEvolve(nfc: Normalizer, calls: seq<Call>, i: nat)
    requires i <= |calls|
    ensures Evolves(Run(nfc, calls[..i]), Run(nfc, calls))
  {
    hide After, Evolves;
    if i == |calls| {
      assert calls[..i] == calls;
      SameEvolves(Run(nfc, calls), Run(nfc, calls));
    } else {
      var before := calls[..|calls| - 1];
      assert before[..i] == calls[..i];
      RunsEvolve(nfc, before, i);
      EveryRunKeepsInv(nfc, before);
      CallEvolves(Run(nfc, before), nfc, calls[|calls| - 1]);
      EvolvesIsTransitive(Run(nfc, calls[..i]), Run(nfc, before), Run(nfc, calls));
    }
  }

  /** An archived record is final: its head, its versions and their tags are the same at every
      later moment, and no later version appears. */
  lemma ArchivedIsFinal(nfc: Normalizer, calls: seq<Call>, i: nat, id: Id, k: nat)
    requires i <= |calls| && id in Run(nfc, calls[..i]).heads && Run(nfc, calls[..i]).heads[id].status.Archived?
    ensures var a, b := Run(nfc, calls[..i]), Run(nfc, calls);
            id in b.heads && b.heads[id] == a.heads[id] && ((id, k) in b.versions <==> (id, k) in a.versions) &&
            ((id, k) in a.versions ==>
               b.versions[(id, k)] == a.versions[(id, k)] && TagsOf(b, id, k) == TagsOf(a, id, k))
  {
    hide Run, TagsOf, Provenance, HeadsOk, NoDuplicates, ProposalsOk, KeysOk, ReferencesOk, Projects;
    RunsEvolve(nfc, calls, i);
    EveryRunKeepsInv(nfc, calls[..i]);
    EveryRunKeepsInv(nfc, calls);
    var a, b := Run(nfc, calls[..i]), Run(nfc, calls);
    assert HeadAdvances(a.heads[id], b.heads[id]);
    assert (id, k) in b.versions <==> 1 <= k <= b.heads[id].current;
    assert (id, k) in a.versions <==> 1 <= k <= a.heads[id].current;
    if (id, k) in a.versions {
      var key: VersionKey := (id, k);
      assert key in b.versions && b.versions[key] == a.versions[key] &&
             TagsOf(b, key.0, key.1) == TagsOf(a, key.0, key.1);
    }
  }

  // ---- the search tables --------------------------------------------------------------

  lemma {:induction false} DistinctCounts(rows: seq<FtsRow>, row: FtsRow)
    requires DistinctIds(rows)
    ensures multiset(rows)[row] == if row in rows then 1 else 0
  {
    if rows != [] {
      assert rows == [rows[0]] + rows[1..];
      forall i, j | 0 <= i < j < |rows[1..]| ensures rows[1..][i].recordId != rows[1..][j].recordId {
        assert rows[i + 1].recordId != rows[j + 1].recordId;
      }
      DistinctCounts(rows[1..], row);
    }
  }

  /** The canonical tables determine the search table up to row order: a rebuild of a table that
      already projects them changes nothing. */
  lemma ProjectionIsUnique(db: Tables, rows: seq<FtsRow>, rebuilt: seq<FtsRow>)
    requires Projects(db, rows) && Projects(db, rebuilt)
    ensures multiset(rows) == multiset(rebuilt)
  {
    hide ProjectedRow;
    forall row ensures multiset(rows)[row] == multiset(rebuilt)[row] {
      DistinctCounts(rows, row);
      DistinctCounts(rebuilt, row);
      if row in rows { ProjectedRowsAgree(db, rows, rebuilt, row); }
      if row in rebuilt { ProjectedRowsAgree(db, rebuilt, rows, row); }
    }
  }

  lemma ProjectedRowsAgree(db: Tables, rows: seq<FtsRow>, others: seq<FtsRow>, row: FtsRow)
    requires Projects(db, rows) && Projects(db, others) && row in rows
    ensures row in others
  {
    hide ProjectedRow;
    assert RowOk(db, row);
    var i :| 0 <= i < |others| && others[i].recordId == row.recordId;
    assert RowOk(db, others[i]);
  }
}
