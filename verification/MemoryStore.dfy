/** The memory store itself: every call works on a transaction copy of the tables, statement by
    statement, and installs it only at commit (crates/xuanling-memory/src/store/v2.rs). */
module MemoryStore {
  import opened Wrappers
  import opened TextOrder
  import opened MemoryTables
  import opened MemoryInvariant
  import opened MemoryRuns
  import opened MemoryDigest
  import opened MemoryAnswers

  /** What a caller sees of a proposal. */
  datatype View = View(proposalId: Id, proposal: Proposal, review: Option<Review>)

  function ViewOf(db: Tables, id: Id): View
    requires id in db.proposals
  {
    View(id, db.proposals[id], if id in db.reviews then Some(db.reviews[id]) else None)
  }

  /** validate_common. */
  predicate Named(namespace: string, scope: Scope, id: Id)
  {
    namespace != [] && scope.Valid() && id != []
  }

  /** Neither is empty, and the scope's parts are neither empty nor cut by a separator. */
  predicate NamedPlainly(namespace: string, scope: Scope, id: Id)
  {
    |namespace| > 0 && |id| > 0 && GoodScope(scope)
  }

  lemma NamedExactlyWhen(namespace: string, scope: Scope, id: Id)
    ensures Named(namespace, scope, id) <==> NamedPlainly(namespace, scope, id)
  {
  }

  predicate HoldsVersion(db: Tables, id: Id, revision: nat, v: Version)
  {
    (id, revision) in db.versions && db.versions[(id, revision)] == v
  }

  /** The statements of one transaction. A transaction that fails is dropped, so nothing is
      promised of its tables then. */
  class Transaction {
    var t: Tables
    const nfc: Normalizer

    constructor (committed: Tables, nfc: Normalizer)
      ensures t == committed && this.nfc == nfc
    {
      t := committed;
      this.nfc := nfc;
    }

    /** One row per tag; a repeated tag violates the primary key. */
    method InsertTags(id: Id, revision: nat, tags: seq<string>) returns (r: Result<(), Code>)
      requires forall tag: string :: (id, revision, tag) !in t.tags
      modifies this
      ensures Distinct(tags) ==> r.Ok? && t == old(t).(tags := old(t).tags + TagRows(id, revision, tags))
      ensures !Distinct(tags) ==> r == Err(Conflict)
    {
      for n := 0 to |tags|
        invariant Distinct(tags[..n])
        invariant t == old(t).(tags := old(t).tags + TagRows(id, revision, tags[..n]))
      {
        var tag := tags[n];
        assert (id, revision, tag) in TagRows(id, revision, tags[..n]) ==> tag in tags[..n];
        if (id, revision, tag) in t.tags {
          return Err(Conflict);
        }
        OneMoreTag(id, revision, tags, n);
        t := t.(tags := t.tags + {(id, revision, tag)});
      }
      assert tags[..|tags|] == tags;
      r := Ok(());
    }

    /** The tags, then one row in each search table with the tag text sorted. */
    method InsertTagsAndFts(id: Id, revision: nat, payload: Payload) returns (r: Result<(), Code>)
      requires forall tag: string :: (id, revision, tag) !in t.tags
      modifies this
      ensures Distinct(payload.tags) ==>
                r.Ok? && t == old(t).(tags := old(t).tags + TagRows(id, revision, payload.tags),
                                      unicode := old(t).unicode + [NewRow(id, payload)],
                                      trigram := old(t).trigram + [NewRow(id, payload)])
      ensures !Distinct(payload.tags) ==> r == Err(Conflict)
    {
      r := InsertTags(id, revision, payload.tags);
      if r.Err? {
        return;
      }
      var text := JoinTags(SortDistinct(payload.tags));
      var row := FtsRow(id, payload.body.title, payload.body.content, payload.body.summary, text);
      t := t.(unicode := t.unicode + [row]);
      t := t.(trigram := t.trigram + [row]);
    }

    method DeleteFts(id: Id)
      modifies this
      ensures t == old(t).(unicode := Without(old(t).unicode, id), trigram := Without(old(t).trigram, id))
    {
      t := t.(unicode := Without(t.unicode, id));
      t := t.(trigram := Without(t.trigram, id));
    }

    method ApplyCreate(req: ReviewRequest, payload: Payload, now: string) returns (r: Result<nat, Code>)
      requires Complete(t) && ReferencesOk(t)
      modifies this
      ensures Follows(CreateSpec(old(t), nfc, req, payload, now), r)
    {
      var id := req.proposalId;
      var dedupeKey := DedupeKey(nfc, payload.body.content, req.namespace);
      if other :| other in t.heads && OccupiesKey(t.heads[other], req.namespace, req.scope, dedupeKey) {
        assert ActiveDuplicate(t, req.namespace, req.scope, dedupeKey, None);
        return Err(Conflict);
      }
      if (id, 1) in t.versions {
        return Err(Conflict);
      }
      t := t.(versions := t.versions[(id, 1) := NewVersion(nfc, req, payload, now)]);
      if id in t.heads {
        return Err(Conflict);
      }
      t := t.(heads := t.heads[id := Head(req.namespace, req.scope, dedupeKey, 1, Active, now, now)]);
      var inserted := InsertTagsAndFts(id, 1, payload);
      r := if inserted.Ok? then Ok(1) else Err(inserted.error);
    }

    method ApplyReplace(req: ReviewRequest, id: Id, target: nat, payload: Payload, now: string)
      returns (r: Result<nat, Code>)
      requires Complete(t) && ReferencesOk(t)
      modifies this
      ensures Follows(ReplaceSpec(old(t), nfc, req, id, target, payload, now), r)
    {
      if id !in t.heads || t.heads[id].namespace != req.namespace || t.heads[id].scope != req.scope {
        return Err(NotFound);
      }
      var current := t.heads[id].current;
      if !t.heads[id].status.Active? || current != target {
        return Err(Conflict);
      }
      var dedupeKey := DedupeKey(nfc, payload.body.content, req.namespace);
      if other :| other in t.heads && OccupiesKey(t.heads[other], req.namespace, req.scope, dedupeKey) && other != id {
        assert ActiveDuplicate(t, req.namespace, req.scope, dedupeKey, Some(id));
        return Err(Conflict);
      }
      var revision := current + 1;
      if (id, revision) in t.versions {
        return Err(Conflict);
      }
      t := t.(versions := t.versions[(id, revision) := NewVersion(nfc, req, payload, now)]);
      t := t.(heads := t.heads[id := t.heads[id].(current := revision, dedupeKey := dedupeKey, updatedAt := now)]);
      DeleteFts(id);
      var inserted := InsertTagsAndFts(id, revision, payload);
      r := if inserted.Ok? then Ok(revision) else Err(inserted.error);
    }

    method ApplyArchive(req: ReviewRequest, id: Id, target: nat, now: string) returns (r: Result<nat, Code>)
      modifies this
      ensures Follows(ArchiveSpec(old(t), req, id, target, now), r)
    {
      if id !in t.heads || t.heads[id].namespace != req.namespace || t.heads[id].scope != req.scope {
        return Err(NotFound);
      }
      if t.heads[id].current != target {
        return Err(Conflict);
      }
      if t.heads[id].status.Archived? {
        return Err(Conflict);
      }
      t := t.(heads := t.heads[id := t.heads[id].(status := Archived, updatedAt := now)]);
      DeleteFts(id);
      r := Ok(target);
    }

    /** Both search tables, again from the canonical rows. */
    method RebuildFts()
      requires ActiveHaveVersions(t)
      modifies this
      ensures t == old(t).(unicode := t.unicode, trigram := t.trigram) && t.unicode == t.trigram
      ensures Projects(old(t), t.unicode)
    {
      hide ProjectedRow, RowOk, ActiveHaveVersions, MakeRow;
      t := t.(unicode := []);
      t := t.(trigram := []);
      var active := set id | id in t.heads && t.heads[id].status.Active?;
      while active != {}
        invariant t == old(t).(unicode := t.unicode, trigram := t.trigram) && t.unicode == t.trigram
        invariant forall id | id in active :: IsActive(old(t), id)
        invariant PartlyProjects(old(t), t.unicode, active)
        decreases active
      {
        var id :| id in active;
        active := active - {id};
        SameProjectedRow(old(t), t, id);
        var current := t.heads[id].current;
        var tags := InOrder(TagsOf(t, id, current));
        var row := MakeRow(id, t.versions[(id, current)].body, tags);
        OneMoreRow(old(t), t.unicode, row, active);
        t := t.(unicode := t.unicode + [row]);
        t := t.(trigram := t.trigram + [row]);
      }
    }

    /** The outcome and the tables are the specified ones. */
    ghost predicate Follows(spec: Result<(Tables, nat), Code>, r: Result<nat, Code>)
      reads this
    {
      match spec
      case Ok(after) => r == Ok(after.1) && t == after.0
      case Err(code) => r == Err(code)
    }
  }

  lemma OneMoreTag(id: Id, revision: nat, tags: seq<string>, n: nat)
    requires n < |tags|
    ensures TagRows(id, revision, tags[..n + 1]) == TagRows(id, revision, tags[..n]) + {(id, revision, tags[n])}
    ensures tags[n] in tags[..n] ==> !Distinct(tags)
    ensures Distinct(tags[..n]) && tags[n] !in tags[..n] ==> Distinct(tags[..n + 1])
  {
  }

  /** The proposal asks for the change this request asks for. */
  predicate AsksTheSame(p: Proposal, req: CandidateRequest)
  {
    p.operation == req.Operation() && p.target == req.Target() && p.targetRevision == req.TargetRevision() &&
    p.payload == req.Payload()
  }

  /** The proposal an idempotency key belongs to is unique. A replay that is answered, which takes the
      same namespace and scope, is answered with the proposal of the very same request; and when no
      namespace contains the separator, a replay with the same digest is always answered. */
  lemma ReplayIsTheRequest(db: Tables, nfc: Normalizer, req: CandidateRequest, id: Id)
    requires Inv(db, nfc) && req.Valid()
    requires HasKey(db, req.key, id) && db.proposals[id].digest == req.RequestDigest()
    ensures InScope(db, id, req.namespace, req.scope) ==> AsksTheSame(db.proposals[id], req)
    ensures SEPARATOR !in db.proposals[id].namespace && SEPARATOR !in req.namespace ==>
              InScope(db, id, req.namespace, req.scope)
    ensures forall other | HasKey(db, req.key, other) :: other == id
  {
    hide Complete, Provenance, HeadsOk, NoDuplicates, ReferencesOk, Projects, TookEffect, DigestOf;
    assert Lifecycle(db, id);
    var p, q := db.proposals[id], req.Row("");
    if InScope(db, id, req.namespace, req.scope) {
      SameChange(p, q);
    }
    if SEPARATOR !in p.namespace && SEPARATOR !in req.namespace {
      DigestIsInjective(p, q);
    }
  }

  class Store {
    var db: Tables
    const nfc: Normalizer

    constructor (nfc: Normalizer)
      ensures db == EMPTY && this.nfc == nfc && Inv(db, nfc)
    {
      db := EMPTY;
      this.nfc := nfc;
      new;
      EmptyIsGood(nfc);
    }

    /** candidate_create, candidate_replace and candidate_archive: a new pending proposal, or the
        proposal an earlier call with the same key and request made. */
    method Candidate(req: CandidateRequest, now: string) returns (r: Result<View, Code>)
      requires Inv(db, nfc)
      modifies this
      ensures db == After(old(db), nfc, Call.Candidate(req, now)) && Inv(db, nfc)
      ensures CandidateSpec(old(db), req, now).Err? ==> r == Err(CandidateSpec(old(db), req, now).error)
      ensures CandidateSpec(old(db), req, now).Ok? && r.Err? ==> r.error == NotFound && Collides(old(db), req)
      ensures r.Ok? ==> HasKey(db, req.key, r.value.proposalId) && r.value == ViewOf(db, r.value.proposalId) &&
                        InScope(db, r.value.proposalId, req.namespace, req.scope) &&
                        r.value.proposal.digest == req.RequestDigest() && AsksTheSame(r.value.proposal, req)
    {
      hide Inv, CandidateRequest.Valid, CandidateRequest.RequestDigest;
      CallKeepsInv(db, nfc, Call.Candidate(req, now));
      if !req.Valid() {
        return Err(InvalidInput);
      }
      CandidateIsNamed(req);
      var digest := req.RequestDigest();
      var tx := new Transaction(db, nfc);
      var id := req.proposalId;
      if known :| known in tx.t.proposals && tx.t.proposals[known].key == req.key {
        assert HasKey(db, req.key, known);
        KeyIsUnique(db, nfc, req.key);
        if tx.t.proposals[known].digest != digest {
          return Err(Conflict);
        }
        id := known;
        ReplayIsTheRequest(db, nfc, req, id);
      } else {
        assert forall other :: !HasKey(db, req.key, other);
        if req.proposalId in tx.t.proposals {
          return Err(Conflict);
        }
        tx.t := tx.t.(proposals := tx.t.proposals[req.proposalId := req.Row(now)]);
        RowMatches(req, now);
      }
      KeysHaveNames(tx.t, nfc, req.key);
      db := tx.t;
      r := CandidateGet(req.namespace, req.scope, id);
    }

    /** The proposal with this id, if it lives in exactly this namespace and scope. */
    method CandidateGet(namespace: string, scope: Scope, id: Id) returns (r: Result<View, Code>)
      ensures !Named(namespace, scope, id) ==> r == Err(InvalidInput)
      ensures Named(namespace, scope, id) && InScope(db, id, namespace, scope) ==> r == Ok(ViewOf(db, id))
      ensures Named(namespace, scope, id) && !InScope(db, id, namespace, scope) ==> r == Err(NotFound)
      ensures r.Ok? <==> NamedPlainly(namespace, scope, id) && id in db.proposals &&
                         db.proposals[id].namespace == namespace && db.proposals[id].scope == scope
      ensures r.Ok? ==> r.value.proposal == db.proposals[id] && r.value.proposalId == id &&
                        (r.value.review.Some? <==> id in db.reviews) &&
                        (id in db.reviews ==> r.value.review.value == db.reviews[id])
    {
      NamedExactlyWhen(namespace, scope, id);
      if !Named(namespace, scope, id) {
        return Err(InvalidInput);
      }
      if id in db.proposals && db.proposals[id].namespace == namespace && db.proposals[id].scope == scope {
        r := Ok(View(id, db.proposals[id], if id in db.reviews then Some(db.reviews[id]) else None));
      } else {
        r := Err(NotFound);
      }
    }

    /** review: the only way a proposal takes effect. */
    method Review(req: ReviewRequest, now: string) returns (r: Result<View, Code>)
      requires Inv(db, nfc)
      modifies this
      ensures db == After(old(db), nfc, Call.Decision(req, now)) && Inv(db, nfc)
      ensures match ReviewSpec(old(db), nfc, req, now)
              case Ok(after) => req.proposalId in db.proposals && r == Ok(ViewOf(db, req.proposalId))
              case Err(code) => r == Err(code)
      ensures (r.Ok? <==> Accepts(old(db), nfc, req)) && (r.Err? ==> r.error == Refusal(old(db), req))
    {
      hide Inv, ReviewRequest.Valid, ApplySpec, CreateSpec, ReplaceSpec, ArchiveSpec, Accepts, Refusal;
      ReviewAnswer(db, nfc, req, now);
      CallKeepsInv(db, nfc, Call.Decision(req, now));
      if !req.Valid() {
        return Err(InvalidInput);
      }
      ReviewIsNamed(req);
      var tx := new Transaction(db, nfc);
      if decided :| decided in tx.t.reviews && tx.t.reviews[decided].key == req.key {
        assert HasReviewKey(db, req.key, decided);
        ReviewKeyIsUnique(db, nfc, req.key);
        if decided != req.proposalId {
          return Err(Conflict);
        }
        r := CandidateGet(req.namespace, req.scope, req.proposalId);
        return;
      }
      assert forall other :: !HasReviewKey(db, req.key, other);
      if req.proposalId !in tx.t.proposals || tx.t.proposals[req.proposalId].namespace != req.namespace
         || tx.t.proposals[req.proposalId].scope != req.scope {
        return Err(NotFound);
      }
      var p := tx.t.proposals[req.proposalId];
      if !p.status.Pending? || p.revision != req.expectedRevision {
        ReviewRevision(req);
        return Err(Conflict);
      }
      ReviewRevision(req);
      PendingHasNoReview(db, nfc, req.proposalId);
      var applied: Option<nat> := None;
      if req.decision.Approve? {
        var effect := Apply(tx, req, p, now);
        if effect.Err? {
          return Err(effect.error);
        }
        applied := Some(effect.value);
      }
      tx.t := tx.t.(reviews := tx.t.reviews[req.proposalId :=
                      MemoryTables.Review(req.key, req.decision, req.reviewer, req.comment, req.expectedRevision,
                                          applied, now)]);
      tx.t := tx.t.(proposals := tx.t.proposals[req.proposalId :=
                      p.(status := if req.decision.Approve? then Approved else Rejected, revision := 2,
                         decidedAt := Some(now))]);
      db := tx.t;
      r := CandidateGet(req.namespace, req.scope, req.proposalId);
    }

    /** The effect of an approval, by operation. */
    method Apply(tx: Transaction, req: ReviewRequest, p: Proposal, now: string) returns (r: Result<nat, Code>)
      requires Inv(db, nfc) && tx.t == db && tx.nfc == nfc && req.proposalId in db.proposals
      modifies tx
      ensures tx.Follows(ApplySpec(db, nfc, req, p, now), r) &&
              (r.Ok? ==> tx.t.proposals == db.proposals && tx.t.reviews == db.reviews)
    {
      hide Complete, Provenance, HeadsOk, NoDuplicates, ProposalsOk, KeysOk, ReferencesOk, Projects, Distinct;
      match p.operation {
        case Create =>
          if p.payload.None? {
            return Err(IntegrityError);
          }
          r := tx.ApplyCreate(req, p.payload.value, now);
        case Replace =>
          if p.target.None? || p.targetRevision.None? || p.targetRevision.value < 1 || p.payload.None? {
            return Err(IntegrityError);
          }
          r := tx.ApplyReplace(req, p.target.value, p.targetRevision.value, p.payload.value, now);
        case Archive =>
          if p.target.None? || p.targetRevision.None? || p.targetRevision.value < 1 {
            return Err(IntegrityError);
          }
          r := tx.ApplyArchive(req, p.target.value, p.targetRevision.value, now);
      }
    }

    /** record_get: every revision from 1 to the current one of a record in exactly this
        namespace and scope, and nothing else. */
    method RecordGet(namespace: string, scope: Scope, id: Id, revision: Option<nat>)
      returns (r: Result<(Version, RecordStatus), Code>)
      requires Inv(db, nfc)
      ensures !Named(namespace, scope, id) ==> r == Err(InvalidInput)
      ensures r.Ok? <==> Named(namespace, scope, id) &&
                         id in db.heads && db.heads[id].namespace == namespace && db.heads[id].scope == scope &&
                         (revision.Some? ==> 1 <= revision.value <= db.heads[id].current)
      ensures r.Ok? ==>
                r.value.0.namespace == namespace && r.value.0.scope == scope && r.value.1 == db.heads[id].status &&
                HoldsVersion(db, id, if revision.Some? then revision.value else db.heads[id].current, r.value.0)
      ensures r.Err? && Named(namespace, scope, id) ==> r.error == NotFound
      ensures r == Err(InvalidInput) <==> !NamedPlainly(namespace, scope, id)
      ensures r.Ok? && revision.Some? ==> r.value.0 == db.versions[(id, revision.value)]
      ensures r.Ok? && revision.None? ==> r.value.0 == db.versions[(id, db.heads[id].current)]
    {
      NamedExactlyWhen(namespace, scope, id);
      hide Provenance, NoDuplicates, ProposalsOk, KeysOk, ReferencesOk, Projects;
      if !Named(namespace, scope, id) {
        return Err(InvalidInput);
      }
      if id !in db.heads || db.heads[id].namespace != namespace || db.heads[id].scope != scope {
        return Err(NotFound);
      }
      var wanted := if revision.Some? then revision.value else db.heads[id].current;
      if (id, wanted) !in db.versions {
        return Err(NotFound);
      }
      r := Ok((db.versions[(id, wanted)], db.heads[id].status));
    }

    /** feedback_event: append-only, bound to an existing version. */
    method FeedbackEvent(req: FeedbackRequest, now: string) returns (r: Result<Feedback, Code>)
      requires Inv(db, nfc)
      modifies this
      ensures db == After(old(db), nfc, Call.Event(req, now)) && Inv(db, nfc)
      ensures match FeedbackSpec(old(db), req, now)
              case Ok(after) => req.eventId in db.feedback && r == Ok(db.feedback[req.eventId])
              case Err(code) => r == Err(code)
    {
      hide Inv;
      CallKeepsInv(db, nfc, Call.Event(req, now));
      if req.eventId == [] || req.key == [] || req.recordId == [] {
        return Err(InvalidInput);
      }
      if (req.recordId, req.revision) !in db.versions {
        return Err(NotFound);
      }
      if known :| known in db.feedback && db.feedback[known].key == req.key {
        assert HasFeedbackKey(db, req.key, known);
        FeedbackKeyIsUnique(db, nfc, req.key);
        r := if known != req.eventId then Err(Conflict) else Ok(db.feedback[known]);
        return;
      }
      assert forall other :: !HasFeedbackKey(db, req.key, other);
      if req.eventId in db.feedback {
        return Err(IoError);
      }
      var event := Feedback.Feedback(req.key, req.recordId, req.revision, req.helpful, now);
      db := db.(feedback := db.feedback[req.eventId := event]);
      r := Ok(db.feedback[req.eventId]);
    }

    /** rebuild_projection empties both search tables and inserts a row for every active record.
        It never changes what the tables hold. */
    method RebuildProjection() returns (count: nat)
      requires Inv(db, nfc)
      modifies this
      ensures db == old(db).(unicode := db.unicode, trigram := db.trigram) && Inv(db, nfc)
      ensures multiset(db.unicode) == multiset(old(db).unicode) && multiset(db.trigram) == multiset(old(db).trigram)
      ensures count == |db.unicode| == |db.trigram|
    {
      hide Complete, Provenance, NoDuplicates, ProposalsOk, KeysOk, ReferencesOk, Projects;
      var tx := new Transaction(db, nfc);
      HeadsHaveVersions(db);
      tx.RebuildFts();
      ProjectionIsUnique(db, db.unicode, tx.t.unicode);
      ProjectionIsUnique(db, db.trigram, tx.t.trigram);
      SearchTablesAreDerived(db, tx.t, nfc);
      count := |tx.t.unicode|;
      db := tx.t;
    }
  }

  /** The key belongs to a proposal of another namespace or scope with the same digest. */
  ghost predicate Collides(db: Tables, req: CandidateRequest)
  {
    exists id :: HasKey(db, req.key, id) && db.proposals[id].digest == req.RequestDigest() &&
                 !InScope(db, id, req.namespace, req.scope) &&
                 (SEPARATOR in db.proposals[id].namespace || SEPARATOR in req.namespace)
  }

  lemma KeysHaveNames(db: Tables, nfc: Normalizer, key: string)
    requires Inv(db, nfc)
    ensures forall id | HasKey(db, key, id) :: id != []
  {
    hide Complete, Provenance, HeadsOk, NoDuplicates, ReferencesOk, Projects, KeysOk, Shaped;
    forall id | HasKey(db, key, id) ensures id != [] {
      assert Lifecycle(db, id);
    }
  }

  /** It does happen: a request for another scope, with the key of an earlier one, is answered not-found
      where a conflict was due. */
  lemma CollisionHappens(nfc: Normalizer, payload: Payload, now: string)
    requires payload.Valid()
    ensures var first := CandidateRequest("p", "k", "agent", "n", Project("global"), CreateRecord(payload));
            var second :=
              CandidateRequest("q", "k", "agent", "n" + [SEPARATOR] + "project", Global, CreateRecord(payload));
            var db := Run(nfc, [Call.Candidate(first, now)]);
            second.Valid() && second.RequestDigest() == first.RequestDigest() && Collides(db, second)
  {
    hide DigestOf, Payload.Valid;
    var first := CandidateRequest("p", "k", "agent", "n", Project("global"), CreateRecord(payload));
    var second := CandidateRequest("q", "k", "agent", "n" + [SEPARATOR] + "project", Global, CreateRecord(payload));
    var calls := [Call.Candidate(first, now)];
    assert calls[..0] == [];
    assert Run(nfc, calls) == After(EMPTY, nfc, calls[0]);
    var db := Run(nfc, calls);
    assert first.Valid() && forall id :: !HasKey(EMPTY, "k", id);
    assert db.proposals == map["p" := first.Row(now)];
    DigestsCollide(payload);
    assert HasKey(db, "k", "p");
    assert second.namespace[1] == SEPARATOR;
  }

  lemma CandidateIsNamed(req: CandidateRequest)
    requires req.Valid()
    ensures Named(req.namespace, req.scope, req.proposalId)
  {
  }

  lemma ReviewIsNamed(req: ReviewRequest)
    requires req.Valid()
    ensures Named(req.namespace, req.scope, req.proposalId)
  {
  }

  lemma RowMatches(req: CandidateRequest, now: string)
    ensures var p := req.Row(now);
            p.namespace == req.namespace && p.scope == req.scope && p.key == req.key && p.digest == req.RequestDigest()
  {
  }

  lemma KeyIsUnique(db: Tables, nfc: Normalizer, key: string)
    requires Inv(db, nfc)
    ensures forall a, b | HasKey(db, key, a) && HasKey(db, key, b) :: a == b
  {
    hide Complete, Provenance, HeadsOk, NoDuplicates, ReferencesOk, Projects, ProposalsOk;
  }

  /** Every active head names an existing version. */
  ghost predicate ActiveHaveVersions(db: Tables)
  {
    forall id | IsActive(db, id) :: (id, db.heads[id].current) in db.versions
  }

  lemma HeadsHaveVersions(db: Tables)
    requires HeadsOk(db)
    ensures ActiveHaveVersions(db)
  {
  }

  lemma SameProjectedRow(a: Tables, b: Tables, id: Id)
    requires ActiveHaveVersions(a) && IsActive(a, id) && b == a.(unicode := b.unicode, trigram := b.trigram)
    ensures (id, b.heads[id].current) in b.versions
    ensures var row :=
              MakeRow(id, b.versions[(id, b.heads[id].current)].body, InOrder(TagsOf(b, id, b.heads[id].current)));
            row.recordId == id && RowOk(a, row)
  {
  }

  /** Projects, for the records not waiting any more. */
  ghost predicate PartlyProjects(db: Tables, rows: seq<FtsRow>, waiting: set<Id>)
  {
    (forall i | 0 <= i < |rows| :: RowOk(db, rows[i]) && rows[i].recordId !in waiting) &&
    DistinctIds(rows) &&
    (forall id | IsActive(db, id) && id !in waiting :: HasRow(rows, id))
  }

  lemma OneMoreRow(db: Tables, rows: seq<FtsRow>, row: FtsRow, waiting: set<Id>)
    requires PartlyProjects(db, rows, waiting + {row.recordId}) && RowOk(db, row) && row.recordId !in waiting
    ensures PartlyProjects(db, rows + [row], waiting)
  {
    hide RowOk;
    assert (rows + [row])[|rows|] == row;
    forall id | HasRow(rows, id) ensures HasRow(rows + [row], id) {
      var i :| 0 <= i < |rows| && rows[i].recordId == id;
      assert (rows + [row])[i].recordId == id;
    }
  }

  /** Other search tables that project the same canonical rows keep the invariant. */
  lemma SearchTablesAreDerived(db: Tables, d: Tables, nfc: Normalizer)
    requires Inv(db, nfc) && d == db.(unicode := d.unicode, trigram := d.trigram)
    requires Projects(db, d.unicode) && Projects(db, d.trigram)
    ensures Inv(d, nfc)
  {
    hide Complete, HeadsOk, NoDuplicates, KeysOk, Projects, Lifecycle, TookEffect, DedupeKey;
    SameRowsProject(db, d, d.unicode);
    SameRowsProject(db, d, d.trigram);
    CanonicalTablesDecide(db, d, nfc);
  }

  lemma CanonicalTablesDecide(db: Tables, d: Tables, nfc: Normalizer)
    requires Complete(db) && Provenance(db, nfc) && HeadsOk(db) && NoDuplicates(db) && ProposalsOk(db) && KeysOk(db) &&
             ReferencesOk(db)
    requires d == db.(unicode := d.unicode, trigram := d.trigram)
    ensures Complete(d) && Provenance(d, nfc) && HeadsOk(d) && NoDuplicates(d) && ProposalsOk(d) && KeysOk(d) &&
            ReferencesOk(d)
  {
    hide Provenance, Lifecycle, TookEffect, KeysOk;
    SameVersions(db, d, nfc);
    assert KeysOk(d) by { SameKeys(db, d); }
    forall id | id in d.proposals ensures Lifecycle(d, id) && TookEffect(d, id) {
      OldProposalKept(db, d, id);
    }
  }

  lemma SameKeys(db: Tables, d: Tables)
    requires KeysOk(db) && d.proposals == db.proposals && d.reviews == db.reviews && d.feedback == db.feedback
    ensures KeysOk(d)
  {
  }

  lemma ReviewKeyIsUnique(db: Tables, nfc: Normalizer, key: string)
    requires Inv(db, nfc)
    ensures forall a, b | HasReviewKey(db, key, a) && HasReviewKey(db, key, b) :: a == b
  {
    hide Complete, Provenance, HeadsOk, NoDuplicates, ReferencesOk, Projects, ProposalsOk;
  }

  lemma FeedbackKeyIsUnique(db: Tables, nfc: Normalizer, key: string)
    requires Inv(db, nfc)
    ensures forall a, b | HasFeedbackKey(db, key, a) && HasFeedbackKey(db, key, b) :: a == b
  {
    hide Complete, Provenance, HeadsOk, NoDuplicates, ReferencesOk, Projects, ProposalsOk;
  }

  lemma ReviewRevision(req: ReviewRequest)
    requires req.Valid()
    ensures req.expectedRevision == 1
  {
  }

  lemma PendingHasNoReview(db: Tables, nfc: Normalizer, id: Id)
    requires Inv(db, nfc) && id in db.proposals && db.proposals[id].status.Pending?
    ensures id !in db.reviews
  {
  }
}
