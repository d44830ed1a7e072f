/** What every approval has left behind: the converse of provenance
    (crates/xuanling-memory/src/store/v2.rs). */
module MemoryEffects {
  import opened Wrappers
  import opened MemoryTables
  import opened MemoryInvariant
  import opened MemoryRuns

  /** The proposal made this version and no other. */
  ghost predicate MadeOnly(db: Tables, proposalId: Id, made: VersionKey)
  {
    forall key | key in db.versions :: db.versions[key].proposalId == proposalId <==> key == made
  }

  ghost predicate MadeNothing(db: Tables, proposalId: Id)
  {
    forall key | key in db.versions :: db.versions[key].proposalId != proposalId
  }

  /** An approved create or replace is the origin of exactly one version, the one its review names; an
      approved archive has archived its target at the revision its review names; and nothing else has
      made anything. */
  ghost predicate Effective(db: Tables, id: Id)
    requires id in db.proposals
  {
    var p := db.proposals[id];
    if !p.status.Approved? then
      MadeNothing(db, id) && (id in db.reviews ==> db.reviews[id].appliedRevision.None?)
    else
      id in db.reviews && db.reviews[id].appliedRevision.Some? &&
      var applied := db.reviews[id].appliedRevision.value;
      match p.operation
      case Create => applied == 1 && (id, 1) in db.versions && MadeOnly(db, id, (id, 1))
      case Replace =>
        p.target.Some? && p.targetRevision == Some(applied - 1) &&
        (p.target.value, applied) in db.versions && MadeOnly(db, id, (p.target.value, applied))
      case Archive =>
        p.target.Some? && p.targetRevision == Some(applied) && p.target.value in db.heads &&
        db.heads[p.target.value].status.Archived? && db.heads[p.target.value].current == applied && MadeNothing(db, id)
  }

  ghost predicate Effects(db: Tables)
  {
    forall id | id in db.proposals :: Effective(db, id)
  }

  /** What an undecided proposal cannot have done. */
  lemma UndecidedMadeNothing(db: Tables, nfc: Normalizer, id: Id)
    requires Provenance(db, nfc) && (id in db.proposals ==> !db.proposals[id].status.Approved?)
    ensures MadeNothing(db, id)
  {
    hide DedupeKey, TagsMatch;
    forall key | key in db.versions ensures db.versions[key].proposalId != id {
      assert VersionOk(db, nfc, key.0, key.1);
    }
  }

  /** Nothing that an old proposal did is touched by adding proposals, reviews and feedback, new
      revisions of others' making, or archiving. */
  lemma StaysEffective(db: Tables, d: Tables, id: Id)
    requires id in db.proposals && Effective(db, id)
    requires id in d.proposals && d.proposals[id] == db.proposals[id]
    requires id in db.reviews <==> id in d.reviews
    requires id in db.reviews ==> d.reviews[id] == db.reviews[id]
    requires forall key | key in db.versions :: key in d.versions && d.versions[key] == db.versions[key]
    requires forall key | key in d.versions && key !in db.versions :: d.versions[key].proposalId != id
    requires forall r | r in db.heads && db.heads[r].status.Archived? :: r in d.heads && d.heads[r] == db.heads[r]
    ensures Effective(d, id)
  {
  }

  lemma CandidateKeepsEffects(db: Tables, nfc: Normalizer, req: CandidateRequest, now: string)
    requires Inv(db, nfc) && Effects(db) && CandidateSpec(db, req, now).Ok?
    ensures Effects(CandidateSpec(db, req, now).value)
  {
    hide Complete, HeadsOk, NoDuplicates, KeysOk, ReferencesOk, Projects, Effective, MadeNothing, Provenance,
         CandidateRequest.Valid, CandidateRequest.RequestDigest, Lifecycle, TookEffect;
    var d := CandidateSpec(db, req, now).value;
    if d != db {
      forall id | id in d.proposals ensures Effective(d, id) {
        if id != req.proposalId {
          assert Effective(db, id);
          StaysEffective(db, d, id);
        } else {
          UndecidedMadeNothing(db, nfc, id);
          NewIsEffective(db, d, id);
        }
      }
    }
  }

  lemma NewIsEffective(db: Tables, d: Tables, id: Id)
    requires id in d.proposals && d.proposals[id].status.Pending? && MadeNothing(db, id) && id !in d.reviews
    requires d.versions == db.versions
    ensures Effective(d, id)
  {
  }

  lemma RejectKeepsEffects(db: Tables, nfc: Normalizer, req: ReviewRequest, now: string)
    requires Inv(db, nfc) && Effects(db) && Decidable(db, req) && req.decision.Reject?
    ensures Effects(Decide(db, req, None, now))
  {
    hide Complete, HeadsOk, NoDuplicates, KeysOk, ReferencesOk, Projects, MadeNothing, Provenance, Lifecycle,
         TookEffect,
         Effective;
    var d := Decide(db, req, None, now);
    forall id | id in d.proposals ensures Effective(d, id) {
      assert Effective(db, id);
      if id != req.proposalId {
        StaysEffective(db, d, id);
      } else {
        RejectedIsEffective(db, d, id);
      }
    }
  }

  lemma RejectedIsEffective(db: Tables, d: Tables, id: Id)
    requires id in db.proposals && db.proposals[id].status.Pending? && Effective(db, id) && d.versions == db.versions
    requires id in d.proposals && d.proposals[id].status.Rejected? && id in d.reviews &&
             d.reviews[id].appliedRevision.None?
    ensures Effective(d, id)
  {
  }

  lemma PublishKeepsEffects(db: Tables, d: Tables, nfc: Normalizer, req: ReviewRequest, id: Id, k: nat,
                            payload: Payload, now: string)
    requires Inv(db, nfc) && Effects(db) && Publishes(db, d, nfc, req, id, k, payload, now)
    ensures Effects(d)
  {
    hide HeadsOk, NoDuplicates, KeysOk, ReferencesOk, Projects, Provenance, Lifecycle, TookEffect, Effective,
         NewVersion,
         ActiveDuplicate, OccupiesKey, Without, TagRows, NewRow, ReviewRequest.Valid, MadeNothing, Complete;
    PublishKeepsComplete(db, d, nfc, req, id, k, payload, now);
    PublishedOrigin(db, d, nfc, req, id, k, payload, now);
    forall other | other in d.proposals ensures Effective(d, other) {
      assert Effective(db, other);
      if other != req.proposalId {
        StaysEffective(db, d, other);
      } else {
        UndecidedMadeNothing(db, nfc, other);
        PublishedIsEffective(db, d, nfc, req, id, k, payload, now);
      }
    }
  }

  lemma PublishedOrigin(db: Tables, d: Tables, nfc: Normalizer, req: ReviewRequest, id: Id, k: nat,
                        payload: Payload, now: string)
    requires Publishes(db, d, nfc, req, id, k, payload, now)
    ensures d.versions == db.versions[(id, k) := d.versions[(id, k)]] &&
            d.versions[(id, k)].proposalId == req.proposalId
    ensures forall r | r in db.heads && db.heads[r].status.Archived? :: r in d.heads && d.heads[r] == db.heads[r]
  {
    hide DedupeKey, Without, TagRows, NewRow, ActiveDuplicate;
  }

  lemma PublishedIsEffective(db: Tables, d: Tables, nfc: Normalizer, req: ReviewRequest, id: Id, k: nat,
                             payload: Payload, now: string)
    requires Publishes(db, d, nfc, req, id, k, payload, now) && MadeNothing(db, req.proposalId)
    ensures Effective(d, req.proposalId)
  {
    hide DedupeKey, Without, TagRows, NewRow, ActiveDuplicate;
  }

  lemma ArchiveKeepsEffects(db: Tables, d: Tables, nfc: Normalizer, req: ReviewRequest, id: Id, now: string)
    requires Inv(db, nfc) && Effects(db) && Archives(db, d, req, id, now)
    ensures Effects(d)
  {
    hide HeadsOk, NoDuplicates, KeysOk, ReferencesOk, Projects, Provenance, Lifecycle, TookEffect, Effective, Without,
         ReviewRequest.Valid, MadeNothing, Complete;
    forall other | other in d.proposals ensures Effective(d, other) {
      assert Effective(db, other);
      if other != req.proposalId {
        StaysEffective(db, d, other);
      } else {
        UndecidedMadeNothing(db, nfc, other);
        ArchivedIsEffective(db, d, req, id, now);
      }
    }
  }

  lemma ArchivedIsEffective(db: Tables, d: Tables, req: ReviewRequest, id: Id, now: string)
    requires Archives(db, d, req, id, now) && MadeNothing(db, req.proposalId)
    ensures Effective(d, req.proposalId)
  {
    hide Without;
  }

  lemma CallKeepsEffects(db: Tables, nfc: Normalizer, call: Call)
    requires Inv(db, nfc) && Effects(db)
    ensures Effects(After(db, nfc, call))
  {
    hide Inv, Effects, CandidateSpec, ReviewSpec, FeedbackSpec, Publishes, Archives, Decide;
    match call
    case Candidate(req, now) => if CandidateSpec(db, req, now).Ok? { CandidateKeepsEffects(db, nfc, req, now); }
    case Decision(req, now) =>
      if ReviewSpec(db, nfc, req, now).Ok? {
        ReviewSucceeds(db, nfc, req, now);
        var d := ReviewSpec(db, nfc, req, now).value;
        if d == db {
        } else if req.decision.Reject? && Decidable(db, req) && d == Decide(db, req, None, now) {
          RejectKeepsEffects(db, nfc, req, now);
        } else if id, k, payload :| Publishes(db, d, nfc, req, id, k, payload, now) {
          PublishKeepsEffects(db, d, nfc, req, id, k, payload, now);
        } else {
          var id :| Archives(db, d, req, id, now);
          ArchiveKeepsEffects(db, d, nfc, req, id, now);
        }
      }
    case Event(req, now) => if FeedbackSpec(db, req, now).Ok? { FeedbackKeepsEffects(db, req, now); }
  }

  lemma FeedbackKeepsEffects(db: Tables, req: FeedbackRequest, now: string)
    requires Effects(db) && FeedbackSpec(db, req, now).Ok?
    ensures Effects(FeedbackSpec(db, req, now).value)
  {
    hide Effective;
    var d := FeedbackSpec(db, req, now).value;
    forall id | id in d.proposals ensures Effective(d, id) {
      assert Effective(db, id);
      StaysEffective(db, d, id);
    }
  }

  /** After any sequence of calls every approval has had its effect, once, and nothing else has had any. */
  lemma {:induction false} EveryApprovalIsEffective(nfc: Normalizer, calls: seq<Call>)
    ensures Effects(Run(nfc, calls))
  {
    hide Inv, After, Effects;
    if calls == [] {
      NothingProposed();
    } else {
      var earlier := calls[..|calls| - 1];
      EveryApprovalIsEffective(nfc, earlier);
      EveryRunKeepsInv(nfc, earlier);
      CallKeepsEffects(Run(nfc, earlier), nfc, calls[|calls| - 1]);
    }
  }

  lemma NothingProposed()
    ensures Effects(EMPTY)
  {
  }

  /** So no two versions have one origin, and each one is the revision its origin's review names. */
  lemma VersionsAreApprovals(nfc: Normalizer, calls: seq<Call>, a: VersionKey, b: VersionKey)
    requires var db := Run(nfc, calls);
             a in db.versions && b in db.versions && db.versions[a].proposalId == db.versions[b].proposalId
    ensures a == b
    ensures var db := Run(nfc, calls);
            db.versions[a].proposalId in db.reviews &&
            db.reviews[db.versions[a].proposalId].appliedRevision == Some(a.1)
  {
    var db := Run(nfc, calls);
    EveryRunKeepsInv(nfc, calls);
    EveryApprovalIsEffective(nfc, calls);
    hide Complete, HeadsOk, NoDuplicates, KeysOk, ReferencesOk, Projects, Lifecycle, TookEffect, DedupeKey, Run,
         TagsMatch;
    var origin := db.versions[a].proposalId;
    assert VersionOk(db, nfc, a.0, a.1);
    assert Effective(db, origin);
  }
}
