/** Which export files load into a store that satisfies the invariant: import checks less than the
    calls guarantee (crates/xuanling-memory/src/jsonl.rs). */
module MemoryImported {
  import opened Wrappers
  import opened MemoryTables
  import opened MemoryInvariant
  import opened MemoryRuns
  import opened MemoryStore
  import opened JsonlFormat
  import opened MemoryJsonl
  import opened MemoryRoundTrip

  // ---- what is left to the file -------------------------------------------------------

  /** The version and its tags are those of the approved proposal it names. */
  ghost predicate OriginAgrees(db: Tables, id: Id, k: nat)
    requires (id, k) in db.versions
  {
    var v := db.versions[(id, k)];
    v.proposalId in db.proposals && Made(db.proposals[v.proposalId], v, id, k) &&
    TagsMatch(db, id, k, db.proposals[v.proposalId].payload.value.tags)
  }

  /** A head has the dedupe key of its current version, and namespace and scope of all versions. */
  ghost predicate HeadsAgree(db: Tables)
  {
    (forall id | id in db.heads && (id, db.heads[id].current) in db.versions ::
       db.heads[id].dedupeKey == db.versions[(id, db.heads[id].current)].dedupeKey) &&
    (forall id: Id, k: nat | (id, k) in db.versions && id in db.heads ::
       db.versions[(id, k)].namespace == db.heads[id].namespace && db.versions[(id, k)].scope == db.heads[id].scope)
  }

  /** The proposal has the shape and digest of its operation, revision 1 exactly while it is pending, a
      time and a review that fit its decision, and an approved create has its first version. */
  ghost predicate DecisionAgrees(db: Tables, id: Id)
    requires id in db.proposals
  {
    var p := db.proposals[id];
    id != [] && Shaped(p) && (p.status.Pending? <==> p.revision == 1) && (p.decidedAt.None? ==> p.status.Pending?) &&
    (id in db.reviews ==> (db.reviews[id].decision.Approve? <==> p.status.Approved?)) &&
    (p.status.Approved? && p.operation.Create? ==> (id, 1) in db.versions)
  }

  /** What no check of import covers. */
  ghost predicate Unchecked(db: Tables)
  {
    Complete(db) && HeadsAgree(db) &&
    (forall id: Id, k: nat | (id, k) in db.versions :: OriginAgrees(db, id, k)) &&
    (forall id | id in db.proposals :: DecisionAgrees(db, id))
  }

  // ---- what the checks establish ------------------------------------------------------

  ghost predicate VersionsChecked(db: Tables, nfc: Normalizer)
  {
    forall key | key in db.versions ::
      key.1 >= 1 && db.versions[key].proposalId in db.proposals &&
      db.versions[key].contentSha == Sha256(db.versions[key].body.content) &&
      db.versions[key].dedupeKey == DedupeKey(nfc, db.versions[key].body.content, db.versions[key].namespace)
  }

  ghost predicate HeadsChecked(db: Tables)
  {
    forall id | id in db.heads :: (id, db.heads[id].current) in db.versions
  }

  ghost predicate ProposalsChecked(db: Tables)
  {
    db.reviews.Keys <= db.proposals.Keys &&
    forall id | id in db.proposals :: ProposalValid((id, db.proposals[id]), db.reviews.Keys, db.versions.Keys)
  }

  lemma LoadedVersionEntries(vs: seq<(VersionKey, Tagged)>)
    ensures VersionsIn(vs).Keys == KeysOf(vs)
    ensures forall key | key in VersionsIn(vs) ::
              exists i :: 0 <= i < |vs| && vs[i].0 == key && vs[i].1.version == VersionsIn(vs)[key]
  {
    VersionsInKeys(vs);
    VersionsInMapOf(vs);
    MapOfKeys(vs);
    forall key | key in VersionsIn(vs)
      ensures exists i :: 0 <= i < |vs| && vs[i].0 == key && vs[i].1.version == VersionsIn(vs)[key]
    {
      var i :| 0 <= i < |vs| && vs[i] == (key, MapOf(vs)[key]);
    }
  }

  lemma LoadedVersionsChecked(nfc: Normalizer, e: Entities)
    requires EntitiesValid(nfc, e)
    ensures VersionsChecked(Loaded(e), nfc)
  {
    hide HeadsValid, ReviewsValid, ProposalsValid, EventsValid, TagsIn, VersionsIn, MapOf, DedupeKey, DistinctKeys;
    LoadedVersionEntries(e.versions);
    MapKeys(e.proposals);
    var db := Loaded(e);
    forall key | key in db.versions
      ensures key.1 >= 1 && db.versions[key].proposalId in db.proposals &&
              db.versions[key].contentSha == Sha256(db.versions[key].body.content) &&
              db.versions[key].dedupeKey == DedupeKey(nfc, db.versions[key].body.content, db.versions[key].namespace)
    {
      var i :| 0 <= i < |e.versions| && e.versions[i].0 == key && e.versions[i].1.version == db.versions[key];
      assert VersionValid(nfc, e.versions[i], KeysOf(e.proposals));
    }
  }

  lemma LoadedHeadsChecked(nfc: Normalizer, e: Entities)
    requires EntitiesValid(nfc, e)
    ensures HeadsChecked(Loaded(e))
  {
    hide VersionsValid, ReviewsValid, ProposalsValid, EventsValid, TagsIn, VersionsIn, MapOf, DistinctKeys;
    VersionsInKeys(e.versions);
    MapOfKeys(e.heads);
    var db := Loaded(e);
    forall id | id in db.heads ensures (id, db.heads[id].current) in db.versions {
      var i :| 0 <= i < |e.heads| && e.heads[i] == (id, db.heads[id]);
    }
  }

  lemma LoadedProposalsChecked(nfc: Normalizer, e: Entities)
    requires EntitiesValid(nfc, e)
    ensures ProposalsChecked(Loaded(e))
  {
    hide VersionsValid, HeadsValid, EventsValid, TagsIn, VersionsIn, MapOf, ProposalValid, DistinctKeys;
    VersionsInKeys(e.versions);
    MapKeys(e.proposals);
    MapKeys(e.reviews);
    MapOfKeys(e.proposals);
    var db := Loaded(e);
    forall id | id in db.proposals ensures ProposalValid((id, db.proposals[id]), db.reviews.Keys, db.versions.Keys) {
      var i :| 0 <= i < |e.proposals| && e.proposals[i] == (id, db.proposals[id]);
    }
  }

  lemma LoadedNoDuplicates(e: Entities)
    requires HeadsUnique(e.heads)
    ensures NoDuplicates(Loaded(e))
  {
    hide TagsIn, VersionsIn, MapOf;
    MapOfKeys(e.heads);
    var hs, db := e.heads, Loaded(e);
    forall a, b | a in db.heads && b in db.heads && db.heads[a].status.Active? &&
                  OccupiesKey(db.heads[b], db.heads[a].namespace, db.heads[a].scope, db.heads[a].dedupeKey)
      ensures a == b
    {
      var i :| 0 <= i < |hs| && hs[i] == (a, db.heads[a]);
      var j :| 0 <= j < |hs| && hs[j] == (b, db.heads[b]);
      assert i < j ==> OccupiesKey(hs[i].1, hs[j].1.namespace, hs[j].1.scope, hs[j].1.dedupeKey);
    }
  }

  lemma LoadedKeys(nfc: Normalizer, e: Entities)
    requires EntitiesValid(nfc, e)
    ensures KeysOk(Loaded(e))
  {
    hide VersionsValid, HeadsValid, TagsIn, VersionsIn, MapOf, ProposalValid, DistinctKeys, KeysOf;
    MapOfKeys(e.proposals);
    MapOfKeys(e.reviews);
    MapOfKeys(e.events);
  }

  lemma LoadedReferences(nfc: Normalizer, e: Entities)
    requires EntitiesValid(nfc, e)
    ensures ReferencesOk(Loaded(e))
  {
    hide VersionsValid, HeadsValid, ReviewsValid, ProposalsValid, TagsIn, VersionsIn, MapOf;
    VersionsInKeys(e.versions);
    TagsInMembers(e.versions);
    MapOfKeys(e.events);
    var db := Loaded(e);
    forall id: Id, k: nat, t: string | (id, k, t) in db.tags ensures (id, k) in db.versions {
      var i :| 0 <= i < |e.versions| && TagOf(e.versions[i], (id, k, t));
      assert e.versions[i].0 in KeysOf(e.versions);
    }
    forall f | f in db.feedback ensures (db.feedback[f].recordId, db.feedback[f].revision) in db.versions {
      var i :| 0 <= i < |e.events| && e.events[i] == (f, db.feedback[f]);
    }
  }

  lemma VersionAgrees(db: Tables, nfc: Normalizer)
    requires VersionsChecked(db, nfc)
    ensures Provenance(db, nfc) <==> forall id: Id, k: nat | (id, k) in db.versions :: OriginAgrees(db, id, k)
  {
    hide DedupeKey, Made, TagsMatch;
    forall id: Id, k: nat | (id, k) in db.versions ensures VersionOk(db, nfc, id, k) <==> OriginAgrees(db, id, k) {
      var key := (id, k);
      assert key in db.versions;
    }
  }

  lemma HeadAgrees(db: Tables, nfc: Normalizer)
    requires VersionsChecked(db, nfc) && HeadsChecked(db) && Complete(db)
    ensures HeadsOk(db) <==> HeadsAgree(db)
  {
    hide DedupeKey;
    forall id | id in db.heads ensures db.heads[id].current >= 1 {
      var key := (id, db.heads[id].current);
      assert key in db.versions;
    }
  }

  lemma ProposalAgrees(db: Tables)
    requires ProposalsChecked(db)
    ensures ProposalsOk(db) <==> forall id | id in db.proposals :: DecisionAgrees(db, id)
  {
    hide Shaped;
    forall id | id in db.proposals ensures Lifecycle(db, id) && TookEffect(db, id) <==> DecisionAgrees(db, id) {
      assert ProposalValid((id, db.proposals[id]), db.reviews.Keys, db.versions.Keys);
      if Shaped(db.proposals[id]) { TargetIsVersion(db, id); }
    }
  }

  lemma TargetIsVersion(db: Tables, id: Id)
    requires id in db.proposals && ProposalValid((id, db.proposals[id]), db.reviews.Keys, db.versions.Keys) &&
             Shaped(db.proposals[id])
    ensures var p := db.proposals[id];
            p.target.Some? ==> p.targetRevision.Some? && (p.target.value, p.targetRevision.value) in db.versions
  {
  }

  // ---- exactly which files ------------------------------------------------------------

  /** The search tables do not matter to the rest. */
  lemma SearchTablesApart(db: Tables, d: Tables, nfc: Normalizer)
    requires d == db.(unicode := d.unicode, trigram := d.trigram)
    ensures VersionsChecked(db, nfc) ==> VersionsChecked(d, nfc)
    ensures HeadsChecked(db) ==> HeadsChecked(d)
    ensures ProposalsChecked(db) ==> ProposalsChecked(d)
    ensures NoDuplicates(db) ==> NoDuplicates(d)
    ensures KeysOk(db) ==> KeysOk(d)
    ensures ReferencesOk(db) ==> ReferencesOk(d)
  {
    hide ProposalValid, OccupiesKey, DedupeKey;
  }

  /** A store loaded from an accepted file satisfies the invariant if and only if the file's rows also
      agree in what import does not check: no gap in the revisions, content and tags as in the approved
      proposals, heads that match their versions, and decisions that fit their proposals. */
  lemma ImportedIsGoodExactlyWhen(nfc: Normalizer, e: Entities, d: Tables)
    requires EntitiesValid(nfc, e) && Insertable(e)
    requires d == Loaded(e).(unicode := d.unicode, trigram := d.trigram)
    requires Projects(d, d.unicode) && Projects(d, d.trigram)
    ensures Inv(d, nfc) <==> Unchecked(d)
  {
    hide VersionsChecked, HeadsChecked, ProposalsChecked, NoDuplicates, KeysOk, ReferencesOk, Projects, Complete,
         HeadsAgree, Provenance, ProposalsOk, HeadsOk, EntitiesValid, Loaded, OriginAgrees, DecisionAgrees;
    LoadedVersionsChecked(nfc, e);
    LoadedHeadsChecked(nfc, e);
    LoadedProposalsChecked(nfc, e);
    LoadedNoDuplicates(e);
    LoadedKeys(nfc, e);
    LoadedReferences(nfc, e);
    SearchTablesApart(Loaded(e), d, nfc);
    VersionAgrees(d, nfc);
    ProposalAgrees(d);
    if Complete(d) { HeadAgrees(d, nfc); }
  }

  /** Import, and whether the store may be used like one that calls have filled. */
  method ImportInto(store: Store, file: seq<Line>) returns (r: Result<nat, Code>)
    requires Inv(store.db, store.nfc)
    modifies store
    ensures r.Ok? <==> Accepted(store.nfc, file) && old(Untouched(store.db)) && Insertable(Read(BodyOf(file)))
    ensures r.Ok? ==> (Inv(store.db, store.nfc) <==> Unchecked(store.db))
    ensures r.Err? ==> store.db == old(store.db)
  {
    hide Inv, Unchecked, Accepted, Insertable, Projects, Loaded, Read, EntitiesValid;
    r := Import(store, file);
    if r.Ok? {
      ValidEntities(store.nfc, file);
      ImportedIsGoodExactlyWhen(store.nfc, Read(BodyOf(file)), store.db);
    }
  }

  /** Calls made on a store that was not empty to begin with. */
  ghost function Continued(db: Tables, nfc: Normalizer, calls: seq<Call>): Tables
  {
    if calls == [] then db else After(Continued(db, nfc, calls[..|calls| - 1]), nfc, calls[|calls| - 1])
  }

  /** From such a store on, every sequence of calls keeps the invariant. */
  lemma {:induction false} ContinuedKeepsInv(db: Tables, nfc: Normalizer, calls: seq<Call>)
    requires Inv(db, nfc)
    ensures Inv(Continued(db, nfc, calls), nfc)
  {
    hide Inv, After;
    if calls != [] {
      ContinuedKeepsInv(db, nfc, calls[..|calls| - 1]);
      CallKeepsInv(Continued(db, nfc, calls[..|calls| - 1]), nfc, calls[|calls| - 1]);
    }
  }

  /** The checks alone are not enough: one pending proposal of revision 2 is accepted. */
  lemma AcceptedIsNotEnough(nfc: Normalizer, p: Proposal)
    requires p.operation.Create? && p.payload.Some? && p.target.None? && p.status.Pending? && p.decidedAt.None? &&
             p.revision == 2
    ensures var e := Entities([], [], [("p", p)], [], []);
            EntitiesValid(nfc, e) && Insertable(e) && !Inv(Loaded(e), nfc)
  {
    var e := Entities([], [], [("p", p)], [], []);
    MapOfKeys(e.proposals);
    MapOfEntry(e.proposals, 0);
    assert "p" in Loaded(e).proposals && Loaded(e).proposals["p"] == p;
    assert !Lifecycle(Loaded(e), "p");
  }
}
