/** Importing the export of a store gives the store back, exactly when every targeted proposal
    names an existing version (crates/xuanling-memory/src/jsonl.rs). */
module MemoryRoundTrip {
  import opened Wrappers
  import opened TextOrder
  import opened MemoryTables
  import opened MemoryInvariant
  import opened MemoryRuns
  import opened MemoryStore
  import opened JsonlFormat
  import opened MemoryJsonl

  // ---- listing a table and loading it -------------------------------------------------

  lemma ListedEntries<K, V>(m: map<K, V>, keys: seq<K>)
    requires Distinct(keys) && forall k :: k in keys <==> k in m
    ensures var entries := Listed(m, keys);
            KeysOf(entries) == m.Keys && DistinctKeys(entries) &&
            (forall i | 0 <= i < |entries| :: entries[i].0 in m && entries[i].1 == m[entries[i].0])
    ensures forall k | k in m :: exists i :: 0 <= i < |keys| && Listed(m, keys)[i] == (k, m[k])
  {
    var entries := Listed(m, keys);
    forall i | 0 <= i < |entries| ensures entries[i].0 in m && entries[i].1 == m[entries[i].0] {
      assert keys[i] in keys;
    }
    forall k | k in m ensures k in KeysOf(entries) && exists i :: 0 <= i < |keys| && entries[i] == (k, m[k]) {
      var i :| 0 <= i < |keys| && keys[i] == k;
      assert entries[i].0 in KeysOf(entries);
      assert entries[i] == (k, m[k]);
    }
  }

  lemma LoadedListing<K, V>(m: map<K, V>, keys: seq<K>)
    requires Distinct(keys) && forall k :: k in keys <==> k in m
    ensures MapOf(Listed(m, keys)) == m
  {
    var entries := Listed(m, keys);
    ListedEntries(m, keys);
    MapKeys(entries);
    MapOfKeys(entries);
    forall k | k in m ensures MapOf(entries)[k] == m[k] {
      assert k in MapOf(entries);
      var i :| 0 <= i < |entries| && entries[i] == (k, MapOf(entries)[k]);
    }
  }

  lemma {:induction false} VersionsInMapOf(vs: seq<(VersionKey, Tagged)>)
    ensures VersionsIn(vs).Keys == MapOf(vs).Keys
    ensures forall key | key in VersionsIn(vs) :: VersionsIn(vs)[key] == MapOf(vs)[key].version
  {
    if vs != [] {
      VersionsInMapOf(vs[..|vs| - 1]);
    }
  }

  lemma LoadedVersions(db: Tables)
    ensures VersionsIn(EntitiesOf(db).versions) == db.versions
  {
    hide TagsOf, InOrder, KeysInOrder;
    var vs := EntitiesOf(db).versions;
    VersionsInMapOf(vs);
    LoadedListing(TaggedVersions(db), KeysInOrder(db.versions.Keys));
  }

  lemma LoadedTags(db: Tables)
    requires ReferencesOk(db)
    ensures TagsIn(EntitiesOf(db).versions) == db.tags
  {
    hide ReferencesOk, InOrder, KeysInOrder, TagsIn, TagsOf, Listed;
    var vs := EntitiesOf(db).versions;
    TagsInMembers(vs);
    TagsHaveVersions(db);
    ListedEntries(TaggedVersions(db), KeysInOrder(db.versions.Keys));
    forall row ensures row in TagsIn(vs) <==> row in db.tags {
      if row in TagsIn(vs) {
        var i :| 0 <= i < |vs| && TagOf(vs[i], row);
        ListedTag(db, vs[i], row);
      }
      if row in db.tags {
        var key: VersionKey := (row.0, row.1);
        assert key in TaggedVersions(db);
        var i :| 0 <= i < |vs| && vs[i] == (key, TaggedVersions(db)[key]);
        ListedTag(db, vs[i], row);
      }
    }
  }

  lemma ListedTag(db: Tables, v: (VersionKey, Tagged), row: (Id, nat, string))
    requires v.0 in db.versions && v.1 == TaggedVersions(db)[v.0] && v.0 == (row.0, row.1)
    ensures TagOf(v, row) <==> row in db.tags
  {
  }

  lemma LoadedIds<V>(m: map<Id, V>)
    ensures MapOf(Listed(m, InOrder(m.Keys))) == m
  {
    AscendingIsDistinct(InOrder(m.Keys));
    LoadedListing(m, InOrder(m.Keys));
  }

  /** Loading the listing of the canonical tables gives them back. */
  lemma LoadedIsOriginal(db: Tables)
    requires ReferencesOk(db)
    ensures Loaded(EntitiesOf(db)) == db.(unicode := [], trigram := [])
  {
    hide InOrder, KeysInOrder, TagsOf, ReferencesOk, Listed, MapOf, VersionsIn, TagsIn;
    LoadedVersions(db);
    LoadedTags(db);
    LoadedIds(db.heads);
    LoadedIds(db.proposals);
    LoadedIds(db.reviews);
    LoadedIds(db.feedback);
  }

  // ---- the export validates -----------------------------------------------------------

  /** The proposal's target, if it has one, exists. */
  ghost predicate TargetExists(db: Tables, p: Proposal)
  {
    p.target.Some? ==> p.targetRevision.Some? && (p.target.value, p.targetRevision.value) in db.versions
  }

  /** Every pending or rejected proposal with a target names an existing version. */
  ghost predicate OpenTargetsExist(db: Tables)
  {
    forall id | id in db.proposals && !db.proposals[id].status.Approved? :: TargetExists(db, db.proposals[id])
  }

  lemma ExportedKeys(db: Tables)
    ensures var e := EntitiesOf(db);
            KeysOf(e.versions) == db.versions.Keys && KeysOf(e.heads) == db.heads.Keys &&
            KeysOf(e.proposals) == db.proposals.Keys &&
            KeysOf(e.reviews) == db.reviews.Keys && KeysOf(e.events) == db.feedback.Keys
    ensures var e := EntitiesOf(db);
            DistinctKeys(e.versions) && DistinctKeys(e.heads) && DistinctKeys(e.proposals) && DistinctKeys(e.reviews) &&
            DistinctKeys(e.events)
  {
    hide InOrder, KeysInOrder, TagsOf, Listed, KeysOf, DistinctKeys, Ascending;
    ListedEntries(TaggedVersions(db), KeysInOrder(db.versions.Keys));
    ListedIds(db.heads);
    ListedIds(db.proposals);
    ListedIds(db.reviews);
    ListedIds(db.feedback);
  }

  lemma ListedIds<V>(m: map<Id, V>)
    ensures var entries := Listed(m, InOrder(m.Keys));
            KeysOf(entries) == m.Keys && DistinctKeys(entries) &&
            (forall i | 0 <= i < |entries| :: entries[i].0 in m && entries[i].1 == m[entries[i].0])
    ensures forall k | k in m ::
              exists i :: 0 <= i < |Listed(m, InOrder(m.Keys))| && Listed(m, InOrder(m.Keys))[i] == (k, m[k])
  {
    hide InOrder, Listed, KeysOf, DistinctKeys;
    AscendingIsDistinct(InOrder(m.Keys));
    ListedEntries(m, InOrder(m.Keys));
  }

  lemma ExportedVersionsValid(db: Tables, nfc: Normalizer)
    requires Complete(db) && Provenance(db, nfc)
    ensures VersionsValid(nfc, EntitiesOf(db).versions, db.proposals.Keys)
  {
    hide InOrder, KeysInOrder, TagsOf, Listed, KeysOf, DistinctKeys, DedupeKey;
    var vs := EntitiesOf(db).versions;
    ExportedKeys(db);
    ListedEntries(TaggedVersions(db), KeysInOrder(db.versions.Keys));
    forall i | 0 <= i < |vs| ensures VersionValid(nfc, vs[i], db.proposals.Keys) {
      var (id, k) := vs[i].0;
      assert (id, k) in db.versions && VersionOk(db, nfc, id, k);
    }
  }

  lemma ExportedHeadsValid(db: Tables)
    requires HeadsOk(db)
    ensures HeadsValid(EntitiesOf(db).heads, db.versions.Keys)
  {
    hide InOrder, KeysInOrder, TagsOf, Listed, KeysOf, DistinctKeys;
    ExportedKeys(db);
    ListedIds(db.heads);
  }

  lemma ExportedReviewsValid(db: Tables)
    requires ProposalsOk(db) && KeysOk(db)
    ensures ReviewsValid(EntitiesOf(db).reviews, db.proposals.Keys)
  {
    hide InOrder, KeysInOrder, TagsOf, Listed, KeysOf, Lifecycle, TookEffect;
    ExportedKeys(db);
    ListedIds(db.reviews);
  }

  lemma ExportedEventsValid(db: Tables)
    requires ReferencesOk(db) && KeysOk(db)
    ensures EventsValid(EntitiesOf(db).events, db.versions.Keys)
  {
    hide InOrder, KeysInOrder, TagsOf, Listed, KeysOf;
    ExportedKeys(db);
    ListedIds(db.feedback);
  }

  lemma ExportedProposalsValid(db: Tables)
    requires ProposalsOk(db) && KeysOk(db)
    ensures ProposalsValid(EntitiesOf(db).proposals, db.reviews.Keys, db.versions.Keys) <==> OpenTargetsExist(db)
  {
    hide InOrder, KeysInOrder, TagsOf, Listed, KeysOf, KeysOk, ProposalsOk, TargetExists, ProposalValid;
    var ps := EntitiesOf(db).proposals;
    ListedIds(db.proposals);
    ExportedProposalKeys(db);
    if OpenTargetsExist(db) {
      forall i | 0 <= i < |ps| ensures ProposalValid(ps[i], db.reviews.Keys, db.versions.Keys) {
        ExportedProposalValid(db, ps[i].0);
      }
    }
    if ProposalsValid(ps, db.reviews.Keys, db.versions.Keys) {
      forall id | id in db.proposals && !db.proposals[id].status.Approved? ensures TargetExists(db, db.proposals[id]) {
        var i :| 0 <= i < |ps| && ps[i] == (id, db.proposals[id]);
        ExportedProposalValid(db, id);
      }
    }
  }

  lemma ExportedProposalKeys(db: Tables)
    requires KeysOk(db)
    ensures var ps := EntitiesOf(db).proposals; forall i, j | 0 <= i < j < |ps| :: ps[i].1.key != ps[j].1.key
  {
    hide InOrder, KeysInOrder, TagsOf, Listed, KeysOf;
    ExportedKeys(db);
    ListedIds(db.proposals);
  }

  /** An exported proposal validates exactly when its target exists; an approved one always does. */
  lemma ExportedProposalValid(db: Tables, id: Id)
    requires ProposalsOk(db) && id in db.proposals
    ensures ProposalValid((id, db.proposals[id]), db.reviews.Keys, db.versions.Keys) <==>
              TargetExists(db, db.proposals[id])
    ensures db.proposals[id].status.Approved? ==> TargetExists(db, db.proposals[id])
  {
  }

  lemma ExportedInsertable(db: Tables)
    requires NoDuplicates(db)
    ensures Insertable(EntitiesOf(db))
  {
    hide InOrder, KeysInOrder, TagsOf, Listed, KeysOf, DistinctKeys, OccupiesKey, HeadsUnique;
    var e := EntitiesOf(db);
    ExportedKeys(db);
    ListedEntries(TaggedVersions(db), KeysInOrder(db.versions.Keys));
    forall i | 0 <= i < |e.versions| ensures Distinct(e.versions[i].1.tags) {
      var key := e.versions[i].0;
      assert e.versions[i].1 == TaggedVersions(db)[key];
      AscendingIsDistinct(InOrder(TagsOf(db, key.0, key.1)));
    }
    ExportedHeadsUnique(db);
  }

  lemma ExportedHeadsUnique(db: Tables)
    requires NoDuplicates(db)
    ensures HeadsUnique(EntitiesOf(db).heads)
  {
    hide InOrder, KeysInOrder, TagsOf, Listed, KeysOf;
    var hs := EntitiesOf(db).heads;
    ExportedKeys(db);
    ListedIds(db.heads);
    forall i, j | 0 <= i < j < |hs| && hs[j].1.status.Active?
      ensures !OccupiesKey(hs[i].1, hs[j].1.namespace, hs[j].1.scope, hs[j].1.dedupeKey)
    {
      assert hs[i].0 != hs[j].0;
    }
  }

  lemma ExportIsFramed(db: Tables, now: string)
    ensures Framed(ExportFile(db, now)) && Read(BodyOf(ExportFile(db, now))) == EntitiesOf(db)
  {
    hide EntitiesOf, EntityLines, Read, Known, Entities.Counted;
    var e, file := EntitiesOf(db), ExportFile(db, now);
    assert BodyOf(file) == EntityLines(e);
    assert file[..|file| - 1] == [Header(EXPORT_KIND, FORMAT_VERSION, SCHEMA_VERSION, now)] + EntityLines(e);
    ReadBack(e);
  }

  /** An export of a reachable store is accepted exactly when its pending and rejected proposals
      name existing versions. */
  lemma ExportIsAccepted(db: Tables, nfc: Normalizer, now: string)
    requires Inv(db, nfc)
    ensures Accepted(nfc, ExportFile(db, now)) <==> OpenTargetsExist(db)
  {
    hide EntitiesOf, ExportFile, Complete, Provenance, HeadsOk, NoDuplicates, ProposalsOk, KeysOk, ReferencesOk,
         Projects, VersionsValid, HeadsValid, ReviewsValid, ProposalsValid, EventsValid, KeysOf, OpenTargetsExist,
         Framed, Read, DistinctKeys;
    ExportIsFramed(db, now);
    ExportedKeys(db);
    ExportedVersionsValid(db, nfc);
    ExportedHeadsValid(db);
    ExportedReviewsValid(db);
    ExportedProposalsValid(db);
    ExportedEventsValid(db);
  }

  /** A new store restored from the export of another: accepted exactly when every pending or
      rejected proposal with a target names an existing version, and then all canonical tables are
      equal and both search tables hold the same rows. */
  method Restore(from: Store, to: Store, now: string) returns (r: Result<nat, Code>)
    requires from != to && Inv(from.db, from.nfc) && to.db == EMPTY && to.nfc == from.nfc
    modifies to
    ensures r.Ok? <==> OpenTargetsExist(from.db)
    ensures r.Ok? ==> to.db == from.db.(unicode := to.db.unicode, trigram := to.db.trigram) && Inv(to.db, to.nfc) &&
                      multiset(to.db.unicode) == multiset(from.db.unicode) &&
                      multiset(to.db.trigram) == multiset(from.db.trigram)
    ensures r.Err? ==> to.db == EMPTY && r.error == IntegrityError
  {
    hide Inv, Accepted, EntitiesOf, ExportFile, Projects, OpenTargetsExist, Insertable, Loaded, BodyOf, Read;
    var file, _ := Export(from.db, now);
    EmptyIsGood(to.nfc);
    r := Import(to, file);
    RestoredTables(from.db, to.nfc, now);
    if r.Ok? {
      RestoredProjection(from.db, to.db, to.nfc);
    }
  }

  lemma RestoredTables(db: Tables, nfc: Normalizer, now: string)
    requires Inv(db, nfc)
    ensures var file := ExportFile(db, now);
            |file| >= 2 && (Accepted(nfc, file) <==> OpenTargetsExist(db)) && Insertable(Read(BodyOf(file))) &&
            Loaded(Read(BodyOf(file))) == db.(unicode := [], trigram := [])
  {
    hide EntitiesOf, ExportFile, Complete, Provenance, HeadsOk, NoDuplicates, ProposalsOk, KeysOk, ReferencesOk,
         Projects, Insertable, Loaded, BodyOf, Read, Accepted, OpenTargetsExist;
    ExportIsFramed(db, now);
    ExportIsAccepted(db, nfc, now);
    ExportedInsertable(db);
    LoadedIsOriginal(db);
  }

  lemma RestoredProjection(db: Tables, d: Tables, nfc: Normalizer)
    requires Inv(db, nfc) && d == db.(unicode := d.unicode, trigram := d.trigram) && Projects(d, d.unicode) &&
             Projects(d, d.trigram)
    ensures Inv(d, nfc) && multiset(d.unicode) == multiset(db.unicode) && multiset(d.trigram) == multiset(db.trigram)
  {
    hide Complete, Provenance, HeadsOk, NoDuplicates, ProposalsOk, KeysOk, ReferencesOk, Projects;
    SameRowsProject(d, db, d.unicode);
    SameRowsProject(d, db, d.trigram);
    SearchTablesAreDerived(db, d, nfc);
    ProjectionIsUnique(db, db.unicode, d.unicode);
    ProjectionIsUnique(db, db.trigram, d.trigram);
  }

  /** The condition can fail: a single accepted call leaves a store whose export no store imports. */
  lemma DanglingTargetIsRefused(nfc: Normalizer, now: string)
    ensures var calls :=
              [Call.Candidate(CandidateRequest("p", "k", "agent", "n", Global, ArchiveRecord("none", 1)), now)];
            !Accepted(nfc, ExportFile(Run(nfc, calls), now))
  {
    hide Accepted, ExportFile;
    var req := CandidateRequest("p", "k", "agent", "n", Global, ArchiveRecord("none", 1));
    var calls := [Call.Candidate(req, now)];
    EveryRunKeepsInv(nfc, calls);
    assert calls[..0] == [];
    assert Run(nfc, calls) == After(EMPTY, nfc, calls[0]);
    var db := Run(nfc, calls);
    assert db.proposals == map["p" := req.Row(now)];
    assert !TargetExists(db, db.proposals["p"]);
    ExportIsAccepted(db, nfc, now);
  }
}
