/** Importing an export file into an empty store, and the round trip
    (crates/xuanling-memory/src/jsonl.rs). */
module MemoryJsonl {
  import opened Wrappers
  import opened MemoryTables
  import opened MemoryInvariant
  import opened MemoryStore
  import opened JsonlFormat

  // ---- what import checks -------------------------------------------------------------

  predicate DistinctKeys<K(==), V>(entries: seq<(K, V)>)
  {
    forall i, j | 0 <= i < j < |entries| :: entries[i].0 != entries[j].0
  }

  function KeysOf<K, V>(entries: seq<(K, V)>): set<K>
  {
    set i | 0 <= i < |entries| :: entries[i].0
  }

  predicate VersionValid(nfc: Normalizer, v: (VersionKey, Tagged), proposals: set<Id>)
  {
    var version := v.1.version;
    v.0.1 != 0 && version.proposalId in proposals &&
    DedupeKey(nfc, version.body.content, version.namespace) == version.dedupeKey &&
    Sha256(version.body.content) == version.contentSha
  }

  predicate VersionsValid(nfc: Normalizer, vs: seq<(VersionKey, Tagged)>, proposals: set<Id>)
  {
    DistinctKeys(vs) && forall i | 0 <= i < |vs| :: VersionValid(nfc, vs[i], proposals)
  }

  predicate HeadsValid(hs: seq<(Id, Head)>, versions: set<VersionKey>)
  {
    DistinctKeys(hs) && forall i | 0 <= i < |hs| :: (hs[i].0, hs[i].1.current) in versions
  }

  predicate ReviewsValid(rs: seq<(Id, Review)>, proposals: set<Id>)
  {
    DistinctKeys(rs) && (forall i | 0 <= i < |rs| :: rs[i].0 in proposals) &&
    forall i, j | 0 <= i < j < |rs| :: rs[i].1.key != rs[j].1.key
  }

  predicate ProposalValid(p: (Id, Proposal), reviewed: set<Id>, versions: set<VersionKey>)
  {
    (p.1.revision == 1 || p.1.revision == 2) &&
    (!p.1.status.Pending? ==> p.0 in reviewed) &&
    (p.1.status.Pending? ==> p.0 !in reviewed && p.1.decidedAt.None?) &&
    (p.1.operation.Create? ==> p.1.payload.Some?) &&
    (p.1.target.Some? ==>
       (p.1.target.value, if p.1.targetRevision.Some? then p.1.targetRevision.value else 0) in versions)
  }

  predicate ProposalsValid(ps: seq<(Id, Proposal)>, reviewed: set<Id>, versions: set<VersionKey>)
  {
    (forall i, j | 0 <= i < j < |ps| :: ps[i].1.key != ps[j].1.key) &&
    forall i | 0 <= i < |ps| :: ProposalValid(ps[i], reviewed, versions)
  }

  predicate EventsValid(es: seq<(Id, Feedback)>, versions: set<VersionKey>)
  {
    (forall i, j | 0 <= i < j < |es| :: es[i].1.key != es[j].1.key) &&
    forall i | 0 <= i < |es| :: (es[i].1.recordId, es[i].1.revision) in versions
  }

  predicate EntitiesValid(nfc: Normalizer, e: Entities)
  {
    var proposals, versions := KeysOf(e.proposals), KeysOf(e.versions);
    VersionsValid(nfc, e.versions, proposals) && HeadsValid(e.heads, versions) && ReviewsValid(e.reviews, proposals) &&
    ProposalsValid(e.proposals, KeysOf(e.reviews), versions) && EventsValid(e.events, versions)
  }

  /** The entity lines, between header and trailer. */
  function BodyOf(file: seq<Line>): seq<Line>
    requires |file| >= 2
  {
    file[1..|file| - 1]
  }

  predicate Framed(file: seq<Line>)
  {
    |file| >= 2 && file[0].Header? && file[0].kind == EXPORT_KIND && file[0].formatVersion == FORMAT_VERSION &&
    file[0].schemaVersion == SCHEMA_VERSION &&
    var last := file[|file| - 1];
    last.Trailer? && last.kind == TRAILER_KIND && last.sha == FileSha(file[..|file| - 1]) &&
    (forall i | 0 <= i < |BodyOf(file)| :: Known(BodyOf(file)[i])) && last.counts == Read(BodyOf(file)).Counted()
  }

  predicate Accepted(nfc: Normalizer, file: seq<Line>)
  {
    Framed(file) && EntitiesValid(nfc, Read(BodyOf(file)))
  }

  /** What the unique indexes of the database ask for on top. */
  predicate Insertable(e: Entities)
  {
    (forall i | 0 <= i < |e.versions| :: Distinct(e.versions[i].1.tags)) &&
    HeadsUnique(e.heads) && DistinctKeys(e.proposals) && DistinctKeys(e.events)
  }

  predicate HeadsUnique(hs: seq<(Id, Head)>)
  {
    forall i, j | 0 <= i < j < |hs| && hs[j].1.status.Active? ::
      !OccupiesKey(hs[i].1, hs[j].1.namespace, hs[j].1.scope, hs[j].1.dedupeKey)
  }

  // ---- what import stores -------------------------------------------------------------

  function MapOf<K, V>(entries: seq<(K, V)>): map<K, V>
  {
    if entries == [] then map[]
    else MapOf(entries[..|entries| - 1])[entries[|entries| - 1].0 := entries[|entries| - 1].1]
  }

  function VersionsIn(vs: seq<(VersionKey, Tagged)>): map<VersionKey, Version>
  {
    if vs == [] then map[] else VersionsIn(vs[..|vs| - 1])[vs[|vs| - 1].0 := vs[|vs| - 1].1.version]
  }

  function TagsIn(vs: seq<(VersionKey, Tagged)>): set<(Id, nat, string)>
  {
    if vs == [] then {}
    else var v := vs[|vs| - 1]; TagsIn(vs[..|vs| - 1]) + TagRows(v.0.0, v.0.1, v.1.tags)
  }

  function Loaded(e: Entities): Tables
  {
    Tables(MapOf(e.proposals), VersionsIn(e.versions), MapOf(e.heads), TagsIn(e.versions), MapOf(e.reviews),
           MapOf(e.events), [], [])
  }

  lemma {:induction false} MapOfKeys<K, V>(entries: seq<(K, V)>)
    ensures forall k :: k in MapOf(entries) <==> exists i :: 0 <= i < |entries| && entries[i].0 == k
    ensures forall k | k in MapOf(entries) :: exists i :: 0 <= i < |entries| && entries[i] == (k, MapOf(entries)[k])
  {
    if entries != [] {
      var init, last := entries[..|entries| - 1], entries[|entries| - 1];
      MapOfKeys(init);
      forall k ensures k in MapOf(entries) <==> exists i :: 0 <= i < |entries| && entries[i].0 == k {
        if i :| 0 <= i < |entries| && entries[i].0 == k {
          assert i < |init| ==> init[i].0 == k;
        }
        if k in MapOf(entries) && k != last.0 {
          assert k in MapOf(init);
          var i :| 0 <= i < |init| && init[i].0 == k;
          assert entries[i].0 == k;
        }
      }
      forall k | k in MapOf(entries) ensures exists i :: 0 <= i < |entries| && entries[i] == (k, MapOf(entries)[k]) {
        if k == last.0 {
          assert entries[|entries| - 1] == (k, MapOf(entries)[k]);
        } else {
          var i :| 0 <= i < |init| && init[i] == (k, MapOf(init)[k]);
          assert entries[i] == (k, MapOf(entries)[k]);
        }
      }
    }
  }

  lemma {:induction false} VersionsInKeys(vs: seq<(VersionKey, Tagged)>)
    ensures VersionsIn(vs).Keys == KeysOf(vs)
  {
    if vs != [] {
      var init, last := vs[..|vs| - 1], vs[|vs| - 1];
      VersionsInKeys(init);
      assert forall i | 0 <= i < |init| :: init[i] == vs[i];
      forall k ensures k in VersionsIn(vs) <==> k in KeysOf(vs) {
        if k in KeysOf(vs) {
          var i :| 0 <= i < |vs| && vs[i].0 == k;
          assert i < |init| ==> init[i].0 in KeysOf(init);
        }
        if k in KeysOf(init) {
          var i :| 0 <= i < |init| && init[i].0 == k;
          assert vs[i].0 in KeysOf(vs);
        }
        assert last.0 in KeysOf(vs);
      }
    }
  }

  lemma {:induction false} TagsInMembers(vs: seq<(VersionKey, Tagged)>)
    ensures forall row :: row in TagsIn(vs) <==> exists i :: 0 <= i < |vs| && TagOf(vs[i], row)
  {
    if vs != [] {
      var init, last := vs[..|vs| - 1], vs[|vs| - 1];
      TagsInMembers(init);
      forall row ensures row in TagsIn(vs) <==> exists i :: 0 <= i < |vs| && TagOf(vs[i], row) {
        if i :| 0 <= i < |vs| && TagOf(vs[i], row) {
          assert i < |init| ==> TagOf(init[i], row);
        }
        if row in TagsIn(init) {
          var i :| 0 <= i < |init| && TagOf(init[i], row);
          assert TagOf(vs[i], row);
        }
        TagRowsMembers(last, row);
        assert TagOf(last, row) ==> TagOf(vs[|vs| - 1], row);
      }
    }
  }

  ghost predicate TagOf(v: (VersionKey, Tagged), row: (Id, nat, string))
  {
    row.0 == v.0.0 && row.1 == v.0.1 && row.2 in v.1.tags
  }

  lemma TagRowsMembers(v: (VersionKey, Tagged), row: (Id, nat, string))
    ensures row in TagRows(v.0.0, v.0.1, v.1.tags) <==> TagOf(v, row)
  {
  }

  // ---- import, step by step -----------------------------------------------------------

  method CheckVersions(nfc: Normalizer, vs: seq<(VersionKey, Tagged)>, proposals: set<Id>)
    returns (ok: bool, keys: set<VersionKey>)
    ensures ok <==> VersionsValid(nfc, vs, proposals)
    ensures ok ==> keys == KeysOf(vs)
  {
    hide DedupeKey;
    keys := {};
    for n := 0 to |vs|
      invariant keys == KeysOf(vs[..n]) && VersionsValid(nfc, vs[..n], proposals)
    {
      var v := vs[n];
      OneMoreKey(vs, n);
      if v.0.1 == 0 || v.1.version.proposalId !in proposals {
        return false, keys;
      }
      if v.0 in keys {
        return false, keys;
      }
      keys := keys + {v.0};
      if DedupeKey(nfc, v.1.version.body.content, v.1.version.namespace) != v.1.version.dedupeKey {
        return false, keys;
      }
      if Sha256(v.1.version.body.content) != v.1.version.contentSha {
        return false, keys;
      }
    }
    assert vs[..|vs|] == vs;
    ok := true;
  }

  lemma OneMoreKey<K, V>(entries: seq<(K, V)>, n: nat)
    requires n < |entries|
    ensures KeysOf(entries[..n + 1]) == KeysOf(entries[..n]) + {entries[n].0}
    ensures entries[..n + 1] == entries[..n] + [entries[n]]
    ensures DistinctKeys(entries[..n + 1]) <==> DistinctKeys(entries[..n]) && entries[n].0 !in KeysOf(entries[..n])
    ensures DistinctKeys(entries) ==> DistinctKeys(entries[..n + 1])
  {
  }

  method CheckHeads(hs: seq<(Id, Head)>, versions: set<VersionKey>) returns (ok: bool)
    ensures ok <==> HeadsValid(hs, versions)
  {
    var seen: set<Id> := {};
    for n := 0 to |hs|
      invariant seen == KeysOf(hs[..n]) && HeadsValid(hs[..n], versions)
    {
      OneMoreKey(hs, n);
      if hs[n].0 in seen {
        return false;
      }
      seen := seen + {hs[n].0};
      if (hs[n].0, hs[n].1.current) !in versions {
        return false;
      }
    }
    assert hs[..|hs|] == hs;
    ok := true;
  }

  method CheckReviews(rs: seq<(Id, Review)>, proposals: set<Id>) returns (ok: bool, reviewed: set<Id>)
    ensures ok <==> ReviewsValid(rs, proposals)
    ensures ok ==> reviewed == KeysOf(rs)
  {
    reviewed := {};
    var keys: set<string> := {};
    for n := 0 to |rs|
      invariant reviewed == KeysOf(rs[..n]) && ReviewsValid(rs[..n], proposals)
      invariant keys == set i | 0 <= i < n :: rs[i].1.key
    {
      OneMoreKey(rs, n);
      if rs[n].0 !in proposals {
        return false, reviewed;
      }
      if rs[n].0 in reviewed {
        return false, reviewed;
      }
      reviewed := reviewed + {rs[n].0};
      if rs[n].1.key in keys {
        return false, reviewed;
      }
      keys := keys + {rs[n].1.key};
    }
    assert rs[..|rs|] == rs;
    ok := true;
  }

  method CheckProposals(ps: seq<(Id, Proposal)>, reviewed: set<Id>, versions: set<VersionKey>) returns (ok: bool)
    ensures ok <==> ProposalsValid(ps, reviewed, versions)
  {
    var keys: set<string> := {};
    for n := 0 to |ps|
      invariant ProposalsValid(ps[..n], reviewed, versions)
      invariant keys == set i | 0 <= i < n :: ps[i].1.key
    {
      var p := ps[n].1;
      if p.key in keys {
        return false;
      }
      keys := keys + {p.key};
      if p.revision != 1 && p.revision != 2 {
        return false;
      }
      var terminal := p.status.Approved? || p.status.Rejected?;
      if terminal && ps[n].0 !in reviewed {
        return false;
      }
      if !terminal && (ps[n].0 in reviewed || p.decidedAt.Some?) {
        return false;
      }
      if p.operation.Create? && p.payload.None? {
        return false;
      }
      if p.target.Some? {
        var targetRevision := if p.targetRevision.Some? then p.targetRevision.value else 0;
        if (p.target.value, targetRevision) !in versions {
          return false;
        }
      }
    }
    assert ps[..|ps|] == ps;
    ok := true;
  }

  method CheckEvents(es: seq<(Id, Feedback)>, versions: set<VersionKey>) returns (ok: bool)
    ensures ok <==> EventsValid(es, versions)
  {
    var keys: set<string> := {};
    for n := 0 to |es|
      invariant EventsValid(es[..n], versions)
      invariant keys == set i | 0 <= i < n :: es[i].1.key
    {
      if es[n].1.key in keys {
        return false;
      }
      keys := keys + {es[n].1.key};
      if (es[n].1.recordId, es[n].1.revision) !in versions {
        return false;
      }
    }
    assert es[..|es|] == es;
    ok := true;
  }

  /** All validation, before the store is touched. */
  method Validate(nfc: Normalizer, file: seq<Line>) returns (r: Result<Entities, Code>)
    ensures r.Ok? <==> Accepted(nfc, file)
    ensures r.Ok? ==> r.value == Read(BodyOf(file))
    ensures r.Err? ==> r.error == IntegrityError
  {
    hide VersionsValid, HeadsValid, ReviewsValid, ProposalsValid, EventsValid, KeysOf;
    if |file| < 2 {
      return Err(IntegrityError);
    }
    var header, trailer := file[0], file[|file| - 1];
    if !header.Header? || header.kind != EXPORT_KIND || header.formatVersion != FORMAT_VERSION
       || header.schemaVersion != SCHEMA_VERSION {
      return Err(IntegrityError);
    }
    if !trailer.Trailer? || trailer.kind != TRAILER_KIND {
      return Err(IntegrityError);
    }
    if FileSha(file[..|file| - 1]) != trailer.sha {
      return Err(IntegrityError);
    }
    var body := file[1..|file| - 1];
    var e := NOTHING;
    for n := 0 to |body|
      invariant e == Read(body[..n]) && forall i | 0 <= i < n :: Known(body[i])
    {
      if !Known(body[n]) {
        return Err(IntegrityError);
      }
      assert body[..n + 1] == body[..n] + [body[n]];
      ReadOne(body[..n], body[n]);
      e := Push(e, body[n]);
    }
    assert body[..|body|] == body;
    if e.Counted() != trailer.counts {
      return Err(IntegrityError);
    }
    var proposals := KeysOf(e.proposals);
    var ok, versions := CheckVersions(nfc, e.versions, proposals);
    if !ok {
      return Err(IntegrityError);
    }
    ok := CheckHeads(e.heads, versions);
    if !ok {
      return Err(IntegrityError);
    }
    var reviewed;
    ok, reviewed := CheckReviews(e.reviews, proposals);
    if !ok {
      return Err(IntegrityError);
    }
    ok := CheckProposals(e.proposals, reviewed, versions);
    if !ok {
      return Err(IntegrityError);
    }
    ok := CheckEvents(e.events, versions);
    if !ok {
      return Err(IntegrityError);
    }
    r := Ok(e);
  }

  method InsertVersions(tx: Transaction, vs: seq<(VersionKey, Tagged)>) returns (r: Result<(), Code>)
    requires tx.t.versions == map[] && tx.t.tags == {} && DistinctKeys(vs)
    modifies tx
    ensures (forall i | 0 <= i < |vs| :: Distinct(vs[i].1.tags)) ==>
              r.Ok? && tx.t == old(tx.t).(versions := VersionsIn(vs), tags := TagsIn(vs))
    ensures !(forall i | 0 <= i < |vs| :: Distinct(vs[i].1.tags)) ==> r == Err(Conflict)
  {
    hide Distinct, TagRows;
    for n := 0 to |vs|
      invariant tx.t == old(tx.t).(versions := VersionsIn(vs[..n]), tags := TagsIn(vs[..n]))
      invariant forall i | 0 <= i < n :: Distinct(vs[i].1.tags)
    {
      var v := vs[n];
      assert vs[..n + 1][..n] == vs[..n];
      tx.t := tx.t.(versions := tx.t.versions[v.0 := v.1.version]);
      TagsInMembers(vs[..n]);
      assert v.0 == (v.0.0, v.0.1);
      var inserted := tx.InsertTags(v.0.0, v.0.1, v.1.tags);
      if inserted.Err? {
        return inserted;
      }
    }
    assert vs[..|vs|] == vs;
    r := Ok(());
  }

  method InsertHeads(tx: Transaction, hs: seq<(Id, Head)>) returns (r: Result<(), Code>)
    requires tx.t.heads == map[] && DistinctKeys(hs)
    modifies tx
    ensures HeadsUnique(hs) ==> r.Ok? && tx.t == old(tx.t).(heads := MapOf(hs))
    ensures !HeadsUnique(hs) ==> r == Err(Conflict)
  {
    hide DistinctKeys, MapOf, HeadsUnique;
    NoHeads();
    for n := 0 to |hs|
      invariant tx.t == old(tx.t).(heads := MapOf(hs[..n])) && HeadsUnique(hs[..n])
    {
      OneMoreHead(hs, n);
      var (id, h) := hs[n];
      if other :| other in tx.t.heads && Clash(tx.t.heads[other], h) {
        return Err(Conflict);
      }
      tx.t := tx.t.(heads := tx.t.heads[id := h]);
    }
    assert hs[..|hs|] == hs;
    r := Ok(());
  }

  predicate Clash(a: Head, b: Head)
  {
    b.status.Active? && OccupiesKey(a, b.namespace, b.scope, b.dedupeKey)
  }

  lemma NoHeads()
    ensures MapOf<Id, Head>([]) == map[] && HeadsUnique([])
  {
  }

  lemma OneMoreHead(hs: seq<(Id, Head)>, n: nat)
    requires DistinctKeys(hs) && n < |hs| && HeadsUnique(hs[..n])
    ensures MapOf(hs[..n + 1]) == MapOf(hs[..n])[hs[n].0 := hs[n].1]
    ensures HeadsUnique(hs[..n + 1]) <==>
              forall other | other in MapOf(hs[..n]) :: !Clash(MapOf(hs[..n])[other], hs[n].1)
    ensures HeadsUnique(hs) ==> HeadsUnique(hs[..n + 1])
  {
    hide OccupiesKey;
    var less, more := hs[..n], hs[..n + 1];
    assert more[..n] == less && more[n] == hs[n];
    MapOfKeys(less);
    if other :| other in MapOf(less) && Clash(MapOf(less)[other], hs[n].1) {
      var i :| 0 <= i < n && less[i] == (other, MapOf(less)[other]);
      assert more[i] == less[i];
    } else {
      forall i | 0 <= i < n ensures !Clash(less[i].1, hs[n].1) {
        MapOfEntry(less, i);
      }
      forall i, j | 0 <= i < j < |more| && more[j].1.status.Active?
        ensures !OccupiesKey(more[i].1, more[j].1.namespace, more[j].1.scope, more[j].1.dedupeKey)
      {
        assert less[i] == more[i];
        if j < n { assert less[j] == more[j]; }
      }
    }
  }

  lemma {:induction false} MapOfEntry<K, V>(entries: seq<(K, V)>, i: nat)
    requires DistinctKeys(entries) && i < |entries|
    ensures entries[i].0 in MapOf(entries) && MapOf(entries)[entries[i].0] == entries[i].1
  {
    if i < |entries| - 1 {
      MapOfEntry(entries[..|entries| - 1], i);
    }
  }

  method InsertProposals(tx: Transaction, ps: seq<(Id, Proposal)>) returns (r: Result<(), Code>)
    requires tx.t.proposals == map[]
    modifies tx
    ensures DistinctKeys(ps) ==> r.Ok? && tx.t == old(tx.t).(proposals := MapOf(ps))
    ensures !DistinctKeys(ps) ==> r == Err(Conflict)
  {
    for n := 0 to |ps|
      invariant tx.t == old(tx.t).(proposals := MapOf(ps[..n])) && DistinctKeys(ps[..n])
    {
      assert ps[..n + 1][..n] == ps[..n];
      OneMoreKey(ps, n);
      MapKeys(ps[..n]);
      if ps[n].0 in tx.t.proposals {
        return Err(Conflict);
      }
      tx.t := tx.t.(proposals := tx.t.proposals[ps[n].0 := ps[n].1]);
    }
    assert ps[..|ps|] == ps;
    r := Ok(());
  }

  lemma MapKeys<K, V>(entries: seq<(K, V)>)
    ensures MapOf(entries).Keys == KeysOf(entries)
  {
  }

  method InsertReviews(tx: Transaction, rs: seq<(Id, Review)>)
    requires tx.t.reviews == map[] && DistinctKeys(rs)
    modifies tx
    ensures tx.t == old(tx.t).(reviews := MapOf(rs))
  {
    for n := 0 to |rs|
      invariant tx.t == old(tx.t).(reviews := MapOf(rs[..n]))
    {
      assert rs[..n + 1][..n] == rs[..n];
      tx.t := tx.t.(reviews := tx.t.reviews[rs[n].0 := rs[n].1]);
    }
    assert rs[..|rs|] == rs;
  }

  method InsertEvents(tx: Transaction, es: seq<(Id, Feedback)>) returns (r: Result<(), Code>)
    requires tx.t.feedback == map[]
    modifies tx
    ensures DistinctKeys(es) ==> r.Ok? && tx.t == old(tx.t).(feedback := MapOf(es))
    ensures !DistinctKeys(es) ==> r == Err(Conflict)
  {
    for n := 0 to |es|
      invariant tx.t == old(tx.t).(feedback := MapOf(es[..n])) && DistinctKeys(es[..n])
    {
      assert es[..n + 1][..n] == es[..n];
      OneMoreKey(es, n);
      MapKeys(es[..n]);
      if es[n].0 in tx.t.feedback {
        return Err(Conflict);
      }
      tx.t := tx.t.(feedback := tx.t.feedback[es[n].0 := es[n].1]);
    }
    assert es[..|es|] == es;
    r := Ok(());
  }

  /** The three counted tables being empty makes every table empty. */
  lemma EmptyCheckIsEnough(db: Tables, nfc: Normalizer)
    requires Inv(db, nfc) && db.versions == map[] && db.proposals == map[] && db.feedback == map[]
    ensures db == EMPTY
  {
    hide Provenance, NoDuplicates, KeysOk, Lifecycle, TookEffect;
    assert forall id | id in db.heads :: (id, db.heads[id].current) in db.versions;
    assert db.heads.Keys == {};
    assert db.heads == map[];
    assert db.reviews.Keys == {};
    assert db.reviews == map[];
    TagsHaveVersions(db);
    assert db.tags == {};
    assert |db.unicode| > 0 ==> RowOk(db, db.unicode[0]);
    assert |db.trigram| > 0 ==> RowOk(db, db.trigram[0]);
  }

  lemma TagsHaveVersions(db: Tables)
    requires ReferencesOk(db)
    ensures forall row | row in db.tags :: (row.0, row.1) in db.versions
  {
  }

  predicate Untouched(db: Tables)
  {
    db.versions == map[] && db.proposals == map[] && db.feedback == map[]
  }

  lemma LoadedHeadsHaveVersions(nfc: Normalizer, e: Entities)
    requires EntitiesValid(nfc, e)
    ensures ActiveHaveVersions(Loaded(e))
  {
    hide VersionsValid, ReviewsValid, ProposalsValid, EventsValid, TagsIn;
    var db := Loaded(e);
    VersionsInKeys(e.versions);
    MapOfKeys(e.heads);
    forall id | IsActive(db, id) ensures (id, db.heads[id].current) in db.versions {
      var i :| 0 <= i < |e.heads| && e.heads[i] == (id, db.heads[id]);
    }
  }

  /** import: refuse what does not validate, refuse a store in use, otherwise insert every row and
      rebuild the search tables. A failed import changes nothing. */
  method Import(store: Store, file: seq<Line>) returns (r: Result<nat, Code>)
    requires Inv(store.db, store.nfc)
    modifies store
    ensures r.Ok? <==> Accepted(store.nfc, file) && old(Untouched(store.db)) && Insertable(Read(BodyOf(file)))
    ensures r.Ok? ==>
              store.db == Loaded(Read(BodyOf(file))).(unicode := store.db.unicode, trigram := store.db.trigram) &&
              Projects(store.db, store.db.unicode) && Projects(store.db, store.db.trigram) && r.value == |file| - 2
    ensures r.Err? ==>
              store.db == old(store.db) && r.error == if Accepted(store.nfc, file) then Conflict else IntegrityError
  {
    hide Inv, Accepted, Framed, VersionsValid, HeadsValid, ReviewsValid, ProposalsValid, EventsValid, Projects, Read,
         VersionsIn, MapOf, TagsIn, HeadsUnique, Distinct, DistinctKeys;
    var validated := Validate(store.nfc, file);
    if validated.Err? {
      return Err(validated.error);
    }
    var e := validated.value;
    ValidEntities(store.nfc, file);
    if store.db.versions != map[] || store.db.proposals != map[] || store.db.feedback != map[] {
      return Err(Conflict);
    }
    EmptyCheckIsEnough(store.db, store.nfc);
    var tx := new Transaction(store.db, store.nfc);
    var step := InsertVersions(tx, e.versions);
    if step.Err? {
      return Err(step.error);
    }
    step := InsertHeads(tx, e.heads);
    if step.Err? {
      return Err(step.error);
    }
    step := InsertProposals(tx, e.proposals);
    if step.Err? {
      return Err(step.error);
    }
    InsertReviews(tx, e.reviews);
    step := InsertEvents(tx, e.events);
    if step.Err? {
      return Err(step.error);
    }
    assert tx.t == Loaded(e);
    LoadedHeadsHaveVersions(store.nfc, e);
    tx.RebuildFts();
    SameRowsProject(Loaded(e), tx.t, tx.t.unicode);
    store.db := tx.t;
    var counts := e.Counted();
    CountsAddUp(BodyOf(file));
    r := Ok(counts.versions + counts.heads + counts.proposals + counts.reviews + counts.events);
  }

  lemma ValidEntities(nfc: Normalizer, file: seq<Line>)
    requires Accepted(nfc, file)
    ensures |file| >= 2
    ensures var e := Read(BodyOf(file));
            EntitiesValid(nfc, e) && DistinctKeys(e.versions) && DistinctKeys(e.heads) && DistinctKeys(e.reviews)
    ensures forall i | 0 <= i < |BodyOf(file)| :: Known(BodyOf(file)[i])
  {
  }

  lemma {:induction false} CountsAddUp(lines: seq<Line>)
    requires forall i | 0 <= i < |lines| :: Known(lines[i])
    ensures var c := Read(lines).Counted(); c.versions + c.heads + c.proposals + c.reviews + c.events == |lines|
  {
    if lines != [] {
      CountsAddUp(lines[..|lines| - 1]);
    }
  }
}
