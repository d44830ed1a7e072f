/** The lines of a memory export file, and the export that writes them
    (crates/xuanling-memory/src/jsonl.rs). JSON is taken as read: a line is the value it encodes. */
module JsonlFormat {
  import opened Wrappers
  import opened TextOrder
  import opened MemoryTables

  const FORMAT_VERSION := 1
  const SCHEMA_VERSION := 2
  const EXPORT_KIND := "xuanling_memory_export"
  const TRAILER_KIND := "trailer"

  datatype Counts = Counts(versions: nat, heads: nat, proposals: nat, reviews: nat, events: nat)

  datatype Tagged = Tagged(version: Version, tags: seq<string>)

  /** The collision-free hash of the lines before the trailer. */
  datatype FileSha = FileSha(lines: seq<Line>)

  datatype Line =
    | Header(kind: string, formatVersion: nat, schemaVersion: nat, exportedAt: string)
    | VersionLine(version: (VersionKey, Tagged))
    | HeadLine(head: (Id, Head))
    | ProposalLine(proposal: (Id, Proposal))
    | ReviewLine(review: (Id, Review))
    | FeedbackLine(event: (Id, Feedback))
    | Trailer(kind: string, counts: Counts, sha: FileSha)
    | Unreadable

  datatype Entities = Entities(versions: seq<(VersionKey, Tagged)>, heads: seq<(Id, Head)>,
                               proposals: seq<(Id, Proposal)>, reviews: seq<(Id, Review)>,
                               events: seq<(Id, Feedback)>)
  {
    function Counted(): Counts
    {
      Counts(|versions|, |heads|, |proposals|, |reviews|, |events|)
    }
  }

  predicate Known(line: Line)
  {
    line.VersionLine? || line.HeadLine? || line.ProposalLine? || line.ReviewLine? || line.FeedbackLine?
  }

  function Push(e: Entities, line: Line): Entities
  {
    match line
    case VersionLine(v) => e.(versions := e.versions + [v])
    case HeadLine(h) => e.(heads := e.heads + [h])
    case ProposalLine(p) => e.(proposals := e.proposals + [p])
    case ReviewLine(r) => e.(reviews := e.reviews + [r])
    case FeedbackLine(f) => e.(events := e.events + [f])
    case _ => e
  }

  const NOTHING: Entities := Entities([], [], [], [], [])

  /** The entity lines sorted out by kind. */
  function Read(lines: seq<Line>): Entities
  {
    if lines == [] then NOTHING else Push(Read(lines[..|lines| - 1]), lines[|lines| - 1])
  }

  // ---- keys in order ------------------------------------------------------------------

  predicate KeyLess(a: VersionKey, b: VersionKey)
  {
    Less(a.0, b.0) || (a.0 == b.0 && a.1 < b.1)
  }

  predicate IsLeastKey(x: VersionKey, s: set<VersionKey>)
  {
    x in s && forall y | y in s && y != x :: KeyLess(x, y)
  }

  lemma KeyOrder(a: VersionKey, b: VersionKey, c: VersionKey)
    ensures KeyLess(a, b) || a == b || KeyLess(b, a)
    ensures KeyLess(a, b) ==> !KeyLess(b, a) && a != b
    ensures KeyLess(a, b) && KeyLess(b, c) ==> KeyLess(a, c)
  {
    LessIsTotal(a.0, b.0);
    if Less(a.0, b.0) { LessIsAsymmetric(a.0, b.0); }
    if Less(a.0, b.0) && Less(b.0, c.0) { LessIsTransitive(a.0, b.0, c.0); }
    if Less(b.0, a.0) { LessIsAsymmetric(b.0, a.0); }
  }

  lemma {:induction false} LeastKeyExists(s: set<VersionKey>)
    requires s != {}
    ensures exists x :: IsLeastKey(x, s)
    decreases |s|
  {
    var a :| a in s;
    if s - {a} == {} {
      assert s == {a};
      assert IsLeastKey(a, s);
    } else {
      LeastKeyExists(s - {a});
      var b :| IsLeastKey(b, s - {a});
      KeyOrder(a, b, b);
      if KeyLess(a, b) {
        forall y | y in s && y != a ensures KeyLess(a, y) { if y != b { KeyOrder(a, b, y); } }
        assert IsLeastKey(a, s);
      } else {
        assert IsLeastKey(b, s);
      }
    }
  }

  lemma LeastKeyIsUnique(s: set<VersionKey>)
    ensures forall x, z | IsLeastKey(x, s) && IsLeastKey(z, s) :: x == z
  {
    forall x, z | IsLeastKey(x, s) && IsLeastKey(z, s) ensures x == z {
      if x != z { KeyOrder(x, z, x); }
    }
  }

  /** Version keys by record id, then revision. */
  function KeysInOrder(s: set<VersionKey>): (t: seq<VersionKey>)
    ensures Distinct(t) && forall y :: y in t <==> y in s
    ensures forall i, j | 0 <= i < j < |t| :: KeyLess(t[i], t[j])
  {
    if s == {} then []
    else
      LeastKeyExists(s);
      LeastKeyIsUnique(s);
      var x :| IsLeastKey(x, s);
      var rest := KeysInOrder(s - {x});
      assert forall j | 0 <= j < |rest| :: rest[j] in rest;
      [x] + rest
  }

  // ---- export -------------------------------------------------------------------------

  function Listed<K, V>(m: map<K, V>, keys: seq<K>): (entries: seq<(K, V)>)
    requires forall k | k in keys :: k in m
    ensures |entries| == |keys|
  {
    seq(|keys|, i requires 0 <= i < |keys| => (keys[i], m[keys[i]]))
  }

  function TaggedVersions(db: Tables): map<VersionKey, Tagged>
  {
    map key | key in db.versions :: Tagged(db.versions[key], InOrder(TagsOf(db, key.0, key.1)))
  }

  /** All rows of the canonical tables in key order. */
  function EntitiesOf(db: Tables): Entities
  {
    Entities(Listed(TaggedVersions(db), KeysInOrder(db.versions.Keys)),
             Listed(db.heads, InOrder(db.heads.Keys)),
             Listed(db.proposals, InOrder(db.proposals.Keys)),
             Listed(db.reviews, InOrder(db.reviews.Keys)),
             Listed(db.feedback, InOrder(db.feedback.Keys)))
  }

  function VersionLines(vs: seq<(VersionKey, Tagged)>): seq<Line>
  {
    seq(|vs|, i requires 0 <= i < |vs| => VersionLine(vs[i]))
  }

  function HeadLines(hs: seq<(Id, Head)>): seq<Line>
  {
    seq(|hs|, i requires 0 <= i < |hs| => HeadLine(hs[i]))
  }

  function ProposalLines(ps: seq<(Id, Proposal)>): seq<Line>
  {
    seq(|ps|, i requires 0 <= i < |ps| => ProposalLine(ps[i]))
  }

  function ReviewLines(rs: seq<(Id, Review)>): seq<Line>
  {
    seq(|rs|, i requires 0 <= i < |rs| => ReviewLine(rs[i]))
  }

  function FeedbackLines(es: seq<(Id, Feedback)>): seq<Line>
  {
    seq(|es|, i requires 0 <= i < |es| => FeedbackLine(es[i]))
  }

  function EntityLines(e: Entities): seq<Line>
  {
    VersionLines(e.versions) + HeadLines(e.heads) + ProposalLines(e.proposals) + ReviewLines(e.reviews) +
    FeedbackLines(e.events)
  }

  function ExportFile(db: Tables, now: string): seq<Line>
  {
    var e := EntitiesOf(db);
    var body := [Header(EXPORT_KIND, FORMAT_VERSION, SCHEMA_VERSION, now)] + EntityLines(e);
    body + [Trailer(TRAILER_KIND, e.Counted(), FileSha(body))]
  }

  method WriteVersions(buffer: seq<Line>, db: Tables) returns (out: seq<Line>, count: nat)
    ensures out == buffer + VersionLines(EntitiesOf(db).versions) && count == |db.versions| == |EntitiesOf(db).versions|
  {
    hide InOrder, TagsOf, KeysInOrder;
    var keys := KeysInOrder(db.versions.Keys);
    ghost var entries := EntitiesOf(db).versions;
    out, count := buffer, 0;
    for n := 0 to |keys|
      invariant out == buffer + VersionLines(entries[..n]) && count == n
    {
      out := out + [VersionLine((keys[n], Tagged(db.versions[keys[n]], InOrder(TagsOf(db, keys[n].0, keys[n].1)))))];
      count := count + 1;
    }
    assert entries[..|keys|] == entries;
    Cardinality(keys, db.versions.Keys);
  }

  method WriteHeads(buffer: seq<Line>, db: Tables) returns (out: seq<Line>, count: nat)
    ensures out == buffer + HeadLines(EntitiesOf(db).heads) && count == |db.heads| == |EntitiesOf(db).heads|
  {
    hide InOrder, TagsOf, KeysInOrder;
    var keys := InOrder(db.heads.Keys);
    ghost var entries := EntitiesOf(db).heads;
    out, count := buffer, 0;
    for n := 0 to |keys|
      invariant out == buffer + HeadLines(entries[..n]) && count == n
    {
      out := out + [HeadLine((keys[n], db.heads[keys[n]]))];
      count := count + 1;
    }
    assert entries[..|keys|] == entries;
    AscendingCardinality(keys, db.heads.Keys);
  }

  method WriteProposals(buffer: seq<Line>, db: Tables) returns (out: seq<Line>, count: nat)
    ensures out == buffer + ProposalLines(EntitiesOf(db).proposals) &&
            count == |db.proposals| == |EntitiesOf(db).proposals|
  {
    hide InOrder, TagsOf, KeysInOrder;
    var keys := InOrder(db.proposals.Keys);
    ghost var entries := EntitiesOf(db).proposals;
    out, count := buffer, 0;
    for n := 0 to |keys|
      invariant out == buffer + ProposalLines(entries[..n]) && count == n
    {
      out := out + [ProposalLine((keys[n], db.proposals[keys[n]]))];
      count := count + 1;
    }
    assert entries[..|keys|] == entries;
    AscendingCardinality(keys, db.proposals.Keys);
  }

  method WriteReviews(buffer: seq<Line>, db: Tables) returns (out: seq<Line>, count: nat)
    ensures out == buffer + ReviewLines(EntitiesOf(db).reviews) && count == |db.reviews| == |EntitiesOf(db).reviews|
  {
    hide InOrder, TagsOf, KeysInOrder;
    var keys := InOrder(db.reviews.Keys);
    ghost var entries := EntitiesOf(db).reviews;
    out, count := buffer, 0;
    for n := 0 to |keys|
      invariant out == buffer + ReviewLines(entries[..n]) && count == n
    {
      out := out + [ReviewLine((keys[n], db.reviews[keys[n]]))];
      count := count + 1;
    }
    assert entries[..|keys|] == entries;
    AscendingCardinality(keys, db.reviews.Keys);
  }

  method WriteFeedback(buffer: seq<Line>, db: Tables) returns (out: seq<Line>, count: nat)
    ensures out == buffer + FeedbackLines(EntitiesOf(db).events) && count == |db.feedback| == |EntitiesOf(db).events|
  {
    hide InOrder, TagsOf, KeysInOrder;
    var keys := InOrder(db.feedback.Keys);
    ghost var entries := EntitiesOf(db).events;
    out, count := buffer, 0;
    for n := 0 to |keys|
      invariant out == buffer + FeedbackLines(entries[..n]) && count == n
    {
      out := out + [FeedbackLine((keys[n], db.feedback[keys[n]]))];
      count := count + 1;
    }
    assert entries[..|keys|] == entries;
    AscendingCardinality(keys, db.feedback.Keys);
  }

  /** The export, one consistent read of the tables. */
  method Export(db: Tables, now: string) returns (file: seq<Line>, total: nat)
    ensures file == ExportFile(db, now)
    ensures total == |db.versions| + |db.heads| + |db.proposals| + |db.reviews| + |db.feedback|
  {
    hide EntitiesOf, VersionLines, HeadLines, ProposalLines, ReviewLines, FeedbackLines;
    var buffer := [Header(EXPORT_KIND, FORMAT_VERSION, SCHEMA_VERSION, now)];
    var versions, heads, proposals, reviews, events;
    buffer, versions := WriteVersions(buffer, db);
    buffer, heads := WriteHeads(buffer, db);
    buffer, proposals := WriteProposals(buffer, db);
    buffer, reviews := WriteReviews(buffer, db);
    buffer, events := WriteFeedback(buffer, db);
    assert buffer == [Header(EXPORT_KIND, FORMAT_VERSION, SCHEMA_VERSION, now)] + EntityLines(EntitiesOf(db));
    total := versions + heads + proposals + reviews + events;
    file := buffer + [Trailer(TRAILER_KIND, Counts(versions, heads, proposals, reviews, events), FileSha(buffer))];
  }

  lemma {:induction false} Cardinality<T>(s: seq<T>, elements: set<T>)
    requires Distinct(s) && forall x :: x in s <==> x in elements
    ensures |s| == |elements|
    decreases |s|
  {
    if s == [] {
      assert elements == {};
    } else {
      var last, rest := s[|s| - 1], s[..|s| - 1];
      assert s == rest + [last];
      forall x ensures x in rest <==> x in elements - {last} {
        assert x in s <==> x in rest || x == last;
      }
      Cardinality(rest, elements - {last});
    }
  }

  lemma AscendingIsDistinct(s: seq<string>)
    requires Ascending(s)
    ensures Distinct(s)
  {
    forall i, j | 0 <= i < j < |s| ensures s[i] != s[j] {
      LessIsAsymmetric(s[i], s[j]);
    }
  }

  lemma AscendingCardinality(s: seq<string>, elements: set<string>)
    requires Ascending(s) && forall x :: x in s <==> x in elements
    ensures |s| == |elements|
  {
    AscendingIsDistinct(s);
    Cardinality(s, elements);
  }

  // ---- reading back -------------------------------------------------------------------

  lemma {:induction false} ReadVersions(before: seq<Line>, vs: seq<(VersionKey, Tagged)>)
    ensures Read(before + VersionLines(vs)) == Read(before).(versions := Read(before).versions + vs)
    decreases |vs|
  {
    hide Read;
    if vs == [] {
      assert before + VersionLines(vs) == before;
    } else {
      var init := vs[..|vs| - 1];
      ReadVersions(before, init);
      assert before + VersionLines(vs) == (before + VersionLines(init)) + [VersionLine(vs[|vs| - 1])];
      ReadOne(before + VersionLines(init), VersionLine(vs[|vs| - 1]));
      assert init + [vs[|vs| - 1]] == vs;
    }
  }

  lemma ReadOne(before: seq<Line>, line: Line)
    ensures Read(before + [line]) == Push(Read(before), line)
  {
  }

  lemma {:induction false} ReadHeads(before: seq<Line>, hs: seq<(Id, Head)>)
    ensures Read(before + HeadLines(hs)) == Read(before).(heads := Read(before).heads + hs)
    decreases |hs|
  {
    hide Read;
    if hs == [] {
      assert before + HeadLines(hs) == before;
    } else {
      var init := hs[..|hs| - 1];
      ReadHeads(before, init);
      assert before + HeadLines(hs) == (before + HeadLines(init)) + [HeadLine(hs[|hs| - 1])];
      ReadOne(before + HeadLines(init), HeadLine(hs[|hs| - 1]));
      assert init + [hs[|hs| - 1]] == hs;
    }
  }

  lemma {:induction false} ReadProposals(before: seq<Line>, ps: seq<(Id, Proposal)>)
    ensures Read(before + ProposalLines(ps)) == Read(before).(proposals := Read(before).proposals + ps)
    decreases |ps|
  {
    hide Read;
    if ps == [] {
      assert before + ProposalLines(ps) == before;
    } else {
      var init := ps[..|ps| - 1];
      ReadProposals(before, init);
      assert before + ProposalLines(ps) == (before + ProposalLines(init)) + [ProposalLine(ps[|ps| - 1])];
      ReadOne(before + ProposalLines(init), ProposalLine(ps[|ps| - 1]));
      assert init + [ps[|ps| - 1]] == ps;
    }
  }

  lemma {:induction false} ReadReviews(before: seq<Line>, rs: seq<(Id, Review)>)
    ensures Read(before + ReviewLines(rs)) == Read(before).(reviews := Read(before).reviews + rs)
    decreases |rs|
  {
    hide Read;
    if rs == [] {
      assert before + ReviewLines(rs) == before;
    } else {
      var init := rs[..|rs| - 1];
      ReadReviews(before, init);
      assert before + ReviewLines(rs) == (before + ReviewLines(init)) + [ReviewLine(rs[|rs| - 1])];
      ReadOne(before + ReviewLines(init), ReviewLine(rs[|rs| - 1]));
      assert init + [rs[|rs| - 1]] == rs;
    }
  }

  lemma {:induction false} ReadFeedback(before: seq<Line>, es: seq<(Id, Feedback)>)
    ensures Read(before + FeedbackLines(es)) == Read(before).(events := Read(before).events + es)
    decreases |es|
  {
    hide Read;
    if es == [] {
      assert before + FeedbackLines(es) == before;
    } else {
      var init := es[..|es| - 1];
      ReadFeedback(before, init);
      assert before + FeedbackLines(es) == (before + FeedbackLines(init)) + [FeedbackLine(es[|es| - 1])];
      ReadOne(before + FeedbackLines(init), FeedbackLine(es[|es| - 1]));
      assert init + [es[|es| - 1]] == es;
    }
  }

  /** Reading what was written gives it back. */
  lemma ReadBack(e: Entities)
    ensures Read(EntityLines(e)) == e
    ensures forall i | 0 <= i < |EntityLines(e)| :: Known(EntityLines(e)[i])
  {
    hide Read, VersionLines, HeadLines, ProposalLines, ReviewLines, FeedbackLines;
    ReadVersions([], e.versions);
    assert [] + VersionLines(e.versions) == VersionLines(e.versions);
    assert Read([]) == NOTHING by { ReadNothing(); }
    var a := VersionLines(e.versions);
    ReadHeads(a, e.heads);
    ReadProposals(a + HeadLines(e.heads), e.proposals);
    ReadReviews(a + HeadLines(e.heads) + ProposalLines(e.proposals), e.reviews);
    ReadFeedback(a + HeadLines(e.heads) + ProposalLines(e.proposals) + ReviewLines(e.reviews), e.events);
    LinesAreKnown(e);
  }

  lemma ReadNothing()
    ensures Read([]) == NOTHING
  {
  }

  lemma LinesAreKnown(e: Entities)
    ensures forall i | 0 <= i < |EntityLines(e)| :: Known(EntityLines(e)[i])
  {
  }
}
