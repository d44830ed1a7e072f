/** What an import file must be, said of its lines (crates/xuanling-memory/src/jsonl.rs). */
module ImportRules {
  import opened Wrappers
  import opened MemoryTables
  import opened JsonlFormat
  import opened MemoryJsonl

  datatype Sort = V | H | P | R | F

  function SortOf(line: Line): Option<Sort>
  {
    match line
    case VersionLine(_) => Some(V)
    case HeadLine(_) => Some(H)
    case ProposalLine(_) => Some(P)
    case ReviewLine(_) => Some(R)
    case FeedbackLine(_) => Some(F)
    case _ => None
  }

  // ---- where the rows are -----------------------------------------------------------------

  /** The places of one sort of lines. */
  function Places(lines: seq<Line>, sort: Sort): seq<nat>
  {
    if lines == [] then []
    else
      var n := |lines| - 1;
      Places(lines[..n], sort) + if SortOf(lines[n]) == Some(sort) then [n] else []
  }

  predicate Rising(places: seq<nat>)
  {
    forall k, l | 0 <= k < l < |places| :: places[k] < places[l]
  }

  lemma {:induction false} PlacesAre(lines: seq<Line>, sort: Sort)
    ensures Rising(Places(lines, sort))
    ensures forall i: nat :: i in Places(lines, sort) <==> i < |lines| && SortOf(lines[i]) == Some(sort)
  {
    if lines != [] {
      var rest := Places(lines[..|lines| - 1], sort);
      PlacesAre(lines[..|lines| - 1], sort);
      assert forall k | 0 <= k < |rest| :: rest[k] in rest;
    }
  }

  /** One row of each table, at each place of its sort. */
  ghost predicate RowsAt(lines: seq<Line>, e: Entities)
  {
    VersionsAt(lines, Places(lines, V), e.versions) && HeadsAt(lines, Places(lines, H), e.heads) &&
    ProposalsAt(lines, Places(lines, P), e.proposals) && ReviewsAt(lines, Places(lines, R), e.reviews) &&
    EventsAt(lines, Places(lines, F), e.events)
  }

  ghost predicate VersionsAt(lines: seq<Line>, places: seq<nat>, vs: seq<(VersionKey, Tagged)>)
  {
    |places| == |vs| && forall k | 0 <= k < |vs| :: places[k] < |lines| && lines[places[k]] == VersionLine(vs[k])
  }

  ghost predicate HeadsAt(lines: seq<Line>, places: seq<nat>, hs: seq<(Id, Head)>)
  {
    |places| == |hs| && forall k | 0 <= k < |hs| :: places[k] < |lines| && lines[places[k]] == HeadLine(hs[k])
  }

  ghost predicate ProposalsAt(lines: seq<Line>, places: seq<nat>, ps: seq<(Id, Proposal)>)
  {
    |places| == |ps| && forall k | 0 <= k < |ps| :: places[k] < |lines| && lines[places[k]] == ProposalLine(ps[k])
  }

  ghost predicate ReviewsAt(lines: seq<Line>, places: seq<nat>, rs: seq<(Id, Review)>)
  {
    |places| == |rs| && forall k | 0 <= k < |rs| :: places[k] < |lines| && lines[places[k]] == ReviewLine(rs[k])
  }

  ghost predicate EventsAt(lines: seq<Line>, places: seq<nat>, es: seq<(Id, Feedback)>)
  {
    |places| == |es| && forall k | 0 <= k < |es| :: places[k] < |lines| && lines[places[k]] == FeedbackLine(es[k])
  }

  lemma {:induction false} ReadAt(lines: seq<Line>)
    ensures RowsAt(lines, Read(lines))
  {
    if lines != [] {
      var less := lines[..|lines| - 1];
      ReadAt(less);
      assert lines == less + [lines[|lines| - 1]];
    }
  }

  // ---- what is asked of the lines -----------------------------------------------------------

  predicate HasVersion(lines: seq<Line>, key: VersionKey)
  {
    exists i :: 0 <= i < |lines| && lines[i].VersionLine? && lines[i].version.0 == key
  }

  predicate HasProposal(lines: seq<Line>, id: Id)
  {
    exists i :: 0 <= i < |lines| && lines[i].ProposalLine? && lines[i].proposal.0 == id
  }

  predicate HasReview(lines: seq<Line>, id: Id)
  {
    exists i :: 0 <= i < |lines| && lines[i].ReviewLine? && lines[i].review.0 == id
  }

  /** Each version has a revision from one on, names a proposal of the file, and has the hash and the dedupe key
      of its content; no two have one key. */
  predicate GoodVersions(nfc: Normalizer, lines: seq<Line>)
  {
    (forall i | 0 <= i < |lines| && lines[i].VersionLine? :: GoodVersion(nfc, lines, lines[i].version)) &&
    (forall i, j | 0 <= i < j < |lines| && lines[i].VersionLine? && lines[j].VersionLine? ::
       lines[i].version.0 != lines[j].version.0)
  }

  predicate GoodVersion(nfc: Normalizer, lines: seq<Line>, v: (VersionKey, Tagged))
  {
    v.0.1 >= 1 && HasProposal(lines, v.1.version.proposalId) &&
    v.1.version.contentSha.content == v.1.version.body.content &&
    v.1.version.dedupeKey == DedupeKey(nfc, v.1.version.body.content, v.1.version.namespace)
  }

  predicate GoodHeads(lines: seq<Line>)
  {
    (forall i | 0 <= i < |lines| && lines[i].HeadLine? ::
       HasVersion(lines, (lines[i].head.0, lines[i].head.1.current))) &&
    (forall i, j | 0 <= i < j < |lines| && lines[i].HeadLine? && lines[j].HeadLine? ::
       lines[i].head.0 != lines[j].head.0)
  }

  /** Each review is of a proposal of the file; a proposal has one at most, and no two have one key. */
  predicate GoodReviews(lines: seq<Line>)
  {
    (forall i | 0 <= i < |lines| && lines[i].ReviewLine? :: HasProposal(lines, lines[i].review.0)) &&
    (forall i, j | 0 <= i < j < |lines| && lines[i].ReviewLine? && lines[j].ReviewLine? ::
       lines[i].review.0 != lines[j].review.0 && lines[i].review.1.key != lines[j].review.1.key)
  }

  predicate GoodProposals(lines: seq<Line>)
  {
    (forall i | 0 <= i < |lines| && lines[i].ProposalLine? ::
       GoodProposal(lines, lines[i].proposal.0, lines[i].proposal.1)) &&
    (forall i, j | 0 <= i < j < |lines| && lines[i].ProposalLine? && lines[j].ProposalLine? ::
       lines[i].proposal.1.key != lines[j].proposal.1.key)
  }

  /** A decided proposal has a review; a pending one has none and no time of decision; a create has a payload; a
      target is a version of the file. */
  predicate GoodProposal(lines: seq<Line>, id: Id, p: Proposal)
  {
    1 <= p.revision <= 2 && (p.status.Pending? <==> !HasReview(lines, id)) &&
    (p.status.Pending? ==> p.decidedAt.None?) && (p.operation.Create? ==> p.payload.Some?) &&
    (p.target.Some? && p.targetRevision.Some? ==> HasVersion(lines, (p.target.value, p.targetRevision.value))) &&
    (p.target.Some? && p.targetRevision.None? ==> HasVersion(lines, (p.target.value, 0)))
  }

  predicate GoodEvents(lines: seq<Line>)
  {
    (forall i | 0 <= i < |lines| && lines[i].FeedbackLine? ::
       HasVersion(lines, (lines[i].event.1.recordId, lines[i].event.1.revision))) &&
    (forall i, j | 0 <= i < j < |lines| && lines[i].FeedbackLine? && lines[j].FeedbackLine? ::
       lines[i].event.1.key != lines[j].event.1.key)
  }

  /** This many of the lines are of the sort. */
  ghost predicate Number(lines: seq<Line>, sort: Sort, n: nat)
  {
    n == |set i | 0 <= i < |lines| && SortOf(lines[i]) == Some(sort)|
  }

  // ---- the lines and the rows -----------------------------------------------------------------

  lemma PlaceOf(lines: seq<Line>, sort: Sort, i: nat) returns (k: nat)
    requires i < |lines| && SortOf(lines[i]) == Some(sort)
    ensures k < |Places(lines, sort)| && Places(lines, sort)[k] == i
  {
    PlacesAre(lines, sort);
    k :| k < |Places(lines, sort)| && Places(lines, sort)[k] == i;
  }

  lemma PlacesRise(lines: seq<Line>, sort: Sort, i: nat, j: nat) returns (k: nat, l: nat)
    requires i < j < |lines| && SortOf(lines[i]) == Some(sort) && SortOf(lines[j]) == Some(sort)
    ensures k < l < |Places(lines, sort)| && Places(lines, sort)[k] == i && Places(lines, sort)[l] == j
  {
    hide Places;
    PlacesAre(lines, sort);
    k := PlaceOf(lines, sort, i);
    l := PlaceOf(lines, sort, j);
  }

  lemma NumberIsPlaces(lines: seq<Line>, sort: Sort)
    ensures Number(lines, sort, |Places(lines, sort)|)
  {
    hide Places;
    PlacesAre(lines, sort);
    Cardinality(Places(lines, sort), set i | 0 <= i < |lines| && SortOf(lines[i]) == Some(sort));
  }

  lemma KeysAreThere(lines: seq<Line>)
    ensures var e := Read(lines);
            (forall key :: key in KeysOf(e.versions) <==> HasVersion(lines, key)) &&
            (forall id :: id in KeysOf(e.proposals) <==> HasProposal(lines, id)) &&
            (forall id :: id in KeysOf(e.reviews) <==> HasReview(lines, id))
  {
    hide Read, Places;
    var e := Read(lines);
    ReadAt(lines);
    forall key ensures key in KeysOf(e.versions) <==> HasVersion(lines, key) {
      if i :| 0 <= i < |lines| && lines[i].VersionLine? && lines[i].version.0 == key {
        var k := PlaceOf(lines, V, i);
        assert e.versions[k].0 == key;
      }
    }
    forall id ensures id in KeysOf(e.proposals) <==> HasProposal(lines, id) {
      if i :| 0 <= i < |lines| && lines[i].ProposalLine? && lines[i].proposal.0 == id {
        var k := PlaceOf(lines, P, i);
        assert e.proposals[k].0 == id;
      }
    }
    forall id ensures id in KeysOf(e.reviews) <==> HasReview(lines, id) {
      if i :| 0 <= i < |lines| && lines[i].ReviewLine? && lines[i].review.0 == id {
        var k := PlaceOf(lines, R, i);
        assert e.reviews[k].0 == id;
      }
    }
  }

  lemma VersionsExactly(nfc: Normalizer, lines: seq<Line>)
    ensures var e := Read(lines); VersionsValid(nfc, e.versions, KeysOf(e.proposals)) <==> GoodVersions(nfc, lines)
  {
    hide Read, Places, DedupeKey, KeysOf, HasProposal;
    var e := Read(lines);
    ReadAt(lines);
    KeysAreThere(lines);
    PlacesAre(lines, V);
    var ps, vs := Places(lines, V), e.versions;
    if VersionsValid(nfc, vs, KeysOf(e.proposals)) {
      forall i | 0 <= i < |lines| && lines[i].VersionLine? ensures GoodVersion(nfc, lines, lines[i].version) {
        var k := PlaceOf(lines, V, i);
        assert VersionValid(nfc, vs[k], KeysOf(e.proposals));
      }
      forall i, j | 0 <= i < j < |lines| && lines[i].VersionLine? && lines[j].VersionLine?
        ensures lines[i].version.0 != lines[j].version.0
      {
        var k, l := PlacesRise(lines, V, i, j);
        assert lines[ps[k]] == VersionLine(vs[k]) && lines[ps[l]] == VersionLine(vs[l]);
      }
    }
    if GoodVersions(nfc, lines) {
      forall k | 0 <= k < |vs| ensures VersionValid(nfc, vs[k], KeysOf(e.proposals)) {
        assert lines[ps[k]] == VersionLine(vs[k]);
        assert GoodVersion(nfc, lines, lines[ps[k]].version);
      }
      forall k, l | 0 <= k < l < |vs| ensures vs[k].0 != vs[l].0 {
        assert lines[ps[k]] == VersionLine(vs[k]) && lines[ps[l]] == VersionLine(vs[l]);
      }
    }
  }

  lemma HeadsExactly(lines: seq<Line>)
    ensures var e := Read(lines); HeadsValid(e.heads, KeysOf(e.versions)) <==> GoodHeads(lines)
  {
    hide Read, Places, KeysOf, HasVersion;
    var e := Read(lines);
    ReadAt(lines);
    KeysAreThere(lines);
    PlacesAre(lines, H);
    var ps, hs := Places(lines, H), e.heads;
    if HeadsValid(hs, KeysOf(e.versions)) {
      forall i | 0 <= i < |lines| && lines[i].HeadLine?
        ensures HasVersion(lines, (lines[i].head.0, lines[i].head.1.current))
      {
        var k := PlaceOf(lines, H, i);
        assert (hs[k].0, hs[k].1.current) in KeysOf(e.versions);
      }
      forall i, j | 0 <= i < j < |lines| && lines[i].HeadLine? && lines[j].HeadLine?
        ensures lines[i].head.0 != lines[j].head.0
      {
        var k, l := PlacesRise(lines, H, i, j);
        assert lines[ps[k]] == HeadLine(hs[k]) && lines[ps[l]] == HeadLine(hs[l]);
      }
    }
    if GoodHeads(lines) {
      forall k | 0 <= k < |hs| ensures (hs[k].0, hs[k].1.current) in KeysOf(e.versions) {
        assert lines[ps[k]] == HeadLine(hs[k]);
      }
      forall k, l | 0 <= k < l < |hs| ensures hs[k].0 != hs[l].0 {
        assert lines[ps[k]] == HeadLine(hs[k]) && lines[ps[l]] == HeadLine(hs[l]);
      }
    }
  }

  lemma ReviewsExactly(lines: seq<Line>)
    ensures var e := Read(lines); ReviewsValid(e.reviews, KeysOf(e.proposals)) <==> GoodReviews(lines)
  {
    hide Read, Places, KeysOf, HasProposal;
    var e := Read(lines);
    ReadAt(lines);
    KeysAreThere(lines);
    PlacesAre(lines, R);
    var ps, rs := Places(lines, R), e.reviews;
    if ReviewsValid(rs, KeysOf(e.proposals)) {
      forall i | 0 <= i < |lines| && lines[i].ReviewLine? ensures HasProposal(lines, lines[i].review.0) {
        var k := PlaceOf(lines, R, i);
        assert rs[k].0 in KeysOf(e.proposals);
      }
      forall i, j | 0 <= i < j < |lines| && lines[i].ReviewLine? && lines[j].ReviewLine?
        ensures lines[i].review.0 != lines[j].review.0 && lines[i].review.1.key != lines[j].review.1.key
      {
        var k, l := PlacesRise(lines, R, i, j);
        assert lines[ps[k]] == ReviewLine(rs[k]) && lines[ps[l]] == ReviewLine(rs[l]);
      }
    }
    if GoodReviews(lines) {
      forall k | 0 <= k < |rs| ensures rs[k].0 in KeysOf(e.proposals) {
        assert lines[ps[k]] == ReviewLine(rs[k]);
      }
      forall k, l | 0 <= k < l < |rs| ensures rs[k].0 != rs[l].0 && rs[k].1.key != rs[l].1.key {
        assert lines[ps[k]] == ReviewLine(rs[k]) && lines[ps[l]] == ReviewLine(rs[l]);
      }
    }
  }

  lemma ProposalsExactly(lines: seq<Line>)
    ensures var e := Read(lines);
            ProposalsValid(e.proposals, KeysOf(e.reviews), KeysOf(e.versions)) <==> GoodProposals(lines)
  {
    hide Read, Places, KeysOf, HasVersion, HasReview;
    var e := Read(lines);
    ReadAt(lines);
    KeysAreThere(lines);
    PlacesAre(lines, P);
    var at, ps := Places(lines, P), e.proposals;
    var reviewed, versions := KeysOf(e.reviews), KeysOf(e.versions);
    if ProposalsValid(ps, reviewed, versions) {
      forall i | 0 <= i < |lines| && lines[i].ProposalLine?
        ensures GoodProposal(lines, lines[i].proposal.0, lines[i].proposal.1)
      {
        var k := PlaceOf(lines, P, i);
        assert ProposalValid(ps[k], reviewed, versions);
      }
      forall i, j | 0 <= i < j < |lines| && lines[i].ProposalLine? && lines[j].ProposalLine?
        ensures lines[i].proposal.1.key != lines[j].proposal.1.key
      {
        var k, l := PlacesRise(lines, P, i, j);
        assert lines[at[k]] == ProposalLine(ps[k]) && lines[at[l]] == ProposalLine(ps[l]);
      }
    }
    if GoodProposals(lines) {
      forall k | 0 <= k < |ps| ensures ProposalValid(ps[k], reviewed, versions) {
        assert lines[at[k]] == ProposalLine(ps[k]);
        assert GoodProposal(lines, lines[at[k]].proposal.0, lines[at[k]].proposal.1);
      }
      forall k, l | 0 <= k < l < |ps| ensures ps[k].1.key != ps[l].1.key {
        assert lines[at[k]] == ProposalLine(ps[k]) && lines[at[l]] == ProposalLine(ps[l]);
      }
    }
  }

  lemma EventsExactly(lines: seq<Line>)
    ensures var e := Read(lines); EventsValid(e.events, KeysOf(e.versions)) <==> GoodEvents(lines)
  {
    hide Read, Places, KeysOf, HasVersion;
    var e := Read(lines);
    ReadAt(lines);
    KeysAreThere(lines);
    PlacesAre(lines, F);
    var ps, es := Places(lines, F), e.events;
    if EventsValid(es, KeysOf(e.versions)) {
      forall i | 0 <= i < |lines| && lines[i].FeedbackLine?
        ensures HasVersion(lines, (lines[i].event.1.recordId, lines[i].event.1.revision))
      {
        var k := PlaceOf(lines, F, i);
        assert (es[k].1.recordId, es[k].1.revision) in KeysOf(e.versions);
      }
      forall i, j | 0 <= i < j < |lines| && lines[i].FeedbackLine? && lines[j].FeedbackLine?
        ensures lines[i].event.1.key != lines[j].event.1.key
      {
        var k, l := PlacesRise(lines, F, i, j);
        assert lines[ps[k]] == FeedbackLine(es[k]) && lines[ps[l]] == FeedbackLine(es[l]);
      }
    }
    if GoodEvents(lines) {
      forall k | 0 <= k < |es| ensures (es[k].1.recordId, es[k].1.revision) in KeysOf(e.versions) {
        assert lines[ps[k]] == FeedbackLine(es[k]);
      }
      forall k, l | 0 <= k < l < |es| ensures es[k].1.key != es[l].1.key {
        assert lines[ps[k]] == FeedbackLine(es[k]) && lines[ps[l]] == FeedbackLine(es[l]);
      }
    }
  }

  // ---- the file -------------------------------------------------------------------------------

  /** The first line is a header of this format, the last a trailer with the hash of all lines before it and the
      number of lines of each sort, and between them is nothing but rows. */
  ghost predicate GoodFrame(file: seq<Line>)
  {
    |file| >= 2 && file[0].Header? && file[0].kind == "xuanling_memory_export" && file[0].formatVersion == 1 &&
    file[0].schemaVersion == 2 &&
    var last, lines := file[|file| - 1], file[1..|file| - 1];
    last.Trailer? && last.kind == "trailer" && last.sha.lines == file[..|file| - 1] &&
    (forall i | 0 <= i < |lines| :: SortOf(lines[i]).Some?) && GoodCounts(lines, last.counts)
  }

  ghost predicate GoodCounts(lines: seq<Line>, counts: Counts)
  {
    Number(lines, V, counts.versions) && Number(lines, H, counts.heads) && Number(lines, P, counts.proposals) &&
    Number(lines, R, counts.reviews) && Number(lines, F, counts.events)
  }

  lemma CountsExactly(lines: seq<Line>, counts: Counts)
    ensures counts == Read(lines).Counted() <==> GoodCounts(lines, counts)
  {
    hide Read, Places, Number;
    ReadAt(lines);
    NumberIsPlaces(lines, V);
    NumberIsPlaces(lines, H);
    NumberIsPlaces(lines, P);
    NumberIsPlaces(lines, R);
    NumberIsPlaces(lines, F);
    OneNumber(lines);
  }

  lemma OneNumber(lines: seq<Line>)
    ensures forall sort, m, n | Number(lines, sort, m) && Number(lines, sort, n) :: m == n
  {
  }

  lemma FrameExactly(file: seq<Line>)
    ensures Framed(file) <==> GoodFrame(file)
  {
    hide Read, GoodCounts;
    if |file| >= 2 {
      var last, lines := file[|file| - 1], file[1..|file| - 1];
      assert BodyOf(file) == lines;
      if last.Trailer? { CountsExactly(lines, last.counts); }
      assert forall i | 0 <= i < |lines| :: Known(lines[i]) <==> SortOf(lines[i]).Some?;
    }
  }

  /** A file is accepted if and only if its frame is right and its rows refer to one another as they must. */
  lemma AcceptedExactlyWhen(nfc: Normalizer, file: seq<Line>)
    ensures Accepted(nfc, file) <==>
              GoodFrame(file) &&
              var lines := file[1..|file| - 1];
              GoodVersions(nfc, lines) && GoodHeads(lines) && GoodReviews(lines) && GoodProposals(lines) &&
              GoodEvents(lines)
  {
    hide Framed, GoodFrame, Read, VersionsValid, HeadsValid, ReviewsValid, ProposalsValid, EventsValid, GoodVersions,
         GoodHeads, GoodReviews, GoodProposals, GoodEvents, KeysOf;
    FrameExactly(file);
    if |file| >= 2 {
      var lines := file[1..|file| - 1];
      assert BodyOf(file) == lines;
      VersionsExactly(nfc, lines);
      HeadsExactly(lines);
      ReviewsExactly(lines);
      ProposalsExactly(lines);
      EventsExactly(lines);
    } else {
      ShortIsNotFramed(file);
    }
  }

  lemma ShortIsNotFramed(file: seq<Line>)
    ensures |file| < 2 ==> !Framed(file) && !GoodFrame(file)
  {
  }

  /** An accepted file is known by its last line. */
  lemma TrailerTellsTheFile(nfc: Normalizer, a: seq<Line>, b: seq<Line>)
    requires Accepted(nfc, a) && Accepted(nfc, b) && a[|a| - 1] == b[|b| - 1]
    ensures a == b
  {
    hide Read, EntitiesValid;
    var m, n := |a| - 1, |b| - 1;
    assert a == a[..m] + [a[m]] && b == b[..n] + [b[n]];
  }
}
