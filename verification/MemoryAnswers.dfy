/** Which requests the memory store accepts, what each accepted one changes, and which error answers each
    of the others, said of the rows themselves (crates/xuanling-memory/src/store/v2.rs). */
module MemoryAnswers {
  import opened Wrappers
  import opened Whitespace
  import opened TextOrder
  import opened MemoryTables
  import opened MemoryDigest
  import opened MemoryInvariant
  import opened MemoryRuns

  // ---- requests -----------------------------------------------------------------------

  /** An id of a scope is not empty and contains no separator. */
  predicate GoodId(id: string)
  {
    id != "" && forall i | 0 <= i < |id| :: id[i] as int != 0x1F
  }

  predicate GoodScope(scope: Scope)
  {
    (scope.Project? ==> GoodId(scope.project)) &&
    (scope.Workspace? ==> GoodId(scope.project) && GoodId(scope.workspace))
  }

  predicate GoodReview(req: ReviewRequest)
  {
    req.key != "" && req.reviewer != "" && req.proposalId != "" && req.namespace != "" && GoodScope(req.scope) &&
    req.expectedRevision == 1
  }

  lemma GoodReviewIsValid(req: ReviewRequest)
    ensures GoodReview(req) <==> req.Valid()
  {
  }

  // ---- reviews ------------------------------------------------------------------------

  /** The proposal is pending, in the namespace and scope of the request, and the key is new. */
  ghost predicate Open(db: Tables, req: ReviewRequest)
  {
    GoodReview(req) && req.proposalId in db.proposals && db.proposals[req.proposalId].namespace == req.namespace &&
    db.proposals[req.proposalId].scope == req.scope && db.proposals[req.proposalId].status == Pending &&
    forall id | id in db.reviews :: db.reviews[id].key != req.key
  }

  /** The key belongs to the review of this proposal, in the namespace and scope of the request. */
  ghost predicate Replayed(db: Tables, req: ReviewRequest)
  {
    GoodReview(req) && req.proposalId in db.reviews && db.reviews[req.proposalId].key == req.key &&
    req.proposalId in db.proposals && db.proposals[req.proposalId].namespace == req.namespace &&
    db.proposals[req.proposalId].scope == req.scope
  }

  /** Some active record in this namespace and scope, other than this one, has this dedupe key. */
  ghost predicate Taken(db: Tables, namespace: string, scope: Scope, dedupeKey: string, id: Id)
  {
    exists other :: other in db.heads && other != id && db.heads[other].status == Active &&
                    db.heads[other].namespace == namespace && db.heads[other].scope == scope &&
                    db.heads[other].dedupeKey == dedupeKey
  }

  ghost predicate HeadThere(db: Tables, id: Id, req: ReviewRequest)
  {
    id in db.heads && db.heads[id].namespace == req.namespace && db.heads[id].scope == req.scope
  }

  ghost predicate NoRepeats(tags: seq<string>)
  {
    forall i, j | 0 <= i < |tags| && 0 <= j < |tags| && tags[i] == tags[j] :: i == j
  }

  /** The payload can become the content of this record. */
  ghost predicate Publishable(db: Tables, nfc: Normalizer, req: ReviewRequest, payload: Payload, id: Id)
  {
    NoRepeats(payload.tags) &&
    !Taken(db, req.namespace, req.scope, DedupeKey(nfc, payload.body.content, req.namespace), id)
  }

  /** An open proposal can be approved. */
  ghost predicate Approvable(db: Tables, nfc: Normalizer, req: ReviewRequest)
    requires req.proposalId in db.proposals
  {
    var p := db.proposals[req.proposalId];
    match p.operation
    case Create => p.payload.Some? && Publishable(db, nfc, req, p.payload.value, req.proposalId)
    case Replace =>
      p.target.Some? && p.payload.Some? && HeadThere(db, p.target.value, req) &&
      db.heads[p.target.value].status == Active && p.targetRevision == Some(db.heads[p.target.value].current) &&
      Publishable(db, nfc, req, p.payload.value, p.target.value)
    case Archive =>
      p.target.Some? && HeadThere(db, p.target.value, req) &&
      db.heads[p.target.value].status == Active && p.targetRevision == Some(db.heads[p.target.value].current)
  }

  /** A review is accepted if it repeats one, rejects an open proposal, or approves one that can be. */
  ghost predicate Accepts(db: Tables, nfc: Normalizer, req: ReviewRequest)
  {
    Replayed(db, req) || (Open(db, req) && (req.decision == Reject || Approvable(db, nfc, req)))
  }

  /** The error of every other review, by condition. */
  ghost function Refusal(db: Tables, req: ReviewRequest): Code
  {
    if !GoodReview(req) then InvalidInput
    else if exists id :: id in db.reviews && db.reviews[id].key == req.key && id != req.proposalId then Conflict
    else if req.proposalId !in db.proposals || db.proposals[req.proposalId].namespace != req.namespace ||
            db.proposals[req.proposalId].scope != req.scope then NotFound
    else if db.proposals[req.proposalId].status != Pending then Conflict
    else
      var p := db.proposals[req.proposalId];
      if !p.operation.Create? && p.target.Some? && !HeadThere(db, p.target.value, req) then NotFound else Conflict
  }

  lemma SameDuplicate(db: Tables, namespace: string, scope: Scope, dedupeKey: string, id: Id)
    ensures ActiveDuplicate(db, namespace, scope, dedupeKey, Some(id)) <==> Taken(db, namespace, scope, dedupeKey, id)
    ensures id !in db.heads ==>
              (ActiveDuplicate(db, namespace, scope, dedupeKey, None) <==> Taken(db, namespace, scope, dedupeKey, id))
  {
  }

  lemma SameDistinct(tags: seq<string>)
    ensures NoRepeats(tags) <==> Distinct(tags)
  {
  }

  /** A pending create has no record yet. */
  lemma PendingHasNoRecord(db: Tables, nfc: Normalizer, id: Id)
    requires Inv(db, nfc) && id in db.proposals && db.proposals[id].status.Pending?
    ensures id !in db.heads && (id, 1) !in db.versions
  {
    hide DedupeKey, TagsMatch, NoDuplicates, KeysOk, ReferencesOk, Projects, ProposalsOk;
    assert (id, 1) !in db.versions;
  }

  lemma PendingIsShaped(db: Tables, nfc: Normalizer, id: Id)
    requires Inv(db, nfc) && id in db.proposals
    ensures Shaped(db.proposals[id]) && (db.proposals[id].status.Pending? <==> db.proposals[id].revision == 1) &&
            (db.proposals[id].status.Pending? <==> id !in db.reviews)
  {
    hide Complete, Provenance, HeadsOk, NoDuplicates, ReferencesOk, Projects, Shaped, TookEffect, KeysOk;
    assert Lifecycle(db, id);
  }

  lemma KeysAreUnique(db: Tables, nfc: Normalizer, key: string)
    requires Inv(db, nfc)
    ensures forall a, b | HasReviewKey(db, key, a) && HasReviewKey(db, key, b) :: a == b
    ensures forall a, b | HasKey(db, key, a) && HasKey(db, key, b) :: a == b
    ensures db.reviews.Keys <= db.proposals.Keys
  {
    hide Complete, Provenance, HeadsOk, NoDuplicates, ReferencesOk, Projects, Lifecycle, TookEffect;
  }

  /** What an approval of an open proposal is answered with. */
  lemma ApplyAnswer(db: Tables, nfc: Normalizer, req: ReviewRequest, now: string)
    requires Inv(db, nfc) && Open(db, req) && req.decision == Approve
    ensures var r := ApplySpec(db, nfc, req, db.proposals[req.proposalId], now);
            (r.Ok? <==> Approvable(db, nfc, req)) && (r.Err? ==> r.error == Refusal(db, req))
  {
    hide DedupeKey, Provenance, NoDuplicates, KeysOk, ReferencesOk, Projects, ProposalsOk, ActiveDuplicate, Taken,
         NoRepeats,
         Distinct, Without, NewRow, TagRows;
    var p := db.proposals[req.proposalId];
    PendingHasNoRecord(db, nfc, req.proposalId);
    PendingIsShaped(db, nfc, req.proposalId);
    if p.payload.Some? {
      var dedupeKey := DedupeKey(nfc, p.payload.value.body.content, req.namespace);
      SameDistinct(p.payload.value.tags);
      SameDuplicate(db, req.namespace, req.scope, dedupeKey, req.proposalId);
      if p.target.Some? { SameDuplicate(db, req.namespace, req.scope, dedupeKey, p.target.value); }
    }
    if p.target.Some? && p.target.value in db.heads {
      var current := db.heads[p.target.value].current;
      assert (p.target.value, current + 1) !in db.versions;
    }
  }

  /** The whole answer: a review is accepted if and only if it repeats one, rejects an open proposal, or
      approves an open one that can be approved; every other is answered with the error of its
      condition. */
  lemma ReviewAnswer(db: Tables, nfc: Normalizer, req: ReviewRequest, now: string)
    requires Inv(db, nfc)
    ensures var r := ReviewSpec(db, nfc, req, now);
            (r.Ok? <==> Accepts(db, nfc, req)) && (r.Err? ==> r.error == Refusal(db, req))
  {
    hide Inv, Decide, ApplySpec, Approvable, HeadThere;
    GoodReviewIsValid(req);
    KeysAreUnique(db, nfc, req.key);
    if req.proposalId in db.proposals { PendingIsShaped(db, nfc, req.proposalId); }
    if Open(db, req) && req.decision == Approve { ApplyAnswer(db, nfc, req, now); }
    KeyIsKnown(db, req.key);
  }

  lemma KeyIsKnown(db: Tables, key: string)
    ensures (exists id :: HasReviewKey(db, key, id)) <==> exists id :: id in db.reviews && db.reviews[id].key == key
    ensures forall id | id in db.reviews && db.reviews[id].key == key :: HasReviewKey(db, key, id)
  {
    if id :| id in db.reviews && db.reviews[id].key == key {
      assert HasReviewKey(db, key, id);
    }
  }

  /** A refused review, like a repeated one, changes nothing. */
  lemma RefusedReviewChangesNothing(db: Tables, nfc: Normalizer, req: ReviewRequest, now: string)
    requires Inv(db, nfc) && (Accepts(db, nfc, req) ==> Replayed(db, req))
    ensures After(db, nfc, Call.Decision(req, now)) == db
  {
    hide Inv, Decide, ApplySpec, Approvable, Refusal;
    ReviewAnswer(db, nfc, req, now);
    GoodReviewIsValid(req);
    KeysAreUnique(db, nfc, req.key);
    KeyIsKnown(db, req.key);
    if req.proposalId in db.proposals { PendingIsShaped(db, nfc, req.proposalId); }
  }

  /** The rows of a decision: who decided what, when and why, and the proposal decided at revision 2. */
  ghost predicate Decided(db: Tables, d: Tables, req: ReviewRequest, applied: Option<nat>, now: string)
    requires req.proposalId in db.proposals
  {
    var p, status := db.proposals[req.proposalId], if req.decision == Approve then Approved else Rejected;
    d.reviews == db.reviews[req.proposalId :=
                              Review(req.key, req.decision, req.reviewer, req.comment, 1, applied, now)] &&
    d.proposals == db.proposals[req.proposalId :=
                                  Proposal(p.key, p.operation, p.namespace, p.scope, p.target, p.targetRevision,
                                           p.payload,
                                           p.digest, p.proposer, status, 2, p.createdAt, Some(now))] &&
    d.feedback == db.feedback
  }

  /** Rejecting an open proposal is recorded, and touches no record, version, tag or search row. */
  lemma RejectionIsRecorded(db: Tables, nfc: Normalizer, req: ReviewRequest, now: string)
    requires Inv(db, nfc) && Open(db, req) && req.decision == Reject
    ensures var d := After(db, nfc, Call.Decision(req, now));
            Decided(db, d, req, None, now) && d.versions == db.versions && d.heads == db.heads && d.tags == db.tags &&
            d.unicode == db.unicode && d.trigram == db.trigram
  {
    hide Inv, ApplySpec;
    GoodReviewIsValid(req);
    PendingIsShaped(db, nfc, req.proposalId);
  }

  // ---- approvals ----------------------------------------------------------------------

  /** Words in a row, one blank between. */
  function Spaced(words: seq<string>): string
  {
    var n := |words|;
    if n == 0 then "" else if n == 1 then words[0] else Spaced(words[..n - 1]) + " " + words[n - 1]
  }

  lemma {:induction false} JoinedIsSpaced(words: seq<string>)
    ensures JoinTags(words) == Spaced(words)
    decreases |words|
  {
    var n := |words|;
    if n >= 2 {
      var init, tail := words[..n - 1], words[1..];
      JoinedIsSpaced(init);
      JoinedIsSpaced(tail);
      assert tail[..n - 2] == init[1..] && tail[n - 2] == words[n - 1];
      if n > 2 {
        JoinedIsSpaced(init[1..]);
        assert JoinTags(init) == words[0] + " " + JoinTags(init[1..]);
        assert Spaced(tail) == Spaced(init[1..]) + " " + words[n - 1];
      }
    }
  }

  /** A search row with the texts of this payload, its tags in order with blanks between. */
  ghost predicate Carries(row: FtsRow, id: Id, payload: Payload)
  {
    row.recordId == id && row.title == payload.body.title && row.content == payload.body.content &&
    row.summary == payload.body.summary &&
    exists words :: Ascending(words) && (forall w :: w in words <==> w in payload.tags) && row.tags == Spaced(words)
  }

  lemma NewRowCarries(id: Id, payload: Payload)
    requires Distinct(payload.tags)
    ensures Carries(NewRow(id, payload), id, payload)
  {
    var words := SortDistinct(payload.tags);
    JoinedIsSpaced(words);
    assert Ascending(words);
  }

  /** The row of an active record: the texts of its current version, and the tags of it in order. */
  ghost predicate Shows(db: Tables, row: FtsRow)
  {
    var id := row.recordId;
    id in db.heads && db.heads[id].status.Active? && (id, db.heads[id].current) in db.versions &&
    var body := db.versions[(id, db.heads[id].current)].body;
    row.title == body.title && row.content == body.content && row.summary == body.summary &&
    exists words ::
      Ascending(words) && (forall w :: w in words <==> (id, db.heads[id].current, w) in db.tags) &&
      row.tags == Spaced(words)
  }

  predicate ShownIn(rows: seq<FtsRow>, id: Id)
  {
    exists i :: 0 <= i < |rows| && rows[i].recordId == id
  }

  /** A search table has a row for the active records and no others, one each, with what the record says now. */
  lemma SearchRowsExactly(db: Tables, rows: seq<FtsRow>)
    requires Projects(db, rows)
    ensures forall id :: ShownIn(rows, id) <==> id in db.heads && db.heads[id].status.Active?
    ensures forall i, j | 0 <= i < j < |rows| :: rows[i].recordId != rows[j].recordId
    ensures forall i | 0 <= i < |rows| :: Shows(db, rows[i])
  {
    hide Shows, RowOk;
    forall i | 0 <= i < |rows| ensures Shows(db, rows[i]) && IsActive(db, rows[i].recordId) {
      assert RowOk(db, rows[i]);
      RowShows(db, rows[i]);
    }
    forall id | id in db.heads && db.heads[id].status.Active? ensures ShownIn(rows, id) {
      assert IsActive(db, id) && HasRow(rows, id);
    }
  }

  lemma RowShows(db: Tables, row: FtsRow)
    requires RowOk(db, row)
    ensures Shows(db, row) && IsActive(db, row.recordId)
  {
    hide JoinTags;
    var id, current := row.recordId, db.heads[row.recordId].current;
    var words := InOrder(TagsOf(db, id, current));
    JoinedIsSpaced(words);
    forall w ensures w in words <==> (id, current, w) in db.tags {
      if w in TagsOf(db, id, current) {
        var tag :| tag in db.tags && tag.0 == id && tag.1 == current && tag.2 == w;
        assert tag == (id, current, w);
      }
    }
  }

  /** The rows of other records are kept, and this record has exactly one that carries the payload. */
  ghost predicate Searchable(before: seq<FtsRow>, after: seq<FtsRow>, id: Id, payload: Payload)
  {
    after != [] && Carries(after[|after| - 1], id, payload) &&
    forall r :: r in after[..|after| - 1] <==> r in before && r.recordId != id
  }

  /** Revision k of this record, made by this request from this payload. */
  ghost predicate Published(db: Tables, d: Tables, nfc: Normalizer, req: ReviewRequest, id: Id, k: nat,
                            payload: Payload, now: string)
  {
    var dedupeKey := DedupeKey(nfc, payload.body.content, req.namespace);
    d.versions == db.versions[(id, k) := Version(req.namespace, req.scope, payload.body, Sha256(payload.body.content),
                                                 dedupeKey, req.proposalId, now)] &&
    d.heads == db.heads[id := Head(req.namespace, req.scope, dedupeKey, k, Active,
                                   if id !in db.heads then now else db.heads[id].createdAt, now)] &&
    (forall i: Id, j: nat, t: string ::
       (i, j, t) in d.tags <==> (i, j, t) in db.tags || (i == id && j == k && t in payload.tags)) &&
    Searchable(db.unicode, d.unicode, id, payload) && Searchable(db.trigram, d.trigram, id, payload)
  }

  lemma TagsAdded(tags: set<(Id, nat, string)>, id: Id, k: nat, added: seq<string>)
    ensures forall i: Id, j: nat, t: string ::
              (i, j, t) in tags + TagRows(id, k, added) <==> (i, j, t) in tags || (i == id && j == k && t in added)
  {
  }

  lemma RowsReplaced(rows: seq<FtsRow>, id: Id, payload: Payload)
    requires Distinct(payload.tags)
    ensures Searchable(rows, Without(rows, id) + [NewRow(id, payload)], id, payload)
  {
    hide NewRow, Carries;
    NewRowCarries(id, payload);
    WithoutKeepsTheRest(rows, id);
    var after := Without(rows, id) + [NewRow(id, payload)];
    assert after[..|after| - 1] == Without(rows, id);
  }

  /** An approved create is revision 1 of the record with the proposal's id. */
  lemma CreationIsPublished(db: Tables, nfc: Normalizer, req: ReviewRequest, now: string)
    requires Inv(db, nfc) && Open(db, req) && req.decision == Approve && Approvable(db, nfc, req)
    requires db.proposals[req.proposalId].operation == Create
    ensures var d := After(db, nfc, Call.Decision(req, now));
            Decided(db, d, req, Some(1), now) &&
            Published(db, d, nfc, req, req.proposalId, 1, db.proposals[req.proposalId].payload.value, now)
  {
    hide Inv, Open, Decided, Published, Publishable, CreateSpec, After, Projects;
    OpenIsPending(db, req);
    var p, id := db.proposals[req.proposalId], req.proposalId;
    PendingIsShaped(db, nfc, id);
    RowsAreProjected(db, nfc);
    PendingHasNoRecord(db, nfc, id);
    ApprovalInstalls(db, nfc, req, now);
    ApplyKeepsProposals(db, nfc, req, p, now);
    CreatePublished(db, nfc, req, p.payload.value, now);
    DecidesAs(db, CreateSpec(db, nfc, req, p.payload.value, now).value.0, req, Some(1), now);
  }

  lemma OpenIsPending(db: Tables, req: ReviewRequest)
    requires Open(db, req)
    ensures req.proposalId in db.proposals && db.proposals[req.proposalId].status.Pending?
  {
  }

  lemma CreatePublished(db: Tables, nfc: Normalizer, req: ReviewRequest, payload: Payload, now: string)
    requires CreateSpec(db, nfc, req, payload, now).Ok? && req.proposalId in db.proposals
    requires req.proposalId !in db.heads && Projects(db, db.unicode) && Projects(db, db.trigram)
    ensures var r := CreateSpec(db, nfc, req, payload, now).value;
            r.1 == 1 && r.0.proposals == db.proposals &&
            Published(db, Decide(r.0, req, Some(1), now), nfc, req, req.proposalId, 1, payload, now)
  {
    hide DedupeKey, Searchable, ActiveDuplicate, Distinct, NewRow, Without, TagRows, Projects;
    var id := req.proposalId;
    NoHeadNoRow(db, db.unicode, id);
    NoHeadNoRow(db, db.trigram, id);
    RowsReplaced(db.unicode, id, payload);
    RowsReplaced(db.trigram, id, payload);
    TagsAdded(db.tags, id, 1, payload.tags);
  }

  lemma RowsAreProjected(db: Tables, nfc: Normalizer)
    requires Inv(db, nfc)
    ensures Projects(db, db.unicode) && Projects(db, db.trigram)
  {
  }

  /** An approval installs what applying the proposal gave, and the decision. */
  lemma ApprovalInstalls(db: Tables, nfc: Normalizer, req: ReviewRequest, now: string)
    requires Inv(db, nfc) && Open(db, req) && req.decision == Approve && Approvable(db, nfc, req)
    ensures var p := db.proposals[req.proposalId];
            var r := ApplySpec(db, nfc, req, p, now);
            r.Ok? && req.proposalId in r.value.0.proposals &&
            After(db, nfc, Call.Decision(req, now)) == Decide(r.value.0, req, Some(r.value.1), now)
  {
    hide Inv, Approvable, ApplySpec;
    GoodReviewIsValid(req);
    PendingIsShaped(db, nfc, req.proposalId);
    ApplyAnswer(db, nfc, req, now);
    ApplyKeepsProposals(db, nfc, req, db.proposals[req.proposalId], now);
  }

  lemma DecidesAs(db: Tables, t: Tables, req: ReviewRequest, applied: Option<nat>, now: string)
    requires Open(db, req) && t.proposals == db.proposals && t.reviews == db.reviews && t.feedback == db.feedback
    ensures Decided(db, Decide(t, req, applied, now), req, applied, now)
  {
  }

  lemma ApplyKeepsProposals(db: Tables, nfc: Normalizer, req: ReviewRequest, p: Proposal, now: string)
    ensures var r := ApplySpec(db, nfc, req, p, now);
            r.Ok? ==> r.value.0.proposals == db.proposals && r.value.0.reviews == db.reviews &&
                      r.value.0.feedback == db.feedback
  {
    hide Without, NewRow, TagRows, ActiveDuplicate, Distinct, DedupeKey;
  }

  /** An approved replace is the next revision of its target. */
  lemma ReplacementIsPublished(db: Tables, nfc: Normalizer, req: ReviewRequest, now: string)
    requires Inv(db, nfc) && Open(db, req) && req.decision == Approve && Approvable(db, nfc, req)
    requires db.proposals[req.proposalId].operation == Replace
    ensures var d, p := After(db, nfc, Call.Decision(req, now)), db.proposals[req.proposalId];
            p.targetRevision.Some? && Decided(db, d, req, Some(p.targetRevision.value + 1), now) &&
            Published(db, d, nfc, req, p.target.value, p.targetRevision.value + 1, p.payload.value, now)
  {
    hide Inv, Open, Decided, Published, Publishable, ReplaceSpec, After;
    OpenIsPending(db, req);
    var p := db.proposals[req.proposalId];
    PendingIsShaped(db, nfc, req.proposalId);
    ApprovalInstalls(db, nfc, req, now);
    ApplyKeepsProposals(db, nfc, req, p, now);
    DecidesAs(db, ReplaceSpec(db, nfc, req, p.target.value, p.targetRevision.value, p.payload.value, now).value.0, req,
              Some(p.targetRevision.value + 1), now);
    ReplacePublished(db, nfc, req, p.target.value, p.targetRevision.value, p.payload.value, now);
  }

  lemma ReplacePublished(db: Tables, nfc: Normalizer, req: ReviewRequest, id: Id, target: nat, payload: Payload,
                         now: string)
    requires ReplaceSpec(db, nfc, req, id, target, payload, now).Ok? && req.proposalId in db.proposals
    ensures var r := ReplaceSpec(db, nfc, req, id, target, payload, now).value;
            r.1 == target + 1 && r.0.proposals == db.proposals &&
            Published(db, Decide(r.0, req, Some(r.1), now), nfc, req, id, target + 1, payload, now)
  {
    hide DedupeKey, Searchable, ActiveDuplicate, Distinct, NewRow, Without, TagRows;
    RowsReplaced(db.unicode, id, payload);
    RowsReplaced(db.trigram, id, payload);
    TagsAdded(db.tags, id, target + 1, payload.tags);
  }

  /** An approved archive closes the head of its target and takes its search rows, and nothing else. */
  lemma ArchivingIsRecorded(db: Tables, nfc: Normalizer, req: ReviewRequest, now: string)
    requires Inv(db, nfc) && Open(db, req) && req.decision == Approve && Approvable(db, nfc, req)
    requires db.proposals[req.proposalId].operation == Archive
    ensures var d, p := After(db, nfc, Call.Decision(req, now)), db.proposals[req.proposalId];
            var id, h := p.target.value, db.heads[p.target.value];
            Decided(db, d, req, Some(h.current), now) && d.versions == db.versions && d.tags == db.tags &&
            d.heads == db.heads[id := Head(h.namespace, h.scope, h.dedupeKey, h.current, Archived, h.createdAt, now)] &&
            (forall r :: r in d.unicode <==> r in db.unicode && r.recordId != id) &&
            (forall r :: r in d.trigram <==> r in db.trigram && r.recordId != id)
  {
    hide Inv, Open, Decided, DedupeKey, Without, After;
    OpenIsPending(db, req);
    var p := db.proposals[req.proposalId];
    PendingIsShaped(db, nfc, req.proposalId);
    ApprovalInstalls(db, nfc, req, now);
    ApplyKeepsProposals(db, nfc, req, p, now);
    DecidesAs(db, ArchiveSpec(db, req, p.target.value, p.targetRevision.value, now).value.0, req,
              Some(p.targetRevision.value), now);
    WithoutKeepsTheRest(db.unicode, p.target.value);
    WithoutKeepsTheRest(db.trigram, p.target.value);
  }

  // ---- proposals ----------------------------------------------------------------------

  predicate GoodPayload(payload: Payload)
  {
    !AllWhitespace(payload.body.content) && forall i | 0 <= i < |payload.tags| :: !AllWhitespace(payload.tags[i])
  }

  predicate GoodCandidate(req: CandidateRequest)
  {
    req.proposalId != "" && req.key != "" && req.proposer != "" && req.namespace != "" && GoodScope(req.scope) &&
    match req.change
    case CreateRecord(payload) => GoodPayload(payload)
    case ReplaceRecord(target, revision, payload) => target != "" && revision >= 1 && GoodPayload(payload)
    case ArchiveRecord(target, revision) => target != "" && revision >= 1
  }

  lemma GoodPayloadIsValid(payload: Payload)
    ensures GoodPayload(payload) <==> payload.Valid()
  {
    hide IsWhitespace, Blank;
    BlankExactlyWhen(payload.body.content);
    forall i | 0 <= i < |payload.tags| ensures AllWhitespace(payload.tags[i]) <==> Blank(payload.tags[i]) {
      BlankExactlyWhen(payload.tags[i]);
    }
  }

  lemma GoodCandidateIsValid(req: CandidateRequest)
    ensures GoodCandidate(req) <==> req.Valid()
  {
    hide GoodPayload, Payload.Valid;
    match req.change
    case CreateRecord(payload) => GoodPayloadIsValid(payload);
    case ReplaceRecord(_, _, payload) => GoodPayloadIsValid(payload);
    case ArchiveRecord(_, _) =>
  }

  /** The proposal is one for this change. */
  predicate For(p: Proposal, change: Change)
  {
    match change
    case CreateRecord(payload) =>
      p.operation == Create && p.target == None && p.targetRevision == None && p.payload == Some(payload)
    case ReplaceRecord(target, revision, payload) =>
      p.operation == Replace && p.target == Some(target) && p.targetRevision == Some(revision) &&
      p.payload == Some(payload)
    case ArchiveRecord(target, revision) =>
      p.operation == Archive && p.target == Some(target) && p.targetRevision == Some(revision) && p.payload == None
  }

  /** The request repeats the one this proposal came from. */
  predicate Repeats(p: Proposal, req: CandidateRequest)
  {
    p.key == req.key && p.namespace == req.namespace && p.scope == req.scope && For(p, req.change)
  }

  /** A new proposal, pending, as the request has it. */
  ghost predicate Proposed(p: Proposal, req: CandidateRequest, now: string)
  {
    Repeats(p, req) && p.proposer == req.proposer && p.status == Pending && p.revision == 1 && p.createdAt == now &&
    p.decidedAt == None
  }

  /** A request with a new key and id becomes a pending proposal and nothing else; an id in use is a
      conflict; and an ill-formed request is invalid. */
  lemma NewCandidateAnswer(db: Tables, nfc: Normalizer, req: CandidateRequest, now: string)
    requires Inv(db, nfc) && forall id | id in db.proposals :: db.proposals[id].key != req.key
    ensures var r := CandidateSpec(db, req, now);
            if !GoodCandidate(req) then r == Err(InvalidInput)
            else if req.proposalId in db.proposals then r == Err(Conflict)
            else r.Ok? && req.proposalId in r.value.proposals &&
                 r.value == db.(proposals := db.proposals[req.proposalId := r.value.proposals[req.proposalId]]) &&
                 Proposed(r.value.proposals[req.proposalId], req, now)
  {
    hide Inv, GoodCandidate, CandidateRequest.Valid, DigestOf;
    GoodCandidateIsValid(req);
  }

  /** A request with a known key changes nothing. It is accepted when it repeats the request of that key,
      and is a conflict when it differs from it within one namespace and scope, or anywhere where no
      namespace contains the separator. */
  lemma KnownCandidateAnswer(db: Tables, nfc: Normalizer, req: CandidateRequest, id: Id, now: string)
    requires Inv(db, nfc) && GoodCandidate(req) && id in db.proposals && db.proposals[id].key == req.key
    ensures var r, p := CandidateSpec(db, req, now), db.proposals[id];
            (r.Ok? ==> r.value == db) && (r.Err? ==> r.error == Conflict) && (Repeats(p, req) ==> r.Ok?) &&
            (p.namespace == req.namespace && p.scope == req.scope ==> (r.Ok? <==> Repeats(p, req))) &&
            (SEPARATOR !in p.namespace && SEPARATOR !in req.namespace ==> (r.Ok? <==> Repeats(p, req)))
  {
    hide Inv, GoodCandidate, CandidateRequest.Valid, DigestOf;
    GoodCandidateIsValid(req);
    KeysAreUnique(db, nfc, req.key);
    assert HasKey(db, req.key, id);
    PendingIsShaped(db, nfc, id);
    var p, q := db.proposals[id], req.Row(now);
    ScopeIsGood(req);
    if p.digest == q.digest {
      if p.namespace == req.namespace && p.scope == req.scope {
        SameChange(p, q);
      } else if SEPARATOR !in p.namespace && SEPARATOR !in req.namespace {
        DigestIsInjective(p, q);
      }
    }
  }

  lemma ScopeIsGood(req: CandidateRequest)
    requires req.Valid()
    ensures req.scope.Valid()
  {
  }

  // ---- dedupe keys --------------------------------------------------------------------

  lemma UnifyStep(s: string)
    requires s != []
    ensures UnifyNewlines(s) ==
            if s[0] != '\r' then [s[0]] + UnifyNewlines(s[1..])
            else if |s| > 1 && s[1] == '\n' then ['\n'] + UnifyNewlines(s[2..])
            else ['\n'] + UnifyNewlines(s[1..])
  {
  }

  lemma NewlineForms()
    ensures UnifyNewlines("\r\n") == "\n" && UnifyNewlines("\r") == "\n" && UnifyNewlines("") == ""
  {
    assert "\r\n"[2..] == "" && "\r"[1..] == "";
  }

  lemma {:induction false} NoReturnLeft(s: string)
    ensures '\r' !in UnifyNewlines(s) && ('\r' !in s ==> UnifyNewlines(s) == s)
    decreases |s|
  {
    if s == [] {
      NewlineForms();
    } else {
      UnifyStep(s);
      hide UnifyNewlines;
      if s[0] == '\r' && |s| > 1 && s[1] == '\n' {
        NoReturnLeft(s[2..]);
      } else {
        NoReturnLeft(s[1..]);
        assert s == [s[0]] + s[1..];
      }
    }
  }

  /** Newlines: "\r\n" and "\r" become "\n", every other unit stays, and a text is unified piece by piece,
      unless it is cut inside a "\r\n". */
  lemma {:induction false} NewlinesUnified(a: string, b: string)
    requires !(a != [] && a[|a| - 1] == '\r' && b != [] && b[0] == '\n')
    ensures UnifyNewlines(a + b) == UnifyNewlines(a) + UnifyNewlines(b)
    ensures UnifyNewlines("\r\n") == "\n" && UnifyNewlines("\r") == "\n"
    ensures '\r' !in UnifyNewlines(a) && ('\r' !in a ==> UnifyNewlines(a) == a)
    decreases |a|
  {
    hide UnifyNewlines;
    NewlineForms();
    NoReturnLeft(a);
    if a == [] {
      assert a + b == b;
    } else {
      UnifyStep(a);
      UnifyStep(a + b);
      var k := if a[0] == '\r' && |a| > 1 && a[1] == '\n' then 2 else 1;
      RestOfBoth(a, b, k);
      NewlinesUnified(a[k..], b);
      var head := if a[0] == '\r' then ['\n'] else [a[0]];
      Regrouped(head, UnifyNewlines(a[k..]), UnifyNewlines(b));
    }
  }

  lemma RestOfBoth(a: string, b: string, k: nat)
    requires 0 < k <= |a|
    ensures (a + b)[k..] == a[k..] + b && (a + b)[0] == a[0]
    ensures |a| > 1 ==> (a + b)[1] == a[1]
    ensures |a| == 1 && b != [] ==> (a + b)[1] == b[0]
    ensures a[k..] != [] ==> a[k..][|a[k..]| - 1] == a[|a| - 1]
  {
  }

  lemma Regrouped(a: string, b: string, c: string)
    ensures a + (b + c) == a + b + c
  {
  }

  /** Two contents have one dedupe key if and only if they are in one namespace and equal once newlines
      are unified, whitespace around them is trimmed and characters are normalised. */
  lemma DedupeKeysAgree(nfc: Normalizer, content: string, namespace: string, other: string, elsewhere: string)
    requires SEPARATOR !in namespace && SEPARATOR !in elsewhere
    ensures DedupeKey(nfc, content, namespace) == DedupeKey(nfc, other, elsewhere) <==>
              namespace == elsewhere && nfc(Trim(UnifyNewlines(content))) == nfc(Trim(UnifyNewlines(other)))
  {
    var x, y := nfc(Trim(UnifyNewlines(content))), nfc(Trim(UnifyNewlines(other)));
    if namespace + [SEPARATOR] + x == elsewhere + [SEPARATOR] + y {
      CutAtSeparator(namespace, x, elsewhere, y);
    }
  }

  // ---- feedback -----------------------------------------------------------------------

  /** The whole answer to feedback: new feedback on an existing version is added as it was given; known
      feedback changes nothing; a key in use by another event is a conflict. */
  lemma FeedbackAnswer(db: Tables, nfc: Normalizer, req: FeedbackRequest, now: string)
    requires Inv(db, nfc)
    ensures var r := FeedbackSpec(db, req, now);
            if req.eventId == "" || req.key == "" || req.recordId == "" then r == Err(InvalidInput)
            else if (req.recordId, req.revision) !in db.versions then r == Err(NotFound)
            else if req.eventId in db.feedback && db.feedback[req.eventId].key == req.key then r == Ok(db)
            else if exists id :: id in db.feedback && db.feedback[id].key == req.key then r == Err(Conflict)
            else if req.eventId in db.feedback then r == Err(IoError)
            else r == Ok(db.(feedback := db.feedback[req.eventId :=
                               Feedback(req.key, req.recordId, req.revision, req.helpful, now)]))
  {
    hide Complete, Provenance, HeadsOk, NoDuplicates, ReferencesOk, Projects, ProposalsOk;
    if id :| id in db.feedback && db.feedback[id].key == req.key {
      assert HasFeedbackKey(db, req.key, id);
    }
  }
}
