/** The canonical tables and derived search tables of the memory store, and what each call does
    to them (crates/xuanling-memory/src/store/v2.rs, migrations/0001_memory_v2.sql). */
module MemoryTables {
  import opened Wrappers
  import opened Whitespace
  import opened TextOrder

  type Id = string

  const SEPARATOR: char := 0x1f as char

  // ---- scopes -------------------------------------------------------------------------

  datatype Scope = Global | Project(project: string) | Workspace(project: string, workspace: string)
  {
    predicate Valid()
    {
      match this
      case Global => true
      case Project(p) => p != [] && SEPARATOR !in p
      case Workspace(p, w) => p != [] && SEPARATOR !in p && w != [] && SEPARATOR !in w
    }

    function Key(): string
    {
      match this
      case Global => "global"
      case Project(p) => "project" + [SEPARATOR] + p
      case Workspace(p, w) => "workspace" + [SEPARATOR] + p + [SEPARATOR] + w
    }
  }

  /** The canonical key identifies a validated scope. */
  lemma ScopeKeyIsInjective(a: Scope, b: Scope)
    requires a.Valid() && b.Valid() && a.Key() == b.Key()
    ensures a == b
  {
    var k := a.Key();
    assert k[0] == b.Key()[0];
    if a.Project? && b.Project? {
      assert a.Key()[8..] == a.project && b.Key()[8..] == b.project;
    }
    if a.Workspace? && b.Workspace? {
      assert a.Key()[10..] == a.project + [SEPARATOR] + a.workspace;
      assert b.Key()[10..] == b.project + [SEPARATOR] + b.workspace;
      CutAtSeparator(a.project, a.workspace, b.project, b.workspace);
    }
  }

  lemma CutAtSeparator(p: string, w: string, p': string, w': string)
    requires SEPARATOR !in p && SEPARATOR !in p' && p + [SEPARATOR] + w == p' + [SEPARATOR] + w'
    ensures p == p' && w == w'
  {
    var s, s' := p + [SEPARATOR] + w, p' + [SEPARATOR] + w';
    assert s[|p|] == SEPARATOR && s'[|p'|] == SEPARATOR;
    assert forall i | 0 <= i < |p| :: s[i] == p[i] && p[i] in p;
    assert forall i | 0 <= i < |p'| :: s'[i] == p'[i] && p'[i] in p';
    assert |p| == |p'|;
    assert p == s[..|p|] && w == s[|p| + 1..];
    assert p' == s'[..|p'|] && w' == s'[|p'| + 1..];
  }

  // ---- rows ---------------------------------------------------------------------------

  datatype Kind = Fact | Preference | Procedure | Solution | Summary

  datatype Body = Body(kind: Kind, title: Option<string>, content: string, summary: Option<string>,
                       applicability: string, pinned: bool)

  datatype Payload = Payload(body: Body, tags: seq<string>)
  {
    predicate Valid()
    {
      !Blank(body.content) && forall k | 0 <= k < |tags| :: !Blank(tags[k])
    }
  }

  datatype Operation = Create | Replace | Archive

  datatype Status = Pending | Approved | Rejected

  /** The hashed text of a request: fields joined by the separator, the payload last. The payload's JSON
      contains no separator, so it is kept as the value it encodes. */
  datatype Digest = Digest(fields: string, payload: Option<Payload>)

  function OperationWord(operation: Operation): string
  {
    match operation case Create => "create" case Replace => "replace" case Archive => "archive"
  }

  function Decimal(n: nat): (s: string)
    ensures s != [] && SEPARATOR !in s
  {
    var digit := ('0' as int + n % 10) as char;
    if n < 10 then [digit] else Decimal(n / 10) + [digit]
  }

  /** request_digest. */
  function DigestOf(operation: Operation, namespace: string, scope: Scope, target: Option<Id>,
                    targetRevision: Option<nat>, payload: Option<Payload>): Digest
  {
    var t := if target.Some? then target.value else [];
    var r := if targetRevision.Some? then Decimal(targetRevision.value) else [];
    Digest(OperationWord(operation) + [SEPARATOR] + namespace + [SEPARATOR] + scope.Key() + [SEPARATOR] +
           t + [SEPARATOR] + r, payload)
  }

  datatype ContentSha = Sha256(content: string)

  datatype Proposal = Proposal(key: string, operation: Operation, namespace: string, scope: Scope,
                               target: Option<Id>, targetRevision: Option<nat>, payload: Option<Payload>,
                               digest: Digest, proposer: string, status: Status, revision: nat,
                               createdAt: string, decidedAt: Option<string>)

  datatype Version = Version(namespace: string, scope: Scope, body: Body, contentSha: ContentSha,
                             dedupeKey: string, proposalId: Id, createdAt: string)

  datatype RecordStatus = Active | Archived

  datatype Head = Head(namespace: string, scope: Scope, dedupeKey: string, current: nat,
                       status: RecordStatus, createdAt: string, updatedAt: string)

  datatype Decision = Approve | Reject

  datatype Review = Review(key: string, decision: Decision, reviewer: string, comment: Option<string>,
                           expectedRevision: nat, appliedRevision: Option<nat>, createdAt: string)

  datatype Feedback = Feedback(key: string, recordId: Id, revision: nat, helpful: bool, createdAt: string)

  datatype FtsRow = FtsRow(recordId: Id, title: Option<string>, content: string, summary: Option<string>, tags: string)

  type VersionKey = (Id, nat)

  datatype Tables = Tables(
    proposals: map<Id, Proposal>,
    versions: map<VersionKey, Version>,
    heads: map<Id, Head>,
    tags: set<(Id, nat, string)>,
    reviews: map<Id, Review>,
    feedback: map<Id, Feedback>,
    unicode: seq<FtsRow>,
    trigram: seq<FtsRow>)

  const EMPTY: Tables := Tables(map[], map[], map[], {}, map[], map[], [], [])

  // ---- derived values -----------------------------------------------------------------

  /** "\r\n" and "\r" both become "\n". */
  function UnifyNewlines(s: string): string
  {
    if s == [] then []
    else if s[0] == '\r' then "\n" + UnifyNewlines(if |s| > 1 && s[1] == '\n' then s[2..] else s[1..])
    else [s[0]] + UnifyNewlines(s[1..])
  }

  /** Unicode NFC is a parameter of the model. */
  type Normalizer = string -> string

  function DedupeKey(nfc: Normalizer, content: string, namespace: string): string
  {
    namespace + [SEPARATOR] + nfc(Trim(UnifyNewlines(content)))
  }

  function JoinTags(tags: seq<string>): string
  {
    if tags == [] then "" else if |tags| == 1 then tags[0] else tags[0] + " " + JoinTags(tags[1..])
  }

  function TagsOf(db: Tables, id: Id, revision: nat): set<string>
  {
    set row | row in db.tags && row.0 == id && row.1 == revision :: row.2
  }

  function TagRows(id: Id, revision: nat, tags: seq<string>): set<(Id, nat, string)>
  {
    set k | 0 <= k < |tags| :: (id, revision, tags[k])
  }

  function MakeRow(id: Id, body: Body, tags: seq<string>): FtsRow
  {
    FtsRow(id, body.title, body.content, body.summary, JoinTags(tags))
  }

  /** The row a rebuild from the canonical tables gives an active record. */
  function ProjectedRow(db: Tables, id: Id): FtsRow
    requires id in db.heads && (id, db.heads[id].current) in db.versions
  {
    var current := db.heads[id].current;
    MakeRow(id, db.versions[(id, current)].body, InOrder(TagsOf(db, id, current)))
  }

  function Without(rows: seq<FtsRow>, id: Id): seq<FtsRow>
  {
    if rows == [] then []
    else if rows[0].recordId == id then Without(rows[1..], id)
    else [rows[0]] + Without(rows[1..], id)
  }

  // ---- what the calls do --------------------------------------------------------------

  datatype Code = InvalidInput | Conflict | NotFound | IntegrityError | IoError

  datatype Change =
    | CreateRecord(payload: Payload)
    | ReplaceRecord(target: Id, targetRevision: nat, payload: Payload)
    | ArchiveRecord(target: Id, targetRevision: nat)

  datatype CandidateRequest = CandidateRequest(proposalId: Id, key: string, proposer: string,
                                               namespace: string, scope: Scope, change: Change)
  {
    predicate Valid()
    {
      namespace != [] && scope.Valid() && proposalId != [] && key != [] && proposer != [] &&
      match change
      case CreateRecord(p) => p.Valid()
      case ReplaceRecord(t, r, p) => t != [] && r != 0 && p.Valid()
      case ArchiveRecord(t, r) => t != [] && r != 0
    }

    function Operation(): Operation
    {
      match change
      case CreateRecord(_) => Create
      case ReplaceRecord(_, _, _) => Replace
      case ArchiveRecord(_, _) => Archive
    }

    function Target(): Option<Id>
    {
      if change.CreateRecord? then None else Some(change.target)
    }

    function TargetRevision(): Option<nat>
    {
      if change.CreateRecord? then None else Some(change.targetRevision)
    }

    function Payload(): Option<Payload>
    {
      if change.ArchiveRecord? then None else Some(change.payload)
    }

    function RequestDigest(): Digest
    {
      DigestOf(Operation(), namespace, scope, Target(), TargetRevision(), Payload())
    }

    function Row(now: string): Proposal
    {
      Proposal(key, Operation(), namespace, scope, Target(), TargetRevision(), Payload(), RequestDigest(), proposer,
               Pending, 1, now, None)
    }
  }

  ghost predicate HasKey(db: Tables, key: string, id: Id)
  {
    id in db.proposals && db.proposals[id].key == key
  }

  ghost function CandidateSpec(db: Tables, req: CandidateRequest, now: string): Result<Tables, Code>
  {
    if !req.Valid() then Err(InvalidInput)
    else if id :| HasKey(db, req.key, id) then
      if db.proposals[id].digest == req.RequestDigest() then Ok(db) else Err(Conflict)
    else if req.proposalId in db.proposals then Err(Conflict)
    else Ok(db.(proposals := db.proposals[req.proposalId := req.Row(now)]))
  }

  datatype ReviewRequest = ReviewRequest(key: string, reviewer: string, namespace: string, scope: Scope,
                                         proposalId: Id, expectedRevision: nat, decision: Decision,
                                         comment: Option<string>)
  {
    predicate Valid()
    {
      namespace != [] && scope.Valid() && key != [] && reviewer != [] && proposalId != [] && expectedRevision == 1
    }
  }

  /** An active record, other than `except`, with this dedupe key in exactly this scope. */
  ghost predicate ActiveDuplicate(db: Tables, namespace: string, scope: Scope, dedupeKey: string, except: Option<Id>)
  {
    exists id :: id in db.heads && OccupiesKey(db.heads[id], namespace, scope, dedupeKey) && except != Some(id)
  }

  predicate OccupiesKey(h: Head, namespace: string, scope: Scope, dedupeKey: string)
  {
    h.status.Active? && h.namespace == namespace && h.scope == scope && h.dedupeKey == dedupeKey
  }

  function NewVersion(nfc: Normalizer, req: ReviewRequest, payload: Payload, now: string): Version
  {
    Version(req.namespace, req.scope, payload.body, Sha256(payload.body.content),
            DedupeKey(nfc, payload.body.content, req.namespace), req.proposalId, now)
  }

  function NewRow(id: Id, payload: Payload): FtsRow
    requires Distinct(payload.tags)
  {
    MakeRow(id, payload.body, SortDistinct(payload.tags))
  }

  ghost function CreateSpec(db: Tables, nfc: Normalizer, req: ReviewRequest, payload: Payload,
                            now: string): Result<(Tables, nat), Code>
  {
    var id, v := req.proposalId, NewVersion(nfc, req, payload, now);
    if ActiveDuplicate(db, req.namespace, req.scope, v.dedupeKey, None) then Err(Conflict)
    else if (id, 1) in db.versions || id in db.heads then Err(Conflict)
    else if !Distinct(payload.tags) then Err(Conflict)
    else Ok((db.(versions := db.versions[(id, 1) := v],
                 heads := db.heads[id := Head(req.namespace, req.scope, v.dedupeKey, 1, Active, now, now)],
                 tags := db.tags + TagRows(id, 1, payload.tags),
                 unicode := db.unicode + [NewRow(id, payload)],
                 trigram := db.trigram + [NewRow(id, payload)]), 1))
  }

  ghost function ReplaceSpec(db: Tables, nfc: Normalizer, req: ReviewRequest, id: Id, target: nat, payload: Payload,
                             now: string): Result<(Tables, nat), Code>
  {
    if id !in db.heads || db.heads[id].namespace != req.namespace || db.heads[id].scope != req.scope then Err(NotFound)
    else
      var head, v := db.heads[id], NewVersion(nfc, req, payload, now);
      var k := head.current + 1;
      if !head.status.Active? || head.current != target then Err(Conflict)
      else if ActiveDuplicate(db, req.namespace, req.scope, v.dedupeKey, Some(id)) then Err(Conflict)
      else if (id, k) in db.versions || !Distinct(payload.tags) then Err(Conflict)
      else Ok((db.(versions := db.versions[(id, k) := v],
                   heads := db.heads[id := head.(current := k, dedupeKey := v.dedupeKey, updatedAt := now)],
                   tags := db.tags + TagRows(id, k, payload.tags),
                   unicode := Without(db.unicode, id) + [NewRow(id, payload)],
                   trigram := Without(db.trigram, id) + [NewRow(id, payload)]), k))
  }

  ghost function ArchiveSpec(db: Tables, req: ReviewRequest, id: Id, target: nat,
                             now: string): Result<(Tables, nat), Code>
  {
    if id !in db.heads || db.heads[id].namespace != req.namespace || db.heads[id].scope != req.scope then Err(NotFound)
    else if db.heads[id].current != target || db.heads[id].status.Archived? then Err(Conflict)
    else Ok((db.(heads := db.heads[id := db.heads[id].(status := Archived, updatedAt := now)],
                 unicode := Without(db.unicode, id),
                 trigram := Without(db.trigram, id)), target))
  }

  ghost function ApplySpec(db: Tables, nfc: Normalizer, req: ReviewRequest, p: Proposal,
                           now: string): Result<(Tables, nat), Code>
  {
    match p.operation
    case Create =>
      if p.payload.None? then Err(IntegrityError) else CreateSpec(db, nfc, req, p.payload.value, now)
    case Replace =>
      if p.target.None? || p.targetRevision.None? || p.targetRevision.value < 1 || p.payload.None? then
        Err(IntegrityError)
      else ReplaceSpec(db, nfc, req, p.target.value, p.targetRevision.value, p.payload.value, now)
    case Archive =>
      if p.target.None? || p.targetRevision.None? || p.targetRevision.value < 1 then Err(IntegrityError)
      else ArchiveSpec(db, req, p.target.value, p.targetRevision.value, now)
  }

  /** The terminal review row and the decided proposal. */
  function Decide(db: Tables, req: ReviewRequest, applied: Option<nat>, now: string): Tables
    requires req.proposalId in db.proposals
  {
    var p := db.proposals[req.proposalId];
    db.(reviews := db.reviews[req.proposalId :=
          Review(req.key, req.decision, req.reviewer, req.comment, req.expectedRevision, applied, now)],
        proposals := db.proposals[req.proposalId :=
          p.(status := if req.decision.Approve? then Approved else Rejected, revision := 2, decidedAt := Some(now))])
  }

  ghost predicate HasReviewKey(db: Tables, key: string, id: Id)
  {
    id in db.reviews && db.reviews[id].key == key
  }

  predicate InScope(db: Tables, id: Id, namespace: string, scope: Scope)
  {
    id in db.proposals && db.proposals[id].namespace == namespace && db.proposals[id].scope == scope
  }

  ghost function ReviewSpec(db: Tables, nfc: Normalizer, req: ReviewRequest, now: string): Result<Tables, Code>
  {
    if !req.Valid() then Err(InvalidInput)
    else if id :| HasReviewKey(db, req.key, id) then
      if id != req.proposalId then Err(Conflict)
      else if InScope(db, id, req.namespace, req.scope) then Ok(db) else Err(NotFound)
    else if !InScope(db, req.proposalId, req.namespace, req.scope) then Err(NotFound)
    else
      var p := db.proposals[req.proposalId];
      if !p.status.Pending? || p.revision != 1 || req.proposalId in db.reviews then Err(Conflict)
      else if req.decision.Reject? then Ok(Decide(db, req, None, now))
      else
        var applied := ApplySpec(db, nfc, req, p, now);
        if applied.Err? then Err(applied.error) else Ok(Decide(applied.value.0, req, Some(applied.value.1), now))
  }

  datatype FeedbackRequest = FeedbackRequest(eventId: Id, key: string, recordId: Id, revision: nat, helpful: bool)

  ghost predicate HasFeedbackKey(db: Tables, key: string, id: Id)
  {
    id in db.feedback && db.feedback[id].key == key
  }

  ghost function FeedbackSpec(db: Tables, req: FeedbackRequest, now: string): Result<Tables, Code>
  {
    if req.eventId == [] || req.key == [] || req.recordId == [] then Err(InvalidInput)
    else if (req.recordId, req.revision) !in db.versions then Err(NotFound)
    else if id :| HasFeedbackKey(db, req.key, id) then
      if id == req.eventId then Ok(db) else Err(Conflict)
    else if req.eventId in db.feedback then Err(IoError)
    else
      var event := Feedback(req.key, req.recordId, req.revision, req.helpful, now);
      Ok(db.(feedback := db.feedback[req.eventId := event]))
  }

  /** One call of the store, at some time. */
  datatype Call =
    | Candidate(candidate: CandidateRequest, at: string)
    | Decision(review: ReviewRequest, at: string)
    | Event(event: FeedbackRequest, at: string)

  ghost function CallSpec(db: Tables, nfc: Normalizer, call: Call): Result<Tables, Code>
  {
    match call
    case Candidate(req, now) => CandidateSpec(db, req, now)
    case Decision(req, now) => ReviewSpec(db, nfc, req, now)
    case Event(req, now) => FeedbackSpec(db, req, now)
  }

  /** A failed call writes nothing. */
  ghost function After(db: Tables, nfc: Normalizer, call: Call): Tables
  {
    var r := CallSpec(db, nfc, call);
    if r.Ok? then r.value else db
  }

  ghost function Run(nfc: Normalizer, calls: seq<Call>): Tables
  {
    if calls == [] then EMPTY else After(Run(nfc, calls[..|calls| - 1]), nfc, calls[|calls| - 1])
  }
}
