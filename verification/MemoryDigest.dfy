/** How far the digest of a request identifies it (crates/xuanling-memory/src/store/v2.rs): the fields
    are joined by a character that namespaces and record ids may contain. */
module MemoryDigest {
  import opened Wrappers
  import opened MemoryTables

  lemma {:induction false} DecimalIsInjective(a: nat, b: nat)
    requires Decimal(a) == Decimal(b)
    ensures a == b
    decreases a
  {
    var s, t := Decimal(a), Decimal(b);
    assert s[|s| - 1] == t[|t| - 1];
    assert a % 10 == b % 10;
    if a >= 10 && b >= 10 {
      assert s[..|s| - 1] == Decimal(a / 10) && t[..|t| - 1] == Decimal(b / 10);
      DecimalIsInjective(a / 10, b / 10);
    }
  }

  /** A last field without the separator can be cut off. */
  lemma CutAtLast(p: string, w: string, p': string, w': string)
    requires SEPARATOR !in w && SEPARATOR !in w' && p + [SEPARATOR] + w == p' + [SEPARATOR] + w'
    ensures p == p' && w == w'
  {
    var s, s' := p + [SEPARATOR] + w, p' + [SEPARATOR] + w';
    assert forall i | |p| < i < |s| :: s[i] == w[i - |p| - 1] && w[i - |p| - 1] in w;
    assert forall i | |p'| < i < |s'| :: s'[i] == w'[i - |p'| - 1] && w'[i - |p'| - 1] in w';
    assert s[|p|] == SEPARATOR && s'[|p'|] == SEPARATOR;
    assert |p| == |p'|;
    assert p == s[..|p|] && p' == s'[..|p'|] && w == s[|p| + 1..] && w' == s'[|p'| + 1..];
  }

  lemma CutPrefix(p: string, w: string, w': string)
    requires p + w == p + w'
    ensures w == w'
  {
    assert w == (p + w)[|p|..] && w' == (p + w')[|p|..];
  }

  /** Everything after the namespace. */
  function AfterNamespace(scope: Scope, target: Option<Id>, targetRevision: Option<nat>): string
  {
    scope.Key() + [SEPARATOR] + AfterScope(target, targetRevision)
  }

  function AfterScope(target: Option<Id>, targetRevision: Option<nat>): string
  {
    (if target.Some? then target.value else []) + [SEPARATOR] +
    (if targetRevision.Some? then Decimal(targetRevision.value) else [])
  }

  lemma FieldsSplit(p: Proposal)
    ensures DigestOf(p.operation, p.namespace, p.scope, p.target, p.targetRevision, p.payload).fields ==
            OperationWord(p.operation) + [SEPARATOR] +
            (p.namespace + [SEPARATOR] + AfterNamespace(p.scope, p.target, p.targetRevision))
  {
    hide OperationWord, Decimal, Scope.Key;
    var t := if p.target.Some? then p.target.value else [];
    var r := if p.targetRevision.Some? then Decimal(p.targetRevision.value) else [];
    Regroup(OperationWord(p.operation), p.namespace, p.scope.Key(), t, r);
  }

  lemma Regroup(a: string, b: string, c: string, d: string, e: string)
    ensures a + [SEPARATOR] + b + [SEPARATOR] + c + [SEPARATOR] + d + [SEPARATOR] + e ==
            a + [SEPARATOR] + (b + [SEPARATOR] + (c + [SEPARATOR] + (d + [SEPARATOR] + e)))
  {
  }

  /** Proposals as they are stored: target and revision where the operation has them. */
  predicate Targeted(p: Proposal)
  {
    if p.operation.Create? then p.target.None? && p.targetRevision.None?
    else p.target.Some? && p.targetRevision.Some?
  }

  function DigestOfProposal(p: Proposal): Digest
  {
    DigestOf(p.operation, p.namespace, p.scope, p.target, p.targetRevision, p.payload)
  }

  lemma SameOperation(a: Proposal, b: Proposal)
    requires DigestOfProposal(a) == DigestOfProposal(b)
    ensures a.operation == b.operation
    ensures a.namespace + [SEPARATOR] + AfterNamespace(a.scope, a.target, a.targetRevision) ==
            b.namespace + [SEPARATOR] + AfterNamespace(b.scope, b.target, b.targetRevision)
  {
    FieldsSplit(a);
    FieldsSplit(b);
    hide AfterNamespace, DigestOf;
    var x := a.namespace + [SEPARATOR] + AfterNamespace(a.scope, a.target, a.targetRevision);
    var y := b.namespace + [SEPARATOR] + AfterNamespace(b.scope, b.target, b.targetRevision);
    CutAtSeparator(OperationWord(a.operation), x, OperationWord(b.operation), y);
    assert OperationWord(a.operation)[0] == OperationWord(b.operation)[0];
  }

  lemma SameTargets(a: Proposal, b: Proposal)
    requires Targeted(a) && Targeted(b) && a.operation == b.operation
    requires AfterScope(a.target, a.targetRevision) == AfterScope(b.target, b.targetRevision)
    ensures a.target == b.target && a.targetRevision == b.targetRevision
  {
    if !a.operation.Create? {
      CutAtLast(a.target.value, Decimal(a.targetRevision.value), b.target.value, Decimal(b.targetRevision.value));
      DecimalIsInjective(a.targetRevision.value, b.targetRevision.value);
    }
  }

  /** In one namespace and scope, equal digests mean the same change, whatever characters occur. */
  lemma SameChange(a: Proposal, b: Proposal)
    requires Targeted(a) && Targeted(b) && DigestOfProposal(a) == DigestOfProposal(b)
    requires a.namespace == b.namespace && a.scope == b.scope
    ensures a.operation == b.operation && a.target == b.target && a.targetRevision == b.targetRevision &&
            a.payload == b.payload
  {
    hide OperationWord, Decimal, AfterScope;
    SameOperation(a, b);
    CutPrefix(a.namespace + [SEPARATOR], AfterNamespace(a.scope, a.target, a.targetRevision),
              AfterNamespace(b.scope, b.target, b.targetRevision));
    CutPrefix(a.scope.Key() + [SEPARATOR], AfterScope(a.target, a.targetRevision),
              AfterScope(b.target, b.targetRevision));
    SameTargets(a, b);
  }

  /** A validated scope can be read back from what follows it. */
  lemma SameScope(a: Scope, b: Scope, x: string, y: string)
    requires a.Valid() && b.Valid() && a.Key() + [SEPARATOR] + x == b.Key() + [SEPARATOR] + y
    ensures a == b
  {
    KeyStarts(a, x);
    KeyStarts(b, y);
    hide Scope.Key;
    CutAtSeparator(ScopeWord(a), ScopeRest(a, x), ScopeWord(b), ScopeRest(b, y));
    assert ScopeWord(a)[0] == ScopeWord(b)[0];
    if a.Project? {
      CutAtSeparator(a.project, x, b.project, y);
    } else if a.Workspace? {
      CutAtSeparator(a.project, a.workspace + [SEPARATOR] + x, b.project, b.workspace + [SEPARATOR] + y);
      CutAtSeparator(a.workspace, x, b.workspace, y);
    }
  }

  function ScopeWord(scope: Scope): string
  {
    match scope case Global => "global" case Project(_) => "project" case Workspace(_, _) => "workspace"
  }

  function ScopeRest(scope: Scope, rest: string): string
  {
    match scope
    case Global => rest
    case Project(p) => p + [SEPARATOR] + rest
    case Workspace(p, w) => p + [SEPARATOR] + (w + [SEPARATOR] + rest)
  }

  lemma KeyStarts(scope: Scope, rest: string)
    ensures scope.Key() + [SEPARATOR] + rest == ScopeWord(scope) + [SEPARATOR] + ScopeRest(scope, rest)
  {
  }

  /** Where no namespace contains the separator, the digest identifies the whole request. */
  lemma DigestIsInjective(a: Proposal, b: Proposal)
    requires Targeted(a) && Targeted(b) && a.scope.Valid() && b.scope.Valid()
    requires SEPARATOR !in a.namespace && SEPARATOR !in b.namespace && DigestOfProposal(a) == DigestOfProposal(b)
    ensures a.namespace == b.namespace && a.scope == b.scope && a.operation == b.operation &&
            a.target == b.target && a.targetRevision == b.targetRevision && a.payload == b.payload
  {
    hide OperationWord, Decimal, AfterScope, Scope.Key, DigestOf;
    SameOperation(a, b);
    CutAtSeparator(a.namespace, AfterNamespace(a.scope, a.target, a.targetRevision),
                   b.namespace, AfterNamespace(b.scope, b.target, b.targetRevision));
    SameScope(a.scope, b.scope, AfterScope(a.target, a.targetRevision), AfterScope(b.target, b.targetRevision));
    SameChange(a, b);
  }

  /** Otherwise it need not: two requests for different scopes with one digest. */
  lemma DigestsCollide(payload: Payload)
    ensures var a := DigestOf(Create, "n", Project("global"), None, None, Some(payload));
            var b := DigestOf(Create, "n" + [SEPARATOR] + "project", Global, None, None, Some(payload));
            a == b
  {
  }
}
