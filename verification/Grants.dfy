/** Authorization of a request by a grant, delegation to child grants and capability refresh
    (nakli-hub/internal/server/scope.go, nakli-hub/internal/server/handlers_grant.go,
    nakli-hub/internal/server/handlers_crate_pairing.go). */
module Grants {
  import opened Wrappers
  import opened Text
  import opened Caveats
  import CaveatAgreement

  datatype Scope = Scope(primitive: string, namespace: string, operations: seq<string>)

  datatype Grant = Grant(id: string, scope: Scope, caveats: seq<string>)

  // --- one request -----------------------------------------------------------------------------

  predicate ScopeAllows(scope: Scope, primitive: string, namespace: string, operation: string) {
    && (scope.primitive == "" || scope.primitive == primitive)
    && (namespace == "" || scope.namespace == "" || scope.namespace == "*" || scope.namespace == namespace)
    && (operation == "" || scope.operations == [] || operation in scope.operations)
  }

  datatype Authorization = OutOfScope | Evaluated(verdict: Verdict)

  // The request's namespace and operation are those of the context.
  function CheckAuth(g: Grant, primitive: string, ctx: Context, lib: Library, calls: seq<RateCall>): Authorization {
    if !ScopeAllows(g.scope, primitive, ctx.namespace, ctx.operation) then OutOfScope
    else Evaluated(HubEvaluate(g.caveats, ctx.(grantId := g.id), lib, calls))
  }

  /** Authorization on the fields: out of scope exactly for another primitive, another named namespace or an operation not
      listed, where the grant names any; otherwise the caveats decide, rate calls being counted against this grant. */
  lemma CheckAuthIsExact(g: Grant, primitive: string, ctx: Context, lib: Library, calls: seq<RateCall>)
    ensures var auth, s := CheckAuth(g, primitive, ctx, lib, calls), g.scope;
            var otherPrimitive := s.primitive != "" && s.primitive != primitive;
            var otherNamespace := ctx.namespace != "" && s.namespace != "" && s.namespace != "*" && s.namespace != ctx.namespace;
            var otherOperation := ctx.operation != "" && s.operations != [] && ctx.operation !in s.operations;
            && (auth == OutOfScope <==> otherPrimitive || otherNamespace || otherOperation)
            && (auth != OutOfScope ==> auth == Evaluated(HubEvaluate(g.caveats, ctx.(grantId := g.id), lib, calls)))
  {
  }

  method Contains(haystack: seq<string>, needle: string) returns (found: bool)
    ensures found <==> needle in haystack
  {
    var i := 0;
    while i < |haystack|
      invariant i <= |haystack| && needle !in haystack[..i]
    {
      if haystack[i] == needle {
        return true;
      }
      i := i + 1;
    }
    return false;
  }

  // --- delegation ------------------------------------------------------------------------------

  // The child must carry this parent caveat: it is neither blank nor an expiry.
  predicate MustCarry(c: string) {
    Trim(GoSpace, c) != "" && !("time < " <= Trim(GoSpace, c))
  }

  predicate Carried(c: string, child: seq<string>) {
    exists i :: 0 <= i < |child| && Trim(GoSpace, child[i]) == Trim(GoSpace, c)
  }

  // The first parent caveat the child lacks, trimmed; empty when it lacks none.
  function Missing(parent: seq<string>, child: seq<string>): string {
    if parent == [] then ""
    else if MustCarry(parent[0]) && !Carried(parent[0], child) then Trim(GoSpace, parent[0])
    else Missing(parent[1..], child)
  }

  // The same written out: some caveat of the parent, trimmed neither blank nor beginning with "time < ", is no trimmed caveat
  // of the child.
  ghost predicate Lacks(parent: seq<string>, child: seq<string>) {
    exists i :: 0 <= i < |parent| &&
      var t := Trim(GoSpace, parent[i]);
      t != "" && !("time < " <= t) && forall j :: 0 <= j < |child| ==> Trim(GoSpace, child[j]) != t
  }

  lemma MissingMeansLacks(parent: seq<string>, child: seq<string>)
    ensures Missing(parent, child) != "" <==> Lacks(parent, child)
  {
    NothingMissing(parent, child);
    if Missing(parent, child) != "" {
      var i :| 0 <= i < |parent| && MustCarry(parent[i]) && !Carried(parent[i], child);
      var t := Trim(GoSpace, parent[i]);
      assert t != "" && !("time < " <= t) && forall j :: 0 <= j < |child| ==> Trim(GoSpace, child[j]) != t;
    }
  }

  lemma {:induction false} NothingMissing(parent: seq<string>, child: seq<string>)
    ensures Missing(parent, child) == "" <==> forall i :: 0 <= i < |parent| && MustCarry(parent[i]) ==> Carried(parent[i], child)
  {
    if parent != [] {
      NothingMissing(parent[1..], child);
      if Missing(parent, child) == "" {
        forall i | 0 <= i < |parent| && MustCarry(parent[i]) ensures Carried(parent[i], child) {
          assert i > 0 ==> parent[i] == parent[1..][i - 1];
        }
      }
    }
  }

  /** What is reported missing is the first such parent caveat, trimmed. */
  lemma {:induction false} MissingIsFirst(parent: seq<string>, child: seq<string>) returns (i: nat)
    requires Missing(parent, child) != ""
    ensures i < |parent| && Missing(parent, child) == Trim(GoSpace, parent[i])
    ensures MustCarry(parent[i]) && !Carried(parent[i], child)
    ensures forall j :: 0 <= j < i && MustCarry(parent[j]) ==> Carried(parent[j], child)
  {
    if MustCarry(parent[0]) && !Carried(parent[0], child) {
      i := 0;
    } else {
      var k := MissingIsFirst(parent[1..], child);
      i := k + 1;
      assert forall j :: 0 < j <= i ==> parent[j] == parent[1..][j - 1];
    }
  }

  method MissingCaveats(parent: seq<string>, child: seq<string>) returns (missing: string)
    ensures missing == Missing(parent, child)
  {
    var have: set<string>, i := {}, 0;
    while i < |child|
      invariant i <= |child|
      invariant forall t :: t in have <==> exists j :: 0 <= j < i && Trim(GoSpace, child[j]) == t
    {
      have, i := have + {Trim(GoSpace, child[i])}, i + 1;
    }
    i := 0;
    while i < |parent|
      invariant i <= |parent| && Missing(parent, child) == Missing(parent[i..], child)
    {
      var tc := Trim(GoSpace, parent[i]);
      assert Carried(parent[i], child) <==> tc in have;
      if tc != "" && !("time < " <= tc) && tc !in have {
        return tc;
      }
      i := i + 1;
    }
    return "";
  }

  datatype ParentField = NoParent | BadBase64 | BadSignature | Unparsable | Parent(grant: Grant)

  datatype MintRequest = MintRequest(recipient: string, scope: Scope, caveats: seq<string>, expiresAt: Option<string>, parent: ParentField)

  datatype MintError = BadRequest | Unauthorized(answer: Authorization) | GrantInvalid | ScopeDenied | LacksCaveat(caveat: string)

  // Who mints, what is asked, and the surroundings: the strict flag, the request context, the new grant's id and the
  // text of the default expiry.
  datatype MintCall = MintCall(caller: Grant, request: MintRequest, strict: bool, ctx: Context, calls: seq<RateCall>, id: string, defaultExpiry: string)

  function MintContext(m: MintCall): Context {
    m.ctx.(operation := "mint", namespace := "", isDelegation := !m.request.parent.NoParent?)
  }

  // The child's scope and caveats against its parent's.
  function Narrowing(parent: Grant, request: MintRequest): Option<MintError> {
    var p, c := parent.scope, request.scope;
    if p.primitive != "" && p.primitive != c.primitive then Some(ScopeDenied)
    else if p.namespace != "" && p.namespace != "*" && p.namespace != c.namespace then Some(ScopeDenied)
    else if p.operations != [] && exists i :: 0 <= i < |c.operations| && c.operations[i] !in p.operations then Some(ScopeDenied)
    else if Missing(parent.caveats, request.caveats) != "" then Some(LacksCaveat(Missing(parent.caveats, request.caveats)))
    else None
  }

  function ParentError(request: MintRequest): Option<MintError> {
    match request.parent
    case NoParent => None
    case BadBase64 => Some(BadRequest)
    case BadSignature => Some(GrantInvalid)
    case Unparsable => Some(BadRequest)
    case Parent(g) => Narrowing(g, request)
  }

  function ChildOf(m: MintCall): Grant {
    Grant(m.id, m.request.scope, ["time < " + GetOr(m.request.expiresAt, m.defaultExpiry)] + m.request.caveats)
  }

  function Mint(m: MintCall, lib: Library): Result<Grant, MintError> {
    if m.request.recipient == "" || m.request.scope.primitive == "" then Err(BadRequest)
    else if m.strict && m.request.parent.NoParent? then Err(BadRequest)
    else
      var auth := CheckAuth(m.caller, "grant", MintContext(m), lib, m.calls);
      if auth.OutOfScope? || auth.verdict.Failed? then Err(Unauthorized(auth))
      else match ParentError(m.request) {
        case Some(e) => Err(e)
        case None => Ok(ChildOf(m))
      }
  }

  method CheckNarrowing(parent: Grant, request: MintRequest) returns (e: Option<MintError>)
    ensures e == Narrowing(parent, request)
  {
    var p, c := parent.scope, request.scope;
    if p.primitive != "" && p.primitive != c.primitive {
      return Some(ScopeDenied);
    }
    if p.namespace != "" && p.namespace != "*" && p.namespace != c.namespace {
      return Some(ScopeDenied);
    }
    if |p.operations| > 0 {
      var i := 0;
      while i < |c.operations|
        invariant i <= |c.operations| && forall j :: 0 <= j < i ==> c.operations[j] in p.operations
      {
        var found := Contains(p.operations, c.operations[i]);
        if !found {
          return Some(ScopeDenied);
        }
        i := i + 1;
      }
    }
    var missing := MissingCaveats(parent.caveats, request.caveats);
    return if missing != "" then Some(LacksCaveat(missing)) else None;
  }

  method HandleGrantMint(m: MintCall, lib: Library) returns (r: Result<Grant, MintError>)
    ensures r == Mint(m, lib)
  {
    if m.request.recipient == "" || m.request.scope.primitive == "" {
      return Err(BadRequest);
    }
    if m.strict && m.request.parent.NoParent? {
      return Err(BadRequest);
    }
    var auth := CheckAuth(m.caller, "grant", MintContext(m), lib, m.calls);
    if auth.OutOfScope? || auth.verdict.Failed? {
      return Err(Unauthorized(auth));
    }
    match m.request.parent {
      case NoParent =>
      case BadBase64 => return Err(BadRequest);
      case BadSignature => return Err(GrantInvalid);
      case Unparsable => return Err(BadRequest);
      case Parent(g) =>
        var e := CheckNarrowing(g, m.request);
        if e.Some? {
          return Err(e.value);
        }
    }
    return Ok(ChildOf(m));
  }

  // --- what a caveat list allows ---------------------------------------------------------------

  // Neither an expiry nor a rate limit: its answer depends on the request alone.
  predicate Durable(c: string) {
    var h := Classify(Trim(GoSpace, c));
    !h.BeforeHead? && !h.RateHead?
  }

  predicate Passes(c: string, ctx: Context, lib: Library) {
    HubOne(Trim(GoSpace, c), ctx, lib, []).failure == None
  }

  lemma DurableIsStateless(h: Head, ctx: Context, lib: Library, calls: seq<RateCall>, id: string)
    requires !h.RateHead?
    ensures HubCheck(h, ctx, lib, calls).calls == calls
    ensures HubCheck(h, ctx, lib, calls).failure == HubCheck(h, ctx.(grantId := id), lib, []).failure
  {
  }

  lemma FirstPasses(c: string, ctx: Context, lib: Library, calls: seq<RateCall>)
    requires HubOne(Trim(GoSpace, c), ctx, lib, calls).failure == None && !Classify(Trim(GoSpace, c)).RateHead?
    ensures Passes(c, ctx, lib)
  {
    DurableIsStateless(Classify(Trim(GoSpace, c)), ctx, lib, calls, ctx.grantId);
    assert ctx.(grantId := ctx.grantId) == ctx;
  }

  lemma {:induction false} PassedMeansEach(cs: seq<string>, ctx: Context, lib: Library, calls: seq<RateCall>, i: nat)
    requires HubEvaluate(cs, ctx, lib, calls).Passed? && i < |cs| && !Classify(Trim(GoSpace, cs[i])).RateHead?
    ensures Passes(cs[i], ctx, lib)
  {
    if i == 0 {
      FirstPasses(cs[0], ctx, lib, calls);
    } else {
      PassedMeansEach(cs[1..], ctx, lib, HubOne(Trim(GoSpace, cs[0]), ctx, lib, calls).calls, i - 1);
    }
  }

  lemma {:induction false} EachMeansPassed(cs: seq<string>, ctx: Context, lib: Library, calls: seq<RateCall>)
    requires forall i :: 0 <= i < |cs| ==> Durable(cs[i]) && Passes(cs[i], ctx, lib)
    ensures HubEvaluate(cs, ctx, lib, calls) == Passed(calls)
  {
    if cs != [] {
      DurableIsStateless(Classify(Trim(GoSpace, cs[0])), ctx, lib, calls, ctx.grantId);
      assert ctx.(grantId := ctx.grantId) == ctx;
      assert Durable(cs[0]) && Passes(cs[0], ctx, lib);
      EachMeansPassed(cs[1..], ctx, lib, calls);
    }
  }

  function DurableOf(cs: seq<string>): (r: seq<string>)
    ensures forall i :: 0 <= i < |r| ==> Durable(r[i]) && r[i] in cs
    ensures forall c :: c in cs && Durable(c) ==> c in r
  {
    if cs == [] then [] else (if Durable(cs[0]) then [cs[0]] else []) + DurableOf(cs[1..])
  }

  predicate NoBlanks(cs: seq<string>) {
    forall i :: 0 <= i < |cs| ==> Trim(GoSpace, cs[i]) != ""
  }

  // --- what a mint requires --------------------------------------------------------------------

  // Checked against the parent's fields, not against what the scopes allow; ScopeNarrowsExactly compares the two.
  predicate FieldsFit(parent: Scope, child: Scope) {
    && (parent.primitive == "" || child.primitive == parent.primitive)
    && (parent.namespace == "" || parent.namespace == "*" || child.namespace == parent.namespace)
    && (parent.operations == [] || forall op :: op in child.operations ==> op in parent.operations)
  }

  predicate CarriesAll(parent: seq<string>, child: seq<string>) {
    forall i :: 0 <= i < |parent| && MustCarry(parent[i]) ==> Carried(parent[i], child)
  }

  /** A grant is minted exactly for a complete request of an authorized caller that has no parent (unless one is demanded)
      or fits a readable, genuine parent's fields and carries each of its caveats that is neither blank nor an expiry. */
  lemma MintIsExact(m: MintCall, lib: Library)
    ensures Mint(m, lib).Ok? <==>
            && m.request.recipient != "" && m.request.scope.primitive != ""
            && (var auth := CheckAuth(m.caller, "grant", MintContext(m), lib, m.calls); auth.Evaluated? && auth.verdict.Passed?)
            && (match m.request.parent
                case NoParent => !m.strict
                case Parent(g) => FieldsFit(g.scope, m.request.scope) && CarriesAll(g.caveats, m.request.caveats)
                case _ => false)
    ensures Mint(m, lib).Ok? ==> Mint(m, lib) == Ok(ChildOf(m))
  {
    if m.request.parent.Parent? {
      NarrowingIsExact(m.request.parent.grant, m.request);
    }
  }

  lemma NarrowingIsExact(parent: Grant, request: MintRequest)
    ensures Narrowing(parent, request) == None <==> FieldsFit(parent.scope, request.scope) && CarriesAll(parent.caveats, request.caveats)
  {
    NothingMissing(parent.caveats, request.caveats);
    assert (forall op :: op in request.scope.operations ==> op in parent.scope.operations) <==>
           !(exists i :: 0 <= i < |request.scope.operations| && request.scope.operations[i] !in parent.scope.operations);
  }

  /** The answer to every other request, in the order of the checks. */
  lemma MintRefusals(m: MintCall, lib: Library)
    ensures var r, q := Mint(m, lib), m.request;
            var auth := CheckAuth(m.caller, "grant", m.ctx.(operation := "mint", namespace := "", isDelegation := !q.parent.NoParent?), lib, m.calls);
            var complete := q.recipient != "" && q.scope.primitive != "" && (m.strict ==> !q.parent.NoParent?);
            var allowed := complete && auth.Evaluated? && auth.verdict.Passed?;
            && (!complete ==> r == Err(BadRequest))
            && (complete && !allowed ==> r == Err(Unauthorized(auth)))
            && (allowed && (q.parent.BadBase64? || q.parent.Unparsable?) ==> r == Err(BadRequest))
            && (allowed && q.parent.BadSignature? ==> r == Err(GrantInvalid))
            && (allowed && q.parent.Parent? && !FieldsFit(q.parent.grant.scope, q.scope) ==> r == Err(ScopeDenied))
            && (allowed && q.parent.Parent? && FieldsFit(q.parent.grant.scope, q.scope) && !CarriesAll(q.parent.grant.caveats, q.caveats) ==>
                  r == Err(LacksCaveat(Missing(q.parent.grant.caveats, q.caveats))))
  {
    if m.request.parent.Parent? {
      RefusalOf(m.request.parent.grant, m.request);
    }
  }

  lemma RefusalOf(parent: Grant, request: MintRequest)
    ensures !FieldsFit(parent.scope, request.scope) ==> Narrowing(parent, request) == Some(ScopeDenied)
    ensures FieldsFit(parent.scope, request.scope) && !CarriesAll(parent.caveats, request.caveats) ==>
              Narrowing(parent, request) == Some(LacksCaveat(Missing(parent.caveats, request.caveats)))
  {
    NothingMissing(parent.caveats, request.caveats);
    assert (forall op :: op in request.scope.operations ==> op in parent.scope.operations) <==>
           !(exists i :: 0 <= i < |request.scope.operations| && request.scope.operations[i] !in parent.scope.operations);
  }

  /** What is minted, and by whom: a grant with the new id, the scope asked for and the caveats asked for behind the expiry, by
      a caller whose own scope covers minting and whose caveats pass for a mint. */
  lemma MintedGrant(m: MintCall, lib: Library)
    requires Mint(m, lib).Ok?
    ensures var g := Mint(m, lib).value;
            && g.id == m.id && g.scope == m.request.scope
            && g.caveats == ["time < " + if m.request.expiresAt.Some? then m.request.expiresAt.value else m.defaultExpiry] + m.request.caveats
    ensures m.caller.scope.primitive == "" || m.caller.scope.primitive == "grant"
    ensures m.caller.scope.operations == [] || "mint" in m.caller.scope.operations
    ensures HubEvaluate(m.caller.caveats,
                        m.ctx.(operation := "mint", namespace := "", isDelegation := !m.request.parent.NoParent?, grantId := m.caller.id),
                        lib, m.calls).Passed?
  {
    CheckAuthIsExact(m.caller, "grant", MintContext(m), lib, m.calls);
  }

  lemma NonDelegatableFails(c: string, ctx: Context, lib: Library)
    requires Trim(GoSpace, c) == "nondelegatable" && ctx.isDelegation
    ensures !Passes(c, ctx, lib) && !Classify(Trim(GoSpace, c)).RateHead?
  {
    CaveatAgreement.DelegationBranch(Trim(GoSpace, c));
  }

  /** A caller with a `nondelegatable` caveat mints no child of any parent. */
  lemma NonDelegatableCallersDoNotDelegate(m: MintCall, lib: Library, i: nat)
    requires i < |m.caller.caveats| && Trim(GoSpace, m.caller.caveats[i]) == "nondelegatable" && !m.request.parent.NoParent?
    ensures Mint(m, lib).Err?
  {
    if Mint(m, lib).Ok? {
      NonDelegatableFails(m.caller.caveats[i], MintContext(m).(grantId := m.caller.id), lib);
      PassedMeansEach(m.caller.caveats, MintContext(m).(grantId := m.caller.id), lib, m.calls, i);
      assert false;
    }
  }

  // --- narrowing at any depth ------------------------------------------------------------------

  // Each grant was minted from the one before it.
  ghost predicate Chain(chain: seq<Grant>, mints: seq<MintCall>, lib: Library) {
    && |chain| == |mints| + 1
    && forall k :: 0 <= k < |mints| ==> mints[k].request.parent == Parent(chain[k]) && Mint(mints[k], lib) == Ok(chain[k + 1])
  }

  predicate ScopeKept(parent: Grant, child: Grant) {
    child.scope.operations != [] || parent.scope.operations == []
  }

  lemma ScopeStep(parent: Grant, m: MintCall, lib: Library, primitive: string, namespace: string, operation: string)
    requires m.request.parent == Parent(parent) && Mint(m, lib).Ok? && ScopeKept(parent, ChildOf(m))
    requires ScopeAllows(m.request.scope, primitive, namespace, operation)
    ensures ScopeAllows(parent.scope, primitive, namespace, operation)
  {
    assert Narrowing(parent, m.request) == None;
  }

  lemma DurableIsCarried(c: string)
    requires Durable(c) && Trim(GoSpace, c) != ""
    ensures MustCarry(c)
  {
  }

  lemma CaveatStep(parent: Grant, m: MintCall, lib: Library, c: string)
    requires m.request.parent == Parent(parent) && Mint(m, lib).Ok?
    requires c in parent.caveats && MustCarry(c)
    ensures Carried(c, ChildOf(m).caveats)
  {
    assert Narrowing(parent, m.request) == None;
    NothingMissing(parent.caveats, m.request.caveats);
    var j :| 0 <= j < |parent.caveats| && parent.caveats[j] == c;
    assert Carried(parent.caveats[j], m.request.caveats);
    CarriedWithExpiry(c, m.request.caveats, "time < " + GetOr(m.request.expiresAt, m.defaultExpiry));
  }

  lemma CarriedWithExpiry(c: string, caveats: seq<string>, expiry: string)
    requires Carried(c, caveats)
    ensures Carried(c, [expiry] + caveats)
  {
    var i :| 0 <= i < |caveats| && Trim(GoSpace, caveats[i]) == Trim(GoSpace, c);
    assert ([expiry] + caveats)[i + 1] == caveats[i];
  }

  // The leaf carries every durable caveat of every ancestor.
  lemma {:induction false} LeafCarries(chain: seq<Grant>, mints: seq<MintCall>, lib: Library, k: nat, c: string)
    requires Chain(chain, mints, lib) && k < |chain| && forall a :: 0 <= a < |mints| ==> NoBlanks(chain[a].caveats)
    requires c in chain[k].caveats && Durable(c)
    ensures exists d :: d in Last(chain).caveats && Trim(GoSpace, d) == Trim(GoSpace, c)
    decreases |mints| - k
  {
    if k < |mints| {
      assert NoBlanks(chain[k].caveats) && Mint(mints[k], lib) == Ok(chain[k + 1]);
      DurableIsCarried(c);
      CaveatStep(chain[k], mints[k], lib, c);
      var i :| 0 <= i < |chain[k + 1].caveats| && Trim(GoSpace, chain[k + 1].caveats[i]) == Trim(GoSpace, c);
      LeafCarries(chain, mints, lib, k + 1, chain[k + 1].caveats[i]);
    }
  }

  lemma {:induction false} ScopeNarrows(chain: seq<Grant>, mints: seq<MintCall>, lib: Library, k: nat, primitive: string, ctx: Context)
    requires Chain(chain, mints, lib) && k < |chain| && forall a :: 0 <= a < |mints| ==> ScopeKept(chain[a], chain[a + 1])
    requires ScopeAllows(Last(chain).scope, primitive, ctx.namespace, ctx.operation)
    ensures ScopeAllows(chain[k].scope, primitive, ctx.namespace, ctx.operation)
    decreases |mints| - k
  {
    if k < |mints| {
      ScopeNarrows(chain, mints, lib, k + 1, primitive, ctx);
      assert Mint(mints[k], lib) == Ok(chain[k + 1]) && ScopeKept(chain[k], chain[k + 1]);
      ScopeStep(chain[k], mints[k], lib, primitive, ctx.namespace, ctx.operation);
    }
  }

  /** Delegation narrows at any depth: a request the leaf of a chain of mints authorizes is in the scope of every
      ancestor and passes all its caveats other than expiry and rate, when no step empties the operations list and no
      ancestor has a blank caveat. */
  lemma DelegationNarrows(chain: seq<Grant>, mints: seq<MintCall>, lib: Library, k: nat, primitive: string, ctx: Context, calls: seq<RateCall>)
    requires Chain(chain, mints, lib) && k < |chain|
    requires forall a :: 0 <= a < |mints| ==> ScopeKept(chain[a], chain[a + 1]) && NoBlanks(chain[a].caveats)
    requires var auth := CheckAuth(Last(chain), primitive, ctx, lib, calls); auth.Evaluated? && auth.verdict.Passed?
    ensures CheckAuth(chain[k].(caveats := DurableOf(chain[k].caveats)), primitive, ctx, lib, calls) == Evaluated(Passed(calls))
  {
    ScopeNarrows(chain, mints, lib, k, primitive, ctx);
    var leaf, cs, own := Last(chain), DurableOf(chain[k].caveats), ctx.(grantId := chain[k].id);
    forall i | 0 <= i < |cs| ensures Durable(cs[i]) && Passes(cs[i], own, lib) {
      LeafCarries(chain, mints, lib, k, cs[i]);
      var d :| d in leaf.caveats && Trim(GoSpace, d) == Trim(GoSpace, cs[i]);
      var j :| 0 <= j < |leaf.caveats| && leaf.caveats[j] == d;
      PassedMeansEach(leaf.caveats, ctx.(grantId := leaf.id), lib, calls, j);
      DurableIsStateless(Classify(Trim(GoSpace, d)), ctx.(grantId := leaf.id), lib, [], chain[k].id);
    }
    EachMeansPassed(cs, own, lib, calls);
  }

  // --- where narrowing fails -------------------------------------------------------------------

  function Longer(ops: seq<string>): (s: string)
    ensures s != "" && forall i :: 0 <= i < |ops| ==> |s| > |ops[i]|
  {
    if ops == [] then "x" else var t := Longer(ops[1..]); if |t| > |ops[0]| then t else ops[0] + "x"
  }

  /** A minted child's scope is inside its parent's exactly when it does not empty a non-empty operations list. */
  lemma ScopeNarrowsExactly(parent: Grant, m: MintCall, lib: Library)
    requires m.request.parent == Parent(parent) && Mint(m, lib).Ok?
    ensures ScopeKept(parent, ChildOf(m)) <==>
            forall primitive, namespace, operation ::
              ScopeAllows(m.request.scope, primitive, namespace, operation) ==> ScopeAllows(parent.scope, primitive, namespace, operation)
  {
    if ScopeKept(parent, ChildOf(m)) {
      forall primitive, namespace, operation | ScopeAllows(m.request.scope, primitive, namespace, operation)
        ensures ScopeAllows(parent.scope, primitive, namespace, operation)
      {
        ScopeStep(parent, m, lib, primitive, namespace, operation);
      }
    } else {
      var op := Longer(parent.scope.operations);
      assert ScopeAllows(m.request.scope, m.request.scope.primitive, "", op);
      assert !ScopeAllows(parent.scope, m.request.scope.primitive, "", op);
    }
  }

  // A blank caveat blocks its own grant.
  lemma {:induction false} BlankBlocks(cs: seq<string>, ctx: Context, lib: Library, calls: seq<RateCall>)
    requires !NoBlanks(cs)
    ensures HubEvaluate(cs, ctx, lib, calls).Failed?
  {
    if Trim(GoSpace, cs[0]) != "" {
      assert !NoBlanks(cs[1..]) by {
        var i :| 0 <= i < |cs| && Trim(GoSpace, cs[i]) == "";
        assert cs[1..][i - 1] == cs[i];
      }
      BlankBlocks(cs[1..], ctx, lib, HubOne(Trim(GoSpace, cs[0]), ctx, lib, calls).calls);
    } else {
      assert Classify("") == UnknownHead;
    }
  }

  function WithoutBlanks(cs: seq<string>): (r: seq<string>)
    ensures NoBlanks(r)
    ensures forall c :: c in cs && Trim(GoSpace, c) != "" ==> c in r
  {
    if cs == [] then [] else (if Trim(GoSpace, cs[0]) == "" then [] else [cs[0]]) + WithoutBlanks(cs[1..])
  }

  /** But the mint lets a child drop it. */
  lemma BlankCaveatIsDropped(parent: Grant, m: MintCall, lib: Library, primitive: string, ctx: Context, calls: seq<RateCall>)
    requires !NoBlanks(parent.caveats) && m.request.parent == Parent(parent) && m.request.caveats == WithoutBlanks(parent.caveats)
    requires m.request.scope == parent.scope
    ensures Narrowing(parent, m.request) == None
    ensures var auth := CheckAuth(parent, primitive, ctx, lib, calls); auth.OutOfScope? || auth.verdict.Failed?
  {
    BlankBlocks(parent.caveats, ctx.(grantId := parent.id), lib, calls);
    forall i | 0 <= i < |parent.caveats| && MustCarry(parent.caveats[i]) ensures Carried(parent.caveats[i], m.request.caveats) {
      var j :| 0 <= j < |m.request.caveats| && m.request.caveats[j] == parent.caveats[i];
    }
    NothingMissing(parent.caveats, m.request.caveats);
  }

  // Every request that passes the child's caveats passes the parent's, expiry and rate aside.
  ghost predicate CaveatsNarrow(parent: seq<string>, child: seq<string>, lib: Library) {
    forall ctx, calls :: HubEvaluate(child, ctx, lib, calls).Passed? ==> HubEvaluate(DurableOf(parent), ctx, lib, calls).Passed?
  }

  ghost predicate AdmitsNothing(cs: seq<string>, lib: Library) {
    forall ctx, calls :: HubEvaluate(cs, ctx, lib, calls).Failed?
  }

  lemma DurableCaveatsPass(parent: Grant, m: MintCall, lib: Library, ctx: Context, calls: seq<RateCall>)
    requires m.request.parent == Parent(parent) && Mint(m, lib).Ok? && NoBlanks(parent.caveats)
    requires HubEvaluate(ChildOf(m).caveats, ctx, lib, calls).Passed?
    ensures HubEvaluate(DurableOf(parent.caveats), ctx, lib, calls).Passed?
  {
    var cs, child := DurableOf(parent.caveats), ChildOf(m).caveats;
    forall i | 0 <= i < |cs| ensures Durable(cs[i]) && Passes(cs[i], ctx, lib) {
      DurableIsCarried(cs[i]);
      CaveatStep(parent, m, lib, cs[i]);
      var j :| 0 <= j < |child| && Trim(GoSpace, child[j]) == Trim(GoSpace, cs[i]);
      PassedMeansEach(child, ctx, lib, calls, j);
    }
    EachMeansPassed(cs, ctx, lib, calls);
  }

  lemma BlankIsDurable(cs: seq<string>)
    requires !NoBlanks(cs)
    ensures !NoBlanks(DurableOf(cs))
  {
    var i :| 0 <= i < |cs| && Trim(GoSpace, cs[i]) == "";
    assert Classify("") == UnknownHead;
    assert cs[i] in cs && Durable(cs[i]);
    var j :| 0 <= j < |DurableOf(cs)| && DurableOf(cs)[j] == cs[i];
  }

  /** A minted child's caveats imply its parent's, expiry and rate aside, exactly when the parent has no blank caveat or the
      child admits no request at all. */
  lemma CaveatsNarrowExactly(parent: Grant, m: MintCall, lib: Library)
    requires m.request.parent == Parent(parent) && Mint(m, lib).Ok?
    ensures CaveatsNarrow(parent.caveats, ChildOf(m).caveats, lib) <==> NoBlanks(parent.caveats) || AdmitsNothing(ChildOf(m).caveats, lib)
  {
    var child := ChildOf(m).caveats;
    if NoBlanks(parent.caveats) {
      forall ctx, calls | HubEvaluate(child, ctx, lib, calls).Passed? ensures HubEvaluate(DurableOf(parent.caveats), ctx, lib, calls).Passed? {
        DurableCaveatsPass(parent, m, lib, ctx, calls);
      }
    } else {
      BlankIsDurable(parent.caveats);
      forall ctx, calls ensures HubEvaluate(DurableOf(parent.caveats), ctx, lib, calls).Failed? {
        BlankBlocks(DurableOf(parent.caveats), ctx, lib, calls);
      }
    }
  }

  // A child without its parent's blank caveat, and the requests it admits.
  lemma BlankCaveatWidens(lib: Library, ctx: Context, t: int) returns (parent: Grant, m: MintCall)
    requires lib.Lawful() && FourDigitYear(t) && ctx.nowNanos < t * 1_000_000
    ensures parent.caveats == [""] && m.request.parent == Parent(parent) && Mint(m, lib) == Ok(ChildOf(m))
    ensures CheckAuth(ChildOf(m), "sync", ctx, lib, []) == Evaluated(Passed([]))
    ensures forall c, calls :: HubEvaluate(parent.caveats, c, lib, calls).Failed?
  {
    var scope := Scope("sync", "", []);
    parent := Grant("parent", scope, [""]);
    m := MintCall(Grant("caller", Scope("grant", "", []), []),
                  MintRequest("recipient", scope, [], Some(lib.isoString(t)), Parent(parent)), false, ctx, [], "child", "");
    assert Narrowing(parent, m.request) == None by {
      assert Trim(GoSpace, "") == "";
      NarrowingIsExact(parent, m.request);
    }
    ExpiryPasses(lib, ctx.(grantId := "child"), t);
    assert ChildOf(m).caveats == [Print(TimeBefore(t), lib)];
    assert !NoBlanks(parent.caveats) by { assert Trim(GoSpace, parent.caveats[0]) == ""; }
    forall c, calls ensures HubEvaluate(parent.caveats, c, lib, calls).Failed? {
      BlankBlocks(parent.caveats, c, lib, calls);
    }
  }

  lemma ExpiryPasses(lib: Library, ctx: Context, t: int)
    requires lib.Lawful() && FourDigitYear(t) && ctx.nowNanos < t * 1_000_000
    ensures HubEvaluate([Print(TimeBefore(t), lib)], ctx, lib, []) == Passed([])
  {
    var text := Print(TimeBefore(t), lib);
    CaveatAgreement.PrintedIsTrimmed(TimeBefore(t), lib);
    CaveatAgreement.PrintedHead(TimeBefore(t), lib);
    CaveatAgreement.TimeMeaning(TimeBefore(t), ctx, lib, []);
    assert HubEvaluate([text][1..], ctx, lib, []) == Passed([]);
  }

  /** The parent's expiry does not bound the child's: with any other expiry the mint answers the same. */
  lemma ExpiryIsUnbounded(m: MintCall, lib: Library, expiry: string)
    ensures var n := m.(request := m.request.(expiresAt := Some(expiry)));
            && (Mint(m, lib).Ok? <==> Mint(n, lib).Ok?)
            && (Mint(m, lib).Ok? ==> Mint(n, lib).value.caveats == ["time < " + expiry] + m.request.caveats)
  {
    var n := m.(request := m.request.(expiresAt := Some(expiry)));
    assert MintContext(m) == MintContext(n);
  }

  lemma ExpiryDecides(lib: Library, rest: seq<string>, ctx: Context, t: int, calls: seq<RateCall>)
    requires lib.Lawful() && FourDigitYear(t)
    ensures HubEvaluate([Print(TimeBefore(t), lib)] + rest, ctx, lib, calls) ==
            if ctx.nowNanos < t * 1_000_000 then HubEvaluate(rest, ctx, lib, calls) else Failed(Print(TimeBefore(t), lib), Unmet, calls)
  {
    CaveatAgreement.PrintedIsTrimmed(TimeBefore(t), lib);
    CaveatAgreement.PrintedHead(TimeBefore(t), lib);
    CaveatAgreement.TimeMeaning(TimeBefore(t), ctx, lib, calls);
    assert ([Print(TimeBefore(t), lib)] + rest)[1..] == rest;
  }

  // A grant with this expiry admits nothing from then on.
  lemma ExpiredGrantFails(g: Grant, t: int, ctx: Context, lib: Library, calls: seq<RateCall>)
    requires lib.Lawful() && FourDigitYear(t) && Print(TimeBefore(t), lib) in g.caveats && t * 1_000_000 <= ctx.nowNanos
    ensures HubEvaluate(g.caveats, ctx, lib, calls).Failed?
  {
    if HubEvaluate(g.caveats, ctx, lib, calls).Passed? {
      var c := TimeBefore(t);
      var i :| 0 <= i < |g.caveats| && g.caveats[i] == Print(c, lib);
      CaveatAgreement.PrintedIsTrimmed(c, lib);
      CaveatAgreement.PrintedHead(c, lib);
      CaveatAgreement.TimeMeaning(c, ctx, lib, []);
      PassedMeansEach(g.caveats, ctx, lib, calls, i);
      assert false;
    }
  }

  // Some request in this span of time passes the caveats.
  ghost predicate AdmitsWithin(cs: seq<string>, from: int, until: Option<int>, lib: Library) {
    exists ctx: Context, calls: seq<RateCall> ::
      from * 1_000_000 <= ctx.nowNanos && (until.Some? ==> ctx.nowNanos < until.value * 1_000_000) && HubEvaluate(cs, ctx, lib, calls).Passed?
  }

  /** A minted child outlives its parent's expiry exactly when the caveats asked for admit some request between the two
      expiries, so never when its own comes first. */
  lemma ChildOutlivesExactly(parent: Grant, m: MintCall, lib: Library, tp: int, tc: int)
    requires lib.Lawful() && FourDigitYear(tp) && FourDigitYear(tc)
    requires m.request.parent == Parent(parent) && Print(TimeBefore(tp), lib) in parent.caveats
    requires Mint(m, lib).Ok? && m.request.expiresAt == Some(lib.isoString(tc))
    ensures !AdmitsWithin(parent.caveats, tp, None, lib)
    ensures AdmitsWithin(ChildOf(m).caveats, tp, None, lib) <==> AdmitsWithin(m.request.caveats, tp, Some(tc), lib)
    ensures AdmitsWithin(ChildOf(m).caveats, tp, None, lib) ==> tp < tc
  {
    var child := ChildOf(m).caveats;
    assert child == [Print(TimeBefore(tc), lib)] + m.request.caveats;
    forall ctx: Context, calls: seq<RateCall>
      ensures HubEvaluate(child, ctx, lib, calls).Passed? <==>
              ctx.nowNanos < tc * 1_000_000 && HubEvaluate(m.request.caveats, ctx, lib, calls).Passed?
    {
      ExpiryDecides(lib, m.request.caveats, ctx, tc, calls);
    }
    forall ctx: Context, calls: seq<RateCall> | tp * 1_000_000 <= ctx.nowNanos ensures HubEvaluate(parent.caveats, ctx, lib, calls).Failed? {
      ExpiredGrantFails(parent, tp, ctx, lib, calls);
    }
  }

  lemma ExpiryIsNotCarried(lib: Library, t: int)
    requires lib.Lawful() && FourDigitYear(t)
    ensures !MustCarry(Print(TimeBefore(t), lib))
  {
    CaveatAgreement.PrintedIsTrimmed(TimeBefore(t), lib);
  }

  /** Such a child: minted from a parent that expires at tp, and authorized at any moment from tp to its own expiry, when the
      parent is not. */
  lemma ChildOutlivesParent(lib: Library, ctx: Context, tp: int, tc: int) returns (parent: Grant, m: MintCall)
    requires lib.Lawful() && FourDigitYear(tp) && FourDigitYear(tc) && tp * 1_000_000 <= ctx.nowNanos < tc * 1_000_000
    ensures parent.caveats == [Print(TimeBefore(tp), lib)] && m.request.parent == Parent(parent) && Mint(m, lib) == Ok(ChildOf(m))
    ensures CheckAuth(ChildOf(m), "sync", ctx, lib, []) == Evaluated(Passed([]))
    ensures var auth := CheckAuth(parent, "sync", ctx, lib, []); auth.Evaluated? && auth.verdict.Failed?
  {
    var scope := Scope("sync", "", []);
    parent := Grant("parent", scope, [Print(TimeBefore(tp), lib)]);
    m := MintCall(Grant("caller", Scope("grant", "", []), []),
                  MintRequest("recipient", scope, [], Some(lib.isoString(tc)), Parent(parent)), false, ctx, [], "child", "");
    ExpiryIsNotCarried(lib, tp);
    NarrowingIsExact(parent, m.request);
    assert ChildOf(m).caveats == [Print(TimeBefore(tc), lib)];
    ExpiryPasses(lib, ctx.(grantId := "child"), tc);
    ExpiredGrantFails(parent, tp, ctx.(grantId := "parent"), lib, []);
  }

  /** A child minted with its parent's operations list emptied: any other operation is in its scope and not in the
      parent's. */
  lemma EmptiedOperationsWiden(lib: Library, ctx: Context, t: int, allowed: string) returns (parent: Grant, m: MintCall)
    requires lib.Lawful() && FourDigitYear(t) && ctx.nowNanos < t * 1_000_000 && ctx.operation != "" && ctx.operation != allowed
    ensures parent.scope == Scope("sync", "", [allowed]) && m.request.parent == Parent(parent) && Mint(m, lib) == Ok(ChildOf(m))
    ensures CheckAuth(ChildOf(m), "sync", ctx, lib, []) == Evaluated(Passed([])) && CheckAuth(parent, "sync", ctx, lib, []) == OutOfScope
  {
    parent := Grant("parent", Scope("sync", "", [allowed]), []);
    m := MintCall(Grant("caller", Scope("grant", "", []), []),
                  MintRequest("recipient", Scope("sync", "", []), [], Some(lib.isoString(t)), Parent(parent)), false, ctx, [], "child", "");
    NarrowingIsExact(parent, m.request);
    assert ChildOf(m).caveats == [Print(TimeBefore(t), lib)];
    ExpiryPasses(lib, ctx.(grantId := "child"), t);
  }

  // --- capability refresh ----------------------------------------------------------------------

  predicate IsExpiry(c: string) {
    "time < " <= Trim(GoSpace, c)
  }

  function OtherCaveats(cs: seq<string>): seq<string> {
    if cs == [] then []
    else (if IsExpiry(cs[0]) then [] else [Trim(GoSpace, cs[0])]) + OtherCaveats(cs[1..])
  }

  function Refreshed(cs: seq<string>, expiry: string): seq<string> {
    ["time < " + expiry] + OtherCaveats(cs)
  }

  method RefreshCaveats(cs: seq<string>, expiry: string) returns (newCaveats: seq<string>)
    ensures newCaveats == Refreshed(cs, expiry)
  {
    newCaveats := ["time < " + expiry];
    var i := 0;
    while i < |cs|
      invariant i <= |cs| && newCaveats + OtherCaveats(cs[i..]) == Refreshed(cs, expiry)
    {
      var tc := Trim(GoSpace, cs[i]);
      if !("time < " <= tc) {
        newCaveats := newCaveats + [tc];
      }
      i := i + 1;
    }
  }

  lemma {:induction false} OtherCaveatsDecide(cs: seq<string>, ctx: Context, lib: Library, calls: seq<RateCall>)
    requires forall i :: 0 <= i < |cs| && IsExpiry(cs[i]) ==> Passes(cs[i], ctx, lib)
    ensures HubEvaluate(OtherCaveats(cs), ctx, lib, calls) == HubEvaluate(cs, ctx, lib, calls)
  {
    if cs != [] {
      var t := Trim(GoSpace, cs[0]);
      TrimOfTrimmed(GoSpace, t);
      if IsExpiry(cs[0]) {
        DurableIsStateless(Classify(t), ctx, lib, calls, ctx.grantId);
        assert ctx.(grantId := ctx.grantId) == ctx;
        assert OtherCaveats(cs) == OtherCaveats(cs[1..]);
        OtherCaveatsDecide(cs[1..], ctx, lib, calls);
      } else {
        assert OtherCaveats(cs)[1..] == OtherCaveats(cs[1..]);
        OtherCaveatsDecide(cs[1..], ctx, lib, HubOne(t, ctx, lib, calls).calls);
      }
    }
  }

  /** A refreshed capability and the old one give every request that comes before both expiries the same verdict, the same
      failing caveat and the same rate calls. */
  lemma RefreshKeepsAuthority(cs: seq<string>, expiry: string, ctx: Context, lib: Library, calls: seq<RateCall>)
    requires Passes("time < " + expiry, ctx, lib) && "time < " <= Trim(GoSpace, "time < " + expiry)
    requires forall i :: 0 <= i < |cs| && IsExpiry(cs[i]) ==> Passes(cs[i], ctx, lib)
    ensures HubEvaluate(Refreshed(cs, expiry), ctx, lib, calls) == HubEvaluate(cs, ctx, lib, calls)
  {
    OtherCaveatsDecide(cs, ctx, lib, calls);
    var t := Trim(GoSpace, "time < " + expiry);
    DurableIsStateless(Classify(t), ctx, lib, calls, ctx.grantId);
    assert ctx.(grantId := ctx.grantId) == ctx;
    assert Refreshed(cs, expiry)[1..] == OtherCaveats(cs);
  }

  lemma {:induction false} OthersPass(cs: seq<string>, ctx: Context, lib: Library, calls: seq<RateCall>)
    requires forall i :: 0 <= i < |cs| ==> !Classify(Trim(GoSpace, cs[i])).RateHead?
    ensures HubEvaluate(OtherCaveats(cs), ctx, lib, calls).Passed? <==>
            forall i :: 0 <= i < |cs| && !IsExpiry(cs[i]) ==> Passes(cs[i], ctx, lib)
  {
    if cs != [] {
      var c := cs[0];
      OthersPass(cs[1..], ctx, lib, calls);
      assert forall i :: 0 < i < |cs| ==> cs[i] == cs[1..][i - 1];
      if IsExpiry(c) {
        assert OtherCaveats(cs) == OtherCaveats(cs[1..]);
      } else {
        assert OtherCaveats(cs) == [Trim(GoSpace, c)] + OtherCaveats(cs[1..]);
        TrimOfTrimmed(GoSpace, Trim(GoSpace, c));
        FirstDecides(Trim(GoSpace, c), OtherCaveats(cs[1..]), ctx, lib, calls);
      }
    }
  }

  lemma FirstDecides(c: string, rest: seq<string>, ctx: Context, lib: Library, calls: seq<RateCall>)
    requires Trim(GoSpace, c) == c && !Classify(c).RateHead?
    ensures HubEvaluate([c] + rest, ctx, lib, calls).Passed? <==> Passes(c, ctx, lib) && HubEvaluate(rest, ctx, lib, calls).Passed?
  {
    DurableIsStateless(Classify(c), ctx, lib, calls, ctx.grantId);
    assert ctx.(grantId := ctx.grantId) == ctx;
    assert ([c] + rest)[1..] == rest;
  }

  /** A refreshed capability lives exactly until its new expiry, the old ones no longer counting: of caveats without a rate
      limit, it admits a request exactly before that moment and when every caveat but the old expiries passes. */
  lemma RefreshIsExact(cs: seq<string>, t: int, ctx: Context, lib: Library, calls: seq<RateCall>)
    requires lib.Lawful() && FourDigitYear(t) && forall i :: 0 <= i < |cs| ==> !Classify(Trim(GoSpace, cs[i])).RateHead?
    ensures HubEvaluate(Refreshed(cs, lib.isoString(t)), ctx, lib, calls).Passed? <==>
            ctx.nowNanos < t * 1_000_000 && forall i :: 0 <= i < |cs| && !("time < " <= Trim(GoSpace, cs[i])) ==> Passes(cs[i], ctx, lib)
  {
    assert Refreshed(cs, lib.isoString(t)) == [Print(TimeBefore(t), lib)] + OtherCaveats(cs);
    ExpiryDecides(lib, OtherCaveats(cs), ctx, t, calls);
    OthersPass(cs, ctx, lib, calls);
  }
}
