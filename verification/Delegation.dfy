/**
 Delegation chains of sm_bridge/trust/delegation.py. Credentials arrive decoded; instants are real numbers;
 whether a signature verifies is a parameter.
 */
module Delegation {
  import opened Wrappers
  import opened Scopes

  datatype Window = Window(issued: real, expires: real)

  datatype Credential = Credential(
    id: string, schemaVersion: string, subjectDid: string, scopes: seq<string>, maxDepth: int,
    window: Option<Window>, parent: Option<string>)

  datatype StatusToken = StatusToken(status: string, exp: Option<real>)

  type Tokens = map<string, StatusToken>

  const SCHEMA_VERSION := "DELEGATION-V1"

  datatype ChainError =
    | NoId
    | WrongSchema
    | NoSubject
    | NoScopes
    | NegativeDepth
    | BadWindow
    | EmptyWindow
    | BrokenLinkage
    | NoToken
    | Revoked
    | NotActive
    | StaleToken
    | OutsideWindow
    | DepthExceeded
    | Escalation
    | NotNested

  // ----- the checks of one hop, in the source's order -------------------------------------

  function StructureError(c: Credential): Option<ChainError>
  {
    if c.id == "" then Some(NoId)
    else if c.schemaVersion != SCHEMA_VERSION then Some(WrongSchema)
    else if c.subjectDid == "" then Some(NoSubject)
    else if c.scopes == [] then Some(NoScopes)
    else if c.maxDepth < 0 then Some(NegativeDepth)
    else if c.window.None? then Some(BadWindow)
    else if !(c.window.value.expires > c.window.value.issued) then Some(EmptyWindow)
    else None
  }

  function TokenError(id: string, tokens: Tokens, now: real): Option<ChainError>
  {
    if id !in tokens then Some(NoToken)
    else
      var tok := tokens[id];
      if tok.status == "REVOKED" then Some(Revoked)
      else if tok.status != "ACTIVE" then Some(NotActive)
      else if tok.exp.None? || tok.exp.value < now then Some(StaleToken)
      else None
  }

  function HopError(chain: seq<Credential>, i: nat, provider: seq<string>, tokens: Tokens, now: real): Option<ChainError>
    requires i < |chain| && forall j :: 0 <= j < i ==> StructureError(chain[j]).None?
  {
    assert i > 0 ==> StructureError(chain[i - 1]).None?;
    var c := chain[i];
    if StructureError(c).Some? then StructureError(c)
    else if c.parent != (if i == 0 then None else Some(chain[i - 1].id)) then Some(BrokenLinkage)
    else if TokenError(c.id, tokens, now).Some? then TokenError(c.id, tokens, now)
    else if now < c.window.value.issued || !(now < c.window.value.expires) then Some(OutsideWindow)
    else if |chain| - 1 - i > c.maxDepth then Some(DepthExceeded)
    else if !Subset(c.scopes, if i == 0 then provider else chain[i - 1].scopes) then Some(Escalation)
    else if i > 0 && !Nested(c.window.value, chain[i - 1].window.value) then Some(NotNested)
    else None
  }

  predicate Nested(child: Window, parent: Window)
  {
    parent.issued <= child.issued && child.expires <= parent.expires
  }

  /** The first violation met from hop `i` on. */
  function FirstError(chain: seq<Credential>, i: nat, provider: seq<string>, tokens: Tokens, now: real): Option<ChainError>
    requires i <= |chain| && forall j :: 0 <= j < i ==> StructureError(chain[j]).None?
    decreases |chain| - i
  {
    if i == |chain| then None
    else
      var e := HopError(chain, i, provider, tokens, now);
      if e.Some? then e else FirstError(chain, i + 1, provider, tokens, now)
  }

  method ValidateStructure(c: Credential) returns (error: Option<ChainError>)
    ensures error == StructureError(c)
    ensures error.None? <==> WellFormed([c])
  {
    assert c in [c];
    if c.id == "" { return Some(NoId); }
    if c.schemaVersion != SCHEMA_VERSION { return Some(WrongSchema); }
    if c.subjectDid == "" { return Some(NoSubject); }
    if c.scopes == [] { return Some(NoScopes); }
    if c.maxDepth < 0 { return Some(NegativeDepth); }
    if c.window.None? { return Some(BadWindow); }
    if !(c.window.value.expires > c.window.value.issued) { return Some(EmptyWindow); }
    return None;
  }

  /** `_validate_chain`: the hop loop, stopping at the first violated rule. */
  method ValidateChain(chain: seq<Credential>, provider: seq<string>, tokens: Tokens, now: real)
    returns (error: Option<ChainError>)
    ensures error == FirstError(chain, 0, provider, tokens, now)
    ensures error.None? <==> Accepted(chain, provider, tokens, now)
    ensures error.None? <==> Lawful(chain, provider, tokens, now)
    ensures forall e :: error == Some(e) <==> exists i: nat :: FirstFault(chain, i, provider, tokens, now, e)
  {
    hide Subset, Labels, Lawful, FirstFault;
    LawfulIsAccepted(chain, provider, tokens, now);
    LoopIsRules(chain, provider, tokens, now);
    forall e {
      FirstErrorIs(chain, 0, provider, tokens, now, e);
    }
    for i := 0 to |chain|
      invariant forall j :: 0 <= j < i ==> StructureError(chain[j]).None?
      invariant FirstError(chain, i, provider, tokens, now) == FirstError(chain, 0, provider, tokens, now)
    {
      var c := chain[i];
      var malformed := ValidateStructure(c);
      if malformed.Some? { return malformed; }
      if i == 0 {
        if c.parent.Some? { return Some(BrokenLinkage); }
      } else {
        if c.parent != Some(chain[i - 1].id) { return Some(BrokenLinkage); }
      }
      if c.id !in tokens { return Some(NoToken); }
      var tok := tokens[c.id];
      if tok.status == "REVOKED" { return Some(Revoked); }
      if tok.status != "ACTIVE" { return Some(NotActive); }
      if tok.exp.None? || tok.exp.value < now { return Some(StaleToken); }
      var w := c.window.value;
      if now < w.issued || !(now < w.expires) { return Some(OutsideWindow); }
      var below := |chain| - 1 - i;
      if below > c.maxDepth { return Some(DepthExceeded); }
      if i == 0 {
        var ok, _ := ScopeSubset(c.scopes, provider);
        if !ok { return Some(Escalation); }
      } else {
        var parent := chain[i - 1];
        var ok, _ := ScopeSubset(c.scopes, parent.scopes);
        if !ok { return Some(Escalation); }
        if w.issued < parent.window.value.issued || w.expires > parent.window.value.expires {
          return Some(NotNested);
        }
      }
    }
    return None;
  }

  // ----- the declarative rules ------------------------------------------------------------

  ghost predicate WellFormed(chain: seq<Credential>)
  {
    forall c :: c in chain ==>
      && c.id != "" && c.schemaVersion == SCHEMA_VERSION && c.subjectDid != "" && c.scopes != [] && c.maxDepth >= 0
      && c.window.Some? && c.window.value.issued < c.window.value.expires
  }

  /** A hop names the one above it as its parent, and the first hop names none. */
  ghost predicate LinkedAt(chain: seq<Credential>, i: nat)
    requires i < |chain|
  {
    chain[i].parent == if i == 0 then None else Some(chain[i - 1].id)
  }

  ghost predicate Linked(chain: seq<Credential>)
  {
    forall i :: 0 <= i < |chain| ==> LinkedAt(chain, i)
  }

  /** Every hop has an ACTIVE token with an expiry. */
  ghost predicate AllActive(chain: seq<Credential>, tokens: Tokens)
  {
    forall c :: c in chain ==> c.id in tokens && tokens[c.id].status == "ACTIVE" && tokens[c.id].exp.Some?
  }

  ghost predicate DepthsFit(chain: seq<Credential>)
  {
    forall i :: 0 <= i < |chain| ==> |chain| - 1 - i <= chain[i].maxDepth
  }

  /** A hop's scopes are covered by those of the hop above it, the first hop's by the provider's. */
  ghost predicate NarrowAt(chain: seq<Credential>, provider: seq<string>, i: nat)
    requires i < |chain|
  {
    Subset(chain[i].scopes, if i == 0 then provider else chain[i - 1].scopes)
  }

  ghost predicate ScopesNarrow(chain: seq<Credential>, provider: seq<string>)
  {
    forall i :: 0 <= i < |chain| ==> NarrowAt(chain, provider, i)
  }

  ghost predicate WindowsNest(chain: seq<Credential>)
    requires WellFormed(chain)
  {
    forall i :: 0 < i < |chain| ==> Nested(chain[i].window.value, chain[i - 1].window.value)
  }

  /** The rules that do not look at the clock. */
  ghost predicate Static(chain: seq<Credential>, provider: seq<string>, tokens: Tokens)
  {
    && WellFormed(chain) && Linked(chain) && AllActive(chain, tokens) && DepthsFit(chain)
    && ScopesNarrow(chain, provider) && WindowsNest(chain)
  }

  ghost predicate AllTimely(chain: seq<Credential>, tokens: Tokens, now: real)
    requires WellFormed(chain) && AllActive(chain, tokens)
  {
    forall c :: c in chain ==>
      c.window.value.issued <= now < c.window.value.expires && now <= tokens[c.id].exp.value
  }

  ghost predicate Accepted(chain: seq<Credential>, provider: seq<string>, tokens: Tokens, now: real)
  {
    Static(chain, provider, tokens) && AllTimely(chain, tokens, now)
  }

  /** What hop `i` contributes to the rules. */
  ghost predicate HopOk(chain: seq<Credential>, i: nat, provider: seq<string>, tokens: Tokens, now: real)
    requires i < |chain|
  {
    var c := chain[i];
    && WellFormed([c])
    && LinkedAt(chain, i)
    && c.id in tokens && tokens[c.id].status == "ACTIVE" && tokens[c.id].exp.Some? && now <= tokens[c.id].exp.value
    && c.window.value.issued <= now < c.window.value.expires
    && |chain| - 1 - i <= c.maxDepth
    && NarrowAt(chain, provider, i)
    && (i > 0 && chain[i - 1].window.Some? ==> Nested(c.window.value, chain[i - 1].window.value))
  }

  lemma HopExact(chain: seq<Credential>, i: nat, provider: seq<string>, tokens: Tokens, now: real)
    requires i < |chain| && forall j :: 0 <= j < i ==> StructureError(chain[j]).None?
    ensures HopError(chain, i, provider, tokens, now).None? <==> HopOk(chain, i, provider, tokens, now)
  {
    assert chain[i] in [chain[i]];
  }

  lemma {:induction false} NoErrorFrom(chain: seq<Credential>, i: nat, provider: seq<string>, tokens: Tokens, now: real)
    requires i <= |chain| && forall j :: 0 <= j < i ==> StructureError(chain[j]).None?
    ensures FirstError(chain, i, provider, tokens, now).None?
            <==> forall j :: i <= j < |chain| ==> HopOk(chain, j, provider, tokens, now)
    decreases |chain| - i
  {
    hide HopError, HopOk;
    if i < |chain| {
      HopExact(chain, i, provider, tokens, now);
      if HopError(chain, i, provider, tokens, now).None? {
        HopStructure(chain, i, provider, tokens, now);
        NoErrorFrom(chain, i + 1, provider, tokens, now);
      }
    }
  }

  lemma HopStructure(chain: seq<Credential>, i: nat, provider: seq<string>, tokens: Tokens, now: real)
    requires i < |chain| && forall j :: 0 <= j < i ==> StructureError(chain[j]).None?
    requires HopError(chain, i, provider, tokens, now).None?
    ensures StructureError(chain[i]).None?
  {
  }

  lemma {:induction false} HopsMakeRules(chain: seq<Credential>, provider: seq<string>, tokens: Tokens, now: real)
    requires forall j :: 0 <= j < |chain| ==> HopOk(chain, j, provider, tokens, now)
    ensures Accepted(chain, provider, tokens, now)
  {
    forall c | c in chain
      ensures WellFormed([c]) && c.id in tokens && tokens[c.id].status == "ACTIVE" && tokens[c.id].exp.Some?
      ensures now <= tokens[c.id].exp.value && c.window.Some? && c.window.value.issued <= now < c.window.value.expires
    {
      var j :| 0 <= j < |chain| && chain[j] == c;
      assert HopOk(chain, j, provider, tokens, now);
      assert c in [c];
    }
    assert forall c :: c in chain ==> c in [c];
    assert WellFormed(chain);
    forall j | 0 <= j < |chain|
      ensures LinkedAt(chain, j) && NarrowAt(chain, provider, j) && |chain| - 1 - j <= chain[j].maxDepth
      ensures j > 0 ==> Nested(chain[j].window.value, chain[j - 1].window.value)
    {
      assert HopOk(chain, j, provider, tokens, now);
      assert j > 0 ==> chain[j - 1] in chain;
    }
  }

  lemma RulesMakeHop(chain: seq<Credential>, provider: seq<string>, tokens: Tokens, now: real, j: nat)
    requires j < |chain| && Accepted(chain, provider, tokens, now)
    ensures HopOk(chain, j, provider, tokens, now)
  {
    assert chain[j] in chain;
  }

  lemma HopsAreRules(chain: seq<Credential>, provider: seq<string>, tokens: Tokens, now: real)
    ensures Accepted(chain, provider, tokens, now)
            <==> forall j :: 0 <= j < |chain| ==> HopOk(chain, j, provider, tokens, now)
  {
    hide Accepted, HopOk;
    if forall j :: 0 <= j < |chain| ==> HopOk(chain, j, provider, tokens, now) {
      HopsMakeRules(chain, provider, tokens, now);
    }
    if Accepted(chain, provider, tokens, now) {
      forall j | 0 <= j < |chain| ensures HopOk(chain, j, provider, tokens, now) {
        RulesMakeHop(chain, provider, tokens, now, j);
      }
    }
  }

  /** The hop loop accepts exactly the chains that satisfy the rules. */
  lemma {:induction false} LoopIsRules(chain: seq<Credential>, provider: seq<string>, tokens: Tokens, now: real)
    ensures FirstError(chain, 0, provider, tokens, now).None? <==> Accepted(chain, provider, tokens, now)
  {
    hide HopOk, Accepted, FirstError;
    NoErrorFrom(chain, 0, provider, tokens, now);
    HopsAreRules(chain, provider, tokens, now);
  }

  // ----- the rules spelled out ------------------------------------------------------------

  /** Everything that is asked of hop `i`, scopes taken as dot-separated labels. */
  ghost predicate LawfulAt(chain: seq<Credential>, i: nat, provider: seq<string>, tokens: Tokens, now: real)
    requires i < |chain|
  {
    var c := chain[i];
    && c.id != "" && c.schemaVersion == "DELEGATION-V1" && c.subjectDid != "" && c.scopes != [] && c.maxDepth >= 0
    && c.window.Some? && c.window.value.issued < c.window.value.expires
    && c.parent == (if i == 0 then None else Some(chain[i - 1].id))
    && c.id in tokens && tokens[c.id].status == "ACTIVE" && tokens[c.id].exp.Some? && now <= tokens[c.id].exp.value
    && c.window.value.issued <= now < c.window.value.expires
    && |chain| - 1 - i <= c.maxDepth
    && (i == 0 ==> forall s <- c.scopes :: exists p <- provider :: Labels(p) <= Labels(s))
    && (i > 0 ==>
          && (forall s <- c.scopes :: exists p <- chain[i - 1].scopes :: Labels(p) <= Labels(s))
          && (chain[i - 1].window.Some? ==>
                && chain[i - 1].window.value.issued <= c.window.value.issued
                && c.window.value.expires <= chain[i - 1].window.value.expires))
  }

  ghost predicate Lawful(chain: seq<Credential>, provider: seq<string>, tokens: Tokens, now: real)
  {
    forall i :: 0 <= i < |chain| ==> LawfulAt(chain, i, provider, tokens, now)
  }

  /** Hop `i` breaks the rule that this error reports. */
  ghost predicate Broken(e: ChainError, chain: seq<Credential>, i: nat, provider: seq<string>, tokens: Tokens, now: real)
    requires i < |chain|
  {
    var c := chain[i];
    match e
    case NoId => c.id == ""
    case WrongSchema => c.schemaVersion != "DELEGATION-V1"
    case NoSubject => c.subjectDid == ""
    case NoScopes => c.scopes == []
    case NegativeDepth => c.maxDepth < 0
    case BadWindow => c.window == None
    case EmptyWindow => c.window.Some? && c.window.value.expires <= c.window.value.issued
    case BrokenLinkage => c.parent != (if i == 0 then None else Some(chain[i - 1].id))
    case NoToken => c.id !in tokens
    case Revoked => c.id in tokens && tokens[c.id].status == "REVOKED"
    case NotActive => c.id in tokens && tokens[c.id].status !in {"ACTIVE", "REVOKED"}
    case StaleToken => c.id in tokens && (tokens[c.id].exp == None || tokens[c.id].exp.value < now)
    case OutsideWindow => c.window.Some? && (now < c.window.value.issued || c.window.value.expires <= now)
    case DepthExceeded => |chain| - 1 - i > c.maxDepth
    case Escalation =>
      exists s <- c.scopes :: forall p <- (if i == 0 then provider else chain[i - 1].scopes) :: !(Labels(p) <= Labels(s))
    case NotNested =>
      && i > 0 && c.window.Some? && chain[i - 1].window.Some?
      && (c.window.value.issued < chain[i - 1].window.value.issued
          || chain[i - 1].window.value.expires < c.window.value.expires)
  }

  /** The order in which a hop's rules are tried. */
  function Rank(e: ChainError): nat
  {
    match e
    case NoId => 0
    case WrongSchema => 1
    case NoSubject => 2
    case NoScopes => 3
    case NegativeDepth => 4
    case BadWindow => 5
    case EmptyWindow => 6
    case BrokenLinkage => 7
    case NoToken => 8
    case Revoked => 9
    case NotActive => 10
    case StaleToken => 11
    case OutsideWindow => 12
    case DepthExceeded => 13
    case Escalation => 14
    case NotNested => 15
  }

  /** The rule is the first one that hop `i` breaks. */
  ghost predicate FaultAt(chain: seq<Credential>, i: nat, provider: seq<string>, tokens: Tokens, now: real, e: ChainError)
    requires i < |chain|
  {
    && Broken(e, chain, i, provider, tokens, now)
    && forall f :: Rank(f) < Rank(e) ==> !Broken(f, chain, i, provider, tokens, now)
  }

  /** And hop `i` is the first one that breaks any. */
  ghost predicate FirstFault(chain: seq<Credential>, i: nat, provider: seq<string>, tokens: Tokens, now: real, e: ChainError)
  {
    && i < |chain| && FaultAt(chain, i, provider, tokens, now, e)
    && forall j :: 0 <= j < i ==> LawfulAt(chain, j, provider, tokens, now)
  }

  lemma {:induction false} HopErrorIs(chain: seq<Credential>, i: nat, provider: seq<string>, tokens: Tokens, now: real)
    requires i < |chain| && forall j :: 0 <= j < i ==> StructureError(chain[j]).None?
    ensures match HopError(chain, i, provider, tokens, now)
            case None => LawfulAt(chain, i, provider, tokens, now)
            case Some(e) => FaultAt(chain, i, provider, tokens, now, e)
  {
    hide Labels, Subset;
    SubsetIs(chain[i].scopes, if i == 0 then provider else chain[i - 1].scopes);
  }

  /** A lawful hop breaks no rule, and two rules are never both the first. */
  lemma FaultUnique(chain: seq<Credential>, i: nat, provider: seq<string>, tokens: Tokens, now: real)
    requires i < |chain|
    ensures LawfulAt(chain, i, provider, tokens, now) ==> forall e :: !Broken(e, chain, i, provider, tokens, now)
    ensures forall e, f :: FaultAt(chain, i, provider, tokens, now, e) && FaultAt(chain, i, provider, tokens, now, f) ==> e == f
  {
    hide Labels;
    RankInjective();
  }

  lemma RankInjective()
    ensures forall e: ChainError, f: ChainError :: Rank(e) == Rank(f) ==> e == f
  {
  }

  lemma {:induction false} FirstErrorIs(chain: seq<Credential>, i: nat, provider: seq<string>, tokens: Tokens, now: real, e: ChainError)
    requires i <= |chain| && forall j :: 0 <= j < i ==> StructureError(chain[j]).None?
    requires forall j :: 0 <= j < i ==> LawfulAt(chain, j, provider, tokens, now)
    ensures FirstError(chain, i, provider, tokens, now) == Some(e)
            <==> exists k: nat :: k >= i && FirstFault(chain, k, provider, tokens, now, e)
    ensures FirstError(chain, i, provider, tokens, now) == None <==> Lawful(chain, provider, tokens, now)
    decreases |chain| - i
  {
    hide HopError, LawfulAt, FaultAt, Broken, StructureError;
    if i < |chain| {
      HopErrorIs(chain, i, provider, tokens, now);
      FaultOrLawful(chain, i, provider, tokens, now);
      if HopError(chain, i, provider, tokens, now).None? {
        HopStructure(chain, i, provider, tokens, now);
        FirstErrorIs(chain, i + 1, provider, tokens, now, e);
      } else {
        var f := HopError(chain, i, provider, tokens, now).value;
        assert FirstFault(chain, i, provider, tokens, now, f);
        assert FaultAt(chain, i, provider, tokens, now, f);
      }
    }
  }

  lemma FaultOrLawful(chain: seq<Credential>, i: nat, provider: seq<string>, tokens: Tokens, now: real)
    requires i < |chain|
    ensures forall e :: FaultAt(chain, i, provider, tokens, now, e) ==> !LawfulAt(chain, i, provider, tokens, now)
    ensures forall e, f :: FaultAt(chain, i, provider, tokens, now, e) && FaultAt(chain, i, provider, tokens, now, f) ==> e == f
  {
    hide LawfulAt, Broken;
    FaultUnique(chain, i, provider, tokens, now);
  }

  lemma LawfulIsAccepted(chain: seq<Credential>, provider: seq<string>, tokens: Tokens, now: real)
    ensures Lawful(chain, provider, tokens, now) <==> Accepted(chain, provider, tokens, now)
  {
    hide Lawful, Accepted, FirstError;
    LoopIsRules(chain, provider, tokens, now);
    FirstErrorIs(chain, 0, provider, tokens, now, NoId);
  }

  // ----- guarantees of whole chains -------------------------------------------------------

  lemma {:induction false} NarrowsDown(chain: seq<Credential>, provider: seq<string>, i: nat, j: nat)
    requires i <= j < |chain| && ScopesNarrow(chain, provider)
    ensures Subset(chain[j].scopes, chain[i].scopes) && Subset(chain[j].scopes, provider)
    decreases j
  {
    hide Subset;
    assert NarrowAt(chain, provider, j);
    if j == i {
      SubsetReflexive(chain[i].scopes);
    } else {
      NarrowsDown(chain, provider, i, j - 1);
      SubsetTransitive(chain[j].scopes, chain[j - 1].scopes, chain[i].scopes);
    }
    if j > 0 {
      NarrowsDown(chain, provider, j - 1, j - 1);
      SubsetTransitive(chain[j].scopes, chain[j - 1].scopes, provider);
    }
  }

  /** No escalation: in an accepted chain every scope of a hop is covered by a scope of every earlier hop
      and by some scope of the provider. */
  lemma NoEscalation(chain: seq<Credential>, provider: seq<string>, tokens: Tokens, now: real, i: nat, j: nat, scope: string)
    requires Accepted(chain, provider, tokens, now) && i <= j < |chain| && scope in chain[j].scopes
    ensures exists s :: s in chain[i].scopes && ScopeCovers(s, scope)
    ensures exists s :: s in provider && ScopeCovers(s, scope)
  {
    hide ScopeCovers;
    NarrowsDown(chain, provider, i, j);
    assert Covered(scope, chain[i].scopes) && Covered(scope, provider);
  }

  /** Whoever delegated an accepted chain could have exercised it: every prefix is accepted. */
  lemma {:induction false} PrefixAccepted(chain: seq<Credential>, provider: seq<string>, tokens: Tokens, now: real, n: nat)
    requires Accepted(chain, provider, tokens, now) && n <= |chain|
    ensures Accepted(chain[..n], provider, tokens, now)
  {
    var p := chain[..n];
    forall c | c in p ensures c in chain {
    }
    assert WellFormed(p) && AllActive(p, tokens) && AllTimely(p, tokens, now);
    forall i | 0 <= i < n
      ensures LinkedAt(p, i) && NarrowAt(p, provider, i) && |p| - 1 - i <= p[i].maxDepth
      ensures i > 0 ==> Nested(p[i].window.value, p[i - 1].window.value)
    {
      assert p[i] == chain[i] && (i > 0 ==> p[i - 1] == chain[i - 1]);
      assert LinkedAt(chain, i) && NarrowAt(chain, provider, i);
    }
  }

  /** The smallest expiry of the tokens of a chain. */
  function MinExpiry(chain: seq<Credential>, tokens: Tokens): (m: real)
    requires chain != [] && forall c :: c in chain ==> c.id in tokens && tokens[c.id].exp.Some?
    ensures exists c :: c in chain && tokens[c.id].exp.value == m
    ensures forall c :: c in chain ==> m <= tokens[c.id].exp.value
  {
    var last := tokens[chain[|chain| - 1].id].exp.value;
    var front := chain[..|chain| - 1];
    assert chain == front + [chain[|chain| - 1]];
    if front == [] then last
    else
      var m := MinExpiry(front, tokens);
      if last < m then last else m
  }

  lemma {:induction false} LastWindowInside(chain: seq<Credential>, i: nat)
    requires WellFormed(chain) && WindowsNest(chain) && i < |chain|
    ensures chain[i] in chain && chain[|chain| - 1] in chain
    ensures Nested(chain[|chain| - 1].window.value, chain[i].window.value)
    decreases |chain| - i
  {
    if i < |chain| - 1 {
      LastWindowInside(chain, i + 1);
      assert Nested(chain[i + 1].window.value, chain[i].window.value);
    }
  }

  /** For a fixed chain and fixed tokens the accepting instants are the last hop's window, cut at the
      smallest token expiry. */
  lemma {:induction false} AcceptingInstants(chain: seq<Credential>, provider: seq<string>, tokens: Tokens, now: real)
    requires chain != [] && Static(chain, provider, tokens)
    ensures var w := chain[|chain| - 1].window.value;
            Accepted(chain, provider, tokens, now) <==>
            w.issued <= now < w.expires && now <= MinExpiry(chain, tokens)
  {
    hide ScopesNarrow, Linked, DepthsFit, MinExpiry;
    var last := chain[|chain| - 1];
    assert last in chain;
    if last.window.value.issued <= now < last.window.value.expires && now <= MinExpiry(chain, tokens) {
      forall c | c in chain
        ensures c.window.value.issued <= now < c.window.value.expires && now <= tokens[c.id].exp.value
      {
        var i :| 0 <= i < |chain| && chain[i] == c;
        LastWindowInside(chain, i);
      }
    }
  }

  /** The smallest `i + maxDepth` over a chain: how many redelegations it leaves room for. */
  function DepthBudget(chain: seq<Credential>): (m: int)
    requires chain != []
    ensures exists i :: 0 <= i < |chain| && m == i + chain[i].maxDepth
    ensures forall i :: 0 <= i < |chain| ==> m <= i + chain[i].maxDepth
  {
    var n := |chain| - 1;
    if n == 0 then chain[0].maxDepth
    else
      var m := DepthBudget(chain[..n]);
      assert forall i :: 0 <= i < n ==> chain[..n][i] == chain[i];
      if n + chain[n].maxDepth < m then n + chain[n].maxDepth else m
  }

  /** The depth rule of every hop at once is one comparison with a running minimum. */
  lemma DepthsAreBudget(chain: seq<Credential>)
    requires chain != []
    ensures DepthsFit(chain) <==> |chain| - 1 <= DepthBudget(chain)
  {
    hide DepthBudget;
    var i :| 0 <= i < |chain| && DepthBudget(chain) == i + chain[i].maxDepth;
  }

  // ----- the profile ----------------------------------------------------------------------

  datatype Verdict = VERIFIED | FAILED | NOT_VERIFIED

  const MAX_CHAIN := 64

  datatype Evidence<Signature> = Evidence(
    chain: Option<seq<Credential>>, signatures: Option<map<string, Signature>>, provider: Option<seq<string>>,
    tokens: Tokens, now: real)

  /** `NandaDelegationProfile.verify`. */
  method Verify<Signature>(e: Evidence<Signature>, verifySignature: (Credential, Signature) -> bool)
    returns (verdict: Verdict)
    ensures verdict == VERIFIED <==>
            && e.chain.Some? && e.signatures.Some? && e.provider.Some?
            && 0 < |e.chain.value| <= 64
            && (forall c :: c in e.chain.value ==>
                  c.id in e.signatures.value && verifySignature(c, e.signatures.value[c.id]))
            && Lawful(e.chain.value, e.provider.value, e.tokens, e.now)
    ensures verdict == NOT_VERIFIED <==>
            || e.chain.None? || e.chain.value == []
            || (|e.chain.value| <= 64
                && (|| e.signatures.None? || e.provider.None?
                    || exists i :: 0 <= i < |e.chain.value| && FirstUnsigned(e.chain.value, i, e.signatures.value, verifySignature)))
  {
    hide Accepted, FirstError, Lawful;
    if e.chain.None? || e.chain.value == [] { return NOT_VERIFIED; }
    var chain := e.chain.value;
    if |chain| > MAX_CHAIN { return FAILED; }
    if e.signatures.None? { return NOT_VERIFIED; }
    if e.provider.None? { return NOT_VERIFIED; }
    var signatures := e.signatures.value;
    LawfulIsAccepted(chain, e.provider.value, e.tokens, e.now);
    for i := 0 to |chain|
      invariant forall j :: 0 <= j < i ==> chain[j].id != ""
      invariant forall j :: 0 <= j < i ==>
        chain[j].id in signatures && verifySignature(chain[j], signatures[chain[j].id])
    {
      var c := chain[i];
      assert c in chain;
      if c.id == "" {
        EmptyIdRejected(chain, c, e.provider.value, e.tokens, e.now);
        return FAILED;
      }
      if c.id !in signatures {
        assert FirstUnsigned(chain, i, signatures, verifySignature);
        return NOT_VERIFIED;
      }
      if !verifySignature(c, signatures[c.id]) { return FAILED; }
    }
    var error := ValidateChain(chain, e.provider.value, e.tokens, e.now);
    return if error.Some? then FAILED else VERIFIED;
  }

  /** The first hop that is not both identified and correctly signed is identified and has no signature. */
  ghost predicate FirstUnsigned<Signature>(chain: seq<Credential>, i: nat, signatures: map<string, Signature>,
                                           verifySignature: (Credential, Signature) -> bool)
    requires i < |chain|
  {
    && chain[i].id != "" && chain[i].id !in signatures
    && forall j {:trigger chain[j]} :: 0 <= j < i ==>
         chain[j].id != "" && chain[j].id in signatures && verifySignature(chain[j], signatures[chain[j].id])
  }

  lemma EmptyIdRejected(chain: seq<Credential>, c: Credential, provider: seq<string>, tokens: Tokens, now: real)
    requires c in chain && c.id == ""
    ensures !Accepted(chain, provider, tokens, now)
  {
  }
}
