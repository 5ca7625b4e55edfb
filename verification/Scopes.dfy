/** Dotted scopes of sm_bridge/trust/delegation.py: coverage on strings is prefix order on label lists. */
module Scopes {
  import opened Wrappers
  import opened Separators

  function ScopeCovers(s: string, t: string): bool
  {
    t == s || s + "." <= t
  }

  /** `s.split(".")`. */
  function Labels(s: string): (labels: seq<string>)
    ensures labels != []
    decreases |s|
  {
    if '.' !in s then [s] else [BeforeFirst(s, '.')] + (LabelsTail(s); Labels(AfterFirst(s, '.')))
  }

  lemma {:induction false} LabelsTail(s: string)
    requires '.' in s
    ensures |AfterFirst(s, '.')| < |s|
    ensures s == BeforeFirst(s, '.') + ['.'] + AfterFirst(s, '.')
  {
    if s[0] != '.' {
      LabelsTail(s[1..]);
      assert s == [s[0]] + s[1..];
    }
  }

  lemma {:induction false} LabelsOfDotted(s: string, t: string)
    ensures Labels(s + ['.'] + t) == Labels(s) + Labels(t)
    decreases |s|
  {
    var st := s + ['.'] + t;
    assert st[|s|] == '.';
    if '.' in s {
      var (head, tail) := (BeforeFirst(s, '.'), AfterFirst(s, '.'));
      LabelsTail(s);
      var rest := tail + ['.'] + t;
      assert st == head + ['.'] + rest;
      PartitionOf(head, '.', rest);
      LabelsOfDotted(tail, t);
      assert Labels(st) == [head] + (Labels(tail) + Labels(t));
    } else {
      PartitionOf(s, '.', t);
    }
  }

  lemma {:induction false} LabelsPrefix(s: string, t: string)
    requires Labels(s) <= Labels(t)
    ensures ScopeCovers(s, t)
    decreases |s|
  {
    if '.' !in s {
      assert Labels(s) == [s];
      assert Labels(t)[0] == s;
      if '.' in t {
        LabelsTail(t);
      }
    } else {
      LabelsTail(s);
      var (head, tail) := (BeforeFirst(s, '.'), AfterFirst(s, '.'));
      assert Labels(s) == [head] + Labels(tail);
      assert Labels(t)[0] == head && |Labels(t)| >= 2;
      LabelsTail(t);
      var tail' := AfterFirst(t, '.');
      assert Labels(s)[1..] == Labels(tail) && Labels(t)[1..] == Labels(tail');
      LabelsPrefix(tail, tail');
      assert t == head + ['.'] + tail' && s == head + ['.'] + tail;
      if tail + "." <= tail' {
        assert s + "." == head + ['.'] + (tail + ".");
      }
    }
  }

  /** A scope covers another exactly when its labels are a prefix of the other's. */
  lemma CoversIsLabelPrefix(s: string, t: string)
    ensures ScopeCovers(s, t) <==> Labels(s) <= Labels(t)
  {
    hide Labels;
    if s + "." <= t {
      assert t == s + ['.'] + t[|s| + 1..];
      LabelsOfDotted(s, t[|s| + 1..]);
    }
    if Labels(s) <= Labels(t) {
      LabelsPrefix(s, t);
    }
  }

  /** Coverage is a partial order. */
  lemma CoversPartialOrder(a: string, b: string, c: string)
    ensures ScopeCovers(a, a)
    ensures ScopeCovers(a, b) && ScopeCovers(b, a) ==> a == b
    ensures ScopeCovers(a, b) && ScopeCovers(b, c) ==> ScopeCovers(a, c)
  {
    hide Labels;
    CoversIsLabelPrefix(a, b);
    CoversIsLabelPrefix(b, c);
    CoversIsLabelPrefix(a, c);
  }

  function Joined(labels: seq<string>): string
  {
    if labels == [] then "" else if |labels| == 1 then labels[0] else labels[0] + "." + Joined(labels[1..])
  }

  /** The labels are the parts between the dots, and nothing else is. */
  lemma {:induction false} LabelsJoined(s: string)
    ensures Joined(Labels(s)) == s && forall part <- Labels(s) :: '.' !in part
    decreases |s|
  {
    if '.' in s {
      LabelsTail(s);
      LabelsJoined(AfterFirst(s, '.'));
      assert Labels(s)[1..] == Labels(AfterFirst(s, '.'));
    }
  }

  /** Coverage by one of several scopes, on labels. */
  lemma {:induction false} CoveredIs(scope: string, parents: seq<string>)
    ensures Covered(scope, parents) <==> exists p <- parents :: Labels(p) <= Labels(scope)
  {
    hide ScopeCovers, Labels;
    forall p {
      CoversIsLabelPrefix(p, scope);
    }
  }

  lemma SubsetIs(child: seq<string>, parent: seq<string>)
    ensures Subset(child, parent) <==> forall c <- child :: exists p <- parent :: Labels(p) <= Labels(c)
  {
    hide Covered, Labels;
    forall c {
      CoveredIs(c, parent);
    }
  }

  predicate Covered(scope: string, parents: seq<string>)
  {
    exists p :: p in parents && ScopeCovers(p, scope)
  }

  predicate Subset(child: seq<string>, parent: seq<string>)
  {
    forall c :: c in child ==> Covered(c, parent)
  }

  /** `scope_subset`: all covered, or the first child scope that is not. */
  method ScopeSubset(child: seq<string>, parent: seq<string>) returns (ok: bool, uncovered: Option<string>)
    ensures ok <==> Subset(child, parent)
    ensures ok <==> forall c <- child :: exists p <- parent :: Labels(p) <= Labels(c)
    ensures ok <==> uncovered == None
    ensures !ok ==> exists i :: 0 <= i < |child| && uncovered == Some(child[i])
                              && !Covered(child[i], parent) && Subset(child[..i], parent)
  {
    hide Covered, Labels;
    SubsetIs(child, parent);
    for i := 0 to |child|
      invariant Subset(child[..i], parent)
    {
      var any := AnyCovers(child[i], parent);
      if !any {
        return false, Some(child[i]);
      }
    }
    assert child[..|child|] == child;
    return true, None;
  }

  method AnyCovers(scope: string, parents: seq<string>) returns (any: bool)
    ensures any <==> Covered(scope, parents)
    ensures any <==> exists p <- parents :: Labels(p) <= Labels(scope)
  {
    hide Labels;
    CoveredIs(scope, parents);
    for i := 0 to |parents|
      invariant forall j :: 0 <= j < i ==> !ScopeCovers(parents[j], scope)
    {
      if ScopeCovers(parents[i], scope) {
        return true;
      }
    }
    return false;
  }

  lemma SubsetReflexive(a: seq<string>)
    ensures Subset(a, a)
  {
    forall s | s in a ensures Covered(s, a) {
      assert ScopeCovers(s, s);
    }
  }

  lemma SubsetTransitive(a: seq<string>, b: seq<string>, c: seq<string>)
    requires Subset(a, b) && Subset(b, c)
    ensures Subset(a, c)
  {
    hide Labels, ScopeCovers;
    forall x | x in a ensures Covered(x, c) {
      var y :| y in b && ScopeCovers(y, x);
      var z :| z in c && ScopeCovers(z, y);
      CoversPartialOrder(z, y, x);
    }
  }
}
