/**
  The document queries of graphql-js's `ValidationContext` that the rules use:
  `getFragment`, `getFragmentSpreads` and `getRecursivelyReferencedFragments`.
 */
module Documents {
  import opened Wrappers
  import opened Ast
  import opened Visit

  function FragmentsOf(defs: seq<Definition>): (r: seq<Fragment>)
    ensures forall f :: f in r <==> FragmentDefinition(f) in defs
  {
    if |defs| == 0 then []
    else (if defs[0].FragmentDefinition? then [defs[0].frag] else []) + FragmentsOf(defs[1..])
  }

  /** The names of the fragments a document defines. */
  function FragmentNames(doc: Document): set<string> {
    set f | f in FragmentsOf(doc.definitions) :: f.name
  }

  function LastFragment(fs: seq<Fragment>, name: string): (r: Option<nat>)
    ensures r.None? <==> forall i :: 0 <= i < |fs| ==> fs[i].name != name
    ensures r.Some? ==> r.value < |fs| && fs[r.value].name == name
                        && forall j :: r.value < j < |fs| ==> fs[j].name != name
  {
    if |fs| == 0 then None
    else if fs[|fs| - 1].name == name then Some(|fs| - 1)
    else LastFragment(fs[..|fs| - 1], name)
  }

  /** `getFragment`: fragments are looked up by name, and a later definition replaces an earlier one. */
  function GetFragment(doc: Document, name: string): (r: Option<Fragment>)
    ensures r.None? <==> name !in FragmentNames(doc)
    ensures r.Some? ==> r.value.name == name && r.value in FragmentsOf(doc.definitions)
    ensures r.Some? ==>
      var fs := FragmentsOf(doc.definitions);
      exists i :: 0 <= i < |fs| && fs[i] == r.value && forall j :: i < j < |fs| ==> fs[j].name != name
  {
    var fs := FragmentsOf(doc.definitions);
    match LastFragment(fs, name)
    case None =>
      assert forall f :: f in fs ==> f.name != name;
      None
    case Some(i) => Some(fs[i])
  }

  /**
    `getFragmentSpreads`, keeping only the names: a selection set's own spreads
    in order, then, from a stack, the spreads under its child selection sets,
    the last child first.
   */
  function SpreadNames(sels: seq<Selection>): seq<string>
    decreases sels, 1
  {
    DirectSpreadNames(sels) + NestedSpreadNames(sels)
  }

  function DirectSpreadNames(sels: seq<Selection>): seq<string> {
    if |sels| == 0 then []
    else (if sels[0].FragmentSpread? then [sels[0].name] else []) + DirectSpreadNames(sels[1..])
  }

  /** A field without a selection set is not pushed; an inline fragment always has one. */
  function NestedSpreadNames(sels: seq<Selection>): seq<string>
    decreases sels, 0
  {
    if |sels| == 0 then []
    else
      NestedSpreadNames(sels[1..]) +
      match sels[0]
      case Field(_, _, _, _, children, _) => if |children| == 0 then [] else SpreadNames(children)
      case FragmentSpread(_, _) => []
      case InlineFragment(_, _, children) => SpreadNames(children)
  }

  /** An independent statement of which spreads occur under a selection set, at any depth. */
  predicate SpreadIn(s: Selection, name: string)
    decreases s
  {
    match s
    case Field(_, _, _, _, children, _) => SpreadOccurs(children, name)
    case FragmentSpread(n, _) => n == name
    case InlineFragment(_, _, children) => SpreadOccurs(children, name)
  }

  predicate SpreadOccurs(sels: seq<Selection>, name: string)
    decreases sels
  {
    exists i :: 0 <= i < |sels| && SpreadIn(sels[i], name)
  }

  lemma {:induction false} DirectSpreadNamesSpec(sels: seq<Selection>, name: string)
    ensures name in DirectSpreadNames(sels) <==>
            exists i :: 0 <= i < |sels| && sels[i].FragmentSpread? && sels[i].name == name
  {
    if |sels| > 0 {
      DirectSpreadNamesSpec(sels[1..], name);
      if exists i :: 0 <= i < |sels[1..]| && sels[1..][i].FragmentSpread? && sels[1..][i].name == name {
        var i :| 0 <= i < |sels[1..]| && sels[1..][i].FragmentSpread? && sels[1..][i].name == name;
        assert sels[i + 1] == sels[1..][i];
      }
      if exists i :: 0 <= i < |sels| && sels[i].FragmentSpread? && sels[i].name == name {
        var i :| 0 <= i < |sels| && sels[i].FragmentSpread? && sels[i].name == name;
        if i > 0 { assert sels[1..][i - 1] == sels[i]; }
      }
    }
  }

  /** The spreads `getFragmentSpreads` reports are exactly the spreads under the selection set. */
  lemma {:induction false} SpreadNamesComplete(sels: seq<Selection>, name: string)
    ensures name in SpreadNames(sels) <==> SpreadOccurs(sels, name)
    decreases sels, 1
  {
    DirectSpreadNamesSpec(sels, name);
    NestedSpreadNamesComplete(sels, name);
    if SpreadOccurs(sels, name) {
      var i :| 0 <= i < |sels| && SpreadIn(sels[i], name);
      if !sels[i].FragmentSpread? {
        assert exists i :: 0 <= i < |sels| && !sels[i].FragmentSpread? && SpreadIn(sels[i], name);
      }
    }
  }

  lemma {:induction false} NestedSpreadNamesComplete(sels: seq<Selection>, name: string)
    ensures name in NestedSpreadNames(sels) <==>
            exists i :: 0 <= i < |sels| && !sels[i].FragmentSpread? && SpreadIn(sels[i], name)
    decreases sels, 0
  {
    if |sels| > 0 {
      NestedSpreadNamesComplete(sels[1..], name);
      var here := match sels[0]
        case Field(_, _, _, _, children, _) => if |children| == 0 then [] else SpreadNames(children)
        case FragmentSpread(_, _) => []
        case InlineFragment(_, _, children) => SpreadNames(children);
      assert NestedSpreadNames(sels) == NestedSpreadNames(sels[1..]) + here;
      match sels[0]
      case Field(_, _, _, _, children, _) =>
        SpreadNamesComplete(children, name);
        assert name in here <==> SpreadIn(sels[0], name);
      case FragmentSpread(_, _) =>
      case InlineFragment(_, _, children) =>
        SpreadNamesComplete(children, name);
      if exists i :: 0 <= i < |sels[1..]| && !sels[1..][i].FragmentSpread? && SpreadIn(sels[1..][i], name) {
        var i :| 0 <= i < |sels[1..]| && !sels[1..][i].FragmentSpread? && SpreadIn(sels[1..][i], name);
        assert sels[i + 1] == sels[1..][i];
      }
      if exists i :: 0 <= i < |sels| && !sels[i].FragmentSpread? && SpreadIn(sels[i], name) {
        var i :| 0 <= i < |sels| && !sels[i].FragmentSpread? && SpreadIn(sels[i], name);
        if i > 0 { assert sels[1..][i - 1] == sels[i]; }
      }
    }
  }

  predicate DistinctNames(fs: seq<Fragment>) {
    forall i, j :: 0 <= i < j < |fs| ==> fs[i].name != fs[j].name
  }

  function NamesOf(fs: seq<Fragment>): set<string> {
    set f | f in fs :: f.name
  }

  function ToSet(names: seq<string>): set<string> {
    set n | n in names
  }

  /** `f` is what `getFragment` returns for its name. */
  predicate Defines(doc: Document, f: Fragment) {
    GetFragment(doc, f.name) == Some(f)
  }

  /**
    One pass of the worklist over the spreads of one selection set: each name
    not yet collected is collected, and its fragment, when the document has
    one, is appended.
   */
  function Collect(doc: Document, names: seq<string>, collected: set<string>): (r: (set<string>, seq<Fragment>))
    ensures r.0 == collected + ToSet(names)
  {
    if |names| == 0 then (collected, [])
    else
      var n := names[0];
      assert ToSet(names) == {n} + ToSet(names[1..]);
      if n in collected then Collect(doc, names[1..], collected)
      else
        var rest := Collect(doc, names[1..], collected + {n});
        match GetFragment(doc, n)
        case None => rest
        case Some(f) => (rest.0, [f] + rest.1)
  }

  lemma {:induction false} CollectSound(doc: Document, names: seq<string>, collected: set<string>)
    ensures var r := Collect(doc, names, collected);
            forall f :: f in r.1 ==> f.name in r.0 - collected && Defines(doc, f)
  {
    if |names| > 0 {
      var n := names[0];
      if n in collected {
        CollectSound(doc, names[1..], collected);
      } else {
        CollectSound(doc, names[1..], collected + {n});
      }
    }
  }

  lemma {:induction false} CollectComplete(doc: Document, names: seq<string>, collected: set<string>)
    ensures var r := Collect(doc, names, collected);
            forall n :: n in r.0 - collected && n in FragmentNames(doc) ==> n in NamesOf(r.1)
  {
    if |names| > 0 {
      var n := names[0];
      if n in collected {
        CollectComplete(doc, names[1..], collected);
      } else {
        CollectComplete(doc, names[1..], collected + {n});
        var rest := Collect(doc, names[1..], collected + {n});
        match GetFragment(doc, n)
        case None =>
        case Some(f) =>
          assert f in [f] + rest.1;
          forall m | m in NamesOf(rest.1) ensures m in NamesOf([f] + rest.1) {
            var g :| g in rest.1 && g.name == m;
            assert g in [f] + rest.1;
          }
      }
    }
  }

  lemma {:induction false} CollectDistinct(doc: Document, names: seq<string>, collected: set<string>)
    ensures DistinctNames(Collect(doc, names, collected).1)
  {
    if |names| > 0 {
      var n := names[0];
      if n in collected {
        CollectDistinct(doc, names[1..], collected);
      } else {
        CollectDistinct(doc, names[1..], collected + {n});
        CollectSound(doc, names[1..], collected + {n});
        var rest := Collect(doc, names[1..], collected + {n});
        assert forall g :: g in rest.1 ==> g.name != n;
        if GetFragment(doc, n).Some? {
          DistinctCons(GetFragment(doc, n).value, rest.1);
        }
      }
    }
  }

  lemma DistinctCons(f: Fragment, fs: seq<Fragment>)
    requires DistinctNames(fs) && forall g :: g in fs ==> g.name != f.name
    ensures DistinctNames([f] + fs)
  {
    var r := [f] + fs;
    forall i, j | 0 <= i < j < |r| ensures r[i].name != r[j].name {
      assert r[j] == fs[j - 1];
      if i > 0 { assert r[i] == fs[i - 1]; }
      else { assert r[j] in fs; }
    }
  }

  /** Every fragment collected uses up one of the document's not yet collected names. */
  lemma {:induction false} CollectCount(doc: Document, names: seq<string>, collected: set<string>)
    ensures var r := Collect(doc, names, collected);
            |FragmentNames(doc) - r.0| + |r.1| == |FragmentNames(doc) - collected|
  {
    if |names| > 0 {
      var n := names[0];
      var d := FragmentNames(doc);
      if n in collected {
        CollectCount(doc, names[1..], collected);
      } else {
        CollectCount(doc, names[1..], collected + {n});
        RemainingStep(d, collected, n);
      }
    }
  }

  /** Collecting a new name shrinks the names still to collect by one exactly when it is a document name. */
  lemma RemainingStep(d: set<string>, collected: set<string>, n: string)
    requires n !in collected
    ensures n in d ==> |d - collected| == |d - (collected + {n})| + 1
    ensures n !in d ==> d - (collected + {n}) == d - collected
  {
    if n in d {
      assert d - collected == (d - (collected + {n})) + {n};
    }
  }

  function SelectionSetsOf(fs: seq<Fragment>): (r: seq<seq<Selection>>)
    ensures |r| == |fs| && forall i :: 0 <= i < |fs| ==> r[i] == fs[i].selections
  {
    seq(|fs|, i requires 0 <= i < |fs| => fs[i].selections)
  }

  /**
    The worklist of `getRecursivelyReferencedFragments`: pop a selection set,
    collect the fragments of its spreads and push their selection sets. The
    result also carries the final set of collected names.
   */
  function Walk(doc: Document, stack: seq<seq<Selection>>, collected: set<string>): (r: (seq<Fragment>, set<string>))
    decreases |FragmentNames(doc) - collected|, |stack|
  {
    if |stack| == 0 then ([], collected)
    else
      var node := stack[|stack| - 1];
      var c := Collect(doc, SpreadNames(node), collected);
      CollectCount(doc, SpreadNames(node), collected);
      var rest := Walk(doc, stack[..|stack| - 1] + SelectionSetsOf(c.1), c.0);
      (c.1 + rest.0, rest.1)
  }

  lemma {:induction false} WalkSound(doc: Document, stack: seq<seq<Selection>>, collected: set<string>)
    ensures var r := Walk(doc, stack, collected);
            collected <= r.1 && forall f :: f in r.0 ==> f.name in r.1 - collected && Defines(doc, f)
    decreases |FragmentNames(doc) - collected|, |stack|
  {
    if |stack| > 0 {
      var node := stack[|stack| - 1];
      var c := Collect(doc, SpreadNames(node), collected);
      CollectCount(doc, SpreadNames(node), collected);
      CollectSound(doc, SpreadNames(node), collected);
      var next := stack[..|stack| - 1] + SelectionSetsOf(c.1);
      WalkSound(doc, next, c.0);
      var rest := Walk(doc, next, c.0);
      assert Walk(doc, stack, collected) == (c.1 + rest.0, rest.1);
      forall f | f in c.1 + rest.0 ensures f.name in rest.1 - collected && Defines(doc, f) {
        if f in c.1 {
          assert f.name in c.0 - collected;
        }
      }
    }
  }

  lemma {:induction false} WalkComplete(doc: Document, stack: seq<seq<Selection>>, collected: set<string>)
    ensures var r := Walk(doc, stack, collected);
            forall n :: n in r.1 - collected && n in FragmentNames(doc) ==> n in NamesOf(r.0)
    decreases |FragmentNames(doc) - collected|, |stack|
  {
    if |stack| > 0 {
      var node := stack[|stack| - 1];
      var c := Collect(doc, SpreadNames(node), collected);
      CollectCount(doc, SpreadNames(node), collected);
      CollectComplete(doc, SpreadNames(node), collected);
      var next := stack[..|stack| - 1] + SelectionSetsOf(c.1);
      WalkComplete(doc, next, c.0);
      WalkSound(doc, next, c.0);
      var rest := Walk(doc, next, c.0);
      var frags := c.1 + rest.0;
      forall n | n in rest.1 - collected && n in FragmentNames(doc) ensures n in NamesOf(frags) {
        if n in c.0 {
          var f :| f in c.1 && f.name == n;
          assert f in frags;
        } else {
          var f :| f in rest.0 && f.name == n;
          assert f in frags;
        }
      }
    }
  }

  lemma {:induction false} WalkDistinct(doc: Document, stack: seq<seq<Selection>>, collected: set<string>)
    ensures DistinctNames(Walk(doc, stack, collected).0)
    decreases |FragmentNames(doc) - collected|, |stack|
  {
    if |stack| > 0 {
      var node := stack[|stack| - 1];
      var c := Collect(doc, SpreadNames(node), collected);
      CollectCount(doc, SpreadNames(node), collected);
      CollectSound(doc, SpreadNames(node), collected);
      CollectDistinct(doc, SpreadNames(node), collected);
      var next := stack[..|stack| - 1] + SelectionSetsOf(c.1);
      WalkDistinct(doc, next, c.0);
      WalkSound(doc, next, c.0);
      var rest := Walk(doc, next, c.0);
      var frags := c.1 + rest.0;
      forall i, j | 0 <= i < j < |frags| ensures frags[i].name != frags[j].name {
        if j < |c.1| {
        } else if i >= |c.1| {
          assert frags[i] == rest.0[i - |c.1|] && frags[j] == rest.0[j - |c.1|];
        } else {
          assert frags[i] in c.1 && frags[j] in rest.0;
        }
      }
    }
  }

  /** `getRecursivelyReferencedFragments` of an operation. */
  function RecursivelyReferencedFragments(doc: Document, op: Operation): (r: seq<Fragment>)
    ensures forall f :: f in r ==> Defines(doc, f)
    ensures DistinctNames(r)
  {
    WalkSound(doc, [op.selections], {});
    WalkDistinct(doc, [op.selections], {});
    Walk(doc, [op.selections], {}).0
  }

  /** The fragment named `m` exists and spreads `n` somewhere under its selection set. */
  predicate Step(doc: Document, m: string, n: string) {
    GetFragment(doc, m).Some? && SpreadOccurs(GetFragment(doc, m).value.selections, n)
  }

  /** A chain of spreads starting under `root`, each name spread by the fragment before it. */
  predicate IsPath(doc: Document, root: seq<Selection>, p: seq<string>) {
    |p| > 0 && SpreadOccurs(root, p[0])
    && forall i :: 0 <= i < |p| - 1 ==> Step(doc, p[i], p[i + 1])
  }

  ghost predicate Reachable(doc: Document, root: seq<Selection>, n: string) {
    exists p :: IsPath(doc, root, p) && p[|p| - 1] == n
  }

  function SelectionsOfName(doc: Document, m: string): seq<Selection>
    requires m in FragmentNames(doc)
  {
    GetFragment(doc, m).value.selections
  }

  /** Every collected fragment either still waits on the stack or has all its spreads collected. */
  predicate ClosedOrPending(doc: Document, stack: seq<seq<Selection>>, collected: set<string>) {
    forall m :: m in collected && m in FragmentNames(doc) ==>
      SelectionsOfName(doc, m) in stack || ToSet(SpreadNames(SelectionsOfName(doc, m))) <= collected
  }

  lemma {:induction false} WalkCloses(doc: Document, stack: seq<seq<Selection>>, collected: set<string>)
    requires ClosedOrPending(doc, stack, collected)
    ensures var r := Walk(doc, stack, collected);
            (forall s :: s in stack ==> ToSet(SpreadNames(s)) <= r.1)
            && forall m :: m in r.1 && m in FragmentNames(doc) ==> ToSet(SpreadNames(SelectionsOfName(doc, m))) <= r.1
    decreases |FragmentNames(doc) - collected|, |stack|
  {
    if |stack| == 0 {
      return;
    }
    var node := stack[|stack| - 1];
    var c := Collect(doc, SpreadNames(node), collected);
    CollectCount(doc, SpreadNames(node), collected);
    CollectSound(doc, SpreadNames(node), collected);
    CollectComplete(doc, SpreadNames(node), collected);
    var next := stack[..|stack| - 1] + SelectionSetsOf(c.1);
    ClosedStep(doc, stack, collected);
    WalkCloses(doc, next, c.0);
    WalkSound(doc, next, c.0);
    forall s | s in stack ensures ToSet(SpreadNames(s)) <= Walk(doc, stack, collected).1 {
      if s != node {
        assert s in stack[..|stack| - 1];
        assert s in next;
      }
    }
  }

  /** Popping one selection set and collecting its spreads keeps `ClosedOrPending`. */
  lemma ClosedStep(doc: Document, stack: seq<seq<Selection>>, collected: set<string>)
    requires |stack| > 0 && ClosedOrPending(doc, stack, collected)
    ensures var c := Collect(doc, SpreadNames(stack[|stack| - 1]), collected);
            ClosedOrPending(doc, stack[..|stack| - 1] + SelectionSetsOf(c.1), c.0)
  {
    var node := stack[|stack| - 1];
    var c := Collect(doc, SpreadNames(node), collected);
    CollectSound(doc, SpreadNames(node), collected);
    CollectComplete(doc, SpreadNames(node), collected);
    var next := stack[..|stack| - 1] + SelectionSetsOf(c.1);
    forall m | m in c.0 && m in FragmentNames(doc)
      ensures SelectionsOfName(doc, m) in next || ToSet(SpreadNames(SelectionsOfName(doc, m))) <= c.0
    {
      if m in collected {
        if SelectionsOfName(doc, m) in stack && SelectionsOfName(doc, m) != node {
          StackPrefix(stack, SelectionsOfName(doc, m));
        }
      } else {
        var f :| f in c.1 && f.name == m;
        var k :| 0 <= k < |c.1| && c.1[k] == f;
        assert SelectionSetsOf(c.1)[k] == SelectionsOfName(doc, m);
      }
    }
  }

  lemma StackPrefix<T>(stack: seq<T>, x: T)
    requires x in stack && |stack| > 0 && x != stack[|stack| - 1]
    ensures x in stack[..|stack| - 1]
  {
    var k :| 0 <= k < |stack| && stack[k] == x;
    assert stack[..|stack| - 1][k] == x;
  }

  lemma {:induction false} PathCollected(doc: Document, root: seq<Selection>, p: seq<string>, closed: set<string>)
    requires IsPath(doc, root, p)
    requires ToSet(SpreadNames(root)) <= closed
    requires forall m :: m in closed && m in FragmentNames(doc) ==> ToSet(SpreadNames(SelectionsOfName(doc, m))) <= closed
    ensures p[|p| - 1] in closed
    decreases |p|
  {
    if |p| == 1 {
      SpreadNamesComplete(root, p[0]);
    } else {
      var q := p[..|p| - 1];
      assert IsPath(doc, root, q) by {
        forall i | 0 <= i < |q| - 1 ensures Step(doc, q[i], q[i + 1]) {
          assert q[i] == p[i] && q[i + 1] == p[i + 1];
        }
      }
      PathCollected(doc, root, q, closed);
      var m := p[|p| - 2];
      assert Step(doc, m, p[|p| - 1]);
      SpreadNamesComplete(SelectionsOfName(doc, m), p[|p| - 1]);
    }
  }

  /** Stack entries are the root or selection sets of reachable fragments; collected names are reachable. */
  ghost predicate ReachInvariant(doc: Document, root: seq<Selection>, stack: seq<seq<Selection>>, collected: set<string>) {
    (forall s :: s in stack ==> s == root || exists m :: m in FragmentNames(doc) && Reachable(doc, root, m) && s == SelectionsOfName(doc, m))
    && forall m :: m in collected ==> Reachable(doc, root, m)
  }

  lemma ExtendPath(doc: Document, root: seq<Selection>, m: string, n: string)
    requires Reachable(doc, root, m) && Step(doc, m, n)
    ensures Reachable(doc, root, n)
  {
    var p :| IsPath(doc, root, p) && p[|p| - 1] == m;
    var q := p + [n];
    assert forall i :: 0 <= i < |p| ==> q[i] == p[i];
    assert IsPath(doc, root, q);
  }

  lemma SpreadsReachable(doc: Document, root: seq<Selection>, node: seq<Selection>, n: string)
    requires node == root || exists m :: m in FragmentNames(doc) && Reachable(doc, root, m) && node == SelectionsOfName(doc, m)
    requires n in SpreadNames(node)
    ensures Reachable(doc, root, n)
  {
    SpreadNamesComplete(node, n);
    if node == root {
      assert IsPath(doc, root, [n]);
    } else {
      var m :| m in FragmentNames(doc) && Reachable(doc, root, m) && node == SelectionsOfName(doc, m);
      ExtendPath(doc, root, m, n);
    }
  }

  lemma {:induction false} WalkReaches(doc: Document, root: seq<Selection>, stack: seq<seq<Selection>>, collected: set<string>)
    requires ReachInvariant(doc, root, stack, collected)
    ensures forall n :: n in Walk(doc, stack, collected).1 ==> Reachable(doc, root, n)
    decreases |FragmentNames(doc) - collected|, |stack|
  {
    if |stack| > 0 {
      var node := stack[|stack| - 1];
      var c := Collect(doc, SpreadNames(node), collected);
      CollectCount(doc, SpreadNames(node), collected);
      ReachStep(doc, root, stack, collected);
      WalkReaches(doc, root, stack[..|stack| - 1] + SelectionSetsOf(c.1), c.0);
    }
  }

  /** Popping one selection set and collecting its spreads keeps `ReachInvariant`. */
  lemma ReachStep(doc: Document, root: seq<Selection>, stack: seq<seq<Selection>>, collected: set<string>)
    requires |stack| > 0 && ReachInvariant(doc, root, stack, collected)
    ensures var c := Collect(doc, SpreadNames(stack[|stack| - 1]), collected);
            ReachInvariant(doc, root, stack[..|stack| - 1] + SelectionSetsOf(c.1), c.0)
  {
    var node := stack[|stack| - 1];
    var c := Collect(doc, SpreadNames(node), collected);
    CollectSound(doc, SpreadNames(node), collected);
    var next := stack[..|stack| - 1] + SelectionSetsOf(c.1);
    assert node in stack;
    forall n | n in c.0 ensures Reachable(doc, root, n) {
      if n !in collected {
        SpreadsReachable(doc, root, node, n);
      }
    }
    forall s | s in next
      ensures s == root || exists m :: m in FragmentNames(doc) && Reachable(doc, root, m) && s == SelectionsOfName(doc, m)
    {
      if s in stack[..|stack| - 1] {
        var k :| 0 <= k < |stack| - 1 && stack[..|stack| - 1][k] == s;
        assert stack[k] == s;
        assert s in stack;
        assert s == root || exists m :: m in FragmentNames(doc) && Reachable(doc, root, m) && s == SelectionsOfName(doc, m);
      } else {
        var k :| 0 <= k < |c.1| && SelectionSetsOf(c.1)[k] == s;
        var f := c.1[k];
        assert f in c.1;
        assert f.name in c.0 && Defines(doc, f);
        assert Reachable(doc, root, f.name);
        assert f.name in FragmentNames(doc) && s == SelectionsOfName(doc, f.name);
        assert exists m :: m in FragmentNames(doc) && Reachable(doc, root, m) && s == SelectionsOfName(doc, m);
      }
    }
  }

  /**
    The fragments of `getRecursivelyReferencedFragments` are exactly the
    defined fragments reachable from the operation through chains of spreads.
   */
  lemma RecursivelyReferencedFragmentsReachable(doc: Document, op: Operation, n: string)
    ensures n in NamesOf(RecursivelyReferencedFragments(doc, op)) <==>
            n in FragmentNames(doc) && Reachable(doc, op.selections, n)
  {
    var r := Walk(doc, [op.selections], {});
    WalkSound(doc, [op.selections], {});
    WalkComplete(doc, [op.selections], {});
    WalkReaches(doc, op.selections, [op.selections], {});
    if n in NamesOf(r.0) {
      var f :| f in r.0 && f.name == n;
      assert Defines(doc, f);
    }
    if n in FragmentNames(doc) && Reachable(doc, op.selections, n) {
      WalkCloses(doc, [op.selections], {});
      var p :| IsPath(doc, op.selections, p) && p[|p| - 1] == n;
      PathCollected(doc, op.selections, p, r.1);
    }
  }
}
