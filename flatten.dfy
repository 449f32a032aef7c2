/** `flattenAST` of `parse.cpp`: a depth-first walk that pushes every node it
    reaches from the roots, each before its children, followed by `std::sort`
    by id. The recursion of the walk is bounded by a fuel parameter: with too
    little fuel the walk reports `OutOfFuel` instead of recursing further. */
module Flatten {
  import opened ParseTree
  import opened Wrappers

  /** The outcome of a walk: the ids pushed, in order, or not enough fuel. */
  datatype Walk = Walked(ids: seq<int>) | OutOfFuel

  /** A walk that continues `prefix`. */
  function Extend(prefix: seq<int>, w: Walk): Walk {
    match w
    case OutOfFuel => OutOfFuel
    case Walked(ids) => Walked(prefix + ids)
  }

  /** Continuing a walk that already continues a prefix. */
  lemma ExtendThen(prefix: seq<int>, w: Walk, before: seq<int>)
    ensures Extend(before, Extend(prefix, w)) == Extend(before + prefix, w)
  {
    if w.Walked? {
      assert before + (prefix + w.ids) == before + prefix + w.ids;
    }
  }

  /** `collect(node)`: the node, then the walk of each child in turn. */
  function Visit(f: Forest, id: int, fuel: nat): Walk
    decreases fuel, 0
  {
    if fuel == 0 then OutOfFuel
    else Extend([id], VisitAll(f, ChildrenOf(f, id), fuel - 1))
  }

  /** `collect` applied to each of `ids` in turn. */
  function VisitAll(f: Forest, ids: seq<int>, fuel: nat): Walk
    decreases fuel, |ids|
  {
    if |ids| == 0 then Walked([])
    else
      match Visit(f, ids[0], fuel)
      case OutOfFuel => OutOfFuel
      case Walked(first) => Extend(first, VisitAll(f, ids[1..], fuel))
  }

  /** One round of `collect` over a list: the walk of the first id continues
      `before`, and the others continue that. */
  lemma VisitAllStep(f: Forest, ids: seq<int>, fuel: nat, before: seq<int>, next: Walk)
    requires |ids| > 0 && next == Extend(before, Visit(f, ids[0], fuel))
    ensures next.OutOfFuel? ==> Extend(before, VisitAll(f, ids, fuel)) == OutOfFuel
    ensures next.Walked? ==>
      Extend(before, VisitAll(f, ids, fuel)) == Extend(next.ids, VisitAll(f, ids[1..], fuel))
  {
    match Visit(f, ids[0], fuel)
    case OutOfFuel =>
    case Walked(first) =>
      ExtendThen(first, VisitAll(f, ids[1..], fuel), before);
  }

  /** More fuel never changes a walk that already finishes: `OutOfFuel` at
      every fuel is a walk that never ends. */
  lemma {:induction false} VisitMono(f: Forest, id: int, fuel: nat, more: nat)
    requires fuel <= more && Visit(f, id, fuel).Walked?
    ensures Visit(f, id, more) == Visit(f, id, fuel)
    decreases fuel, 0
  {
    VisitAllMono(f, ChildrenOf(f, id), fuel - 1, more - 1);
  }

  /** The walk of a list of nodes is the same with more fuel once it finishes. */
  lemma {:induction false} VisitAllMono(f: Forest, ids: seq<int>, fuel: nat, more: nat)
    requires fuel <= more && VisitAll(f, ids, fuel).Walked?
    ensures VisitAll(f, ids, more) == VisitAll(f, ids, fuel)
    decreases fuel, |ids|
  {
    if |ids| > 0 {
      VisitMono(f, ids[0], fuel, more);
      VisitAllMono(f, ids[1..], fuel, more);
    }
  }

  // ---------------------------------------------------------------------------
  // Sorting
  // ---------------------------------------------------------------------------

  /** Ascending, repetitions allowed. */
  predicate Sorted(s: seq<int>) {
    forall i, j :: 0 <= i < j < |s| ==> s[i] <= s[j]
  }

  /** A sorted sequence stays sorted under a head no larger than its first
      element. */
  lemma SortedCons(h: int, s: seq<int>)
    requires Sorted(s) && (|s| > 0 ==> h <= s[0])
    ensures Sorted([h] + s)
  {
  }

  /** `x` inserted into a sorted sequence. */
  function Insert(x: int, s: seq<int>): (r: seq<int>)
    requires Sorted(s)
    ensures Sorted(r) && multiset(r) == multiset(s) + multiset{x}
    ensures |r| == |s| + 1 && (r[0] == x || (|s| > 0 && r[0] == s[0]))
  {
    if |s| == 0 then [x]
    else if x <= s[0] then SortedCons(x, s); [x] + s
    else
      assert s == [s[0]] + s[1..];
      var rest := Insert(x, s[1..]);
      SortedCons(s[0], rest);
      [s[0]] + rest
  }

  /** `std::sort` on the ids: ascending, and a permutation of its input. */
  function Sort(xs: seq<int>): (r: seq<int>)
    ensures Sorted(r) && multiset(r) == multiset(xs)
  {
    if |xs| == 0 then []
    else
      assert xs == [xs[0]] + xs[1..];
      Insert(xs[0], Sort(xs[1..]))
  }

  /** What `flattenAST` returns. */
  function Flattened(f: Forest, fuel: nat): Walk {
    match VisitAll(f, f.roots, fuel)
    case OutOfFuel => OutOfFuel
    case Walked(ids) => Walked(Sort(ids))
  }

  // ---------------------------------------------------------------------------
  // The walk, as the program runs it
  // ---------------------------------------------------------------------------

  /** The recursive lambda `collect`: pushes `id` onto `ordered`, then
      collects each child in turn. */
  method Collect(f: Forest, id: int, fuel: nat, ordered: seq<int>) returns (w: Walk)
    ensures w == Extend(ordered, Visit(f, id, fuel))
    decreases fuel, 0
  {
    if fuel == 0 {
      return OutOfFuel;
    }
    var acc := ordered + [id];
    var children := ChildrenOf(f, id);
    var i := 0;
    while i < |children|
      invariant i <= |children|
      invariant Extend(acc, VisitAll(f, children[i..], fuel - 1))
                == Extend(ordered + [id], VisitAll(f, children, fuel - 1))
    {
      assert children[i..][1..] == children[i + 1..];
      var next := Collect(f, children[i], fuel - 1, acc);
      VisitAllStep(f, children[i..], fuel - 1, acc, next);
      if next.OutOfFuel? {
        return OutOfFuel;
      }
      acc := next.ids;
      i := i + 1;
    }
    assert children[i..] == [];
    assert acc + [] == acc;
    ExtendThen([id], VisitAll(f, children, fuel - 1), ordered);
    return Walked(acc);
  }

  /** `flattenAST`: collects every root in turn, then sorts by id. */
  method FlattenAST(f: Forest, fuel: nat) returns (w: Walk)
    ensures w == Flattened(f, fuel)
  {
    var ordered: seq<int> := [];
    var i := 0;
    while i < |f.roots|
      invariant i <= |f.roots|
      invariant Extend(ordered, VisitAll(f, f.roots[i..], fuel)) == VisitAll(f, f.roots, fuel)
    {
      assert f.roots[i..][1..] == f.roots[i + 1..];
      var next := Collect(f, f.roots[i], fuel, ordered);
      VisitAllStep(f, f.roots[i..], fuel, ordered, next);
      if next.OutOfFuel? {
        return OutOfFuel;
      }
      ordered := next.ids;
      i := i + 1;
    }
    assert f.roots[i..] == [];
    assert ordered + [] == ordered;
    return Walked(Sort(ordered));
  }

  // ---------------------------------------------------------------------------
  // Parent chains
  // ---------------------------------------------------------------------------

  /** The node a node is linked under: its parent when it is attached, none
      when it is a root or was dropped. */
  function Up(f: Forest, linking: Linking, x: int): Option<int> {
    if x in f.nodes && Attached(f.nodes, f.nodes[x].parent, linking) then Some(f.nodes[x].parent) else None
  }

  /** `Up` applied `k` times. */
  function Iter(f: Forest, linking: Linking, x: int, k: nat): Option<int>
    decreases k
  {
    if k == 0 then Some(x)
    else
      match Up(f, linking, x)
      case None => None
      case Some(p) => Iter(f, linking, p, k - 1)
  }

  /** Following `a` steps, then `b` more. */
  lemma {:induction false} IterAdd(f: Forest, linking: Linking, x: int, a: nat, b: nat)
    requires Iter(f, linking, x, a).Some?
    ensures Iter(f, linking, x, a + b) == Iter(f, linking, Iter(f, linking, x, a).value, b)
    decreases a
  {
    if a > 0 {
      IterAdd(f, linking, Up(f, linking, x).value, a - 1, b);
    }
  }

  /** `x` is linked, through zero or more parents, under `a`. */
  ghost predicate Below(f: Forest, linking: Linking, x: int, a: int) {
    exists k: nat :: Iter(f, linking, x, k) == Some(a)
  }

  /** `x` is linked under one of `ids`. */
  ghost predicate BelowOneOf(f: Forest, linking: Linking, x: int, ids: seq<int>) {
    exists a :: a in ids && Below(f, linking, x, a)
  }

  /** Being linked under a child is being linked under its parent. */
  lemma BelowParent(f: Forest, linking: Linking, x: int, c: int, p: int)
    requires Below(f, linking, x, c) && Up(f, linking, c) == Some(p)
    ensures Below(f, linking, x, p)
  {
    var k: nat :| Iter(f, linking, x, k) == Some(c);
    IterAdd(f, linking, x, k, 1);
    assert Iter(f, linking, x, k + 1) == Some(p);
  }

  /** No chain of parents leads from `x` back to `x`. */
  ghost predicate NoCycle(f: Forest, linking: Linking, x: int) {
    forall m: nat :: m >= 1 ==> Iter(f, linking, x, m) != Some(x)
  }

  /** A cycle through a child passes through its parent. */
  lemma CycleThrough(f: Forest, linking: Linking, c: int, p: int, m: nat)
    requires Up(f, linking, c) == Some(p) && m >= 1
    ensures Iter(f, linking, c, m) == Some(c) ==> Iter(f, linking, p, m) == Some(p)
  {
    if Iter(f, linking, c, m) == Some(c) {
      IterAdd(f, linking, c, m, 1);
    }
  }

  /** A child of a node that lies on no cycle lies on none either. */
  lemma ChildNoCycle(f: Forest, linking: Linking, c: int, p: int)
    requires Up(f, linking, c) == Some(p) && NoCycle(f, linking, p)
    ensures NoCycle(f, linking, c)
  {
    forall m: nat | m >= 1 ensures Iter(f, linking, c, m) != Some(c) {
      CycleThrough(f, linking, c, p, m);
    }
  }

  /** When the parent chain of a node meets `a` and, further up, `b`, and
      both have the same `Up`, then that common parent lies on a cycle. */
  lemma Climb(f: Forest, linking: Linking, y: int, a: int, b: int, ka: nat, kb: nat)
    requires ka < kb
    requires Iter(f, linking, y, ka) == Some(a) && Iter(f, linking, y, kb) == Some(b)
    requires Up(f, linking, a) == Up(f, linking, b)
    ensures Up(f, linking, a).Some?
    ensures Iter(f, linking, Up(f, linking, a).value, kb - ka) == Up(f, linking, a)
  {
    var d := kb - ka;
    IterAdd(f, linking, y, ka, d);
    assert Iter(f, linking, a, d) == Some(b);
    var p := Up(f, linking, a).value;
    assert Iter(f, linking, p, d - 1) == Some(b);
    IterAdd(f, linking, p, d - 1, 1);
  }

  /** Two nodes with the same `Up` that both lie on the parent chain of one
      node are the same node, unless their common parent lies on a cycle. */
  lemma SiblingsMeet(f: Forest, linking: Linking, y: int, a: int, b: int)
    requires Below(f, linking, y, a) && Below(f, linking, y, b)
    requires Up(f, linking, a) == Up(f, linking, b)
    requires Up(f, linking, a).Some? ==> NoCycle(f, linking, Up(f, linking, a).value)
    ensures a == b
  {
    var ka: nat :| Iter(f, linking, y, ka) == Some(a);
    var kb: nat :| Iter(f, linking, y, kb) == Some(b);
    if ka < kb {
      Climb(f, linking, y, a, b, ka, kb);
      assert false;
    } else if kb < ka {
      Climb(f, linking, y, b, a, kb, ka);
      assert false;
    }
  }

  // ---------------------------------------------------------------------------
  // The walk reaches each node once
  // ---------------------------------------------------------------------------

  /** No id occurs twice. */
  predicate Distinct(s: seq<int>) {
    forall i, j :: 0 <= i < j < |s| ==> s[i] != s[j]
  }

  /** Two sequences without repetitions and without a common element
      concatenate to one without repetitions. */
  lemma DistinctAppend(a: seq<int>, b: seq<int>)
    requires Distinct(a) && Distinct(b)
    requires forall x :: x in a ==> x !in b
    ensures Distinct(a + b)
  {
    var s := a + b;
    forall i, j | 0 <= i < j < |s| ensures s[i] != s[j] {
      if i < |a| && j >= |a| {
        assert s[i] in a && s[j] == b[j - |a|];
      } else if i >= |a| {
        assert s[i] == b[i - |a|] && s[j] == b[j - |a|];
      }
    }
  }

  /** Roots are roots, and each child of a node is attached to it; the roots
      and every list of children are ascending. */
  ghost predicate WellLinked(f: Forest, linking: Linking) {
    Increasing(f.roots)
    && (forall r :: r in f.roots ==> r in f.nodes && Up(f, linking, r) == None)
    && (forall p :: p in f.nodes ==> Increasing(ChildrenOf(f, p)))
    && (forall p, c :: p in f.nodes && c in ChildrenOf(f, p) ==> c in f.nodes && Up(f, linking, c) == Some(p))
  }

  /** The walk from a node pushes only nodes linked under it. */
  lemma {:induction false} VisitBelow(f: Forest, linking: Linking, id: int, fuel: nat)
    requires WellLinked(f, linking)
    requires Visit(f, id, fuel).Walked?
    ensures forall y :: y in Visit(f, id, fuel).ids ==> Below(f, linking, y, id)
    decreases fuel, 0
  {
    var children := ChildrenOf(f, id);
    var below := VisitAll(f, children, fuel - 1).ids;
    assert Visit(f, id, fuel).ids == [id] + below;
    VisitAllBelow(f, linking, children, fuel - 1);
    forall y | y in below ensures Below(f, linking, y, id) {
      var c :| c in children && Below(f, linking, y, c);
      BelowParent(f, linking, y, c, id);
    }
    assert Iter(f, linking, id, 0) == Some(id);
  }

  /** The walk of a list pushes only nodes linked under one of its ids. */
  lemma {:induction false} VisitAllBelow(f: Forest, linking: Linking, ids: seq<int>, fuel: nat)
    requires WellLinked(f, linking)
    requires VisitAll(f, ids, fuel).Walked?
    ensures forall y :: y in VisitAll(f, ids, fuel).ids ==> BelowOneOf(f, linking, y, ids)
    decreases fuel, |ids|
  {
    if |ids| > 0 {
      var first := Visit(f, ids[0], fuel).ids;
      var others := VisitAll(f, ids[1..], fuel).ids;
      assert VisitAll(f, ids, fuel).ids == first + others;
      VisitBelow(f, linking, ids[0], fuel);
      VisitAllBelow(f, linking, ids[1..], fuel);
      forall y | y in others ensures BelowOneOf(f, linking, y, ids) {
        var a :| a in ids[1..] && Below(f, linking, y, a);
        assert a in ids;
      }
      assert ids[0] in ids;
    }
  }

  /** The walk from a node on no cycle pushes no id twice. */
  lemma {:induction false} VisitDistinct(f: Forest, linking: Linking, id: int, fuel: nat)
    requires WellLinked(f, linking) && id in f.nodes && NoCycle(f, linking, id)
    requires Visit(f, id, fuel).Walked?
    ensures Distinct(Visit(f, id, fuel).ids)
    decreases fuel, 0
  {
    var children := ChildrenOf(f, id);
    var below := VisitAll(f, children, fuel - 1).ids;
    assert Visit(f, id, fuel).ids == [id] + below;
    VisitAllDistinct(f, linking, children, Some(id), fuel - 1);
    VisitAllBelow(f, linking, children, fuel - 1);
    if id in below {
      var c :| c in children && Below(f, linking, id, c);
      var k: nat :| Iter(f, linking, id, k) == Some(c);
      IterAdd(f, linking, id, k, 1);
      assert false;
    }
    DistinctAppend([id], below);
  }

  /** The walk of a list of distinct nodes that share the same `Up`, which
      lies on no cycle, pushes no id twice. */
  lemma {:induction false} VisitAllDistinct(f: Forest, linking: Linking, ids: seq<int>, u: Option<int>, fuel: nat)
    requires WellLinked(f, linking) && Increasing(ids)
    requires forall x :: x in ids ==> x in f.nodes && Up(f, linking, x) == u
    requires u.Some? ==> NoCycle(f, linking, u.value)
    requires VisitAll(f, ids, fuel).Walked?
    ensures Distinct(VisitAll(f, ids, fuel).ids)
    decreases fuel, |ids|
  {
    if |ids| > 0 {
      var x := ids[0];
      var rest := ids[1..];
      var first := Visit(f, x, fuel).ids;
      var others := VisitAll(f, rest, fuel).ids;
      assert VisitAll(f, ids, fuel).ids == first + others;
      if u.Some? {
        ChildNoCycle(f, linking, x, u.value);
      } else {
        forall m: nat | m >= 1 ensures Iter(f, linking, x, m) != Some(x) {
        }
      }
      VisitDistinct(f, linking, x, fuel);
      VisitBelow(f, linking, x, fuel);
      VisitAllDistinct(f, linking, rest, u, fuel);
      VisitAllBelow(f, linking, rest, fuel);
      forall y | y in first ensures y !in others {
        if y in others {
          var x2 :| x2 in rest && Below(f, linking, y, x2);
          SiblingsMeet(f, linking, y, x, x2);
          assert false;
        }
      }
      DistinctAppend(first, others);
    }
  }

  /** The walk pushes the node itself and, with every node it pushes, all of
      that node's children. */
  lemma {:induction false} VisitClosed(f: Forest, id: int, fuel: nat)
    requires Visit(f, id, fuel).Walked?
    ensures id in Visit(f, id, fuel).ids
    ensures forall x, c :: x in Visit(f, id, fuel).ids && c in ChildrenOf(f, x) ==> c in Visit(f, id, fuel).ids
    decreases fuel, 0
  {
    var children := ChildrenOf(f, id);
    VisitAllClosed(f, children, fuel - 1);
  }

  /** The walk of a list pushes each of its ids and is closed under
      children. */
  lemma {:induction false} VisitAllClosed(f: Forest, ids: seq<int>, fuel: nat)
    requires VisitAll(f, ids, fuel).Walked?
    ensures forall x :: x in ids ==> x in VisitAll(f, ids, fuel).ids
    ensures forall x, c :: x in VisitAll(f, ids, fuel).ids && c in ChildrenOf(f, x) ==> c in VisitAll(f, ids, fuel).ids
    decreases fuel, |ids|
  {
    if |ids| > 0 {
      VisitClosed(f, ids[0], fuel);
      VisitAllClosed(f, ids[1..], fuel);
      assert forall x :: x in ids ==> x == ids[0] || x in ids[1..];
    }
  }

  /** A sorted permutation of a sequence without repetitions is strictly
      ascending and has the same elements. */
  lemma SortedDistinct(s: seq<int>, r: seq<int>)
    requires Distinct(s) && Sorted(r) && multiset(r) == multiset(s)
    ensures Increasing(r)
    ensures forall x :: x in r <==> x in s
  {
    forall x ensures x in r <==> x in s {
      assert x in r <==> x in multiset(r);
      assert x in s <==> x in multiset(s);
    }
    forall i, j | 0 <= i < j < |r| ensures r[i] < r[j] {
      if r[i] == r[j] {
        assert r == r[..i] + [r[i]] + r[i + 1..j] + [r[j]] + r[j + 1..];
        assert multiset(r)[r[i]] >= 2;
        DistinctCount(s, r[i]);
        assert false;
      }
    }
  }

  /** In a sequence without repetitions an element occurs at most once. */
  lemma {:induction false} DistinctCount(s: seq<int>, x: int)
    requires Distinct(s)
    ensures multiset(s)[x] <= 1
  {
    if |s| > 0 {
      assert s == [s[0]] + s[1..];
      assert Distinct(s[1..]);
      DistinctCount(s[1..], x);
      if s[0] == x {
        assert x !in s[1..];
      }
    }
  }

  /** The forest of `generateAST` is well linked. */
  lemma BuiltForestWellLinked(data: ParseData, withArguments: bool, linking: Linking)
    ensures WellLinked(BuildForest(data, withArguments, linking), linking)
  {
    if data.hasColumns {
      var f := BuildForest(data, withArguments, linking);
      var nodes := Collapse(data.rows, withArguments);
      ForestNodes(data, withArguments, linking);
      ForestRoots(data, withArguments, linking);
      assert forall x :: x in f.nodes <==> x in nodes;
      forall r | r in f.roots ensures r in f.nodes && Up(f, linking, r) == None {
        assert IsRoot(nodes, nodes[r].parent, linking);
        assert f.nodes[r].parent == nodes[r].parent;
      }
      forall p | p in f.nodes
        ensures Increasing(ChildrenOf(f, p))
        ensures forall c :: c in ChildrenOf(f, p) ==> c in f.nodes && Up(f, linking, c) == Some(p)
      {
        ForestChildren(data, withArguments, linking, p);
        forall c | c in ChildrenOf(f, p) ensures c in f.nodes && Up(f, linking, c) == Some(p) {
          assert f.nodes[c].parent == nodes[c].parent;
        }
      }
    }
  }

  /** `flattenAST` on the forest of `generateAST`: when the walk completes,
      the result is strictly ascending by id, so no node occurs twice; it
      holds every root and, with each node, all of its children; and every
      node in it is linked, through its parents, under a root. */
  lemma FlattenedForest(data: ParseData, withArguments: bool, linking: Linking, fuel: nat)
    requires Flattened(BuildForest(data, withArguments, linking), fuel).Walked?
    ensures var f := BuildForest(data, withArguments, linking);
      var r := Flattened(f, fuel).ids;
      && Increasing(r)
      && (forall x :: x in f.roots ==> x in r)
      && (forall x, c :: x in r && c in ChildrenOf(f, x) ==> c in r)
      && (forall y :: y in r ==> BelowOneOf(f, linking, y, f.roots))
  {
    var f := BuildForest(data, withArguments, linking);
    var walked := VisitAll(f, f.roots, fuel).ids;
    BuiltForestWellLinked(data, withArguments, linking);
    VisitAllDistinct(f, linking, f.roots, None, fuel);
    VisitAllBelow(f, linking, f.roots, fuel);
    VisitAllClosed(f, f.roots, fuel);
    SortedDistinct(walked, Sort(walked));
  }

  // ---------------------------------------------------------------------------
  // The walk of a built forest finishes
  // ---------------------------------------------------------------------------

  /** The nodes linked, through zero or more parents, under `x`. */
  ghost function Subtree(f: Forest, linking: Linking, x: int): set<int> {
    set y | y in f.nodes.Keys && Below(f, linking, y, x)
  }

  /** A subset is no larger. */
  lemma SubsetCard(a: set<int>, b: set<int>)
    requires a <= b
    ensures |a| <= |b|
  {
    assert b == a + (b - a);
  }

  /** The subtree of a child of a node on no cycle is strictly smaller than
      the node's: it lies inside it and misses the node itself. */
  lemma SubtreeShrinks(f: Forest, linking: Linking, c: int, p: int)
    requires p in f.nodes && Up(f, linking, c) == Some(p) && NoCycle(f, linking, p)
    ensures |Subtree(f, linking, c)| < |Subtree(f, linking, p)|
  {
    var sc, sp := Subtree(f, linking, c), Subtree(f, linking, p);
    forall y | y in sc ensures y in sp {
      BelowParent(f, linking, y, c, p);
    }
    assert Iter(f, linking, p, 0) == Some(p);
    assert p in sp;
    if p in sc {
      var k: nat :| Iter(f, linking, p, k) == Some(c);
      IterAdd(f, linking, p, k, 1);
      assert false;
    }
    SubsetCard(sc, sp - {p});
  }

  /** The walk from a node on no cycle finishes with as much fuel as its
      subtree has nodes. */
  lemma {:induction false} VisitFinishes(f: Forest, linking: Linking, x: int, fuel: nat)
    requires WellLinked(f, linking) && x in f.nodes && NoCycle(f, linking, x)
    requires |Subtree(f, linking, x)| <= fuel
    ensures Visit(f, x, fuel).Walked?
    decreases fuel, 0
  {
    assert Iter(f, linking, x, 0) == Some(x);
    assert x in Subtree(f, linking, x);
    VisitAllFinishes(f, linking, ChildrenOf(f, x), x, fuel - 1);
  }

  /** The walk over children of a node on no cycle finishes with one unit of
      fuel less than the node's subtree has nodes. */
  lemma {:induction false} VisitAllFinishes(f: Forest, linking: Linking, ids: seq<int>, p: int, fuel: nat)
    requires WellLinked(f, linking) && p in f.nodes && NoCycle(f, linking, p)
    requires forall c :: c in ids ==> c in ChildrenOf(f, p)
    requires |Subtree(f, linking, p)| <= fuel + 1
    ensures VisitAll(f, ids, fuel).Walked?
    decreases fuel, |ids|
  {
    if |ids| > 0 {
      var c := ids[0];
      assert c in ids;
      ChildNoCycle(f, linking, c, p);
      SubtreeShrinks(f, linking, c, p);
      VisitFinishes(f, linking, c, fuel);
      VisitAllFinishes(f, linking, ids[1..], p, fuel);
    }
  }

  /** The walk over roots finishes with as much fuel as the forest has nodes. */
  lemma {:induction false} RootsFinish(f: Forest, linking: Linking, ids: seq<int>)
    requires WellLinked(f, linking)
    requires forall r :: r in ids ==> r in f.nodes && Up(f, linking, r) == None
    ensures VisitAll(f, ids, |f.nodes|).Walked?
    decreases |ids|
  {
    if |ids| > 0 {
      var r := ids[0];
      assert r in ids;
      forall m: nat | m >= 1 ensures Iter(f, linking, r, m) != Some(r) {
      }
      SubsetCard(Subtree(f, linking, r), f.nodes.Keys);
      VisitFinishes(f, linking, r, |f.nodes|);
      RootsFinish(f, linking, ids[1..]);
    }
  }

  /** `flattenAST` on the forest of `generateAST` always finishes: fuel equal
      to the number of nodes suffices, and by `VisitMono` any more gives the
      same result. */
  lemma BuiltForestFlattens(data: ParseData, withArguments: bool, linking: Linking)
    ensures var f := BuildForest(data, withArguments, linking);
      Flattened(f, |f.nodes|).Walked?
  {
    var f := BuildForest(data, withArguments, linking);
    BuiltForestWellLinked(data, withArguments, linking);
    RootsFinish(f, linking, f.roots);
  }

  /** `flattenAST` on the forest of `generateAST`, with no fuel hypothesis:
      the result is strictly ascending by id, holds every root and, with each
      node, all of its children, and every node in it is linked under a root. */
  lemma FlattenedBuiltForest(data: ParseData, withArguments: bool, linking: Linking)
    ensures var f := BuildForest(data, withArguments, linking);
      var w := Flattened(f, |f.nodes|);
      && w.Walked?
      && Increasing(w.ids)
      && (forall x :: x in f.roots ==> x in w.ids)
      && (forall x, c :: x in w.ids && c in ChildrenOf(f, x) ==> c in w.ids)
      && (forall y :: y in w.ids ==> BelowOneOf(f, linking, y, f.roots))
  {
    var f := BuildForest(data, withArguments, linking);
    BuiltForestFlattens(data, withArguments, linking);
    FlattenedForest(data, withArguments, linking, |f.nodes|);
  }
}
