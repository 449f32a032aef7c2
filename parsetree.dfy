/** `generateAST` of `parse.cpp` and of `sourceparser.cpp`: the rows of R's
    parse data (id, parent, token, text) become nodes in a map from id to
    node, and each node is then linked, in ascending id order, either into the
    list of roots or onto the end of its parent's children. Nodes live in an
    arena `map<int, Node>` whose children are ids. The data frame is a
    sequence of rows plus a flag that says whether the four columns exist. */
module ParseTree {

  /** `R_NaInt`, R's missing integer: the smallest 32-bit integer. */
  const NA: int := -0x8000_0000

  /** One row of the parse data. */
  datatype Row = Row(id: int, parent: int, token: string, text: string)

  /** The parse data: whether the id, parent, token and text columns were all
      found, and the rows. */
  datatype ParseData = ParseData(hasColumns: bool, rows: seq<Row>)

  /** `ParseNode`: children are given by id; `arguments` exists only in the
      node of `parse.cpp` and stays empty in that of `sourceparser.cpp`. */
  datatype Node = Node(id: int, parent: int, token: string, text: string,
                       children: seq<int>, arguments: seq<string>)

  /** What `generateAST` returns: every node, indexed by id; `roots` and each
      node's `children` give the links. */
  datatype Forest = Forest(roots: seq<int>, nodes: map<int, Node>)

  /** How a node whose parent id names no node is linked: `parse.cpp` makes it
      a root, as it does a parent of `NA`; `sourceparser.cpp` drops it. */
  datatype Linking = OrphansAsRoots | OrphansDropped

  /** Strictly ascending. */
  predicate Increasing(s: seq<int>) {
    forall i, j :: 0 <= i < j < |s| ==> s[i] < s[j]
  }

  // ---------------------------------------------------------------------------
  // Ordering the ids
  // ---------------------------------------------------------------------------

  /** A non-empty set of integers has a least element. */
  lemma {:induction false} LeastExists(s: set<int>)
    requires s != {}
    ensures exists m :: m in s && forall x :: x in s ==> m <= x
    decreases |s|
  {
    if forall x :: x !in s {
      assert false;
    }
    var y :| y in s;
    var rest := s - {y};
    if rest == {} {
      assert s == {y};
    } else {
      LeastExists(rest);
      var m :| m in rest && forall x :: x in rest ==> m <= x;
      if y < m {
        assert forall x :: x in s ==> x == y || x in rest;
      } else {
        assert forall x :: x in s ==> x == y || x in rest;
        assert m in s;
      }
    }
  }

  /** The least element of a non-empty set. */
  function Least(s: set<int>): (m: int)
    requires s != {}
    ensures m in s && forall x :: x in s ==> m <= x
  {
    LeastExists(s);
    var m :| m in s && forall x :: x in s ==> m <= x; m
  }

  /** The ids of `nodeMap` after `std::sort` by id: each exactly once, in
      ascending order (`SortedIdsIncreasing`). */
  function SortedIds(s: set<int>): (r: seq<int>)
    ensures forall x :: x in r <==> x in s
    decreases |s|
  {
    if s == {} then []
    else
      var m := Least(s);
      [m] + SortedIds(s - {m})
  }

  /** A strictly ascending sequence stays so with a larger last element. */
  lemma IncreasingSnoc(front: seq<int>, m: int)
    requires Increasing(front) && forall x :: x in front ==> x < m
    ensures Increasing(front + [m])
  {
    var r := front + [m];
    forall i, j | 0 <= i < j < |r| ensures r[i] < r[j] {
      assert r[i] == front[i] && front[i] in front;
    }
  }

  /** A strictly ascending sequence stays so under a smaller head. */
  lemma IncreasingCons(m: int, rest: seq<int>)
    requires Increasing(rest) && forall x :: x in rest ==> m < x
    ensures Increasing([m] + rest)
  {
    var r := [m] + rest;
    forall i, j | 0 <= i < j < |r| ensures r[i] < r[j] {
      assert r[j] == rest[j - 1] && rest[j - 1] in rest;
      if i > 0 {
        assert r[i] == rest[i - 1];
      } else {
        assert r[i] == m;
      }
    }
  }

  /** The sorted ids are strictly ascending. */
  lemma {:induction false} SortedIdsIncreasing(s: set<int>)
    ensures Increasing(SortedIds(s))
    decreases |s|
  {
    if s != {} {
      var m := Least(s);
      var rest := SortedIds(s - {m});
      SortedIdsIncreasing(s - {m});
      assert SortedIds(s) == [m] + rest;
      IncreasingCons(m, rest);
    }
  }

  // ---------------------------------------------------------------------------
  // Building the nodes
  // ---------------------------------------------------------------------------

  /** The node made from one row; with `withArguments` (`parse.cpp`) a
      `SYMBOL_FUNCTION_CALL` node gets the arguments `arg1` and `arg2`. */
  function Fresh(row: Row, withArguments: bool): Node {
    Node(row.id, row.parent, row.token, row.text, [],
         if withArguments && row.token == "SYMBOL_FUNCTION_CALL" then ["arg1", "arg2"] else [])
  }

  /** `nodeMap` after the rows: each row's node is stored under its id, so a
      later row replaces an earlier one with the same id. */
  function Collapse(rows: seq<Row>, withArguments: bool): map<int, Node> {
    if |rows| == 0 then map[]
    else Collapse(rows[..|rows| - 1], withArguments)[rows[|rows| - 1].id := Fresh(rows[|rows| - 1], withArguments)]
  }

  /** The ids that occur in the rows. */
  function RowIds(rows: seq<Row>): set<int> {
    set r | r in rows :: r.id
  }

  /** The map holds a node for exactly the ids of the rows. */
  lemma {:induction false} CollapseKeys(rows: seq<Row>, withArguments: bool)
    ensures Collapse(rows, withArguments).Keys == RowIds(rows)
  {
    if |rows| > 0 {
      var init := rows[..|rows| - 1];
      CollapseKeys(init, withArguments);
      assert rows == init + [rows[|rows| - 1]];
      assert RowIds(rows) == RowIds(init) + {rows[|rows| - 1].id};
    }
  }

  /** The node under an id has that id and no children yet. */
  lemma {:induction false} CollapseNodes(rows: seq<Row>, withArguments: bool)
    ensures forall id :: id in Collapse(rows, withArguments) ==>
              Collapse(rows, withArguments)[id].id == id && Collapse(rows, withArguments)[id].children == []
  {
    if |rows| > 0 {
      CollapseNodes(rows[..|rows| - 1], withArguments);
    }
  }

  /** No later row has the id of the row at `i`. */
  ghost predicate LastWithId(rows: seq<Row>, i: int) {
    0 <= i < |rows| && forall j :: i < j < |rows| ==> rows[j].id != rows[i].id
  }

  /** The node under an id is made from the last row with that id. */
  lemma {:induction false} CollapseLatest(rows: seq<Row>, withArguments: bool)
    ensures forall i :: LastWithId(rows, i) ==>
              rows[i].id in Collapse(rows, withArguments) && Collapse(rows, withArguments)[rows[i].id] == Fresh(rows[i], withArguments)
  {
    if |rows| > 0 {
      var n := |rows| - 1;
      var init := rows[..n];
      CollapseLatest(init, withArguments);
      forall i | LastWithId(rows, i)
        ensures rows[i].id in Collapse(rows, withArguments) && Collapse(rows, withArguments)[rows[i].id] == Fresh(rows[i], withArguments)
      {
        if i < n {
          assert init[i] == rows[i];
          forall j | i < j < n ensures init[j].id != init[i].id {
            assert init[j] == rows[j];
          }
          assert LastWithId(init, i);
        }
      }
    }
  }

  /** The first loop of `generateAST`: a node per row, stored under its id. */
  method BuildNodes(rows: seq<Row>, withArguments: bool) returns (nodes: map<int, Node>)
    ensures nodes == Collapse(rows, withArguments)
  {
    nodes := map[];
    var i := 0;
    while i < |rows|
      invariant i <= |rows|
      invariant nodes == Collapse(rows[..i], withArguments)
    {
      assert rows[..i + 1][..i] == rows[..i];
      nodes := nodes[rows[i].id := Fresh(rows[i], withArguments)];
      i := i + 1;
    }
    assert rows[..|rows|] == rows;
  }

  // ---------------------------------------------------------------------------
  // Linking
  // ---------------------------------------------------------------------------

  /** A node with this parent id goes to the roots. */
  predicate IsRoot(nodes: map<int, Node>, parent: int, linking: Linking) {
    match linking
    case OrphansAsRoots => parent == 0 || parent == NA || parent !in nodes
    case OrphansDropped => parent == 0
  }

  /** A node with this parent id goes onto the end of the parent's children. */
  predicate Attached(nodes: map<int, Node>, parent: int, linking: Linking) {
    !IsRoot(nodes, parent, linking) && parent in nodes
  }

  /** Where a node may be linked: among the roots, or among the children of
      the node `p`. */
  datatype Slot = Roots | ChildOf(p: int)

  /** The node `x` is linked into `slot`. */
  predicate Belongs(nodes: map<int, Node>, x: int, linking: Linking, slot: Slot)
    requires x in nodes
  {
    match slot
    case Roots => IsRoot(nodes, nodes[x].parent, linking)
    case ChildOf(p) => Attached(nodes, nodes[x].parent, linking) && nodes[x].parent == p
  }

  /** The ids, in their order, that the linking loop puts into `slot`. */
  function Filter(nodes: map<int, Node>, ids: seq<int>, linking: Linking, slot: Slot): seq<int>
    requires forall x :: x in ids ==> x in nodes
  {
    if |ids| == 0 then []
    else
      var last := ids[|ids| - 1];
      Filter(nodes, ids[..|ids| - 1], linking, slot)
      + (if Belongs(nodes, last, linking, slot) then [last] else [])
  }

  /** Filtering ascending ids keeps them ascending, and keeps exactly the ids
      that belong to the slot. */
  lemma {:induction false} FilterKeeps(nodes: map<int, Node>, ids: seq<int>, linking: Linking, slot: Slot)
    requires forall x :: x in ids ==> x in nodes
    requires Increasing(ids)
    ensures Increasing(Filter(nodes, ids, linking, slot))
    ensures forall x :: x in Filter(nodes, ids, linking, slot) <==> x in ids && Belongs(nodes, x, linking, slot)
  {
    if |ids| > 0 {
      var init := ids[..|ids| - 1];
      var last := ids[|ids| - 1];
      assert ids == init + [last];
      assert forall x :: x in init ==> x in ids;
      FilterKeeps(nodes, init, linking, slot);
      var front := Filter(nodes, init, linking, slot);
      forall x | x in front ensures x < last {
        var i :| 0 <= i < |init| && init[i] == x;
        assert ids[i] == x;
      }
      if Belongs(nodes, last, linking, slot) {
        IncreasingSnoc(front, last);
      }
    }
  }

  /** Filtering one more id at the end. */
  lemma FilterSnoc(nodes: map<int, Node>, ids: seq<int>, x: int, linking: Linking, slot: Slot)
    requires forall y :: y in ids ==> y in nodes
    requires x in nodes
    ensures Filter(nodes, ids + [x], linking, slot)
            == Filter(nodes, ids, linking, slot) + (if Belongs(nodes, x, linking, slot) then [x] else [])
  {
    assert (ids + [x])[..|ids|] == ids;
  }

  /** The nodes after linking: every node's children are the nodes attached
      to it, in ascending id order. */
  function Linked(nodes: map<int, Node>, linking: Linking): map<int, Node> {
    var order := SortedIds(nodes.Keys);
    map p | p in nodes :: nodes[p].(children := nodes[p].children + Filter(nodes, order, linking, ChildOf(p)))
  }

  /** The forest `generateAST` builds from the nodes. */
  function LinkForest(nodes: map<int, Node>, linking: Linking): Forest {
    Forest(Filter(nodes, SortedIds(nodes.Keys), linking, Roots), Linked(nodes, linking))
  }

  /** The roots and the nodes once the linking loop has handled the ids
      `done`. */
  ghost predicate LinkedUpTo(nodes: map<int, Node>, done: seq<int>, linking: Linking,
                             roots: seq<int>, linked: map<int, Node>)
  {
    (forall x :: x in done ==> x in nodes)
    && roots == Filter(nodes, done, linking, Roots)
    && linked.Keys == nodes.Keys
    && forall p :: p in linked ==>
         linked[p] == nodes[p].(children := nodes[p].children + Filter(nodes, done, linking, ChildOf(p)))
  }

  /** Handling a root: it goes onto the end of the roots. */
  lemma LinkRoot(nodes: map<int, Node>, done: seq<int>, id: int, linking: Linking,
                 roots: seq<int>, linked: map<int, Node>)
    requires LinkedUpTo(nodes, done, linking, roots, linked)
    requires id in nodes && IsRoot(nodes, nodes[id].parent, linking)
    ensures LinkedUpTo(nodes, done + [id], linking, roots + [id], linked)
  {
    FilterSnoc(nodes, done, id, linking, Roots);
    forall p | p in linked
      ensures linked[p] == nodes[p].(children := nodes[p].children + Filter(nodes, done + [id], linking, ChildOf(p)))
    {
      FilterSnoc(nodes, done, id, linking, ChildOf(p));
    }
  }

  /** Handling an attached node: it goes onto the end of its parent's
      children. */
  lemma LinkChild(nodes: map<int, Node>, done: seq<int>, id: int, linking: Linking,
                  roots: seq<int>, linked: map<int, Node>)
    requires LinkedUpTo(nodes, done, linking, roots, linked)
    requires id in nodes && Attached(nodes, nodes[id].parent, linking)
    ensures var parent := nodes[id].parent;
      LinkedUpTo(nodes, done + [id], linking, roots,
                 linked[parent := linked[parent].(children := linked[parent].children + [id])])
  {
    var parent := nodes[id].parent;
    var after := linked[parent := linked[parent].(children := linked[parent].children + [id])];
    FilterSnoc(nodes, done, id, linking, Roots);
    forall p | p in after
      ensures after[p] == nodes[p].(children := nodes[p].children + Filter(nodes, done + [id], linking, ChildOf(p)))
    {
      FilterSnoc(nodes, done, id, linking, ChildOf(p));
    }
  }

  /** Handling a node that is neither: nothing changes. */
  lemma LinkNothing(nodes: map<int, Node>, done: seq<int>, id: int, linking: Linking,
                    roots: seq<int>, linked: map<int, Node>)
    requires LinkedUpTo(nodes, done, linking, roots, linked)
    requires id in nodes && !IsRoot(nodes, nodes[id].parent, linking) && !Attached(nodes, nodes[id].parent, linking)
    ensures LinkedUpTo(nodes, done + [id], linking, roots, linked)
  {
    FilterSnoc(nodes, done, id, linking, Roots);
    forall p | p in linked
      ensures linked[p] == nodes[p].(children := nodes[p].children + Filter(nodes, done + [id], linking, ChildOf(p)))
    {
      FilterSnoc(nodes, done, id, linking, ChildOf(p));
    }
  }

  /** Once every id is handled, the roots and the nodes are the forest. */
  lemma LinkedAll(nodes: map<int, Node>, linking: Linking, roots: seq<int>, linked: map<int, Node>)
    requires LinkedUpTo(nodes, SortedIds(nodes.Keys), linking, roots, linked)
    ensures Forest(roots, linked) == LinkForest(nodes, linking)
  {
    assert linked == Linked(nodes, linking);
  }

  /** The body of the second loop of `generateAST` for the node `id`: with
      parent 0 (or, in `parse.cpp`, `NA`) it is a root; otherwise, if its
      parent exists it is appended to the parent's children, and if not it is
      a root in `parse.cpp` and dropped in `sourceparser.cpp`. */
  method LinkNode(nodes: map<int, Node>, linking: Linking, id: int, roots: seq<int>, linked: map<int, Node>,
                  ghost done: seq<int>)
    returns (roots': seq<int>, linked': map<int, Node>)
    requires LinkedUpTo(nodes, done, linking, roots, linked) && id in nodes
    ensures LinkedUpTo(nodes, done + [id], linking, roots', linked')
  {
    roots', linked' := roots, linked;
    var parent := linked[id].parent;
    if parent == 0 || (linking == OrphansAsRoots && parent == NA) {
      LinkRoot(nodes, done, id, linking, roots, linked);
      roots' := roots + [id];
    } else if parent in linked {
      LinkChild(nodes, done, id, linking, roots, linked);
      linked' := linked[parent := linked[parent].(children := linked[parent].children + [id])];
    } else if linking == OrphansAsRoots {
      LinkRoot(nodes, done, id, linking, roots, linked);
      roots' := roots + [id];
    } else {
      LinkNothing(nodes, done, id, linking, roots, linked);
    }
  }

  /** The second loop of `generateAST`: every node, in ascending id order. */
  method LinkNodes(nodes: map<int, Node>, linking: Linking) returns (forest: Forest)
    ensures forest == LinkForest(nodes, linking)
  {
    var ordered := SortedIds(nodes.Keys);
    var roots: seq<int> := [];
    var linked := nodes;
    var k := 0;
    ghost var done: seq<int> := [];
    while k < |ordered|
      invariant k <= |ordered| && done == ordered[..k]
      invariant LinkedUpTo(nodes, done, linking, roots, linked)
    {
      roots, linked := LinkNode(nodes, linking, ordered[k], roots, linked, done);
      done := done + [ordered[k]];
      k := k + 1;
      assert done == ordered[..k];
    }
    assert done == ordered;
    LinkedAll(nodes, linking, roots, linked);
    forest := Forest(roots, linked);
  }

  /** The forest of the parse data; without the four columns, an empty one. */
  function BuildForest(data: ParseData, withArguments: bool, linking: Linking): Forest {
    if !data.hasColumns then Forest([], map[])
    else LinkForest(Collapse(data.rows, withArguments), linking)
  }

  /** `generateAST` of `parse.cpp`. */
  method GenerateAST(data: ParseData) returns (forest: Forest)
    ensures forest == BuildForest(data, true, OrphansAsRoots)
    ensures !data.hasColumns ==> forest.roots == [] && forest.nodes == map[]
  {
    if !data.hasColumns {
      return Forest([], map[]);
    }
    var nodes := BuildNodes(data.rows, true);
    forest := LinkNodes(nodes, OrphansAsRoots);
  }

  /** `generateAST` of `sourceparser.cpp`. */
  method GenerateSourceAST(data: ParseData) returns (forest: Forest)
    ensures forest == BuildForest(data, false, OrphansDropped)
    ensures !data.hasColumns ==> forest.roots == [] && forest.nodes == map[]
  {
    if !data.hasColumns {
      return Forest([], map[]);
    }
    var nodes := BuildNodes(data.rows, false);
    forest := LinkNodes(nodes, OrphansDropped);
  }

  // ---------------------------------------------------------------------------
  // What the forest looks like
  // ---------------------------------------------------------------------------

  /** The children of a node of the forest; none for an id without a node. */
  function ChildrenOf(f: Forest, id: int): seq<int> {
    if id in f.nodes then f.nodes[id].children else []
  }

  /** The forest holds a node per row id, made from the last row with that id
      and differing from it at most in its children. */
  lemma ForestNodes(data: ParseData, withArguments: bool, linking: Linking)
    requires data.hasColumns
    ensures var f := BuildForest(data, withArguments, linking);
      var nodes := Collapse(data.rows, withArguments);
      && f.nodes.Keys == RowIds(data.rows)
      && forall id :: id in f.nodes ==> f.nodes[id] == nodes[id].(children := f.nodes[id].children)
  {
    CollapseKeys(data.rows, withArguments);
  }

  /** The roots are in ascending id order, and a node is a root exactly when
      its parent id makes it one. */
  lemma ForestRoots(data: ParseData, withArguments: bool, linking: Linking)
    requires data.hasColumns
    ensures var f := BuildForest(data, withArguments, linking);
      var nodes := Collapse(data.rows, withArguments);
      && Increasing(f.roots)
      && forall x :: x in f.roots <==> x in nodes && IsRoot(nodes, nodes[x].parent, linking)
  {
    var nodes := Collapse(data.rows, withArguments);
    SortedIdsIncreasing(nodes.Keys);
    FilterKeeps(nodes, SortedIds(nodes.Keys), linking, Roots);
  }

  /** Each node's children are in ascending id order, and a node is a child
      of `p` exactly when it is attached to `p`. */
  lemma ForestChildren(data: ParseData, withArguments: bool, linking: Linking, p: int)
    requires data.hasColumns
    ensures var f := BuildForest(data, withArguments, linking);
      var nodes := Collapse(data.rows, withArguments);
      && Increasing(ChildrenOf(f, p))
      && forall x :: x in ChildrenOf(f, p) <==> x in nodes && Attached(nodes, nodes[x].parent, linking) && nodes[x].parent == p
  {
    var nodes := Collapse(data.rows, withArguments);
    var f := BuildForest(data, withArguments, linking);
    var order := SortedIds(nodes.Keys);
    CollapseNodes(data.rows, withArguments);
    if p in nodes {
      assert ChildrenOf(f, p) == Filter(nodes, order, linking, ChildOf(p));
      SortedIdsIncreasing(nodes.Keys);
      FilterKeeps(nodes, order, linking, ChildOf(p));
    } else {
      assert ChildrenOf(f, p) == [];
    }
  }

  /** In `parse.cpp` every node is either a root or attached to an existing
      parent; in `sourceparser.cpp` a node whose non-zero parent is missing is
      neither. */
  lemma OrphanHandling(nodes: map<int, Node>, parent: int)
    ensures IsRoot(nodes, parent, OrphansAsRoots) != Attached(nodes, parent, OrphansAsRoots)
    ensures parent != 0 && parent !in nodes ==>
              !IsRoot(nodes, parent, OrphansDropped) && !Attached(nodes, parent, OrphansDropped)
  {
  }

  /** Only a `SYMBOL_FUNCTION_CALL` row of `parse.cpp` gets arguments, and
      they are `arg1` and `arg2`. */
  lemma ArgumentsOnlyForCalls(rows: seq<Row>, withArguments: bool, id: int)
    requires id in Collapse(rows, withArguments)
    ensures var n := Collapse(rows, withArguments)[id];
      n.arguments == (if withArguments && n.token == "SYMBOL_FUNCTION_CALL" then ["arg1", "arg2"] else [])
  {
    CollapseArguments(rows, withArguments);
  }

  /** Every node of the map was made by `Fresh`, so its arguments follow its
      token. */
  lemma {:induction false} CollapseArguments(rows: seq<Row>, withArguments: bool)
    ensures forall id :: id in Collapse(rows, withArguments) ==>
      Collapse(rows, withArguments)[id].arguments
        == (if withArguments && Collapse(rows, withArguments)[id].token == "SYMBOL_FUNCTION_CALL" then ["arg1", "arg2"] else [])
  {
    if |rows| > 0 {
      CollapseArguments(rows[..|rows| - 1], withArguments);
    }
  }

  /** Rows with the same id collapse: of two rows with one id, only the later
      one's token and text survive. */
  lemma LaterRowWins(a: Row, b: Row)
    requires a.id == b.id
    ensures Collapse([a, b], false) == map[b.id := Fresh(b, false)]
    ensures BuildForest(ParseData(true, [a, b]), false, OrphansDropped).nodes.Keys == {b.id}
  {
    assert [a, b][..1] == [a];
    assert [a][..0] == [];
    CollapseKeys([a, b], false);
    assert RowIds([a, b]) == {b.id};
  }
}
