/** The layout-tree check of screen programs: parent links, cycles and containment. Bounds
    are real numbers here. */
module ScreenTree {
  import opened Json

  /** A node as it is after its own fields were read; `fieldsOk` stands for the checks that
      look at nothing but the node. */
  datatype Node = Node(
    id: string, parent: Option<string>, x: real, y: real, width: real, height: real, fieldsOk: bool)

  type Tree = map<string, Node>

  // ---- what is accepted ----

  predicate NodeOk(n: Node) {
    n.fieldsOk && n.width > 0.0 && n.height > 0.0
  }

  predicate CoversViewport(n: Node, width: nat, height: nat) {
    n.x == 0.0 && n.y == 0.0 && n.width == width as real && n.height == height as real
  }

  predicate InsideParent(n: Node, parent: Node) {
    n.x >= 0.0 && n.y >= 0.0 && n.x + n.width <= parent.width && n.y + n.height <= parent.height
  }

  ghost predicate UniqueIds(nodes: seq<Node>) {
    forall i, j | 0 <= i < j < |nodes| :: nodes[i].id != nodes[j].id
  }

  function ById(nodes: seq<Node>): (tree: Tree)
    ensures forall id | id in tree :: tree[id] in nodes && tree[id].id == id
    ensures forall i | 0 <= i < |nodes| :: nodes[i].id in tree
  {
    if nodes == [] then map[]
    else
      var n := nodes[|nodes| - 1];
      ById(nodes[..|nodes| - 1])[n.id := n]
  }

  /** The id reached by so many parent links; nothing once the chain has ended. */
  function Walk(tree: Tree, from: Option<string>, steps: nat): Option<string>
    decreases steps
  {
    if steps == 0 || from.None? then from
    else Walk(tree, if from.value in tree then tree[from.value].parent else None, steps - 1)
  }

  ghost predicate Acyclic(tree: Tree) {
    forall id | id in tree :: exists steps: nat :: Walk(tree, Some(id), steps).None?
  }

  ghost predicate Contained(tree: Tree) {
    forall id | id in tree && tree[id].parent.Some? ::
      tree[id].parent.value in tree && InsideParent(tree[id], tree[tree[id].parent.value])
  }

  ghost predicate IsRoot(tree: Tree, root: string, width: nat, height: nat) {
    && root in tree && CoversViewport(tree[root], width, height)
    && forall id | id in tree :: tree[id].parent.None? <==> id == root
  }

  ghost predicate Accepts(nodes: seq<Node>, width: nat, height: nat) {
    var tree := ById(nodes);
    && (forall i | 0 <= i < |nodes| :: NodeOk(nodes[i])) && UniqueIds(nodes)
    && (exists root :: IsRoot(tree, root, width, height))
    && Contained(tree) && Acyclic(tree)
  }

  // ---- the depth counter finds exactly the cycles ----

  lemma {:induction false} WalkAdd(tree: Tree, from: Option<string>, a: nat, b: nat)
    ensures Walk(tree, from, a + b) == Walk(tree, Walk(tree, from, a), b)
    decreases a
  {
    if a > 0 && from.Some? {
      WalkAdd(tree, if from.value in tree then tree[from.value].parent else None, a - 1, b);
    }
  }

  lemma WalkStaysEnded(tree: Tree, from: Option<string>, a: nat, b: nat)
    requires a <= b && Walk(tree, from, a).None?
    ensures Walk(tree, from, b).None?
  {
    WalkAdd(tree, from, a, b - a);
  }

  /** The first step at which a chain has ended. */
  lemma {:induction false} FirstEnd(tree: Tree, from: Option<string>, steps: nat) returns (first: nat)
    requires Walk(tree, from, steps).None?
    ensures first <= steps && Walk(tree, from, first).None?
    ensures forall k: nat | k < first :: Walk(tree, from, k).Some?
    decreases steps
  {
    if steps > 0 && Walk(tree, from, steps - 1).None? {
      first := FirstEnd(tree, from, steps - 1);
    } else {
      first := steps;
      forall k: nat | k < first ensures Walk(tree, from, k).Some? {
        if Walk(tree, from, k).None? { WalkStaysEnded(tree, from, k, steps - 1); }
      }
    }
  }

  lemma {:induction false} DistinctFit(s: seq<string>, keys: set<string>)
    requires forall i | 0 <= i < |s| :: s[i] in keys
    requires forall i, j | 0 <= i < j < |s| :: s[i] != s[j]
    ensures |s| <= |keys|
    decreases |s|
  {
    if s != [] {
      DistinctFit(s[1..], keys - {s[0]});
      assert |keys - {s[0]}| == |keys| - 1;
    }
  }

  /** A chain that ends visits no node twice, so it ends within as many steps as there are
      nodes. */
  lemma EndsWithinSize(tree: Tree, id: string, steps: nat)
    requires Contained(tree) && id in tree && Walk(tree, Some(id), steps).None?
    ensures Walk(tree, Some(id), |tree|).None?
  {
    var from := Some(id);
    var first := FirstEnd(tree, from, steps);
    var visited := seq(first, k requires 0 <= k < first => Walk(tree, from, k).value);
    forall k | 0 <= k < first ensures visited[k] in tree {
      VisitedInTree(tree, id, k);
    }
    forall i, j | 0 <= i < j < first ensures visited[i] != visited[j] {
      assert Walk(tree, from, i + (first - j)).Some?;
      WalkAdd(tree, from, i, first - j);
      WalkAdd(tree, from, j, first - j);
    }
    DistinctFit(visited, tree.Keys);
    WalkStaysEnded(tree, from, first, |tree|);
  }

  lemma {:induction false} VisitedInTree(tree: Tree, id: string, k: nat)
    requires Contained(tree) && id in tree && Walk(tree, Some(id), k).Some?
    ensures Walk(tree, Some(id), k).value in tree
    decreases k
  {
    if k > 0 {
      var parent := tree[id].parent;
      VisitedInTree(tree, parent.value, k - 1);
    }
  }

  // ---- an accepted program is one tree inside the viewport ----

  /** Sums of offsets along the parent chain, for at most so many links. */
  function AbsoluteX(tree: Tree, id: string, steps: nat): real
    requires id in tree && Contained(tree)
    decreases steps
  {
    tree[id].x + if steps == 0 || tree[id].parent.None? then 0.0 else AbsoluteX(tree, tree[id].parent.value, steps - 1)
  }

  function AbsoluteY(tree: Tree, id: string, steps: nat): real
    requires id in tree && Contained(tree)
    decreases steps
  {
    tree[id].y + if steps == 0 || tree[id].parent.None? then 0.0 else AbsoluteY(tree, tree[id].parent.value, steps - 1)
  }

  ghost predicate InsideViewport(tree: Tree, id: string, steps: nat, width: nat, height: nat)
    requires id in tree && Contained(tree)
  {
    && 0.0 <= AbsoluteX(tree, id, steps) && AbsoluteX(tree, id, steps) + tree[id].width <= width as real
    && 0.0 <= AbsoluteY(tree, id, steps) && AbsoluteY(tree, id, steps) + tree[id].height <= height as real
  }

  lemma {:induction false} ChainInside(tree: Tree, root: string, id: string, steps: nat, width: nat, height: nat)
    requires Contained(tree) && IsRoot(tree, root, width, height)
    requires id in tree && Walk(tree, Some(id), steps).None?
    ensures InsideViewport(tree, id, steps, width, height)
    ensures exists k: nat | k < steps :: Walk(tree, Some(id), k) == Some(root)
    decreases steps
  {
    var parent := tree[id].parent;
    if parent.Some? {
      ChainInside(tree, root, parent.value, steps - 1, width, height);
      var k: nat :| k < steps - 1 && Walk(tree, parent, k) == Some(root);
      assert Walk(tree, Some(id), k + 1) == Some(root);
    } else {
      assert Walk(tree, Some(id), 0) == Some(root);
    }
  }

  /** Every node of an accepted program hangs from the one root, and its absolute rectangle
      lies inside the viewport. */
  lemma AcceptedIsTree(nodes: seq<Node>, width: nat, height: nat, root: string)
    requires Accepts(nodes, width, height) && IsRoot(ById(nodes), root, width, height)
    ensures Contained(ById(nodes))
    ensures forall id | id in ById(nodes) :: HangsInside(ById(nodes), id, root, width, height)
  {
    hide ById;
    var tree := ById(nodes);
    forall id | id in tree ensures HangsInside(tree, id, root, width, height) {
      var steps: nat :| Walk(tree, Some(id), steps).None?;
      EndsWithinSize(tree, id, steps);
      ChainInside(tree, root, id, |tree|, width, height);
    }
  }

  ghost predicate HangsInside(tree: Tree, id: string, root: string, width: nat, height: nat)
    requires id in tree && Contained(tree)
  {
    && (exists k: nat | k < |tree| :: Walk(tree, Some(id), k) == Some(root))
    && InsideViewport(tree, id, |tree|, width, height)
  }

  // ---- the check itself ----

  /** The walk up the parents with its depth counter. */
  method ReachesEnd(tree: Tree, id: string) returns (ok: bool)
    ensures ok <==> Walk(tree, Some(id), |tree|).None?
  {
    var current := Some(id);
    var depth := 0;
    while current.Some?
      invariant depth <= |tree| && Walk(tree, Some(id), depth) == current
      decreases |tree| - depth
    {
      depth := depth + 1;
      if depth > |tree| { return false; }
      WalkAdd(tree, Some(id), depth - 1, 1);
      current := if current.value in tree then tree[current.value].parent else None;
    }
    WalkStaysEnded(tree, Some(id), depth, |tree|);
    ok := true;
  }

  lemma AppendById(nodes: seq<Node>, n: Node)
    ensures ById(nodes + [n]) == ById(nodes)[n.id := n]
  {
    var all := nodes + [n];
    assert all[..|all| - 1] == nodes && all[|all| - 1] == n;
  }

  lemma AppendNode(nodes: seq<Node>, n: Node)
    ensures ById(nodes + [n]) == ById(nodes)[n.id := n]
    ensures UniqueIds(nodes + [n]) <==> UniqueIds(nodes) && n.id !in ById(nodes)
  {
    AppendById(nodes, n);
    hide ById;
    var all := nodes + [n];
    assert forall i | 0 <= i < |nodes| :: all[i] == nodes[i];
    if n.id in ById(nodes) {
      var i :| 0 <= i < |nodes| && nodes[i] == ById(nodes)[n.id];
      assert all[i].id == all[|nodes|].id;
    }
  }

  lemma {:induction false} PrefixUnique(nodes: seq<Node>, k: nat)
    requires k <= |nodes| && UniqueIds(nodes)
    ensures UniqueIds(nodes[..k])
  {
  }

  ghost predicate RootsOf(tree: Tree, roots: seq<string>) {
    && (forall id :: id in roots <==> id in tree && tree[id].parent.None?)
    && forall i, j | 0 <= i < j < |roots| :: roots[i] != roots[j]
  }

  method CollectNodes(nodes: seq<Node>) returns (ok: bool, tree: Tree, roots: seq<string>)
    ensures ok <==> (forall i | 0 <= i < |nodes| :: NodeOk(nodes[i])) && UniqueIds(nodes)
    ensures ok ==> tree == ById(nodes) && RootsOf(tree, roots)
  {
    hide ById, UniqueIds, NodeOk;
    tree, roots := map[], [];
    var index := 0;
    EmptyNodes();
    while index < |nodes|
      invariant index <= |nodes| && tree == ById(nodes[..index])
      invariant forall i | 0 <= i < index :: NodeOk(nodes[i])
      invariant UniqueIds(nodes[..index]) && RootsOf(tree, roots)
    {
      var node := nodes[index];
      assert nodes[..index + 1] == nodes[..index] + [node];
      AppendNode(nodes[..index], node);
      if !NodeOk(node) { return false, tree, roots; }
      if node.id in tree {
        if UniqueIds(nodes) { PrefixUnique(nodes, index + 1); }
        return false, tree, roots;
      }
      if node.parent.None? { roots := roots + [node.id]; }
      tree := tree[node.id := node];
      index := index + 1;
    }
    assert nodes[..index] == nodes;
    ok := true;
  }

  lemma EmptyNodes()
    ensures ById([]) == map[] && UniqueIds([])
  {
  }

  lemma OneRoot(tree: Tree, roots: seq<string>, root: string, width: nat, height: nat)
    requires RootsOf(tree, roots) && IsRoot(tree, root, width, height)
    ensures roots == [root]
  {
    assert root in roots;
    assert |roots| > 1 ==> roots[0] != roots[1];
    forall i | 0 <= i < |roots| ensures roots[i] == root { assert roots[i] in roots; }
  }

  lemma RootExactly(tree: Tree, roots: seq<string>, width: nat, height: nat)
    requires RootsOf(tree, roots)
    ensures |roots| == 1 ==> roots[0] in tree
    ensures (exists root :: IsRoot(tree, root, width, height))
      <==> |roots| == 1 && CoversViewport(tree[roots[0]], width, height)
  {
    hide CoversViewport;
    if root :| IsRoot(tree, root, width, height) { OneRoot(tree, roots, root, width, height); }
    if |roots| == 1 {
      assert roots[0] in roots;
      if CoversViewport(tree[roots[0]], width, height) {
        forall id | id in tree ensures tree[id].parent.None? <==> id == roots[0] {
          assert id in roots <==> tree[id].parent.None?;
        }
        assert IsRoot(tree, roots[0], width, height);
      }
    }
  }

  /** The nodes are checked in whatever order the map yields them. */
  method CheckLinks(tree: Tree) returns (ok: bool)
    ensures ok <==> Contained(tree) && Acyclic(tree)
  {
    var todo := tree.Keys;
    while todo != {}
      invariant todo <= tree.Keys
      invariant forall id | id in tree && id !in todo && tree[id].parent.Some? ::
        tree[id].parent.value in tree && InsideParent(tree[id], tree[tree[id].parent.value])
      invariant forall id | id in tree && id !in todo :: Walk(tree, Some(id), |tree|).None?
      decreases |todo|
    {
      var id :| id in todo;
      var node := tree[id];
      if node.parent.Some? {
        if node.parent.value !in tree || !InsideParent(node, tree[node.parent.value]) { return false; }
      }
      var ends := ReachesEnd(tree, id);
      if !ends {
        if Contained(tree) && Acyclic(tree) {
          var steps: nat :| Walk(tree, Some(id), steps).None?;
          EndsWithinSize(tree, id, steps);
        }
        return false;
      }
      todo := todo - {id};
    }
    ok := true;
  }

  method ValidateNodes(nodes: seq<Node>, width: nat, height: nat) returns (ok: bool)
    ensures ok <==> Accepts(nodes, width, height)
  {
    hide ById, UniqueIds, NodeOk, Contained, Acyclic, CoversViewport, IsRoot;
    var tree, roots;
    ok, tree, roots := CollectNodes(nodes);
    if !ok { return false; }
    RootExactly(tree, roots, width, height);
    if |roots| != 1 { return false; }
    if !CoversViewport(tree[roots[0]], width, height) { return false; }
    ok := CheckLinks(tree);
  }

  // ---- what the tests on rectangles mean ----

  predicate Covers(x: real, y: real, width: real, height: real, px: real, py: real) {
    x <= px <= x + width && y <= py <= y + height
  }

  /** A node is inside its parent exactly when every point of its rectangle is one of the parent's. */
  lemma InsideMeans(n: Node, parent: Node)
    requires n.width > 0.0 && n.height > 0.0
    ensures InsideParent(n, parent) <==>
      forall px, py | Covers(n.x, n.y, n.width, n.height, px, py) ::
        Covers(0.0, 0.0, parent.width, parent.height, px, py)
  {
    if forall px, py | Covers(n.x, n.y, n.width, n.height, px, py) ::
      Covers(0.0, 0.0, parent.width, parent.height, px, py)
    {
      assert Covers(n.x, n.y, n.width, n.height, n.x, n.y);
      assert Covers(n.x, n.y, n.width, n.height, n.x + n.width, n.y + n.height);
    }
  }

  ghost predicate SamePoints(n: Node, width: real, height: real) {
    forall px, py ::
      Covers(n.x, n.y, n.width, n.height, px, py) <==> Covers(0.0, 0.0, width, height, px, py)
  }

  /** A root covers the viewport exactly when its points are those of the viewport. */
  lemma ViewportMeans(n: Node, width: nat, height: nat)
    requires n.width > 0.0 && n.height > 0.0
    ensures CoversViewport(n, width, height) <==> SamePoints(n, width as real, height as real)
  {
    if SamePoints(n, width as real, height as real) {
      var w, h := width as real, height as real;
      assert Covers(0.0, 0.0, w, h, n.x, n.y);
      assert Covers(0.0, 0.0, w, h, n.x + n.width, n.y + n.height);
      assert Covers(n.x, n.y, n.width, n.height, 0.0, 0.0);
      assert Covers(n.x, n.y, n.width, n.height, w, h);
    }
  }
}
