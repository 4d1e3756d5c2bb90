/**
 * SimpleBST on the heap: BSTNode objects whose fields the operations update
 * in place, and the tree object holding root, size and cachedValue.
 *
 * Each subtree comes with two ghost companions: its Shape, the tree of node
 * references reachable from its link, and the TreeSpec value its nodes hold.
 * The shape gives the footprint (Objs) and the exclusive ownership of nodes
 * by one parent slot (Disjoint); Holds ties links, shape and value together.
 */
module SimpleBstHeap {
  import opened TreeSpec
  import TreeLemmas

  /** BSTNode: a key, its value and two child links. */
  class Node<V> {
    var key: int
    var value: V
    var left: Node?<V>
    var right: Node?<V>

    /** A fresh leaf. */
    constructor (key: int, value: V)
      ensures this.key == key && this.value == value
      ensures left == null && right == null
    {
      this.key := key;
      this.value := value;
      left := null;
      right := null;
    }
  }

  /** The node references of a subtree, arranged as the links arrange them. */
  datatype Shape<V> = Hole | Cell(node: Node<V>, left: Shape<V>, right: Shape<V>)

  ghost function Objs<V>(s: Shape<V>): set<Node<V>>
  {
    match s
    case Hole => {}
    case Cell(n, l, r) => {n} + Objs(l) + Objs(r)
  }

  /** No node occurs twice: every node is owned by exactly one parent slot. */
  ghost predicate Disjoint<V>(s: Shape<V>)
  {
    match s
    case Hole => true
    case Cell(n, l, r) =>
      && n !in Objs(l) && n !in Objs(r) && Objs(l) !! Objs(r)
      && Disjoint(l) && Disjoint(r)
  }

  /** The link p and the child links below it follow the shape s, and the
      nodes of s hold the keys and values of t, arranged as in t. */
  ghost predicate Holds<V>(p: Node?<V>, s: Shape<V>, t: Tree<V>)
    reads Objs(s)
  {
    match s
    case Hole => p == null && t == Nil
    case Cell(n, l, r) =>
      && p == n && t.Node? && n.key == t.key && n.value == t.value
      && Holds(n.left, l, t.left) && Holds(n.right, r, t.right)
  }

  /** A null link stands for an empty subtree and only for it. */
  lemma HoldsNull<V>(p: Node?<V>, s: Shape<V>, t: Tree<V>)
    requires Holds(p, s, t)
    ensures p == null <==> s == Hole
    ensures p == null <==> t == Nil
  {
  }

  /** t is s or lies on the chain of right children below s. */
  ghost predicate OnRightSpine<V>(t: Shape<V>, s: Shape<V>)
  {
    t == s || (s.Cell? && OnRightSpine(t, s.right))
  }

  /** The shape after the splice: r hung under the last cell of l's right
      spine. */
  ghost function GraftShape<V>(l: Shape<V>, r: Shape<V>): (g: Shape<V>)
    requires l.Cell?
    ensures Objs(g) == Objs(l) + Objs(r)
  {
    if l.right == Hole then Cell(l.node, l.left, r)
    else Cell(l.node, l.left, GraftShape(l.right, r))
  }

  lemma {:induction false} ObjsAllocated<V>(s: Shape<V>)
    ensures forall o | o in Objs(s) :: allocated(o)
  {
    match s
    case Hole =>
    case Cell(_, l, r) =>
      ObjsAllocated(l);
      ObjsAllocated(r);
  }

  /** Number of cells of a shape. */
  ghost function Cells<V>(s: Shape<V>): nat
  {
    match s
    case Hole => 0
    case Cell(_, l, r) => Cells(l) + Cells(r) + 1
  }

  /** With exclusive ownership a shape has as many nodes as cells. */
  lemma {:induction false} ObjsCount<V>(s: Shape<V>)
    requires Disjoint(s)
    ensures |Objs(s)| == Cells(s)
  {
    match s
    case Hole =>
    case Cell(n, l, r) =>
      ObjsCount(l);
      ObjsCount(r);
      assert |Objs(l) + Objs(r)| == |Objs(l)| + |Objs(r)|;
      assert {n} !! Objs(l) + Objs(r);
  }

  /** A shape has one cell per node of the value it holds. */
  lemma {:induction false} CellsCount<V>(p: Node?<V>, s: Shape<V>, t: Tree<V>)
    requires Holds(p, s, t)
    ensures Cells(s) == Size(t)
  {
    match s
    case Hole =>
    case Cell(n, l, r) =>
      CellsCount(n.left, l, t.left);
      CellsCount(n.right, r, t.right);
  }

  lemma {:induction false} SpineStep<V>(t: Shape<V>, s: Shape<V>)
    requires OnRightSpine(t, s) && t.Cell?
    ensures OnRightSpine(t.right, s)
  {
    if t != s {
      SpineStep(t, s.right);
    }
  }

  lemma {:induction false} SpineOwned<V>(t: Shape<V>, s: Shape<V>)
    requires OnRightSpine(t, s) && t.Cell?
    ensures t.node in Objs(s)
  {
    if t != s {
      SpineOwned(t, s.right);
    }
  }

  lemma {:induction false} GraftShapeDisjoint<V>(l: Shape<V>, r: Shape<V>)
    requires l.Cell? && Disjoint(l) && Disjoint(r) && Objs(l) !! Objs(r)
    ensures Disjoint(GraftShape(l, r))
  {
    if l.right != Hole {
      GraftShapeDisjoint(l.right, r);
    }
  }

  /** The splice of remove: when the only field written since the old state
      is the right link of the last cell t of l's right spine, now pointing
      at the root rp of r, the links follow GraftShape(l, r) and hold the
      value Graft(tl, tr). */
  twostate lemma Splice<V>(new l: Shape<V>, new r: Shape<V>, new t: Shape<V>, new rp: Node?<V>,
                           new tl: Tree<V>, new tr: Tree<V>)
    requires old(allocated(l)) && old(allocated(r)) && old(allocated(t)) && old(allocated(rp))
    requires old(allocated(tl)) && old(allocated(tr))
    requires l.Cell? && t.Cell? && OnRightSpine(t, l) && t.right == Hole
    requires Disjoint(l) && Objs(l) !! Objs(r)
    requires old(Holds(l.node, l, tl)) && old(Holds(rp, r, tr))
    requires old(forall o | o in Objs(l) + Objs(r) :: allocated(o))
    requires unchanged(Objs(l) - {t.node}) && unchanged(Objs(r))
    requires t.node.key == old(t.node.key) && t.node.value == old(t.node.value)
    requires t.node.left == old(t.node.left) && t.node.right == rp
    ensures tl.Node? && Holds(l.node, GraftShape(l, r), Graft(tl, tr))
  {
    if l.right == Hole {
      assert t == l;
      assert Objs(l.left) <= Objs(l) - {t.node};
    } else {
      assert t != l;
      SpineOwned(t, l.right);
      assert l.node != t.node;
      assert Objs(l.left) <= Objs(l) - {t.node};
      assert Objs(l.right) - {t.node} <= Objs(l) - {t.node};
      assert Objs(l.right) + Objs(r) <= Objs(l) + Objs(r);
      Splice(l.right, r, t, rp, tl.right, tr);
    }
  }

  /** Holds depends only on the fields of the shape's nodes. */
  twostate lemma HoldsKept<V>(new p: Node?<V>, new s: Shape<V>, new t: Tree<V>)
    requires old(allocated(p)) && old(allocated(s)) && old(allocated(t))
    requires old(forall o | o in Objs(s) :: allocated(o))
    requires old(Holds(p, s, t)) && unchanged(Objs(s))
    ensures Holds(p, s, t)
  {
  }

  /** The failures of get: a null key, and a key that is not in the tree. */
  datatype Failure = NullPointer | IndexOutOfBounds(key: int)

  datatype Result<V> = Ok(value: V) | Err(error: Failure)

  /** SimpleBST. The comparator is the integer order on keys. */
  class SimpleBST<V> {
    var root: Node?<V>
    var size: int
    var cachedValue: Option<V>

    /** The node references reachable from root. */
    ghost var shape: Shape<V>
    /** The map the tree stands for. */
    ghost var model: Tree<V>
    /** How many calls of remove found their key. */
    ghost var removed: nat

    /** Between public calls: the root link and the child links form a tree
        of exclusively owned nodes holding model, which is ordered by key;
        size counts every node ever added, that is the nodes now present
        plus those removed, as remove does not decrement it. */
    ghost predicate Valid()
      reads this, Objs(shape)
    {
      && Disjoint(shape) && Holds(root, shape, model)
      && IsBst(model)
      && size == Size(model) + removed
    }

    /** An empty tree. */
    constructor ()
      ensures Valid() && model == Nil
      ensures size == 0 && cachedValue == None
    {
      root := null;
      size := 0;
      cachedValue := None;
      shape := Hole;
      model := Nil;
      removed := 0;
    }

    /** size - removed is the number of nodes in the tree. */
    lemma SizeCountsNodes()
      requires Valid()
      ensures size - removed == |Objs(shape)|
    {
      ObjsCount(shape);
      CellsCount(root, shape, model);
    }

    // -------------------------------------------------------------------
    // set
    // -------------------------------------------------------------------

    /** set(node, key, value): returns the link to put in place of node;
        leaves the previous value in cachedValue and counts a new node in
        size. A present key keeps every node and link; a new key adds
        exactly one fresh node. */
    method SetFrom(node: Node?<V>, ghost s: Shape<V>, ghost t: Tree<V>, key: int, value: V)
      returns (r: Node<V>, ghost s': Shape<V>)
      requires Disjoint(s) && Holds(node, s, t)
      modifies Objs(s), this`size, this`cachedValue
      ensures Disjoint(s') && Holds(r, s', Put(t, key, value).tree)
      ensures Objs(s) <= Objs(s') && fresh(Objs(s') - Objs(s))
      ensures cachedValue == Put(t, key, value).prev
      ensures size == old(size) + (if cachedValue.None? then 1 else 0)
      ensures cachedValue.Some? ==> s' == s
      decreases s
    {
      if node == null {
        cachedValue := None;
        size := size + 1;
        r := new Node(key, value);
        s' := Cell(r, Hole, Hole);
        return;
      }
      var Cell(_, sl, sr) := s;
      if key == node.key {
        cachedValue := Some(node.value);
        node.value := value;
        r, s' := node, s;
      } else if key < node.key {
        ObjsAllocated(sr);
        var l, sl' := SetFrom(node.left, sl, t.left, key, value);
        ObjsAllocated(sl');
        label Returned:
        node.left := l;
        HoldsKept@Returned(l, sl', Put(t.left, key, value).tree);
        HoldsKept(node.right, sr, t.right);
        r, s' := node, Cell(node, sl', sr);
      } else {
        ObjsAllocated(sl);
        var rt, sr' := SetFrom(node.right, sr, t.right, key, value);
        ObjsAllocated(sr');
        label Returned:
        node.right := rt;
        HoldsKept@Returned(rt, sr', Put(t.right, key, value).tree);
        HoldsKept(node.left, sl, t.left);
        r, s' := node, Cell(node, sl, sr');
      }
    }

    /** set(key, value): insert or overwrite; returns the previous value
        (None for a new key). */
    method Set(key: int, value: V) returns (prev: Option<V>)
      requires Valid()
      modifies this, Objs(shape)
      ensures Valid()
      ensures model == Put(old(model), key, value).tree
      ensures prev == Find(old(model), key)
      ensures cachedValue == prev
      ensures old(Objs(shape)) <= Objs(shape) && fresh(Objs(shape) - old(Objs(shape)))
      ensures prev.Some? ==> shape == old(shape)
      ensures removed == old(removed)
    {
      TreeLemmas.PutKeepsBst(model, key, value);
      ghost var t' := Put(model, key, value).tree;
      var r;
      ghost var s';
      r, s' := SetFrom(root, shape, model, key, value);
      assert Holds(r, s', t') && Size(t') == Size(model) + (if cachedValue.None? then 1 else 0);
      ObjsAllocated(s');
      label Relinked:
      root, shape, model := r, s', t';
      HoldsKept@Relinked(r, s', t');
      prev := cachedValue;
    }

    // -------------------------------------------------------------------
    // get
    // -------------------------------------------------------------------

    /** get(key, node): the value of the node with the key, or
        IndexOutOfBounds where the descent reaches a null link. */
    function GetFrom(key: int, node: Node?<V>, ghost s: Shape<V>, ghost t: Tree<V>): (r: Result<V>)
      requires Holds(node, s, t)
      reads Objs(s)
      ensures r.Ok? <==> Find(t, key).Some?
      ensures r.Ok? ==> Find(t, key) == Some(r.value)
      ensures r.Err? ==> r.error == IndexOutOfBounds(key)
      decreases s
    {
      if node == null then Err(IndexOutOfBounds(key))
      else if key == node.key then Ok(node.value)
      else if key < node.key then GetFrom(key, node.left, s.left, t.left)
      else GetFrom(key, node.right, s.right, t.right)
    }

    /** get(key): NullPointer for a null key (None); otherwise the value the
        tree maps the key to, or IndexOutOfBounds for a missing key. */
    function Get(key: Option<int>): (r: Result<V>)
      requires Valid()
      reads this, Objs(shape)
      ensures key.None? ==> r == Err(NullPointer)
      ensures key.Some? ==> (r.Ok? <==> key.value in Entries(model))
      ensures key.Some? && r.Ok? ==> key.value in Entries(model) && r.value == Entries(model)[key.value]
      ensures key.Some? && r.Err? ==> r.error == IndexOutOfBounds(key.value)
    {
      if key.None? then Err(NullPointer)
      else
        TreeLemmas.FindMatchesEntries(model, key.value);
        GetFrom(key.value, root, shape, model)
    }

    // -------------------------------------------------------------------
    // remove
    // -------------------------------------------------------------------

    /** remove(node, key): returns the link to put in place of node and
        leaves in cachedValue the value of the node with the key (None if
        there is none). No node is created; only links change. */
    method RemoveFrom(node: Node?<V>, ghost s: Shape<V>, ghost t: Tree<V>, key: int)
      returns (r: Node?<V>, ghost s': Shape<V>)
      requires Disjoint(s) && Holds(node, s, t)
      modifies Objs(s), this`cachedValue
      ensures Disjoint(s') && Holds(r, s', Delete(t, key).tree)
      ensures Objs(s') <= Objs(s)
      ensures cachedValue == Delete(t, key).prev
      ensures cachedValue.None? ==> s' == s
      decreases s
    {
      if node == null {
        cachedValue := None;
        return null, Hole;
      }
      var Cell(_, sl, sr) := s;
      cachedValue := Some(node.value);
      if key == node.key {
        r, s' := Unhook(node, s, t);
      } else if key < node.key {
        ObjsAllocated(sr);
        var l, sl' := RemoveFrom(node.left, sl, t.left, key);
        assert node.key == t.key && node.value == t.value && Holds(node.right, sr, t.right);
        node.left := l;
        assert Holds(l, sl', Delete(t.left, key).tree) && Holds(node.right, sr, t.right);
        r, s' := node, Cell(node, sl', sr);
      } else {
        ObjsAllocated(sl);
        var rt, sr' := RemoveFrom(node.right, sr, t.right, key);
        assert node.key == t.key && node.value == t.value && Holds(node.left, sl, t.left);
        node.right := rt;
        assert Holds(rt, sr', Delete(t.right, key).tree) && Holds(node.left, sl, t.left);
        r, s' := node, Cell(node, sl, sr');
      }
    }

    /** The matching-node case of remove(node, key): the link that replaces
        node is null for a leaf, the only child for a node with one child,
        and the left child, with the right subtree hung under its rightmost
        node, for a node with two. */
    method Unhook(node: Node<V>, ghost s: Shape<V>, ghost t: Tree<V>) returns (r: Node?<V>, ghost s': Shape<V>)
      requires Disjoint(s) && Holds(node, s, t)
      modifies Objs(s)
      ensures t.Node? && Disjoint(s') && Holds(r, s', Unlink(t.left, t.right))
      ensures Objs(s') <= Objs(s) - {node}
    {
      var Cell(_, sl, sr) := s;
      HoldsNull(node.left, sl, t.left);
      HoldsNull(node.right, sr, t.right);
      if node.left == null && node.right == null {
        r, s' := null, Hole;
      } else if node.left == null {
        r, s' := node.right, sr;
      } else if node.right == null {
        r, s' := node.left, sl;
      } else {
        HangRight(node.left, sl, t.left, node.right, sr, t.right);
        r, s' := node.left, GraftShape(sl, sr);
      }
    }

    /** The two-child case: walk right links from the left child to the node
        that has none and hang the right subtree there. */
    method HangRight(left: Node<V>, ghost sl: Shape<V>, ghost tl: Tree<V>,
                     right: Node<V>, ghost sr: Shape<V>, ghost tr: Tree<V>)
      requires Disjoint(sl) && Disjoint(sr) && Objs(sl) !! Objs(sr)
      requires Holds(left, sl, tl) && Holds(right, sr, tr)
      modifies Objs(sl)
      ensures sl.Cell? && tl.Node? && Disjoint(GraftShape(sl, sr))
      ensures Holds(left, GraftShape(sl, sr), Graft(tl, tr))
    {
      ObjsAllocated(sl);
      ObjsAllocated(sr);
      var temp := left;
      ghost var t, u := sl, tl;
      while temp.right != null
        invariant t.Cell? && OnRightSpine(t, sl) && Holds(temp, t, u)
        invariant unchanged(Objs(sl)) && old(allocated(t))
        decreases t
      {
        SpineStep(t, sl);
        temp, t, u := temp.right, t.right, u.right;
      }
      SpineOwned(t, sl);
      temp.right := right;
      Splice(sl, sr, t, right, tl, tr);
      GraftShapeDisjoint(sl, sr);
    }

    /** remove(key): takes the key out; returns its value, or None (and
        changes nothing) when it is absent. size is left as it was. */
    method Remove(key: int) returns (prev: Option<V>)
      requires Valid()
      modifies this, Objs(shape)
      ensures Valid()
      ensures model == Delete(old(model), key).tree
      ensures prev == Find(old(model), key) && cachedValue == prev
      ensures Objs(shape) <= old(Objs(shape))
      ensures prev.None? ==> shape == old(shape)
      ensures size == old(size)
      ensures removed == old(removed) + (if prev.Some? then 1 else 0)
    {
      TreeLemmas.DeleteKeepsBst(model, key);
      ghost var t' := Delete(model, key).tree;
      var r;
      ghost var s';
      r, s' := RemoveFrom(root, shape, model, key);
      assert Holds(r, s', t') && Size(t') == Size(model) - (if cachedValue.Some? then 1 else 0);
      ObjsAllocated(s');
      label Relinked:
      root, shape, model := r, s', t';
      HoldsKept@Relinked(r, s', t');
      prev := cachedValue;
      removed := removed + (if prev.Some? then 1 else 0);
    }

    // -------------------------------------------------------------------
    // forEach and dump
    // -------------------------------------------------------------------

    /** forEach(action, node): the (key, value) calls made to the action. */
    function ForEachFrom(node: Node?<V>, ghost s: Shape<V>, ghost t: Tree<V>): (calls: seq<(int, V)>)
      requires Holds(node, s, t)
      reads Objs(s)
      ensures calls == PreOrder(t)
      decreases s
    {
      if node == null then []
      else
        HoldsNull(node.left, s.left, t.left);
        HoldsNull(node.right, s.right, t.right);
        [(node.key, node.value)]
        + (if node.left != null then ForEachFrom(node.left, s.left, t.left) else [])
        + (if node.right != null then ForEachFrom(node.right, s.right, t.right) else [])
    }

    /** forEach(action): every entry handed to the action once, node before
        its subtrees. */
    function ForEach(): (calls: seq<(int, V)>)
      requires Valid()
      reads this, Objs(shape)
      ensures calls == PreOrder(model)
      ensures forall x | x in Keys(model) :: multiset(KeysOf(calls))[x] == 1
      ensures forall e | e in calls :: e.0 in Entries(model) && Entries(model)[e.0] == e.1
    {
      TreeLemmas.PreOrderVisitsEachEntryOnce(model);
      ForEachFrom(root, shape, model)
    }

    /** dump(pen, node, indent): the lines printed. */
    function DumpFrom(node: Node?<V>, ghost s: Shape<V>, ghost t: Tree<V>, indent: string,
                      showKey: int -> string, showValue: V -> string): (out: seq<string>)
      requires Holds(node, s, t)
      reads Objs(s)
      ensures out == Rendered(DumpLines(t, indent), showKey, showValue)
      decreases s
    {
      if node == null then [indent + "<>"]
      else
        HoldsNull(node.left, s.left, t.left);
        HoldsNull(node.right, s.right, t.right);
        TreeLemmas.RenderedNode(node.key, node.value, t.left, t.right, indent, showKey, showValue);
        [indent + showKey(node.key) + ": " + showValue(node.value)]
        + if node.left != null || node.right != null then
            DumpFrom(node.left, s.left, t.left, indent + "  ", showKey, showValue)
            + DumpFrom(node.right, s.right, t.right, indent + "  ", showKey, showValue)
          else []
    }

    /** dump(pen): the lines printed, starting at indentation "". */
    function Dump(showKey: int -> string, showValue: V -> string): (out: seq<string>)
      requires Valid()
      reads this, Objs(shape)
      ensures out == Rendered(DumpLines(model, ""), showKey, showValue)
    {
      DumpFrom(root, shape, model, "", showKey, showValue)
    }
  }
}
