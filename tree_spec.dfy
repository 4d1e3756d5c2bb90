/**
 * The binary search tree of SimpleBST as an immutable value.
 *
 * A subtree is either an empty slot (a null link) or a node holding a key, a
 * value and two children. The node-returning recursions set(node, key, value)
 * and remove(node, key) become the functions Put and Delete; each returns the
 * rebuilt subtree together with the value that the recursion leaves in the
 * cachedValue field. Keys are integers: the comparator is modelled by the
 * integer order, so "compares less", "equal" and "greater" are <, == and >.
 */
module TreeSpec {

  datatype Option<T> = None | Some(value: T)

  /** A subtree: Nil is an empty link, Node mirrors BSTNode's four fields. */
  datatype Tree<V> = Nil | Node(key: int, value: V, left: Tree<V>, right: Tree<V>)

  /** The result of a node-returning recursion: the subtree link handed back
      to the parent, and the value left in cachedValue (None is Java's null). */
  datatype Edit<V> = Edit(tree: Tree<V>, prev: Option<V>)

  // ---------------------------------------------------------------------
  // Views of a tree
  // ---------------------------------------------------------------------

  function Keys<V>(t: Tree<V>): set<int>
  {
    match t
    case Nil => {}
    case Node(k, _, l, r) => Keys(l) + Keys(r) + {k}
  }

  /** Number of nodes. */
  function Size<V>(t: Tree<V>): nat
  {
    match t
    case Nil => 0
    case Node(_, _, l, r) => Size(l) + Size(r) + 1
  }

  /** The ordering invariant: every key in a left subtree is smaller than the
      node's key, every key in a right subtree larger, at every node. It also
      rules out two nodes with equal keys. */
  predicate IsBst<V>(t: Tree<V>)
  {
    match t
    case Nil => true
    case Node(k, _, l, r) =>
      && (forall x | x in Keys(l) :: x < k)
      && (forall x | x in Keys(r) :: k < x)
      && IsBst(l) && IsBst(r)
  }

  /** The entry set of the tree as a map from keys to values. */
  function Entries<V>(t: Tree<V>): map<int, V>
  {
    match t
    case Nil => map[]
    case Node(k, v, l, r) => (Entries(l) + Entries(r))[k := v]
  }

  /** The keys and links of a tree with the values erased. */
  function Skeleton<V>(t: Tree<V>): Tree<()>
  {
    match t
    case Nil => Nil
    case Node(k, _, l, r) => Node(k, (), Skeleton(l), Skeleton(r))
  }

  /** The keys in symmetric (left, node, right) order. A reference view used to
      state that the link surgery of remove keeps the key order. */
  function InOrder<V>(t: Tree<V>): (s: seq<int>)
    ensures |s| == Size(t)
  {
    match t
    case Nil => []
    case Node(k, _, l, r) => InOrder(l) + [k] + InOrder(r)
  }

  predicate Ascending(s: seq<int>)
  {
    forall i, j | 0 <= i < j < |s| :: s[i] < s[j]
  }

  /** s with every occurrence of x taken out. */
  function Drop(s: seq<int>, x: int): (r: seq<int>)
    ensures x !in s ==> r == s
  {
    if s == [] then []
    else if s[0] == x then Drop(s[1..], x)
    else [s[0]] + Drop(s[1..], x)
  }

  /** The last node of the right spine: the node with the largest key. */
  function RightmostKey<V>(t: Tree<V>): int
    requires t.Node?
  {
    if t.right == Nil then t.key else RightmostKey(t.right)
  }

  // ---------------------------------------------------------------------
  // Lookup: get(key, node)
  // ---------------------------------------------------------------------

  /** The descent of get(key, node): None where the Java code reaches a null
      link and throws. */
  function Find<V>(t: Tree<V>, key: int): (r: Option<V>)
    ensures r.Some? ==> key in Keys(t)
  {
    match t
    case Nil => None
    case Node(k, v, l, rt) =>
      if key == k then Some(v)
      else if key < k then Find(l, key)
      else Find(rt, key)
  }

  // ---------------------------------------------------------------------
  // Insertion: set(node, key, value)
  // ---------------------------------------------------------------------

  /** Insert-or-overwrite. On an empty slot a new leaf is made and the previous
      value is None; on an equal key only that node's value changes and the
      old value is returned; otherwise the descent goes left on a smaller key
      and right on a larger one and the child link is re-attached. */
  function Put<V>(t: Tree<V>, key: int, value: V): (r: Edit<V>)
    ensures r.prev == Find(t, key)
    ensures Keys(r.tree) == Keys(t) + {key}
    ensures Size(r.tree) == Size(t) + (if r.prev.None? then 1 else 0)
    ensures r.prev.Some? ==> Skeleton(r.tree) == Skeleton(t)
  {
    match t
    case Nil => Edit(Node(key, value, Nil, Nil), None)
    case Node(k, v, l, rt) =>
      if key == k then Edit(Node(k, value, l, rt), Some(v))
      else if key < k then
        var e := Put(l, key, value);
        Edit(Node(k, v, e.tree, rt), e.prev)
      else
        var e := Put(rt, key, value);
        Edit(Node(k, v, l, e.tree), e.prev)
  }

  // ---------------------------------------------------------------------
  // Deletion: remove(node, key)
  // ---------------------------------------------------------------------

  /** The splice of the two-child case: follow right links from l to the node
      that has no right child and hang r there. No key or value moves. */
  function Graft<V>(l: Tree<V>, r: Tree<V>): (g: Tree<V>)
    requires l.Node?
    ensures Keys(g) == Keys(l) + Keys(r)
    ensures Size(g) == Size(l) + Size(r)
  {
    var Node(k, v, a, b) := l;
    if b == Nil then Node(k, v, a, r)
    else Node(k, v, a, Graft(b, r))
  }

  /** What replaces a matching node: nothing for a leaf, the only child for a
      node with one child, the spliced left subtree otherwise. */
  function Unlink<V>(l: Tree<V>, r: Tree<V>): (u: Tree<V>)
    ensures Keys(u) == Keys(l) + Keys(r)
    ensures Size(u) == Size(l) + Size(r)
  {
    if l == Nil && r == Nil then Nil
    else if l == Nil then r
    else if r == Nil then l
    else Graft(l, r)
  }

  /** Delete. Reaching an empty slot yields None and changes nothing; on the
      way down every visited node's value is noted, so the value reported is
      the one of the matching node. */
  function Delete<V>(t: Tree<V>, key: int): (r: Edit<V>)
    ensures r.prev == Find(t, key)
    ensures key !in Keys(t) ==> r.tree == t
    ensures Keys(r.tree) <= Keys(t)
    ensures Size(r.tree) == Size(t) - (if r.prev.Some? then 1 else 0)
  {
    match t
    case Nil => Edit(Nil, None)
    case Node(k, v, l, rt) =>
      if key == k then Edit(Unlink(l, rt), Some(v))
      else if key < k then
        var e := Delete(l, key);
        Edit(Node(k, v, e.tree, rt), e.prev)
      else
        var e := Delete(rt, key);
        Edit(Node(k, v, l, e.tree), e.prev)
  }

  // ---------------------------------------------------------------------
  // Traversal: forEach(action, node) and dump(pen, node, indent)
  // ---------------------------------------------------------------------

  /** The (key, value) pairs forEach hands to its action, in call order:
      node first, then the left subtree, then the right subtree. */
  function PreOrder<V>(t: Tree<V>): (s: seq<(int, V)>)
    ensures |s| == Size(t)
  {
    match t
    case Nil => []
    case Node(k, v, l, r) => [(k, v)] + PreOrder(l) + PreOrder(r)
  }

  function KeysOf<V>(s: seq<(int, V)>): (ks: seq<int>)
    ensures |ks| == |s|
  {
    seq(|s|, i requires 0 <= i < |s| => s[i].0)
  }

  /** One line printed by dump: its indentation and either an entry
      ("key: value") or nothing (the empty marker "<>"). */
  datatype Line<V> = Line(indent: string, entry: Option<(int, V)>)

  /** The lines dump(pen, node, indent) prints, in order. Children are printed,
      two spaces further in, only when at least one of them is present. */
  function DumpLines<V>(t: Tree<V>, indent: string): (lines: seq<Line<V>>)
    ensures |lines| >= 1 && lines[0].indent == indent
    ensures lines[0].entry.None? <==> t == Nil
  {
    match t
    case Nil => [Line(indent, None)]
    case Node(k, v, l, r) =>
      [Line(indent, Some((k, v)))] +
      (if l == Nil && r == Nil then []
       else DumpLines(l, indent + "  ") + DumpLines(r, indent + "  "))
  }

  /** The text of one line, given the key's and the value's toString. */
  function Render<V>(line: Line<V>, showKey: int -> string, showValue: V -> string): string
  {
    line.indent +
    match line.entry
    case None => "<>"
    case Some(e) => showKey(e.0) + ": " + showValue(e.1)
  }

  /** The text of every line, in order: what dump hands to println. */
  function Rendered<V>(lines: seq<Line<V>>, showKey: int -> string, showValue: V -> string): (out: seq<string>)
    ensures |out| == |lines|
  {
    seq(|lines|, i requires 0 <= i < |lines| => Render(lines[i], showKey, showValue))
  }

  /** The entries that appear in a sequence of dump lines, in order. */
  function Shown<V>(lines: seq<Line<V>>): seq<(int, V)>
  {
    if lines == [] then []
    else (match lines[0].entry case None => [] case Some(e) => [e]) + Shown(lines[1..])
  }

  /** Number of empty-marker lines. */
  function Markers<V>(lines: seq<Line<V>>): nat
  {
    if lines == [] then 0
    else (if lines[0].entry.None? then 1 else 0) + Markers(lines[1..])
  }

  /** Number of nodes that have exactly one child. */
  function OneChildNodes<V>(t: Tree<V>): nat
  {
    match t
    case Nil => 0
    case Node(_, _, l, r) =>
      (if (l == Nil) != (r == Nil) then 1 else 0) + OneChildNodes(l) + OneChildNodes(r)
  }

  /** s is base followed by a whole number of two-space indentation steps. */
  predicate IndentedFrom(s: string, base: string)
  {
    && |base| <= |s| && s[..|base|] == base
    && (|s| - |base|) % 2 == 0
    && forall j | |base| <= j < |s| :: s[j] == ' '
  }

  // ---------------------------------------------------------------------
  // Histories of set calls
  // ---------------------------------------------------------------------

  /** The tree left by applying the set calls in order to t. */
  function Replay<V>(t: Tree<V>, calls: seq<(int, V)>): Tree<V>
  {
    if calls == [] then t
    else Put(Replay(t, calls[..|calls| - 1]), calls[|calls| - 1].0, calls[|calls| - 1].1).tree
  }

  /** The value of the last call for key, if there is one. */
  function LastValue<V>(calls: seq<(int, V)>, key: int): Option<V>
  {
    if calls == [] then None
    else if calls[|calls| - 1].0 == key then Some(calls[|calls| - 1].1)
    else LastValue(calls[..|calls| - 1], key)
  }

  function CalledKeys<V>(calls: seq<(int, V)>): set<int>
  {
    set i | 0 <= i < |calls| :: calls[i].0
  }
}
