/**
 * Properties of the tree operations of TreeSpec: the ordering invariant is
 * kept by insertion and by every case of deletion, the entry set changes as a
 * map would, the splice keeps the key order, and the two traversals (forEach
 * and dump) visit every node exactly once in pre-order.
 */
module TreeLemmas {
  import opened TreeSpec

  // ---------------------------------------------------------------------
  // Sequences
  // ---------------------------------------------------------------------

  lemma AscendingSplit(a: seq<int>, k: int, b: seq<int>)
    ensures Ascending(a + [k] + b) <==>
      && Ascending(a) && Ascending(b)
      && (forall x | x in a :: x < k) && (forall y | y in b :: k < y)
  {
    var s := a + [k] + b;
    if Ascending(s) {
      forall i, j | 0 <= i < j < |a| ensures a[i] < a[j] { assert s[i] == a[i] && s[j] == a[j]; }
      forall i, j | 0 <= i < j < |b| ensures b[i] < b[j] {
        assert s[|a| + 1 + i] == b[i] && s[|a| + 1 + j] == b[j];
      }
      forall x | x in a ensures x < k {
        var i :| 0 <= i < |a| && a[i] == x;
        assert s[i] == x && s[|a|] == k;
      }
      forall y | y in b ensures k < y {
        var i :| 0 <= i < |b| && b[i] == y;
        assert s[|a| + 1 + i] == y && s[|a|] == k;
      }
    }
    if && Ascending(a) && Ascending(b)
       && (forall x | x in a :: x < k) && (forall y | y in b :: k < y)
    {
      forall i, j | 0 <= i < j < |s| ensures s[i] < s[j] {
        if j < |a| {
          assert s[i] == a[i] && s[j] == a[j];
        } else if i < |a| {
          assert s[i] == a[i] && a[i] in a;
          if j > |a| { assert s[j] == b[j - |a| - 1] && b[j - |a| - 1] in b; }
        } else if i == |a| {
          assert s[j] == b[j - |a| - 1] && b[j - |a| - 1] in b;
        } else {
          assert s[i] == b[i - |a| - 1] && s[j] == b[j - |a| - 1];
        }
      }
    }
  }

  lemma {:induction false} DropConcat(a: seq<int>, b: seq<int>, x: int)
    ensures Drop(a + b, x) == Drop(a, x) + Drop(b, x)
  {
    if a == [] {
      assert a + b == b;
    } else {
      var h, a' := a[0], a[1..];
      assert a + b == [h] + (a' + b);
      DropConcat(a', b, x);
      if h != x {
        assert [h] + (Drop(a', x) + Drop(b, x)) == ([h] + Drop(a', x)) + Drop(b, x);
      }
    }
  }

  /** In an ascending sequence every element occurs exactly once. */
  lemma {:induction false} AscendingOccursOnce(s: seq<int>, x: int)
    requires Ascending(s) && x in s
    ensures multiset(s)[x] == 1
  {
    if s[0] == x {
      assert s == [s[0]] + s[1..];
      assert x !in s[1..] by {
        forall j | 0 <= j < |s[1..]| ensures s[1..][j] != x { assert s[1..][j] == s[j + 1]; }
      }
    } else {
      assert s == [s[0]] + s[1..];
      AscendingOccursOnce(s[1..], x);
    }
  }

  // ---------------------------------------------------------------------
  // Maps
  // ---------------------------------------------------------------------

  lemma UpdateBelow<V>(a: map<int, V>, b: map<int, V>, k: int, v: V, key: int, value: V)
    requires key != k && key !in b
    ensures (a[key := value] + b)[k := v] == (a + b)[k := v][key := value]
  {
  }

  lemma UpdateAbove<V>(a: map<int, V>, b: map<int, V>, k: int, v: V, key: int, value: V)
    requires key != k
    ensures (a + b[key := value])[k := v] == (a + b)[k := v][key := value]
  {
  }

  lemma RemoveBelow<V>(a: map<int, V>, b: map<int, V>, k: int, v: V, key: int)
    requires key != k && key !in b
    ensures ((a - {key}) + b)[k := v] == (a + b)[k := v] - {key}
  {
  }

  lemma RemoveAbove<V>(a: map<int, V>, b: map<int, V>, k: int, v: V, key: int)
    requires key != k && key !in a
    ensures (a + (b - {key}))[k := v] == (a + b)[k := v] - {key}
  {
  }

  lemma RemoveRoot<V>(a: map<int, V>, b: map<int, V>, k: int, v: V)
    requires k !in a && k !in b
    ensures a + b == (a + b)[k := v] - {k}
  {
  }

  lemma HoistRoot<V>(a: map<int, V>, b: map<int, V>, r: map<int, V>, k: int, v: V)
    requires k !in r
    ensures (a + (b + r))[k := v] == (a + b)[k := v] + r
  {
  }

  // ---------------------------------------------------------------------
  // The ordering invariant
  // ---------------------------------------------------------------------

  /** The in-order sequence holds exactly the keys of the tree. */
  lemma {:induction false} InOrderHoldsKeys<V>(t: Tree<V>)
    ensures forall x :: x in InOrder(t) <==> x in Keys(t)
  {
    match t
    case Nil =>
    case Node(k, _, l, r) =>
      InOrderHoldsKeys(l);
      InOrderHoldsKeys(r);
  }

  /** A tree is ordered exactly when its in-order key sequence is strictly
      ascending. */
  lemma {:induction false} BstIffAscending<V>(t: Tree<V>)
    ensures IsBst(t) <==> Ascending(InOrder(t))
  {
    match t
    case Nil =>
    case Node(k, _, l, r) =>
      BstIffAscending(l);
      BstIffAscending(r);
      InOrderHoldsKeys(l);
      InOrderHoldsKeys(r);
      AscendingSplit(InOrder(l), k, InOrder(r));
  }

  /** The entry map has exactly the keys of the tree. */
  lemma {:induction false} EntriesHoldKeys<V>(t: Tree<V>)
    ensures Entries(t).Keys == Keys(t)
  {
    match t
    case Nil =>
    case Node(k, v, l, r) =>
      EntriesHoldKeys(l);
      EntriesHoldKeys(r);
  }

  /** In an ordered tree the descent of get finds a key exactly when the
      key is in the entry map, and then yields the value the map holds. */
  lemma {:induction false} FindMatchesEntries<V>(t: Tree<V>, key: int)
    requires IsBst(t)
    ensures Find(t, key) == if key in Entries(t) then Some(Entries(t)[key]) else None
  {
    match t
    case Nil =>
    case Node(k, v, l, r) =>
      EntriesHoldKeys(l);
      EntriesHoldKeys(r);
      if key < k {
        FindMatchesEntries(l, key);
        assert key !in Keys(r);
      } else if key > k {
        FindMatchesEntries(r, key);
        assert key !in Keys(l);
      }
  }

  /** In an ordered tree the node count is the number of distinct keys. */
  lemma {:induction false} SizeIsKeyCount<V>(t: Tree<V>)
    requires IsBst(t)
    ensures Size(t) == |Keys(t)|
  {
    match t
    case Nil =>
    case Node(k, _, l, r) =>
      SizeIsKeyCount(l);
      SizeIsKeyCount(r);
      assert Keys(l) !! Keys(r) by {
        forall x | x in Keys(l) ensures x !in Keys(r) { }
      }
      assert k !in Keys(l) + Keys(r);
      assert |Keys(l) + Keys(r)| == |Keys(l)| + |Keys(r)|;
  }

  // ---------------------------------------------------------------------
  // set
  // ---------------------------------------------------------------------

  /** set keeps the tree ordered, and afterwards the entry set is the old one
      with key mapped to value. */
  lemma {:induction false} PutKeepsBst<V>(t: Tree<V>, key: int, value: V)
    requires IsBst(t)
    ensures IsBst(Put(t, key, value).tree)
    ensures Entries(Put(t, key, value).tree) == Entries(t)[key := value]
  {
    match t
    case Nil =>
    case Node(k, v, l, r) =>
      if key < k {
        var e := Put(l, key, value);
        assert Put(t, key, value).tree == Node(k, v, e.tree, r);
        PutKeepsBst(l, key, value);
        EntriesHoldKeys(r);
        UpdateBelow(Entries(l), Entries(r), k, v, key, value);
      } else if key > k {
        var e := Put(r, key, value);
        assert Put(t, key, value).tree == Node(k, v, l, e.tree);
        PutKeepsBst(r, key, value);
        UpdateAbove(Entries(l), Entries(r), k, v, key, value);
      }
  }

  /** After set(key, value), get(key) yields value and every other key looks
      up as before. */
  lemma GetAfterSet<V>(t: Tree<V>, key: int, value: V, other: int)
    requires IsBst(t)
    ensures Find(Put(t, key, value).tree, key) == Some(value)
    ensures other != key ==> Find(Put(t, key, value).tree, other) == Find(t, other)
  {
    PutKeepsBst(t, key, value);
    FindMatchesEntries(Put(t, key, value).tree, key);
    FindMatchesEntries(Put(t, key, value).tree, other);
    FindMatchesEntries(t, other);
  }

  /** set on an absent key adds a single leaf: removing that key again gives
      back the very same tree and reports the value just stored. */
  lemma {:induction false} PutFreshThenDelete<V>(t: Tree<V>, key: int, value: V)
    requires Put(t, key, value).prev.None?
    ensures Delete(Put(t, key, value).tree, key) == Edit(t, Some(value))
  {
    match t
    case Nil =>
    case Node(k, v, l, r) =>
      if key < k {
        PutFreshThenDelete(l, key, value);
      } else if key > k {
        PutFreshThenDelete(r, key, value);
      }
  }

  // ---------------------------------------------------------------------
  // remove
  // ---------------------------------------------------------------------

  /** The rightmost node of a tree carries its largest key. */
  lemma {:induction false} RightmostIsMax<V>(t: Tree<V>)
    requires t.Node? && IsBst(t)
    ensures RightmostKey(t) in Keys(t)
    ensures forall x | x in Keys(t) :: x <= RightmostKey(t)
  {
    if t.right != Nil {
      RightmostIsMax(t.right);
    }
  }

  /** The subtree reached by the descent of get for key (Nil if none). */
  function SubtreeAt<V>(t: Tree<V>, key: int): Tree<V>
  {
    match t
    case Nil => Nil
    case Node(k, _, l, r) =>
      if key == k then t else if key < k then SubtreeAt(l, key) else SubtreeAt(r, key)
  }

  /** The splice hangs r under the node of l holding l's largest key (the
      in-order predecessor of the removed key), a node that had no right
      child; that node keeps its key, value and left child. */
  lemma {:induction false} GraftUnderPredecessor<V>(l: Tree<V>, r: Tree<V>)
    requires l.Node? && IsBst(l)
    ensures SubtreeAt(l, RightmostKey(l)).Node?
    ensures SubtreeAt(l, RightmostKey(l)).right == Nil
    ensures SubtreeAt(Graft(l, r), RightmostKey(l)) == SubtreeAt(l, RightmostKey(l)).(right := r)
  {
    var Node(k, v, a, b) := l;
    if b != Nil {
      RightmostIsMax(b);
      GraftUnderPredecessor(b, r);
    }
  }

  /** Concatenating two ascending sequences, all of whose elements in a are
      below those in b, gives an ascending sequence. */
  lemma AscendingConcat(a: seq<int>, b: seq<int>)
    requires Ascending(a) && Ascending(b)
    requires forall x, y | x in a && y in b :: x < y
    ensures Ascending(a + b)
  {
    var s := a + b;
    forall i, j | 0 <= i < j < |s| ensures s[i] < s[j] {
      if j < |a| {
        assert s[i] == a[i] && s[j] == a[j];
      } else if i < |a| {
        assert s[i] == a[i] && s[j] == b[j - |a|];
        assert a[i] in a && b[j - |a|] in b;
      } else {
        assert s[i] == b[i - |a|] && s[j] == b[j - |a|];
      }
    }
  }

  /** The splice keeps the symmetric order: l's keys, then r's. */
  lemma {:induction false} GraftKeepsOrder<V>(l: Tree<V>, r: Tree<V>)
    requires l.Node?
    ensures InOrder(Graft(l, r)) == InOrder(l) + InOrder(r)
  {
    var Node(k, v, a, b) := l;
    if b != Nil {
      GraftKeepsOrder(b, r);
      assert InOrder(a) + [k] + (InOrder(b) + InOrder(r))
          == (InOrder(a) + [k] + InOrder(b)) + InOrder(r);
    }
  }

  lemma UnlinkKeepsOrder<V>(l: Tree<V>, r: Tree<V>)
    ensures InOrder(Unlink(l, r)) == InOrder(l) + InOrder(r)
  {
    if l != Nil && r != Nil {
      GraftKeepsOrder(l, r);
    } else if l == Nil {
      assert InOrder(l) + InOrder(r) == InOrder(r);
    } else {
      assert InOrder(l) + InOrder(r) == InOrder(l);
    }
  }

  /** The splice of two ordered trees, all of whose keys in l are below those
      in r, is ordered and holds exactly the keys of both. */
  lemma GraftKeepsBst<V>(l: Tree<V>, r: Tree<V>)
    requires l.Node? && IsBst(l) && IsBst(r)
    requires forall x, y | x in Keys(l) && y in Keys(r) :: x < y
    ensures IsBst(Graft(l, r))
  {
    InOrderHoldsKeys(l);
    InOrderHoldsKeys(r);
    BstIffAscending(l);
    BstIffAscending(r);
    AscendingConcat(InOrder(l), InOrder(r));
    GraftKeepsOrder(l, r);
    BstIffAscending(Graft(l, r));
  }

  /** The splice of trees with disjoint keys holds the union of their
      entries: no value is lost, copied or moved to another key. */
  lemma {:induction false} GraftEntries<V>(l: Tree<V>, r: Tree<V>)
    requires l.Node? && Keys(l) !! Keys(r)
    ensures Entries(Graft(l, r)) == Entries(l) + Entries(r)
  {
    var Node(k, v, a, b) := l;
    EntriesHoldKeys(r);
    assert k !in Entries(r);
    if b == Nil {
      assert Entries(b) == map[];
      assert Entries(a) + Entries(r) == Entries(a) + Entries(b) + Entries(r);
    } else {
      GraftEntries(b, r);
      HoistRoot(Entries(a), Entries(b), Entries(r), k, v);
    }
  }

  /** Removing the matching node keeps order and leaves exactly the entries
      of its two subtrees. */
  lemma UnlinkKeepsBst<V>(l: Tree<V>, r: Tree<V>)
    requires IsBst(l) && IsBst(r)
    requires forall x, y | x in Keys(l) && y in Keys(r) :: x < y
    ensures IsBst(Unlink(l, r))
    ensures Entries(Unlink(l, r)) == Entries(l) + Entries(r)
  {
    if l == Nil {
      assert Entries(l) + Entries(r) == Entries(r);
    } else if r == Nil {
      assert Entries(l) + Entries(r) == Entries(l);
    } else {
      GraftKeepsBst(l, r);
      assert Keys(l) !! Keys(r) by {
        forall x | x in Keys(l) ensures x !in Keys(r) { }
      }
      GraftEntries(l, r);
    }
  }

  /** remove keeps the tree ordered. */
  lemma {:induction false} DeleteKeepsBst<V>(t: Tree<V>, key: int)
    requires IsBst(t)
    ensures IsBst(Delete(t, key).tree)
  {
    match t
    case Nil =>
    case Node(k, v, l, r) =>
      if key == k {
        UnlinkKeepsBst(l, r);
      } else if key < k {
        DeleteKeepsBst(l, key);
        assert Delete(t, key).tree == Node(k, v, Delete(l, key).tree, r);
      } else {
        DeleteKeepsBst(r, key);
        assert Delete(t, key).tree == Node(k, v, l, Delete(r, key).tree);
      }
  }

  /** remove takes exactly key out of the entry set of an ordered tree. */
  lemma {:induction false} DeleteEntries<V>(t: Tree<V>, key: int)
    requires IsBst(t)
    ensures Entries(Delete(t, key).tree) == Entries(t) - {key}
  {
    match t
    case Nil =>
    case Node(k, v, l, r) =>
      EntriesHoldKeys(l);
      EntriesHoldKeys(r);
      if key == k {
        UnlinkKeepsBst(l, r);
        RemoveRoot(Entries(l), Entries(r), k, v);
      } else if key < k {
        DeleteEntries(l, key);
        assert Delete(t, key).tree == Node(k, v, Delete(l, key).tree, r);
        RemoveBelow(Entries(l), Entries(r), k, v, key);
      } else {
        DeleteEntries(r, key);
        assert Delete(t, key).tree == Node(k, v, l, Delete(r, key).tree);
        RemoveAbove(Entries(l), Entries(r), k, v, key);
      }
  }

  /** The link surgery of remove keeps the order of the remaining keys: the
      in-order sequence afterwards is the old one with key taken out. */
  lemma {:induction false} DeleteKeepsOrder<V>(t: Tree<V>, key: int)
    requires IsBst(t)
    ensures InOrder(Delete(t, key).tree) == Drop(InOrder(t), key)
  {
    match t
    case Nil =>
    case Node(k, v, l, r) =>
      var il, ir := InOrder(l), InOrder(r);
      assert InOrder(t) == (il + [k]) + ir;
      DropConcat(il + [k], ir, key);
      DropConcat(il, [k], key);
      if key == k {
        InOrderHoldsKeys(l);
        InOrderHoldsKeys(r);
        UnlinkKeepsOrder(l, r);
        assert Drop([k], key) == [];
        calc {
          Drop(InOrder(t), key);
          Drop(il, key) + Drop([k], key) + Drop(ir, key);
          il + [] + ir;
          { assert il + [] == il; }
          InOrder(Delete(t, key).tree);
        }
      } else if key < k {
        InOrderHoldsKeys(r);
        DeleteKeepsOrder(l, key);
        assert Drop([k], key) == [k];
        var e := Delete(l, key).tree;
        assert Delete(t, key).tree == Node(k, v, e, r);
        calc {
          Drop(InOrder(t), key);
          Drop(il, key) + Drop([k], key) + Drop(ir, key);
          InOrder(e) + [k] + ir;
          InOrder(Delete(t, key).tree);
        }
      } else {
        InOrderHoldsKeys(l);
        DeleteKeepsOrder(r, key);
        assert Drop([k], key) == [k];
        var e := Delete(r, key).tree;
        assert Delete(t, key).tree == Node(k, v, l, e);
        calc {
          Drop(InOrder(t), key);
          Drop(il, key) + Drop([k], key) + Drop(ir, key);
          il + [k] + InOrder(e);
          InOrder(Delete(t, key).tree);
        }
      }
  }

  /** After remove(key), get(key) fails and every other key looks up as
      before. */
  lemma GetAfterRemove<V>(t: Tree<V>, key: int, other: int)
    requires IsBst(t)
    ensures Find(Delete(t, key).tree, key) == None
    ensures other != key ==> Find(Delete(t, key).tree, other) == Find(t, other)
  {
    DeleteKeepsBst(t, key);
    DeleteEntries(t, key);
    FindMatchesEntries(Delete(t, key).tree, key);
    FindMatchesEntries(Delete(t, key).tree, other);
    FindMatchesEntries(t, other);
  }

  // ---------------------------------------------------------------------
  // forEach
  // ---------------------------------------------------------------------

  lemma KeysOfConcat<V>(a: seq<(int, V)>, b: seq<(int, V)>)
    ensures KeysOf(a + b) == KeysOf(a) + KeysOf(b)
  {
  }

  /** forEach visits the same keys as the in-order view, only in another
      order. */
  lemma {:induction false} PreOrderPermutesInOrder<V>(t: Tree<V>)
    ensures multiset(KeysOf(PreOrder(t))) == multiset(InOrder(t))
  {
    match t
    case Nil =>
    case Node(k, v, l, r) =>
      PreOrderPermutesInOrder(l);
      PreOrderPermutesInOrder(r);
      var pl, pr := PreOrder(l), PreOrder(r);
      KeysOfConcat([(k, v)] + pl, pr);
      KeysOfConcat([(k, v)], pl);
      assert KeysOf([(k, v)]) == [k];
      calc {
        multiset(KeysOf(PreOrder(t)));
        multiset([k] + KeysOf(pl) + KeysOf(pr));
        multiset([k]) + multiset(KeysOf(pl)) + multiset(KeysOf(pr));
        multiset(InOrder(l)) + multiset([k]) + multiset(InOrder(r));
        multiset(InOrder(l) + [k] + InOrder(r));
      }
  }

  /** On an ordered tree every call forEach makes passes a key of the tree
      with the value the tree maps it to. */
  lemma {:induction false} PreOrderEntries<V>(t: Tree<V>)
    requires IsBst(t)
    ensures forall e | e in PreOrder(t) :: e.0 in Entries(t) && Entries(t)[e.0] == e.1
  {
    match t
    case Nil =>
    case Node(k, v, l, r) =>
      PreOrderEntries(l);
      PreOrderEntries(r);
      EntriesHoldKeys(l);
      EntriesHoldKeys(r);
      forall e | e in PreOrder(t) ensures e.0 in Entries(t) && Entries(t)[e.0] == e.1 {
        if e in PreOrder(l) {
          assert e.0 in Keys(l);
          assert e.0 != k && e.0 !in Keys(r);
        } else if e in PreOrder(r) {
          assert e.0 in Keys(r);
          assert e.0 != k;
        }
      }
  }

  /** On an ordered tree forEach hands every key of the tree to its action
      exactly once, each with the value the tree maps it to, and no other
      key. */
  lemma PreOrderVisitsEachEntryOnce<V>(t: Tree<V>)
    requires IsBst(t)
    ensures forall x | x in Keys(t) :: multiset(KeysOf(PreOrder(t)))[x] == 1
    ensures forall e | e in PreOrder(t) :: e.0 in Entries(t) && Entries(t)[e.0] == e.1
  {
    PreOrderPermutesInOrder(t);
    BstIffAscending(t);
    InOrderHoldsKeys(t);
    forall x | x in Keys(t) ensures multiset(KeysOf(PreOrder(t)))[x] == 1 {
      AscendingOccursOnce(InOrder(t), x);
    }
    PreOrderEntries(t);
  }

  // ---------------------------------------------------------------------
  // dump
  // ---------------------------------------------------------------------

  lemma {:induction false} ShownConcat<V>(a: seq<Line<V>>, b: seq<Line<V>>)
    ensures Shown(a + b) == Shown(a) + Shown(b)
  {
    if a == [] {
      assert a + b == b;
    } else {
      assert (a + b)[0] == a[0] && (a + b)[1..] == a[1..] + b;
      ShownConcat(a[1..], b);
    }
  }

  lemma {:induction false} MarkersConcat<V>(a: seq<Line<V>>, b: seq<Line<V>>)
    ensures Markers(a + b) == Markers(a) + Markers(b)
  {
    if a == [] {
      assert a + b == b;
    } else {
      assert (a + b)[0] == a[0] && (a + b)[1..] == a[1..] + b;
      MarkersConcat(a[1..], b);
    }
  }

  /** The node lines of dump are exactly the calls forEach makes, in the same
      (pre-)order. */
  lemma {:induction false} DumpShowsPreOrder<V>(t: Tree<V>, indent: string)
    ensures Shown(DumpLines(t, indent)) == PreOrder(t)
  {
    match t
    case Nil =>
      var lines := DumpLines(t, indent);
      assert lines == [Line(indent, None)];
      assert Shown(lines) == [] + Shown(lines[1..]);
    case Node(k, v, l, r) =>
      var first: seq<Line<V>> := [Line(indent, Some((k, v)))];
      assert Shown(first) == [(k, v)] by {
        assert first[1..] == [];
        assert Shown(first) == [(k, v)] + Shown(first[1..]);
      }
      if l == Nil && r == Nil {
        assert DumpLines(t, indent) == first;
        assert PreOrder(t) == [(k, v)] + [] + [];
      } else {
        var dl, dr := DumpLines(l, indent + "  "), DumpLines(r, indent + "  ");
        assert DumpLines(t, indent) == first + (dl + dr);
        DumpShowsPreOrder(l, indent + "  ");
        DumpShowsPreOrder(r, indent + "  ");
        ShownConcat(first, dl + dr);
        ShownConcat(dl, dr);
        calc {
          Shown(first + (dl + dr));
          [(k, v)] + (PreOrder(l) + PreOrder(r));
          [(k, v)] + PreOrder(l) + PreOrder(r);
        }
      }
  }

  lemma IndentedFromStep(s: string, base: string)
    requires IndentedFrom(s, base + "  ")
    ensures IndentedFrom(s, base) && |s| > |base|
  {
    assert s[..|base|] == (base + "  ")[..|base|];
    forall j | |base| <= j < |s| ensures s[j] == ' ' {
      if j < |base| + 2 {
        assert s[j] == s[..|base| + 2][j] == (base + "  ")[j];
      }
    }
  }

  /** Every line of dump is indented from the starting indentation by whole
      two-space steps, and every line below the first lies strictly deeper. */
  lemma {:induction false} DumpIndentation<V>(t: Tree<V>, indent: string)
    ensures forall i | 0 <= i < |DumpLines(t, indent)| ::
      IndentedFrom(DumpLines(t, indent)[i].indent, indent)
    ensures forall i | 1 <= i < |DumpLines(t, indent)| ::
      |DumpLines(t, indent)[i].indent| > |indent|
  {
    var lines := DumpLines(t, indent);
    assert IndentedFrom(lines[0].indent, indent) by {
      assert indent[..|indent|] == indent;
    }
    match t
    case Nil =>
    case Node(k, v, l, r) =>
      if !(l == Nil && r == Nil) {
        var inner := indent + "  ";
        var dl, dr := DumpLines(l, inner), DumpLines(r, inner);
        DumpIndentation(l, inner);
        DumpIndentation(r, inner);
        assert lines == [lines[0]] + dl + dr;
        forall i | 1 <= i < |lines|
          ensures IndentedFrom(lines[i].indent, indent) && |lines[i].indent| > |indent|
        {
          if i <= |dl| {
            assert lines[i] == dl[i - 1];
          } else {
            assert lines[i] == dr[i - 1 - |dl|];
          }
          IndentedFromStep(lines[i].indent, indent);
        }
      }
  }

  /** Empty markers are printed only for the missing child of a node with
      exactly one child, and once for an empty tree. */
  lemma {:induction false} DumpMarkers<V>(t: Tree<V>, indent: string)
    ensures Markers(DumpLines(t, indent)) == if t == Nil then 1 else OneChildNodes(t)
    ensures |DumpLines(t, indent)| == Size(t) + Markers(DumpLines(t, indent))
  {
    match t
    case Nil =>
      assert Markers(DumpLines(t, indent)) == 1 + Markers(DumpLines(t, indent)[1..]);
    case Node(k, v, l, r) =>
      var first: seq<Line<V>> := [Line(indent, Some((k, v)))];
      assert Markers(first) == 0 by {
        assert Markers(first) == 0 + Markers(first[1..]);
      }
      if l == Nil && r == Nil {
        assert DumpLines(t, indent) == first;
      } else {
        var inner := indent + "  ";
        DumpMarkers(l, inner);
        DumpMarkers(r, inner);
        MarkersConcat(first, DumpLines(l, inner) + DumpLines(r, inner));
        MarkersConcat(DumpLines(l, inner), DumpLines(r, inner));
      }
  }

  lemma RenderedConcat<V>(a: seq<Line<V>>, b: seq<Line<V>>, showKey: int -> string, showValue: V -> string)
    ensures Rendered(a + b, showKey, showValue) == Rendered(a, showKey, showValue) + Rendered(b, showKey, showValue)
  {
  }

  /** The text dump prints for a node: its own line "key: value" at the
      indentation, then, when it has a child, the text of both children two
      spaces further in. */
  lemma RenderedNode<V>(k: int, v: V, l: Tree<V>, r: Tree<V>, indent: string,
                        showKey: int -> string, showValue: V -> string)
    ensures Rendered(DumpLines(Node(k, v, l, r), indent), showKey, showValue)
         == [indent + showKey(k) + ": " + showValue(v)]
            + if l == Nil && r == Nil then []
              else Rendered(DumpLines(l, indent + "  "), showKey, showValue)
                   + Rendered(DumpLines(r, indent + "  "), showKey, showValue)
  {
    var first: seq<Line<V>> := [Line(indent, Some((k, v)))];
    var line := indent + showKey(k) + ": " + showValue(v);
    assert Render(first[0], showKey, showValue) == line;
    assert Rendered(first, showKey, showValue) == [line];
    if !(l == Nil && r == Nil) {
      var inner := indent + "  ";
      RenderedConcat(first, DumpLines(l, inner) + DumpLines(r, inner), showKey, showValue);
      RenderedConcat(DumpLines(l, inner), DumpLines(r, inner), showKey, showValue);
    }
  }

  /** The empty tree dumps as the single line "<>"; a lone node as just its
      own line, with no marker lines for its two empty children. */
  lemma DumpSmallTrees<V>(key: int, value: V, showKey: int -> string, showValue: V -> string)
    ensures DumpLines<V>(Nil, "") == [Line("", None)]
    ensures Render<V>(Line("", None), showKey, showValue) == "<>"
    ensures DumpLines(Node(key, value, Nil, Nil), "") == [Line("", Some((key, value)))]
    ensures Render(Line("", Some((key, value))), showKey, showValue) == showKey(key) + ": " + showValue(value)
  {
  }

  // ---------------------------------------------------------------------
  // Histories of set calls
  // ---------------------------------------------------------------------

  /** After any sequence of set calls, get(k) yields the value of the last
      call for k, or what it yielded before if no call named k. */
  lemma {:induction false} ReplayFind<V>(t: Tree<V>, calls: seq<(int, V)>, key: int)
    requires IsBst(t)
    ensures IsBst(Replay(t, calls))
    ensures Find(Replay(t, calls), key) ==
      match LastValue(calls, key) case Some(v) => Some(v) case None => Find(t, key)
  {
    if calls != [] {
      var init, last := calls[..|calls| - 1], calls[|calls| - 1];
      ReplayFind(t, init, key);
      PutKeepsBst(Replay(t, init), last.0, last.1);
      GetAfterSet(Replay(t, init), last.0, last.1, key);
    }
  }

  /** Starting from the empty tree, set calls leave one node per distinct key
      named. */
  lemma {:induction false} ReplaySize<V>(calls: seq<(int, V)>)
    ensures Keys(Replay(Nil, calls)) == CalledKeys(calls)
    ensures Size(Replay(Nil, calls)) == |CalledKeys(calls)|
  {
    if calls != [] {
      var init := calls[..|calls| - 1];
      ReplaySize(init);
      assert CalledKeys(calls) == CalledKeys(init) + {calls[|calls| - 1].0} by {
        forall x | x in CalledKeys(calls) ensures x in CalledKeys(init) + {calls[|calls| - 1].0} {
          var i :| 0 <= i < |calls| && calls[i].0 == x;
          if i < |calls| - 1 { assert init[i] == calls[i]; }
        }
        forall x | x in CalledKeys(init) ensures x in CalledKeys(calls) {
          var i :| 0 <= i < |init| && init[i].0 == x;
          assert calls[i] == init[i];
        }
      }
    }
    ReplayFind(Nil, calls, 0);
    SizeIsKeyCount(Replay(Nil, calls));
  }

  // ---------------------------------------------------------------------
  // Worked examples
  // ---------------------------------------------------------------------

  /** The tree left by set calls for 5, 3, 8, 1 and 4 on an empty tree. */
  function Build5(): Tree<int>
  {
    var t1 := Put(Nil, 5, 5).tree;
    var t2 := Put(t1, 3, 3).tree;
    var t3 := Put(t2, 8, 8).tree;
    var t4 := Put(t3, 1, 1).tree;
    Put(t4, 4, 4).tree
  }

  /** The same, followed by set calls for 7 and 9. */
  function Build7(): Tree<int>
  {
    Put(Put(Build5(), 7, 7).tree, 9, 9).tree
  }

  lemma PutLeaf<V>(key: int, value: V)
    ensures Put(Nil, key, value).tree == Node(key, value, Nil, Nil)
  {
  }

  lemma PutLeft<V>(k: int, v: V, l: Tree<V>, r: Tree<V>, key: int, value: V)
    requires key < k
    ensures Put(Node(k, v, l, r), key, value).tree == Node(k, v, Put(l, key, value).tree, r)
  {
  }

  lemma PutRight<V>(k: int, v: V, l: Tree<V>, r: Tree<V>, key: int, value: V)
    requires key > k
    ensures Put(Node(k, v, l, r), key, value).tree == Node(k, v, l, Put(r, key, value).tree)
  {
  }

  lemma Build5Shape()
    ensures Build5() == Node(5, 5, Node(3, 3, Node(1, 1, Nil, Nil), Node(4, 4, Nil, Nil)), Node(8, 8, Nil, Nil))
  {
    PutLeaf(5, 5);
    PutLeaf(3, 3);
    PutLeft(5, 5, Nil, Nil, 3, 3);
    PutLeaf(8, 8);
    PutRight(5, 5, Node(3, 3, Nil, Nil), Nil, 8, 8);
    PutLeaf(1, 1);
    PutLeft(3, 3, Nil, Nil, 1, 1);
    PutLeft(5, 5, Node(3, 3, Nil, Nil), Node(8, 8, Nil, Nil), 1, 1);
    PutLeaf(4, 4);
    PutRight(3, 3, Node(1, 1, Nil, Nil), Nil, 4, 4);
    PutLeft(5, 5, Node(3, 3, Node(1, 1, Nil, Nil), Nil), Node(8, 8, Nil, Nil), 4, 4);
  }

  /** Inserting 5, 3, 8, 1, 4, 7, 9 into an empty tree. */
  lemma InsertExample()
    ensures Build7() == Node(5, 5, Node(3, 3, Node(1, 1, Nil, Nil), Node(4, 4, Nil, Nil)),
                                   Node(8, 8, Node(7, 7, Nil, Nil), Node(9, 9, Nil, Nil)))
  {
    Build5Shape();
    var left := Node(3, 3, Node(1, 1, Nil, Nil), Node(4, 4, Nil, Nil));
    PutLeaf(7, 7);
    PutLeft(8, 8, Nil, Nil, 7, 7);
    PutRight(5, 5, left, Node(8, 8, Nil, Nil), 7, 7);
    PutLeaf(9, 9);
    PutRight(8, 8, Node(7, 7, Nil, Nil), Nil, 9, 9);
    PutRight(5, 5, left, Node(8, 8, Node(7, 7, Nil, Nil), Nil), 9, 9);
  }

  lemma UnlinkBoth<V>(l: Tree<V>, r: Tree<V>)
    requires l.Node? && r.Node?
    ensures Unlink(l, r) == Graft(l, r)
  {
  }

  lemma GraftEnd<V>(k: int, v: V, a: Tree<V>, r: Tree<V>)
    ensures Graft(Node(k, v, a, Nil), r) == Node(k, v, a, r)
  {
  }

  lemma GraftStep<V>(k: int, v: V, a: Tree<V>, b: Tree<V>, r: Tree<V>)
    requires b.Node?
    ensures Graft(Node(k, v, a, b), r) == Node(k, v, a, Graft(b, r))
  {
  }

  lemma DeleteHit<V>(k: int, v: V, l: Tree<V>, r: Tree<V>)
    ensures Delete(Node(k, v, l, r), k) == Edit(Unlink(l, r), Some(v))
  {
  }

  /** Removing the two-child root 5 from the tree built by 5, 3, 8, 1, 4
      makes 3 the root and hangs 8 under 4, the largest key left of 5. */
  lemma TwoChildRemoveExample()
    ensures Delete(Build5(), 5)
         == Edit(Node(3, 3, Node(1, 1, Nil, Nil), Node(4, 4, Nil, Node(8, 8, Nil, Nil))), Some(5))
  {
    Build5Shape();
    var leaf1, leaf8 := Node(1, 1, Nil, Nil), Node(8, 8, Nil, Nil);
    var l := Node(3, 3, leaf1, Node(4, 4, Nil, Nil));
    DeleteHit(5, 5, l, leaf8);
    UnlinkBoth(l, leaf8);
    GraftStep(3, 3, leaf1, Node(4, 4, Nil, Nil), leaf8);
    GraftEnd(4, 4, Nil, leaf8);
  }
}
