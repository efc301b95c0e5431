/** Facts about single nodes of the tree: cached heights, lookup, count, and
    what each rotation and `Rebalance` preserve. */
module TreeFacts {
  import opened Wrappers
  import opened KeyOrder
  import opened Collections

  lemma {:induction false} HeightPositive<V>(n: Node<V>)
    requires HeightsCached(n)
    ensures GetHeight(n) >= 0
    ensures n.Node? <==> GetHeight(n) > 0
  {
    if n.Node? {
      HeightPositive(n.left);
      HeightPositive(n.right);
    }
  }

  lemma {:induction false} EntryKeyIsKey<V>(n: Node<V>, k: Key, v: V)
    requires (k, v) in Entries(n)
    ensures k in Keys(n)
  {
    if (k, v) in Entries(n.left) {
      EntryKeyIsKey(n.left, k, v);
    } else if (k, v) in Entries(n.right) {
      EntryKeyIsKey(n.right, k, v);
    }
  }

  /** In an ordered tree each key is stored with one value only. */
  lemma {:induction false} EntriesFunctional<V>(n: Node<V>, k: Key, v1: V, v2: V)
    requires Ordered(n) && (k, v1) in Entries(n) && (k, v2) in Entries(n)
    ensures v1 == v2
  {
    StrictTotalOrder();
    if (k, v1) in Entries(n.left) {
      EntryKeyIsKey(n.left, k, v1);
      if (k, v2) in Entries(n.right) {
        EntryKeyIsKey(n.right, k, v2);
      } else if (k, v2) in Entries(n.left) {
        EntriesFunctional(n.left, k, v1, v2);
      }
    } else if (k, v1) in Entries(n.right) {
      EntryKeyIsKey(n.right, k, v1);
      if (k, v2) in Entries(n.left) {
        EntryKeyIsKey(n.left, k, v2);
      } else if (k, v2) in Entries(n.right) {
        EntriesFunctional(n.right, k, v1, v2);
      }
    } else {
      if (k, v2) in Entries(n.left) {
        EntryKeyIsKey(n.left, k, v2);
      } else if (k, v2) in Entries(n.right) {
        EntryKeyIsKey(n.right, k, v2);
      }
    }
  }

  /** The search loop of TryFind finds a key exactly when the ordered tree
      holds it, and then yields the value stored with it. */
  lemma {:induction false} FindInOrdered<V>(n: Node<V>, k: Key)
    requires Ordered(n)
    ensures Find(n, k).Some? <==> k in Keys(n)
    ensures Find(n, k).Some? ==> (k, Find(n, k).value) in Entries(n)
  {
    if n.Node? {
      StrictTotalOrder();
      FindInOrdered(n.left, k);
      FindInOrdered(n.right, k);
    }
  }

  /** TryFind returns `v` exactly when the pair (k, v) is stored. */
  lemma FindIffEntry<V>(n: Node<V>, k: Key, v: V)
    requires Ordered(n)
    ensures Find(n, k) == Some(v) <==> (k, v) in Entries(n)
  {
    FindInOrdered(n, k);
    if (k, v) in Entries(n) {
      EntryKeyIsKey(n, k, v);
      EntriesFunctional(n, k, v, Find(n, k).value);
    }
  }

  /** Two ordered trees with the same entries answer every lookup alike. */
  lemma SameEntriesSameFind<V>(a: Node<V>, b: Node<V>, k: Key)
    requires Ordered(a) && Ordered(b)
    requires forall v :: (k, v) in Entries(a) <==> (k, v) in Entries(b)
    ensures Find(a, k) == Find(b, k)
  {
    FindInOrdered(a, k);
    FindInOrdered(b, k);
    if Find(a, k).Some? {
      FindIffEntry(b, k, Find(a, k).value);
    } else if Find(b, k).Some? {
      FindIffEntry(a, k, Find(b, k).value);
    }
  }

  /** Count is the number of distinct keys of an ordered tree. */
  lemma {:induction false} CountIsNumberOfKeys<V>(n: Node<V>)
    requires Ordered(n)
    ensures GetCount(n) == |Keys(n)|
  {
    if n.Node? {
      CountIsNumberOfKeys(n.left);
      CountIsNumberOfKeys(n.right);
      StrictTotalOrder();
      var l, r := Keys(n.left), Keys(n.right);
      assert n.key !in l && n.key !in r;
      assert l * r == {} by {
        forall x | x in l && x in r
          ensures false
        {
          LessTransitive(x, n.key, x);
        }
      }
      SeparatedSize(l, n.key, r);
    }
  }

  lemma SeparatedSize<T>(l: set<T>, k: T, r: set<T>)
    requires k !in l && k !in r && l * r == {}
    ensures |l + {k} + r| == |l| + 1 + |r|
  {
    assert |l + {k}| == |l| + 1;
    assert (l + {k}) * r == {};
  }

  // ---------------------------------------------------------------------
  // Rotations keep the entries, the ordering and the cached heights
  // ---------------------------------------------------------------------

  lemma BelowAll(s: set<Key>, a: Key, b: Key)
    requires Less(a, b) && forall x :: x in s ==> Less(x, a)
    ensures forall x :: x in s ==> Less(x, b)
  {
    forall x | x in s
      ensures Less(x, b)
    {
      LessTransitive(x, a, b);
    }
  }

  lemma AboveAll(s: set<Key>, a: Key, b: Key)
    requires Less(a, b) && forall x :: x in s ==> Less(b, x)
    ensures forall x :: x in s ==> Less(a, x)
  {
    forall x | x in s
      ensures Less(a, x)
    {
      LessTransitive(a, b, x);
    }
  }

  lemma RightRightKeeps<V>(root: Node<V>)
    requires root.Node? && root.right.Node? && HeightsCached(root)
    ensures var r := RightRightRebalance(root);
      HeightsCached(r) && Keys(r) == Keys(root) && Entries(r) == Entries(root) &&
      (Ordered(root) ==> Ordered(r))
  {
    var a, rt := root.left, root.right;
    var nl := NewNode(root.key, root.value, a, rt.left);
    assert RightRightRebalance(root) == NewNode(rt.key, rt.value, nl, rt.right);
    if Ordered(root) {
      assert Ordered(a) && Ordered(rt);
      assert Keys(rt) == Keys(rt.left) + {rt.key} + Keys(rt.right);
      BelowAll(Keys(a), root.key, rt.key);
      assert Keys(nl) == Keys(a) + {root.key} + Keys(rt.left);
      assert Ordered(nl);
    }
  }

  lemma LeftLeftKeeps<V>(root: Node<V>)
    requires root.Node? && root.left.Node? && HeightsCached(root)
    ensures var r := LeftLeftRebalance(root);
      HeightsCached(r) && Keys(r) == Keys(root) && Entries(r) == Entries(root) &&
      (Ordered(root) ==> Ordered(r))
  {
    var lt, c := root.left, root.right;
    var nr := NewNode(root.key, root.value, lt.right, c);
    assert LeftLeftRebalance(root) == NewNode(lt.key, lt.value, lt.left, nr);
    if Ordered(root) {
      assert Ordered(lt) && Ordered(c);
      assert Keys(lt) == Keys(lt.left) + {lt.key} + Keys(lt.right);
      AboveAll(Keys(c), lt.key, root.key);
      assert Keys(nr) == Keys(lt.right) + {root.key} + Keys(c);
      assert Ordered(nr);
    }
  }

  /** The double rotations are a rotation of the heavy child followed by a
      rotation of the node. */
  lemma RightLeftIsTwoRotations<V>(root: Node<V>)
    requires root.Node? && root.right.Node? && root.right.left.Node?
    ensures RightLeftRebalance(root) == Success(RightRightRebalance(WithRight(root, LeftLeftRebalance(root.right))))
  {
  }

  lemma LeftRightIsTwoRotations<V>(root: Node<V>)
    requires root.Node? && root.left.Node? && root.left.right.Node?
    ensures LeftRightRebalance(root) == Success(LeftLeftRebalance(WithLeft(root, RightRightRebalance(root.left))))
  {
  }

  /** A clone whose child is replaced by a tree with the same entries keeps
      its entries, ordering and cached heights. */
  lemma ReplaceChildKeeps<V>(n: Node<V>, c: Node<V>, left: bool)
    requires n.Node? && HeightsCached(n) && HeightsCached(c)
    requires left ==> Keys(c) == Keys(n.left) && Entries(c) == Entries(n.left) && (Ordered(n.left) ==> Ordered(c))
    requires !left ==> Keys(c) == Keys(n.right) && Entries(c) == Entries(n.right) && (Ordered(n.right) ==> Ordered(c))
    ensures var r := if left then WithLeft(n, c) else WithRight(n, c);
      HeightsCached(r) && Keys(r) == Keys(n) && Entries(r) == Entries(n) &&
      (Ordered(n) ==> Ordered(r))
  {
  }

  /** Whatever `Rebalance` returns holds the same entries as its argument,
      keeps the cached heights right and keeps an ordered node ordered. */
  lemma RebalanceKeeps<V>(n: Node<V>, insert: bool)
    requires n.Node? && HeightsCached(n)
    ensures var r := Rebalance(n, insert);
      r.Success? ==>
        HeightsCached(r.value) && Keys(r.value) == Keys(n) && Entries(r.value) == Entries(n) &&
        (Ordered(n) ==> Ordered(r.value))
  {
    var bf := BalanceFactor(n);
    if bf == -2 {
      if n.right.Node? {
        var rbf := BalanceFactor(n.right);
        if rbf == -1 || (!insert && rbf == 0) {
          RightRightKeeps(n);
        } else if n.right.left.Node? {
          RightLeftIsTwoRotations(n);
          LeftLeftKeeps(n.right);
          ReplaceChildKeeps(n, LeftLeftRebalance(n.right), false);
          RightRightKeeps(WithRight(n, LeftLeftRebalance(n.right)));
        }
      }
    } else if !(-1 <= bf <= 1) {
      if n.left.Node? {
        var lbf := BalanceFactor(n.left);
        if lbf == 1 || (!insert && lbf == 0) {
          LeftLeftKeeps(n);
        } else if n.left.right.Node? {
          LeftRightIsTwoRotations(n);
          RightRightKeeps(n.left);
          ReplaceChildKeeps(n, RightRightRebalance(n.left), true);
          LeftLeftKeeps(WithLeft(n, RightRightRebalance(n.left)));
        }
      }
    }
  }

  // ---------------------------------------------------------------------
  // Rebalance restores the AVL condition
  // ---------------------------------------------------------------------

  /** The single rotation of a left-heavy node whose left child leans left
      or is even: one lower, or as high when the child was even. */
  lemma LeftLeftRestores<V>(n: Node<V>)
    requires n.Node? && HeightsCached(n) && BalanceFactor(n) == 2
    requires n.left.Node? && Balanced(n.left) && BalanceFactor(n.left) >= 0
    ensures var r := LeftLeftRebalance(n);
      (BalanceFactor(n.left) == 1 ==> GetHeight(r) == GetHeight(n) - 1) &&
      (BalanceFactor(n.left) == 0 ==> GetHeight(r) == GetHeight(n)) &&
      (Balanced(n.right) ==> Balanced(r))
  {
    var l, c := n.left, n.right;
    HeightPositive(c);
    HeightPositive(l.left);
    HeightPositive(l.right);
    var r := LeftLeftRebalance(n);
    assert r.right == NewNode(n.key, n.value, l.right, c);
  }

  /** The double rotation of a left-heavy node whose left child leans
      right: it finds the grandchild, and comes out one lower. */
  lemma LeftRightRestores<V>(n: Node<V>)
    requires n.Node? && HeightsCached(n) && BalanceFactor(n) == 2
    requires n.left.Node? && Balanced(n.left) && BalanceFactor(n.left) == -1
    ensures var r := LeftRightRebalance(n);
      r.Success? && GetHeight(r.value) == GetHeight(n) - 1 &&
      (Balanced(n.right) ==> Balanced(r.value))
  {
    var l, c := n.left, n.right;
    HeightPositive(c);
    HeightPositive(l.left);
    HeightPositive(l.right);
    var lr := l.right;
    assert Balanced(lr);
    HeightPositive(lr.left);
    HeightPositive(lr.right);
    LeftRightIsTwoRotations(n);
    var r := LeftRightRebalance(n).value;
    assert r.left == NewNode(l.key, l.value, l.left, lr.left);
    assert r.right == NewNode(n.key, n.value, lr.right, c);
  }

  /** A left-heavy node (factor 2) over a balanced left child: the rotation
      never dereferences null, comes out balanced when the right child is,
      and lowers the height by one unless the child's factor is 0. */
  lemma LeftRebalanceRestores<V>(n: Node<V>, insert: bool)
    requires n.Node? && HeightsCached(n) && BalanceFactor(n) == 2
    requires n.left.Node? && Balanced(n.left)
    requires insert ==> BalanceFactor(n.left) != 0
    ensures var r := LeftRebalance(n, insert);
      r.Success? &&
      (GetHeight(r.value) == GetHeight(n) - 1 ||
       (!insert && BalanceFactor(n.left) == 0 && GetHeight(r.value) == GetHeight(n))) &&
      (Balanced(n.right) ==> Balanced(r.value))
  {
    var bf := BalanceFactor(n.left);
    if bf == 1 || (!insert && bf == 0) {
      LeftLeftRestores(n);
    } else {
      LeftRightRestores(n);
    }
  }

  /** The single rotation of a right-heavy node whose right child leans
      right or is even. */
  lemma RightRightRestores<V>(n: Node<V>)
    requires n.Node? && HeightsCached(n) && BalanceFactor(n) == -2
    requires n.right.Node? && Balanced(n.right) && BalanceFactor(n.right) <= 0
    ensures var r := RightRightRebalance(n);
      (BalanceFactor(n.right) == -1 ==> GetHeight(r) == GetHeight(n) - 1) &&
      (BalanceFactor(n.right) == 0 ==> GetHeight(r) == GetHeight(n)) &&
      (Balanced(n.left) ==> Balanced(r))
  {
    var a, rt := n.left, n.right;
    HeightPositive(a);
    HeightPositive(rt.left);
    HeightPositive(rt.right);
    var r := RightRightRebalance(n);
    assert r.left == NewNode(n.key, n.value, a, rt.left);
  }

  /** The double rotation of a right-heavy node whose right child leans
      left. */
  lemma RightLeftRestores<V>(n: Node<V>)
    requires n.Node? && HeightsCached(n) && BalanceFactor(n) == -2
    requires n.right.Node? && Balanced(n.right) && BalanceFactor(n.right) == 1
    ensures var r := RightLeftRebalance(n);
      r.Success? && GetHeight(r.value) == GetHeight(n) - 1 &&
      (Balanced(n.left) ==> Balanced(r.value))
  {
    var a, rt := n.left, n.right;
    HeightPositive(a);
    HeightPositive(rt.left);
    HeightPositive(rt.right);
    var rl := rt.left;
    assert Balanced(rl);
    HeightPositive(rl.left);
    HeightPositive(rl.right);
    RightLeftIsTwoRotations(n);
    var r := RightLeftRebalance(n).value;
    assert r.left == NewNode(n.key, n.value, a, rl.left);
    assert r.right == NewNode(rt.key, rt.value, rl.right, rt.right);
    if Balanced(a) {
      assert Balanced(r.left) && Balanced(r.right);
      assert -1 <= BalanceFactor(r) <= 1;
    }
  }

  lemma RightRebalanceRestores<V>(n: Node<V>, insert: bool)
    requires n.Node? && HeightsCached(n) && BalanceFactor(n) == -2
    requires n.right.Node? && Balanced(n.right)
    requires insert ==> BalanceFactor(n.right) != 0
    ensures var r := RightRebalance(n, insert);
      r.Success? &&
      (GetHeight(r.value) == GetHeight(n) - 1 ||
       (!insert && BalanceFactor(n.right) == 0 && GetHeight(r.value) == GetHeight(n))) &&
      (Balanced(n.left) ==> Balanced(r.value))
  {
    var bf := BalanceFactor(n.right);
    if bf == -1 || (!insert && bf == 0) {
      RightRightRestores(n);
    } else {
      RightLeftRestores(n);
    }
  }

  /** `Rebalance` entered with a balance factor within two, whose heavy child
      is balanced (and, when inserting, not evenly balanced), succeeds; it
      returns a node within one of balance unchanged, and otherwise a node at
      most one lower, balanced whenever both children were. */
  lemma RebalanceRestores<V>(n: Node<V>, insert: bool)
    requires n.Node? && HeightsCached(n) && -2 <= BalanceFactor(n) <= 2
    requires BalanceFactor(n) == 2 ==>
      n.left.Node? && Balanced(n.left) && (insert ==> BalanceFactor(n.left) != 0)
    requires BalanceFactor(n) == -2 ==>
      n.right.Node? && Balanced(n.right) && (insert ==> BalanceFactor(n.right) != 0)
    ensures var r := Rebalance(n, insert);
      r.Success? &&
      (-1 <= BalanceFactor(n) <= 1 ==> r.value == n) &&
      (!(-1 <= BalanceFactor(n) <= 1) ==>
         GetHeight(n) - 1 <= GetHeight(r.value) <= GetHeight(n) &&
         (insert ==> GetHeight(r.value) == GetHeight(n) - 1)) &&
      (Balanced(n.left) && Balanced(n.right) ==> Balanced(r.value))
  {
    if BalanceFactor(n) == 2 {
      LeftRebalanceRestores(n, insert);
    } else if BalanceFactor(n) == -2 {
      RightRebalanceRestores(n, insert);
    }
  }
}
