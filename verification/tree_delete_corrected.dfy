/** A corrected delete: it removes exactly the key and keeps the AVL
    invariants, which `Delete` as written does not (see `DeleteExamples`). */
module DeleteCorrection {
  import opened Wrappers
  import opened KeyOrder
  import opened Collections
  import opened TreeFacts
  import opened TreeInsert
  import opened TreePaths
  import opened TreeDelete

  // ---------------------------------------------------------------------
  // The corrected delete
  // ---------------------------------------------------------------------

  /** The subtree without its smallest pair, rebalanced on the way back up,
      and that pair. */
  function RemoveMin<V>(n: Node<V>): Result<(Node<V>, Key, V)>
    requires n.Node?
    decreases n
  {
    if n.left.Nil? then Success((n.right, n.key, n.value))
    else
      var m :- RemoveMin(n.left);
      var b :- Rebalance(WithLeft(n, m.0), false);
      Success((b, m.1, m.2))
  }

  /** Recursive AVL delete: the node holding `key` is replaced by its only
      child, or takes over its successor's pair while the successor is
      removed from the right subtree; every node on the way back up is
      rebalanced, the parent of a removed leaf included. */
  function DeleteFrom<V>(n: Node<V>, key: Key): Result<Node<V>>
    decreases n
  {
    if n.Nil? then Success(Nil)
    else if Less(key, n.key) then
      var l :- DeleteFrom(n.left, key);
      Rebalance(WithLeft(n, l), false)
    else if Less(n.key, key) then
      var r :- DeleteFrom(n.right, key);
      Rebalance(WithRight(n, r), false)
    else if n.left.Nil? then Success(n.right)
    else if n.right.Nil? then Success(n.left)
    else
      var m :- RemoveMin(n.right);
      Rebalance(NewNode(m.1, m.2, n.left, m.0), false)
  }

  /** Delete as documented: an absent key gives back the same tree. */
  function DeleteCorrected<V>(t: ReadOnlyTree<V>, key: Key): Result<ReadOnlyTree<V>> {
    if !KeyExists(t, key) then Success(t)
    else
      var root :- DeleteFrom(t.root, key);
      Success(ReadOnlyTree(root))
  }

  /** After a child of a valid node changed height by at most one (and is
      itself valid with the keys on the right side), one `Rebalance` in
      delete mode succeeds and restores validity, ending at most one lower. */
  lemma RebalanceAfterShrink<V>(n: Node<V>, w: Node<V>)
    requires n.Node? && Valid(n) && w.Node? && HeightsCached(w) && Ordered(w)
    requires Balanced(w.left) && Balanced(w.right)
    requires (w.left == n.left && GetHeight(n.right) - 1 <= GetHeight(w.right) <= GetHeight(n.right)) ||
             (w.right == n.right && GetHeight(n.left) - 1 <= GetHeight(w.left) <= GetHeight(n.left))
    ensures var r := Rebalance(w, false);
      r.Success? && Valid(r.value) && Keys(r.value) == Keys(w) && Entries(r.value) == Entries(w) &&
      GetHeight(n) - 1 <= GetHeight(r.value) <= GetHeight(n)
  {
    HeightPositive(n.left);
    HeightPositive(n.right);
    HeightPositive(w.left);
    HeightPositive(w.right);
    RebalanceRestores(w, false);
    RebalanceKeeps(w, false);
  }

  lemma {:induction false} RemoveMinCorrect<V>(n: Node<V>)
    requires n.Node? && Valid(n)
    ensures var r := RemoveMin(n);
      r.Success? && Valid(r.value.0) &&
      (r.value.1, r.value.2) in Entries(n) &&
      Keys(r.value.0) == Keys(n) - {r.value.1} &&
      Entries(r.value.0) == Entries(n) - {(r.value.1, r.value.2)} &&
      (forall x :: x in Keys(r.value.0) ==> Less(r.value.1, x)) &&
      GetHeight(n) - 1 <= GetHeight(r.value.0) <= GetHeight(n)
    decreases n
  {
    if n.left.Nil? {
      RemoveMinAtLeftmost(n);
    } else {
      RemoveMinCorrect(n.left);
      var m := RemoveMin(n.left).value;
      RemoveMinStep(n, m.0, m.1, m.2);
    }
  }

  /** The leftmost node holds the smallest key; its right subtree takes its
      place. */
  lemma RemoveMinAtLeftmost<V>(n: Node<V>)
    requires n.Node? && Valid(n) && n.left.Nil?
    ensures (n.key, n.value) in Entries(n) && Valid(n.right) &&
      Keys(n.right) == Keys(n) - {n.key} &&
      Entries(n.right) == Entries(n) - {(n.key, n.value)} &&
      (forall x :: x in Keys(n.right) ==> Less(n.key, x)) &&
      GetHeight(n) - 1 <= GetHeight(n.right) <= GetHeight(n)
  {
    StrictTotalOrder();
    HeightPositive(n.right);
    assert n.key !in Keys(n.right);
    assert (n.key, n.value) !in Entries(n.right) by {
      if (n.key, n.value) in Entries(n.right) {
        EntryKeyIsKey(n.right, n.key, n.value);
      }
    }
  }

  /** One level up: the smallest pair `(k, v)` removed from the left
      subtree leaves `rest`; the node over it, rebalanced, is the whole
      tree without that pair. */
  lemma RemoveMinStep<V>(n: Node<V>, rest: Node<V>, k: Key, v: V)
    requires n.Node? && Valid(n) && n.left.Node?
    requires Valid(rest) && (k, v) in Entries(n.left)
    requires Keys(rest) == Keys(n.left) - {k} && Entries(rest) == Entries(n.left) - {(k, v)}
    requires forall x :: x in Keys(rest) ==> Less(k, x)
    requires GetHeight(n.left) - 1 <= GetHeight(rest) <= GetHeight(n.left)
    ensures var r := Rebalance(WithLeft(n, rest), false);
      r.Success? && Valid(r.value) &&
      (k, v) in Entries(n) &&
      Keys(r.value) == Keys(n) - {k} &&
      Entries(r.value) == Entries(n) - {(k, v)} &&
      (forall x :: x in Keys(r.value) ==> Less(k, x)) &&
      GetHeight(n) - 1 <= GetHeight(r.value) <= GetHeight(n)
  {
    var w := WithLeft(n, rest);
    ShrunkLeftOrdered(n, rest, k, v);
    ShrunkLeftContents(n, rest, k, v);
    RebalanceAfterShrink(n, w);
  }

  /** The node over `rest` is still ordered, and `k` is below all of it. */
  lemma ShrunkLeftOrdered<V>(n: Node<V>, rest: Node<V>, k: Key, v: V)
    requires n.Node? && Valid(n) && n.left.Node?
    requires Valid(rest) && (k, v) in Entries(n.left)
    requires Keys(rest) == Keys(n.left) - {k}
    requires forall x :: x in Keys(rest) ==> Less(k, x)
    ensures HeightsCached(WithLeft(n, rest)) && Ordered(WithLeft(n, rest))
    ensures forall x :: x in Keys(WithLeft(n, rest)) ==> Less(k, x)
  {
    StrictTotalOrder();
    EntryKeyIsKey(n.left, k, v);
    var w := WithLeft(n, rest);
    assert Ordered(w);
    forall x | x in Keys(w)
      ensures Less(k, x)
    {
      if x in Keys(n.right) {
        LessTransitive(k, n.key, x);
      }
    }
  }

  /** ... and holds the tree's keys and entries but the pair `(k, v)`. */
  lemma ShrunkLeftContents<V>(n: Node<V>, rest: Node<V>, k: Key, v: V)
    requires n.Node? && Valid(n) && n.left.Node?
    requires (k, v) in Entries(n.left)
    requires Keys(rest) == Keys(n.left) - {k} && Entries(rest) == Entries(n.left) - {(k, v)}
    ensures (k, v) in Entries(n)
    ensures Keys(WithLeft(n, rest)) == Keys(n) - {k}
    ensures Entries(WithLeft(n, rest)) == Entries(n) - {(k, v)}
  {
    StrictTotalOrder();
    EntryKeyIsKey(n.left, k, v);
    assert k !in Keys(n.right) && k != n.key;
    assert (k, v) !in Entries(n.right) by {
      if (k, v) in Entries(n.right) {
        EntryKeyIsKey(n.right, k, v);
      }
    }
  }

  /** The successor's pair over the left subtree and the right subtree
      without the successor is ordered. */
  lemma SpliceOrdered<V>(n: Node<V>, rest: Node<V>, sk: Key, sv: V)
    requires n.Node? && Ordered(n) && sk in Keys(n.right) && Ordered(rest)
    requires forall x :: x in Keys(rest) ==> Less(sk, x)
    ensures Ordered(NewNode(sk, sv, n.left, rest))
  {
    forall x | x in Keys(n.left)
      ensures Less(x, sk)
    {
      LessTransitive(x, n.key, sk);
    }
  }

  /** The found node with the successor's pair over the left subtree and the
      right subtree without the successor. */
  lemma SpliceSuccessor<V>(n: Node<V>, key: Key)
    requires n.Node? && Valid(n) && n.key == key && n.left.Node? && n.right.Node?
    ensures RemoveMin(n.right).Success?
    ensures var m := RemoveMin(n.right).value;
      var r := Rebalance(NewNode(m.1, m.2, n.left, m.0), false);
      r.Success? && Valid(r.value) && RemovedKey(n, r.value, key) &&
      GetHeight(n) - 1 <= GetHeight(r.value) <= GetHeight(n)
  {
    RemoveMinCorrect(n.right);
    var m := RemoveMin(n.right).value;
    var w := NewNode(m.1, m.2, n.left, m.0);
    EntryKeyIsKey(n.right, m.1, m.2);
    SpliceOrdered(n, m.0, m.1, m.2);
    HeightPositive(n.left);
    HeightPositive(n.right);
    HeightPositive(m.0);
    RebalanceRestores(w, false);
    RebalanceKeeps(w, false);
    LessIrreflexive(key);
    assert key !in Keys(n.left) && key !in Keys(n.right);
    forall e | e in Entries(n.left)
      ensures e.0 in Keys(n.left)
    {
      EntryKeyIsKey(n.left, e.0, e.1);
    }
    forall e | e in Entries(n.right)
      ensures e.0 in Keys(n.right)
    {
      EntryKeyIsKey(n.right, e.0, e.1);
    }
    SpliceEntries(Keys(n.left), Keys(n.right), Keys(m.0), Entries(n.left), Entries(n.right), Entries(m.0),
                  key, n.value, m.1, m.2);
  }

  /** The set algebra of `SpliceSuccessor`. */
  lemma SpliceEntries<V>(lK: set<Key>, rK: set<Key>, mK: set<Key>,
                         l: set<(Key, V)>, r: set<(Key, V)>, m: set<(Key, V)>,
                         key: Key, value: V, sk: Key, sv: V)
    requires key !in lK && key !in rK
    requires forall e :: e in l ==> e.0 in lK
    requires forall e :: e in r ==> e.0 in rK
    requires (sk, sv) in r && mK == rK - {sk} && m == r - {(sk, sv)}
    ensures mK + {sk} + lK == (lK + {key} + rK) - {key}
    ensures l + {(sk, sv)} + m == (set e | e in l + {(key, value)} + r && e.0 != key)
  {
    var want := set e | e in l + {(key, value)} + r && e.0 != key;
    forall e | e in want
      ensures e in l + {(sk, sv)} + m
    {
    }
  }

  /** Exchanging one child of an ordered node for a subtree holding some of
      its keys exchanges exactly that child's pairs. */
  lemma ChildExchange<V>(n: Node<V>, c: Node<V>, left: bool)
    requires n.Node? && HeightsCached(n) && Ordered(n) && HeightsCached(c) && Ordered(c)
    requires left ==> Keys(c) <= Keys(n.left)
    requires !left ==> Keys(c) <= Keys(n.right)
    ensures var w := if left then WithLeft(n, c) else WithRight(n, c);
      var replaced := if left then n.left else n.right;
      HeightsCached(w) && Ordered(w) &&
      Keys(w) == (Keys(n) - Keys(replaced)) + Keys(c) &&
      Entries(w) == (Entries(n) - Entries(replaced)) + Entries(c)
  {
    StrictTotalOrder();
    var replaced := if left then n.left else n.right;
    var other := if left then n.right else n.left;
    assert Keys(replaced) !! Keys(other) + {n.key};
    EntriesDisjoint(replaced, other);
    assert (n.key, n.value) !in Entries(replaced) by {
      if (n.key, n.value) in Entries(replaced) {
        EntryKeyIsKey(replaced, n.key, n.value);
      }
    }
  }

  /** One step back up: the child on `key`'s side has had `key` removed and
      is at most one lower; one `Rebalance` makes the node valid again with
      exactly `key` removed. */
  lemma ShrinkSide<V>(n: Node<V>, key: Key, c: Node<V>, left: bool)
    requires n.Node? && Valid(n) && Valid(c)
    requires left ==> Less(key, n.key)
    requires !left ==> Less(n.key, key)
    requires var replaced := if left then n.left else n.right;
      RemovedKey(replaced, c, key) && GetHeight(replaced) - 1 <= GetHeight(c) <= GetHeight(replaced)
    ensures var r := Rebalance(if left then WithLeft(n, c) else WithRight(n, c), false);
      r.Success? && Valid(r.value) && RemovedKey(n, r.value, key) &&
      GetHeight(n) - 1 <= GetHeight(r.value) <= GetHeight(n)
  {
    var replaced := if left then n.left else n.right;
    var other := if left then n.right else n.left;
    var w := if left then WithLeft(n, c) else WithRight(n, c);
    ChildExchange(n, c, left);
    RebalanceAfterShrink(n, w);
    NotBelow(other, key, n.key);
    LessIrreflexive(key);
    ExchangeRemoves(n, replaced, c, Rebalance(w, false).value, key);
  }

  lemma {:induction false} DeleteFromCorrect<V>(n: Node<V>, key: Key)
    requires Valid(n)
    ensures var r := DeleteFrom(n, key);
      r.Success? && Valid(r.value) && RemovedKey(n, r.value, key) &&
      GetHeight(n) - 1 <= GetHeight(r.value) <= GetHeight(n)
    decreases n
  {
    if n.Node? {
      if Less(key, n.key) {
        DeleteFromCorrect(n.left, key);
        ShrinkSide(n, key, DeleteFrom(n.left, key).value, true);
      } else if Less(n.key, key) {
        DeleteFromCorrect(n.right, key);
        ShrinkSide(n, key, DeleteFrom(n.right, key).value, false);
      } else if n.left.Nil? || n.right.Nil? {
        LessTotal(key, n.key);
        DropOneChild(n, key);
      } else {
        LessTotal(key, n.key);
        SpliceSuccessor(n, key);
      }
    } else {
      assert Entries(n) == {};
    }
  }

  /** A subtree on the far side of `pivot` from `key` stores no pair with
      `key`. */
  lemma NotBelow<V>(other: Node<V>, key: Key, pivot: Key)
    requires ((forall x :: x in Keys(other) ==> Less(x, pivot)) && Less(pivot, key)) ||
             ((forall x :: x in Keys(other) ==> Less(pivot, x)) && Less(key, pivot))
    ensures key !in Keys(other)
    ensures forall v :: (key, v) !in Entries(other)
  {
    StrictTotalOrder();
    forall v
      ensures (key, v) !in Entries(other)
    {
      if (key, v) in Entries(other) {
        EntryKeyIsKey(other, key, v);
      }
    }
  }

  /** The corrected delete on a valid tree: it succeeds, keeps the tree
      valid, removes exactly `key` (so lookups of every other key are
      unchanged and the count drops by one when the key was there), and
      lowers the height by at most one. */
  lemma DeleteCorrectedExact<V>(t: ReadOnlyTree<V>, key: Key)
    requires Valid(t.root)
    ensures var r := DeleteCorrected(t, key);
      r.Success? && Valid(r.value.root) && RemovedKey(t.root, r.value.root, key) &&
      TryFind(r.value, key) == None &&
      (forall k :: k != key ==> TryFind(r.value, k) == TryFind(t, k)) &&
      Count(r.value) == Count(t) - (if KeyExists(t, key) then 1 else 0) &&
      GetHeight(t.root) - 1 <= GetHeight(r.value.root) <= GetHeight(t.root)
  {
    FindInOrdered(t.root, key);
    if KeyExists(t, key) {
      DeleteFromCorrect(t.root, key);
      RemovalLookups(t.root, DeleteCorrected(t, key).value.root, key);
    } else {
      assert Keys(t.root) - {key} == Keys(t.root);
      assert Entries(t.root) == (set e | e in Entries(t.root) && e.0 != key) by {
        forall e | e in Entries(t.root)
          ensures e.0 != key
        {
          EntryKeyIsKey(t.root, e.0, e.1);
        }
      }
    }
  }

  /** Insert followed by the corrected delete of a fresh key gives back a
      map with exactly the original pairs. */
  lemma InsertThenDeleteCorrected<V>(t: ReadOnlyTree<V>, key: Key, value: V)
    requires Valid(t.root) && !KeyExists(t, key)
    ensures Insert(t, key, value).Success?
    ensures var t' := Insert(t, key, value).value;
      DeleteCorrected(t', key).Success? &&
      Entries(DeleteCorrected(t', key).value.root) == Entries(t.root)
  {
    InsertEntries(t, key, value);
    var t' := Insert(t, key, value).value;
    DeleteCorrectedExact(t', key);
    FindInOrdered(t.root, key);
    forall e | e in Entries(t.root)
      ensures e.0 != key
    {
      EntryKeyIsKey(t.root, e.0, e.1);
    }
    RemoveAfterAdd(Entries(t.root), Entries(t'.root), Entries(DeleteCorrected(t', key).value.root), key);
  }

  /** The set algebra of `InsertThenDeleteCorrected`. */
  lemma RemoveAfterAdd<V>(before: set<(Key, V)>, added: set<(Key, V)>, after: set<(Key, V)>, key: Key)
    requires forall k, v :: k != key ==> ((k, v) in added <==> (k, v) in before)
    requires forall e :: e in before ==> e.0 != key
    requires after == (set e | e in added && e.0 != key)
    ensures after == before
  {
    forall e | e in before
      ensures e in after
    {
      assert e == (e.0, e.1);
    }
    forall e | e in after
      ensures e in before
    {
      assert e == (e.0, e.1);
    }
  }
}
