/** What `Delete` does, as written: the facts that hold in every case, exact
    removal in the leaf and one-child cases, and the precise effect of the
    two-children case. */
module TreeDelete {
  import opened Wrappers
  import opened KeyOrder
  import opened Collections
  import opened TreeFacts
  import opened TreePaths

  /** `after` holds exactly the pairs of `before` whose key is not `key`. */
  ghost predicate RemovedKey<V>(before: Node<V>, after: Node<V>, key: Key) {
    Keys(after) == Keys(before) - {key} &&
    Entries(after) == (set e | e in Entries(before) && e.0 != key)
  }

  /** The node holding `key` (where the descent of Delete stops) has at most
      one child: the leaf and one-child cases of Delete. */
  predicate HasAtMostOneChild<V>(t: ReadOnlyTree<V>, key: Key) {
    var found := Descend(t.root, key).1;
    found.Node? && (found.left.Nil? || found.right.Nil?)
  }

  /** Exchanging the subtree of an ordered tree that alone can hold `key` for
      that subtree minus `key` removes exactly `key` from the whole tree. */
  lemma ExchangeRemoves<V>(root: Node<V>, sub: Node<V>, sub': Node<V>, result: Node<V>, key: Key)
    requires Keys(sub) <= Keys(root) && Entries(sub) <= Entries(root)
    requires key in Keys(root) ==> key in Keys(sub)
    requires forall v :: (key, v) in Entries(root) ==> (key, v) in Entries(sub)
    requires RemovedKey(sub, sub', key)
    requires Keys(result) == (Keys(root) - Keys(sub)) + Keys(sub')
    requires Entries(result) == (Entries(root) - Entries(sub)) + Entries(sub')
    ensures RemovedKey(root, result, key)
  {
    ExchangeSets(Keys(root), Keys(sub), Keys(sub'), Keys(result),
                 Entries(root), Entries(sub), Entries(sub'), Entries(result), key);
  }

  /** The set algebra behind `ExchangeRemoves`. */
  lemma ExchangeSets<V>(rootK: set<Key>, subK: set<Key>, subK': set<Key>, resultK: set<Key>,
                        root: set<(Key, V)>, sub: set<(Key, V)>, sub': set<(Key, V)>, result: set<(Key, V)>,
                        key: Key)
    requires subK <= rootK && sub <= root
    requires key in rootK ==> key in subK
    requires forall v :: (key, v) in root ==> (key, v) in sub
    requires subK' == subK - {key} && sub' == (set e | e in sub && e.0 != key)
    requires resultK == (rootK - subK) + subK'
    requires result == (root - sub) + sub'
    ensures resultK == rootK - {key}
    ensures result == (set e | e in root && e.0 != key)
  {
    var want := set e | e in root && e.0 != key;
    forall e | e in result
      ensures e in want
    {
      assert e == (e.0, e.1);
    }
  }

  /** The node Delete's descent stops at is a search-path end inside the
      ordered tree, and the only place `key` can be stored. */
  lemma FoundFacts<V>(t: ReadOnlyTree<V>, key: Key)
    requires HeightsCached(t.root) && Ordered(t.root)
    ensures var (path, found) := Descend(t.root, key);
      SearchPath(path, key, found) && Root(path, found) == t.root &&
      HeightsCached(found) && Ordered(found) &&
      Keys(found) <= Keys(t.root) && Entries(found) <= Entries(t.root) &&
      (key in Keys(t.root) <==> key in Keys(found)) &&
      (forall v :: (key, v) in Entries(t.root) ==> (key, v) in Entries(found))
  {
    var (path, found) := Descend(t.root, key);
    DescendIsSearchPath(t.root, key);
    PathInherits(path, key, found);
    KeyOnlyBelow(path, key, found);
  }

  /** A node holding `key` whose other child is empty, with `key` dropped,
      is exactly that other child. */
  lemma DropOneChild<V>(found: Node<V>, key: Key)
    requires found.Node? && found.key == key && Ordered(found) && HeightsCached(found)
    requires found.left.Nil? || found.right.Nil?
    ensures var child := if found.left.Nil? then found.right else found.left;
      RemovedKey(found, child, key) && HeightsCached(child) && Ordered(child) &&
      GetHeight(child) == GetHeight(found) - 1
  {
    var child := if found.left.Nil? then found.right else found.left;
    LessIrreflexive(key);
    HeightPositive(child);
    assert key !in Keys(child);
    forall e | e in Entries(child)
      ensures e.0 != key
    {
      EntryKeyIsKey(child, e.0, e.1);
    }
    assert Entries(found) == Entries(child) + {(key, found.value)};
  }

  /** The leaf case: the parent with the leaf cut off holds the parent's
      pairs minus `key`, and is at most one lower. */
  lemma CutLeaf<V>(parent: Node<V>, found: Node<V>, key: Key)
    requires parent.Node? && parent.key != key && Toward(parent, key) == found
    requires HeightsCached(parent) && Ordered(parent)
    requires found.Node? && found.key == key && found.left.Nil? && found.right.Nil?
    ensures var np := if Less(found.key, parent.key) then WithLeft(parent, Nil) else WithRight(parent, Nil);
      np.Node? && HeightsCached(np) && Ordered(np) && RemovedKey(parent, np, key) &&
      GetHeight(parent) - 1 <= GetHeight(np) <= GetHeight(parent)
  {
    StrictTotalOrder();
    HeightPositive(parent.left);
    HeightPositive(parent.right);
    var np := if Less(found.key, parent.key) then WithLeft(parent, Nil) else WithRight(parent, Nil);
    var other := if Less(key, parent.key) then parent.right else parent.left;
    assert key !in Keys(other);
    forall e | e in Entries(other)
      ensures e.0 != key
    {
      EntryKeyIsKey(other, e.0, e.1);
    }
    assert Entries(found) == {(key, found.value)};
    assert Entries(parent) == Entries(other) + {(parent.key, parent.value)} + {(key, found.value)};
    assert Entries(np) == Entries(other) + {(parent.key, parent.value)};
  }

  /** Delete of a key the lookup does not find returns the very same tree;
      no ordering is needed, because both walk the same search path. */
  lemma DeleteAbsent<V>(t: ReadOnlyTree<V>, key: Key)
    requires !KeyExists(t, key)
    ensures Delete(t, key) == Success(t)
  {
    DescendMatchesFind(t.root, key);
  }

  /** The leaf and one-child cases on an ordered tree with correct heights:
      any tree they produce is ordered, with correct heights, and holds
      exactly the original pairs minus `key`; on a balanced tree they
      never dereference null. */
  lemma DeleteAtMostOneChild<V>(t: ReadOnlyTree<V>, key: Key)
    requires HeightsCached(t.root) && Ordered(t.root) && HasAtMostOneChild(t, key)
    ensures var r := Delete(t, key);
      (r.Success? ==>
         HeightsCached(r.value.root) && Ordered(r.value.root) && RemovedKey(t.root, r.value.root, key)) &&
      (Balanced(t.root) ==> r.Success?)
  {
    var (path, found) := Descend(t.root, key);
    FoundFacts(t, key);
    if found.left.Nil? && found.right.Nil? {
      if path != [] {
        var parent := path[0];
        PathInherits(path[1..], key, parent);
        KeyOnlyBelow(path[1..], key, parent);
        CutLeaf(parent, found, key);
        var np := if Less(found.key, parent.key) then WithLeft(parent, Nil) else WithRight(parent, Nil);
        ReSpineKeeps(np, path[1..], key, parent, false);
        var r := BalanceAndReSpine(np, path[1..], false);
        if r.Success? {
          ExchangeRemoves(t.root, parent, np, r.value, key);
        }
        if Balanced(t.root) {
          DeleteReSpineSucceeds(np, path[1..], key, parent);
        }
      } else {
        LessIrreflexive(key);
      }
    } else {
      var child := if found.left.Nil? then found.right else found.left;
      DropOneChild(found, key);
      HeightPositive(child);
      assert Clone(child) == child;
      ReSpineKeeps(child, path, key, found, false);
      var r := BalanceAndReSpine(child, path, false);
      if r.Success? {
        ExchangeRemoves(t.root, found, child, r.value, key);
      }
      if Balanced(t.root) {
        DeleteReSpineSucceeds(child, path, key, found);
      }
    }
  }

  /** Rebuilding the left spine of a subtree whose keys all exceed `key`,
      down to its smallest node, with nothing changed at the bottom: the
      spine never holds `key`, and a rebuilt subtree holds the same pairs. */
  lemma SpineRebuild<V>(n: Node<V>, key: Key)
    requires n.Node? && HeightsCached(n) && Ordered(n)
    requires forall x :: x in Keys(n) ==> Less(key, x)
    ensures var (spine, successor) := DescendLeft(n);
      (forall i :: 0 <= i < |spine| ==> spine[i].key != key) &&
      var mid := BalanceAndReSpine(successor, spine, false);
      mid.Success? ==>
        HeightsCached(mid.value) && Ordered(mid.value) &&
        Keys(mid.value) == Keys(n) && Entries(mid.value) == Entries(n)
  {
    var (spine, successor) := DescendLeft(n);
    DescendLeftIsSearchPath(n);
    PathKeysInRoot(spine, successor.key, successor);
    PathInherits(spine, successor.key, successor);
    LessIrreflexive(key);
    ReSpineKeeps(successor, spine, successor.key, successor, false);
  }

  lemma ConcatAvoids<V>(top: seq<Node<V>>, rest: seq<Node<V>>, key: Key)
    requires AllNodes(top) && AllNodes(rest)
    requires forall i :: 0 <= i < |top| ==> top[i].key != key
    requires forall i :: 0 <= i < |rest| ==> rest[i].key != key
    ensures AllNodes(top + rest)
    ensures forall i :: 0 <= i < |top + rest| ==> (top + rest)[i].key != key
  {
    forall i | 0 <= i < |top + rest|
      ensures (top + rest)[i].Node? && (top + rest)[i].key != key
    {
      if i < |top| {
        assert (top + rest)[i] == top[i];
      } else {
        assert (top + rest)[i] == rest[i - |top|];
      }
    }
  }

  /** The two-children case, precisely: when it succeeds, the subtree rooted
      at the node holding `key` has been replaced by that node's right
      subtree, rebuilt; its left subtree is gone. */
  lemma DeleteTwoChildren<V>(t: ReadOnlyTree<V>, key: Key)
    requires HeightsCached(t.root) && Ordered(t.root)
    requires var found := Descend(t.root, key).1; found.Node? && found.left.Node? && found.right.Node?
    ensures var found := Descend(t.root, key).1;
      var r := Delete(t, key);
      r.Success? ==>
        HeightsCached(r.value.root) && Ordered(r.value.root) &&
        Keys(r.value.root) == (Keys(t.root) - Keys(found)) + Keys(found.right) &&
        Entries(r.value.root) == (Entries(t.root) - Entries(found)) + Entries(found.right)
  {
    var (path, found) := Descend(t.root, key);
    FoundFacts(t, key);
    SearchPathNodes(path, key, found);
    var (spine, successor) := DescendLeft(found.right);
    SpineRebuild(found.right, key);
    ConcatAvoids(spine, path, key);
    ReSpineAppend(successor, spine, path, false);
    SuccessorReSpineIsReSpine(successor, spine + path, key, successor);
    var mid := BalanceAndReSpine(successor, spine, false);
    if mid.Success? {
      ReSpineKeeps(mid.value, path, key, found, false);
    }
  }

  /** In every case, a tree Delete produces from an ordered tree with
      correct heights is ordered with correct heights, no longer holds
      `key`, and holds no pair the original did not. */
  lemma DeleteKeepsOrder<V>(t: ReadOnlyTree<V>, key: Key)
    requires HeightsCached(t.root) && Ordered(t.root)
    ensures var r := Delete(t, key);
      r.Success? ==>
        HeightsCached(r.value.root) && Ordered(r.value.root) &&
        !KeyExists(r.value, key) &&
        Keys(r.value.root) <= Keys(t.root) && Entries(r.value.root) <= Entries(t.root)
  {
    var found := Descend(t.root, key).1;
    FoundFacts(t, key);
    FindInOrdered(t.root, key);
    DescendMatchesFind(t.root, key);
    if found.Nil? {
      DeleteAbsent(t, key);
    } else if found.left.Nil? || found.right.Nil? {
      DeleteAtMostOneChild(t, key);
    } else {
      DeleteTwoChildren(t, key);
      LessIrreflexive(key);
      assert key !in Keys(found.right);
      assert Keys(found.right) <= Keys(found) && Entries(found.right) <= Entries(found);
    }
    var r := Delete(t, key);
    if r.Success? {
      FindInOrdered(r.value.root, key);
    }
  }

  /** On a valid tree, deleting a key whose node has at most one child
      succeeds, makes the key unfindable, leaves every other lookup alone
      and lowers the count by one. */
  lemma DeleteExact<V>(t: ReadOnlyTree<V>, key: Key)
    requires Valid(t.root) && HasAtMostOneChild(t, key)
    ensures var r := Delete(t, key);
      r.Success? &&
      TryFind(r.value, key) == None &&
      (forall k :: k != key ==> TryFind(r.value, k) == TryFind(t, k)) &&
      Count(r.value) == Count(t) - 1
  {
    DeleteAtMostOneChild(t, key);
    var root' := Delete(t, key).value.root;
    FoundFacts(t, key);
    RemovalLookups(t.root, root', key);
  }

  /** Lookups and count of an ordered tree holding another one's pairs
      minus those with `key`, which it held. */
  lemma RemovalLookups<V>(before: Node<V>, after: Node<V>, key: Key)
    requires Ordered(before) && Ordered(after) && RemovedKey(before, after, key)
    requires key in Keys(before)
    ensures Find(after, key) == None
    ensures forall k :: k != key ==> Find(after, k) == Find(before, k)
    ensures GetCount(after) == GetCount(before) - 1
  {
    FindInOrdered(after, key);
    forall k | k != key
      ensures Find(after, k) == Find(before, k)
    {
      SameEntriesSameFind(after, before, k);
    }
    CountIsNumberOfKeys(after);
    CountIsNumberOfKeys(before);
  }
}
