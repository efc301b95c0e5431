/** What `Insert` does to a valid tree: an upsert that keeps the AVL
    invariants. */
module TreeInsert {
  import opened Wrappers
  import opened KeyOrder
  import opened Collections
  import opened TreeFacts
  import opened TreePaths

  /** The node Insert places where the descent stopped, and the facts the
      re-spine needs about it. */
  lemma NewNodeFits<V>(current: Node<V>, key: Key, value: V)
    requires Valid(current) && (current.Nil? || current.key == key)
    ensures var newNode := if current.Nil? then NewNode(key, value, Nil, Nil)
                           else NewNode(key, value, current.left, current.right);
      Valid(newNode) &&
      Keys(newNode) == Keys(current) + {key} &&
      (key, value) in Entries(newNode) &&
      (forall k, v :: k != key ==> ((k, v) in Entries(newNode) <==> (k, v) in Entries(current))) &&
      GetHeight(current) <= GetHeight(newNode) <= GetHeight(current) + 1 &&
      (GetHeight(newNode) == GetHeight(current) + 1 ==> GetHeight(newNode) == 1)
  {
  }

  /** Insert into a valid tree succeeds and keeps it valid; the new version
      stores (key, value), the same pairs as before for every other key and
      exactly one more key when `key` was new; the height grows by at most
      one. */
  lemma InsertEntries<V>(t: ReadOnlyTree<V>, key: Key, value: V)
    requires Valid(t.root)
    ensures Insert(t, key, value).Success?
    ensures var root' := Insert(t, key, value).value.root;
      Valid(root') &&
      (key, value) in Entries(root') &&
      (forall k, v :: k != key ==> ((k, v) in Entries(root') <==> (k, v) in Entries(t.root))) &&
      Keys(root') == Keys(t.root) + {key} &&
      GetHeight(t.root) <= GetHeight(root') <= GetHeight(t.root) + 1
  {
    var (path, current) := Descend(t.root, key);
    DescendIsSearchPath(t.root, key);
    PathInherits(path, key, current);
    var newNode := if current.Nil? then NewNode(key, value, Nil, Nil)
                   else NewNode(key, value, current.left, current.right);
    NewNodeFits(current, key, value);
    ReSpineKeeps(newNode, path, key, current, true);
    InsertReSpineBalances(newNode, path, key, current);
  }

  /** The node Insert places where the descent stopped, on an ordered tree
      with cached heights that need not be balanced. */
  lemma NewNodeKeeps<V>(current: Node<V>, key: Key, value: V)
    requires HeightsCached(current) && Ordered(current) && (current.Nil? || current.key == key)
    ensures var newNode := if current.Nil? then NewNode(key, value, Nil, Nil)
                           else NewNode(key, value, current.left, current.right);
      newNode.Node? && HeightsCached(newNode) && Ordered(newNode) &&
      Keys(newNode) == Keys(current) + {key} &&
      (key, value) in Entries(newNode) &&
      (forall k, v :: k != key ==> ((k, v) in Entries(newNode) <==> (k, v) in Entries(current)))
  {
  }

  /** Insert keeps BST order on any ordered tree with cached heights,
      balanced or not (such as one an unbalancing Delete left behind): when
      it returns, `key` maps to `value`, every other lookup is unchanged
      and exactly `key` joins the key set. */
  lemma InsertKeepsOrder<V>(t: ReadOnlyTree<V>, key: Key, value: V)
    requires HeightsCached(t.root) && Ordered(t.root)
    ensures var r := Insert(t, key, value);
      r.Success? ==>
        HeightsCached(r.value.root) && Ordered(r.value.root) &&
        TryFind(r.value, key) == Some(value) &&
        (forall k :: k != key ==> TryFind(r.value, k) == TryFind(t, k)) &&
        Keys(r.value.root) == Keys(t.root) + {key}
  {
    var (path, current) := Descend(t.root, key);
    DescendIsSearchPath(t.root, key);
    PathInherits(path, key, current);
    var newNode := if current.Nil? then NewNode(key, value, Nil, Nil)
                   else NewNode(key, value, current.left, current.right);
    NewNodeKeeps(current, key, value);
    ReSpineKeeps(newNode, path, key, current, true);
    var r := Insert(t, key, value);
    if r.Success? {
      var after := r.value.root;
      assert after == BalanceAndReSpine(newNode, path, true).value;
      forall k, v | k != key
        ensures (k, v) in Entries(after) <==> (k, v) in Entries(t.root)
      {
        if (k, v) in Entries(current) {
          assert (k, v) in Entries(newNode);
        }
      }
      UpsertLookups(t.root, after, key, value);
    }
  }

  /** Lookups in an ordered tree that stores the pairs of another one with
      `key` re-bound to `value`. */
  lemma UpsertLookups<V>(before: Node<V>, after: Node<V>, key: Key, value: V)
    requires Ordered(before) && Ordered(after)
    requires (key, value) in Entries(after)
    requires forall k, v :: k != key ==> ((k, v) in Entries(after) <==> (k, v) in Entries(before))
    ensures Find(after, key) == Some(value)
    ensures forall k :: k != key ==> Find(after, k) == Find(before, k)
  {
    FindIffEntry(after, key, value);
    forall k | k != key
      ensures Find(after, k) == Find(before, k)
    {
      SameEntriesSameFind(after, before, k);
    }
  }

  /** Adding one key to an ordered tree's key set grows its count by one
      unless the key was already there. */
  lemma AddKeyCount<V>(before: Node<V>, after: Node<V>, key: Key)
    requires Ordered(before) && Ordered(after)
    requires Keys(after) == Keys(before) + {key}
    ensures GetCount(after) == GetCount(before) + (if Find(before, key).Some? then 0 else 1)
  {
    CountIsNumberOfKeys(after);
    CountIsNumberOfKeys(before);
    FindInOrdered(before, key);
    if key !in Keys(before) {
      assert |Keys(before) + {key}| == |Keys(before)| + 1;
    } else {
      assert Keys(before) + {key} == Keys(before);
    }
  }

  /** Insert into a valid tree succeeds, keeps it valid, makes `key` map to
      `value`, leaves every other lookup alone, adds exactly `key` to the key
      set, grows the count by one exactly when the key was new, and raises
      the height by at most one. */
  lemma InsertCorrect<V>(t: ReadOnlyTree<V>, key: Key, value: V)
    requires Valid(t.root)
    ensures var r := Insert(t, key, value);
      r.Success? && Valid(r.value.root) &&
      TryFind(r.value, key) == Some(value) &&
      (forall k :: k != key ==> TryFind(r.value, k) == TryFind(t, k)) &&
      Keys(r.value.root) == Keys(t.root) + {key} &&
      Count(r.value) == Count(t) + (if KeyExists(t, key) then 0 else 1) &&
      GetHeight(t.root) <= GetHeight(r.value.root) <= GetHeight(t.root) + 1
  {
    InsertEntries(t, key, value);
    UpsertLookups(t.root, Insert(t, key, value).value.root, key, value);
    AddKeyCount(t.root, Insert(t, key, value).value.root, key);
  }

  /** Inserting a key that is already present keeps the count. */
  lemma InsertExistingKeepsCount<V>(t: ReadOnlyTree<V>, key: Key, value: V)
    requires Valid(t.root) && KeyExists(t, key)
    ensures Insert(t, key, value).Success?
    ensures Count(Insert(t, key, value).value) == Count(t)
    ensures TryFind(Insert(t, key, value).value, key) == Some(value)
  {
    InsertCorrect(t, key, value);
  }

  /** Inserting a fresh key grows the count by exactly one. */
  lemma InsertFreshGrowsCount<V>(t: ReadOnlyTree<V>, key: Key, value: V)
    requires Valid(t.root) && !KeyExists(t, key)
    ensures Insert(t, key, value).Success?
    ensures Count(Insert(t, key, value).value) == Count(t) + 1
  {
    InsertCorrect(t, key, value);
  }
}
