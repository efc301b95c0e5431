/** The recorded ancestor stack and what folding it back up to the root
    (`BalanceAndReSpine`) does to the entries, the ordering and the balance
    of the tree. */
module TreePaths {
  import opened Wrappers
  import opened KeyOrder
  import opened Collections
  import opened TreeFacts

  /** The child of `p` on the way down to `key`. */
  function Toward<V>(p: Node<V>, key: Key): Node<V>
    requires p.Node?
  {
    if Less(key, p.key) then p.left else p.right
  }

  /** `path` (top of the stack first) is the chain of ancestors of `sub` on
      the way down to `key`: each one's key differs from `key` and its child
      towards `key` is the entry before it (or `sub`). */
  ghost predicate SearchPath<V>(path: seq<Node<V>>, key: Key, sub: Node<V>)
    decreases |path|
  {
    path == [] ||
    (path[0].Node? && path[0].key != key && Toward(path[0], key) == sub &&
     SearchPath(path[1..], key, path[0]))
  }

  /** The tree the path was recorded in: its bottom entry, or `sub` itself
      when the stack is empty. */
  ghost function Root<V>(path: seq<Node<V>>, sub: Node<V>): Node<V>
    decreases |path|
  {
    if path == [] then sub else Root(path[1..], path[0])
  }

  lemma {:induction false} SearchPathNodes<V>(path: seq<Node<V>>, key: Key, sub: Node<V>)
    requires SearchPath(path, key, sub)
    ensures AllNodes(path)
    ensures forall i :: 0 <= i < |path| ==> path[i].key != key
    decreases |path|
  {
    if path != [] {
      SearchPathNodes(path[1..], key, path[0]);
      assert forall i :: 1 <= i < |path| ==> path[i] == path[1..][i - 1];
    }
  }

  /** A subtree on the path inherits every hereditary invariant of the tree
      and contributes its keys and entries to it. */
  lemma {:induction false} PathInherits<V>(path: seq<Node<V>>, key: Key, sub: Node<V>)
    requires SearchPath(path, key, sub)
    ensures Keys(sub) <= Keys(Root(path, sub)) && Entries(sub) <= Entries(Root(path, sub))
    ensures HeightsCached(Root(path, sub)) ==> HeightsCached(sub)
    ensures Ordered(Root(path, sub)) ==> Ordered(sub)
    ensures Balanced(Root(path, sub)) ==> Balanced(sub)
    decreases |path|
  {
    if path != [] {
      PathInherits(path[1..], key, path[0]);
    }
  }

  /** In an ordered tree `key` can only be stored inside `sub`. */
  lemma {:induction false} KeyOnlyBelow<V>(path: seq<Node<V>>, key: Key, sub: Node<V>)
    requires SearchPath(path, key, sub) && Ordered(Root(path, sub))
    ensures key in Keys(Root(path, sub)) <==> key in Keys(sub)
    ensures forall v :: (key, v) in Entries(Root(path, sub)) ==> (key, v) in Entries(sub)
    decreases |path|
  {
    PathInherits(path, key, sub);
    if path != [] {
      var p := path[0];
      KeyOnlyBelow(path[1..], key, p);
      PathInherits(path[1..], key, p);
      StrictTotalOrder();
      forall v | (key, v) in Entries(p)
        ensures (key, v) in Entries(sub)
      {
        if (key, v) in Entries(p.left) {
          EntryKeyIsKey(p.left, key, v);
        } else if (key, v) in Entries(p.right) {
          EntryKeyIsKey(p.right, key, v);
        }
      }
    }
  }

  lemma {:induction false} PathKeysInRoot<V>(path: seq<Node<V>>, key: Key, sub: Node<V>)
    requires SearchPath(path, key, sub)
    ensures AllNodes(path)
    ensures forall i :: 0 <= i < |path| ==> path[i].key in Keys(Root(path, sub))
    decreases |path|
  {
    SearchPathNodes(path, key, sub);
    if path != [] {
      PathKeysInRoot(path[1..], key, path[0]);
      PathInherits(path[1..], key, path[0]);
      assert forall i :: 1 <= i < |path| ==> path[i] == path[1..][i - 1];
    }
  }

  /** Pushing a further ancestor below the bottom of the stack. */
  lemma {:induction false} SearchPathExtend<V>(path: seq<Node<V>>, key: Key, sub: Node<V>, n: Node<V>)
    requires SearchPath(path, key, sub) && n.Node? && n.key != key && Root(path, sub) == Toward(n, key)
    ensures SearchPath(path + [n], key, sub) && Root(path + [n], sub) == n
    decreases |path|
  {
    if path == [] {
      assert path + [n] == [n];
      assert [n][1..] == [];
    } else {
      SearchPathExtend(path[1..], key, path[0], n);
      assert (path + [n])[1..] == path[1..] + [n];
    }
  }

  /** The descent of Insert and Delete records exactly the search path. */
  lemma {:induction false} DescendIsSearchPath<V>(n: Node<V>, key: Key)
    ensures var (path, current) := Descend(n, key);
      SearchPath(path, key, current) && Root(path, current) == n
    decreases n
  {
    if n.Node? {
      if Less(key, n.key) {
        DescendIsSearchPath(n.left, key);
        var (path, current) := Descend(n.left, key);
        LessIrreflexive(key);
        SearchPathExtend(path, key, current, n);
      } else if Less(n.key, key) {
        DescendIsSearchPath(n.right, key);
        var (path, current) := Descend(n.right, key);
        LessIrreflexive(key);
        LessAsymmetric(n.key, key);
        SearchPathExtend(path, key, current, n);
      }
    }
  }

  /** The descent stops where TryFind's loop stops: at a null reference
      exactly when the lookup fails, otherwise at the node whose value the
      lookup returns. */
  lemma {:induction false} DescendMatchesFind<V>(n: Node<V>, key: Key)
    ensures Descend(n, key).1.Nil? <==> Find(n, key).None?
    ensures Descend(n, key).1.Node? ==> Find(n, key) == Some(Descend(n, key).1.value)
    decreases n
  {
    if n.Node? {
      DescendMatchesFind(n.left, key);
      DescendMatchesFind(n.right, key);
    }
  }

  /** The walk down the left spine of an ordered subtree is a search path
      for the successor's key, ending at its smallest key. */
  lemma {:induction false} DescendLeftIsSearchPath<V>(n: Node<V>)
    requires n.Node? && Ordered(n)
    ensures var (spine, successor) := DescendLeft(n);
      SearchPath(spine, successor.key, successor) && Root(spine, successor) == n &&
      successor.key in Keys(n) && Ordered(successor) &&
      forall x :: x in Keys(n) && x != successor.key ==> Less(successor.key, x)
    decreases n
  {
    if n.left.Node? {
      DescendLeftIsSearchPath(n.left);
      var (spine, successor) := DescendLeft(n.left);
      StrictTotalOrder();
      SearchPathExtend(spine, successor.key, successor, n);
    }
  }

  lemma EntriesDisjoint<V>(a: Node<V>, b: Node<V>)
    requires Keys(a) !! Keys(b)
    ensures Entries(a) !! Entries(b)
  {
    forall e | e in Entries(a)
      ensures e !in Entries(b)
    {
      EntryKeyIsKey(a, e.0, e.1);
      if e in Entries(b) {
        EntryKeyIsKey(b, e.0, e.1);
      }
    }
  }

  /** Relinking a clone of an ancestor to a rebuilt subtree whose keys lie
      where the old child's did: the subtree goes on the old child's side,
      and exactly the old child's entries are exchanged for the new ones. */
  lemma RelinkStep<V>(p: Node<V>, key: Key, sub: Node<V>, current: Node<V>)
    requires p.Node? && p.key != key && Toward(p, key) == sub
    requires HeightsCached(p) && Ordered(p)
    requires current.Node? && HeightsCached(current) && Ordered(current)
    requires forall x :: x in Keys(current) ==> x in Keys(sub) || x == key
    ensures var n := Relink(p, current);
      n == (if Less(key, p.key) then WithLeft(p, current) else WithRight(p, current)) &&
      HeightsCached(n) && Ordered(n) &&
      Keys(n) == (Keys(p) - Keys(sub)) + Keys(current) &&
      Entries(n) == (Entries(p) - Entries(sub)) + Entries(current)
  {
    StrictTotalOrder();
    assert current.key in Keys(current);
    var other := if Less(key, p.key) then p.right else p.left;
    assert Keys(sub) !! Keys(other) + {p.key};
    EntriesDisjoint(sub, other);
    assert Keys(sub) !! {p.key};
    assert (p.key, p.value) !in Entries(sub) by {
      if (p.key, p.value) in Entries(sub) {
        EntryKeyIsKey(sub, p.key, p.value);
      }
    }
  }

  /** Folding any recorded search path back up, in either mode: when no null
      reference is met, the result is ordered with correct cached heights,
      and holds the tree's entries with those of `sub` exchanged for those
      of `current`. */
  lemma {:induction false} ReSpineKeeps<V>(current: Node<V>, path: seq<Node<V>>, key: Key, sub: Node<V>, insert: bool)
    requires SearchPath(path, key, sub)
    requires HeightsCached(Root(path, sub)) && Ordered(Root(path, sub))
    requires current.Node? && HeightsCached(current) && Ordered(current)
    requires forall x :: x in Keys(current) ==> x in Keys(sub) || x == key
    ensures AllNodes(path)
    ensures var r := BalanceAndReSpine(current, path, insert);
      r.Success? ==>
        HeightsCached(r.value) && Ordered(r.value) &&
        Keys(r.value) == (Keys(Root(path, sub)) - Keys(sub)) + Keys(current) &&
        Entries(r.value) == (Entries(Root(path, sub)) - Entries(sub)) + Entries(current)
    decreases |path|
  {
    SearchPathNodes(path, key, sub);
    if path != [] {
      var p := path[0];
      PathInherits(path[1..], key, p);
      RelinkStep(p, key, sub, current);
      var n := Relink(p, current);
      RebalanceKeeps(n, insert);
      var rb := Rebalance(n, insert);
      if rb.Success? {
        ReSpineKeeps(rb.value, path[1..], key, p, insert);
        var root := Root(path[1..], p);
        assert Root(path, sub) == root;
        assert Keys(sub) <= Keys(p) && Entries(sub) <= Entries(p);
        Splice(Keys(root), Keys(p), Keys(sub), Keys(current));
        Splice(Entries(root), Entries(p), Entries(sub), Entries(current));
      }
    }
  }

  /** Exchanging `s` for `c` inside `p`, and then `p` for the result inside
      `r`, exchanges `s` for `c` inside `r`. */
  lemma Splice<T>(r: set<T>, p: set<T>, s: set<T>, c: set<T>)
    requires s <= p <= r
    ensures (r - p) + ((p - s) + c) == (r - s) + c
  {
  }

  /** The fold in insert mode over a balanced tree, starting from a balanced
      subtree that replaced `sub` and grew by at most one (and then is not
      evenly balanced unless it is a single node), never dereferences null
      and yields a balanced tree at most one higher. */
  lemma {:induction false} InsertReSpineBalances<V>(current: Node<V>, path: seq<Node<V>>, key: Key, sub: Node<V>)
    requires SearchPath(path, key, sub) && Valid(Root(path, sub))
    requires current.Node? && Valid(current)
    requires forall x :: x in Keys(current) ==> x in Keys(sub) || x == key
    requires GetHeight(sub) <= GetHeight(current) <= GetHeight(sub) + 1
    requires GetHeight(current) == GetHeight(sub) + 1 ==> BalanceFactor(current) != 0 || GetHeight(current) == 1
    ensures AllNodes(path)
    ensures var r := BalanceAndReSpine(current, path, true);
      r.Success? && Balanced(r.value) &&
      GetHeight(Root(path, sub)) <= GetHeight(r.value) <= GetHeight(Root(path, sub)) + 1
    decreases |path|
  {
    SearchPathNodes(path, key, sub);
    if path != [] {
      var p := path[0];
      PathInherits(path[1..], key, p);
      RelinkStep(p, key, sub, current);
      var n := Relink(p, current);
      HeightPositive(p.left);
      HeightPositive(p.right);
      HeightPositive(current);
      RebalanceRestores(n, true);
      RebalanceKeeps(n, true);
      var r := Rebalance(n, true).value;
      assert GetHeight(p) <= GetHeight(r) <= GetHeight(p) + 1;
      assert GetHeight(r) == GetHeight(p) + 1 ==> BalanceFactor(r) != 0;
      InsertReSpineBalances(r, path[1..], key, p);
    }
  }

  /** The fold in delete mode over a balanced tree, starting from an ordered
      (not necessarily balanced) subtree that replaced `sub` and is at most
      one lower, never dereferences null: every rotation it makes pivots on
      an untouched, balanced sibling. */
  lemma {:induction false} DeleteReSpineSucceeds<V>(current: Node<V>, path: seq<Node<V>>, key: Key, sub: Node<V>)
    requires SearchPath(path, key, sub) && Valid(Root(path, sub))
    requires current.Node? && HeightsCached(current) && Ordered(current)
    requires forall x :: x in Keys(current) ==> x in Keys(sub) || x == key
    requires GetHeight(sub) - 1 <= GetHeight(current) <= GetHeight(sub)
    ensures AllNodes(path)
    ensures var r := BalanceAndReSpine(current, path, false);
      r.Success? &&
      GetHeight(Root(path, sub)) - 1 <= GetHeight(r.value) <= GetHeight(Root(path, sub))
    decreases |path|
  {
    SearchPathNodes(path, key, sub);
    if path != [] {
      var p := path[0];
      PathInherits(path[1..], key, p);
      RelinkStep(p, key, sub, current);
      var n := Relink(p, current);
      HeightPositive(p.left);
      HeightPositive(p.right);
      HeightPositive(current);
      RebalanceRestores(n, false);
      RebalanceKeeps(n, false);
      var r := Rebalance(n, false).value;
      assert GetHeight(p) - 1 <= GetHeight(r) <= GetHeight(p);
      DeleteReSpineSucceeds(r, path[1..], key, p);
    }
  }

  /** Folding a stack made of two parts is folding the top part and then
      the rest. */
  lemma {:induction false} ReSpineAppend<V>(current: Node<V>, top: seq<Node<V>>, rest: seq<Node<V>>, insert: bool)
    requires current.Node? && AllNodes(top) && AllNodes(rest)
    ensures AllNodes(top + rest)
    ensures BalanceAndReSpine(current, top + rest, insert) ==
      match BalanceAndReSpine(current, top, insert)
      case Success(c) => BalanceAndReSpine(c, rest, insert)
      case Failure(e) => Failure(e)
    decreases |top|
  {
    if top == [] {
      assert top + rest == rest;
    } else {
      assert (top + rest)[0] == top[0];
      assert (top + rest)[1..] == top[1..] + rest;
      var rb := Rebalance(Relink(top[0], current), insert);
      if rb.Success? {
        ReSpineAppend(rb.value, top[1..], rest, insert);
      }
    }
  }

  /** While no ancestor holds the deleted key, the two-children re-spine is
      the ordinary one. */
  lemma {:induction false} SuccessorReSpineIsReSpine<V>(current: Node<V>, path: seq<Node<V>>, key: Key, successor: Node<V>)
    requires current.Node? && successor.Node? && AllNodes(path)
    requires forall i :: 0 <= i < |path| ==> path[i].key != key
    ensures SuccessorReSpine(current, path, key, successor) == BalanceAndReSpine(current, path, false)
    decreases |path|
  {
    if path != [] {
      var rb := Rebalance(Relink(path[0], current), false);
      if rb.Success? {
        SuccessorReSpineIsReSpine(rb.value, path[1..], key, successor);
      }
    }
  }
}
