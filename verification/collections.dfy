/** The persistent AVL map `ReadOnlyTree<TKey, TValue>` of BCad.Core.

    Nodes are immutable values: a "clone followed by a child setter" is a
    fresh `Node` built from the old one's fields, so every version of the map
    stays as it was. A null reference is `Nil`; dereferencing one is a
    `Failure(NullReferenceException)`. The recorded ancestor stack is a
    sequence whose top is element 0. */
module Collections {
  import opened Wrappers
  import opened KeyOrder

  datatype Node<V> =
    | Nil
    | Node(key: Key, value: V, left: Node<V>, right: Node<V>, height: int)

  /** One version of the map: a reference to its root node. */
  datatype ReadOnlyTree<V> = ReadOnlyTree(root: Node<V>)

  function Empty<V>(): ReadOnlyTree<V> {
    ReadOnlyTree(Nil)
  }

  function Max(a: int, b: int): int {
    if a < b then b else a
  }

  /** The cached height of a node; a null reference has height 0. */
  function GetHeight<V>(n: Node<V>): int {
    if n.Nil? then 0 else n.height
  }

  /** The node constructor, which recalculates the cached height from the
      children's cached heights. */
  function NewNode<V>(key: Key, value: V, left: Node<V>, right: Node<V>): (n: Node<V>)
    ensures n.Node? && n.key == key && n.value == value && n.left == left && n.right == right
  {
    Node(key, value, left, right, Max(GetHeight(left), GetHeight(right)) + 1)
  }

  function Clone<V>(n: Node<V>): Node<V>
    requires n.Node?
  {
    NewNode(n.key, n.value, n.left, n.right)
  }

  /** A clone of `n` whose `Left` setter has been called with `left`. */
  function WithLeft<V>(n: Node<V>, left: Node<V>): Node<V>
    requires n.Node?
  {
    NewNode(n.key, n.value, left, n.right)
  }

  /** A clone of `n` whose `Right` setter has been called with `right`. */
  function WithRight<V>(n: Node<V>, right: Node<V>): Node<V>
    requires n.Node?
  {
    NewNode(n.key, n.value, n.left, right)
  }

  function BalanceFactor<V>(n: Node<V>): int
    requires n.Node?
  {
    GetHeight(n.left) - GetHeight(n.right)
  }

  function GetCount<V>(n: Node<V>): nat {
    if n.Nil? then 0 else GetCount(n.left) + GetCount(n.right) + 1
  }

  function Count<V>(t: ReadOnlyTree<V>): nat {
    GetCount(t.root)
  }

  // ---------------------------------------------------------------------
  // Invariants (used by the proofs; the code keeps none of them explicitly)
  // ---------------------------------------------------------------------

  ghost function Keys<V>(n: Node<V>): set<Key> {
    if n.Nil? then {} else Keys(n.left) + {n.key} + Keys(n.right)
  }

  /** The key/value pairs stored in the nodes of `n`. */
  ghost function Entries<V>(n: Node<V>): set<(Key, V)> {
    if n.Nil? then {} else Entries(n.left) + {(n.key, n.value)} + Entries(n.right)
  }

  /** Every cached height is one more than the larger of its children's. */
  ghost predicate HeightsCached<V>(n: Node<V>) {
    n.Nil? ||
    (n.height == Max(GetHeight(n.left), GetHeight(n.right)) + 1 &&
     HeightsCached(n.left) && HeightsCached(n.right))
  }

  /** Binary-search-tree ordering. */
  ghost predicate Ordered<V>(n: Node<V>) {
    n.Nil? ||
    (Ordered(n.left) && Ordered(n.right) &&
     (forall x :: x in Keys(n.left) ==> Less(x, n.key)) &&
     (forall x :: x in Keys(n.right) ==> Less(n.key, x)))
  }

  /** The AVL condition at every node. */
  ghost predicate Balanced<V>(n: Node<V>) {
    n.Nil? || (-1 <= BalanceFactor(n) <= 1 && Balanced(n.left) && Balanced(n.right))
  }

  ghost predicate Valid<V>(n: Node<V>) {
    HeightsCached(n) && Ordered(n) && Balanced(n)
  }

  ghost predicate AllNodes<V>(path: seq<Node<V>>) {
    forall i :: 0 <= i < |path| ==> path[i].Node?
  }

  // ---------------------------------------------------------------------
  // Lookup
  // ---------------------------------------------------------------------

  /** The search loop of TryFind, from node `n`. */
  function Find<V>(n: Node<V>, key: Key): Option<V> {
    if n.Nil? then None
    else if Less(key, n.key) then Find(n.left, key)
    else if Less(n.key, key) then Find(n.right, key)
    else Some(n.value)
  }

  function TryFind<V>(t: ReadOnlyTree<V>, key: Key): Option<V> {
    Find(t.root, key)
  }

  function KeyExists<V>(t: ReadOnlyTree<V>, key: Key): bool {
    TryFind(t, key).Some?
  }

  // ---------------------------------------------------------------------
  // Rebalancing
  // ---------------------------------------------------------------------

  function RightRightRebalance<V>(root: Node<V>): (r: Node<V>)
    requires root.Node? && root.right.Node?
    ensures r.Node?
  {
    var newLeftChild := WithRight(root, root.right.left);
    WithLeft(root.right, newLeftChild)
  }

  function RightLeftRebalance<V>(root: Node<V>): (r: Result<Node<V>>)
    requires root.Node? && root.right.Node?
    ensures r.Success? ==> r.value.Node?
  {
    if root.right.left.Nil? then Failure(NullReferenceException)
    else
      var newRightGrandchild := WithLeft(root.right, root.right.left.right);
      var newRightChild := WithRight(root.right.left, newRightGrandchild);
      var newRoot := WithRight(root, newRightChild);
      Success(RightRightRebalance(newRoot))
  }

  function RightRebalance<V>(node: Node<V>, insert: bool): (r: Result<Node<V>>)
    requires node.Node?
    ensures r.Success? ==> r.value.Node?
  {
    if node.right.Nil? then Failure(NullReferenceException)
    else
      var bf := BalanceFactor(node.right);
      if bf == -1 || (!insert && bf == 0) then Success(RightRightRebalance(node))
      else RightLeftRebalance(node)
  }

  function LeftLeftRebalance<V>(root: Node<V>): (r: Node<V>)
    requires root.Node? && root.left.Node?
    ensures r.Node?
  {
    var newRightChild := WithLeft(root, root.left.right);
    WithRight(root.left, newRightChild)
  }

  function LeftRightRebalance<V>(root: Node<V>): (r: Result<Node<V>>)
    requires root.Node? && root.left.Node?
    ensures r.Success? ==> r.value.Node?
  {
    if root.left.right.Nil? then Failure(NullReferenceException)
    else
      var newLeftGrandchild := WithRight(root.left, root.left.right.left);
      var newLeftChild := WithLeft(root.left.right, newLeftGrandchild);
      var newRoot := WithLeft(root, newLeftChild);
      Success(LeftLeftRebalance(newRoot))
  }

  function LeftRebalance<V>(node: Node<V>, insert: bool): (r: Result<Node<V>>)
    requires node.Node?
    ensures r.Success? ==> r.value.Node?
  {
    if node.left.Nil? then Failure(NullReferenceException)
    else
      var bf := BalanceFactor(node.left);
      if bf == 1 || (!insert && bf == 0) then Success(LeftLeftRebalance(node))
      else LeftRightRebalance(node)
  }

  /** A node whose balance factor is within one is returned as it is;
      -2 goes to the right-heavy rotations and every other factor to the
      left-heavy ones (the assertion that it is exactly 2 is a debug-only
      check). */
  function Rebalance<V>(node: Node<V>, insert: bool): (r: Result<Node<V>>)
    requires node.Node?
    ensures r.Success? ==> r.value.Node?
  {
    var bf := BalanceFactor(node);
    if -1 <= bf <= 1 then Success(node)
    else if bf == -2 then RightRebalance(node, insert)
    else LeftRebalance(node, insert)
  }

  // ---------------------------------------------------------------------
  // Insert and Delete
  // ---------------------------------------------------------------------

  /** The descent shared by Insert and Delete: the nodes passed on the way
      down, as the stack of pushed ancestors (deepest first), and the node
      where the walk stopped: a null reference or the node holding `key`,
      which is not pushed. */
  function Descend<V>(n: Node<V>, key: Key): (r: (seq<Node<V>>, Node<V>))
    ensures r.1.Nil? || r.1.key == key
    ensures AllNodes(r.0)
    decreases n
  {
    if n.Nil? then ([], Nil)
    else if Less(key, n.key) then
      var (path, current) := Descend(n.left, key);
      (path + [n], current)
    else if Less(n.key, key) then
      var (path, current) := Descend(n.right, key);
      (path + [n], current)
    else
      LessTotal(key, n.key);
      ([], n)
  }

  /** The rebuilt child goes left of the cloned parent when its key is
      smaller, right otherwise. */
  function Relink<V>(parent: Node<V>, child: Node<V>): (r: Node<V>)
    requires parent.Node? && child.Node?
    ensures r.Node? && r.key == parent.key && r.value == parent.value
  {
    if Less(child.key, parent.key) then WithLeft(parent, child) else WithRight(parent, child)
  }

  /** Pops every ancestor, relinks a clone of it to the subtree rebuilt so
      far and rebalances that clone. */
  function BalanceAndReSpine<V>(current: Node<V>, ancestors: seq<Node<V>>, insert: bool): (r: Result<Node<V>>)
    requires current.Node? && AllNodes(ancestors)
    ensures r.Success? ==> r.value.Node?
    decreases |ancestors|
  {
    if ancestors == [] then Success(current)
    else
      var current' :- Rebalance(Relink(ancestors[0], current), insert);
      BalanceAndReSpine(current', ancestors[1..], insert)
  }

  /** Insert the given values and return the new resultant tree: an existing
      node with the same key is replaced by one that takes over its
      children. */
  function Insert<V>(t: ReadOnlyTree<V>, key: Key, value: V): Result<ReadOnlyTree<V>> {
    var (path, current) := Descend(t.root, key);
    var newNode := if current.Nil? then NewNode(key, value, Nil, Nil)
                   else NewNode(key, value, current.left, current.right);
    var newRoot :- BalanceAndReSpine(newNode, path, true);
    Success(ReadOnlyTree(newRoot))
  }

  /** The walk from the right child of the node being deleted down its left
      spine: the nodes that have a left child, as pushed (deepest first), and
      the leftmost node, the in-order successor. */
  function DescendLeft<V>(n: Node<V>): (r: (seq<Node<V>>, Node<V>))
    requires n.Node?
    ensures r.1.Node? && r.1.left.Nil?
    ensures AllNodes(r.0)
    decreases n
  {
    if n.left.Nil? then ([], n)
    else
      var (path, successor) := DescendLeft(n.left);
      (path + [n], successor)
  }

  /** The re-spine of the two-children case: an ancestor whose key equals
      the deleted key takes the successor's key and value, every other one is
      relinked to the subtree rebuilt so far; each is then rebalanced. */
  function SuccessorReSpine<V>(current: Node<V>, path: seq<Node<V>>, key: Key, successor: Node<V>): (r: Result<Node<V>>)
    requires current.Node? && successor.Node? && AllNodes(path)
    ensures r.Success? ==> r.value.Node?
    decreases |path|
  {
    if path == [] then Success(current)
    else
      var p := path[0];
      var newParent := if p.key == key then NewNode(successor.key, successor.value, p.left, p.right)
                       else Relink(p, current);
      var current' :- Rebalance(newParent, false);
      SuccessorReSpine(current', path[1..], key, successor)
  }

  /** Delete the specified key and return the resultant tree, exactly as the
      code does it (see the README for where this differs from the intent). */
  function Delete<V>(t: ReadOnlyTree<V>, key: Key): Result<ReadOnlyTree<V>> {
    var (path, current) := Descend(t.root, key);
    if current.Nil? then Success(t)
    else if current.left.Nil? && current.right.Nil? then
      if path == [] then Success(ReadOnlyTree(Nil))
      else
        var parent := path[0];
        var newParent := if Less(current.key, parent.key) then WithLeft(parent, Nil) else WithRight(parent, Nil);
        var newRoot :- BalanceAndReSpine(newParent, path[1..], false);
        Success(ReadOnlyTree(newRoot))
    else if current.left.Nil? then
      var newRoot :- BalanceAndReSpine(Clone(current.right), path, false);
      Success(ReadOnlyTree(newRoot))
    else if current.right.Nil? then
      var newRoot :- BalanceAndReSpine(Clone(current.left), path, false);
      Success(ReadOnlyTree(newRoot))
    else
      var (spine, successor) := DescendLeft(current.right);
      var newRoot :- SuccessorReSpine(successor, spine + path, key, successor);
      Success(ReadOnlyTree(newRoot))
  }
}
