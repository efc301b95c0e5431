/** Two places where `Delete` does not do what its documentation promises,
    each shown on a small valid tree. */
module DeleteExamples {
  import opened Wrappers
  import opened KeyOrder
  import opened Collections

  function Leaf(key: Key): Node<int> {
    NewNode(key, 0, Nil, Nil)
  }

  /** 1 <- 2 -> 3 */
  function ThreeKeys(): Node<int> {
    NewNode("2", 0, Leaf("1"), Leaf("3"))
  }

  /** 1 -> 3 */
  function TwoKeys(): Node<int> {
    NewNode("1", 0, Nil, Leaf("3"))
  }

  /** 1 <- 2 -> (3 -> 4) */
  function FourKeys(): Node<int> {
    NewNode("2", 0, Leaf("1"), NewNode("3", 0, Nil, Leaf("4")))
  }

  /** What the leaf case leaves of `FourKeys` after deleting "1". */
  function FourKeysWithoutOne(): Node<int> {
    NewNode("2", 0, Nil, FourKeys().right)
  }

  // ---------------------------------------------------------------------
  // The example trees are valid
  // ---------------------------------------------------------------------

  lemma ThreeKeysOrdered()
    ensures Ordered(ThreeKeys())
  {
    assert Less("1", "2") && Less("2", "3");
    assert Keys(Leaf("1")) == {"1"} && Keys(Leaf("3")) == {"3"};
  }

  lemma ThreeKeysCached()
    ensures HeightsCached(ThreeKeys())
  {
  }

  lemma ThreeKeysBalanced()
    ensures Balanced(ThreeKeys())
  {
  }

  lemma ThreeKeysValid()
    ensures Valid(ThreeKeys())
  {
    ThreeKeysCached();
    ThreeKeysBalanced();
    ThreeKeysOrdered();
  }

  lemma TwoKeysOrdered()
    ensures Ordered(TwoKeys())
  {
    assert Less("1", "3");
    assert Keys(Leaf("3")) == {"3"};
  }

  lemma TwoKeysCached()
    ensures HeightsCached(TwoKeys())
  {
  }

  lemma TwoKeysBalanced()
    ensures Balanced(TwoKeys())
  {
  }

  lemma TwoKeysValid()
    ensures Valid(TwoKeys())
  {
    TwoKeysCached();
    TwoKeysBalanced();
    TwoKeysOrdered();
  }

  lemma FourKeysOrdered()
    ensures Ordered(FourKeys())
  {
    assert Less("1", "2") && Less("2", "3") && Less("3", "4") && Less("2", "4");
    assert Keys(Leaf("1")) == {"1"} && Keys(Leaf("4")) == {"4"};
    assert Keys(FourKeys().right) == {"3", "4"};
  }

  lemma FourKeysCached()
    ensures HeightsCached(FourKeys())
  {
  }

  lemma FourKeysBalanced()
    ensures Balanced(FourKeys())
  {
  }

  lemma FourKeysValid()
    ensures Valid(FourKeys())
  {
    FourKeysCached();
    FourKeysBalanced();
    FourKeysOrdered();
  }

  // ---------------------------------------------------------------------
  // Two children: the left subtree is lost
  // ---------------------------------------------------------------------

  /** The node holding the key is never pushed on the path, so the successor
      never takes its place: its right subtree does, and the left subtree is
      lost. Deleting "2" from the valid tree 1 <- 2 -> 3 leaves only "3". */
  lemma TwoChildrenDropsLeftSubtree(t: ReadOnlyTree<int>)
    requires t.root == ThreeKeys()
    ensures Valid(t.root) && Keys(t.root) == {"1", "2", "3"}
    ensures Delete(t, "2") == Success(ReadOnlyTree(Leaf("3")))
    ensures Keys(Leaf("3")) == {"3"}
  {
    ThreeKeysValid();
    ThreeKeysKeys();
    DeleteRootOfThreeKeys();
  }

  lemma ThreeKeysKeys()
    ensures Keys(ThreeKeys()) == {"1", "2", "3"} && Keys(Leaf("3")) == {"3"}
  {
  }

  lemma DeleteRootOfThreeKeys()
    ensures Delete(ReadOnlyTree(ThreeKeys()), "2") == Success(ReadOnlyTree(Leaf("3")))
  {
    assert Descend(ThreeKeys(), "2") == ([], ThreeKeys());
  }

  lemma DescendTwoKeys()
    ensures Descend(TwoKeys(), "2") == ([Leaf("3"), TwoKeys()], Nil)
  {
    assert Less("1", "2") && Less("2", "3");
    assert Descend<int>(Nil, "2") == ([], Nil);
    assert [] + [Leaf("3")] == [Leaf("3")];
    assert Descend(Leaf("3"), "2") == ([Leaf("3")], Nil);
    assert [Leaf("3")] + [TwoKeys()] == [Leaf("3"), TwoKeys()];
  }

  /** Inserting "2" into {1, 3} ends in a right-left rotation that puts "2"
      at the root with two children. */
  lemma InsertIntoTwoKeys()
    ensures Insert(ReadOnlyTree(TwoKeys()), "2", 0) == Success(ReadOnlyTree(ThreeKeys()))
  {
    DescendTwoKeys();
    var grown := WithLeft(Leaf("3"), Leaf("2"));
    assert BalanceAndReSpine(Leaf("2"), [Leaf("3")], true) == Success(grown) by {
      assert Less("2", "3");
      assert Relink(Leaf("3"), Leaf("2")) == grown;
    }
    var top := WithRight(TwoKeys(), grown);
    assert Relink(TwoKeys(), grown) == top by {
      assert !Less("2", "1");
    }
    assert Rebalance(top, true) == Success(ThreeKeys());
    assert BalanceAndReSpine(Leaf("2"), [Leaf("3"), TwoKeys()], true) == Success(ThreeKeys());
  }

  /** The same defect breaks the insert/delete round trip: inserting the
      fresh key "2" into the valid map {1, 3} and deleting it again leaves
      {3}. */
  lemma TwoKeysKeys()
    ensures Keys(TwoKeys()) == {"1", "3"}
  {
  }

  lemma InsertThenDeleteLosesKey(t: ReadOnlyTree<int>)
    requires t.root == TwoKeys()
    ensures Valid(t.root) && Keys(t.root) == {"1", "3"}
    ensures Insert(t, "2", 0) == Success(ReadOnlyTree(ThreeKeys()))
    ensures Delete(Insert(t, "2", 0).value, "2") == Success(ReadOnlyTree(Leaf("3")))
    ensures Keys(Leaf("3")) == {"3"}
  {
    TwoKeysValid();
    TwoKeysKeys();
    assert t == ReadOnlyTree(TwoKeys());
    InsertIntoTwoKeys();
    DeleteRootOfThreeKeys();
    ThreeKeysKeys();
  }

  // ---------------------------------------------------------------------
  // Leaf: the parent is not rebalanced
  // ---------------------------------------------------------------------

  lemma DeleteLeafOfFourKeys()
    ensures Delete(ReadOnlyTree(FourKeys()), "1") == Success(ReadOnlyTree(FourKeysWithoutOne()))
  {
    assert Less("1", "2") && !Less("1", "1");
    assert Descend(Leaf("1"), "1") == ([], Leaf("1"));
    assert [] + [FourKeys()] == [FourKeys()];
    assert Descend(FourKeys(), "1") == ([FourKeys()], Leaf("1"));
  }

  /** The parent that loses the leaf is cloned but never rebalanced:
      deleting "1" from the valid tree 1 <- 2 -> (3 -> 4) succeeds and leaves
      the root with balance factor -2. */
  lemma LeafParentNotRebalanced(t: ReadOnlyTree<int>)
    requires t.root == FourKeys()
    ensures Valid(t.root)
    ensures Delete(t, "1").Success?
    ensures var r := Delete(t, "1").value.root;
      r.Node? && BalanceFactor(r) == -2 && !Balanced(r)
  {
    FourKeysValid();
    DeleteLeafOfFourKeys();
    RootOutOfBalance();
  }

  lemma RootOutOfBalance()
    ensures FourKeysWithoutOne().Node? && BalanceFactor(FourKeysWithoutOne()) == -2
    ensures !Balanced(FourKeysWithoutOne())
  {
  }

  // ---------------------------------------------------------------------
  // The promises that fail
  // ---------------------------------------------------------------------

  /** Deleting a key from a valid tree can remove other keys as well. */
  lemma DeleteCanLoseOtherKeys()
    ensures exists t: ReadOnlyTree<int>, key: Key ::
      Valid(t.root) && Delete(t, key).Success? &&
      Keys(Delete(t, key).value.root) != Keys(t.root) - {key}
  {
    var t := ReadOnlyTree(ThreeKeys());
    DropsOne(t);
  }

  lemma DropsOne(t: ReadOnlyTree<int>)
    requires t.root == ThreeKeys()
    ensures Valid(t.root) && Delete(t, "2").Success?
    ensures Keys(Delete(t, "2").value.root) != Keys(t.root) - {"2"}
  {
    TwoChildrenDropsLeftSubtree(t);
    OneSurvivesInIntent();
  }

  lemma OneSurvivesInIntent()
    ensures {"3"} != {"1", "2", "3"} - {"2"}
  {
    assert "1" in {"1", "2", "3"} - {"2"};
  }

  /** Deleting a key from a valid tree can leave it out of balance. */
  lemma DeleteCanUnbalance()
    ensures exists t: ReadOnlyTree<int>, key: Key ::
      Valid(t.root) && Delete(t, key).Success? && !Balanced(Delete(t, key).value.root)
  {
    var t := ReadOnlyTree(FourKeys());
    LeafParentNotRebalanced(t);
  }
}
