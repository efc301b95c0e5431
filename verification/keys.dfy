/** Keys of the ordered map: strings compared ordinally, character by
    character, a shorter prefix sorting first. The tree only relies on `Less`
    being a strict total order, which the lemmas below establish. */
module KeyOrder {

  type Key = string

  predicate Less(a: Key, b: Key)
    decreases |a|
  {
    if |a| == 0 then |b| > 0
    else if |b| == 0 then false
    else if a[0] != b[0] then a[0] < b[0]
    else Less(a[1..], b[1..])
  }

  lemma {:induction false} LessIrreflexive(a: Key)
    ensures !Less(a, a)
    decreases |a|
  {
    if |a| > 0 {
      LessIrreflexive(a[1..]);
    }
  }

  lemma {:induction false} LessAsymmetric(a: Key, b: Key)
    ensures Less(a, b) ==> !Less(b, a)
    decreases |a|
  {
    if |a| > 0 && |b| > 0 && a[0] == b[0] {
      LessAsymmetric(a[1..], b[1..]);
    }
  }

  lemma {:induction false} LessTransitive(a: Key, b: Key, c: Key)
    requires Less(a, b) && Less(b, c)
    ensures Less(a, c)
    decreases |a|
  {
    if |a| > 0 && a[0] == b[0] && b[0] == c[0] {
      LessTransitive(a[1..], b[1..], c[1..]);
    }
  }

  /** Any two distinct keys are ordered one way or the other. */
  lemma {:induction false} LessTotal(a: Key, b: Key)
    ensures a == b || Less(a, b) || Less(b, a)
    decreases |a|
  {
    if |a| > 0 && |b| > 0 && a[0] == b[0] {
      LessTotal(a[1..], b[1..]);
      if a[1..] == b[1..] {
        assert a == [a[0]] + a[1..] && b == [b[0]] + b[1..];
      }
    }
  }

  /** The strict-total-order facts in quantified form, for proofs that need
      them at many instances. */
  lemma StrictTotalOrder()
    ensures forall a: Key :: !Less(a, a)
    ensures forall a: Key, b: Key :: Less(a, b) ==> !Less(b, a)
    ensures forall a: Key, b: Key, c: Key :: Less(a, b) && Less(b, c) ==> Less(a, c)
    ensures forall a: Key, b: Key :: a == b || Less(a, b) || Less(b, a)
  {
    forall a: Key
      ensures !Less(a, a)
    {
      LessIrreflexive(a);
    }
    forall a: Key, b: Key
      ensures Less(a, b) ==> !Less(b, a)
    {
      LessAsymmetric(a, b);
    }
    forall a: Key, b: Key
      ensures a == b || Less(a, b) || Less(b, a)
    {
      LessTotal(a, b);
    }
    forall a: Key, b: Key, c: Key | Less(a, b) && Less(b, c)
      ensures Less(a, c)
    {
      LessTransitive(a, b, c);
    }
  }
}
