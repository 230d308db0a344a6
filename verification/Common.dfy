/** Shared datatypes, stored times, and facts about finite sets. */
module Common {
  datatype Option<+T> = None | Some(value: T)

  type byte = b: int | 0 <= b < 256
  type bytes = seq<byte>

  // Times are integers counting microseconds.
  const SECOND: int := 1_000_000

  predicate Whole(t: int) {
    t % SECOND == 0
  }

  // What a DATETIME column without fractional seconds keeps of a time: the nearest second.
  function Stored(t: int): (s: int)
    ensures Whole(s) && t - 500_000 < s <= t + 500_000
  {
    (t + 500_000) / SECOND * SECOND
  }

  // Rounding keeps the order, and whole seconds as they are.
  lemma StoredOrder(a: int, b: int)
    requires a <= b
    ensures Stored(a) <= Stored(b)
    ensures Whole(a) ==> Stored(a) == a && a <= Stored(b)
    ensures Whole(b) ==> Stored(a) <= b
  {
  }

  lemma SameSecond(a: int, b: int)
    requires Whole(a) && Whole(b) && a <= b < a + SECOND
    ensures a == b
  {
  }

  lemma WholeSum(a: int, b: int)
    requires Whole(a) && Whole(b)
    ensures Whole(a + b) && Whole(a - b)
  {
  }

  lemma SubsetSize<T>(a: set<T>, b: set<T>)
    requires a <= b
    ensures |a| <= |b|
  {
    assert b == a + (b - a);
  }

  lemma NoMember(s: set<int>)
    ensures s == {} || exists x :: x in s
  {
    if forall x :: x !in s { assert s == {}; }
  }

  // Some member of a set, in no particular order.
  method Any(s: set<int>) returns (r: int)
    requires s != {}
    ensures r in s
  {
    NoMember(s);
    r :| r in s;
  }
}
