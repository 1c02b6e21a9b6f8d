/** The front of an ordered side index. The bid index is a std::map ordered by
    std::greater (its front is the highest price) and the ask index uses the
    default ordering (its front is the lowest price); here a side index is a
    Dafny map and its front key is computed from the key set. */
module Keys {

  lemma NonEmpty(s: set<int>)
    requires s != {}
    ensures exists y :: y in s
  {
    if forall y :: y !in s { assert false; }
  }

  lemma {:induction false} MaxExists(s: set<int>)
    requires s != {}
    ensures exists m :: m in s && forall x :: x in s ==> x <= m
  {
    NonEmpty(s);
    var y :| y in s;
    var rest := s - {y};
    assert forall x :: x in s ==> x == y || x in rest;
    if rest == {} {
      assert forall x :: x in s ==> x <= y;
    } else {
      MaxExists(rest);
      var m :| m in rest && forall x :: x in rest ==> x <= m;
      var top := if y > m then y else m;
      assert forall x :: x in s ==> x <= top;
    }
  }

  lemma {:induction false} MinExists(s: set<int>)
    requires s != {}
    ensures exists m :: m in s && forall x :: x in s ==> m <= x
  {
    NonEmpty(s);
    var y :| y in s;
    var rest := s - {y};
    assert forall x :: x in s ==> x == y || x in rest;
    if rest == {} {
      assert forall x :: x in s ==> y <= x;
    } else {
      MinExists(rest);
      var m :| m in rest && forall x :: x in rest ==> m <= x;
      var low := if y < m then y else m;
      assert forall x :: x in s ==> low <= x;
    }
  }

  /** The largest key: the front of a descending index. */
  function MaxKey(s: set<int>): (m: int)
    requires s != {}
    ensures m in s && forall x :: x in s ==> x <= m
  {
    MaxExists(s);
    var m :| m in s && forall x :: x in s ==> x <= m;
    m
  }

  /** The smallest key: the front of an ascending index. */
  function MinKey(s: set<int>): (m: int)
    requires s != {}
    ensures m in s && forall x :: x in s ==> m <= x
  {
    MinExists(s);
    var m :| m in s && forall x :: x in s ==> m <= x;
    m
  }

  /** Price priority on one side: a higher bid, or a lower ask, comes first. */
  predicate Before(isBuy: bool, a: int, b: int)
  {
    if isBuy then a > b else a < b
  }

  /** The front key of a side: the best price. */
  function BestKey(s: set<int>, isBuy: bool): (m: int)
    requires s != {}
    ensures m in s && forall x :: x in s && x != m ==> Before(isBuy, m, x)
  {
    if isBuy then MaxKey(s) else MinKey(s)
  }
}
