/**
 * The ordered queries of `std::map<uint64_t, DILocation*>` that the block
 * backfill uses, stated through the keys: `lower_bound(ea)` is the least key
 * at or above `ea`, its predecessor the greatest key below `ea`, and
 * `begin()` the least key overall.
 */
module OrderedKeys {
  import opened Wrappers
  import opened Ints

  predicate IsMax(s: set<u64>, m: u64) { m in s && forall x :: x in s ==> x <= m }

  predicate IsMin(s: set<u64>, m: u64) { m in s && forall x :: x in s ==> m <= x }

  lemma {:induction false} MaxExists(s: set<u64>)
    requires s != {}
    ensures exists m :: IsMax(s, m)
  {
    var y :| y in s;
    var rest := s - {y};
    if rest == {} {
      forall x | x in s ensures x <= y {
        assert x == y || x in rest;
      }
      assert IsMax(s, y);
    } else {
      MaxExists(rest);
      var m :| IsMax(rest, m);
      var b := if m < y then y else m;
      forall x | x in s ensures x <= b {
        if x != y { assert x in rest; }
      }
      assert IsMax(s, b);
    }
  }

  lemma {:induction false} MinExists(s: set<u64>)
    requires s != {}
    ensures exists m :: IsMin(s, m)
  {
    var y :| y in s;
    var rest := s - {y};
    if rest == {} {
      forall x | x in s ensures y <= x {
        assert x == y || x in rest;
      }
      assert IsMin(s, y);
    } else {
      MinExists(rest);
      var m :| IsMin(rest, m);
      var b := if y < m then y else m;
      forall x | x in s ensures b <= x {
        if x != y { assert x in rest; }
      }
      assert IsMin(s, b);
    }
  }

  /** The largest element of a non-empty set of addresses. */
  function MaxOf(s: set<u64>): (m: u64)
    requires s != {}
    ensures m in s && forall x :: x in s ==> x <= m
  {
    MaxExists(s);
    var m :| IsMax(s, m); m
  }

  /** The smallest element of a non-empty set of addresses. */
  function MinOf(s: set<u64>): (m: u64)
    requires s != {}
    ensures m in s && forall x :: x in s ==> m <= x
  {
    MinExists(s);
    var m :| IsMin(s, m); m
  }

  /** `begin()` of a non-empty map: its least key. */
  function LeastKey<V>(m: map<u64, V>): (k: u64)
    requires m != map[]
    ensures k in m && forall x :: x in m ==> k <= x
  {
    assert m.Keys != {} by {
      var x :| x in m;
    }
    MinOf(m.Keys)
  }

  /**
   * `std::prev(lower_bound(ea))` when `lower_bound(ea) != begin()`: the
   * greatest key strictly below `ea`; `None` when no key is below `ea`.
   */
  function GreatestKeyBelow<V>(m: map<u64, V>, ea: u64): (r: Option<u64>)
    ensures r.None? <==> forall x :: x in m ==> ea <= x
    ensures r.Some? ==> r.value in m && r.value < ea
    ensures r.Some? ==> forall x :: x in m && x < ea ==> x <= r.value
  {
    var below := set x | x in m && x < ea;
    assert forall x :: x in m && x < ea ==> x in below;
    if below == {} then None else Some(MaxOf(below))
  }
}
