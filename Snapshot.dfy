/**
 * The name-keyed snapshot (`Petrify`) and the module-wide backfill that reads
 * it back (`FillMissing`). The iteration orders of the `unordered_map`s are
 * parameters: any listing of their keys.
 */
module Snapshot {
  import opened Wrappers
  import opened Ir
  import opened Text
  import opened Backfill

  /** `order` lists each key of `keys` exactly once. */
  predicate Enumerates<K(==)>(order: seq<K>, keys: set<K>)
  {
    && (forall i :: 0 <= i < |order| ==> order[i] in keys)
    && (forall k :: k in keys ==> k in order)
    && (forall i, j :: 0 <= i < j < |order| ==> order[i] != order[j])
  }

  /** The names of the functions in `order`. */
  function Names(order: seq<Function>): (r: set<string>)
    ensures forall i :: 0 <= i < |order| ==> order[i].name in r
  {
    if order == [] then {} else Names(order[..|order| - 1]) + {order[|order| - 1].name}
  }

  /**
   * The snapshot after `Petrify` visits the tracked functions in `order`:
   * `s_ea_to_dbg[name] = ea_to_dbg[f]` for each in turn.
   */
  function Petrified(s: map<string, Lines>, m: map<Function, Lines>, order: seq<Function>): (r: map<string, Lines>)
    requires forall i :: 0 <= i < |order| ==> order[i] in m
    ensures r.Keys == s.Keys + Names(order)
  {
    if order == [] then s
    else
      var last := order[|order| - 1];
      var init := order[..|order| - 1];
      Petrified(s, m, init)[last.name := m[last]]
  }

  /** An entry under a name no visited function has is left as it was. */
  lemma {:induction false} PetrifiedUntouched(s: map<string, Lines>, m: map<Function, Lines>, order: seq<Function>, n: string)
    requires forall i :: 0 <= i < |order| ==> order[i] in m
    requires forall i :: 0 <= i < |order| ==> order[i].name != n
    ensures n in s ==> Petrified(s, m, order)[n] == s[n]
  {
    if order != [] {
      PetrifiedUntouched(s, m, order[..|order| - 1], n);
    }
  }

  /** Under a name, the function visited last wins. */
  lemma {:induction false} PetrifiedLastWins(s: map<string, Lines>, m: map<Function, Lines>, order: seq<Function>, i: nat)
    requires forall k :: 0 <= k < |order| ==> order[k] in m
    requires i < |order|
    requires forall j :: i < j < |order| ==> order[j].name != order[i].name
    ensures Petrified(s, m, order)[order[i].name] == m[order[i]]
  {
    var init := order[..|order| - 1];
    if i < |order| - 1 {
      assert init[i] == order[i];
      PetrifiedLastWins(s, m, init, i);
    }
  }

  /**
   * When the tracked functions have distinct names, the snapshot holds each
   * function's map under its name.
   */
  lemma PetrifiedByName(s: map<string, Lines>, m: map<Function, Lines>, order: seq<Function>)
    requires forall i :: 0 <= i < |order| ==> order[i] in m
    requires forall i, j :: 0 <= i < j < |order| ==> order[i].name != order[j].name
    ensures forall i :: 0 <= i < |order| ==> Petrified(s, m, order)[order[i].name] == m[order[i]]
  {
    forall i | 0 <= i < |order|
      ensures Petrified(s, m, order)[order[i].name] == m[order[i]]
    {
      PetrifiedLastWins(s, m, order, i);
    }
  }

  /** A tracked function that no other tracked function shares a name with has its map under that name. */
  lemma PetrifiedUniqueName(s: map<string, Lines>, m: map<Function, Lines>, order: seq<Function>, f: Function)
    requires Enumerates(order, m.Keys)
    requires f in m && forall g :: g in m && g.name == f.name ==> g == f
    ensures f.name in Petrified(s, m, order) && Petrified(s, m, order)[f.name] == m[f]
  {
    var k :| 0 <= k < |order| && order[k] == f;
    forall j | k < j < |order| ensures order[j].name != order[k].name {
      assert order[j] in m && order[j] != order[k];
    }
    PetrifiedLastWins(s, m, order, k);
  }

  /**
   * What `Petrify` promises: each tracked function whose name is its own has
   * its map under that name, and an entry under a name no tracked function
   * has is kept.
   */
  lemma PetrifiedKeeps(s: map<string, Lines>, m: map<Function, Lines>, order: seq<Function>)
    requires Enumerates(order, m.Keys)
    ensures forall f :: f in m && (forall g :: g in m && g.name == f.name ==> g == f) ==>
              f.name in Petrified(s, m, order) && Petrified(s, m, order)[f.name] == m[f]
    ensures forall n :: n in s && (forall f :: f in m ==> f.name != n) ==>
              n in Petrified(s, m, order) && Petrified(s, m, order)[n] == s[n]
  {
    forall f | f in m && (forall g :: g in m && g.name == f.name ==> g == f)
      ensures f.name in Petrified(s, m, order) && Petrified(s, m, order)[f.name] == m[f]
    {
      PetrifiedUniqueName(s, m, order, f);
    }
    forall n | n in s && (forall f :: f in m ==> f.name != n)
      ensures n in Petrified(s, m, order) && Petrified(s, m, order)[n] == s[n]
    {
      PetrifiedUntouched(s, m, order, n);
    }
  }

  /** The first name in `order` that `name` ends with. */
  function FirstSuffixMatch(order: seq<string>, name: string): (r: Option<string>)
    ensures r.None? ==> forall i :: 0 <= i < |order| ==> !IsSuffix(order[i], name)
    ensures r.Some? ==> exists i :: 0 <= i < |order| && order[i] == r.value
                               && IsSuffix(r.value, name)
                               && forall j :: 0 <= j < i ==> !IsSuffix(order[j], name)
  {
    if order == [] then None
    else if IsSuffix(order[0], name) then Some(order[0])
    else
      var r := FirstSuffixMatch(order[1..], name);
      assert r.Some? ==> exists i :: 0 < i < |order| && order[i] == r.value by {
        if r.Some? {
          var i :| 0 <= i < |order[1..]| && order[1..][i] == r.value
                   && forall j :: 0 <= j < i ==> !IsSuffix(order[1..][j], name);
          assert order[i + 1] == r.value;
          assert forall j :: 1 <= j < i + 1 ==> !IsSuffix(order[j], name) by {
            forall j | 1 <= j < i + 1 ensures !IsSuffix(order[j], name) {
              assert order[j] == order[1..][j - 1];
            }
          }
        }
      }
      r
  }

  /** A scan that stops at the first name `name` ends with finds what `FirstSuffixMatch` names. */
  lemma FirstSuffixMatchAt(order: seq<string>, name: string, i: nat)
    requires i < |order| && IsSuffix(order[i], name)
    requires forall j :: 0 <= j < i ==> !IsSuffix(order[j], name)
    ensures FirstSuffixMatch(order, name) == Some(order[i])
  {
    var r := FirstSuffixMatch(order, name);
    var k :| 0 <= k < |order| && order[k] == r.value && IsSuffix(r.value, name)
             && forall j :: 0 <= j < k ==> !IsSuffix(order[j], name);
    assert k == i;
  }

  /**
   * One function of `FillMissing`: `Propagate(func, e_lines).Run()` with the
   * map of the first snapshot name the function's name ends with, and
   * nothing when no name matches.
   */
  function Refill(snapshot: map<string, Lines>, order: seq<string>, name: string, blocks: seq<Block>): (r: seq<Block>)
    requires forall i :: 0 <= i < |order| ==> order[i] in snapshot
    requires FirstSuffixMatch(order, name).Some? ==> HasEntryInst(blocks)
    ensures SameShape(r, blocks)
  {
    match FirstSuffixMatch(order, name)
    case None => blocks
    case Some(key) => RunBlocks(snapshot[key], blocks)
  }

  /**
   * Petrify, then recreate a function under the same name (a new object),
   * then backfill: the new function gets what running the backfill with the
   * original function's map would give, provided no other snapshot name is
   * a suffix of that name. This holds for every iteration order of both maps.
   */
  lemma PetrifyRoundTrip(s0: map<string, Lines>, m: map<Function, Lines>, porder: seq<Function>,
                         f: Function, g: Function, forder: seq<string>, blocks: seq<Block>)
    requires Enumerates(porder, m.Keys)
    requires forall i, j :: 0 <= i < j < |porder| ==> porder[i].name != porder[j].name
    requires f in m && g.name == f.name
    requires Enumerates(forder, Petrified(s0, m, porder).Keys)
    requires forall key :: key in Petrified(s0, m, porder) && IsSuffix(key, g.name) ==> key == g.name
    requires HasEntryInst(blocks)
    ensures Refill(Petrified(s0, m, porder), forder, g.name, blocks) == RunBlocks(m[f], blocks)
  {
    var snapshot := Petrified(s0, m, porder);
    PetrifiedByName(s0, m, porder);
    var i :| 0 <= i < |porder| && porder[i] == f;
    assert snapshot[f.name] == m[f];
    assert f.name in snapshot.Keys;
    assert IsSuffix(g.name, g.name);
    var r := FirstSuffixMatch(forder, g.name);
    assert r.Some?;
  }
}
