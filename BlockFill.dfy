/**
 * `FillFunc` and `get_first_dil`: within one block, an instruction without a
 * location takes the location of the nearest located instruction before it.
 */
module BlockFill {
  import opened Wrappers
  import opened Ir

  /** One instruction of `FillFunc`: the location it ends with, which is also the next running `dil`. */
  function FillStep(dil: Option<Loc>, loc: Option<Loc>): Option<Loc>
  {
    if loc.Some? then loc else dil
  }

  /** The locations of a block's instructions after the fill loop started from `dil`. */
  function Filled(dil: Option<Loc>, insts: seq<Option<Loc>>): (r: seq<Option<Loc>>)
    ensures |r| == |insts|
    decreases |insts|
  {
    if insts == [] then []
    else
      var next := FillStep(dil, insts[0]);
      [next] + Filled(next, insts[1..])
  }

  /** The last location in `insts`, or `dil` when none is located. */
  function LastLoc(dil: Option<Loc>, insts: seq<Option<Loc>>): Option<Loc>
  {
    if insts == [] then dil
    else if insts[|insts| - 1].Some? then insts[|insts| - 1]
    else LastLoc(dil, insts[..|insts| - 1])
  }

  /** A block after `FillFunc`. */
  function Filling(bb: Block): Block
  {
    Block(bb.name, Filled(None, bb.insts))
  }

  lemma {:induction false} FilledAt(dil: Option<Loc>, insts: seq<Option<Loc>>, i: nat)
    requires i < |insts|
    ensures Filled(dil, insts)[i] == FillStep(if i == 0 then dil else Filled(dil, insts)[i - 1], insts[i])
    decreases |insts|
  {
    if i > 0 {
      FilledAt(FillStep(dil, insts[0]), insts[1..], i - 1);
    }
  }

  /** Each instruction ends with the nearest location at or before it, or `dil` if there is none. */
  lemma {:induction false} FilledNearestEarlier(dil: Option<Loc>, insts: seq<Option<Loc>>, i: nat)
    requires i < |insts|
    ensures Filled(dil, insts)[i] == LastLoc(dil, insts[..i + 1])
  {
    FilledAt(dil, insts, i);
    assert insts[..i + 1][..i] == insts[..i];
    if i > 0 {
      FilledNearestEarlier(dil, insts, i - 1);
    }
  }

  /** A located instruction is never changed. */
  lemma FilledKeepsLocated(dil: Option<Loc>, insts: seq<Option<Loc>>, i: nat)
    requires i < |insts| && insts[i].Some?
    ensures Filled(dil, insts)[i] == insts[i]
  {
    FilledAt(dil, insts, i);
  }

  /** With nothing located at or before `i`, instruction `i` stays unlocated. */
  lemma {:induction false} LastLocNone(insts: seq<Option<Loc>>)
    requires forall k :: 0 <= k < |insts| ==> insts[k].None?
    ensures LastLoc(None, insts).None?
  {
    if insts != [] {
      LastLocNone(insts[..|insts| - 1]);
    }
  }

  /** Filling twice is filling once. */
  lemma {:induction false} FilledIdempotent(dil: Option<Loc>, insts: seq<Option<Loc>>)
    ensures Filled(dil, Filled(dil, insts)) == Filled(dil, insts)
    decreases |insts|
  {
    if insts != [] {
      var next := FillStep(dil, insts[0]);
      var tail := Filled(next, insts[1..]);
      assert ([next] + tail)[1..] == tail;
      assert FillStep(dil, next) == next;
      FilledIdempotent(next, insts[1..]);
    }
  }

  lemma FillingIdempotent(bb: Block)
    ensures Filling(Filling(bb)) == Filling(bb)
  {
    FilledIdempotent(None, bb.insts);
  }

  /** One iteration of the fill loop: the rewritten prefix grows by the step's result. */
  lemma FilledStep(done: seq<Option<Loc>>, dil: Option<Loc>, insts: seq<Option<Loc>>, i: nat, target: seq<Option<Loc>>)
    requires i < |insts| && done + Filled(dil, insts[i..]) == target
    ensures var next := FillStep(dil, insts[i]);
      && (done + [next]) + Filled(next, insts[i + 1..]) == target
      && (done + insts[i..])[|done| := next] == (done + [next]) + insts[i + 1..]
      && (next == insts[i] ==> (done + [next]) + insts[i + 1..] == done + insts[i..])
  {
    assert insts[i..][1..] == insts[i + 1..];
    Splice(done, insts[i..], FillStep(dil, insts[i]));
  }

  /** The inner loop of `FillFunc` on block `b`, setting locations in place. */
  method FillBlock(f: Function, b: nat)
    requires b < |f.blocks|
    modifies f
    ensures f.blocks == old(f.blocks)[b := Filling(old(f.blocks[b]))]
  {
    ghost var blocks0 := f.blocks;
    ghost var insts0 := f.blocks[b].insts;
    var name := f.blocks[b].name;
    var dil: Option<Loc> := None;
    ghost var done: seq<Option<Loc>> := [];
    var i := 0;
    assert blocks0[b] == Block(name, done + insts0[i..]);
    while i < |f.blocks[b].insts|
      invariant 0 <= i <= |insts0| && |done| == i
      invariant f.blocks == blocks0[b := Block(name, done + insts0[i..])]
      invariant done + Filled(dil, insts0[i..]) == Filled(None, insts0)
    {
      var loc := f.blocks[b].insts[i];
      ghost var next := FillStep(dil, loc);
      FilledStep(done, dil, insts0, i, Filled(None, insts0));
      assert f.blocks[b] == Block(name, done + insts0[i..]);
      if loc.Some? {
        dil := loc;
      } else {
        if dil.Some? {
          f.SetDebugLoc(b, i, dil);
        }
      }
      assert f.blocks == blocks0[b := Block(name, (done + insts0[i..])[i := next])];
      done := done + [next];
      i := i + 1;
    }
    assert insts0[i..] == [];
  }

  /** `get_first_dil(bb)`: the location of the first located instruction, if any. */
  method GetFirstDil(bb: Block) returns (r: Option<Loc>)
    ensures r.None? <==> forall i :: 0 <= i < |bb.insts| ==> bb.insts[i].None?
    ensures r.Some? ==> exists i :: 0 <= i < |bb.insts| && bb.insts[i] == r
                                && forall j :: 0 <= j < i ==> bb.insts[j].None?
  {
    var i := 0;
    while i < |bb.insts|
      invariant 0 <= i <= |bb.insts|
      invariant forall j :: 0 <= j < i ==> bb.insts[j].None?
    {
      if bb.insts[i].Some? {
        return bb.insts[i];
      }
      i := i + 1;
    }
    return None;
  }
}
