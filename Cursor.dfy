/**
 * `DbgMetadata::Ctx`: the forward-fill cursor used while a function's
 * instructions are emitted in address order. Block and instruction pointers
 * become indices into the cursor's function.
 */
module Cursor {
  import opened Wrappers
  import opened Ir

  /** Start of the painting: the cursor's instruction, the first one when the cursor is unset. */
  function CursorIndex(current: Option<nat>): nat
  {
    if current.None? then 0 else current.value
  }

  /** Block `b` of `f` with every location removed. */
  method ClearBlock(f: Function, b: nat)
    requires b < |f.blocks|
    modifies f
    ensures f.blocks == old(f.blocks)[b := Block(old(f.blocks[b].name), seq(|old(f.blocks[b].insts)|, _ => None))]
  {
    ghost var blocks0 := f.blocks;
    var name := f.blocks[b].name;
    var n := |f.blocks[b].insts|;
    var i := 0;
    while i < n
      invariant 0 <= i <= n
      invariant |f.blocks| == |blocks0| && f.blocks[b].name == name && |f.blocks[b].insts| == n
      invariant forall k :: 0 <= k < |blocks0| && k != b ==> f.blocks[k] == blocks0[k]
      invariant forall j :: 0 <= j < i ==> f.blocks[b].insts[j].None?
    {
      f.SetDebugLoc(b, i, None);
      i := i + 1;
    }
    assert f.blocks[b].insts == seq(n, _ => None);
    assert f.blocks == blocks0[b := Block(name, seq(n, _ => None))];
  }

  class Ctx {
    var func: Function?
    /** `current`: the last instruction visited in the active block; `None` is the null pointer. */
    var current: Option<nat>
    /** `block`: the active block of `func`. */
    var block: nat
    /** `dil`: the location last painted forward. */
    var dil: Option<Loc>

    /** `Ctx _ctx = { nullptr }` */
    constructor ()
      ensures func == null && current.None? && block == 0 && dil.None?
    {
      func := null;
      current := None;
      block := 0;
      dil := None;
    }

    /** The cursor points into its function. */
    ghost predicate Valid()
      reads this, func
    {
      && func != null
      && block < |func.blocks|
      && (current.Some? ==> current.value < |func.blocks[block].insts|)
    }

    /** `Clear()`: every location of the function removed, cursor on the entry block's last instruction. */
    method Clear()
      requires func != null && HasEntryInst(func.blocks)
      modifies this`current, this`block, func
      ensures Valid()
      ensures SameShape(func.blocks, old(func.blocks))
      ensures forall k, i :: 0 <= k < |func.blocks| && 0 <= i < |func.blocks[k].insts| ==> func.blocks[k].insts[i].None?
      ensures block == 0 && current == Some(|func.blocks[0].insts| - 1)
    {
      ghost var blocks0 := func.blocks;
      var b := 0;
      while b < |func.blocks|
        invariant 0 <= b <= |blocks0|
        invariant SameShape(func.blocks, blocks0)
        invariant forall k :: b <= k < |blocks0| ==> func.blocks[k] == blocks0[k]
        invariant forall k, i :: 0 <= k < b && 0 <= i < |func.blocks[k].insts| ==> func.blocks[k].insts[i].None?
      {
        ClearBlock(func, b);
        b := b + 1;
      }
      current := Some(|func.blocks[0].insts| - 1);
      block := 0;
    }

    /** `SetBlock(new_b)`: switch to block `b` with the cursor unset. */
    method SetBlock(b: nat)
      requires func != null && b < |func.blocks|
      modifies this`block, this`current
      ensures Valid() && block == b && current.None?
    {
      block := b;
      current := None;
    }

    /**
     * What `PropagateForward(loc)` does: every instruction strictly after
     * the cursor in the active block gets `loc`; the cursor's own instruction,
     * the ones before it and all other blocks are untouched; the cursor ends
     * on the block's last instruction.
     */
    twostate predicate PaintedForward(loc: Option<Loc>)
      reads this, func
      requires old(Valid())
    {
      && func == old(func) && block == old(block) && Valid()
      && |func.blocks| == |old(func.blocks)|
      && (forall k :: 0 <= k < |func.blocks| && k != old(block) ==> func.blocks[k] == old(func.blocks[k]))
      && func.blocks[block].name == old(func.blocks[block].name)
      && |func.blocks[block].insts| == |old(func.blocks[block].insts)|
      && (forall i :: 0 <= i <= CursorIndex(old(current)) && i < |func.blocks[block].insts| ==>
            func.blocks[block].insts[i] == old(func.blocks[block].insts[i]))
      && (forall i :: CursorIndex(old(current)) < i < |func.blocks[block].insts| ==>
            func.blocks[block].insts[i] == loc)
      && current == Some(|func.blocks[block].insts| - 1)
      && dil == loc
    }

    /** `PropagateForward(loc)`; an unset cursor first moves to the block's first instruction. */
    method PropagateForward(loc: Option<Loc>)
      requires Valid()
      requires current.None? ==> |func.blocks[block].insts| > 0
      modifies this`current, this`dil, func
      ensures PaintedForward(loc)
    {
      if current.None? {
        current := Some(0);
      }
      dil := loc;
      // `current` is an instruction of the block, so its iterator is never `end()`.
      var start := current.value;
      var n := |func.blocks[block].insts|;
      var it := start + 1;
      while it < n
        invariant start + 1 <= it <= n
        invariant func == old(func) && block == old(block) && dil == loc
        invariant |func.blocks| == |old(func.blocks)|
        invariant forall k :: 0 <= k < |func.blocks| && k != block ==> func.blocks[k] == old(func.blocks[k])
        invariant func.blocks[block].name == old(func.blocks[block].name)
        invariant |func.blocks[block].insts| == n
        invariant forall i :: 0 <= i <= start && i < n ==> func.blocks[block].insts[i] == old(func.blocks[block].insts[i])
        invariant forall i :: start < i < n && i < it ==> func.blocks[block].insts[i] == loc
        invariant forall i :: it <= i < n ==> func.blocks[block].insts[i] == old(func.blocks[block].insts[i])
      {
        func.SetDebugLoc(block, it, loc);
        it := it + 1;
      }
      current := Some(it - 1);
    }
  }
}
