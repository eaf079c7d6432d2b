/**
 * `Propagate`: the per-block backfill run after transformation passes. The
 * struct's two references (the function and its address-ordered location
 * map) become parameters.
 */
module Backfill {
  import opened Wrappers
  import opened Ints
  import opened Ir
  import opened Text
  import opened OrderedKeys

  /**
   * `Ea(bb)`: the hexadecimal number after the first `'_'` of the block's
   * name; none for an unnamed block or when that number reads as 0.
   */
  function Ea(bb: Block): Option<u64>
  {
    if bb.name == [] then None
    else
      var ea := StrToUL(AfterFirst(bb.name, '_'), 16);
      if ea == 0 then None else Some(ea)
  }

  /** A name without `'_'` gives no address. */
  lemma EaWithoutSeparator(bb: Block)
    requires '_' !in bb.name
    ensures Ea(bb).None?
  {
    AfterFirstAbsent(bb.name, '_');
  }

  /** The lifter's block names `<prefix>_<hex address><rest>` give that address back. */
  lemma EaOfName(prefix: string, n: u64, rest: string, insts: seq<Option<Loc>>)
    requires '_' !in prefix && 0 < n
    requires rest == [] || !IsDigit(rest[0], 16)
    ensures Ea(Block(prefix + "_" + HexString(n) + rest, insts)) == Some(n)
  {
    var name := prefix + "_" + HexString(n) + rest;
    assert name == prefix + ['_'] + (HexString(n) + rest);
    AfterFirstOf(prefix, '_', HexString(n) + rest);
    StrToULHex(n, rest);
  }

  /** `ExactLine(bb)`: the entry stored under the block's own address. */
  function ExactLine(lines: Lines, bb: Block): (r: Option<Loc>)
    ensures r.Some? <==> Ea(bb).Some? && Ea(bb).value in lines
    ensures r.Some? ==> r.value == lines[Ea(bb).value]
  {
    match Ea(bb)
    case None => None
    case Some(ea) => if ea in lines then Some(lines[ea]) else None
  }

  /**
   * `BlockLine(bb)`: `lower_bound(ea)`, stepped back once unless it is
   * `begin()`. So the greatest key below the address when there is one, and
   * otherwise the least key (which is not below it). On an empty map the
   * source dereferences `end()`; here that is `None`.
   */
  function BlockLine(lines: Lines, bb: Block): Option<Loc>
  {
    match Ea(bb)
    case None => None
    case Some(ea) =>
      match GreatestKeyBelow(lines, ea)
      case Some(k) => Some(lines[k])
      case None => if lines == map[] then None else Some(lines[LeastKey(lines)])
  }

  /** `Init(bb)`: the exact entry if there is one, the nearby one otherwise. */
  function Init(lines: Lines, bb: Block): Option<Loc>
  {
    var exact := ExactLine(lines, bb);
    if exact.Some? then exact else BlockLine(lines, bb)
  }

  /** With a key below the block's address, `BlockLine` steps back to the greatest such key. */
  lemma BlockLineStepsBack(lines: Lines, bb: Block, ea: u64, k: u64)
    requires Ea(bb) == Some(ea)
    requires k in lines && k < ea
    requires forall x :: x in lines && x < ea ==> x <= k
    ensures BlockLine(lines, bb) == Some(lines[k])
  {
    var g := GreatestKeyBelow(lines, ea);
    assert g.Some?;
    assert g.value == k;
  }

  /** With no key below the block's address, `BlockLine` takes the least key's entry. */
  lemma BlockLineFirstEntry(lines: Lines, bb: Block, ea: u64, k: u64)
    requires Ea(bb) == Some(ea)
    requires k in lines && forall x :: x in lines ==> ea <= x && k <= x
    ensures BlockLine(lines, bb) == Some(lines[k])
  {
    assert LeastKey(lines) == k;
  }

  /** `BlockLine` has nothing only for a block without an address or for an empty map. */
  lemma BlockLineNone(lines: Lines, bb: Block)
    ensures BlockLine(lines, bb).None? <==> Ea(bb).None? || lines == map[]
  {
    if Ea(bb).Some? && lines == map[] {
      assert GreatestKeyBelow(lines, Ea(bb).value).None?;
    }
  }

  /**
   * What `Init` finds: the entry with the greatest key at or below the block's
   * address, which is the exact entry when there is one.
   */
  lemma InitAtOrBefore(lines: Lines, bb: Block, ea: u64, k: u64)
    requires Ea(bb) == Some(ea)
    requires k in lines && k <= ea
    requires forall x :: x in lines && x <= ea ==> x <= k
    ensures Init(lines, bb) == Some(lines[k])
  {
    if k < ea {
      assert ea !in lines;
      BlockLineStepsBack(lines, bb, ea, k);
    }
  }

  /** A block whose address is below every key gets the entry of the least key. */
  lemma InitBeforeAll(lines: Lines, bb: Block, ea: u64, k: u64)
    requires Ea(bb) == Some(ea)
    requires k in lines && forall x :: x in lines ==> ea < x && k <= x
    ensures Init(lines, bb) == Some(lines[k])
  {
    BlockLineFirstEntry(lines, bb, ea, k);
  }

  /** `Init` has nothing only for a block without an address or for an empty map. */
  lemma InitNone(lines: Lines, bb: Block)
    ensures Init(lines, bb).None? <==> Ea(bb).None? || lines == map[]
  {
    BlockLineNone(lines, bb);
  }

  /**
   * With entries at `0x10` and `0x30`: a block at `0x20` gets the `0x10`
   * entry, a block at `0x30` its exact entry, and a block at `0x05`, before
   * every entry, the `0x10` entry as well.
   */
  lemma InitExample(l1: Loc, l2: Loc, b20: Block, b30: Block, b05: Block)
    requires Ea(b20) == Some(0x20) && Ea(b30) == Some(0x30) && Ea(b05) == Some(0x05)
    ensures var lines: Lines := map[0x10 := l1, 0x30 := l2];
      Init(lines, b20) == Some(l1) && Init(lines, b30) == Some(l2) && Init(lines, b05) == Some(l1)
  {
    var lines: Lines := map[0x10 := l1, 0x30 := l2];
    InitAtOrBefore(lines, b20, 0x20, 0x10);
    InitAtOrBefore(lines, b30, 0x30, 0x30);
    InitBeforeAll(lines, b05, 0x05, 0x10);
  }

  // ---------------------------------------------------------------------
  // Work(bb)
  // ---------------------------------------------------------------------

  /**
   * One instruction of `Work`: given the current best `dil` and the
   * instruction's location, the location the instruction ends with, which
   * is also the next current best.
   */
  function Step(dil: Option<Loc>, loc: Option<Loc>): Option<Loc>
  {
    match loc
    case Some(l) => if dil.Some? && l.line <= dil.value.line then dil else loc
    case None => dil
  }

  /** The locations of a block's instructions after `Work` started from `dil`. */
  function Worked(dil: Option<Loc>, insts: seq<Option<Loc>>): (r: seq<Option<Loc>>)
    ensures |r| == |insts|
    decreases |insts|
  {
    if insts == [] then []
    else
      var next := Step(dil, insts[0]);
      [next] + Worked(next, insts[1..])
  }

  /** The current best just before instruction `i`. */
  function BestBefore(dil: Option<Loc>, out: seq<Option<Loc>>, i: nat): Option<Loc>
    requires i <= |out|
  {
    if i == 0 then dil else out[i - 1]
  }

  /** Instruction `i` ends with the step from the best before it. */
  lemma {:induction false} WorkedAt(dil: Option<Loc>, insts: seq<Option<Loc>>, i: nat)
    requires i < |insts|
    ensures Worked(dil, insts)[i] == Step(BestBefore(dil, Worked(dil, insts), i), insts[i])
    decreases |insts|
  {
    if i > 0 {
      var next := Step(dil, insts[0]);
      WorkedAt(next, insts[1..], i - 1);
    }
  }

  /**
   * The overwrite rule of `Work`: an instruction whose own line is above the
   * current best (or that meets no current best) keeps its location; every
   * other instruction, located or not, gets the current best.
   */
  lemma WorkedKeepsOrOverwrites(dil: Option<Loc>, insts: seq<Option<Loc>>, i: nat)
    requires i < |insts|
    ensures var best := BestBefore(dil, Worked(dil, insts), i);
      && ((insts[i].Some? && (best.None? || insts[i].value.line > best.value.line))
          ==> Worked(dil, insts)[i] == insts[i])
      && ((insts[i].None? || (best.Some? && insts[i].value.line <= best.value.line))
          ==> Worked(dil, insts)[i] == best)
  {
    WorkedAt(dil, insts, i);
  }

  /** Lines only go up: from the starting best on, each located instruction is at or above the previous. */
  lemma {:induction false} WorkedMonotone(dil: Option<Loc>, insts: seq<Option<Loc>>, i: nat, j: nat)
    requires i <= j < |insts|
    ensures var out := Worked(dil, insts);
      && (out[i].Some? ==> out[j].Some? && out[i].value.line <= out[j].value.line)
      && (dil.Some? ==> out[i].Some? && dil.value.line <= out[i].value.line)
      && (insts[i].Some? ==> out[i].Some?)
    decreases |insts|
  {
    var next := Step(dil, insts[0]);
    if i == 0 {
      if j > 0 {
        WorkedMonotone(next, insts[1..], 0, j - 1);
      }
    } else {
      WorkedMonotone(next, insts[1..], i - 1, j - 1);
    }
  }

  /** Once any instruction is located, every later one is. */
  lemma WorkedLocatedPersists(dil: Option<Loc>, insts: seq<Option<Loc>>, i: nat, j: nat)
    requires i <= j < |insts|
    requires insts[i].Some?
    ensures Worked(dil, insts)[j].Some?
  {
    WorkedMonotone(dil, insts, i, i);
    WorkedMonotone(dil, insts, i, j);
  }

  /**
   * With the current best at line 4 and instructions at lines 5, 3 and 8,
   * the line-3 instruction gets the line-5 location: by then 5 is the best.
   */
  lemma WorkedExample(s: Subprogram)
    ensures var l4, l5, l3, l8 := Loc(4, 0, s), Loc(5, 0, s), Loc(3, 0, s), Loc(8, 0, s);
      Worked(Some(l4), [Some(l5), Some(l3), Some(l8)]) == [Some(l5), Some(l5), Some(l8)]
  {
    var l4, l5, l3, l8 := Loc(4, 0, s), Loc(5, 0, s), Loc(3, 0, s), Loc(8, 0, s);
    var insts := [Some(l5), Some(l3), Some(l8)];
    assert insts[1..] == [Some(l3), Some(l8)];
    assert insts[1..][1..] == [Some(l8)];
    assert Worked(Some(l5), [Some(l8)]) == [Some(l8)];
    assert Worked(Some(l5), [Some(l3), Some(l8)]) == [Some(l5), Some(l8)];
  }

  /** A block after `Work`. */
  function WorkBlock(lines: Lines, bb: Block): Block
  {
    Block(bb.name, Worked(Init(lines, bb), bb.insts))
  }

  /** `Run()`: nothing when the first instruction of the entry block has no location, else `Work` on every block. */
  function RunBlocks(lines: Lines, blocks: seq<Block>): (r: seq<Block>)
    requires HasEntryInst(blocks)
    ensures SameShape(r, blocks)
  {
    if blocks[0].insts[0].None? then blocks
    else seq(|blocks|, k requires 0 <= k < |blocks| => WorkBlock(lines, blocks[k]))
  }

  /** `Work(bb)` on block `b` of `f`, overwriting locations in place. */
  method Work(f: Function, lines: Lines, b: nat)
    requires b < |f.blocks|
    modifies f
    ensures f.blocks == old(f.blocks)[b := WorkBlock(lines, old(f.blocks[b]))]
  {
    ghost var blocks0 := f.blocks;
    ghost var insts0 := f.blocks[b].insts;
    var name := f.blocks[b].name;
    var dil := Init(lines, f.blocks[b]);
    ghost var target := Worked(dil, insts0);
    ghost var done: seq<Option<Loc>> := [];
    var i := 0;
    assert blocks0[b] == Block(name, done + insts0[i..]);
    while i < |f.blocks[b].insts|
      invariant 0 <= i <= |insts0| && |done| == i
      invariant f.blocks == blocks0[b := Block(name, done + insts0[i..])]
      invariant done + Worked(dil, insts0[i..]) == target
    {
      var loc := f.blocks[b].insts[i];
      ghost var next := Step(dil, loc);
      WorkedStep(done, dil, insts0, i, target);
      assert f.blocks[b] == Block(name, done + insts0[i..]);
      if loc.Some? {
        if dil.Some? && loc.value.line <= dil.value.line {
          f.SetDebugLoc(b, i, dil);
        } else {
          dil := loc;
        }
      } else {
        if dil.Some? {
          f.SetDebugLoc(b, i, dil);
        }
      }
      assert f.blocks == blocks0[b := Block(name, (done + insts0[i..])[i := next])];
      done := done + [next];
      i := i + 1;
    }
    assert insts0[i..] == [];
  }

  /** One iteration of `Work`'s loop: the rewritten prefix grows by the step's result. */
  lemma WorkedStep(done: seq<Option<Loc>>, dil: Option<Loc>, insts: seq<Option<Loc>>, i: nat, target: seq<Option<Loc>>)
    requires i < |insts| && done + Worked(dil, insts[i..]) == target
    ensures var next := Step(dil, insts[i]);
      && (done + [next]) + Worked(next, insts[i + 1..]) == target
      && (done + insts[i..])[|done| := next] == (done + [next]) + insts[i + 1..]
      && (next == insts[i] ==> (done + [next]) + insts[i + 1..] == done + insts[i..])
  {
    assert insts[i..][1..] == insts[i + 1..];
    Splice(done, insts[i..], Step(dil, insts[i]));
  }

  /** `Run()` on `f` with the location map `lines`. */
  method Run(f: Function, lines: Lines)
    requires HasEntryInst(f.blocks)
    modifies f
    ensures f.blocks == RunBlocks(lines, old(f.blocks))
  {
    if f.blocks[0].insts[0].None? {
      return;
    }
    ghost var blocks0 := f.blocks;
    var b := 0;
    while b < |f.blocks|
      invariant 0 <= b <= |blocks0| && |f.blocks| == |blocks0|
      invariant forall k :: 0 <= k < b ==> f.blocks[k] == WorkBlock(lines, blocks0[k])
      invariant forall k :: b <= k < |blocks0| ==> f.blocks[k] == blocks0[k]
    {
      Work(f, lines, b);
      b := b + 1;
    }
  }
}
