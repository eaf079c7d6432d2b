/**
 * `DbgMetadata`: the address-to-line table, the lazily built per-function
 * debug scopes and location maps, the name-keyed snapshot, the forward-fill
 * cursor, and the passes that fill missing locations.
 */
module Metadata {
  import opened Wrappers
  import opened Ints
  import opened Ir
  import opened Text
  import opened LineTable
  import opened Backfill
  import opened BlockFill
  import opened Snapshot
  import opened Cursor

  /** Only a lifted function whose name does not contain `"_init"` gets a subprogram. */
  predicate Eligible(f: Function)
  {
    f.lifted && !Contains(f.name, "_init")
  }

  /** `m.insert({ ea, loc })`: an entry already at `ea` is kept. */
  function Insert(m: Lines, ea: u64, loc: Loc): Lines
  {
    if ea in m then m else m[ea := loc]
  }

  /**
   * The cache invariant: subprograms and location maps are made together,
   * only for eligible functions; a subprogram carries its function's name, a registered file and an id
   * already handed out; every cached location is the line recorded for its
   * address, column 0, in the function's subprogram.
   */
  ghost predicate Coherent(eaToLine: map<u64, u32>, dirs: map<string, FileNode>, eaToDbg: map<Function, Lines>,
                           funcToDbg: map<Function, Subprogram>, nextNode: nat)
  {
    && funcToDbg.Keys == eaToDbg.Keys
    && (forall f :: f in funcToDbg ==>
          Eligible(f) && funcToDbg[f].name == f.name && Registered(dirs, funcToDbg[f].file) && funcToDbg[f].id < nextNode)
    && (forall f, ea :: f in eaToDbg && ea in eaToDbg[f] ==>
          ea in eaToLine && eaToDbg[f][ea] == Loc(eaToLine[ea], 0, funcToDbg[f]))
  }

  /** Handing out an id keeps the cache coherent. */
  lemma CoherentBump(eaToLine: map<u64, u32>, dirs: map<string, FileNode>, eaToDbg: map<Function, Lines>,
                     funcToDbg: map<Function, Subprogram>, nextNode: nat)
    requires Coherent(eaToLine, dirs, eaToDbg, funcToDbg, nextNode)
    ensures Coherent(eaToLine, dirs, eaToDbg, funcToDbg, nextNode + 1)
  {
  }

  /** Registering a new eligible function with a well-formed subprogram and an empty map keeps the cache coherent. */
  lemma CoherentRegister(eaToLine: map<u64, u32>, dirs: map<string, FileNode>, eaToDbg: map<Function, Lines>,
                         funcToDbg: map<Function, Subprogram>, nextNode: nat, f: Function, p: Subprogram)
    requires Coherent(eaToLine, dirs, eaToDbg, funcToDbg, nextNode)
    requires f !in funcToDbg && Eligible(f) && p.name == f.name && Registered(dirs, p.file) && p.id < nextNode
    ensures Coherent(eaToLine, dirs, eaToDbg[f := map[]], funcToDbg[f := p], nextNode)
  {
    var e, d := eaToDbg[f := map[]], funcToDbg[f := p];
    forall g, ea | g in e && ea in e[g]
      ensures ea in eaToLine && e[g][ea] == Loc(eaToLine[ea], 0, d[g])
    {
      assert g != f;
    }
  }

  /** Caching the recorded line of a known address keeps the cache coherent. */
  lemma CoherentCache(eaToLine: map<u64, u32>, dirs: map<string, FileNode>, eaToDbg: map<Function, Lines>,
                      funcToDbg: map<Function, Subprogram>, nextNode: nat, f: Function, ea: u64)
    requires Coherent(eaToLine, dirs, eaToDbg, funcToDbg, nextNode)
    requires f in funcToDbg && ea in eaToLine
    ensures Coherent(eaToLine, dirs, eaToDbg[f := Insert(eaToDbg[f], ea, Loc(eaToLine[ea], 0, funcToDbg[f]))], funcToDbg, nextNode)
  {
    var e := eaToDbg[f := Insert(eaToDbg[f], ea, Loc(eaToLine[ea], 0, funcToDbg[f]))];
    forall g, a | g in e && a in e[g]
      ensures a in eaToLine && e[g][a] == Loc(eaToLine[a], 0, funcToDbg[g])
    {
      if g == f && a == ea {
      } else if g == f {
        assert e[g][a] == eaToDbg[f][a];
      } else {
        assert e[g] == eaToDbg[g];
      }
    }
  }

  /** Growing the line table without changing a recorded line keeps the cache coherent. */
  lemma CoherentTable(eaToLine: map<u64, u32>, dirs: map<string, FileNode>, eaToDbg: map<Function, Lines>,
                      funcToDbg: map<Function, Subprogram>, nextNode: nat,
                      eaToLine': map<u64, u32>, dirs': map<string, FileNode>)
    requires Coherent(eaToLine, dirs, eaToDbg, funcToDbg, nextNode)
    requires forall ea :: ea in eaToLine ==> ea in eaToLine' && eaToLine'[ea] == eaToLine[ea]
    requires forall n :: n in dirs ==> n in dirs' && dirs'[n] == dirs[n]
    ensures Coherent(eaToLine', dirs', eaToDbg, funcToDbg, nextNode)
  {
  }

  /** Updating a key twice keeps the second value. */
  lemma UpdateTwice<K, V>(m: map<K, V>, k: K, a: V, b: V)
    ensures m[k := a][k := b] == m[k := b]
  {
  }

  class DbgMetadata {
    /** `_ctx` */
    const ctx: Ctx
    /** `_cu` */
    var cu: Option<CompileUnit>
    /** `ea_to_line` */
    var eaToLine: map<u64, u32>
    /** `ea_to_dbg`: per tracked function, the locations made so far, by address. */
    var eaToDbg: map<Function, Lines>
    /** `s_ea_to_dbg`: the snapshot keyed by function name. */
    var sEaToDbg: map<string, Lines>
    /** `_dirs` */
    var dirs: map<string, FileNode>
    /** `_func_to_dbg` */
    var funcToDbg: map<Function, Subprogram>
    /** The `DIBuilder`'s supply of distinct subprogram nodes: the next id it hands out. */
    var nextNode: nat

    function TableState(): Table
      reads this
    {
      Table(eaToLine, dirs, cu)
    }

    /** The line table keeps its invariant and the cache agrees with it. */
    ghost predicate Valid()
      reads this
    {
      LineTable.Valid(TableState()) && Coherent(eaToLine, dirs, eaToDbg, funcToDbg, nextNode)
    }

    /** The location `Fetch(f, ea)` returns in this state. */
    function Resolved(f: Function, ea: u64): Option<Loc>
      reads this
    {
      if f in funcToDbg && ea in eaToLine then Some(Loc(eaToLine[ea], 0, funcToDbg[f])) else None
    }

    /** The location maps once `Fetch(f, ea)` has cached its result. */
    ghost function FetchedMaps(f: Function, ea: u64): map<Function, Lines>
      reads this
      requires Valid()
    {
      match Resolved(f, ea)
      case None => eaToDbg
      case Some(loc) => eaToDbg[f := Insert(eaToDbg[f], ea, loc)]
    }

    /** `DbgMetadata(module)`: everything empty, the cursor on no function. */
    constructor ()
      ensures Valid() && fresh(ctx) && ctx.func == null
      ensures eaToLine == map[] && dirs == map[] && cu.None?
      ensures funcToDbg == map[] && eaToDbg == map[] && sEaToDbg == map[]
    {
      ctx := new Ctx();
      cu := None;
      eaToLine := map[];
      eaToDbg := map[];
      sEaToDbg := map[];
      dirs := map[];
      funcToDbg := map[];
      nextNode := 0;
    }

    /** `Is()`: some address has a line. */
    function Is(): (r: bool)
      reads this
      ensures r <==> exists ea :: ea in eaToLine
    {
      |eaToLine| > 0
    }

    /** `AddDir(filename, dir_name)` */
    method AddDir(filename: string, dir: string)
      requires Valid()
      modifies this`dirs, this`cu
      ensures Valid()
      ensures TableState() == WithDir(old(TableState()), filename, dir)
    {
      ghost var t := TableState();
      var node := FileNode(filename, dir);
      if filename !in dirs {
        dirs := dirs[filename := node];
      }
      if cu.None? {
        cu := Some(CompileUnit(node));
      }
      WithDirValid(t, filename, dir);
      CoherentTable(t.eaToLine, t.dirs, eaToDbg, funcToDbg, nextNode, eaToLine, dirs);
    }

    /** `AddEa(filename, ea, line)`; the file name is not used. */
    method AddEa(filename: string, ea: u64, line: u32)
      requires Valid()
      modifies this`eaToLine
      ensures Valid()
      ensures TableState() == WithEa(old(TableState()), ea, line)
    {
      ghost var t := TableState();
      if ea !in eaToLine {
        eaToLine := eaToLine[ea := line];
      }
      CoherentTable(t.eaToLine, t.dirs, eaToDbg, funcToDbg, nextNode, eaToLine, dirs);
    }

    /**
     * `Parse(filename)` over the file's lines. An empty file name reads
     * nothing. Reading stops at the first line of fewer than three words,
     * whose index is returned; the lines before it have been applied.
     */
    method Parse(filename: string, lines: seq<string>) returns (malformed: Option<nat>)
      requires Valid()
      modifies this`eaToLine, this`dirs, this`cu
      ensures Valid()
      ensures filename == [] ==> malformed.None? && TableState() == old(TableState())
      ensures filename != [] ==> malformed == FirstMalformed(lines)
      ensures filename != [] ==> TableState() == ParseLines(old(TableState()), lines[..ParsedCount(lines)])
    {
      if filename == [] {
        return None;
      }
      var i := 0;
      while i < |lines|
        invariant 0 <= i <= |lines|
        invariant Valid()
        invariant forall k :: 0 <= k < i ==> !Malformed(lines[k])
        invariant TableState() == ParseLines(old(TableState()), lines[..i])
      {
        var words := Split(lines[i]);
        if |words| < 3 {
          return Some(i);
        }
        ParseLinesSnoc(old(TableState()), lines, i);
        ReadLine(lines[i], words);
        i := i + 1;
      }
      assert lines[..i] == lines;
      return None;
    }

    /** One well-formed line of `Parse`, already split into `words`. */
    method ReadLine(line: string, words: seq<string>)
      requires Valid() && words == Tokens(line) && |words| >= 3
      modifies this`eaToLine, this`dirs, this`cu
      ensures Valid()
      ensures TableState() == ParseLine(old(TableState()), line)
    {
      if words[0] == "Directory" {
        AddDir(words[1], words[2]);
      } else {
        AddEa(words[0], StrToUL(words[2], 16), StrToUL(words[1], 10) % U32_LIMIT);
      }
    }

    /**
     * `CreateDummyProgram(func)`: none for an ineligible function. Otherwise
     * a new subprogram in some registered file (`_dirs.begin()` of an
     * unordered map) is made and returned; it and an empty location map are
     * registered only if the function has none yet.
     */
    method CreateDummyProgram(f: Function) returns (r: Option<Subprogram>)
      requires Valid()
      requires Eligible(f) ==> dirs != map[]
      modifies this`funcToDbg, this`eaToDbg, this`nextNode
      ensures Valid()
      ensures !Eligible(f) ==> r.None? && funcToDbg == old(funcToDbg) && eaToDbg == old(eaToDbg) && nextNode == old(nextNode)
      ensures Eligible(f) ==> r.Some? && r.value.id == old(nextNode) && nextNode == old(nextNode) + 1
      ensures Eligible(f) ==> r.value.name == f.name && Registered(dirs, r.value.file)
      ensures Eligible(f) && f in old(funcToDbg) ==>
                funcToDbg == old(funcToDbg) && eaToDbg == old(eaToDbg) && r.value != funcToDbg[f]
      ensures Eligible(f) && f !in old(funcToDbg) ==>
                funcToDbg == old(funcToDbg)[f := r.value] && eaToDbg == old(eaToDbg)[f := map[]]
    {
      if !f.lifted || Contains(f.name, "_init") {
        return None;
      }
      var first :| first in dirs;
      var file := dirs[first];
      var program := Subprogram(nextNode, f.name, file);
      CoherentBump(eaToLine, dirs, eaToDbg, funcToDbg, nextNode);
      nextNode := nextNode + 1;
      if f !in funcToDbg {
        CoherentRegister(eaToLine, dirs, eaToDbg, funcToDbg, nextNode, f, program);
        eaToDbg, funcToDbg := eaToDbg[f := map[]], funcToDbg[f := program];
      }
      return Some(program);
    }

    /**
     * `CreateEaMetadata(func, ea)`: nothing for an address without a line.
     * Otherwise the function gets a subprogram if it has none, and its map
     * gains `ea` at (recorded line, column 0) unless `ea` is already there.
     */
    method CreateEaMetadata(f: Function, ea: u64)
      requires Valid()
      requires ea in eaToLine && f !in funcToDbg ==> Eligible(f) && dirs != map[]
      modifies this`funcToDbg, this`eaToDbg, this`nextNode
      ensures Valid()
      ensures ea !in eaToLine ==> funcToDbg == old(funcToDbg) && eaToDbg == old(eaToDbg) && nextNode == old(nextNode)
      ensures ea in eaToLine && f in old(funcToDbg) ==> funcToDbg == old(funcToDbg) && nextNode == old(nextNode)
      ensures ea in eaToLine ==> f in funcToDbg && f in eaToDbg
      ensures ea in eaToLine && f !in old(funcToDbg) ==>
                funcToDbg == old(funcToDbg)[f := funcToDbg[f]] && funcToDbg[f].id == old(nextNode) && nextNode == old(nextNode) + 1
      ensures ea in eaToLine ==> eaToDbg == old(eaToDbg)[f := Insert(if f in old(eaToDbg) then old(eaToDbg[f]) else map[], ea, Loc(eaToLine[ea], 0, funcToDbg[f]))]
    {
      if ea !in eaToLine {
        return;
      }
      if f !in funcToDbg {
        var _ := CreateDummyProgram(f);
        InsertLine(f, ea);
        UpdateTwice(old(eaToDbg), f, map[], Insert(map[], ea, Loc(eaToLine[ea], 0, funcToDbg[f])));
      } else {
        InsertLine(f, ea);
      }
    }

    /** The end of `CreateEaMetadata`: `ea`'s location joins `f`'s map unless it is there already. */
    method InsertLine(f: Function, ea: u64)
      requires Valid() && f in funcToDbg && ea in eaToLine
      modifies this`eaToDbg
      ensures Valid()
      ensures eaToDbg == old(eaToDbg)[f := Insert(old(eaToDbg[f]), ea, Loc(eaToLine[ea], 0, funcToDbg[f]))]
    {
      var line := eaToLine[ea];
      var node := Loc(line, 0, funcToDbg[f]);
      if ea !in eaToDbg[f] {
        CoherentCache(eaToLine, dirs, eaToDbg, funcToDbg, nextNode, f, ea);
        eaToDbg := eaToDbg[f := Insert(eaToDbg[f], ea, node)];
      } else {
        assert Insert(eaToDbg[f], ea, node) == eaToDbg[f];
        assert eaToDbg[f := eaToDbg[f]] == eaToDbg;
      }
    }

    /**
     * `Fetch(func, ea)`: none for a function without a subprogram or an
     * address without a line; otherwise the location at the recorded line,
     * made and cached on first request. What it returns depends only on the
     * table and the function's subprogram, which it does not change, so
     * asking again gives the same answer.
     */
    method Fetch(f: Function, ea: u64) returns (r: Option<Loc>)
      requires Valid()
      modifies this`funcToDbg, this`eaToDbg, this`nextNode
      ensures Valid()
      ensures r == old(Resolved(f, ea)) && Resolved(f, ea) == r
      ensures !Eligible(f) ==> r.None?
      ensures r.Some? ==> r.value.line == eaToLine[ea] && r.value.column == 0 && r.value.scope == funcToDbg[f]
      ensures funcToDbg == old(funcToDbg) && nextNode == old(nextNode)
      ensures eaToDbg == old(FetchedMaps(f, ea))
      ensures r.Some? ==> ea in eaToDbg[f] && eaToDbg[f][ea] == r.value
    {
      if f !in funcToDbg {
        return None;
      }
      var eaToLoc: Lines := eaToDbg[f];
      if ea !in eaToLoc {
        CreateEaMetadata(f, ea);
      } else {
        assert Insert(eaToLoc, ea, eaToLoc[ea]) == eaToLoc;
        assert eaToDbg[f := eaToLoc] == eaToDbg;
      }
      eaToLoc := eaToDbg[f];
      r := if ea in eaToLoc then Some(eaToLoc[ea]) else None;
    }

    /**
     * `Petrify()`, visiting the tracked functions in `order`. A function
     * whose name no other tracked function has ends up with its map under
     * that name; an entry under a name no tracked function has is kept.
     */
    method Petrify(order: seq<Function>)
      requires Enumerates(order, eaToDbg.Keys)
      modifies this`sEaToDbg
      ensures sEaToDbg == Petrified(old(sEaToDbg), eaToDbg, order)
      ensures forall f :: f in eaToDbg && (forall g :: g in eaToDbg && g.name == f.name ==> g == f) ==>
                f.name in sEaToDbg && sEaToDbg[f.name] == eaToDbg[f]
      ensures forall n :: n in old(sEaToDbg) && (forall f :: f in eaToDbg ==> f.name != n) ==>
                n in sEaToDbg && sEaToDbg[n] == old(sEaToDbg[n])
    {
      var i := 0;
      while i < |order|
        invariant 0 <= i <= |order|
        invariant sEaToDbg == Petrified(old(sEaToDbg), eaToDbg, order[..i])
      {
        assert order[..i + 1][..i] == order[..i];
        sEaToDbg := sEaToDbg[order[i].name := eaToDbg[order[i]]];
        i := i + 1;
      }
      assert order[..i] == order;
      PetrifiedKeeps(old(sEaToDbg), eaToDbg, order);
    }

    /** `SetCtx(func)`: the cursor takes `f` and clears it. */
    method SetCtx(f: Function)
      requires HasEntryInst(f.blocks)
      modifies ctx, f
      ensures ctx.func == f && ctx.Valid() && ctx.dil.None?
      ensures ctx.block == 0 && ctx.current == Some(|f.blocks[0].insts| - 1)
      ensures SameShape(f.blocks, old(f.blocks))
      ensures forall k, i :: 0 <= k < |f.blocks| && 0 <= i < |f.blocks[k].insts| ==> f.blocks[k].insts[i].None?
    {
      ctx.func, ctx.current, ctx.block, ctx.dil := f, None, 0, None;
      ctx.Clear();
    }

    /** `Annotate(func, ea)`: the location `Fetch` gives is painted forward from the cursor. */
    method Annotate(f: Function, ea: u64)
      requires Valid() && ctx.Valid()
      requires ctx.current.None? ==> |ctx.func.blocks[ctx.block].insts| > 0
      modifies this`funcToDbg, this`eaToDbg, this`nextNode, ctx`current, ctx`dil, ctx.func
      ensures Valid()
      ensures funcToDbg == old(funcToDbg) && nextNode == old(nextNode) && eaToDbg == old(FetchedMaps(f, ea))
      ensures ctx.PaintedForward(old(Resolved(f, ea)))
    {
      var dilEa := Fetch(f, ea);
      ctx.PropagateForward(dilEa);
    }

    /**
     * `OneBlockAnnotate(func, bb, ea)`: the instructions of block `b` that
     * have no location get what `Fetch` gives; nothing else changes.
     */
    method OneBlockAnnotate(f: Function, b: nat, ea: u64)
      requires Valid() && b < |f.blocks|
      modifies this`funcToDbg, this`eaToDbg, this`nextNode, f
      ensures Valid()
      ensures funcToDbg == old(funcToDbg) && nextNode == old(nextNode) && eaToDbg == old(FetchedMaps(f, ea))
      ensures |f.blocks| == |old(f.blocks)|
      ensures forall k :: 0 <= k < |f.blocks| && k != b ==> f.blocks[k] == old(f.blocks[k])
      ensures f.blocks[b].name == old(f.blocks[b].name) && |f.blocks[b].insts| == |old(f.blocks[b].insts)|
      ensures forall i :: 0 <= i < |f.blocks[b].insts| ==>
                f.blocks[b].insts[i] == if old(f.blocks[b].insts[i]).Some? then old(f.blocks[b].insts[i]) else old(Resolved(f, ea))
    {
      var dilEa := Fetch(f, ea);
      var i := 0;
      while i < |f.blocks[b].insts|
        invariant |f.blocks| == |old(f.blocks)|
        invariant 0 <= i <= |f.blocks[b].insts|
        invariant Valid() && funcToDbg == old(funcToDbg) && nextNode == old(nextNode) && eaToDbg == old(FetchedMaps(f, ea))
        invariant forall k :: 0 <= k < |f.blocks| && k != b ==> f.blocks[k] == old(f.blocks[k])
        invariant f.blocks[b].name == old(f.blocks[b].name) && |f.blocks[b].insts| == |old(f.blocks[b].insts)|
        invariant forall j :: 0 <= j < i ==>
                    f.blocks[b].insts[j] == if old(f.blocks[b].insts[j]).Some? then old(f.blocks[b].insts[j]) else dilEa
        invariant forall j :: i <= j < |f.blocks[b].insts| ==> f.blocks[b].insts[j] == old(f.blocks[b].insts[j])
      {
        if f.blocks[b].insts[i].None? {
          f.SetDebugLoc(b, i, dilEa);
        }
        i := i + 1;
      }
    }

    /**
     * `FillMissing(m)` over the functions `fns` of the module, reading the snapshot
     * in `order`: a function whose name ends with a snapshot name is
     * backfilled once, with the map of the first such name.
     */
    method FillMissing(fns: seq<Function>, order: seq<string>)
      requires Enumerates(order, sEaToDbg.Keys)
      requires forall i, j :: 0 <= i < j < |fns| ==> fns[i] != fns[j]
      requires forall k :: 0 <= k < |fns| && FirstSuffixMatch(order, fns[k].name).Some? ==>
                 HasEntryInst(fns[k].blocks)
      modifies set f | f in fns
      ensures forall k :: 0 <= k < |fns| ==>
                fns[k].blocks == Refill(sEaToDbg, order, fns[k].name, old(fns[k].blocks))
    {
      var k := 0;
      while k < |fns|
        invariant 0 <= k <= |fns|
        invariant forall j :: 0 <= j < k ==>
                    fns[j].blocks == Refill(sEaToDbg, order, fns[j].name, old(fns[j].blocks))
        invariant forall j :: k <= j < |fns| ==> fns[j].blocks == old(fns[j].blocks)
      {
        FillMissingFunc(fns[k], order);
        k := k + 1;
      }
    }

    /** One function of `FillMissing`: the first snapshot name its name ends with decides its backfill. */
    method FillMissingFunc(f: Function, order: seq<string>)
      requires Enumerates(order, sEaToDbg.Keys)
      requires FirstSuffixMatch(order, f.name).Some? ==> HasEntryInst(f.blocks)
      modifies f
      ensures f.blocks == Refill(sEaToDbg, order, f.name, old(f.blocks))
    {
      var i := 0;
      while i < |order|
        invariant 0 <= i <= |order|
        invariant forall j :: 0 <= j < i ==> !IsSuffix(order[j], f.name)
      {
        if IsSuffix(order[i], f.name) {
          FirstSuffixMatchAt(order, f.name, i);
          Run(f, sEaToDbg[order[i]]);
          return;
        }
        i := i + 1;
      }
    }

    /** `FillFunc(func)`: every block of `f` forward-filled in place. */
    method FillFunc(f: Function)
      modifies f
      ensures |f.blocks| == |old(f.blocks)|
      ensures forall k :: 0 <= k < |f.blocks| ==> f.blocks[k] == Filling(old(f.blocks[k]))
    {
      var b := 0;
      while b < |f.blocks|
        invariant 0 <= b <= |f.blocks| && |f.blocks| == |old(f.blocks)|
        invariant forall k :: 0 <= k < b ==> f.blocks[k] == Filling(old(f.blocks[k]))
        invariant forall k :: b <= k < |f.blocks| ==> f.blocks[k] == old(f.blocks[k])
      {
        FillBlock(f, b);
        b := b + 1;
      }
    }
  }
}
