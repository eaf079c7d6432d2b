/**
 * The parts of the lifted LLVM module that the debug-line bookkeeping looks at:
 * opaque debug nodes, basic blocks whose instructions each carry an optional
 * debug location, and functions whose blocks are updated in place.
 */
module Ir {
  import opened Wrappers
  import opened Ints

  /** A `DIFile`: LLVM uniques these by file name and directory. */
  datatype FileNode = FileNode(filename: string, directory: string)

  /** The one `DICompileUnit` of the module (language C, producer "McSema"). */
  datatype CompileUnit = CompileUnit(file: FileNode)

  /**
   * A `DISubprogram`. `createFunction` makes a distinct node on every call,
   * so each one carries an id that no earlier node has.
   */
  datatype Subprogram = Subprogram(id: nat, name: string, file: FileNode)

  /** A `DILocation`: line, column and the subprogram it is scoped to. */
  datatype Loc = Loc(line: u32, column: nat, scope: Subprogram)

  /** A basic block: its name and, per instruction, the attached location if any. */
  datatype Block = Block(name: string, insts: seq<Option<Loc>>)

  /** `DbgMetadata::Lines`: an address-ordered map from address to location. */
  type Lines = map<u64, Loc>

  /** Two block lists with the same names and the same number of instructions per block. */
  predicate SameShape(a: seq<Block>, b: seq<Block>)
  {
    && |a| == |b|
    && forall k :: 0 <= k < |a| ==> a[k].name == b[k].name && |a[k].insts| == |b[k].insts|
  }

  /** True when the entry block exists and has a first instruction. */
  predicate HasEntryInst(blocks: seq<Block>)
  {
    |blocks| > 0 && |blocks[0].insts| > 0
  }

  /**
   * A scan that has rewritten `done` and is at the head of `rest`: writing
   * `x` there moves one element from `rest` to `done`.
   */
  lemma Splice<T>(done: seq<T>, rest: seq<T>, x: T)
    requires |rest| > 0
    ensures (done + rest)[|done| := x] == (done + [x]) + rest[1..]
    ensures x == rest[0] ==> (done + [x]) + rest[1..] == done + rest
  {
    assert rest == [rest[0]] + rest[1..];
  }

  /** An `llvm::Function`: its identity is the object; only its instructions' locations change. */
  class Function {
    const name: string
    /** `remill::HasOriginType<remill::LiftedFunction>(func)` */
    const lifted: bool
    var blocks: seq<Block>

    constructor (name: string, lifted: bool, blocks: seq<Block>)
      ensures this.name == name && this.lifted == lifted && this.blocks == blocks
    {
      this.name := name;
      this.lifted := lifted;
      this.blocks := blocks;
    }

    /** `inst.setDebugLoc(loc)` on instruction `i` of block `b`. */
    method SetDebugLoc(b: nat, i: nat, loc: Option<Loc>)
      requires b < |blocks| && i < |blocks[b].insts|
      modifies this
      ensures blocks == old(blocks)[b := Block(old(blocks[b].name), old(blocks[b].insts)[i := loc])]
    {
      blocks := blocks[b := Block(blocks[b].name, blocks[b].insts[i := loc])];
    }
  }
}
