# McSema debug-line bookkeeping, modelled in Dafny

This project models `DbgMetadata` from `mcsema/BC/Dbg.{h,cpp}`. That is the part
of the McSema lifter that gives lifted LLVM instructions source-line debug
locations. It covers:

- **Address-to-line table.** `Parse` reads a line-oriented file. `Directory <file> <dir>`
  lines register files. The first such line also makes the single compile
  unit. Every other line `<file> <decimal line> <hex address>` records the line
  for the address, and for a repeated address the first record wins.
- **Lazy per-function cache.** `CreateDummyProgram` gives a lifted function a
  subprogram, unless its name contains `_init`. `CreateEaMetadata` and `Fetch`
  make and cache one location per (function, address) at (recorded line,
  column 0). `Petrify` copies the per-function location maps into a table keyed
  by function name, so they survive passes that delete and recreate functions.
- **Forward-fill cursor** (`Ctx`). `SetCtx` and `Clear` wipe a function's
  locations and put the cursor on the entry block's last instruction.
  `SetBlock` unsets the cursor. `PropagateForward` paints one location on every
  instruction after the cursor, up to the end of the block. `Annotate` feeds it
  the location `Fetch` returns.
- **Backfill** (`Propagate`). A block's address is the hexadecimal number after
  the first `_` of its name. `Init` takes the exact entry for that address, or
  else the nearby one (`BlockLine`). `Work` walks the block, overwriting every
  location whose line does not go above the running best. `Run` applies `Work`
  to every block, provided the entry instruction has a location. `FillMissing`
  runs it on each module function whose name ends with a snapshot name.
  `FillFunc` forward-fills each block; `OneBlockAnnotate` fills only the unlocated
  instructions of one block.

## How the model is built

- **Functions and instructions.** An `llvm::Function` is a class `Ir.Function`
  with a name, a `lifted` flag and the blocks it updates in place. A block is a
  value: its name and one `Option<Loc>` per instruction. Setting a location is
  `Function.SetDebugLoc`. Block and instruction pointers become indices.
- **Debug nodes.** Files, the compile unit, subprograms and locations are
  values. The `DIBuilder` is modelled by one counter, `nextNode`. Each
  subprogram gets a fresh id from it, because `createFunction` makes a
  distinct node every time.
- **State.** The `DbgMetadata` fields are fields of the class
  `Metadata.DbgMetadata`. Maps keyed by `llvm::Function *` are maps keyed by
  the `Function` object.
- **Invariant.** `DbgMetadata.Valid` holds the line-table invariant and the
  cache invariant `Metadata.Coherent`:
  - only eligible functions (`Metadata.Eligible`) have a subprogram, so an
    ineligible function gets none from every query;
  - every subprogram carries its function's name and a registered file;
  - every cached location is the recorded line of its address, at column 0,
    in the function's subprogram.
- **Reference definitions.** The following loops are proved against a
  function over values:
  - `Split` against `Text.Tokens`;
  - `Parse` against `LineTable.ParseLines`;
  - `Work` against `Backfill.Worked`;
  - `Run` against `Backfill.RunBlocks`;
  - `FillFunc` against `BlockFill.Filling`;
  - `Petrify` against `Snapshot.Petrified`;
  - `FillMissing` and `FillMissingFunc` against `Snapshot.Refill`.

  The properties the source promises are lemmas about those functions. The
  remaining loops (`Cursor.ClearBlock`, `Ctx.Clear`, `Ctx.PropagateForward`,
  `OneBlockAnnotate`, `GetFirstDil`) are proved against quantified
  postconditions that say, instruction by instruction, what each one ends
  with; `Annotate` states its effect through the two-state predicate
  `Ctx.PaintedForward`.
- **Iteration order.** `ea_to_dbg` and `s_ea_to_dbg` are `unordered_map`s, so
  the order `Petrify` and `FillMissing` visit them in is given as a parameter.
  That parameter may be any listing of the keys (`Snapshot.Enumerates`), and
  the lemmas hold for every such order.
- **Integer widths.** Addresses are `u64`. AddEa's line parameter is
  `uint32_t`, so the parsed decimal line is reduced modulo 2^32. `strtoul`
  saturates at 2^64 - 1.

### Behaviour of the code that a reader might not expect

The model follows the code in each of these cases.

- **Repeated `CreateDummyProgram`.** One might expect a second call on the
  same function to return the subprogram it already has. The code builds a
  new subprogram on every call, and the two `insert`s (`Dbg.cpp:114-115`) do
  not store it when the function is already there. So a second call returns
  a fresh node, different from the stored one, and the stored node and map
  are kept.
- **Current best in `Work`.** With the current best at line 4 and
  instructions at lines `[5, 3, 8]`, one might expect the line-3 instruction
  to get line 4. The code (`Dbg.h:201-206`) first adopts line 5 as the
  current best, since 5 is above 4, so the line-3 instruction gets line 5
  (`Backfill.WorkedExample`).
- **Block before every entry.** One might expect a block whose address is
  below every key to have no nearby line. The code steps back from
  `lower_bound` only when it is not `begin()` (`Dbg.h:165-169`), so such a
  block gets the first entry (`Backfill.InitBeforeAll`,
  `Backfill.InitExample`).
- **Which file a subprogram uses.** One might expect subprograms to use the
  first file registered. The code takes `_dirs.begin()` (`Dbg.cpp:101`),
  and `_dirs` is an `unordered_map`, so that is some registered file. The
  model picks an arbitrary registered one.
- **Malformed lines.** A line of fewer than three words makes the code index
  past the end of `words` (`Dbg.cpp:128-136`), which is undefined. The model
  stops at the first such line and returns its index. The lines before it
  have been applied.

## Model

| member | source | states |
|---|---|---|
| Text.Tokens | mcsema/BC/Dbg.cpp:35-42 | The words `split` produces: the line cut at every space, an empty word between two adjacent spaces, and no word after a final space. Characterised by `Text.TokensRoundTrip` and `Text.TokensJoin`. |
| Text.Split | mcsema/BC/Dbg.cpp:35-42 | The loop that pushes `getline(ss, token, ' ')` tokens returns exactly `Tokens(s)`. |
| Text.TokensRoundTrip | mcsema/BC/Dbg.cpp:35-42 | No token holds a space. Only the empty line has no tokens. Joining the tokens with single spaces gives the line without one trailing space, so it gives the line itself when the line is empty or does not end in a space. |
| Text.TokensJoin | mcsema/BC/Dbg.cpp:35-42 | Reverse round trip: non-empty words without spaces, joined with single spaces, split back into the same words. |
| Text.StrToUL | mcsema/BC/Dbg.cpp:135-136 | `strtoul(s, nullptr, base)`: the value of the longest prefix of digits of the base, 0 when there is none, saturating at 2^64 - 1. Characterised by `Text.StrToULHex` and `Text.StrToULExample`. |
| Text.StrToULHex | mcsema/BC/Dbg.h:154 | `strtoul(_, _, 16)` reads a number's own lower-case hex digits back as that number, whatever non-digit text follows. |
| Text.StrToULExample | mcsema/BC/Dbg.cpp:133-136 | The fields `10` (decimal) and `1a` (hex) read as 10 and 0x1a. |
| Text.AfterFirst | mcsema/BC/Dbg.h:153 | `name.split('_').second`: the text after the first `_`, empty without one. Characterised by `Text.AfterFirstOf` and `Text.AfterFirstAbsent`. |
| Text.IsSuffix | mcsema/BC/Dbg.cpp:154 | `StringRef::endswith(s)`: the last characters of the name are exactly `s`. |
| Text.Contains | mcsema/BC/Dbg.cpp:93 | `StringRef::contains(sub)`: `sub` occurs at some position of the name. |
| Text.AfterFirstOf | mcsema/BC/Dbg.h:153 | `split('_').second` is everything after the first `_`. |
| Text.AfterFirstAbsent | mcsema/BC/Dbg.h:153 | Without `_` the suffix is empty. |
| LineTable.WithDir | mcsema/BC/Dbg.cpp:47-57 | AddDir adds the file name to `_dirs` and keeps the first node stored under a name. It makes the compile unit from this node only when there is none, and never replaces it. The address table is untouched. |
| LineTable.WithEa | mcsema/BC/Dbg.cpp:59-61 | AddEa adds the address and keeps the line recorded first. Files and compile unit are untouched. |
| LineTable.WithDirValid | mcsema/BC/Dbg.cpp:47-57 | Registering a file keeps the table invariant: each file is registered under its own name, and there is a compile unit exactly when some file is registered, scoped to a registered file. |
| LineTable.ParseLine | mcsema/BC/Dbg.cpp:127-136 | One line: `Directory <file> <dir>` is `AddDir(file, dir)`; any other line is `AddEa` with the hexadecimal third word and the decimal second word cut to 32 bits. Characterised by `LineTable.DirectoryLine` and `LineTable.AddressLine`. |
| LineTable.ParseLines | mcsema/BC/Dbg.cpp:125-137 | The table after reading the lines in file order. Characterised by `LineTable.ParseLinesExtends` and `LineTable.ParseExample`. |
| LineTable.FirstMalformed | mcsema/BC/Dbg.cpp:125-136 | The index returned is the first line with fewer than three words (where the source would index past `words`). None means every line is well-formed. |
| LineTable.ParseLinesExtends | mcsema/BC/Dbg.cpp:119-138 | Parsing only adds. Each recorded address keeps its line, each file keeps its node, the compile unit is never replaced, and the table invariant is kept. |
| LineTable.DirectoryLine | mcsema/BC/Dbg.cpp:126-131 | A `Directory <file> <dir>` line does exactly `AddDir(file, dir)`. |
| LineTable.AddressLine | mcsema/BC/Dbg.cpp:132-136 | Any other line `<file> <line> <address>` does exactly `AddEa` with the hex address and the decimal line cut to 32 bits. |
| LineTable.ParseExample | mcsema/BC/Dbg.cpp:119-138 | Lines `Directory f1 d1`, `<file> <line> <address>`, `Directory f2 d2` are all well-formed. They give one address record, both files, and the compile unit of `f1` only. |
| OrderedKeys.LeastKey | mcsema/BC/Dbg.h:165-169 | `begin()` of a non-empty map is its least key. |
| OrderedKeys.GreatestKeyBelow | mcsema/BC/Dbg.h:165-167 | `prev(lower_bound(ea))` is the greatest key below `ea`. It is none exactly when no key is below `ea`. |
| Backfill.Ea | mcsema/BC/Dbg.h:149-158 | An unnamed block has no address; otherwise the address is `strtoul` base 16 of the text after the first `_`, and a value of 0 means no address. Characterised by `Backfill.EaWithoutSeparator` and `Backfill.EaOfName`. |
| Backfill.EaWithoutSeparator | mcsema/BC/Dbg.h:149-158 | A block name without `_` gives no address (the suffix reads as 0). |
| Backfill.EaOfName | mcsema/BC/Dbg.h:149-158 | A name `<prefix>_<hex n><non-digit rest>` with `n > 0` gives address `n`. |
| Backfill.ExactLine | mcsema/BC/Dbg.h:172-180 | The result is present exactly when the block has an address that is a key, and then it is that key's entry. |
| Backfill.BlockLine | mcsema/BC/Dbg.h:160-170 | No address gives none. Otherwise the entry of the greatest key below the address, or the least key's entry when no key is below it. The empty map gives none. Characterised by the three `BlockLine` lemmas below. |
| Backfill.BlockLineStepsBack | mcsema/BC/Dbg.h:160-170 | When some key is below the block's address, BlockLine gives the entry of the greatest key below it. |
| Backfill.BlockLineFirstEntry | mcsema/BC/Dbg.h:160-170 | When no key is below the address, BlockLine gives the entry of the least key. |
| Backfill.BlockLineNone | mcsema/BC/Dbg.h:160-170 | BlockLine gives nothing exactly when the block has no address or the map is empty. |
| Backfill.Init | mcsema/BC/Dbg.h:182-187 | The exact entry for the block's address when there is one, else `BlockLine`. Characterised by the four `Init` lemmas below. |
| Backfill.InitAtOrBefore | mcsema/BC/Dbg.h:182-187 | Init gives the entry of the greatest key at or below the block's address. That is the exact entry when there is one. |
| Backfill.InitBeforeAll | mcsema/BC/Dbg.h:182-187 | A block whose address is below every key gets the least key's entry. |
| Backfill.InitNone | mcsema/BC/Dbg.h:182-187 | Init gives nothing exactly when the block has no address or the map is empty. |
| Backfill.InitExample | mcsema/BC/Dbg.h:160-187 | With entries at 0x10 and 0x30, blocks at 0x20, 0x30 and 0x05 get the 0x10, the 0x30 and the 0x10 entry. |
| Backfill.Worked | mcsema/BC/Dbg.h:197-212 | Work keeps the block's length. |
| Backfill.WorkedAt | mcsema/BC/Dbg.h:200-211 | Each instruction ends with one step from the current best left by the instruction before it. |
| Backfill.WorkedKeepsOrOverwrites | mcsema/BC/Dbg.h:201-210 | A located instruction whose line is above the current best (or meets no best) keeps its location. Every other instruction, located or not, gets the current best. |
| Backfill.WorkedMonotone | mcsema/BC/Dbg.h:197-212 | Output lines never go down, and none is below the starting best. A located instruction stays located. |
| Backfill.WorkedLocatedPersists | mcsema/BC/Dbg.h:197-212 | Once an instruction is located, every later one is. |
| Backfill.WorkedExample | mcsema/BC/Dbg.h:197-212 | Best 4 and lines `[5, 3, 8]` give `[5, 5, 8]`. |
| Backfill.RunBlocks | mcsema/BC/Dbg.h:189-195 | Run keeps every block's name and instruction count. |
| Backfill.Work | mcsema/BC/Dbg.h:197-212 | The in-place loop leaves block `b` as `Worked(Init(bb), insts)` and every other block as it was. |
| Backfill.Run | mcsema/BC/Dbg.h:189-195 | The function is unchanged when its first instruction has no location. Otherwise every block is worked independently with the same map. |
| BlockFill.Filled | mcsema/BC/Dbg.cpp:173-181 | The fill loop keeps the block's length. |
| BlockFill.FilledAt | mcsema/BC/Dbg.cpp:175-181 | A located instruction keeps its location and becomes the running `dil`. An unlocated one gets the running `dil`. |
| BlockFill.FilledNearestEarlier | mcsema/BC/Dbg.cpp:171-183 | Every instruction ends with the nearest location at or before it in its block. |
| BlockFill.LastLocNone | mcsema/BC/Dbg.cpp:171-183 | With no located instruction up to it, there is no nearest location. |
| BlockFill.FilledKeepsLocated | mcsema/BC/Dbg.cpp:171-183 | An already-located instruction is never changed. |
| BlockFill.FilledIdempotent | mcsema/BC/Dbg.cpp:171-183 | Filling the filled instructions again changes nothing. |
| BlockFill.FillingIdempotent | mcsema/BC/Dbg.cpp:171-183 | Running FillFunc's block pass twice equals running it once. |
| BlockFill.FillBlock | mcsema/BC/Dbg.cpp:173-181 | The in-place loop leaves block `b` as `Filling(bb)` and every other block as it was. |
| BlockFill.GetFirstDil | mcsema/BC/Dbg.cpp:162-169 | The result is none exactly when no instruction is located. Otherwise it is the location of the first located instruction. |
| Snapshot.Petrified | mcsema/BC/Dbg.h:69-73 | The snapshot's names are the old ones plus the names of the tracked functions. |
| Snapshot.PetrifiedUntouched | mcsema/BC/Dbg.h:69-73 | An entry under a name no visited function has is left as it was. |
| Snapshot.PetrifiedLastWins | mcsema/BC/Dbg.h:69-73 | Under a shared name, the map of the function visited last wins. |
| Snapshot.PetrifiedByName | mcsema/BC/Dbg.h:69-73 | When tracked names are distinct, every tracked function's map is stored under its name. |
| Snapshot.PetrifiedUniqueName | mcsema/BC/Dbg.h:69-73 | A tracked function whose name no other one has gets its map under that name, in any iteration order. |
| Snapshot.PetrifiedKeeps | mcsema/BC/Dbg.h:69-73 | Both Petrify promises together, for every iteration order. |
| Snapshot.FirstSuffixMatch | mcsema/BC/Dbg.cpp:153-158 | The name found is one the function's name ends with, and no earlier snapshot name is. None means the function's name ends with no snapshot name. |
| Snapshot.FirstSuffixMatchAt | mcsema/BC/Dbg.cpp:153-158 | The scan that stops at the first suffix finds what FirstSuffixMatch names. |
| Snapshot.Refill | mcsema/BC/Dbg.cpp:151-160 | A function's backfill keeps every block's name and instruction count. |
| Snapshot.PetrifyRoundTrip | mcsema/BC/Dbg.cpp:151-160 | Petrify by name, recreate a function under the same name, then FillMissing: the result equals running the backfill with the original function's map. This needs distinct tracked names and no other snapshot name that is a suffix. |
| Cursor.ClearBlock | mcsema/BC/Dbg.h:88-89 | Every location of one block is removed, and nothing else changes. |
| Cursor.Ctx.constructor | mcsema/BC/Dbg.h:121 | `Ctx _ctx = { nullptr }`: no function, no cursor, no location. |
| Cursor.Ctx.Clear | mcsema/BC/Dbg.h:86-93 | No instruction of the function keeps a location, and the shape is kept. The cursor is on the last instruction of the entry block. |
| Cursor.Ctx.SetBlock | mcsema/BC/Dbg.h:113-116 | Switches the active block and unsets the cursor. |
| Cursor.Ctx.PropagateForward | mcsema/BC/Dbg.h:95-111 | Every instruction strictly after the cursor gets `loc`. The cursor's own instruction, the ones before it and other blocks are untouched. An unset cursor starts at the first instruction, which is therefore not painted. The cursor ends on the last instruction, and `dil` is `loc`. |
| Metadata.Eligible | mcsema/BC/Dbg.cpp:92-93 | A function gets a subprogram only when it is lifted and its name does not contain `_init`. |
| Ir.Function.SetDebugLoc | mcsema/BC/Dbg.cpp:145-146 | `inst.setDebugLoc(loc)`: only the one instruction's location changes; every block name and every other instruction is kept. |
| Metadata.CoherentRegister | mcsema/BC/Dbg.cpp:114-115 | Registering a subprogram and an empty map together, for an eligible function, keeps the cache invariant. |
| Metadata.CoherentCache | mcsema/BC/Dbg.cpp:73-74 | Caching the recorded line of a known address, at column 0 in the function's subprogram, keeps the cache invariant. |
| Metadata.DbgMetadata.constructor | mcsema/BC/Dbg.h:119-137 | Everything is empty and the cursor has no function. |
| Metadata.DbgMetadata.Is | mcsema/BC/Dbg.h:63-65 | True exactly when some address has a line. |
| Metadata.DbgMetadata.AddDir | mcsema/BC/Dbg.cpp:47-57 | The table becomes `WithDir` of the old one, and the invariants are kept. |
| Metadata.DbgMetadata.AddEa | mcsema/BC/Dbg.cpp:59-61 | The table becomes `WithEa` of the old one, and the invariants are kept. |
| Metadata.DbgMetadata.Parse | mcsema/BC/Dbg.cpp:119-138 | An empty file name changes nothing. Otherwise the index returned is the first malformed line, and the table is `ParseLines` of the lines before it. |
| Metadata.DbgMetadata.ReadLine | mcsema/BC/Dbg.cpp:124-136 | One well-formed line updates the table as `ParseLine` says. |
| Metadata.DbgMetadata.CreateDummyProgram | mcsema/BC/Dbg.cpp:91-117 | An ineligible function returns none and changes nothing. Otherwise the call returns a new subprogram named after the function, in a registered file. It is stored with an empty map only if the function had none; on a repeat call the stored subprogram and map stay, and the returned one is not them. |
| Metadata.DbgMetadata.CreateEaMetadata | mcsema/BC/Dbg.cpp:63-75 | An address without a line changes nothing. Otherwise the function gets a subprogram if it had none (with the next id, every other function keeping its subprogram), and its map gains `ea` at (recorded line, 0). An existing entry is not overwritten. |
| Metadata.Insert | mcsema/BC/Dbg.cpp:74 | `Lines::insert({ ea, node })`: an entry already at `ea` is kept, otherwise `ea` maps to the new location. |
| Metadata.DbgMetadata.InsertLine | mcsema/BC/Dbg.cpp:73-74 | The function's map gains `ea` at its recorded line unless `ea` is there already. |
| Metadata.DbgMetadata.Fetch | mcsema/BC/Dbg.cpp:77-88 | None when the function has no subprogram (always so for an ineligible function) or the address no line. Otherwise the result is the location at the recorded line, column 0, in the function's subprogram, and it is cached. The subprograms and the table do not change, so a repeated call returns the same. |
| Metadata.DbgMetadata.Petrify | mcsema/BC/Dbg.h:69-73 | The snapshot becomes `Petrified` of the old one. Each tracked function with a name of its own has its map under that name. Entries under untracked names are kept. |
| Metadata.DbgMetadata.SetCtx | mcsema/BC/Dbg.h:75-78 | The cursor takes the function and clears it: no locations, and the cursor on the entry block's last instruction. |
| Metadata.DbgMetadata.Annotate | mcsema/BC/Dbg.cpp:186-190 | The location `Fetch` gives is painted forward from the cursor, and it is cached as Fetch says; subprograms and ids are unchanged. |
| Metadata.DbgMetadata.OneBlockAnnotate | mcsema/BC/Dbg.cpp:140-148 | Only the unlocated instructions of the block get the `Fetch` result. Located instructions and all other blocks are unchanged. |
| Metadata.DbgMetadata.FillMissing | mcsema/BC/Dbg.cpp:151-160 | Every module function becomes `Refill` of itself. That is `Run` with the map of the first snapshot name its name ends with, or no change when there is none. |
| Metadata.DbgMetadata.FillMissingFunc | mcsema/BC/Dbg.cpp:153-158 | One function: the scan stops at the first matching name and runs the backfill once with its map. |
| Metadata.DbgMetadata.FillFunc | mcsema/BC/Dbg.cpp:171-183 | Every block becomes `Filling` of itself. |

## Left out

- **`DIBuilder` and `DILocation::get`.** The LLVM calls (`createFile`, `createCompileUnit`, `createFunction`, `getOrCreateTypeArray`, `createSubroutineType`, `DILocation::get`, and `finalize` in the destructor) are foreign code. Their results are values, and a subprogram is told apart by a fresh id. Uniquing of `DILocation`s is modelled as equality of values.
- **`remill::HasOriginType<LiftedFunction>`.** This foreign query is the `lifted` flag of a function.
- **File I/O.** `std::ifstream` and `getline` in `Parse` are left out. `Parse` takes the file's lines as a sequence. An empty file name still reads nothing.
- **`strtoul` edge cases.** Leading whitespace, a sign and the `0x` prefix are not modelled, and `errno` is not set. `strtoul` is modelled as the value of the leading digits: 0 when there are none, saturating at 2^64 - 1 (a 64-bit `unsigned long` is assumed).
- **`static uint64_t counter = 4000`** (`Dbg.cpp:96`). It is never read or changed.
- **`unordered_map` iteration order.** It is a parameter (any listing of the keys), not a fixed order.
- **The copy of the map in `Fetch`** (`Dbg.cpp:81, 85`). It is modelled as reading the map, because the copy is never written.
- **`auto scope = *_dirs.begin()`** (`Dbg.cpp:72`). This value in `CreateEaMetadata` is unused and is not modelled. Its dereference of an empty `_dirs` is excluded by the precondition.
- **LLVM's module, function and instruction objects.** Only names, the `lifted` flag and per-instruction locations are modelled. A module is a sequence of distinct `Function` objects.
- Cursor.Ctx: the cursor `current` is an index into the block where the source keeps an `llvm::Instruction *`. The two agree only while no instruction is inserted into or removed from the block before the cursor, and the model does not follow an instruction that moves.
- Backfill.BlockLine: on an empty map the source dereferences `end()`. The model returns none there instead.
- Metadata.DbgMetadata.CreateDummyProgram: requires some registered file for an eligible function, because the source dereferences `_dirs.begin()` unguarded.
- Metadata.DbgMetadata.CreateEaMetadata: requires that a function without a subprogram is eligible and that a file is registered, when the address has a line. Otherwise the source dereferences `ea_to_dbg.find(func)` at `end()` or an empty `_dirs.begin()`.
- Cursor.Ctx.PropagateForward: requires a non-empty block when the cursor is unset, because the source dereferences `block->begin()`.
- Cursor.Ctx.Clear, Metadata.DbgMetadata.SetCtx, Backfill.Run and Metadata.DbgMetadata.FillMissing: these require an entry block with a first instruction, because the source dereferences `func->begin()->rbegin()` or `func.begin()->begin()`.
