/**
 * The address-to-line table and the directory registrations read from the
 * debug-line file (`DbgMetadata::Parse`, `AddDir`, `AddEa`).
 */
module LineTable {
  import opened Wrappers
  import opened Ints
  import opened Ir
  import opened Text

  /** The part of `DbgMetadata` that parsing fills: `ea_to_line`, `_dirs` and `_cu`. */
  datatype Table = Table(eaToLine: map<u64, u32>, dirs: map<string, FileNode>, cu: Option<CompileUnit>)

  /** `node` is the file registered under its own name. */
  predicate Registered(dirs: map<string, FileNode>, node: FileNode)
  {
    node.filename in dirs && dirs[node.filename] == node
  }

  /**
   * Every file is registered under its own name; the compile unit exists
   * exactly once a file is registered, and it is scoped to a registered file.
   */
  ghost predicate Valid(t: Table)
  {
    && (forall n :: n in t.dirs ==> t.dirs[n].filename == n)
    && (t.cu.None? <==> t.dirs == map[])
    && (t.cu.Some? ==> Registered(t.dirs, t.cu.value.file))
  }

  /**
   * `AddDir(filename, dir)`: a file registered earlier under the same name
   * keeps its node, and the compile unit is made only by the first registration.
   */
  function WithDir(t: Table, filename: string, dir: string): (r: Table)
    ensures r.eaToLine == t.eaToLine
    ensures r.dirs.Keys == t.dirs.Keys + {filename}
    ensures forall n :: n in t.dirs ==> r.dirs[n] == t.dirs[n]
    ensures filename !in t.dirs ==> r.dirs[filename] == FileNode(filename, dir)
    ensures t.cu.Some? ==> r.cu == t.cu
    ensures t.cu.None? ==> r.cu == Some(CompileUnit(FileNode(filename, dir)))
  {
    var node := FileNode(filename, dir);
    var dirs := if filename in t.dirs then t.dirs else t.dirs[filename := node];
    var cu := if t.cu.None? then Some(CompileUnit(node)) else t.cu;
    Table(t.eaToLine, dirs, cu)
  }

  /** `AddEa(filename, ea, line)`: the first line recorded for an address stays. */
  function WithEa(t: Table, ea: u64, line: u32): (r: Table)
    ensures r.dirs == t.dirs && r.cu == t.cu
    ensures r.eaToLine.Keys == t.eaToLine.Keys + {ea}
    ensures forall a :: a in t.eaToLine ==> r.eaToLine[a] == t.eaToLine[a]
    ensures ea !in t.eaToLine ==> r.eaToLine[ea] == line
  {
    if ea in t.eaToLine then t else t.(eaToLine := t.eaToLine[ea := line])
  }

  /** A line of fewer than three words: the source indexes past the end of `words`. */
  predicate Malformed(line: string)
  {
    |Tokens(line)| < 3
  }

  /**
   * One line of the file. `Directory <file> <dir>` registers a file; any
   * other line is `<file> <decimal line> <hex address>`. The line number is
   * truncated to the `uint32_t` parameter of `AddEa`.
   */
  function ParseLine(t: Table, line: string): Table
    requires !Malformed(line)
  {
    var words := Tokens(line);
    if words[0] == "Directory" then WithDir(t, words[1], words[2])
    else WithEa(t, StrToUL(words[2], 16), StrToUL(words[1], 10) % U32_LIMIT)
  }

  /** The table after reading `lines` in order. */
  function ParseLines(t: Table, lines: seq<string>): Table
    requires forall k :: 0 <= k < |lines| ==> !Malformed(lines[k])
  {
    if lines == [] then t
    else ParseLine(ParseLines(t, lines[..|lines| - 1]), lines[|lines| - 1])
  }

  /** Reading one more line applies it to the table read so far. */
  lemma ParseLinesSnoc(t: Table, lines: seq<string>, i: nat)
    requires i < |lines| && forall k :: 0 <= k <= i ==> !Malformed(lines[k])
    ensures ParseLines(t, lines[..i + 1]) == ParseLine(ParseLines(t, lines[..i]), lines[i])
  {
    assert lines[..i + 1][..i] == lines[..i];
  }

  /** The index of the first malformed line, if any. */
  function FirstMalformed(lines: seq<string>): (r: Option<nat>)
    ensures r.None? ==> forall k :: 0 <= k < |lines| ==> !Malformed(lines[k])
    ensures r.Some? ==> r.value < |lines| && Malformed(lines[r.value])
    ensures r.Some? ==> forall k :: 0 <= k < r.value ==> !Malformed(lines[k])
  {
    if lines == [] then None
    else if Malformed(lines[0]) then Some(0)
    else match FirstMalformed(lines[1..])
      case None => None
      case Some(i) => Some(i + 1)
  }

  /** How many lines are read before parsing stops. */
  function ParsedCount(lines: seq<string>): (n: nat)
    ensures n <= |lines|
    ensures forall k :: 0 <= k < n ==> !Malformed(lines[k])
  {
    match FirstMalformed(lines)
    case None => |lines|
    case Some(i) => i
  }

  /** Registering a file keeps the compile-unit invariant. */
  lemma WithDirValid(t: Table, filename: string, dir: string)
    requires Valid(t)
    ensures Valid(WithDir(t, filename, dir))
  {
  }

  /** Reading one line keeps the compile-unit invariant. */
  lemma ParseLineValid(t: Table, line: string)
    requires Valid(t) && !Malformed(line)
    ensures Valid(ParseLine(t, line))
  {
    var words := Tokens(line);
    if words[0] == "Directory" {
      WithDirValid(t, words[1], words[2]);
    }
  }

  /**
   * Parsing only adds: an address keeps the first line recorded for it, a
   * file name keeps its first node, the compile unit is never replaced, and
   * the compile-unit invariant holds throughout.
   */
  lemma {:induction false} ParseLinesExtends(t: Table, lines: seq<string>)
    requires forall k :: 0 <= k < |lines| ==> !Malformed(lines[k])
    ensures var r := ParseLines(t, lines);
      && (forall a :: a in t.eaToLine ==> a in r.eaToLine && r.eaToLine[a] == t.eaToLine[a])
      && (forall n :: n in t.dirs ==> n in r.dirs && r.dirs[n] == t.dirs[n])
      && (t.cu.Some? ==> r.cu == t.cu)
      && (Valid(t) ==> Valid(r))
  {
    if lines != [] {
      var init := lines[..|lines| - 1];
      ParseLinesExtends(t, init);
      var mid := ParseLines(t, init);
      if Valid(t) {
        ParseLineValid(mid, lines[|lines| - 1]);
      }
    }
  }

  /** A word of a line: non-empty and without spaces. */
  predicate Word(w: string)
  {
    w != [] && ' ' !in w
  }

  /** The line `Directory <file> <dir>` registers `<file>` in `<dir>`. */
  lemma DirectoryLine(t: Table, file: string, dir: string)
    requires Word(file) && Word(dir)
    ensures !Malformed(Join(["Directory", file, dir]))
    ensures ParseLine(t, Join(["Directory", file, dir])) == WithDir(t, file, dir)
  {
    TokensJoin(["Directory", file, dir]);
  }

  /** Any other line `<file> <line> <address>` records the decimal line for the hexadecimal address. */
  lemma AddressLine(t: Table, file: string, line: string, address: string)
    requires Word(file) && Word(line) && Word(address) && file != "Directory"
    ensures !Malformed(Join([file, line, address]))
    ensures ParseLine(t, Join([file, line, address])) == WithEa(t, StrToUL(address, 16), StrToUL(line, 10) % U32_LIMIT)
  {
    TokensJoin([file, line, address]);
  }

  /**
   * Three lines: a `Directory` line, an address line and a second
   * `Directory` line. The address is recorded, both files are registered, and
   * the compile unit is the one the first `Directory` line made.
   */
  lemma ParseExample(f1: string, d1: string, file: string, line: string, address: string, f2: string, d2: string)
    requires Word(f1) && Word(d1) && Word(f2) && Word(d2) && f1 != f2
    requires Word(file) && Word(line) && Word(address) && file != "Directory"
    ensures var lines := [Join(["Directory", f1, d1]), Join([file, line, address]), Join(["Directory", f2, d2])];
      && FirstMalformed(lines).None?
      && var t := ParseLines(Table(map[], map[], None), lines);
      && t.eaToLine == map[StrToUL(address, 16) := StrToUL(line, 10) % U32_LIMIT]
      && t.dirs == map[f1 := FileNode(f1, d1), f2 := FileNode(f2, d2)]
      && t.cu == Some(CompileUnit(FileNode(f1, d1)))
  {
    var lines := [Join(["Directory", f1, d1]), Join([file, line, address]), Join(["Directory", f2, d2])];
    var t0 := Table(map[], map[], None);
    DirectoryLine(t0, f1, d1);
    var t1 := WithDir(t0, f1, d1);
    AddressLine(t1, file, line, address);
    var t2 := WithEa(t1, StrToUL(address, 16), StrToUL(line, 10) % U32_LIMIT);
    DirectoryLine(t2, f2, d2);
    assert lines[..1][..0] == [] && lines[..2][..1] == lines[..1] && lines[..3][..2] == lines[..2] && lines[..3] == lines;
    assert ParseLines(t0, lines[..1]) == t1;
    assert ParseLines(t0, lines[..2]) == t2;
  }
}
