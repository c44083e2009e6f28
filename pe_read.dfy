/** `read_exe_file`: lay the hex text of a file out as a 16-column matrix of two-character
    cells, follow the PE header fields to the section table and the first import descriptor,
    and extract the imported names from the hint/name region. */
module PeRead {
  import opened Options
  import opened PeTools
  import opened PeByname

  // ---------------------------------------------------------------------------------------
  // The matrix
  // ---------------------------------------------------------------------------------------

  /** The two-character cells of the hex text, in order; an odd trailing character is dropped,
      as the splitting loop runs `len / 2` times. */
  function Cells(hex: string): (r: seq<string>)
    ensures |r| == |hex| / 2
    decreases |hex|
  {
    if |hex| < 2 then [] else [hex[..2]] + Cells(hex[2..])
  }

  lemma {:induction false} CellsIndex(hex: string, i: nat)
    requires i < |hex| / 2
    ensures Cells(hex)[i] == hex[2 * i..2 * i + 2]
    decreases i
  {
    if i > 0 {
      CellsIndex(hex[2..], i - 1);
      assert hex[2..][2 * (i - 1)..2 * (i - 1) + 2] == hex[2 * i..2 * i + 2];
    }
  }

  lemma {:induction false} JoinCons(x: string, s: seq<string>)
    ensures Join([x] + s) == x + Join(s)
    decreases |s|
  {
    if s == [] {
      assert [x] + s == [x];
      assert [x][..0] == [];
    } else {
      var init := s[..|s| - 1];
      assert ([x] + s)[..|s|] == [x] + init;
      JoinCons(x, init);
    }
  }

  /** The cells, joined, give back the text less an odd trailing character. */
  lemma {:induction false} CellsJoin(hex: string)
    ensures Join(Cells(hex)) == hex[..|hex| / 2 * 2]
    decreases |hex|
  {
    if |hex| >= 2 {
      JoinCons(hex[..2], Cells(hex[2..]));
      CellsJoin(hex[2..]);
      assert hex[..2] + hex[2..][..|hex[2..]| / 2 * 2] == hex[..|hex| / 2 * 2];
    }
  }

  /** The splitting loop of pe_read.rs lines 87-93. */
  method SplitCells(hex: string) returns (arr: seq<string>)
    ensures arr == Cells(hex)
  {
    arr := [];
    for i := 0 to |hex| / 2
      invariant arr == Cells(hex)[..i]
    {
      CellsIndex(hex, i);
      assert Cells(hex)[..i + 1] == Cells(hex)[..i] + [Cells(hex)[i]];
      arr := arr + [hex[i * 2..(i + 1) * 2]];
    }
    assert Cells(hex)[..|hex| / 2] == Cells(hex);
  }

  /** The 16-column matrix of the cells, the last row padded with empty cells. */
  function Grid(cells: seq<string>): Matrix {
    seq((|cells| + 15) / 16, r => seq(16, c => if 0 <= 16 * r + c < |cells| then cells[16 * r + c] else ""))
  }

  /** The matrix has `ceil(n / 16)` rows of 16 cells; flat index i holds cell i, and the
      indices past the last cell hold "". */
  lemma GridLayout(cells: seq<string>)
    ensures Wide16(Grid(cells))
    ensures |Grid(cells)| == (|cells| + 15) / 16
    ensures forall i :: 0 <= i < 16 * |Grid(cells)| ==>
      FlatCell(Grid(cells), i) == if i < |cells| then cells[i] else ""
  {
    var m := Grid(cells);
    forall i | 0 <= i < 16 * |m|
      ensures FlatCell(m, i) == if i < |cells| then cells[i] else ""
    {
      assert 16 * (i / 16) + i % 16 == i;
    }
  }

  /** The matrix initialisation and filling loop of pe_read.rs lines 95-104. */
  method BuildMatrix(arr: seq<string>) returns (matrix: Matrix)
    ensures matrix == Grid(arr)
  {
    var numCols := 16;
    var numRows := (|arr| + numCols - 1) / numCols;
    matrix := seq(numRows, _ => seq(numCols, _ => ""));
    for i := 0 to |arr|
      invariant |matrix| == numRows
      invariant forall r :: 0 <= r < numRows ==> |matrix[r]| == 16
      invariant forall r, c :: 0 <= r < numRows && 0 <= c < 16 ==>
        matrix[r][c] == if 16 * r + c < i then arr[16 * r + c] else ""
    {
      var col := i % numCols;
      var row := i / numCols;
      matrix := matrix[row := matrix[row][col := arr[i]]];
    }
    forall r | 0 <= r < numRows
      ensures matrix[r] == Grid(arr)[r]
    {
    }
  }

  // ---------------------------------------------------------------------------------------
  // Reading at an address
  // ---------------------------------------------------------------------------------------

  /** Cells in a 32-bit and in a 16-bit little-endian field. */
  const Dword: int := 4
  const Word: int := 2

  /** `read_hex(matrix, width, position1(addr), position2(addr))`. */
  function ReadAt(m: Matrix, width: int, addr: string): Option<string> {
    var row :- Position1(addr);
    var col :- Position2(addr);
    ReadBackward(m, width, row, col)
  }

  method ReadField(m: Matrix, width: int, addr: string) returns (r: Option<string>)
    ensures r == ReadAt(m, width, addr)
  {
    var row := Position1(addr);
    var col := Position2(addr);
    if row.None? || col.None? {
      return None;
    }
    r := ReadHex(m, width, row.value, col.value);
  }

  /** `matrix[position1(addr)][position2(addr)]`. */
  function CellAt(m: Matrix, addr: string): Option<string> {
    var row :- Position1(addr);
    var col :- Position2(addr);
    if row < |m| && col < |m[row]| then Some(m[row][col]) else None
  }

  // ---------------------------------------------------------------------------------------
  // The header fields
  // ---------------------------------------------------------------------------------------

  /** What the locator reads before the section table: `s1`, `s3`, `s5`, `s7`, the cursors `s10`
      and `s12`, and the first section's fields `s11` and `s13`. */
  datatype Header = Header(
    peHead: string,
    countCell: string,
    importRva: string,
    optionalHeadSize: string,
    vaCursor: string,
    rawCursor: string,
    firstVa: string,
    firstRaw: string)

  /** pe_read.rs lines 106-152. */
  function LocateHeader(m: Matrix): Option<Header> {
    var s1 :- ReadBackward(m, 4, 3, 15);
    var s2 :- HexSum(s1, "6");
    var s3 :- CellAt(m, s2);
    var s4 :- HexSum(s1, "83");
    var s5 :- ReadAt(m, Dword, s4);
    var s6 :- HexSum(s1, "15");
    var s7 :- ReadAt(m, Word, s6);
    var s8 :- HexSum(s1, "18");
    var s9 :- HexSum(s7, s8);
    var s10 :- HexSum(s9, "0f");
    var s11 :- ReadAt(m, Dword, s10);
    var s12 :- HexSum(s10, "08");
    var s13 :- ReadAt(m, Dword, s12);
    Some(Header(s1, s3, s5, s7, s10, s12, s11, s13))
  }

  method ReadHeader(matrix: Matrix) returns (h: Option<Header>)
    ensures h == LocateHeader(matrix)
  {
    var s1 := ReadHex(matrix, 4, 3, 15);
    if s1.None? {
      return None;
    }
    var s2 := AddHex(s1.value, "6");
    if s2.None? {
      return None;
    }
    var row, col := Position1(s2.value), Position2(s2.value);
    if row.None? || col.None? || row.value >= |matrix| || col.value >= |matrix[row.value]| {
      return None;
    }
    var s3 := matrix[row.value][col.value];
    var s4 := AddHex(s1.value, "83");
    if s4.None? {
      return None;
    }
    var s5 := ReadField(matrix, Dword, s4.value);
    if s5.None? {
      return None;
    }
    var s6 := AddHex(s1.value, "15");
    if s6.None? {
      return None;
    }
    var s7 := ReadField(matrix, Word, s6.value);
    if s7.None? {
      return None;
    }
    var s8 := AddHex(s1.value, "18");
    if s8.None? {
      return None;
    }
    var s9 := AddHex(s7.value, s8.value);
    if s9.None? {
      return None;
    }
    var s10 := AddHex(s9.value, "0f");
    if s10.None? {
      return None;
    }
    var s11 := ReadField(matrix, Dword, s10.value);
    if s11.None? {
      return None;
    }
    var s12 := AddHex(s10.value, "08");
    if s12.None? {
      return None;
    }
    var s13 := ReadField(matrix, Dword, s12.value);
    if s13.None? {
      return None;
    }
    h := Some(Header(s1.value, s3, s5.value, s7.value, s10.value, s12.value, s11.value, s13.value));
  }

  // ---------------------------------------------------------------------------------------
  // The section table
  // ---------------------------------------------------------------------------------------

  /** `s3.parse::<usize>().unwrap_or(0)`: the cell read as a DECIMAL number, 0 when it is not
      one. */
  function SectionCount(cell: string): nat {
    FromStrRadix(cell, 10, U64).GetOr(0)
  }

  /** One step of the section loop (pe_read.rs lines 160-178): both cursors advance by 0x28 and four
      cells are read at each, giving the next entry [VirtualAddress, PointerToRawData]. */
  datatype Step = Step(va: string, raw: string, row: seq<string>)

  function SectionStep(m: Matrix, va: string, raw: string): Option<Step> {
    var va' :- HexSum(va, "28");
    var n1 :- ReadAt(m, Dword, va');
    var raw' :- HexSum(raw, "28");
    var n2 :- ReadAt(m, Dword, raw');
    Some(Step(va', raw', [n1, n2]))
  }

  /** The `k` entries a loop taking `step` reads after the first; the section loop takes
      `SectionStep`. */
  function MoreSections(step: (Matrix, string, string) -> Option<Step>, m: Matrix, va: string, raw: string, k: nat)
    : Option<seq<seq<string>>>
    decreases k
  {
    if k == 0 then Some([])
    else
      var st :- step(m, va, raw);
      var rest :- MoreSections(step, m, st.va, st.raw, k - 1);
      Some([st.row] + rest)
  }

  /** pe_read.rs lines 155-178: `count` entries [VirtualAddress, PointerToRawData]; a count of 0 makes
      `table_arr[0]` panic. */
  function SectionTable(m: Matrix, h: Header): Option<seq<seq<string>>> {
    var count := SectionCount(h.countCell);
    if count == 0 then None
    else Extend([[h.firstVa, h.firstRaw]], MoreSections(SectionStep, m, h.vaCursor, h.rawCursor, count - 1))
  }

  /** The rows already read followed by the rows still to read, if those can be read. */
  function Extend(rows: seq<seq<string>>, o: Option<seq<seq<string>>>): Option<seq<seq<string>>> {
    match o
    case Some(rest) => Some(rows + rest)
    case None => None
  }

  method ReadSectionTable(matrix: Matrix, h: Header) returns (t: Option<seq<seq<string>>>)
    ensures t == SectionTable(matrix, h)
  {
    var count := SectionCount(h.countCell);
    if count == 0 {
      return None;
    }
    t := ReadMoreSections(SectionStep, matrix, [h.firstVa, h.firstRaw], h.vaCursor, h.rawCursor, count - 1);
  }

  /** The section loop proper: `table_arr` starts with the first entry and `step` fills the
      following `k`. */
  method ReadMoreSections(step: (Matrix, string, string) -> Option<Step>, matrix: Matrix,
                          first: seq<string>, va: string, raw: string, k: nat)
    returns (t: Option<seq<seq<string>>>)
    ensures t == Extend([first], MoreSections(step, matrix, va, raw, k))
  {
    var tableArr := seq(k + 1, _ => ["", ""]);
    tableArr := tableArr[0 := first];
    var s10, s12 := va, raw;
    assert tableArr[..1] == [first];
    for x := 0 to k
      invariant |tableArr| == k + 1
      invariant Extend([first], MoreSections(step, matrix, va, raw, k)) ==
        Extend(tableArr[..x + 1], MoreSections(step, matrix, s10, s12, k - x))
    {
      var st := step(matrix, s10, s12);
      if st.None? {
        assert MoreSections(step, matrix, s10, s12, k - x) == None;
        return None;
      }
      ghost var before := tableArr[..x + 1];
      ExtendShift(before, st.value.row, MoreSections(step, matrix, st.value.va, st.value.raw, k - x - 1));
      s10, s12 := st.value.va, st.value.raw;
      tableArr := tableArr[x + 1 := st.value.row];
      assert tableArr[..x + 2] == before + [st.value.row];
    }
    assert tableArr[..k + 1] + [] == tableArr;
    t := Some(tableArr);
  }

  lemma ExtendShift(rows: seq<seq<string>>, row: seq<string>, o: Option<seq<seq<string>>>)
    ensures Extend(rows, if o.Some? then Some([row] + o.value) else None) == Extend(rows + [row], o)
  {
    if o.Some? {
      assert rows + ([row] + o.value) == rows + [row] + o.value;
    }
  }

  // ---------------------------------------------------------------------------------------
  // Choosing the section and translating RVAs
  // ---------------------------------------------------------------------------------------

  /** The `while hex_compare1(&s5, &table_arr[ii][0]) { ii += 1 }` loop from index `i`: the
      first entry whose first field exceeds `rva`; running off the end panics. */
  function FirstAbove(rva: string, table: seq<seq<string>>, i: nat): (r: Option<nat>)
    ensures r.Some? ==> i <= r.value < |table|
    decreases |table| - i
  {
    if i >= |table| || |table[i]| == 0 then None
    else match HexCompare1(rva, table[i][0])
      case None => None
      case Some(atLeast) => if atLeast then FirstAbove(rva, table, i + 1) else Some(i)
  }

  method FindSection(rva: string, table: seq<seq<string>>) returns (ii: Option<nat>)
    ensures ii == FirstAbove(rva, table, 0)
  {
    var i := 0;
    while true
      invariant i <= |table|
      invariant FirstAbove(rva, table, 0) == FirstAbove(rva, table, i)
      decreases |table| - i
    {
      if i >= |table| || |table[i]| == 0 {
        return None;
      }
      var atLeast := HexCompare1(rva, table[i][0]);
      if atLeast.None? {
        return None;
      }
      if !atLeast.value {
        return Some(i);
      }
      i := i + 1;
    }
  }

  /** `add_hex(&sub_hex(v, &sec[0]), &sec[1])`: an RVA made a file offset through a section
      entry [VirtualAddress, PointerToRawData]. */
  function Translate(v: string, sec: seq<string>): Option<string> {
    if |sec| < 2 then None
    else
      var d :- HexDiff(v, sec[0]);
      HexSum(d, sec[1])
  }

  /** What the import chain yields: the file offset of the import descriptor (`s14`), the
      RVA of its import lookup table (`s16`) and that table's file offset (`s17`), the RVA in
      the table's first entry (`s19`) and the file offset of the hint/name entry it names
      (`s20`). */
  datatype Imports = Imports(
    descriptorOffset: string,
    thunkRva: string,
    thunkOffset: string,
    nameRva: string,
    nameOffset: string)

  /** pe_read.rs lines 182-220: the section is chosen once, for the import directory RVA, and the two
      later RVAs are translated through the same entry. */
  function ResolveImports(m: Matrix, s5: string, table: seq<seq<string>>): Option<Imports> {
    var ii :- FirstAbove(s5, table, 0);
    if ii == 0 then None else ImportChain(m, s5, table[ii - 1])
  }

  /** pe_read.rs lines 186-220, once the section entry `sec` is chosen: the import descriptor, its
      import lookup table RVA (`s16`), the first thunk (`s19`) and the hint/name entry. */
  function ImportChain(m: Matrix, s5: string, sec: seq<string>): Option<Imports> {
    var s14 :- Translate(s5, sec);
    var iat :- Hop(m, s14, sec);
    var byname :- Hop(m, iat.1, sec);
    Some(Imports(s14, iat.0, iat.1, byname.0, byname.1))
  }

  /** One link of the chain (pe_read.rs lines 192-204 and 207-219): step 3 cells past a file offset, read
      the dword RVA ending there, and translate that RVA through the same section entry. */
  function Hop(m: Matrix, offset: string, sec: seq<string>): Option<(string, string)> {
    var at :- HexSum(offset, "03");
    var shifting :- ReadAt(m, Dword, at);
    var translated :- Translate(shifting, sec);
    Some((shifting, translated))
  }

  method TranslateField(v: string, sec: seq<string>) returns (r: Option<string>)
    ensures r == Translate(v, sec)
  {
    if |sec| < 2 {
      return None;
    }
    var d := SubHex(v, sec[0]);
    if d.None? {
      return None;
    }
    r := AddHex(d.value, sec[1]);
  }

  method FollowImports(matrix: Matrix, s5: string, table: seq<seq<string>>) returns (r: Option<Imports>)
    ensures r == ResolveImports(matrix, s5, table)
  {
    var ii := FindSection(s5, table);
    if ii.None? || ii.value == 0 {
      return None;
    }
    r := FollowChain(matrix, s5, table[ii.value - 1]);
  }

  method FollowChain(matrix: Matrix, s5: string, sec: seq<string>) returns (r: Option<Imports>)
    ensures r == ImportChain(matrix, s5, sec)
  {
    var s14 := TranslateField(s5, sec);
    if s14.None? {
      return None;
    }
    var iat := FollowHop(matrix, s14.value, sec);
    if iat.None? {
      return None;
    }
    var byname := FollowHop(matrix, iat.value.1, sec);
    if byname.None? {
      return None;
    }
    r := Some(Imports(s14.value, iat.value.0, iat.value.1, byname.value.0, byname.value.1));
  }

  method FollowHop(matrix: Matrix, offset: string, sec: seq<string>) returns (r: Option<(string, string)>)
    ensures r == Hop(matrix, offset, sec)
  {
    var at := AddHex(offset, "03");
    if at.None? {
      return None;
    }
    var shifting := ReadField(matrix, Dword, at.value);
    if shifting.None? {
      return None;
    }
    var translated := TranslateField(shifting.value, sec);
    if translated.None? {
      return None;
    }
    r := Some((shifting.value, translated.value));
  }

  // ---------------------------------------------------------------------------------------
  // The whole reader
  // ---------------------------------------------------------------------------------------

  /** The study of a file, with the source's field names. Despite their names, `importReal`
      holds the import directory RVA (`s5`), `iatShifting` the file offset of the first import
      descriptor (`s14`), `iatReal` the file offset of its import lookup table (`s17`),
      `bynameShifting` the RVA in that table's first entry (`s19`) and `bynameReal` the file
      offset of the hint/name entry it names (`s20`). */
  datatype PeStudy = PeStudy(
    peHead: string,
    subsectionSize: string,
    optionalHeadSize: string,
    subsectionInformation: seq<seq<string>>,
    importReal: string,
    iatShifting: string,
    iatReal: string,
    bynameShifting: string,
    bynameReal: string,
    bynameInformation: seq<string>,
    peStudy: Matrix,
    fieldName: string,
    fieldSize: string)

  /** What `read_exe_file` returns; `None` where it panics. */
  function Study(hex: string, fileName: string, fileSize: string): Option<PeStudy> {
    StudyOf(Grid(Cells(hex)), fileName, fileSize)
  }

  /** What `read_exe_file` makes of the matrix `m` it has built from the text. */
  function StudyOf(m: Matrix, fileName: string, fileSize: string): Option<PeStudy> {
    var h :- LocateHeader(m);
    var table :- SectionTable(m, h);
    var imp :- ResolveImports(m, h.importRva, table);
    var x :- Position1(imp.nameOffset);
    var tokens :- Tokens(Printable, BynameCells(m, x));
    Some(PeStudy(h.peHead, h.countCell, h.optionalHeadSize, table, h.importRva,
                 imp.descriptorOffset, imp.thunkOffset, imp.nameRva, imp.nameOffset,
                 WithoutSingles(tokens), m, fileName, fileSize))
  }

  method ReadExeFile(hexString: string, fileName: string, fileSize: string) returns (r: Option<PeStudy>)
    ensures r == Study(hexString, fileName, fileSize)
  {
    var arr := SplitCells(hexString);
    var matrix := BuildMatrix(arr);
    var h := ReadHeader(matrix);
    if h.None? {
      return None;
    }
    var tableArr := ReadSectionTable(matrix, h.value);
    if tableArr.None? {
      return None;
    }
    var imp := FollowImports(matrix, h.value.importRva, tableArr.value);
    if imp.None? {
      return None;
    }
    var x := Position1(imp.value.nameOffset);
    if x.None? {
      return None;
    }
    var temporary := CollectByname(matrix, x.value);
    var slots := Tokenise(Printable, temporary);
    if slots.None? {
      return None;
    }
    var tableByname := NonEmpty(slots.value);
    tableByname := DropSingles(tableByname);
    r := Some(PeStudy(h.value.peHead, h.value.countCell, h.value.optionalHeadSize, tableArr.value,
                      h.value.importRva, imp.value.descriptorOffset, imp.value.thunkOffset,
                      imp.value.nameRva, imp.value.nameOffset, tableByname, matrix,
                      fileName, fileSize));
  }

  /** Every cell of the matrix is a two-character slice of the text or the "" padding. */
  lemma GridShort(hex: string)
    ensures ShortCells(Grid(Cells(hex)))
  {
    var cells := Cells(hex);
    forall i | 0 <= i < |cells| ensures |cells[i]| <= 2 {
      CellsIndex(hex, i);
    }
  }

  /** Every import name `read_exe_file` reports is a non-empty run of hex pairs of printable
      bytes (0x21 to 0x7E), and none is a single pair. */
  lemma StudyNames(hex: string, fileName: string, fileSize: string)
    requires Study(hex, fileName, fileSize).Some?
    ensures forall tok :: tok in Study(hex, fileName, fileSize).value.bynameInformation ==>
      tok != "" && |tok| != 2 && PairsOf(Printable, tok)
  {
    var m := Grid(Cells(hex));
    var x := Position1(ResolveImports(m, LocateHeader(m).value.importRva,
                                      SectionTable(m, LocateHeader(m).value).value).value.nameOffset).value;
    GridShort(hex);
    BynameCellsShort(m, x);
    TokensShape(BynameCells(m, x));
    WithoutSinglesMembers(Tokens(Printable, BynameCells(m, x)).value);
  }
}
