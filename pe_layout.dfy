/** What `read_exe_file` reads, stated over the bytes of the file: the matrix built from the
    hex text of the bytes holds byte i at flat index i, `read_hex` ending at flat index t reads
    the little-endian field ending at byte t, and so the header chain, the section table and
    the import chain pick out the fields the PE/COFF layout puts at those offsets. */
module PeLayout {
  import opened Options
  import opened PeTools
  import opened PeRead
  import opened PeFields

  /** The matrix `read_exe_file` builds from `hex::encode(bytes)`. */
  function Image(bytes: seq<Byte>): Matrix {
    Grid(Cells(HexEncode(bytes)))
  }

  // ---------------------------------------------------------------------------------------
  // The matrix of an encoded file
  // ---------------------------------------------------------------------------------------

  lemma {:induction false} HexEncodeIndex(bytes: seq<Byte>, i: nat)
    requires i < |bytes|
    ensures |HexEncode(bytes)| == 2 * |bytes|
    ensures HexEncode(bytes)[2 * i..2 * i + 2] == LowerHex2(bytes[i])
    decreases |bytes|
  {
    var init := bytes[..|bytes| - 1];
    var s := HexEncode(bytes);
    assert s == HexEncode(init) + LowerHex2(bytes[|bytes| - 1]);
    if i < |init| {
      HexEncodeIndex(init, i);
      assert s[2 * i..2 * i + 2] == HexEncode(init)[2 * i..2 * i + 2];
    } else {
      HexEncodeLength(init);
      assert s[2 * i..2 * i + 2] == LowerHex2(bytes[|bytes| - 1]);
    }
  }

  /** The matrix of `bytes` has ceil(n / 16) rows of 16 cells, and flat index i holds byte i
      as two lower-case hex digits. */
  lemma ImageCell(bytes: seq<Byte>, i: nat)
    ensures Wide16(Image(bytes)) && |Image(bytes)| == (|bytes| + 15) / 16
    ensures i < |bytes| ==> FlatCell(Image(bytes), i) == LowerHex2(bytes[i])
  {
    var hex := HexEncode(bytes);
    HexEncodeRoundTrip(bytes);
    assert |hex| / 2 == |bytes|;
    GridLayout(Cells(hex));
    if i < |bytes| {
      CellsIndex(hex, i);
      HexEncodeIndex(bytes, i);
    }
  }

  lemma ImageHolds(bytes: seq<Byte>)
    ensures Holds(Image(bytes), bytes, |bytes|)
  {
    ImageCell(bytes, 0);
    forall i | 0 <= i < |bytes|
      ensures FlatCell(Image(bytes), i) == LowerHex2(bytes[i])
    {
      ImageCell(bytes, i);
    }
  }

  /** `read_hex` at the address `Hex08(top)` of a 16-column matrix reads the `width` cells
      ending at flat index `top`, and is refused when that read would reach flat index 0. */
  lemma ReadAtAddress(m: Matrix, width: nat, top: nat)
    requires Wide16(m) && top < 16 * |m| && top < U32 && 0 < width
    ensures ReadAt(m, width, Hex08(top)) == if width <= top then Some(Backward(m, top, width)) else None
  {
    PositionOfHex08(top);
    ReadBackwardFlat(m, width, top / 16, top % 16, top);
  }

  /** A 32-bit (or shorter) field read through `read_hex` at the address `Hex08(top)`: the
      read succeeds and parses to the little-endian value of the `width` bytes ending at
      `top`. Reading down to byte 0 is refused, as `read_hex` steps before it. */
  lemma FieldRead(bytes: seq<Byte>, top: nat, width: nat)
    requires 0 < width <= 4 && width <= top < |bytes| < U32
    ensures ReadAt(Image(bytes), width, Hex08(top)).Some?
    ensures ParseU32(ReadAt(Image(bytes), width, Hex08(top)).value) == Some(LE(bytes, top + 1 - width, width))
  {
    ImageHolds(bytes);
    ReadAtAddress(Image(bytes), width, top);
    FieldValue(Image(bytes), bytes, |bytes|, top, width);
  }

  // ---------------------------------------------------------------------------------------
  // The header chain
  // ---------------------------------------------------------------------------------------

  /** `e_lfanew`, the 32-bit offset of the PE signature stored at 0x3c. */
  function PeOffset(bytes: seq<Byte>): nat
    requires 0x40 <= |bytes|
  {
    LE(bytes, 0x3c, 4)
  }

  /** The offset of the section headers: past the signature (4 bytes), the COFF file header
      (20 bytes) and the optional header, whose size is the 16-bit field at offset 0x14 of
      the PE header. */
  function SectionHeaders(bytes: seq<Byte>): nat
    requires 0x40 <= |bytes| && PeOffset(bytes) + 0x16 <= |bytes|
  {
    PeOffset(bytes) + 0x18 + LE(bytes, PeOffset(bytes) + 0x14, 2)
  }

  /** A file whose header fields, as far as the first section header, lie inside it. */
  predicate HeaderFits(bytes: seq<Byte>) {
    0x40 <= |bytes| < U32 && PeOffset(bytes) + 0x84 <= |bytes| &&
    SectionHeaders(bytes) + 0x18 <= |bytes|
  }

  lemma SumAt(a: string, x: nat, b: string, y: nat)
    requires ParseU32(a) == Some(x) && ParseU32(b) == Some(y) && x + y < U32
    ensures HexSum(a, b) == Some(Hex08(x + y))
  {
  }

  /** `matrix[position1(addr)][position2(addr)]` at the address `Hex08(t)` is flat cell t. */
  lemma CellAtAddress(m: Matrix, t: nat)
    requires Wide16(m) && t < 16 * |m| && t < U32
    ensures CellAt(m, Hex08(t)) == Some(FlatCell(m, t))
  {
    PositionOfHex08(t);
  }

  /** A field read at `Hex08(top)` from any matrix holding the file. */
  lemma FieldAt(m: Matrix, bytes: seq<Byte>, top: nat, width: nat)
    requires Holds(m, bytes, |bytes|) && 0 < width <= 4 && width <= top < |bytes| < U32
    ensures ReadAt(m, width, Hex08(top)) == Some(Backward(m, top, width))
    ensures ParseU32(Backward(m, top, width)) == Some(LE(bytes, top + 1 - width, width))
  {
    ReadAtAddress(m, width, top);
    FieldValue(m, bytes, |bytes|, top, width);
  }

  /** The steps of the locator up to `s8`, each named by the value it produces. */
  lemma HeaderStart(m: Matrix, bytes: seq<Byte>)
    requires Holds(m, bytes, |bytes|) && HeaderFits(bytes)
    ensures ReadBackward(m, 4, 3, 15) == Some(Backward(m, 63, 4))
    ensures ParseU32(Backward(m, 63, 4)) == Some(PeOffset(bytes))
    ensures HexSum(Backward(m, 63, 4), "6") == Some(Hex08(PeOffset(bytes) + 6))
    ensures CellAt(m, Hex08(PeOffset(bytes) + 6)) == Some(LowerHex2(bytes[PeOffset(bytes) + 6]))
    ensures HexSum(Backward(m, 63, 4), "83") == Some(Hex08(PeOffset(bytes) + 0x83))
    ensures ReadAt(m, Dword, Hex08(PeOffset(bytes) + 0x83)) == Some(Backward(m, PeOffset(bytes) + 0x83, 4))
    ensures ParseU32(Backward(m, PeOffset(bytes) + 0x83, 4)) == Some(LE(bytes, PeOffset(bytes) + 0x80, 4))
    ensures HexSum(Backward(m, 63, 4), "15") == Some(Hex08(PeOffset(bytes) + 0x15))
    ensures ReadAt(m, Word, Hex08(PeOffset(bytes) + 0x15)) == Some(Backward(m, PeOffset(bytes) + 0x15, 2))
    ensures ParseU32(Backward(m, PeOffset(bytes) + 0x15, 2)) == Some(LE(bytes, PeOffset(bytes) + 0x14, 2))
    ensures HexSum(Backward(m, 63, 4), "18") == Some(Hex08(PeOffset(bytes) + 0x18))
  {
    var pe := PeOffset(bytes);
    HexLiteralValues();
    ReadBackwardFlat(m, 4, 3, 15, 63);
    FieldValue(m, bytes, |bytes|, 63, 4);
    var s1 := Backward(m, 63, 4);
    SumAt(s1, pe, "6", 6);
    CellAtAddress(m, pe + 6);
    SumAt(s1, pe, "83", 0x83);
    FieldAt(m, bytes, pe + 0x83, 4);
    SumAt(s1, pe, "15", 0x15);
    FieldAt(m, bytes, pe + 0x15, 2);
    SumAt(s1, pe, "18", 0x18);
  }

  /** The steps of the locator from `s9`: the section headers start at `s7 + s8`. */
  lemma HeaderSections(m: Matrix, bytes: seq<Byte>, s7: string)
    requires Holds(m, bytes, |bytes|) && HeaderFits(bytes)
    requires ParseU32(s7) == Some(LE(bytes, PeOffset(bytes) + 0x14, 2))
    ensures HexSum(s7, Hex08(PeOffset(bytes) + 0x18)) == Some(Hex08(SectionHeaders(bytes)))
    ensures HexSum(Hex08(SectionHeaders(bytes)), "0f") == Some(Hex08(SectionHeaders(bytes) + 0x0f))
    ensures ReadAt(m, Dword, Hex08(SectionHeaders(bytes) + 0x0f)) == Some(Backward(m, SectionHeaders(bytes) + 0x0f, 4))
    ensures ParseU32(Backward(m, SectionHeaders(bytes) + 0x0f, 4)) == Some(LE(bytes, SectionHeaders(bytes) + 12, 4))
    ensures HexSum(Hex08(SectionHeaders(bytes) + 0x0f), "08") == Some(Hex08(SectionHeaders(bytes) + 0x17))
    ensures ReadAt(m, Dword, Hex08(SectionHeaders(bytes) + 0x17)) == Some(Backward(m, SectionHeaders(bytes) + 0x17, 4))
    ensures ParseU32(Backward(m, SectionHeaders(bytes) + 0x17, 4)) == Some(LE(bytes, SectionHeaders(bytes) + 20, 4))
  {
    var pe, sh := PeOffset(bytes), SectionHeaders(bytes);
    HexLiteralValues();
    Hex08Facts(pe + 0x18);
    SumAt(s7, LE(bytes, pe + 0x14, 2), Hex08(pe + 0x18), pe + 0x18);
    Hex08Facts(sh);
    SumAt(Hex08(sh), sh, "0f", 0x0f);
    FieldAt(m, bytes, sh + 0x0f, 4);
    Hex08Facts(sh + 0x0f);
    SumAt(Hex08(sh + 0x0f), sh + 0x0f, "08", 0x08);
    FieldAt(m, bytes, sh + 0x17, 4);
  }

  /** The locator's chain, once each step is known. */
  lemma HeaderChain(m: Matrix, s1: string, a2: string, s3: string, a4: string, s5: string,
                    a6: string, s7: string, a8: string, a9: string, s10: string, s11: string,
                    s12: string, s13: string)
    requires ReadBackward(m, 4, 3, 15) == Some(s1)
    requires HexSum(s1, "6") == Some(a2) && CellAt(m, a2) == Some(s3)
    requires HexSum(s1, "83") == Some(a4) && ReadAt(m, Dword, a4) == Some(s5)
    requires HexSum(s1, "15") == Some(a6) && ReadAt(m, Word, a6) == Some(s7)
    requires HexSum(s1, "18") == Some(a8) && HexSum(s7, a8) == Some(a9)
    requires HexSum(a9, "0f") == Some(s10) && ReadAt(m, Dword, s10) == Some(s11)
    requires HexSum(s10, "08") == Some(s12) && ReadAt(m, Dword, s12) == Some(s13)
    ensures LocateHeader(m) == Some(Header(s1, s3, s5, s7, s10, s12, s11, s13))
  {
  }

  /** The header locator on any matrix holding a file whose header fits. */
  lemma LocateHeaderIn(m: Matrix, bytes: seq<Byte>)
    requires Holds(m, bytes, |bytes|) && HeaderFits(bytes)
    ensures LocateHeader(m) == Some(Header(Backward(m, 63, 4), LowerHex2(bytes[PeOffset(bytes) + 6]),
      Backward(m, PeOffset(bytes) + 0x83, 4), Backward(m, PeOffset(bytes) + 0x15, 2),
      Hex08(SectionHeaders(bytes) + 0x0f), Hex08(SectionHeaders(bytes) + 0x17),
      Backward(m, SectionHeaders(bytes) + 0x0f, 4), Backward(m, SectionHeaders(bytes) + 0x17, 4)))
  {
    HeaderStart(m, bytes);
    HeaderSections(m, bytes, Backward(m, PeOffset(bytes) + 0x15, 2));
    HeaderChain(m, Backward(m, 63, 4), Hex08(PeOffset(bytes) + 6), LowerHex2(bytes[PeOffset(bytes) + 6]),
                Hex08(PeOffset(bytes) + 0x83), Backward(m, PeOffset(bytes) + 0x83, 4),
                Hex08(PeOffset(bytes) + 0x15), Backward(m, PeOffset(bytes) + 0x15, 2),
                Hex08(PeOffset(bytes) + 0x18), Hex08(SectionHeaders(bytes)),
                Hex08(SectionHeaders(bytes) + 0x0f), Backward(m, SectionHeaders(bytes) + 0x0f, 4),
                Hex08(SectionHeaders(bytes) + 0x17), Backward(m, SectionHeaders(bytes) + 0x17, 4));
  }

  /** The header locator on a file whose header fits: `s1` is `e_lfanew`, `s3` the low byte of
      NumberOfSections, `s5` the import directory RVA, `s7` SizeOfOptionalHeader, and `s11`
      and `s13` the VirtualAddress and PointerToRawData of the first section header; the
      cursors `s10` and `s12` are the addresses of the last bytes of those two fields. */
  lemma LocateHeaderFields(bytes: seq<Byte>)
    requires HeaderFits(bytes)
    ensures LocateHeader(Image(bytes)).Some?
    ensures var h := LocateHeader(Image(bytes)).value;
      var pe, sh := PeOffset(bytes), SectionHeaders(bytes);
      ParseU32(h.peHead) == Some(pe) &&
      h.countCell == LowerHex2(bytes[pe + 6]) &&
      ParseU32(h.importRva) == Some(LE(bytes, pe + 0x80, 4)) &&
      ParseU32(h.optionalHeadSize) == Some(LE(bytes, pe + 0x14, 2)) &&
      h.vaCursor == Hex08(sh + 0x0f) && h.rawCursor == Hex08(sh + 0x17) &&
      ParseU32(h.firstVa) == Some(LE(bytes, sh + 12, 4)) &&
      ParseU32(h.firstRaw) == Some(LE(bytes, sh + 20, 4))
  {
    var m := Image(bytes);
    ImageHolds(bytes);
    LocateHeaderIn(m, bytes);
    HeaderStart(m, bytes);
    HeaderSections(m, bytes, Backward(m, PeOffset(bytes) + 0x15, 2));
  }

  // ---------------------------------------------------------------------------------------
  // The section table
  // ---------------------------------------------------------------------------------------

  /** Entry `e` holds the VirtualAddress (offset 12) and the PointerToRawData (offset 20) of
      the j-th 40-byte section header, which starts at `sh + 40 * j`. */
  predicate EntryHolds(bytes: seq<Byte>, sh: nat, j: nat, e: seq<string>)
    requires sh + 40 * j + 24 <= |bytes|
  {
    |e| == 2 &&
    ParseU32(e[0]) == Some(LE(bytes, sh + 40 * j + 12, 4)) &&
    ParseU32(e[1]) == Some(LE(bytes, sh + 40 * j + 20, 4))
  }

  /** The entries of a section table, read as numbers, are those of consecutive section
      headers. */
  predicate SectionEntries(bytes: seq<Byte>, sh: nat, t: seq<seq<string>>)
    requires sh + 40 * |t| <= |bytes|
  {
    forall j :: 0 <= j < |t| ==> EntryHolds(bytes, sh, j, t[j])
  }

  /** The entry [VirtualAddress, PointerToRawData] whose VirtualAddress ends at byte `c`
      (empty where the matrix cannot hold it). */
  function Entry(m: Matrix, c: nat): seq<string> {
    if Wide16(m) && 3 <= c && c + 8 < 16 * |m| then [Backward(m, c, 4), Backward(m, c + 8, 4)] else []
  }

  /** The `k` entries 40 bytes apart that follow the entry ending at byte `c`. */
  function Rows(entry: nat -> seq<string>, c: nat, k: nat): (r: seq<seq<string>>)
    ensures |r| == k
    decreases k
  {
    if k == 0 then [] else [entry(c + 40)] + Rows(entry, c + 40, k - 1)
  }

  lemma {:induction false} RowsIndex(entry: nat -> seq<string>, c: nat, k: nat, j: nat)
    requires j < k
    ensures Rows(entry, c, k)[j] == entry(c + 40 * (j + 1))
    decreases k
  {
    if j > 0 {
      RowsIndex(entry, c + 40, k - 1, j - 1);
    }
  }

  /** The section entries of the matrix `m`, by the byte their VirtualAddress ends at. */
  function EntryOf(m: Matrix): nat -> seq<string> {
    (c: nat) => Entry(m, c)
  }

  lemma EntryOfAt(m: Matrix, c: nat)
    ensures EntryOf(m)(c) == Entry(m, c)
  {
  }

  /** One step of the section loop from the entry ending at byte `c`. */
  lemma StepAt(m: Matrix, bytes: seq<Byte>, c: nat)
    requires Holds(m, bytes, |bytes|) && |bytes| < U32 && c + 48 < |bytes|
    ensures SectionStep(m, Hex08(c), Hex08(c + 8)) ==
      Some(Step(Hex08(c + 40), Hex08(c + 48), Entry(m, c + 40)))
  {
    HexLiteralValues();
    Hex08Facts(c);
    Hex08Facts(c + 8);
    SumAt(Hex08(c), c, "28", 0x28);
    SumAt(Hex08(c + 8), c + 8, "28", 0x28);
    FieldAt(m, bytes, c + 40, 4);
    FieldAt(m, bytes, c + 48, 4);
  }

  /** The loop reads `k` further entries, 40 bytes apart, when they all lie inside the file. */
  lemma {:induction false} MoreSectionsRows(m: Matrix, bytes: seq<Byte>, c: nat, k: nat)
    requires Holds(m, bytes, |bytes|) && |bytes| < U32 && c + 8 + 40 * k < |bytes|
    ensures MoreSections(SectionStep, m, Hex08(c), Hex08(c + 8), k) == Some(Rows(EntryOf(m), c, k))
    decreases k
  {
    if k > 0 {
      StepAt(m, bytes, c);
      MoreSectionsRows(m, bytes, c + 40, k - 1);
      MoreSectionsCons(SectionStep, m, Hex08(c), Hex08(c + 8), k,
                       Step(Hex08(c + 40), Hex08(c + 48), Entry(m, c + 40)), Rows(EntryOf(m), c + 40, k - 1));
      RowsCons(m, c, k);
    }
  }

  lemma RowsCons(m: Matrix, c: nat, k: nat)
    requires k > 0
    ensures Rows(EntryOf(m), c, k) == [Entry(m, c + 40)] + Rows(EntryOf(m), c + 40, k - 1)
  {
    EntryOfAt(m, c + 40);
  }

  /** A loop step that succeeds, followed by the rest of the loop. */
  lemma MoreSectionsCons(step: (Matrix, string, string) -> Option<Step>, m: Matrix, va: string, raw: string,
                         k: nat, st: Step, rest: seq<seq<string>>)
    requires k > 0 && step(m, va, raw) == Some(st)
    requires MoreSections(step, m, st.va, st.raw, k - 1) == Some(rest)
    ensures MoreSections(step, m, va, raw, k) == Some([st.row] + rest)
  {
  }

  /** A field read backward from byte `top`, named by the byte it starts at. */
  lemma FieldFrom(m: Matrix, bytes: seq<Byte>, top: nat, at: nat)
    requires Holds(m, bytes, |bytes|) && top < |bytes| && 3 <= top && at == top - 3
    ensures ParseU32(Backward(m, top, 4)) == Some(LE(bytes, at, 4))
  {
    FieldValue(m, bytes, |bytes|, top, 4);
  }

  /** The entry for section header j, of an entry function indexed by end byte. */
  function Nth(entry: nat -> seq<string>, sh: nat, j: nat): seq<string> {
    entry(sh + 15 + 40 * j)
  }

  /** The entry of section header j, which ends at byte `c`, holds the header's two
      32-bit fields. */
  lemma EntryFields(m: Matrix, bytes: seq<Byte>, sh: nat, j: nat, c: nat)
    requires Holds(m, bytes, |bytes|) && sh + 40 * j + 24 <= |bytes| && c == sh + 15 + 40 * j
    ensures EntryHolds(bytes, sh, j, Entry(m, c))
  {
    FieldFrom(m, bytes, c, sh + 40 * j + 12);
    FieldFrom(m, bytes, c + 8, sh + 40 * j + 20);
  }

  lemma EntryAt(m: Matrix, bytes: seq<Byte>, sh: nat, j: nat, c: nat)
    requires Holds(m, bytes, |bytes|) && sh + 40 * j + 24 <= |bytes| && c == sh + 15 + 40 * j
    ensures EntryHolds(bytes, sh, j, EntryOf(m)(c))
  {
    EntryOfAt(m, c);
    EntryFields(m, bytes, sh, j, c);
  }

  lemma RowsEntries(entry: nat -> seq<string>, bytes: seq<Byte>, sh: nat, count: nat)
    requires 0 < count && sh + 40 * count <= |bytes|
    requires forall j :: 0 <= j < count ==> EntryHolds(bytes, sh, j, Nth(entry, sh, j))
    ensures SectionEntries(bytes, sh, [entry(sh + 15)] + Rows(entry, sh + 15, count - 1))
  {
    var t := [entry(sh + 15)] + Rows(entry, sh + 15, count - 1);
    forall j | 0 <= j < count
      ensures EntryHolds(bytes, sh, j, t[j])
    {
      if j > 0 {
        RowsIndex(entry, sh + 15, count - 1, j - 1);
      }
      assert t[j] == Nth(entry, sh, j);
    }
  }

  lemma TableEntries(m: Matrix, bytes: seq<Byte>, sh: nat, count: nat, t: seq<seq<string>>)
    requires Holds(m, bytes, |bytes|) && 0 < count && sh + 40 * count <= |bytes|
    requires t == [EntryOf(m)(sh + 15)] + Rows(EntryOf(m), sh + 15, count - 1)
    ensures |t| == count && SectionEntries(bytes, sh, t)
  {
    forall j | 0 <= j < count
      ensures EntryHolds(bytes, sh, j, Nth(EntryOf(m), sh, j))
    {
      var c := sh + 15 + 40 * j;
      EntryAt(m, bytes, sh, j, c);
      assert Nth(EntryOf(m), sh, j) == EntryOf(m)(c);
    }
    RowsEntries(EntryOf(m), bytes, sh, count);
  }

  /** The number of sections the reader takes from a file whose header fits. */
  function DeclaredSections(bytes: seq<Byte>): nat
    requires HeaderFits(bytes)
  {
    SectionCount(LowerHex2(bytes[PeOffset(bytes) + 6]))
  }

  /** The section table read from any matrix holding a file whose headers fit. */
  lemma SectionTableIn(m: Matrix, bytes: seq<Byte>)
    requires Holds(m, bytes, |bytes|) && HeaderFits(bytes)
    requires 0 < DeclaredSections(bytes) && SectionHeaders(bytes) + 40 * DeclaredSections(bytes) <= |bytes|
    ensures LocateHeader(m).Some?
    ensures SectionTable(m, LocateHeader(m).value) ==
      Some([EntryOf(m)(SectionHeaders(bytes) + 15)] +
           Rows(EntryOf(m), SectionHeaders(bytes) + 15, DeclaredSections(bytes) - 1))
  {
    LocateHeaderIn(m, bytes);
    MoreSectionsRows(m, bytes, SectionHeaders(bytes) + 15, DeclaredSections(bytes) - 1);
  }

  lemma SectionTableEntriesIn(m: Matrix, bytes: seq<Byte>)
    requires Holds(m, bytes, |bytes|) && HeaderFits(bytes)
    requires 0 < DeclaredSections(bytes) && SectionHeaders(bytes) + 40 * DeclaredSections(bytes) <= |bytes|
    ensures LocateHeader(m).Some? && SectionTable(m, LocateHeader(m).value).Some?
    ensures |SectionTable(m, LocateHeader(m).value).value| == DeclaredSections(bytes)
    ensures SectionEntries(bytes, SectionHeaders(bytes), SectionTable(m, LocateHeader(m).value).value)
  {
    SectionTableIn(m, bytes);
    TableEntries(m, bytes, SectionHeaders(bytes), DeclaredSections(bytes), SectionTable(m, LocateHeader(m).value).value);
  }

  /** The section table of a file whose headers fit and which declares `count > 0` sections
      lying inside it: `count` entries, entry j holding the VirtualAddress and the
      PointerToRawData of the j-th section header. */
  lemma SectionTableFields(bytes: seq<Byte>)
    requires HeaderFits(bytes)
    requires 0 < DeclaredSections(bytes) && SectionHeaders(bytes) + 40 * DeclaredSections(bytes) <= |bytes|
    ensures LocateHeader(Image(bytes)).Some?
    ensures SectionTable(Image(bytes), LocateHeader(Image(bytes)).value).Some?
    ensures |SectionTable(Image(bytes), LocateHeader(Image(bytes)).value).value| == DeclaredSections(bytes)
    ensures SectionEntries(bytes, SectionHeaders(bytes), SectionTable(Image(bytes), LocateHeader(Image(bytes)).value).value)
  {
    ImageHolds(bytes);
    SectionTableEntriesIn(Image(bytes), bytes);
  }

  /** A declared count of 0 (which is also what a count cell that is not a decimal number
      gives) makes the loop's `table_arr[0]` panic. */
  lemma SectionTableEmpty(bytes: seq<Byte>)
    requires HeaderFits(bytes) && DeclaredSections(bytes) == 0
    ensures LocateHeader(Image(bytes)).Some?
    ensures SectionTable(Image(bytes), LocateHeader(Image(bytes)).value) == None
  {
    LocateHeaderFields(bytes);
  }

  /** NumberOfSections is read from one cell and parsed as a DECIMAL number (0 when that
      fails): a byte whose two hex digits are both decimal digits counts as their decimal
      reading, and any other byte counts as 0. */
  lemma SectionCountOfByte(b: Byte)
    ensures SectionCount(LowerHex2(b)) == if b / 16 < 10 && b % 16 < 10 then 10 * (b / 16) + b % 16 else 0
  {
    var s := LowerHex2(b);
    FromStrRadixDigits(s, 10, U64);
    assert s[0] != '+';
    if b / 16 < 10 && b % 16 < 10 {
      assert IsDigits(s, 10);
      assert s[..1][..0] == [];
      assert DigitsValue(s[..1], 10) == b / 16;
    } else {
      assert !IsDigits(s, 10) by {
        if b / 16 >= 10 {
          assert DigitValue(s[0], 10).None?;
        } else {
          assert DigitValue(s[1], 10).None?;
        }
      }
    }
  }

  /** Three sections count as 3, ten as 0 and sixteen as 10. */
  lemma SectionCountExamples()
    ensures SectionCount(LowerHex2(0x03)) == 3
    ensures SectionCount(LowerHex2(0x0a)) == 0
    ensures SectionCount(LowerHex2(0x10)) == 10
  {
    SectionCountOfByte(0x03);
    SectionCountOfByte(0x0a);
    SectionCountOfByte(0x10);
  }
}
