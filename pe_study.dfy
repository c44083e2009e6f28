/** What the `PeStudy` that `read_exe_file` returns for a PE file holds, field by field,
    stated over the bytes of the file. */
module PeStudyFields {
  import opened Options
  import opened PeTools
  import opened PeRead
  import opened PeFields
  import opened PeLayout
  import opened PeImports
  import opened PeByname

  /** The import directory RVA: DataDirectory[1].VirtualAddress of the optional header. */
  function ImportRva(bytes: seq<Byte>): nat
    requires HeaderFits(bytes)
  {
    LE(bytes, PeOffset(bytes) + 0x80, 4)
  }

  /** The VirtualAddress of section header `j`. */
  function SectionVa(bytes: seq<Byte>, j: nat): nat
    requires HeaderFits(bytes) && SectionHeaders(bytes) + 40 * j + 24 <= |bytes|
  {
    LE(bytes, SectionHeaders(bytes) + 40 * j + 12, 4)
  }

  /** The PointerToRawData of section header `j`. */
  function SectionRaw(bytes: seq<Byte>, j: nat): nat
    requires HeaderFits(bytes) && SectionHeaders(bytes) + 40 * j + 24 <= |bytes|
  {
    LE(bytes, SectionHeaders(bytes) + 40 * j + 20, 4)
  }

  /** The offsets of a study follow one chain through the section entry `sec`: the import
      directory RVA translates to the descriptor offset, the lookup-table RVA read there
      translates to the lookup-table offset, and the name RVA read there translates to the
      hint/name offset. */
  predicate ChainThrough(s: PeStudy, sec: seq<string>) {
    Translate(s.importReal, sec) == Some(s.iatShifting) &&
    Hop(s.peStudy, s.iatShifting, sec).Some? && Hop(s.peStudy, s.iatShifting, sec).value.1 == s.iatReal &&
    Hop(s.peStudy, s.iatReal, sec) == Some((s.bynameShifting, s.bynameReal))
  }

  /** Entry k of the study's table is not the last, the chain goes through it, and, when the
      table holds numbers, it is the section the scan places the import directory RVA in. */
  predicate ChainAt(s: PeStudy, k: nat) {
    k + 1 < |s.subsectionInformation| && ChainThrough(s, s.subsectionInformation[k]) &&
    ParseU32(s.importReal).Some? &&
    (Parsed(s.subsectionInformation) ==> InSection(s.subsectionInformation, k, ParseU32(s.importReal).value))
  }

  /** Where each field of a study comes from: the header locator, the section table and the
      import chain of the matrix. */
  lemma StudyParts(m: Matrix, fileName: string, fileSize: string)
    requires StudyOf(m, fileName, fileSize).Some?
    ensures LocateHeader(m).Some? && SectionTable(m, LocateHeader(m).value).Some?
    ensures StudyOf(m, fileName, fileSize).value.peHead == LocateHeader(m).value.peHead
    ensures StudyOf(m, fileName, fileSize).value.subsectionSize == LocateHeader(m).value.countCell
    ensures StudyOf(m, fileName, fileSize).value.optionalHeadSize == LocateHeader(m).value.optionalHeadSize
    ensures StudyOf(m, fileName, fileSize).value.importReal == LocateHeader(m).value.importRva
    ensures StudyOf(m, fileName, fileSize).value.subsectionInformation == SectionTable(m, LocateHeader(m).value).value
    ensures StudyOf(m, fileName, fileSize).value.peStudy == m
    ensures StudyOf(m, fileName, fileSize).value.fieldName == fileName
    ensures StudyOf(m, fileName, fileSize).value.fieldSize == fileSize
  {
    var h := LocateHeader(m).value;
    var t := SectionTable(m, h).value;
    var imp := ResolveImports(m, h.importRva, t).value;
    var x := Position1(imp.nameOffset).value;
    var tokens := Tokens(Printable, BynameCells(m, x)).value;
    assert StudyOf(m, fileName, fileSize) ==
      Some(PeStudy(h.peHead, h.countCell, h.optionalHeadSize, t, h.importRva,
                   imp.descriptorOffset, imp.thunkOffset, imp.nameRva, imp.nameOffset,
                   WithoutSingles(tokens), m, fileName, fileSize));
  }

  /** The header fields of the study of a file whose headers fit: `pe_head` is e_lfanew,
      `subsection_size` the cell of NumberOfSections' low byte, `optional_head_size`
      SizeOfOptionalHeader and `import_real` the import directory RVA; the file's name and
      size text and its matrix are kept as given. */
  lemma StudyHeader(bytes: seq<Byte>, fileName: string, fileSize: string)
    requires HeaderFits(bytes) && Study(HexEncode(bytes), fileName, fileSize).Some?
    ensures ParseU32(Study(HexEncode(bytes), fileName, fileSize).value.peHead) == Some(PeOffset(bytes))
    ensures Study(HexEncode(bytes), fileName, fileSize).value.subsectionSize == LowerHex2(bytes[PeOffset(bytes) + 6])
    ensures ParseU32(Study(HexEncode(bytes), fileName, fileSize).value.optionalHeadSize) ==
      Some(LE(bytes, PeOffset(bytes) + 0x14, 2))
    ensures ParseU32(Study(HexEncode(bytes), fileName, fileSize).value.importReal) == Some(ImportRva(bytes))
    ensures Study(HexEncode(bytes), fileName, fileSize).value.peStudy == Image(bytes)
    ensures Study(HexEncode(bytes), fileName, fileSize).value.fieldName == fileName
    ensures Study(HexEncode(bytes), fileName, fileSize).value.fieldSize == fileSize
  {
    StudyParts(Image(bytes), fileName, fileSize);
    LocateHeaderFields(bytes);
  }

  /** The import fields of a study are the offsets the import chain of its matrix resolves. */
  lemma StudyImports(m: Matrix, fileName: string, fileSize: string)
    requires StudyOf(m, fileName, fileSize).Some?
    ensures LocateHeader(m).Some? && SectionTable(m, LocateHeader(m).value).Some?
    ensures ResolveImports(m, LocateHeader(m).value.importRva, SectionTable(m, LocateHeader(m).value).value).Some?
    ensures StudyOf(m, fileName, fileSize).value.iatShifting ==
      ResolveImports(m, LocateHeader(m).value.importRva, SectionTable(m, LocateHeader(m).value).value).value.descriptorOffset
    ensures StudyOf(m, fileName, fileSize).value.iatReal ==
      ResolveImports(m, LocateHeader(m).value.importRva, SectionTable(m, LocateHeader(m).value).value).value.thunkOffset
    ensures StudyOf(m, fileName, fileSize).value.bynameShifting ==
      ResolveImports(m, LocateHeader(m).value.importRva, SectionTable(m, LocateHeader(m).value).value).value.nameRva
    ensures StudyOf(m, fileName, fileSize).value.bynameReal ==
      ResolveImports(m, LocateHeader(m).value.importRva, SectionTable(m, LocateHeader(m).value).value).value.nameOffset
  {
  }

  /** The resolved offsets follow one chain through the entry `sec`. */
  predicate ChainOf(m: Matrix, s5: string, sec: seq<string>, imp: Imports) {
    Translate(s5, sec) == Some(imp.descriptorOffset) &&
    Hop(m, imp.descriptorOffset, sec) == Some((imp.thunkRva, imp.thunkOffset)) &&
    Hop(m, imp.thunkOffset, sec) == Some((imp.nameRva, imp.nameOffset))
  }

  lemma ImportChainOf(m: Matrix, s5: string, sec: seq<string>)
    requires ImportChain(m, s5, sec).Some?
    ensures ChainOf(m, s5, sec, ImportChain(m, s5, sec).value)
  {
  }

  /** The chain resolved over `table` goes through entry k, which is not the last; when the
      table holds numbers, entry k is the section the scan places the RVA `s5` in. */
  predicate ResolvedAt(m: Matrix, s5: string, table: seq<seq<string>>, k: nat)
    requires ResolveImports(m, s5, table).Some? && ParseU32(s5).Some?
  {
    k + 1 < |table| && ChainOf(m, s5, table[k], ResolveImports(m, s5, table).value) &&
    (Parsed(table) ==> InSection(table, k, ParseU32(s5).value))
  }

  lemma ResolveImportsAt(m: Matrix, s5: string, table: seq<seq<string>>)
    requires ResolveImports(m, s5, table).Some?
    ensures ParseU32(s5).Some?
    ensures exists k :: ResolvedAt(m, s5, table, k)
  {
    if ParseU32(s5).None? {
      FirstAboveNeedsRva(s5, table, 0);
    }
    var k := FirstAbove(s5, table, 0).value - 1;
    ImportChainOf(m, s5, table[k]);
    if Parsed(table) {
      FirstAboveMeaning(s5, table, 0);
    }
    assert ResolvedAt(m, s5, table, k);
  }

  /** The offsets of any study follow one chain through a section entry k that is not the
      last; when the table holds numbers, entry k is the section the scan places the import
      directory RVA in. */
  lemma StudyChain(m: Matrix, fileName: string, fileSize: string)
    requires StudyOf(m, fileName, fileSize).Some?
    ensures ParseU32(StudyOf(m, fileName, fileSize).value.importReal).Some?
    ensures exists k :: ChainAt(StudyOf(m, fileName, fileSize).value, k)
  {
    StudyParts(m, fileName, fileSize);
    StudyImports(m, fileName, fileSize);
    var s5 := LocateHeader(m).value.importRva;
    var t := SectionTable(m, LocateHeader(m).value).value;
    ResolveImportsAt(m, s5, t);
    var k :| ResolvedAt(m, s5, t, k);
    assert ChainAt(StudyOf(m, fileName, fileSize).value, k);
  }

  /** A table whose entries hold the section headers' fields holds numbers. */
  lemma EntriesParsed(bytes: seq<Byte>, t: seq<seq<string>>)
    requires HeaderFits(bytes) && SectionHeaders(bytes) + 40 * |t| <= |bytes|
    requires SectionEntries(bytes, SectionHeaders(bytes), t)
    ensures Parsed(t)
    ensures forall j :: 0 <= j < |t| ==> Va(t, j) == SectionVa(bytes, j) && Raw(t, j) == SectionRaw(bytes, j)
  {
    forall j | 0 <= j < |t| ensures EntryHolds(bytes, SectionHeaders(bytes), j, t[j]) {
    }
  }

  /** The scan's section k, stated over the file: the import directory RVA lies at or above
      the VirtualAddress of sections 0 to k and below that of section k + 1. */
  lemma StudySectionBounds(bytes: seq<Byte>, t: seq<seq<string>>, k: nat, v: nat)
    requires HeaderFits(bytes) && SectionHeaders(bytes) + 40 * |t| <= |bytes|
    requires SectionEntries(bytes, SectionHeaders(bytes), t)
    requires k + 1 < |t| && (Parsed(t) ==> InSection(t, k, v))
    ensures forall j :: 0 <= j <= k ==> SectionVa(bytes, j) <= v
    ensures v < SectionVa(bytes, k + 1)
  {
    EntriesParsed(bytes, t);
    assert FirstOver(t, 0, k + 1, v);
  }

  /** A translation through an entry whose fields parse to `y` and `z` maps the RVA `x` to
      `x - y + z`. */
  lemma TranslateNumbers(v: string, sec: seq<string>, x: nat, y: nat, z: nat)
    requires |sec| == 2 && ParseU32(v) == Some(x) && ParseU32(sec[0]) == Some(y) && ParseU32(sec[1]) == Some(z)
    requires Translate(v, sec).Some?
    ensures y <= x && ParseU32(Translate(v, sec).value) == Some(x - y + z)
  {
    TranslateMeaning(v, sec);
    assert y <= x && x - y + z < U32 && Translate(v, sec).value == Hex08(x - y + z);
    Hex08Facts(x - y + z);
  }

  /** `iat_shifting` is the import directory RVA made a file offset through section k. */
  lemma StudyDescriptor(bytes: seq<Byte>, s: PeStudy, t: seq<seq<string>>, k: nat)
    requires HeaderFits(bytes) && SectionHeaders(bytes) + 40 * |t| <= |bytes|
    requires SectionEntries(bytes, SectionHeaders(bytes), t)
    requires ParseU32(s.importReal) == Some(ImportRva(bytes))
    requires k < |t| && Translate(s.importReal, t[k]) == Some(s.iatShifting)
    ensures SectionVa(bytes, k) <= ImportRva(bytes)
    ensures ParseU32(s.iatShifting) == Some(ImportRva(bytes) - SectionVa(bytes, k) + SectionRaw(bytes, k))
  {
    assert EntryHolds(bytes, SectionHeaders(bytes), k, t[k]);
    TranslateNumbers(s.importReal, t[k], ImportRva(bytes), SectionVa(bytes, k), SectionRaw(bytes, k));
  }

  /** Section k holds the import directory of the file, and the study's chain goes through
      its entry: sections 0 to k start at or below the RVA, section k + 1 above it, and
      `iat_shifting` is the RVA made a file offset through section k. */
  predicate SectionOfImports(bytes: seq<Byte>, s: PeStudy, k: nat)
    requires HeaderFits(bytes) && SectionHeaders(bytes) + 40 * DeclaredSections(bytes) <= |bytes|
  {
    k + 1 < DeclaredSections(bytes) && k + 1 < |s.subsectionInformation| &&
    (forall j :: 0 <= j <= k ==> SectionVa(bytes, j) <= ImportRva(bytes)) &&
    ImportRva(bytes) < SectionVa(bytes, k + 1) &&
    ParseU32(s.iatShifting) == Some(ImportRva(bytes) - SectionVa(bytes, k) + SectionRaw(bytes, k)) &&
    ChainThrough(s, s.subsectionInformation[k])
  }

  /** A study whose table holds the file's section headers and whose chain goes through entry
      k has section k hold the import directory. */
  lemma ChainSection(bytes: seq<Byte>, s: PeStudy, k: nat)
    requires HeaderFits(bytes) && SectionHeaders(bytes) + 40 * DeclaredSections(bytes) <= |bytes|
    requires |s.subsectionInformation| == DeclaredSections(bytes)
    requires SectionEntries(bytes, SectionHeaders(bytes), s.subsectionInformation)
    requires ParseU32(s.importReal) == Some(ImportRva(bytes))
    requires ChainAt(s, k)
    ensures SectionOfImports(bytes, s, k)
  {
    StudySectionBounds(bytes, s.subsectionInformation, k, ImportRva(bytes));
    StudyDescriptor(bytes, s, s.subsectionInformation, k);
  }

  /** The study of a file whose headers and declared section headers lie inside it: one entry
      per declared section holding its VirtualAddress and PointerToRawData, and the import
      descriptor found through the section k that holds the import directory RVA (the first
      section k + 1 whose VirtualAddress is above the RVA marks its end). */
  lemma StudySections(bytes: seq<Byte>, fileName: string, fileSize: string)
    requires HeaderFits(bytes)
    requires 0 < DeclaredSections(bytes) && SectionHeaders(bytes) + 40 * DeclaredSections(bytes) <= |bytes|
    requires Study(HexEncode(bytes), fileName, fileSize).Some?
    ensures |Study(HexEncode(bytes), fileName, fileSize).value.subsectionInformation| == DeclaredSections(bytes)
    ensures SectionEntries(bytes, SectionHeaders(bytes), Study(HexEncode(bytes), fileName, fileSize).value.subsectionInformation)
    ensures exists k :: SectionOfImports(bytes, Study(HexEncode(bytes), fileName, fileSize).value, k)
  {
    assert Study(HexEncode(bytes), fileName, fileSize) == StudyOf(Image(bytes), fileName, fileSize);
    StudyHeader(bytes, fileName, fileSize);
    StudyParts(Image(bytes), fileName, fileSize);
    SectionTableFields(bytes);
    StudyChain(Image(bytes), fileName, fileSize);
    var k :| ChainAt(StudyOf(Image(bytes), fileName, fileSize).value, k);
    ChainSection(bytes, StudyOf(Image(bytes), fileName, fileSize).value, k);
  }
}
