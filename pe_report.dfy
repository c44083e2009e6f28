/** `PeStudy::generate_report`: the text report of a study, built by appending formatted lines
    to a buffer, in three sections (file, PE structure, imported names) and a closing rule. */
module PeReport {
  import opened Options
  import opened PeTools
  import opened PeByname
  import opened PeRead

  // ---------------------------------------------------------------------------------------
  // Formatting helpers
  // ---------------------------------------------------------------------------------------

  function DecimalDigit(d: nat): (c: char)
    requires d < 10
    ensures DigitValue(c, 10) == Some(d)
  {
    ('0' as int + d) as char
  }

  /** `format!("{}", n)`: decimal digits, most significant first, no leading zero. */
  function Decimal(n: nat): string
    decreases n
  {
    if n < 10 then [DecimalDigit(n)] else Decimal(n / 10) + [DecimalDigit(n % 10)]
  }

  /** The decimal text is a non-empty string of digits denoting `n`, starting with '0' only
      when `n` is zero. */
  lemma {:induction false} DecimalValue(n: nat)
    ensures |Decimal(n)| > 0 && IsDigits(Decimal(n), 10)
    ensures DigitsValue(Decimal(n), 10) == n
    ensures Decimal(n)[0] == '0' ==> n == 0
    decreases n
  {
    if n >= 10 {
      DecimalValue(n / 10);
      var s := Decimal(n);
      assert s[..|s| - 1] == Decimal(n / 10);
      assert s[0] == Decimal(n / 10)[0];
    }
  }

  /** `String::from_utf8_lossy` for one byte: a byte below 0x80 is that character; any other
      byte on its own is not UTF-8 and becomes U+FFFD. */
  function Latin(b: Byte): char {
    if b < 0x80 then b as char else '\U{FFFD}'
  }

  function AsciiText(bytes: seq<Byte>): (s: string)
    ensures |s| == |bytes|
    ensures forall i :: 0 <= i < |bytes| ==> (bytes[i] < 0x80 <==> s[i] as int == bytes[i] as int)
    ensures forall i :: 0 <= i < |bytes| ==> (bytes[i] < 0x80 || s[i] == '\U{FFFD}')
  {
    seq(|bytes|, i requires 0 <= i < |bytes| => Latin(bytes[i]))
  }

  /** Each item followed by a tab, as the inner loop of pe_read.rs lines 36-38 writes them. */
  function Tabbed(items: seq<string>): string {
    if items == [] then "" else Tabbed(items[..|items| - 1]) + items[|items| - 1] + "\t"
  }

  // ---------------------------------------------------------------------------------------
  // The report
  // ---------------------------------------------------------------------------------------

  const Rule: string := "=============================" + "\n"

  /** pe_read.rs lines 26-34: the banner, the file section and the head of the PE-structure section. */
  function Opening(s: PeStudy, result: string): string {
    ("===== PE Study 报告 =====" + "\n\n") + ("一、文件信息" + "\n") + ("文件名称: " + s.fieldName + "\n") +
    ("文件大小: " + s.fieldSize + "\n") + ("检测结果: " + result + "\n\n") + ("二、pe结构" + "\n") +
    ("PE 头: " + s.peHead + "\n") + ("可选头大小: " + s.optionalHeadSize + "\n") +
    ("节表个数: " + s.subsectionSize + "\n") + ("节表信息:" + "\n")
  }

  /** The line of the section-table entry at position `index`, numbered from 1. */
  function SectionLine(index: nat, info: seq<string>): string {
    "第" + Decimal(index + 1) + "个节表（偏移、真实地址）：\t" + Tabbed(info) + "\n"
  }

  /** One line per section-table entry, in table order. */
  function SectionLines(table: seq<seq<string>>): string {
    if table == [] then ""
    else SectionLines(table[..|table| - 1]) + SectionLine(|table| - 1, table[|table| - 1])
  }

  /** pe_read.rs lines 43-50: the import directory RVA, the chain's offsets and the head of the names section. */
  function ImportPart(s: PeStudy): string {
    ("导入表真实地址: " + s.importReal + "\n") + ("IAT表偏移: " + s.iatShifting + "\n") +
    ("IAT表真实地址: " + s.iatReal + "\n") + ("Byname表偏移: " + s.bynameShifting + "\n") +
    ("Byname表真实地址: " + s.bynameReal + "\n\n") + ("三、调用的系统函数名称:" + "\n")
  }

  /** The line of one imported name; `hex::decode(item).unwrap()` panics on text that is not
      an even number of hex digits. */
  function NameLine(item: string): Option<string> {
    var bytes :- HexDecode(item);
    Some(AsciiText(bytes) + "\n")
  }

  function NameLines(items: seq<string>): Option<string> {
    if items == [] then Some("")
    else
      var front :- NameLines(items[..|items| - 1]);
      var line :- NameLine(items[|items| - 1]);
      Some(front + line)
  }

  /** The lines of all names exist only if the lines of every prefix do. */
  lemma {:induction false} NameLinesPrefix(items: seq<string>, k: nat)
    requires k <= |items|
    ensures NameLines(items).Some? ==> NameLines(items[..k]).Some?
    decreases |items|
  {
    if k < |items| {
      NameLinesPrefix(items[..|items| - 1], k);
      assert items[..|items| - 1][..k] == items[..k];
    } else {
      assert items[..k] == items;
    }
  }

  /** What `generate_report(result)` returns; `None` where it panics. */
  function Report(s: PeStudy, result: string): Option<string> {
    var names :- NameLines(s.bynameInformation);
    Some(Opening(s, result) + SectionLines(s.subsectionInformation) + ImportPart(s) + names + Rule)
  }

  /** The report exists exactly when every imported name decodes as hex. */
  lemma {:induction false} NameLinesDefined(items: seq<string>)
    ensures NameLines(items).Some? <==> forall i :: 0 <= i < |items| ==> HexDecode(items[i]).Some?
    decreases |items|
  {
    if items != [] {
      var init := items[..|items| - 1];
      NameLinesDefined(init);
      assert forall i :: 0 <= i < |init| ==> init[i] == items[i];
    }
  }

  lemma ReportDefined(s: PeStudy, result: string)
    ensures Report(s, result).Some? <==>
      forall i :: 0 <= i < |s.bynameInformation| ==> HexDecode(s.bynameInformation[i]).Some?
  {
    NameLinesDefined(s.bynameInformation);
  }

  // ---------------------------------------------------------------------------------------
  // The report of a study `read_exe_file` returns
  // ---------------------------------------------------------------------------------------

  predicate PrintableBytes(bytes: seq<Byte>) {
    forall i :: 0 <= i < |bytes| ==> 0x21 <= bytes[i] <= 0x7e
  }

  /** The byte two trailing digits denote. */
  function LastByte(s: string): Byte
    requires |s| >= 2 && DigitValue(s[|s| - 2], 16).Some? && DigitValue(s[|s| - 1], 16).Some?
  {
    DigitValue(s[|s| - 2], 16).value * 16 + DigitValue(s[|s| - 1], 16).value
  }

  lemma HexDecodeExtend(s: string)
    requires |s| >= 2 && |s| % 2 == 0 && HexDecode(s[..|s| - 2]).Some?
    requires DigitValue(s[|s| - 2], 16).Some? && DigitValue(s[|s| - 1], 16).Some?
    ensures HexDecode(s) == Some(HexDecode(s[..|s| - 2]).value + [LastByte(s)])
  {
  }

  /** A printable cell is two hex digits, and it decodes to its one printable byte. */
  lemma PrintablePairDecodes(c: string)
    requires |c| == 2 && Accepts(Printable, c)
    ensures HexDecode(c).Some? && |HexDecode(c).value| == 1 && PrintableBytes(HexDecode(c).value)
  {
    FromStrRadixDigits(c, 16, U32);
    if c[0] != '+' {
      TwoDigits(c);
      assert c[..|c| - 2] == [];
    }
  }

  /** A string of accepted pairs ends with an accepted pair after a string of accepted
      pairs. */
  lemma {:induction false} PairsLast(test: string -> Option<bool>, s: string)
    requires PairsOf(test, s) && s != []
    ensures |s| >= 2 && |s| % 2 == 0
    ensures PairsOf(test, s[..|s| - 2]) && Accepts(test, s[|s| - 2..])
    decreases |s|
  {
    if |s| == 2 {
      assert s[..0] == [] && s[0..] == s[..2];
    } else {
      var rest := s[2..];
      PairsLast(test, rest);
      assert s[|s| - 2..] == rest[|rest| - 2..];
      var init := s[..|s| - 2];
      assert init[..2] == s[..2] && init[2..] == rest[..|rest| - 2];
    }
  }

  /** Consecutive printable pairs decode to printable bytes. */
  lemma {:induction false} PairsDecode(tok: string)
    requires PairsOf(Printable, tok)
    ensures HexDecode(tok).Some? && PrintableBytes(HexDecode(tok).value)
    decreases |tok|
  {
    if tok != [] {
      PairsLast(Printable, tok);
      var last := tok[|tok| - 2..];
      PairsDecode(tok[..|tok| - 2]);
      PrintablePairDecodes(last);
      assert tok[|tok| - 2] == last[0] && tok[|tok| - 1] == last[1];
      HexDecodeExtend(tok);
      HexDecodeExtend(last);
      assert last[..0] == [];
      assert LastByte(tok) == LastByte(last) == HexDecode(last).value[0];
      var front := HexDecode(tok[..|tok| - 2]).value;
      assert HexDecode(tok).value == front + [LastByte(tok)];
      forall i | 0 <= i < |front| + 1 ensures 0x21 <= (front + [LastByte(tok)])[i] <= 0x7e {
        if i < |front| {
          assert (front + [LastByte(tok)])[i] == front[i];
        }
      }
    }
  }

  /** `generate_report` never panics on what `read_exe_file` returns: every imported name it
      holds decodes, to printable bytes. */
  lemma StudyReport(hex: string, fileName: string, fileSize: string, result: string)
    requires Study(hex, fileName, fileSize).Some?
    ensures Report(Study(hex, fileName, fileSize).value, result).Some?
    ensures forall tok :: tok in Study(hex, fileName, fileSize).value.bynameInformation ==>
      HexDecode(tok).Some? && PrintableBytes(HexDecode(tok).value)
  {
    var names := Study(hex, fileName, fileSize).value.bynameInformation;
    StudyNames(hex, fileName, fileSize);
    forall tok | tok in names ensures HexDecode(tok).Some? && PrintableBytes(HexDecode(tok).value) {
      PairsDecode(tok);
    }
    ReportDefined(Study(hex, fileName, fileSize).value, result);
  }

  /** Each imported name of such a study is printed as its own bytes, one printable
      character per byte, followed by a line feed. */
  lemma StudyNameLine(hex: string, fileName: string, fileSize: string, tok: string)
    requires Study(hex, fileName, fileSize).Some?
    requires tok in Study(hex, fileName, fileSize).value.bynameInformation
    ensures HexDecode(tok).Some? && NameLine(tok).Some?
    ensures |NameLine(tok).value| == |HexDecode(tok).value| + 1
    ensures NameLine(tok).value[|HexDecode(tok).value|] == '\n'
    ensures forall i :: 0 <= i < |HexDecode(tok).value| ==>
      NameLine(tok).value[i] as int == HexDecode(tok).value[i] as int && '!' <= NameLine(tok).value[i] <= '~'
  {
    StudyReport(hex, fileName, fileSize, "");
  }

  // ---------------------------------------------------------------------------------------
  // The line structure of the report
  // ---------------------------------------------------------------------------------------

  /** The number of line feeds in `t`. */
  function Newlines(t: string): nat {
    if t == [] then 0 else Newlines(t[..|t| - 1]) + (if t[|t| - 1] == '\n' then 1 else 0)
  }

  predicate OneLine(t: string) {
    '\n' !in t
  }

  lemma {:induction false} NewlinesAppend(a: string, b: string)
    ensures Newlines(a + b) == Newlines(a) + Newlines(b)
    decreases |b|
  {
    if b == [] {
      assert a + b == a;
    } else {
      NewlinesAppend(a, b[..|b| - 1]);
      assert (a + b)[..|a + b| - 1] == a + b[..|b| - 1];
    }
  }

  lemma {:induction false} OneLineNone(t: string)
    requires OneLine(t)
    ensures Newlines(t) == 0
    decreases |t|
  {
    if t != [] {
      OneLineNone(t[..|t| - 1]);
    }
  }

  /** A tag, a field and a line ending: only the ending breaks the line. */
  lemma FieldLine(tag: string, field: string, end: string)
    requires OneLine(tag) && OneLine(field)
    ensures Newlines(tag + field + end) == Newlines(end)
  {
    OneLineNone(tag);
    OneLineNone(field);
    NewlinesAppend(tag, field);
    NewlinesAppend(tag + field, end);
  }

  lemma LabelLine(tag: string, end: string)
    requires OneLine(tag)
    ensures Newlines(tag + end) == Newlines(end)
  {
    OneLineNone(tag);
    NewlinesAppend(tag, end);
  }

  lemma Breaks()
    ensures Newlines("\n") == 1 && Newlines("\n\n") == 2
  {
    assert "\n\n" == "\n" + "\n";
    NewlinesAppend("\n", "\n");
  }

  lemma Sum6(p0: string, p1: string, p2: string, p3: string, p4: string, p5: string)
    ensures Newlines(p0 + p1 + p2 + p3 + p4 + p5) ==
      Newlines(p0) + Newlines(p1) + Newlines(p2) + Newlines(p3) + Newlines(p4) + Newlines(p5)
  {
    NewlinesAppend(p0, p1);
    NewlinesAppend(p0 + p1, p2);
    NewlinesAppend(p0 + p1 + p2, p3);
    NewlinesAppend(p0 + p1 + p2 + p3, p4);
    NewlinesAppend(p0 + p1 + p2 + p3 + p4, p5);
  }

  lemma Sum10(p0: string, p1: string, p2: string, p3: string, p4: string, p5: string,
              p6: string, p7: string, p8: string, p9: string)
    ensures Newlines(p0 + p1 + p2 + p3 + p4 + p5 + p6 + p7 + p8 + p9) ==
      Newlines(p0) + Newlines(p1) + Newlines(p2) + Newlines(p3) + Newlines(p4) +
      Newlines(p5) + Newlines(p6) + Newlines(p7) + Newlines(p8) + Newlines(p9)
  {
    NewlinesAppend(p0, p1);
    NewlinesAppend(p0 + p1, p2);
    NewlinesAppend(p0 + p1 + p2, p3);
    NewlinesAppend(p0 + p1 + p2 + p3, p4);
    NewlinesAppend(p0 + p1 + p2 + p3 + p4, p5);
    NewlinesAppend(p0 + p1 + p2 + p3 + p4 + p5, p6);
    NewlinesAppend(p0 + p1 + p2 + p3 + p4 + p5 + p6, p7);
    NewlinesAppend(p0 + p1 + p2 + p3 + p4 + p5 + p6 + p7, p8);
    NewlinesAppend(p0 + p1 + p2 + p3 + p4 + p5 + p6 + p7 + p8, p9);
  }

  /** The fixed texts of the first two sections hold no line break. */
  lemma OpeningTags()
    ensures OneLine("===== PE Study 报告 =====")
    ensures OneLine("一、文件信息")
    ensures OneLine("文件名称: ")
    ensures OneLine("文件大小: ")
    ensures OneLine("检测结果: ")
    ensures OneLine("二、pe结构")
    ensures OneLine("PE 头: ")
    ensures OneLine("可选头大小: ")
    ensures OneLine("节表个数: ")
    ensures OneLine("节表信息:")
  {
  }

  /** The fixed texts of the import part hold no line break. */
  lemma ClosingTags()
    ensures OneLine("导入表真实地址: ")
    ensures OneLine("IAT表偏移: ")
    ensures OneLine("IAT表真实地址: ")
    ensures OneLine("Byname表偏移: ")
    ensures OneLine("Byname表真实地址: ")
    ensures OneLine("三、调用的系统函数名称:")
  {
  }

  /** The fixed texts of the section lines and the rule hold no line break. */
  lemma SectionTags()
    ensures OneLine("=============================")
    ensures OneLine("第")
    ensures OneLine("个节表（偏移、真实地址）：\t")
  {
  }

  /** The banner and the fixed lines of the first two sections: 12 line breaks around fields
      that hold none. */
  lemma OpeningLines(s: PeStudy, result: string)
    requires OneLine(s.fieldName) && OneLine(s.fieldSize) && OneLine(result)
    requires OneLine(s.peHead) && OneLine(s.optionalHeadSize) && OneLine(s.subsectionSize)
    ensures Newlines(Opening(s, result)) == 12
  {
    OpeningTags();
    Breaks();
    LabelLine("===== PE Study 报告 =====", "\n\n");
    LabelLine("一、文件信息", "\n");
    FieldLine("文件名称: ", s.fieldName, "\n");
    FieldLine("文件大小: ", s.fieldSize, "\n");
    FieldLine("检测结果: ", result, "\n\n");
    LabelLine("二、pe结构", "\n");
    FieldLine("PE 头: ", s.peHead, "\n");
    FieldLine("可选头大小: ", s.optionalHeadSize, "\n");
    FieldLine("节表个数: ", s.subsectionSize, "\n");
    LabelLine("节表信息:", "\n");
    Sum10(("===== PE Study 报告 =====" + "\n\n"), ("一、文件信息" + "\n"), ("文件名称: " + s.fieldName + "\n"),
      ("文件大小: " + s.fieldSize + "\n"), ("检测结果: " + result + "\n\n"), ("二、pe结构" + "\n"),
      ("PE 头: " + s.peHead + "\n"), ("可选头大小: " + s.optionalHeadSize + "\n"),
      ("节表个数: " + s.subsectionSize + "\n"), ("节表信息:" + "\n"));
  }

  lemma ImportPartLines(s: PeStudy)
    requires OneLine(s.importReal) && OneLine(s.iatShifting) && OneLine(s.iatReal)
    requires OneLine(s.bynameShifting) && OneLine(s.bynameReal)
    ensures Newlines(ImportPart(s)) == 7
  {
    ClosingTags();
    Breaks();
    FieldLine("导入表真实地址: ", s.importReal, "\n");
    FieldLine("IAT表偏移: ", s.iatShifting, "\n");
    FieldLine("IAT表真实地址: ", s.iatReal, "\n");
    FieldLine("Byname表偏移: ", s.bynameShifting, "\n");
    FieldLine("Byname表真实地址: ", s.bynameReal, "\n\n");
    LabelLine("三、调用的系统函数名称:", "\n");
    Sum6(("导入表真实地址: " + s.importReal + "\n"), ("IAT表偏移: " + s.iatShifting + "\n"),
      ("IAT表真实地址: " + s.iatReal + "\n"), ("Byname表偏移: " + s.bynameShifting + "\n"),
      ("Byname表真实地址: " + s.bynameReal + "\n\n"), ("三、调用的系统函数名称:" + "\n"));
  }

  lemma {:induction false} DecimalOneLine(n: nat)
    ensures OneLine(Decimal(n))
    decreases n
  {
    if n >= 10 {
      DecimalOneLine(n / 10);
    }
  }

  lemma {:induction false} TabbedOneLine(items: seq<string>)
    requires forall j :: 0 <= j < |items| ==> OneLine(items[j])
    ensures OneLine(Tabbed(items))
    decreases |items|
  {
    if items != [] {
      TabbedOneLine(items[..|items| - 1]);
    }
  }

  lemma SectionLineCount(index: nat, info: seq<string>)
    requires forall j :: 0 <= j < |info| ==> OneLine(info[j])
    ensures Newlines(SectionLine(index, info)) == 1
  {
    DecimalOneLine(index + 1);
    TabbedOneLine(info);
    OneLineNone(Tabbed(info));
    SectionTags();
    OneLineNone("个节表（偏移、真实地址）：\t");
    Breaks();
    FieldLine("第", Decimal(index + 1), "个节表（偏移、真实地址）：\t");
    NewlinesAppend("第" + Decimal(index + 1) + "个节表（偏移、真实地址）：\t", Tabbed(info));
    NewlinesAppend("第" + Decimal(index + 1) + "个节表（偏移、真实地址）：\t" + Tabbed(info), "\n");
  }

  /** One line per section-table entry. */
  lemma {:induction false} SectionLinesCount(table: seq<seq<string>>)
    requires forall i, j :: 0 <= i < |table| && 0 <= j < |table[i]| ==> OneLine(table[i][j])
    ensures Newlines(SectionLines(table)) == |table|
    decreases |table|
  {
    if table != [] {
      SectionLinesCount(table[..|table| - 1]);
      SectionLineCount(|table| - 1, table[|table| - 1]);
      NewlinesAppend(SectionLines(table[..|table| - 1]), SectionLine(|table| - 1, table[|table| - 1]));
    }
  }

  /** One line per imported name whose bytes hold no line feed. */
  lemma {:induction false} NameLinesCount(items: seq<string>)
    requires forall i :: 0 <= i < |items| ==> HexDecode(items[i]).Some? && 0x0a !in HexDecode(items[i]).value
    ensures NameLines(items).Some? && Newlines(NameLines(items).value) == |items|
    decreases |items|
  {
    if items != [] {
      NameLinesCount(items[..|items| - 1]);
      var bytes := HexDecode(items[|items| - 1]).value;
      assert OneLine(AsciiText(bytes)) by {
        forall i | 0 <= i < |bytes| ensures AsciiText(bytes)[i] != '\n' {
          assert bytes[i] != 0x0a;
        }
      }
      Breaks();
      LabelLine(AsciiText(bytes), "\n");
      NewlinesAppend(NameLines(items[..|items| - 1]).value, AsciiText(bytes) + "\n");
    }
  }

  /** The report has 20 fixed line breaks, one line per section-table entry and one per
      imported name, when no field holds a line break of its own. */
  lemma ReportLines(s: PeStudy, result: string)
    requires OneLine(s.fieldName) && OneLine(s.fieldSize) && OneLine(result)
    requires OneLine(s.peHead) && OneLine(s.optionalHeadSize) && OneLine(s.subsectionSize)
    requires OneLine(s.importReal) && OneLine(s.iatShifting) && OneLine(s.iatReal)
    requires OneLine(s.bynameShifting) && OneLine(s.bynameReal)
    requires forall i, j :: 0 <= i < |s.subsectionInformation| && 0 <= j < |s.subsectionInformation[i]| ==>
      OneLine(s.subsectionInformation[i][j])
    requires forall i :: 0 <= i < |s.bynameInformation| ==>
      HexDecode(s.bynameInformation[i]).Some? && 0x0a !in HexDecode(s.bynameInformation[i]).value
    ensures Report(s, result).Some?
    ensures Newlines(Report(s, result).value) == 20 + |s.subsectionInformation| + |s.bynameInformation|
  {
    OpeningLines(s, result);
    SectionLinesCount(s.subsectionInformation);
    ImportPartLines(s);
    NameLinesCount(s.bynameInformation);
    SectionTags();
    Breaks();
    LabelLine("=============================", "\n");
    NewlinesAppend(Opening(s, result), SectionLines(s.subsectionInformation));
    NewlinesAppend(Opening(s, result) + SectionLines(s.subsectionInformation), ImportPart(s));
    NewlinesAppend(Opening(s, result) + SectionLines(s.subsectionInformation) + ImportPart(s),
                   NameLines(s.bynameInformation).value);
    NewlinesAppend(Opening(s, result) + SectionLines(s.subsectionInformation) + ImportPart(s) +
                   NameLines(s.bynameInformation).value, Rule);
  }

  method GenerateReport(s: PeStudy, result: string) returns (report: Option<string>)
    ensures report == Report(s, result)
  {
    var text := WriteOpening(s, result);
    text := WriteSections(text, s.subsectionInformation);
    text := WriteImportPart(text, s);
    var named := WriteNames(text, s.bynameInformation);
    if named.None? {
      return None;
    }
    report := Some(named.value + Rule);
  }

  method WriteOpening(s: PeStudy, result: string) returns (text: string)
    ensures text == Opening(s, result)
  {
    text := "";
    text := text + ("===== PE Study 报告 =====" + "\n\n");
    text := text + ("一、文件信息" + "\n");
    text := text + ("文件名称: " + s.fieldName + "\n");
    text := text + ("文件大小: " + s.fieldSize + "\n");
    text := text + ("检测结果: " + result + "\n\n");
    text := text + ("二、pe结构" + "\n");
    text := text + ("PE 头: " + s.peHead + "\n");
    text := text + ("可选头大小: " + s.optionalHeadSize + "\n");
    text := text + ("节表个数: " + s.subsectionSize + "\n");
    text := text + ("节表信息:" + "\n");
  }

  /** The loop of pe_read.rs lines 35-41. */
  method WriteSections(buffer: string, table: seq<seq<string>>) returns (text: string)
    ensures text == buffer + SectionLines(table)
  {
    text := buffer;
    for index := 0 to |table|
      invariant text == buffer + SectionLines(table[..index])
    {
      SectionLinesNext(table, index);
      text := WriteSectionLine(text, index, table[index]);
    }
    assert table[..|table|] == table;
  }

  lemma SectionLinesNext(table: seq<seq<string>>, index: nat)
    requires index < |table|
    ensures SectionLines(table[..index + 1]) == SectionLines(table[..index]) + SectionLine(index, table[index])
  {
    assert table[..index + 1][..index] == table[..index];
  }

  method WriteSectionLine(buffer: string, index: nat, info: seq<string>) returns (text: string)
    ensures text == buffer + SectionLine(index, info)
  {
    text := buffer + ("第" + Decimal(index + 1) + "个节表（偏移、真实地址）：\t");
    text := WriteTabbed(text, info);
    text := text + "\n";
  }

  method WriteTabbed(buffer: string, info: seq<string>) returns (text: string)
    ensures text == buffer + Tabbed(info)
  {
    text := buffer;
    for j := 0 to |info|
      invariant text == buffer + Tabbed(info[..j])
    {
      assert info[..j + 1][..j] == info[..j];
      text := text + (info[j] + "\t");
    }
    assert info[..|info|] == info;
  }

  method WriteImportPart(buffer: string, s: PeStudy) returns (text: string)
    ensures text == buffer + ImportPart(s)
  {
    text := buffer;
    text := text + ("导入表真实地址: " + s.importReal + "\n");
    text := text + ("IAT表偏移: " + s.iatShifting + "\n");
    text := text + ("IAT表真实地址: " + s.iatReal + "\n");
    text := text + ("Byname表偏移: " + s.bynameShifting + "\n");
    text := text + ("Byname表真实地址: " + s.bynameReal + "\n\n");
    text := text + ("三、调用的系统函数名称:" + "\n");
  }

  /** The loop of pe_read.rs lines 51-56; `None` where `hex::decode(..).unwrap()` panics. */
  method WriteNames(buffer: string, names: seq<string>) returns (text: Option<string>)
    ensures text == Prepend(buffer, NameLines(names))
  {
    var out := buffer;
    for k := 0 to |names|
      invariant NameLines(names[..k]).Some?
      invariant out == buffer + NameLines(names[..k]).value
    {
      assert names[..k + 1][..k] == names[..k];
      var bytes := HexDecode(names[k]);
      if bytes.None? {
        NameLinesPrefix(names, k + 1);
        return None;
      }
      out := out + (AsciiText(bytes.value) + "\n");
    }
    assert names[..|names|] == names;
    text := Some(out);
  }
}
