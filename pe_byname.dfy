/** The import-by-name extractor of `read_exe_file`: collect the cells of the hint/name region
    row by row until a run of four zero bytes, split the collected cells into runs of printable
    bytes (0x21 to 0x7E), and drop the runs of a single byte. */
module PeByname {
  import opened Options
  import opened PeTools

  function Min(a: nat, b: nat): nat {
    if a <= b then a else b
  }

  // ---------------------------------------------------------------------------------------
  // The scan of the hint/name region
  // ---------------------------------------------------------------------------------------

  /** The cells the scan pushes when it never stops early: rows `x`, `x + 1`, ... of the
      matrix, each from column 0 up to column 15 (a shorter row ends the row early). */
  function RowStream(m: Matrix, x: nat): seq<string>
    decreases |m| - x
  {
    if x >= |m| then [] else m[x][..Min(16, |m[x]|)] + RowStream(m, x + 1)
  }

  /** After `len` cells have been pushed the scan stops: at least 18 cells are collected and
      the last four are "00". */
  predicate TerminatesAt(t: seq<string>, len: nat) {
    18 <= len <= |t| &&
    t[len - 1] == "00" && t[len - 2] == "00" && t[len - 3] == "00" && t[len - 4] == "00"
  }

  /** The first stopping length at or after `from`. */
  function FirstTerminator(t: seq<string>, from: nat): (r: Option<nat>)
    ensures r.Some? ==> from <= r.value && TerminatesAt(t, r.value)
    decreases |t| + 1 - from
  {
    if from > |t| then None
    else if TerminatesAt(t, from) then Some(from)
    else FirstTerminator(t, from + 1)
  }

  /** What the scan collects: the stream up to the first stop, without its four "00" cells. */
  function BynameCells(m: Matrix, x: nat): seq<string> {
    var t := RowStream(m, x);
    match FirstTerminator(t, 18)
    case Some(len) => t[..len - 4]
    case None => t
  }

  lemma {:induction false} FirstTerminatorIsFirst(t: seq<string>, from: nat)
    ensures FirstTerminator(t, from).Some? ==>
      forall l :: from <= l < FirstTerminator(t, from).value ==> !TerminatesAt(t, l)
    ensures FirstTerminator(t, from).None? ==> forall l :: from <= l ==> !TerminatesAt(t, l)
    decreases |t| + 1 - from
  {
    if from <= |t| && !TerminatesAt(t, from) {
      FirstTerminatorIsFirst(t, from + 1);
    }
  }

  lemma {:induction false} FirstTerminatorFound(t: seq<string>, from: nat, len: nat)
    requires from <= len && TerminatesAt(t, len)
    requires forall l :: from <= l < len ==> !TerminatesAt(t, l)
    ensures FirstTerminator(t, from) == Some(len)
    decreases len - from
  {
    if from < len {
      FirstTerminatorFound(t, from + 1, len);
    }
  }

  lemma {:induction false} FirstTerminatorAbsent(t: seq<string>, from: nat)
    requires forall l :: from <= l <= |t| ==> !TerminatesAt(t, l)
    ensures FirstTerminator(t, from) == None
    decreases |t| + 1 - from
  {
    if from <= |t| {
      FirstTerminatorAbsent(t, from + 1);
    }
  }

  /** A stop found in a prefix is a stop of the whole stream. */
  lemma TerminatesInPrefix(pre: seq<string>, rest: seq<string>, len: nat)
    requires len <= |pre|
    ensures TerminatesAt(pre, len) == TerminatesAt(pre + rest, len)
  {
  }

  /** No stop occurs within `t`. */
  predicate NoStop(t: seq<string>) {
    forall l :: 18 <= l <= |t| ==> !TerminatesAt(t, l)
  }

  lemma NoStopYet(before: seq<string>, c: string)
    requires NoStop(before)
    requires !TerminatesAt(before + [c], |before| + 1)
    ensures NoStop(before + [c])
  {
    forall l | 18 <= l <= |before| + 1 ensures !TerminatesAt(before + [c], l) {
      if l <= |before| {
        TerminatesInPrefix(before, [c], l);
      }
    }
  }

  /** A stop inside the cells of one row is the first stop of the whole stream. */
  lemma StopInStream(full: seq<string>, tail: seq<string>, len: nat)
    requires TerminatesAt(full, len) && NoStop(full[..len - 1])
    ensures FirstTerminator(full + tail, 18) == Some(len)
    ensures (full + tail)[..len - 4] == full[..len - 4]
  {
    forall l | 18 <= l < len ensures !TerminatesAt(full + tail, l) {
      TerminatesInPrefix(full[..len - 1], full[len - 1..] + tail, l);
      assert full[..len - 1] + (full[len - 1..] + tail) == full + tail;
    }
    TerminatesInPrefix(full, tail, len);
    FirstTerminatorFound(full + tail, 18, len);
  }

  /** One pass of the inner loop of pe_read.rs lines 226-250 over row `row`: push its cells (at most 16)
      after `temp`, and stop, dropping the four "00" cells, as soon as a stop is reached. */
  method ScanRow(row: seq<string>, temp: seq<string>) returns (out: seq<string>, stop: bool)
    requires NoStop(temp)
    ensures var full := temp + row[..Min(16, |row|)];
      if stop then |out| + 4 <= |full| && TerminatesAt(full, |out| + 4) &&
        NoStop(full[..|out| + 3]) && out == full[..|out|]
      else out == full && NoStop(out)
  {
    ghost var full := temp + row[..Min(16, |row|)];
    out := temp;
    var k := |temp|;
    var j := 0;
    while j < 16
      invariant j <= Min(16, |row|) && k == |out| && NoStop(out)
      invariant out == temp + row[..j]
    {
      if j >= |row| {
        break;
      }
      ghost var before := out;
      out := out + [row[j]];
      assert out == temp + row[..j + 1] by {
        assert row[..j + 1] == row[..j] + [row[j]];
      }
      if k > 16 && out[k] == "00" && out[k - 1] == "00" && out[k - 2] == "00" && out[k - 3] == "00" {
        assert out == full[..k + 1];
        assert before == full[..k];
        out := out[..k - 3];
        assert out == full[..k - 3];
        return out, true;
      }
      NoStopYet(before, row[j]);
      k := k + 1;
      j := j + 1;
    }
    assert row[..j] == row[..Min(16, |row|)];
    stop := false;
  }

  lemma NextRow(m: Matrix, i: nat, temp: seq<string>, stream: seq<string>)
    requires i < |m| && stream == temp + RowStream(m, i)
    ensures stream == (temp + m[i][..Min(16, |m[i]|)]) + RowStream(m, i + 1)
  {
  }

  /** The scan of pe_read.rs lines 222-251: starting at column 0 of row `x`, push cells until the stop. */
  method CollectByname(m: Matrix, x: nat) returns (temp: seq<string>)
    ensures temp == BynameCells(m, x)
  {
    temp := [];
    var i := x;
    ghost var stream := RowStream(m, x);
    while i < |m|
      invariant x <= i && NoStop(temp)
      invariant stream == temp + RowStream(m, i)
    {
      ghost var full := temp + m[i][..Min(16, |m[i]|)];
      NextRow(m, i, temp, stream);
      var flag;
      temp, flag := ScanRow(m[i], temp);
      if flag {
        StopInStream(full, RowStream(m, i + 1), |temp| + 4);
        return;
      }
      i := i + 1;
    }
    assert RowStream(m, i) == [];
    assert temp + [] == temp;
    FirstTerminatorAbsent(temp, 18);
  }

  // ---------------------------------------------------------------------------------------
  // The tokeniser
  // ---------------------------------------------------------------------------------------

  /** Whether a cell holds a printable byte, 0x21 to 0x7E; `None` when the cell does not parse
      as a hex number (an empty padding cell, say), which panics. */
  function Printable(c: string): Option<bool> {
    var v :- ParseU32(c);
    Some(0x21 <= v <= 0x7e)
  }

  /** The test the loop spells `hex_compare1(c, "21") && hex_compare2(c, "7e")`. */
  lemma PrintableIsCompare(c: string)
    ensures Printable(c) ==
      match HexCompare1(c, "21")
      case None => None
      case Some(false) => Some(false)
      case Some(true) => HexCompare2(c, "7e")
  {
    PrintableBounds();
  }

  /** The tokeniser is stated for any cell test `test`; `read_exe_file` uses `Printable`. A
      test answers `None` where the comparison would panic. */
  predicate Accepts(test: string -> Option<bool>, c: string) {
    test(c) == Some(true)
  }

  lemma PrintableRejectsEmpty()
    ensures !Accepts(Printable, "")
  {
  }

  /** Whether the tokenising loop, from index `i` on, reaches a cell that does not parse. It
      inspects t[i] and the lookahead t[i + 1] and then advances by one, or by two when both
      are non-printable; a cell skipped by the two-step advance has already been parsed as
      the lookahead, so only the last cell, when the loop ends with such an advance past
      it, is never parsed. */
  predicate ScanFails(test: string -> Option<bool>, t: seq<string>, i: nat)
    decreases |t| - i
  {
    if i + 1 >= |t| then false
    else if test(t[i]).None? || test(t[i + 1]).None? then true
    else if !Accepts(test, t[i]) && !Accepts(test, t[i + 1]) then ScanFails(test, t, i + 2)
    else ScanFails(test, t, i + 1)
  }

  /** The maximal runs of printable cells of `t`, each run concatenated into one string. */
  function RunTokens(test: string -> Option<bool>, t: seq<string>): (r: seq<string>)
    ensures |t| > 0 && Accepts(test, t[|t| - 1]) ==> |r| > 0
  {
    if |t| == 0 then []
    else
      var before := RunTokens(test, t[..|t| - 1]);
      var c := t[|t| - 1];
      if !Accepts(test, c) then before
      else if |t| > 1 && Accepts(test, t[|t| - 2]) then
        assert t[..|t| - 1][|t| - 2] == t[|t| - 2];
        before[..|before| - 1] + [before[|before| - 1] + c]
      else before + [c]
  }

  /** `retain(|s| !s.is_empty())`. */
  function NonEmpty(s: seq<string>): seq<string> {
    if s == [] then []
    else NonEmpty(s[..|s| - 1]) + (if s[|s| - 1] == "" then [] else [s[|s| - 1]])
  }

  /** What the tokenising loop followed by the `retain` yields: the loop panics on an empty
      collection (`len() - 1` underflows) or on an inspected cell that does not parse;
      otherwise the result is the printable runs of all cells but the last, which the loop
      only ever uses as a lookahead. */
  function Tokens(test: string -> Option<bool>, t: seq<string>): Option<seq<string>> {
    if |t| == 0 || ScanFails(test, t, 0) then None else Some(RunTokens(test, t[..|t| - 1]))
  }

  lemma {:induction false} NonEmptySplit(s: seq<string>, n: nat)
    requires n < |s|
    requires forall k :: n < k < |s| ==> s[k] == ""
    ensures NonEmpty(s) == NonEmpty(s[..n]) + (if s[n] == "" then [] else [s[n]])
    decreases |s|
  {
    if n < |s| - 1 {
      NonEmptySplit(s[..|s| - 1], n);
      assert s[..|s| - 1][..n] == s[..n];
    } else {
      assert s[..|s| - 1] == s[..n];
    }
  }

  lemma RunTokensStep(test: string -> Option<bool>, t: seq<string>, i: nat)
    requires i < |t|
    ensures var r := RunTokens(test, t[..i]);
      RunTokens(test, t[..i + 1]) ==
        if !Accepts(test, t[i]) then r
        else if i > 0 && Accepts(test, t[i - 1]) then r[..|r| - 1] + [r[|r| - 1] + t[i]]
        else r + [t[i]]
  {
    assert t[..i + 1][..i] == t[..i];
    assert t[..i + 1][i] == t[i];
    if i > 0 {
      assert t[..i + 1][i - 1] == t[i - 1];
      assert t[..i][i - 1] == t[i - 1];
    }
  }

  /** Appending a printable cell to the current slot extends the last token when the slot was
      already in use, and starts a new token otherwise. */
  lemma GrowSlot(table: seq<string>, num: nat, c: string)
    requires num < |table| && c != ""
    requires forall k :: num < k < |table| ==> table[k] == ""
    ensures table[num] == "" ==> NonEmpty(table[num := table[num] + c]) == NonEmpty(table) + [c]
    ensures table[num] != "" ==>
      var n := NonEmpty(table);
      |n| > 0 && n[|n| - 1] == table[num] &&
      NonEmpty(table[num := table[num] + c]) == n[..|n| - 1] + [table[num] + c]
  {
    var grown := table[num := table[num] + c];
    assert grown[..num] == table[..num];
    assert table[num] == "" ==> grown[num] == c;
    NonEmptySplit(table, num);
    NonEmptySplit(grown, num);
  }

  /** The bookkeeping of the tokenising loop at index `i`: the slots up to `num` hold the
      printable runs of the cells before `i`, later slots are empty, and slot `num` is in use
      exactly when cell `i` continues a run. */
  predicate SlotsInvariant(test: string -> Option<bool>, temp: seq<string>, table: seq<string>, num: nat, i: nat) {
    num <= i <= |temp| && num < |table| == |temp| &&
    (forall k :: num < k < |table| ==> table[k] == "") &&
    NonEmpty(table) == RunTokens(test, temp[..i]) &&
    (table[num] != "") == (0 < i < |temp| && Accepts(test, temp[i - 1]) && Accepts(test, temp[i])) &&
    (i == |temp| ==> !Accepts(test, temp[|temp| - 1]))
  }

  /** Cell `i` is printable: it is appended to the current slot, which is closed when the
      next cell is not printable. */
  lemma AppendStep(test: string -> Option<bool>, temp: seq<string>, table: seq<string>, num: nat, i: nat)
    requires SlotsInvariant(test, temp, table, num, i) && i + 1 < |temp|
    requires Accepts(test, temp[i]) && !Accepts(test, "")
    ensures var grown := table[num := table[num] + temp[i]];
      if Accepts(test, temp[i + 1]) then SlotsInvariant(test, temp, grown, num, i + 1)
      else SlotsInvariant(test, temp, grown, num + 1, i + 1)
  {
    RunTokensStep(test, temp, i);
    GrowSlot(table, num, temp[i]);
  }

  /** Cell `i` is not printable but the next one is: a new slot is opened. */
  lemma OpenStep(test: string -> Option<bool>, temp: seq<string>, table: seq<string>, num: nat, i: nat)
    requires SlotsInvariant(test, temp, table, num, i) && i + 1 < |temp|
    requires !Accepts(test, temp[i]) && Accepts(test, temp[i + 1])
    ensures SlotsInvariant(test, temp, table, num + 1, i + 1)
  {
    RunTokensStep(test, temp, i);
  }

  /** Neither cell is printable: both are skipped. */
  lemma SkipStep(test: string -> Option<bool>, temp: seq<string>, table: seq<string>, num: nat, i: nat)
    requires SlotsInvariant(test, temp, table, num, i) && i + 1 < |temp|
    requires !Accepts(test, temp[i]) && !Accepts(test, temp[i + 1])
    ensures SlotsInvariant(test, temp, table, num, i + 2)
  {
    RunTokensStep(test, temp, i);
    RunTokensStep(test, temp, i + 1);
  }

  lemma TokensAtEnd(test: string -> Option<bool>, temp: seq<string>, table: seq<string>, num: nat, i: nat)
    requires SlotsInvariant(test, temp, table, num, i) && i + 1 >= |temp| > 0
    requires ScanFails(test, temp, 0) == ScanFails(test, temp, i)
    ensures Tokens(test, temp) == Some(NonEmpty(table))
  {
    if i == |temp| {
      RunTokensStep(test, temp, |temp| - 1);
      assert temp[..|temp|] == temp;
    }
  }

  /** The tokenising loop of pe_read.rs lines 253-276; the caller applies the `retain`. */
  method Tokenise(test: string -> Option<bool>, temp: seq<string>) returns (slots: Option<seq<string>>)
    requires !Accepts(test, "")
    ensures slots.Some? <==> Tokens(test, temp).Some?
    ensures slots.Some? ==> |slots.value| == |temp| && NonEmpty(slots.value) == Tokens(test, temp).value
  {
    if |temp| == 0 {
      return None;
    }
    var table := seq(|temp|, _ => "");
    var num := 0;
    var i := 0;
    NonEmptySplit(table, 0);
    while i < |temp| - 1
      invariant SlotsInvariant(test, temp, table, num, i)
      invariant ScanFails(test, temp, 0) == ScanFails(test, temp, i)
    {
      var here := test(temp[i]);
      if here.None? {
        return None;
      }
      var next := test(temp[i + 1]);
      if next.None? {
        return None;
      }
      if here.value {
        AppendStep(test, temp, table, num, i);
        table := table[num := table[num] + temp[i]];
        if !next.value {
          num := num + 1;
        }
      } else if next.value {
        OpenStep(test, temp, table, num, i);
        num := num + 1;
      } else {
        SkipStep(test, temp, table, num, i);
        i := i + 1;
      }
      i := i + 1;
    }
    TokensAtEnd(test, temp, table, num, i);
    slots := Some(table);
  }

  // ---------------------------------------------------------------------------------------
  // What the tokens are
  // ---------------------------------------------------------------------------------------

  /** The concatenation of a sequence of strings. */
  function Join(s: seq<string>): string {
    if s == [] then "" else Join(s[..|s| - 1]) + s[|s| - 1]
  }

  /** The cells `test` accepts, in order. */
  function Accepted(test: string -> Option<bool>, t: seq<string>): seq<string> {
    if t == [] then []
    else Accepted(test, t[..|t| - 1]) + (if Accepts(test, t[|t| - 1]) then [t[|t| - 1]] else [])
  }

  lemma JoinSnoc(s: seq<string>, x: string)
    ensures Join(s + [x]) == Join(s) + x
  {
    assert (s + [x])[..|s|] == s;
  }

  lemma JoinExtendLast(front: seq<string>, last: string, c: string)
    ensures Join(front + [last + c]) == Join(front + [last]) + c
  {
    JoinSnoc(front, last);
    JoinSnoc(front, last + c);
    assert Join(front) + (last + c) == (Join(front) + last) + c;
  }

  /** Nothing is lost or reordered: the tokens, joined, are the accepted cells, joined. */
  lemma {:induction false} RunTokensJoin(test: string -> Option<bool>, t: seq<string>)
    ensures Join(RunTokens(test, t)) == Join(Accepted(test, t))
    decreases |t|
  {
    if t != [] {
      var init := t[..|t| - 1];
      var c := t[|t| - 1];
      var r := RunTokens(test, init);
      RunTokensJoin(test, init);
      if Accepts(test, c) {
        assert Accepted(test, t) == Accepted(test, init) + [c];
        JoinSnoc(Accepted(test, init), c);
        if |t| > 1 && Accepts(test, t[|t| - 2]) {
          assert init[|init| - 1] == t[|t| - 2];
          var front, last := r[..|r| - 1], r[|r| - 1];
          assert RunTokens(test, t) == front + [last + c];
          assert r == front + [last];
          JoinExtendLast(front, last, c);
        } else {
          assert RunTokens(test, t) == r + [c];
          JoinSnoc(r, c);
        }
      } else {
        assert RunTokens(test, t) == r;
        assert Accepted(test, t) == Accepted(test, init);
      }
    }
  }

  /** A string made of consecutive two-character pieces that `test` accepts. */
  predicate PairsOf(test: string -> Option<bool>, s: string)
    decreases |s|
  {
    s == [] || (|s| >= 2 && Accepts(test, s[..2]) && PairsOf(test, s[2..]))
  }

  lemma {:induction false} PairsAppend(test: string -> Option<bool>, a: string, b: string)
    requires PairsOf(test, a) && PairsOf(test, b)
    ensures PairsOf(test, a + b)
    decreases |a|
  {
    if a == [] {
      assert a + b == b;
    } else {
      assert (a + b)[..2] == a[..2];
      assert (a + b)[2..] == a[2..] + b;
      PairsAppend(test, a[2..], b);
    }
  }

  /** When every accepted cell is two characters long, every token is a non-empty string of
      accepted two-character pieces. */
  lemma {:induction false} RunTokensShape(test: string -> Option<bool>, t: seq<string>)
    requires forall i :: 0 <= i < |t| && Accepts(test, t[i]) ==> |t[i]| == 2
    ensures forall k :: 0 <= k < |RunTokens(test, t)| ==>
      RunTokens(test, t)[k] != "" && PairsOf(test, RunTokens(test, t)[k])
    decreases |t|
  {
    if t != [] {
      var init := t[..|t| - 1];
      var c := t[|t| - 1];
      RunTokensShape(test, init);
      if Accepts(test, c) {
        assert c[..2] == c && c[2..] == [];
        assert PairsOf(test, c);
        var r := RunTokens(test, init);
        if |t| > 1 && Accepts(test, t[|t| - 2]) {
          assert init[|init| - 1] == t[|t| - 2];
          PairsAppend(test, r[|r| - 1], c);
        }
      }
    }
  }

  /** A printable cell of at most two characters has exactly two: one hex digit is below
      0x21. */
  lemma PrintableCellIsPair(c: string)
    requires Accepts(Printable, c) && |c| <= 2
    ensures |c| == 2
  {
    assert Printable(c) == Some(true);
    assert ParseU32(c).Some? && 0x21 <= ParseU32(c).value;
    if |c| < 2 {
      ShortParse(c);
    }
  }

  /** The pruning loop of pe_read.rs lines 279-287: remove every string of length exactly 2. */
  function WithoutSingles(s: seq<string>): seq<string> {
    if s == [] then []
    else (if |s[0]| == 2 then [] else [s[0]]) + WithoutSingles(s[1..])
  }

  method DropSingles(tokens: seq<string>) returns (out: seq<string>)
    ensures out == WithoutSingles(tokens)
  {
    out := tokens;
    var n := 0;
    while n < |out|
      invariant 0 <= n <= |out|
      invariant WithoutSingles(tokens) == out[..n] + WithoutSingles(out[n..])
      decreases |out| - n
    {
      assert out[n..][1..] == out[n + 1..];
      if |out[n]| == 2 {
        ghost var prev := out;
        out := out[..n] + out[n + 1..];
        assert out[..n] == prev[..n];
        assert out[n..] == prev[n + 1..];
      } else {
        assert out[..n + 1] == out[..n] + [out[n]];
        n := n + 1;
      }
    }
    assert out[n..] == [];
    assert out[..n] == out;
  }

  // ---------------------------------------------------------------------------------------
  // The shape of the extracted names
  // ---------------------------------------------------------------------------------------

  /** Every cell of the matrix holds at most two characters. */
  predicate ShortCells(m: Matrix) {
    forall r, c :: 0 <= r < |m| && 0 <= c < |m[r]| ==> |m[r][c]| <= 2
  }

  predicate ShortAll(t: seq<string>) {
    forall i :: 0 <= i < |t| ==> |t[i]| <= 2
  }

  lemma {:induction false} RowStreamShort(m: Matrix, x: nat)
    requires ShortCells(m)
    ensures ShortAll(RowStream(m, x))
    decreases |m| - x
  {
    if x < |m| {
      RowStreamShort(m, x + 1);
      var row := m[x][..Min(16, |m[x]|)];
      assert ShortAll(row) by {
        forall i | 0 <= i < |row| ensures |row[i]| <= 2 {
          assert row[i] == m[x][i];
        }
      }
      var rest := RowStream(m, x + 1);
      forall i | 0 <= i < |row + rest| ensures |(row + rest)[i]| <= 2 {
        if i >= |row| {
          assert (row + rest)[i] == rest[i - |row|];
        }
      }
    }
  }

  /** The collected cells of a matrix of short cells are short. */
  lemma BynameCellsShort(m: Matrix, x: nat)
    requires ShortCells(m)
    ensures ShortAll(BynameCells(m, x))
  {
    RowStreamShort(m, x);
    var t := RowStream(m, x);
    match FirstTerminator(t, 18)
    case Some(len) =>
      var pre := t[..len - 4];
      forall i | 0 <= i < |pre| ensures |pre[i]| <= 2 {
        assert pre[i] == t[i];
      }
    case None =>
  }

  /** Every token the tokeniser yields over short cells is a non-empty run of printable hex
      pairs. */
  lemma TokensShape(t: seq<string>)
    requires ShortAll(t) && Tokens(Printable, t).Some?
    ensures forall k :: 0 <= k < |Tokens(Printable, t).value| ==>
      Tokens(Printable, t).value[k] != "" && PairsOf(Printable, Tokens(Printable, t).value[k])
  {
    var init := t[..|t| - 1];
    forall i | 0 <= i < |init| && Accepts(Printable, init[i]) ensures |init[i]| == 2 {
      assert init[i] == t[i];
      PrintableCellIsPair(init[i]);
    }
    RunTokensShape(Printable, init);
  }

  /** The pruning keeps exactly the strings whose length is not 2, in their order. */
  lemma {:induction false} WithoutSinglesMembers(s: seq<string>)
    ensures forall x :: x in WithoutSingles(s) <==> x in s && |x| != 2
    decreases |s|
  {
    if s != [] {
      WithoutSinglesMembers(s[1..]);
      assert s == [s[0]] + s[1..];
    }
  }
}
