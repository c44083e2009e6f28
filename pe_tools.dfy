/** Hex-string arithmetic and cell reading used by the PE reader: 8-digit zero-padded hex
    addition and subtraction, address decomposition into (row, column), numeric comparison of
    hex strings, backward reading of little-endian fields out of a 16-column cell matrix, hex
    encoding of byte strings and a case-insensitive substring matcher. */
module PeTools {
  import opened Options

  type Byte = x: int | 0 <= x < 256

  /** A grid of hex cells: each cell is a two-digit byte or the empty padding string. */
  type Matrix = seq<seq<string>>

  type Radix = r: nat | r == 10 || r == 16 witness 16

  const U8: nat := 0x100
  const U32: nat := 0x1_0000_0000
  const U64: nat := 0x1_0000_0000_0000_0000

  function Pow(b: nat, e: nat): nat {
    if e == 0 then 1 else b * Pow(b, e - 1)
  }

  // ---------------------------------------------------------------------------------------
  // Parsing: Rust's `from_str_radix` for unsigned integer types
  // ---------------------------------------------------------------------------------------

  /** The value of `c` as a digit of `radix`; hex letters are accepted in either case. */
  function DigitValue(c: char, radix: Radix): (d: Option<nat>)
    ensures d.Some? ==> d.value < radix
  {
    if '0' <= c <= '9' then Some(c as int - '0' as int)
    else if radix == 16 && 'a' <= c <= 'f' then Some(c as int - 'a' as int + 10)
    else if radix == 16 && 'A' <= c <= 'F' then Some(c as int - 'A' as int + 10)
    else None
  }

  predicate IsDigits(s: string, radix: Radix) {
    forall i :: 0 <= i < |s| ==> DigitValue(s[i], radix).Some?
  }

  /** The number a string of digits denotes, most significant digit first. */
  function DigitsValue(s: string, radix: Radix): nat
    requires IsDigits(s, radix)
  {
    if s == [] then 0
    else DigitsValue(s[..|s| - 1], radix) * radix + DigitValue(s[|s| - 1], radix).value
  }

  /** `from_str_radix` of an unsigned type whose values lie below `limit`: an optional leading
      '+', then at least one digit; an empty string, a stray character or a value that does
      not fit is an error. */
  function FromStrRadix(s: string, radix: Radix, limit: nat): (r: Option<nat>)
    ensures r.Some? ==> r.value < limit
  {
    var digits := if |s| > 0 && s[0] == '+' then s[1..] else s;
    if digits == [] then None
    else match ValueOf(digits, radix)
      case Some(v) => if v < limit then Some(v) else None
      case None => None
  }

  /** The value of a string of digits, read left to right; `None` at a non-digit. */
  function ValueOf(s: string, radix: Radix): Option<nat>
    decreases |s|
  {
    if s == [] then Some(0)
    else
      var v :- ValueOf(s[..|s| - 1], radix);
      var d :- DigitValue(s[|s| - 1], radix);
      Some(v * radix + d)
  }

  lemma {:induction false} ValueOfDigits(s: string, radix: Radix)
    ensures ValueOf(s, radix) == if IsDigits(s, radix) then Some(DigitsValue(s, radix)) else None
    decreases |s|
  {
    if s != [] {
      var init := s[..|s| - 1];
      ValueOfDigits(init, radix);
      if IsDigits(s, radix) {
        assert IsDigits(init, radix) by {
          forall i | 0 <= i < |init| ensures DigitValue(init[i], radix).Some? {
            assert init[i] == s[i];
          }
        }
      } else if IsDigits(init, radix) && DigitValue(s[|s| - 1], radix).Some? {
        forall i | 0 <= i < |s| ensures DigitValue(s[i], radix).Some? {
          if i < |init| {
            assert init[i] == s[i];
          }
        }
        assert false;
      }
    }
  }

  /** `from_str_radix` in terms of the digit predicate and the denoted value. */
  lemma FromStrRadixDigits(s: string, radix: Radix, limit: nat)
    ensures FromStrRadix(s, radix, limit) ==
      var digits := if |s| > 0 && s[0] == '+' then s[1..] else s;
      if digits == [] || !IsDigits(digits, radix) then None
      else if DigitsValue(digits, radix) < limit then Some(DigitsValue(digits, radix))
      else None
  {
    ValueOfDigits(if |s| > 0 && s[0] == '+' then s[1..] else s, radix);
  }

  /** `u32::from_str_radix(s, 16)`. */
  function ParseU32(s: string): Option<nat> {
    FromStrRadix(s, 16, U32)
  }

  lemma TwoDigits(s: string)
    requires |s| == 2 && IsDigits(s, 16)
    ensures ParseU32(s) == Some(DigitValue(s[0], 16).value * 16 + DigitValue(s[1], 16).value)
  {
    FromStrRadixDigits(s, 16, U32);
    assert DigitValue(s[0], 16).Some?;
    assert s[0] != '+';
    assert s[..|s| - 1] == s[..1];
    assert s[..1][..0] == [];
    assert s[..1][0] == s[0];
    assert DigitsValue(s[..1], 16) == DigitValue(s[0], 16).value;
  }

  /** A two-character literal of hex digits. */
  lemma DigitPair(x: char, y: char)
    requires DigitValue(x, 16).Some? && DigitValue(y, 16).Some?
    ensures ParseU32([x, y]) == Some(DigitValue(x, 16).value * 16 + DigitValue(y, 16).value)
  {
    TwoDigits([x, y]);
  }

  /** An empty string does not parse, and a single digit is below 16. */
  lemma ShortParse(s: string)
    requires |s| <= 1
    ensures ParseU32(s).Some? ==> |s| == 1 && ParseU32(s).value < 16
  {
    FromStrRadixDigits(s, 16, U32);
    if |s| == 1 && s[0] != '+' && IsDigits(s, 16) {
      assert s[..|s| - 1] == [];
      assert DigitsValue(s, 16) == DigitValue(s[0], 16).value;
    }
  }

  /** The values of the hexadecimal offsets `read_exe_file` adds. */
  lemma HexLiteralValues()
    ensures ParseU32("6") == Some(0x6) && ParseU32("03") == Some(0x03)
    ensures ParseU32("08") == Some(0x08) && ParseU32("0f") == Some(0x0f)
    ensures ParseU32("15") == Some(0x15) && ParseU32("18") == Some(0x18)
    ensures ParseU32("28") == Some(0x28) && ParseU32("83") == Some(0x83)
  {
    FromStrRadixDigits("6", 16, U32);
    assert "6"[..0] == [];
    DigitPair('0', '3');
    DigitPair('0', '8');
    DigitPair('0', 'f');
    DigitPair('1', '5');
    DigitPair('1', '8');
    DigitPair('2', '8');
    DigitPair('8', '3');
  }

  /** The bounds of the printable range the byname tokeniser compares against. */
  lemma PrintableBounds()
    ensures ParseU32("21") == Some(0x21) && ParseU32("7e") == Some(0x7e)
  {
    DigitPair('2', '1');
    DigitPair('7', 'e');
  }

  lemma {:induction false} DigitsValueAppend(s: string, t: string, radix: Radix)
    requires IsDigits(s, radix) && IsDigits(t, radix)
    ensures IsDigits(s + t, radix)
    ensures DigitsValue(s + t, radix) == DigitsValue(s, radix) * Pow(radix, |t|) + DigitsValue(t, radix)
    decreases |t|
  {
    assert IsDigits(s + t, radix) by {
      forall i | 0 <= i < |s + t| ensures DigitValue((s + t)[i], radix).Some? {
        if i < |s| { assert (s + t)[i] == s[i]; } else { assert (s + t)[i] == t[i - |s|]; }
      }
    }
    if t == [] {
      assert s + t == s;
    } else {
      var t' := t[..|t| - 1];
      var d := DigitValue(t[|t| - 1], radix).value;
      assert IsDigits(t', radix);
      assert (s + t)[..|s + t| - 1] == s + t';
      assert (s + t)[|s + t| - 1] == t[|t| - 1];
      DigitsValueAppend(s, t', radix);
      var vs, vt', p' := DigitsValue(s, radix), DigitsValue(t', radix), Pow(radix, |t'|);
      assert DigitsValue(s + t, radix) == DigitsValue(s + t', radix) * radix + d;
      assert DigitsValue(s + t', radix) == vs * p' + vt';
      assert DigitsValue(t, radix) == vt' * radix + d;
      assert Pow(radix, |t|) == p' * radix;
      Distribute(vs, p', vt', radix, d);
    }
  }

  lemma Distribute(x: nat, p: nat, y: nat, r: nat, d: nat)
    ensures (x * p + y) * r + d == x * (p * r) + (y * r + d)
  {
  }

  lemma {:induction false} DigitsValueBound(s: string, radix: Radix)
    requires IsDigits(s, radix)
    ensures DigitsValue(s, radix) < Pow(radix, |s|)
    decreases |s|
  {
    if s != [] {
      var s' := s[..|s| - 1];
      DigitsValueBound(s', radix);
      var d := DigitValue(s[|s| - 1], radix).value;
      calc {
        DigitsValue(s, radix);
      ==
        DigitsValue(s', radix) * radix + d;
      <= { assert DigitsValue(s', radix) <= Pow(radix, |s'|) - 1; }
        (Pow(radix, |s'|) - 1) * radix + d;
      <
        Pow(radix, |s'|) * radix;
      }
    }
  }

  // ---------------------------------------------------------------------------------------
  // Formatting: `format!("{:X}")`, zero padding, `format!("{:02x}")`
  // ---------------------------------------------------------------------------------------

  function UpperDigit(d: nat): (c: char)
    requires d < 16
    ensures DigitValue(c, 16) == Some(d)
    ensures '0' <= c <= '9' || 'A' <= c <= 'F'
  {
    if d < 10 then ('0' as int + d) as char else ('A' as int + d - 10) as char
  }

  function LowerDigit(d: nat): (c: char)
    requires d < 16
    ensures DigitValue(c, 16) == Some(d)
    ensures '0' <= c <= '9' || 'a' <= c <= 'f'
  {
    if d < 10 then ('0' as int + d) as char else ('a' as int + d - 10) as char
  }

  predicate IsUpperHexText(s: string) {
    forall i :: 0 <= i < |s| ==> '0' <= s[i] <= '9' || 'A' <= s[i] <= 'F'
  }

  /** `format!("{:X}", n)`: upper-case hex without leading zeros ("0" for zero). */
  function UpperHex(n: nat): string
    decreases n
  {
    if n < 16 then [UpperDigit(n)] else UpperHex(n / 16) + [UpperDigit(n % 16)]
  }

  lemma {:induction false} UpperHexFacts(n: nat)
    ensures IsDigits(UpperHex(n), 16) && DigitsValue(UpperHex(n), 16) == n
    ensures IsUpperHexText(UpperHex(n)) && |UpperHex(n)| >= 1
    decreases n
  {
    if n >= 16 {
      UpperHexFacts(n / 16);
      var s := UpperHex(n);
      assert s[..|s| - 1] == UpperHex(n / 16);
      assert s[|s| - 1] == UpperDigit(n % 16);
    }
  }

  lemma {:induction false} UpperHexLength(n: nat, k: nat)
    requires k >= 1 && n < Pow(16, k)
    ensures |UpperHex(n)| <= k
    decreases k
  {
    if n >= 16 {
      assert n / 16 < Pow(16, k - 1);
      UpperHexLength(n / 16, k - 1);
    }
  }

  function Zeros(k: nat): (z: string)
    ensures |z| == k
  {
    seq(k, _ => '0')
  }

  /** The padding loop `while s.len() < 8 { s = format!("0{}", s) }`, as a result. */
  function PadTo8(s: string): string {
    if |s| >= 8 then s else Zeros(8 - |s|) + s
  }

  /** `format!("{:08X}", n)`, and what `add_hex` and `sub_hex` produce from a value. */
  function Hex08(n: nat): string {
    PadTo8(UpperHex(n))
  }

  lemma ZerosValue(k: nat)
    ensures IsDigits(Zeros(k), 16) && DigitsValue(Zeros(k), 16) == 0
  {
    if k > 0 {
      assert Zeros(k)[..k - 1] == Zeros(k - 1);
      ZerosValue(k - 1);
    }
  }

  lemma Hex08Digits(n: nat)
    ensures IsDigits(Hex08(n), 16) && DigitsValue(Hex08(n), 16) == n
    ensures IsUpperHexText(Hex08(n)) && |Hex08(n)| >= 8
  {
    var u := UpperHex(n);
    UpperHexFacts(n);
    if |u| < 8 {
      ZerosValue(8 - |u|);
      DigitsValueAppend(Zeros(8 - |u|), u, 16);
    }
  }

  /** A string of digits with no sign parses to the value it denotes, when that fits. */
  lemma ParseDigits(s: string, radix: Radix, limit: nat)
    requires |s| > 0 && IsDigits(s, radix) && DigitsValue(s, radix) < limit
    ensures FromStrRadix(s, radix, limit) == Some(DigitsValue(s, radix))
  {
    FromStrRadixDigits(s, radix, limit);
    assert DigitValue(s[0], radix).Some?;
  }

  /** The 8-digit padded hex of a 32-bit value is eight upper-case hex digits denoting it. */
  lemma Hex08Facts(n: nat)
    ensures IsDigits(Hex08(n), 16) && DigitsValue(Hex08(n), 16) == n
    ensures IsUpperHexText(Hex08(n)) && |Hex08(n)| >= 8
    ensures n < U32 ==> |Hex08(n)| == 8 && ParseU32(Hex08(n)) == Some(n)
  {
    Hex08Digits(n);
    if n < U32 {
      assert Pow(16, 8) == U32;
      UpperHexLength(n, 8);
      ParseDigits(Hex08(n), 16, U32);
    }
  }

  // ---------------------------------------------------------------------------------------
  // add_hex, add_hex_cycle, sub_hex
  // ---------------------------------------------------------------------------------------

  /** What `add_hex(a, b)` returns: both operands must parse as u32 and the sum must not
      overflow (a debug-mode panic otherwise). */
  function HexSum(a: string, b: string): Option<string> {
    var x :- ParseU32(a);
    var y :- ParseU32(b);
    if x + y < U32 then Some(Hex08(x + y)) else None
  }

  /** What `sub_hex(a, b)` returns: `a - b` panics when `b > a`. */
  function HexDiff(a: string, b: string): Option<string> {
    var x :- ParseU32(a);
    var y :- ParseU32(b);
    if y <= x then Some(Hex08(x - y)) else None
  }

  method AddHex(a: string, b: string) returns (r: Option<string>)
    ensures r == HexSum(a, b)
  {
    var x := ParseU32(a);
    var y := ParseU32(b);
    if x.None? || y.None? || x.value + y.value >= U32 {
      return None;
    }
    var sum := x.value + y.value;
    var s := UpperHex(sum);
    while |s| < 8
      invariant PadTo8(s) == Hex08(sum)
      decreases 8 - |s|
    {
      assert Zeros(8 - |s|) + s == Zeros(8 - |"0" + s|) + ("0" + s);
      s := "0" + s;
    }
    r := Some(s);
  }

  /** `add_hex_cycle` has the same body as `add_hex`. */
  method AddHexCycle(a: string, b: string) returns (r: Option<string>)
    ensures r == HexSum(a, b)
  {
    r := AddHex(a, b);
  }

  method SubHex(a: string, b: string) returns (r: Option<string>)
    ensures r == HexDiff(a, b)
  {
    var x := ParseU32(a);
    var y := ParseU32(b);
    if x.None? || y.None? || y.value > x.value {
      return None;
    }
    var diff := x.value - y.value;
    var s := UpperHex(diff);
    while |s| < 8
      invariant PadTo8(s) == Hex08(diff)
      decreases 8 - |s|
    {
      assert Zeros(8 - |s|) + s == Zeros(8 - |"0" + s|) + ("0" + s);
      s := "0" + s;
    }
    r := Some(s);
  }

  /** `add_hex` yields exactly when both operands parse and the sum fits in 32 bits, and then
      it is an 8-character upper-case hex string denoting the sum. */
  lemma HexSumMeaning(a: string, b: string)
    ensures HexSum(a, b).Some? <==>
      ParseU32(a).Some? && ParseU32(b).Some? && ParseU32(a).value + ParseU32(b).value < U32
    ensures HexSum(a, b).Some? ==>
      var s := HexSum(a, b).value;
      |s| == 8 && IsUpperHexText(s) && ParseU32(s) == Some(ParseU32(a).value + ParseU32(b).value)
  {
    if HexSum(a, b).Some? {
      Hex08Facts(ParseU32(a).value + ParseU32(b).value);
    }
  }

  /** `sub_hex` yields exactly when both operands parse and `b <= a`, and then it is an
      8-character upper-case hex string denoting the difference. */
  lemma HexDiffMeaning(a: string, b: string)
    ensures HexDiff(a, b).Some? <==>
      ParseU32(a).Some? && ParseU32(b).Some? && ParseU32(b).value <= ParseU32(a).value
    ensures HexDiff(a, b).Some? ==>
      var s := HexDiff(a, b).value;
      |s| == 8 && IsUpperHexText(s) && ParseU32(s) == Some(ParseU32(a).value - ParseU32(b).value)
  {
    if HexDiff(a, b).Some? {
      var x, y := ParseU32(a).value, ParseU32(b).value;
      var d: nat := x - y;
      assert HexDiff(a, b) == Some(Hex08(d));
      Hex08Facts(d);
    }
  }

  /** Subtracting what was added restores the value: `sub_hex(add_hex(a, b), b)` denotes `a`. */
  lemma SubAfterAdd(a: string, b: string)
    requires HexSum(a, b).Some?
    ensures HexDiff(HexSum(a, b).value, b) == Some(Hex08(ParseU32(a).value))
    ensures ParseU32(HexDiff(HexSum(a, b).value, b).value) == ParseU32(a)
  {
    var x, y := ParseU32(a).value, ParseU32(b).value;
    HexSumMeaning(a, b);
    var s := HexSum(a, b).value;
    assert ParseU32(s) == Some(x + y);
    HexDiffMeaning(s, b);
    assert HexDiff(s, b) == Some(Hex08(x));
  }

  // ---------------------------------------------------------------------------------------
  // position1, position2, hex_compare1, hex_compare2
  // ---------------------------------------------------------------------------------------

  /** `position1`: the first seven characters as a hex number (the matrix row). Slicing a
      shorter string panics. */
  function Position1(a: string): Option<nat> {
    if |a| < 7 then None else FromStrRadix(a[..7], 16, U64)
  }

  /** `position2`: the eighth character as a hex digit (the matrix column). */
  function Position2(a: string): Option<nat> {
    if |a| < 8 then None else FromStrRadix(a[7..8], 16, U64)
  }

  /** An 8-digit hex address splits into row = value / 16 and column = value % 16. */
  lemma {:induction false} PositionSplit(s: string)
    requires |s| == 8 && IsDigits(s, 16)
    ensures ParseU32(s).Some?
    ensures Position1(s).Some? && Position2(s).Some?
    ensures Position2(s).value < 16
    ensures Position1(s).value * 16 + Position2(s).value == ParseU32(s).value
  {
    var hi, lo := s[..7], s[7..8];
    assert s == hi + lo;
    assert IsDigits(hi, 16) && IsDigits(lo, 16);
    DigitsValueAppend(hi, lo, 16);
    DigitsValueBound(s, 16);
    DigitsValueBound(hi, 16);
    assert Pow(16, 8) == U32;
    assert Pow(16, 7) < U64;
    assert lo[..0] == [];
    FromStrRadixDigits(s, 16, U32);
    FromStrRadixDigits(hi, 16, U64);
    FromStrRadixDigits(lo, 16, U64);
  }

  /** The row and column of a padded 32-bit address `n` are `n / 16` and `n % 16`. */
  lemma PositionOfHex08(n: nat)
    requires n < U32
    ensures Position1(Hex08(n)) == Some(n / 16) && Position2(Hex08(n)) == Some(n % 16)
  {
    var s := Hex08(n);
    Hex08Facts(n);
    PositionSplit(s);
    DivModUnique(Position1(s).value, Position2(s).value, n);
  }

  lemma DivModUnique(q: nat, r: nat, n: nat)
    requires r < 16 && q * 16 + r == n
    ensures q == n / 16 && r == n % 16
  {
  }

  /** `hex_compare1(a, b)`: `a >= b` as u32 values. */
  function HexCompare1(a: string, b: string): Option<bool> {
    var x :- ParseU32(a);
    var y :- ParseU32(b);
    Some(x >= y)
  }

  /** `hex_compare2(a, b)`: `a <= b` as u32 values. */
  function HexCompare2(a: string, b: string): Option<bool> {
    var x :- ParseU32(a);
    var y :- ParseU32(b);
    Some(x <= y)
  }

  /** The two comparisons are mirror images, and both hold exactly for equal values. */
  lemma CompareBothIffEqual(a: string, b: string)
    ensures HexCompare1(a, b) == HexCompare2(b, a)
    ensures HexCompare1(a, b).Some? <==> ParseU32(a).Some? && ParseU32(b).Some?
    ensures HexCompare1(a, b) == Some(true) && HexCompare2(a, b) == Some(true) <==>
      ParseU32(a).Some? && ParseU32(b).Some? && ParseU32(a).value == ParseU32(b).value
  {
  }

  // ---------------------------------------------------------------------------------------
  // read_hex
  // ---------------------------------------------------------------------------------------

  /** What `read_hex(matrix, a, b, c)` returns: the concatenation of `a` cells starting at
      row `b`, column `c`, stepping left and wrapping from column 0 to column 15 of the row
      above. The row decrement follows every read, so a read of cell (0, 0) underflows. */
  function ReadBackward(matrix: Matrix, a: int, b: nat, c: nat): Option<string>
    decreases a
  {
    if a <= 0 then Some("")
    else if b >= |matrix| || c >= |matrix[b]| then None
    else if c == 0 && b == 0 then None
    else Prepend(matrix[b][c],
                 if c == 0 then ReadBackward(matrix, a - 1, b - 1, 15)
                 else ReadBackward(matrix, a - 1, b, c - 1))
  }

  method ReadHex(matrix: Matrix, a: int, b: nat, c: nat) returns (r: Option<string>)
    ensures r == ReadBackward(matrix, a, b, c)
  {
    var s := "";
    var row: nat, col: nat := b, c;
    var k := 0;
    while k < a
      invariant 0 <= k <= (if a < 0 then 0 else a)
      invariant ReadBackward(matrix, a, b, c) == Prepend(s, ReadBackward(matrix, a - k, row, col))
    {
      if row >= |matrix| || col >= |matrix[row]| {
        return None;
      }
      var cell := matrix[row][col];
      if col == 0 {
        if row == 0 {
          return None;
        }
        PrependTwice(s, cell, ReadBackward(matrix, a - k - 1, row - 1, 15));
        col := col + 15;
        row := row - 1;
      } else {
        PrependTwice(s, cell, ReadBackward(matrix, a - k - 1, row, col - 1));
        col := col - 1;
      }
      s := s + cell;
      k := k + 1;
    }
    assert s + "" == s;
    r := Some(s);
  }

  /** Every row holds 16 cells, as in the matrix the PE reader builds. */
  predicate Wide16(m: Matrix) {
    forall r :: 0 <= r < |m| ==> |m[r]| == 16
  }

  /** The cell at flat (row-major) index `i`. */
  function FlatCell(m: Matrix, i: nat): string
    requires Wide16(m) && i < 16 * |m|
  {
    m[i / 16][i % 16]
  }

  /** The cells at flat indices top, top - 1, ..., top - count + 1, concatenated. */
  function Backward(m: Matrix, top: nat, count: nat): string
    requires Wide16(m) && top < 16 * |m| && count <= top + 1
    decreases count
  {
    if count == 0 then ""
    else FlatCell(m, top) + (if count == 1 then "" else Backward(m, top - 1, count - 1))
  }

  /** `read_hex` on a 16-column matrix reads `a` consecutive cells ending at flat index
      `top` = 16b + c, high index first; it fails when the row is out of range or when the read
      reaches flat index 0 (the row decrement underflows). */
  lemma {:induction false} ReadBackwardFlat(m: Matrix, a: int, b: nat, c: nat, top: nat)
    requires Wide16(m) && c < 16 && a > 0 && top == 16 * b + c
    ensures ReadBackward(m, a, b, c) ==
      if b < |m| && a <= top then Some(Backward(m, top, a)) else None
    decreases a
  {
    if b < |m| && !(c == 0 && b == 0) {
      if a == 1 {
        ReadBackwardStep(m, a, b, c);
        BackwardStep(m, top, a, b, c);
      } else {
        var next := if c == 0 then ReadBackward(m, a - 1, b - 1, 15) else ReadBackward(m, a - 1, b, c - 1);
        ReadBackwardStep(m, a, b, c);
        if c == 0 {
          ReadBackwardFlat(m, a - 1, b - 1, 15, top - 1);
        } else {
          ReadBackwardFlat(m, a - 1, b, c - 1, top - 1);
        }
        ReadBackwardCons(m, a, b, c, top, next);
      }
    }
  }

  /** A read of more than one cell is the top cell followed by the rest of the read. */
  lemma ReadBackwardCons(m: Matrix, a: int, b: nat, c: nat, top: nat, next: Option<string>)
    requires Wide16(m) && b < |m| && c < 16 && 1 < a && top == 16 * b + c
    requires ReadBackward(m, a, b, c) == Prepend(m[b][c], next)
    requires next == if a <= top then Some(Backward(m, top - 1, a - 1)) else None
    ensures ReadBackward(m, a, b, c) == if a <= top then Some(Backward(m, top, a)) else None
  {
    if a <= top {
      BackwardStep(m, top, a, b, c);
    }
  }

  /** One step of `read_hex` inside the matrix. */
  lemma ReadBackwardStep(m: Matrix, a: int, b: nat, c: nat)
    requires Wide16(m) && b < |m| && c < 16 && !(c == 0 && b == 0) && a > 0
    ensures ReadBackward(m, a, b, c) ==
      Prepend(m[b][c], if c == 0 then ReadBackward(m, a - 1, b - 1, 15) else ReadBackward(m, a - 1, b, c - 1))
  {
    assert |m[b]| == 16;
  }

  /** The first cell of a backward read is the cell at its top index. */
  lemma BackwardStep(m: Matrix, top: nat, count: nat, b: nat, c: nat)
    requires Wide16(m) && b < |m| && c < 16 && top == 16 * b + c && 0 < count <= top + 1
    ensures Backward(m, top, count) == m[b][c] + (if count == 1 then "" else Backward(m, top - 1, count - 1))
  {
    assert top / 16 == b && top % 16 == c;
  }

  // ---------------------------------------------------------------------------------------
  // vec_to_string (and the `hex` crate's encode/decode it agrees with)
  // ---------------------------------------------------------------------------------------

  /** `format!("{:02x}", b)`. */
  function LowerHex2(b: Byte): string {
    [LowerDigit(b / 16), LowerDigit(b % 16)]
  }

  /** `format!("{:02X}", b)`. */
  function UpperHex2(b: Byte): string {
    [UpperDigit(b / 16), UpperDigit(b % 16)]
  }

  /** Two lower-case hex digits per byte: the output of `vec_to_string` and of `hex::encode`. */
  function HexEncode(bytes: seq<Byte>): string {
    if bytes == [] then "" else HexEncode(bytes[..|bytes| - 1]) + LowerHex2(bytes[|bytes| - 1])
  }

  method VecToString(bytes: seq<Byte>) returns (s: string)
    ensures s == HexEncode(bytes)
  {
    s := "";
    for i := 0 to |bytes|
      invariant s == HexEncode(bytes[..i])
    {
      assert bytes[..i + 1][..i] == bytes[..i];
      s := s + LowerHex2(bytes[i]);
    }
    assert bytes[..|bytes|] == bytes;
  }

  /** `hex::decode`: an even number of hex digits (either case), two per byte. */
  function HexDecode(s: string): Option<seq<Byte>>
    decreases |s|
  {
    if |s| % 2 == 1 then None
    else if s == [] then Some([])
    else
      var init :- HexDecode(s[..|s| - 2]);
      var hi :- DigitValue(s[|s| - 2], 16);
      var lo :- DigitValue(s[|s| - 1], 16);
      Some(init + [hi * 16 + lo])
  }

  /** Two characters per byte. */
  lemma {:induction false} HexEncodeLength(bytes: seq<Byte>)
    ensures |HexEncode(bytes)| == 2 * |bytes|
    decreases |bytes|
  {
    if bytes != [] {
      HexEncodeLength(bytes[..|bytes| - 1]);
    }
  }

  /** The encoding has two characters per byte, and decoding it gives the bytes back. */
  lemma {:induction false} HexEncodeRoundTrip(bytes: seq<Byte>)
    ensures |HexEncode(bytes)| == 2 * |bytes|
    ensures HexDecode(HexEncode(bytes)) == Some(bytes)
    decreases |bytes|
  {
    if bytes != [] {
      var init := bytes[..|bytes| - 1];
      var b := bytes[|bytes| - 1];
      HexEncodeRoundTrip(init);
      var s := HexEncode(bytes);
      assert s[..|s| - 2] == HexEncode(init);
      assert s[|s| - 2] == LowerDigit(b / 16) && s[|s| - 1] == LowerDigit(b % 16);
      assert init + [b] == bytes;
    }
  }

  // ---------------------------------------------------------------------------------------
  // fuzzy_search
  // ---------------------------------------------------------------------------------------

  function LowerChar(c: char): char {
    if 'A' <= c <= 'Z' then (c as int + 32) as char else c
  }

  /** `to_lowercase`, restricted to the ASCII letters. */
  function ToLower(s: string): (r: string)
    ensures |r| == |s|
  {
    seq(|s|, i requires 0 <= i < |s| => LowerChar(s[i]))
  }

  /** `str::contains`: try each start position from the left. */
  predicate Contains(hay: string, needle: string)
    decreases |hay|
  {
    |needle| <= |hay| && (hay[..|needle|] == needle || (|hay| > 0 && Contains(hay[1..], needle)))
  }

  predicate OccursAt(hay: string, needle: string, i: int) {
    0 <= i && i + |needle| <= |hay| && hay[i..i + |needle|] == needle
  }

  lemma {:induction false} ContainsIffOccurs(hay: string, needle: string)
    ensures Contains(hay, needle) <==> exists i :: OccursAt(hay, needle, i)
    decreases |hay|
  {
    if Contains(hay, needle) {
      if hay[..|needle|] == needle {
        assert OccursAt(hay, needle, 0);
      } else {
        ContainsIffOccurs(hay[1..], needle);
        var i :| OccursAt(hay[1..], needle, i);
        assert hay[1..][i..i + |needle|] == hay[i + 1..i + 1 + |needle|];
        assert OccursAt(hay, needle, i + 1);
      }
    }
    if exists i :: OccursAt(hay, needle, i) {
      var i :| OccursAt(hay, needle, i);
      if i > 0 {
        assert hay[1..][i - 1..i - 1 + |needle|] == hay[i..i + |needle|];
        assert OccursAt(hay[1..], needle, i - 1);
        ContainsIffOccurs(hay[1..], needle);
      } else {
        assert hay[..|needle|] == needle;
      }
    }
  }

  /** `fuzzy_search(query, target)`: the lower-cased target is a substring of the lower-cased
      query. */
  function FuzzySearch(query: string, target: string): bool {
    Contains(ToLower(query), ToLower(target))
  }

  /** `fuzzy_search` holds exactly when the lower-cased target occurs somewhere in the
      lower-cased query; in particular an empty target always matches. */
  lemma FuzzySearchMeaning(query: string, target: string)
    ensures FuzzySearch(query, target) <==> exists i :: OccursAt(ToLower(query), ToLower(target), i)
    ensures target == "" ==> FuzzySearch(query, target)
  {
    ContainsIffOccurs(ToLower(query), ToLower(target));
    if target == "" {
      assert OccursAt(ToLower(query), ToLower(target), 0);
    }
  }
}
