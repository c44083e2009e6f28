/** Little-endian fields of a byte sequence and the hex text `read_hex` returns for them:
    reading `count` cells downwards from the cell of byte `top` gives the digits of the
    little-endian value of the `count` bytes ending at `top`. */
module PeFields {
  import opened Options
  import opened PeTools

  /** The unsigned little-endian value of the `n` bytes starting at offset `at`. */
  function LE(bytes: seq<Byte>, at: nat, n: nat): nat
    requires at + n <= |bytes|
    decreases n
  {
    if n == 0 then 0 else bytes[at] + 256 * LE(bytes, at + 1, n - 1)
  }

  lemma {:induction false} LEBound(bytes: seq<Byte>, at: nat, n: nat)
    requires at + n <= |bytes|
    ensures LE(bytes, at, n) < Pow(256, n)
    decreases n
  {
    if n > 0 {
      LEBound(bytes, at + 1, n - 1);
    }
  }

  lemma {:induction false} PowSquare(k: nat)
    ensures Pow(16, 2 * k) == Pow(256, k)
    decreases k
  {
    if k > 0 {
      PowSquare(k - 1);
      assert Pow(16, 2 * k) == 16 * (16 * Pow(16, 2 * (k - 1)));
    }
  }

  lemma LowerHex2Value(b: Byte)
    ensures IsDigits(LowerHex2(b), 16) && DigitsValue(LowerHex2(b), 16) == b
  {
    var s := LowerHex2(b);
    assert DigitValue(s[0], 16) == Some(b / 16) && DigitValue(s[1], 16) == Some(b % 16);
    assert s[..1][..0] == [];
    assert DigitsValue(s[..1], 16) == b / 16;
  }

  /** The first `n` flat cells of `m` are the bytes `bytes[..n]`, as two hex digits each. */
  predicate Holds(m: Matrix, bytes: seq<Byte>, n: nat) {
    Wide16(m) && n <= 16 * |m| && n <= |bytes| &&
    forall i :: 0 <= i < n ==> FlatCell(m, i) == LowerHex2(bytes[i])
  }

  /** The top byte of a little-endian field is its most significant one. */
  lemma {:induction false} LEHigh(bytes: seq<Byte>, at: nat, n: nat)
    requires 0 < n && at + n <= |bytes|
    ensures LE(bytes, at, n) == LE(bytes, at, n - 1) + bytes[at + n - 1] * Pow(256, n - 1)
    decreases n
  {
    if n > 1 {
      LEHigh(bytes, at + 1, n - 1);
      var x, y, t := bytes[at], LE(bytes, at + 1, n - 2), bytes[at + n - 1];
      ShiftHigh(x, y, t, Pow(256, n - 2));
    }
  }

  lemma ShiftHigh(x: nat, y: nat, t: nat, p: nat)
    ensures x + 256 * (y + t * p) == (x + 256 * y) + t * (256 * p)
  {
  }

  /** Putting the top byte's two digits in front of the digits of the `count - 1` bytes below
      it gives the digits of the `count`-byte little-endian field. */
  lemma StepValue(bytes: seq<Byte>, top: nat, count: nat, rest: string)
    requires 0 < count <= top + 1 && top < |bytes|
    requires |rest| == 2 * (count - 1) && IsDigits(rest, 16)
    requires DigitsValue(rest, 16) == LE(bytes, top + 1 - count, count - 1)
    ensures |LowerHex2(bytes[top]) + rest| == 2 * count
    ensures IsDigits(LowerHex2(bytes[top]) + rest, 16)
    ensures DigitsValue(LowerHex2(bytes[top]) + rest, 16) == LE(bytes, top + 1 - count, count)
  {
    LowerHex2Value(bytes[top]);
    DigitsValueAppend(LowerHex2(bytes[top]), rest, 16);
    PowSquare(count - 1);
    LEHigh(bytes, top + 1 - count, count);
  }

  /** `s` is the hex text, `2 * k` digits long, of the value `v`. */
  predicate Denotes(s: string, k: nat, v: nat) {
    |s| == 2 * k && IsDigits(s, 16) && DigitsValue(s, 16) == v
  }

  /** One more cell on top of a `Backward` read adds the top byte as the most significant. */
  lemma StepBackward(m: Matrix, bytes: seq<Byte>, n: nat, top: nat, count: nat, rest: string)
    requires Holds(m, bytes, n) && top < n && 0 < count <= top + 1
    requires rest == if count == 1 then "" else Backward(m, top - 1, count - 1)
    requires Denotes(rest, count - 1, LE(bytes, top + 1 - count, count - 1))
    ensures Denotes(Backward(m, top, count), count, LE(bytes, top + 1 - count, count))
  {
    assert Backward(m, top, count) == LowerHex2(bytes[top]) + rest;
    StepValue(bytes, top, count, rest);
  }

  /** The cells at flat indices top, top - 1, ..., top - count + 1, read as one hex number,
      are the little-endian value of the bytes ending at `top`. */
  lemma {:induction false} BackwardValue(m: Matrix, bytes: seq<Byte>, n: nat, top: nat, count: nat)
    requires Holds(m, bytes, n) && top < n && count <= top + 1
    ensures Denotes(Backward(m, top, count), count, LE(bytes, top + 1 - count, count))
    decreases count
  {
    if count > 1 {
      BackwardValue(m, bytes, n, top - 1, count - 1);
      StepBackward(m, bytes, n, top, count, Backward(m, top - 1, count - 1));
    } else if count == 1 {
      StepBackward(m, bytes, n, top, count, "");
    }
  }

  /** Up to four bytes' worth of hex text parses as a 32-bit value. */
  lemma FieldValue(m: Matrix, bytes: seq<Byte>, n: nat, top: nat, width: nat)
    requires Holds(m, bytes, n) && top < n && 0 < width <= 4 && width <= top + 1
    ensures ParseU32(Backward(m, top, width)) == Some(LE(bytes, top + 1 - width, width))
  {
    assert LE(bytes, top + 1 - width, width) < U32 by {
      FieldBound(bytes, top + 1 - width, width);
    }
    assert Denotes(Backward(m, top, width), width, LE(bytes, top + 1 - width, width)) by {
      BackwardValue(m, bytes, n, top, width);
    }
    DenotesParse(Backward(m, top, width), width, LE(bytes, top + 1 - width, width));
  }

  lemma FieldBound(bytes: seq<Byte>, at: nat, width: nat)
    requires width <= 4 && at + width <= |bytes|
    ensures LE(bytes, at, width) < U32
  {
    LEBound(bytes, at, width);
    PowMono(256, width, 4);
    assert Pow(256, 4) == U32;
  }

  lemma DenotesParse(s: string, k: nat, v: nat)
    requires 0 < k && v < U32 && Denotes(s, k, v)
    ensures ParseU32(s) == Some(v)
  {
    ParseDigits(s, 16, U32);
  }

  lemma {:induction false} PowMono(b: nat, i: nat, j: nat)
    requires 0 < b && i <= j
    ensures Pow(b, i) <= Pow(b, j)
    decreases j
  {
    if i < j {
      PowMono(b, i, j - 1);
      assert Pow(b, j) == b * Pow(b, j - 1);
      Grow(b, Pow(b, j - 1));
    }
  }

  lemma Grow(b: nat, x: nat)
    requires 0 < b
    ensures x <= b * x
  {
  }
}
