/** What the section choice, the RVA translation and the import chain of `read_exe_file`
    compute, stated over the numbers the section table holds. */
module PeImports {
  import opened Options
  import opened PeTools
  import opened PeRead

  /** Every entry of the table is a pair of 32-bit hex numbers [VirtualAddress,
      PointerToRawData]. */
  predicate Parsed(table: seq<seq<string>>) {
    forall j :: 0 <= j < |table| ==>
      |table[j]| == 2 && ParseU32(table[j][0]).Some? && ParseU32(table[j][1]).Some?
  }

  function Va(table: seq<seq<string>>, j: nat): nat
    requires Parsed(table) && j < |table|
  {
    ParseU32(table[j][0]).value
  }

  function Raw(table: seq<seq<string>>, j: nat): nat
    requires Parsed(table) && j < |table|
  {
    ParseU32(table[j][1]).value
  }

  /** One step of the scan over a parsed table. */
  lemma FirstAboveStep(rva: string, table: seq<seq<string>>, i: nat)
    requires Parsed(table) && ParseU32(rva).Some? && i < |table|
    ensures FirstAbove(rva, table, i) ==
      if Va(table, i) > ParseU32(rva).value then Some(i) else FirstAbove(rva, table, i + 1)
  {
  }

  /** No entry from `i` on has a VirtualAddress above `v`. */
  predicate NoneAbove(table: seq<seq<string>>, i: nat, v: nat)
    requires Parsed(table)
  {
    forall j :: i <= j < |table| ==> Va(table, j) <= v
  }

  /** Entry `r` is the first entry from `i` on whose VirtualAddress is above `v`. */
  predicate FirstOver(table: seq<seq<string>>, i: nat, r: nat, v: nat)
    requires Parsed(table) && r < |table|
  {
    Va(table, r) > v && forall j :: i <= j < r ==> Va(table, j) <= v
  }

  /** The section scan from index `i` finds an entry exactly when some entry from `i` on has a
      VirtualAddress above the RVA, and it finds the first such entry. */
  lemma {:induction false} FirstAboveMeaning(rva: string, table: seq<seq<string>>, i: nat)
    requires Parsed(table) && ParseU32(rva).Some? && i <= |table|
    ensures FirstAbove(rva, table, i).None? <==> NoneAbove(table, i, ParseU32(rva).value)
    ensures FirstAbove(rva, table, i).Some? ==>
      FirstOver(table, i, FirstAbove(rva, table, i).value, ParseU32(rva).value)
    decreases |table| - i
  {
    if i < |table| {
      FirstAboveStep(rva, table, i);
      FirstAboveMeaning(rva, table, i + 1);
    }
  }

  /** An RVA that does not parse stops the scan. */
  lemma FirstAboveNeedsRva(rva: string, table: seq<seq<string>>, i: nat)
    requires ParseU32(rva).None?
    ensures FirstAbove(rva, table, i) == None
  {
  }

  /** `add_hex(sub_hex(v, VirtualAddress), PointerToRawData)` succeeds exactly when all three
      parse, `v` is at least the VirtualAddress and the sum stays below 2^32, and it gives
      `v - VirtualAddress + PointerToRawData` as eight hex digits. */
  lemma TranslateMeaning(v: string, sec: seq<string>)
    ensures Translate(v, sec).Some? <==>
      |sec| >= 2 && ParseU32(v).Some? && ParseU32(sec[0]).Some? && ParseU32(sec[1]).Some? &&
      ParseU32(sec[0]).value <= ParseU32(v).value &&
      ParseU32(v).value - ParseU32(sec[0]).value + ParseU32(sec[1]).value < U32
    ensures Translate(v, sec).Some? ==>
      Translate(v, sec).value == Hex08(ParseU32(v).value - ParseU32(sec[0]).value + ParseU32(sec[1]).value)
  {
    if |sec| >= 2 && ParseU32(v).Some? && ParseU32(sec[0]).Some? && ParseU32(sec[1]).Some? &&
       ParseU32(sec[0]).value <= ParseU32(v).value {
      TranslateParsed(v, sec[0], sec[1], ParseU32(v).value, ParseU32(sec[0]).value, ParseU32(sec[1]).value);
    }
  }

  lemma TranslateParsed(v: string, va: string, raw: string, x: nat, y: nat, z: nat)
    requires ParseU32(v) == Some(x) && ParseU32(va) == Some(y) && ParseU32(raw) == Some(z) && y <= x
    ensures Translate(v, [va, raw]) == if x - y + z < U32 then Some(Hex08(x - y + z)) else None
  {
    assert HexDiff(v, va) == Some(Hex08(x - y));
    Hex08Facts(x - y);
  }

  /** The import chain fails when the import directory RVA lies below the first section or at
      or above the VirtualAddress of every section, the last one included. */
  lemma ResolveImportsOutside(m: Matrix, s5: string, table: seq<seq<string>>)
    requires Parsed(table) && ParseU32(s5).Some?
    requires |table| == 0 || ParseU32(s5).value < Va(table, 0) || NoneAbove(table, 0, ParseU32(s5).value)
    ensures ResolveImports(m, s5, table) == None
  {
    FirstAboveMeaning(s5, table, 0);
    if |table| > 0 && ParseU32(s5).value < Va(table, 0) {
      FirstAboveStep(s5, table, 0);
    }
  }

  /** Entry `k` is where the scan places `v`: every VirtualAddress up to entry `k` is at most
      `v`, and the next entry's is above it. */
  predicate InSection(table: seq<seq<string>>, k: nat, v: nat)
    requires Parsed(table)
  {
    k + 1 < |table| && FirstOver(table, 0, k + 1, v)
  }

  /** The three translations of the import chain all go through the entry `sec`. */
  predicate ImportsThrough(s5: string, r: Imports, sec: seq<string>) {
    Translate(s5, sec) == Some(r.descriptorOffset) &&
    Translate(r.thunkRva, sec) == Some(r.thunkOffset) &&
    Translate(r.nameRva, sec) == Some(r.nameOffset)
  }

  /** A successful hop translates the RVA it read through the entry it was given. */
  lemma HopThrough(m: Matrix, offset: string, sec: seq<string>)
    requires Hop(m, offset, sec).Some?
    ensures Translate(Hop(m, offset, sec).value.0, sec) == Some(Hop(m, offset, sec).value.1)
  {
  }

  lemma ImportChainThrough(m: Matrix, s5: string, sec: seq<string>)
    requires ImportChain(m, s5, sec).Some?
    ensures ImportsThrough(s5, ImportChain(m, s5, sec).value, sec)
  {
    HopThrough(m, Translate(s5, sec).value, sec);
    HopThrough(m, Hop(m, Translate(s5, sec).value, sec).value.1, sec);
  }

  /** When the import chain succeeds, the import directory RVA lies in section entry `k`, and
      all three RVAs of the chain are translated through that same entry. */
  lemma ResolveImportsSection(m: Matrix, s5: string, table: seq<seq<string>>)
    requires Parsed(table) && ResolveImports(m, s5, table).Some?
    ensures ParseU32(s5).Some?
    ensures exists k :: (0 <= k < |table| - 1 && InSection(table, k, ParseU32(s5).value) &&
      ImportsThrough(s5, ResolveImports(m, s5, table).value, table[k]))
  {
    if ParseU32(s5).None? {
      FirstAboveNeedsRva(s5, table, 0);
    } else {
      FirstAboveMeaning(s5, table, 0);
      ImportChainThrough(m, s5, table[FirstAbove(s5, table, 0).value - 1]);
      assert InSection(table, FirstAbove(s5, table, 0).value - 1, ParseU32(s5).value);
    }
  }
}
