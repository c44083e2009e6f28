/** The hex viewer and byte editor of `pe_service.rs`: the uploaded buffer shown as groups of
    16 bytes, the current upload held in one slot, the edit of a byte by its index, and the
    reassembly of the edited groups into a download. */
module PeView {
  import opened Options
  import opened PeTools

  datatype ByteInformation = ByteInformation(index: nat, bytes: string)

  datatype AddressGroup = AddressGroup(address: string, bytes: seq<ByteInformation>, translation: string)

  datatype UploadFileInfo = UploadFileInfo(
    fileId: string,
    fileName: string,
    fileSize: string,
    addressGroupInformation: seq<AddressGroup>)

  // ---------------------------------------------------------------------------------------
  // get_address_group_information_from_file_buf
  // ---------------------------------------------------------------------------------------

  /** The character shown for a byte: the byte itself from 33 to 126, '.' otherwise. */
  function Glyph(b: Byte): char {
    if 33 <= b <= 126 then b as char else '.'
  }

  /** `ceil(n / 16)`. */
  function GroupCount(n: nat): nat {
    (n + 15) / 16
  }

  /** The indices the filter keeps: those from `start` to `end` that lie in a buffer of `n`
      bytes, ascending. */
  function Window(n: nat, start: nat, end: nat): seq<nat> {
    var stop := if end + 1 < n then end + 1 else n;
    if stop <= start then [] else seq(stop - start, k => start + k)
  }

  /** The group the mapping closure builds for `index` (counted from 1). */
  function Group(buf: seq<Byte>, index: nat): AddressGroup
    requires index >= 1
  {
    var endByteIndex := index * 16 - 1;
    var startByteIndex := endByteIndex - 15;
    var kept := Window(|buf|, startByteIndex, endByteIndex);
    AddressGroup(
      Hex08(startByteIndex),
      seq(|kept|, k requires 0 <= k < |kept| => ByteInformation(kept[k], UpperHex2(buf[kept[k]]))),
      seq(|kept|, k requires 0 <= k < |kept| => Glyph(buf[kept[k]])))
  }

  /** The groups for `index` in `1..ceil(n / 16)`, in index order. */
  function AddressGroups(buf: seq<Byte>): seq<AddressGroup> {
    var num := GroupCount(|buf|);
    if num <= 1 then [] else seq(num - 1, r requires 0 <= r => Group(buf, r + 1))
  }

  /** The view leaves out the last group of 16 bytes (or fewer): it has `ceil(n / 16) - 1`
      groups, covering all but the last 1 to 16 bytes of a non-empty buffer. */
  lemma GroupsCount(buf: seq<Byte>)
    ensures |AddressGroups(buf)| == if buf == [] then 0 else GroupCount(|buf|) - 1
    ensures buf != [] ==> 16 * |AddressGroups(buf)| < |buf| <= 16 * |AddressGroups(buf)| + 16
  {
  }

  /** Group `r` holds exactly the bytes `16 r .. 16 r + 15`, each with its absolute index and
      its two upper-case hex digits; its address is the 8-digit hex of `16 r` and its
      translation has one character per byte. */
  lemma GroupLayout(buf: seq<Byte>, r: nat)
    requires r < |AddressGroups(buf)|
    ensures |AddressGroups(buf)[r].bytes| == 16 && |AddressGroups(buf)[r].translation| == 16
    ensures AddressGroups(buf)[r].address == Hex08(16 * r)
    ensures forall k :: 0 <= k < 16 ==>
      AddressGroups(buf)[r].bytes[k] == ByteInformation(16 * r + k, UpperHex2(buf[16 * r + k])) &&
      AddressGroups(buf)[r].translation[k] == Glyph(buf[16 * r + k])
  {
    assert 16 * (r + 1) < |buf|;
  }

  // ---------------------------------------------------------------------------------------
  // The order of the groups
  // ---------------------------------------------------------------------------------------

  /** `String::cmp` on text: lexicographic by character. */
  predicate LexLess(a: string, b: string)
    decreases |a|
  {
    if a == [] then b != []
    else b != [] && (a[0] < b[0] || (a[0] == b[0] && LexLess(a[1..], b[1..])))
  }

  /** On upper-case hex digits the character order is the order of the digit values. */
  lemma DigitOrder(a: char, b: char)
    requires ('0' <= a <= '9' || 'A' <= a <= 'F') && ('0' <= b <= '9' || 'A' <= b <= 'F')
    ensures DigitValue(a, 16).Some? && DigitValue(b, 16).Some?
    ensures a < b <==> DigitValue(a, 16).value < DigitValue(b, 16).value
    ensures a == b <==> DigitValue(a, 16).value == DigitValue(b, 16).value
  {
  }

  /** The value of a string of digits is its first digit's weight plus the value of the rest. */
  lemma LeadingDigit(s: string)
    requires |s| > 0 && IsDigits(s, 16)
    ensures IsDigits(s[1..], 16)
    ensures DigitsValue(s, 16) == DigitValue(s[0], 16).value * Pow(16, |s| - 1) + DigitsValue(s[1..], 16)
    ensures DigitsValue(s[1..], 16) < Pow(16, |s| - 1)
  {
    var head := s[..1];
    assert head[..0] == [];
    assert IsDigits(head, 16);
    assert IsDigits(s[1..], 16) by {
      forall i | 0 <= i < |s[1..]| ensures DigitValue(s[1..][i], 16).Some? {
        assert s[1..][i] == s[i + 1];
      }
    }
    assert head + s[1..] == s;
    DigitsValueAppend(head, s[1..], 16);
    DigitsValueBound(s[1..], 16);
  }

  /** A leading digit outweighs everything after it. */
  lemma WeightOrder(ds: nat, dt: nat, p: nat, x: nat, y: nat)
    requires x < p && y < p && ds * p + x < dt * p + y
    ensures ds <= dt
  {
    if ds > dt {
      Scale(ds, dt + 1, p);
    }
  }

  /** Multiplying by the same weight keeps the order of the digits. */
  lemma Scale(a: nat, b: nat, p: nat)
    requires a >= b
    ensures a * p >= b * p
    ensures (b + 1) * p == b * p + p
  {
  }

  lemma UpperTail(s: string)
    requires |s| > 0 && IsUpperHexText(s)
    ensures IsUpperHexText(s[1..])
  {
    forall i | 0 <= i < |s[1..]| ensures '0' <= s[1..][i] <= '9' || 'A' <= s[1..][i] <= 'F' {
      assert s[1..][i] == s[i + 1];
    }
  }

  /** Among upper-case hex strings of one length, a smaller value is lexicographically
      smaller. */
  lemma {:induction false} ValueOrder(s: string, t: string)
    requires |s| == |t| && IsUpperHexText(s) && IsUpperHexText(t)
    requires IsDigits(s, 16) && IsDigits(t, 16) && DigitsValue(s, 16) < DigitsValue(t, 16)
    ensures LexLess(s, t)
    decreases |s|
  {
    if s != [] {
      LeadingDigit(s);
      LeadingDigit(t);
      DigitOrder(s[0], t[0]);
      WeightOrder(DigitValue(s[0], 16).value, DigitValue(t[0], 16).value, Pow(16, |s| - 1),
                  DigitsValue(s[1..], 16), DigitsValue(t[1..], 16));
      if s[0] == t[0] {
        UpperTail(s);
        UpperTail(t);
        ValueOrder(s[1..], t[1..]);
      }
    }
  }

  /** The addresses come out strictly ascending in `String` order, so sorting the groups by
      address leaves them where they are, for buffers of up to 4 GiB. */
  lemma AddressesAscending(buf: seq<Byte>, i: nat, j: nat)
    requires |buf| <= U32 && i < j < |AddressGroups(buf)|
    ensures LexLess(AddressGroups(buf)[i].address, AddressGroups(buf)[j].address)
  {
    GroupLayout(buf, i);
    GroupLayout(buf, j);
    Hex08Facts(16 * i);
    Hex08Facts(16 * j);
    ValueOrder(Hex08(16 * i), Hex08(16 * j));
  }

  // ---------------------------------------------------------------------------------------
  // download_current_file: the reassembly
  // ---------------------------------------------------------------------------------------

  /** `u8::from_str_radix(s, 16)`. */
  function ParseU8(s: string): Option<nat> {
    FromStrRadix(s, 16, U8)
  }

  /** `u8::from_str_radix(&item.bytes, 16).unwrap_or(0)`. */
  function ByteOf(e: ByteInformation): Byte {
    ParseU8(e.bytes).GetOr(0)
  }

  function GroupBytes(entries: seq<ByteInformation>): (r: seq<Byte>)
    ensures |r| == |entries|
  {
    seq(|entries|, k requires 0 <= k < |entries| => ByteOf(entries[k]))
  }

  /** All groups' bytes, in order. */
  function Flatten(groups: seq<AddressGroup>): seq<Byte> {
    if groups == [] then []
    else Flatten(groups[..|groups| - 1]) + GroupBytes(groups[|groups| - 1].bytes)
  }

  /** The download: "unknown" and nothing without a current file, otherwise its name and
      its groups flattened. */
  function Download(current: Option<UploadFileInfo>): (string, seq<Byte>) {
    match current
    case None => ("unknown", [])
    case Some(file) => (file.fileName, Flatten(file.addressGroupInformation))
  }

  /** Two upper-case hex digits parse back to the byte. */
  lemma UpperHex2RoundTrip(b: Byte)
    ensures ParseU8(UpperHex2(b)) == Some(b)
  {
    var s := UpperHex2(b);
    assert IsDigits(s, 16);
    assert s[..1][..0] == [] && s[..|s| - 1] == s[..1];
    assert DigitsValue(s[..1], 16) == b / 16;
    assert DigitsValue(s, 16) == b / 16 * 16 + b % 16;
    ParseDigits(s, 16, U8);
  }

  /** Every group holds 16 entries. */
  predicate Full(groups: seq<AddressGroup>) {
    forall r :: 0 <= r < |groups| ==> |groups[r].bytes| == 16
  }

  /** Flattening full groups puts entry `j % 16` of group `j / 16` at position `j`. */
  lemma {:induction false} FlattenIndex(groups: seq<AddressGroup>)
    requires Full(groups)
    ensures |Flatten(groups)| == 16 * |groups|
    ensures forall j :: 0 <= j < 16 * |groups| ==> Flatten(groups)[j] == ByteOf(groups[j / 16].bytes[j % 16])
    decreases |groups|
  {
    if groups != [] {
      var n := |groups| - 1;
      var init := groups[..n];
      FlattenIndex(init);
      forall j | 0 <= j < 16 * |groups| ensures Flatten(groups)[j] == ByteOf(groups[j / 16].bytes[j % 16]) {
        if j < 16 * n {
          assert init[j / 16] == groups[j / 16];
        } else {
          assert j / 16 == n && j % 16 == j - 16 * n;
        }
      }
    }
  }

  /** Entry `j % 16` of group `j / 16` of the view is byte `j` of the buffer. */
  lemma ViewEntries(buf: seq<Byte>)
    ensures Full(AddressGroups(buf)) && 16 * |AddressGroups(buf)| <= |buf|
    ensures forall j :: 0 <= j < 16 * |AddressGroups(buf)| ==>
      AddressGroups(buf)[j / 16].bytes[j % 16] == ByteInformation(j, UpperHex2(buf[j]))
  {
    var view := AddressGroups(buf);
    forall r | 0 <= r < |view| ensures |view[r].bytes| == 16 {
      GroupLayout(buf, r);
    }
    forall j | 0 <= j < 16 * |view| ensures view[j / 16].bytes[j % 16] == ByteInformation(j, UpperHex2(buf[j])) {
      GroupLayout(buf, j / 16);
      assert 16 * (j / 16) + j % 16 == j;
    }
  }

  /** Reassembling an unedited view gives the buffer back less its last group: the first
      `16 (ceil(n / 16) - 1)` bytes. */
  lemma FlattenView(buf: seq<Byte>)
    ensures Flatten(AddressGroups(buf)) == buf[..16 * |AddressGroups(buf)|]
  {
    var view := AddressGroups(buf);
    ViewEntries(buf);
    FlattenIndex(view);
    forall j | 0 <= j < 16 * |view| ensures Flatten(view)[j] == buf[j] {
      UpperHex2RoundTrip(buf[j]);
    }
  }

  lemma DownloadView(fileId: string, fileName: string, fileSize: string, buf: seq<Byte>)
    ensures Download(Some(UploadFileInfo(fileId, fileName, fileSize, AddressGroups(buf)))) ==
      (fileName, buf[..16 * |AddressGroups(buf)|])
  {
    FlattenView(buf);
  }

  // ---------------------------------------------------------------------------------------
  // update_file_byte: the edit
  // ---------------------------------------------------------------------------------------

  /** `u64::from_str_radix(s, 16)`. */
  function ParseU64(s: string): Option<nat> {
    FromStrRadix(s, 16, U64)
  }

  /** Every entry whose index is `target` gets the text `value`; the others stay. */
  function EditEntries(entries: seq<ByteInformation>, target: nat, value: string): (r: seq<ByteInformation>)
    ensures |r| == |entries|
  {
    seq(|entries|, k requires 0 <= k < |entries| =>
      if entries[k].index == target then entries[k].(bytes := value) else entries[k])
  }

  function Edit(groups: seq<AddressGroup>, target: nat, value: string): (r: seq<AddressGroup>)
    ensures |r| == |groups|
  {
    seq(|groups|, g requires 0 <= g < |groups| =>
      groups[g].(bytes := EditEntries(groups[g].bytes, target, value)))
  }

  /** Whether any group has an entry: the index text is parsed (and may panic) once per entry. */
  predicate HasEntries(groups: seq<AddressGroup>) {
    exists g :: 0 <= g < |groups| && |groups[g].bytes| > 0
  }

  /** Editing the view and then downloading it sets exactly the byte at the edited index
      (to the value the new text parses to, or 0), when that byte is shown. */
  lemma EditView(buf: seq<Byte>, target: nat, value: string)
    ensures Flatten(Edit(AddressGroups(buf), target, value)) ==
      var n := 16 * |AddressGroups(buf)|;
      if target < n then buf[..n][target := ParseU8(value).GetOr(0)] else buf[..n]
  {
    var view := AddressGroups(buf);
    var edited := Edit(view, target, value);
    var n := 16 * |view|;
    ViewEntries(buf);
    assert Full(edited);
    FlattenIndex(edited);
    var want := if target < n then buf[..n][target := ParseU8(value).GetOr(0)] else buf[..n];
    forall j | 0 <= j < n ensures Flatten(edited)[j] == want[j] {
      UpperHex2RoundTrip(buf[j]);
      assert edited[j / 16].bytes[j % 16] ==
        if j == target then ByteInformation(j, value) else ByteInformation(j, UpperHex2(buf[j]));
    }
  }

  /** The result of an edit request. */
  datatype Outcome = Success | Failure(msg: string) | Panicked

  const NoFileMessage: string := "索引信息为空，请重新上传文件!"

  // ---------------------------------------------------------------------------------------
  // The current upload
  // ---------------------------------------------------------------------------------------

  /** The `UPLOAD_FILE_INFO` slot: the file the viewer and editor work on, if any. */
  class UploadSlot {
    var current: Option<UploadFileInfo>

    constructor()
      ensures current == None
    {
      current := None;
    }

    /** The store at the end of `upload` (and of `init_upload_file`). */
    method Store(fileId: string, fileName: string, fileSize: string, buf: seq<Byte>)
      modifies this
      ensures current == Some(UploadFileInfo(fileId, fileName, fileSize, AddressGroups(buf)))
    {
      current := Some(UploadFileInfo(fileId, fileName, fileSize, AddressGroups(buf)));
    }

    /** `update_file_byte`: without a current file an error; otherwise every entry whose
        index is the hex value of `index` gets the text `byte`. Parsing `index` panics, with
        the slot unchanged, when it is not hex and there is an entry to compare it with. */
    method UpdateFileByte(index: string, byte: string) returns (r: Outcome)
      modifies this
      ensures old(current).None? ==> r == Failure(NoFileMessage) && current == old(current)
      ensures (old(current).Some? && HasEntries(old(current).value.addressGroupInformation) &&
               ParseU64(index).None?) ==>
                r == Panicked && current == old(current)
      ensures (old(current).Some? && (!HasEntries(old(current).value.addressGroupInformation) ||
               ParseU64(index).Some?)) ==>
                r == Success &&
                current == Some(old(current).value.(addressGroupInformation :=
                  Edit(old(current).value.addressGroupInformation, ParseU64(index).GetOr(0), byte)))
    {
      if current.None? {
        return Failure(NoFileMessage);
      }
      var info := current.value;
      var groups := info.addressGroupInformation;
      var edited: seq<AddressGroup> := [];
      for g := 0 to |groups|
        invariant forall h :: 0 <= h < g ==> |groups[h].bytes| == 0 || ParseU64(index).Some?
        invariant edited == Edit(groups, ParseU64(index).GetOr(0), byte)[..g]
      {
        assert Edit(groups, ParseU64(index).GetOr(0), byte)[..g + 1] ==
          Edit(groups, ParseU64(index).GetOr(0), byte)[..g] + [Edit(groups, ParseU64(index).GetOr(0), byte)[g]];
        var entries := groups[g].bytes;
        var out: seq<ByteInformation> := [];
        for k := 0 to |entries|
          invariant k > 0 ==> ParseU64(index).Some?
          invariant out == EditEntries(entries, ParseU64(index).GetOr(0), byte)[..k]
        {
          var target := ParseU64(index);
          if target.None? {
            return Panicked;
          }
          var item := entries[k];
          if item.index == target.value {
            item := item.(bytes := byte);
          }
          out := out + [item];
        }
        assert out == EditEntries(entries, ParseU64(index).GetOr(0), byte);
        edited := edited + [groups[g].(bytes := out)];
      }
      assert edited == Edit(groups, ParseU64(index).GetOr(0), byte);
      current := Some(info.(addressGroupInformation := edited));
      r := Success;
    }

    /** `download_current_file`: the file name and the bytes pushed one entry at a time. */
    method DownloadCurrentFile() returns (fileName: string, fileBuf: seq<Byte>)
      ensures (fileName, fileBuf) == Download(current)
    {
      if current.None? {
        return "unknown", [];
      }
      var file := current.value;
      fileName := file.fileName;
      fileBuf := [];
      var groups := file.addressGroupInformation;
      for g := 0 to |groups|
        invariant fileBuf == Flatten(groups[..g])
      {
        assert groups[..g + 1][..g] == groups[..g];
        var entries := groups[g].bytes;
        ghost var before := fileBuf;
        for k := 0 to |entries|
          invariant fileBuf == before + GroupBytes(entries[..k])
        {
          assert GroupBytes(entries[..k + 1]) == GroupBytes(entries[..k]) + [ByteOf(entries[k])];
          fileBuf := fileBuf + [ParseU8(entries[k].bytes).GetOr(0)];
        }
        assert entries[..|entries|] == entries;
      }
      assert groups[..|groups|] == groups;
    }
  }
}
