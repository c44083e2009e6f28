/** The `analysis` rule: the imported names of a file are matched against a knowledge base of
    system functions, and the verdict message chosen from the matches goes into the report. */
module PeAnalysis {
  import opened Options
  import opened PeTools
  import opened PeRead
  import opened PeReport

  /** A knowledge-base row: a function name and an optional description. */
  datatype Knowledge = Knowledge(funcName: string, funcDesc: Option<string>)

  // ----- UTF-8: `str::as_bytes` and `str::len` -----

  /** The UTF-8 encoding of one scalar value. */
  function Utf8Char(c: char): (r: seq<Byte>)
    ensures 1 <= |r| <= 4
    ensures |r| == 1 <==> c as int < 0x80
  {
    var n := c as int;
    if n < 0x80 then [n]
    else if n < 0x800 then [0xC0 + n / 64, 0x80 + n % 64]
    else if n < 0x1_0000 then [0xE0 + n / 4096, 0x80 + n / 64 % 64, 0x80 + n % 64]
    else [0xF0 + n / 262144, 0x80 + n / 4096 % 64, 0x80 + n / 64 % 64, 0x80 + n % 64]
  }

  predicate Continuation(b: Byte) {
    0x80 <= b < 0xC0
  }

  /** Decoding one UTF-8 sequence: the leading byte says how many bytes follow. */
  function CodePoint(b: seq<Byte>): Option<int> {
    if |b| == 1 && b[0] < 0x80 then Some(b[0])
    else if |b| == 2 && 0xC0 <= b[0] < 0xE0 && Continuation(b[1]) then
      Some((b[0] as int - 0xC0) * 64 + (b[1] as int - 0x80))
    else if |b| == 3 && 0xE0 <= b[0] < 0xF0 && Continuation(b[1]) && Continuation(b[2]) then
      Some(((b[0] as int - 0xE0) * 64 + (b[1] as int - 0x80)) * 64 + (b[2] as int - 0x80))
    else if |b| == 4 && 0xF0 <= b[0] < 0xF8 && Continuation(b[1]) && Continuation(b[2]) &&
            Continuation(b[3]) then
      Some((((b[0] as int - 0xF0) * 64 + (b[1] as int - 0x80)) * 64 + (b[2] as int - 0x80)) * 64 +
           (b[3] as int - 0x80))
    else None
  }

  /** Encoding a character and decoding the bytes gives the character back. */
  lemma Utf8CharRoundTrip(c: char)
    ensures CodePoint(Utf8Char(c)) == Some(c as int)
  {
    var n := c as int;
    if n >= 0x80 {
      assert n / 64 * 64 + n % 64 == n;
      if n >= 0x800 {
        assert n / 4096 * 64 + n / 64 % 64 == n / 64;
        if n >= 0x1_0000 {
          assert n / 262144 * 64 + n / 4096 % 64 == n / 4096;
        }
      }
    }
  }

  function Utf8(s: string): seq<Byte>
    decreases |s|
  {
    if s == [] then [] else Utf8Char(s[0]) + Utf8(s[1..])
  }

  /** The byte length is at least the character count, with equality exactly for ASCII text,
      which encodes to its own code points. */
  lemma {:induction false} Utf8Length(s: string)
    ensures |Utf8(s)| >= |s|
    ensures |Utf8(s)| == |s| <==> forall i :: 0 <= i < |s| ==> s[i] as int < 0x80
    ensures (forall i :: 0 <= i < |s| ==> s[i] as int < 0x80) ==>
      forall i :: 0 <= i < |s| ==> Utf8(s)[i] == s[i] as int
    decreases |s|
  {
    if s != [] {
      Utf8Length(s[1..]);
      if s[0] as int < 0x80 && forall i :: 0 <= i < |s[1..]| ==> s[1..][i] as int < 0x80 {
        forall i | 0 <= i < |s| ensures s[i] as int < 0x80 && Utf8(s)[i] == s[i] as int {
          if i > 0 {
            assert s[i] == s[1..][i - 1];
          }
        }
      } else if s[0] as int < 0x80 {
        var i :| 0 <= i < |s[1..]| && s[1..][i] as int >= 0x80;
        assert s[i + 1] == s[1..][i];
      }
    }
  }

  // ----- The knowledge map -----

  /** The key of a row: its name's UTF-8 bytes as lower-case hex (`vec_to_string`). */
  function Key(k: Knowledge): string {
    HexEncode(Utf8(k.funcName))
  }

  /** The value of a row: "name:description", the description empty when missing. */
  function Entry(k: Knowledge): string {
    k.funcName + ":" + k.funcDesc.GetOr("")
  }

  /** A key is hex of twice the name's byte length and decodes to the name's bytes. */
  lemma KeyDecodes(k: Knowledge)
    ensures |Key(k)| == 2 * |Utf8(k.funcName)|
    ensures HexDecode(Key(k)) == Some(Utf8(k.funcName))
  {
    HexEncodeRoundTrip(Utf8(k.funcName));
  }

  /** The (key, value) pairs the rows are mapped to. */
  function Pairs(ks: seq<Knowledge>): (ps: seq<(string, string)>)
    ensures |ps| == |ks|
  {
    seq(|ks|, i requires 0 <= i < |ks| => (Key(ks[i]), Entry(ks[i])))
  }

  /** `collect` into a `HashMap`: a later pair with the same key replaces an earlier one. */
  function Collect(ps: seq<(string, string)>): map<string, string>
    decreases |ps|
  {
    if ps == [] then map[] else Collect(ps[..|ps| - 1])[ps[|ps| - 1].0 := ps[|ps| - 1].1]
  }

  function KnowledgeMap(ks: seq<Knowledge>): map<string, string> {
    Collect(Pairs(ks))
  }

  /** Pair `i` is the last pair with its key. */
  predicate LastWithKey(ps: seq<(string, string)>, i: nat)
    requires i < |ps|
  {
    forall j :: i < j < |ps| ==> ps[j].0 != ps[i].0
  }

  /** The collected keys are exactly the pairs' keys. */
  lemma {:induction false} CollectKeys(ps: seq<(string, string)>)
    ensures forall key :: key in Collect(ps) <==> exists i :: 0 <= i < |ps| && ps[i].0 == key
    decreases |ps|
  {
    if ps != [] {
      var n := |ps| - 1;
      CollectKeys(ps[..n]);
      forall key ensures key in Collect(ps) <==> exists i :: 0 <= i < |ps| && ps[i].0 == key {
        if key in Collect(ps[..n]) {
          var i :| 0 <= i < n && ps[..n][i].0 == key;
          assert ps[i].0 == key;
        }
        if exists i :: 0 <= i < |ps| && ps[i].0 == key {
          var i :| 0 <= i < |ps| && ps[i].0 == key;
          if i < n {
            assert ps[..n][i].0 == key;
          }
        }
      }
    }
  }

  /** Each collected key holds the value of the last pair with that key. */
  lemma {:induction false} CollectLast(ps: seq<(string, string)>)
    ensures forall i :: 0 <= i < |ps| && LastWithKey(ps, i) ==>
      ps[i].0 in Collect(ps) && Collect(ps)[ps[i].0] == ps[i].1
    decreases |ps|
  {
    if ps != [] {
      var n := |ps| - 1;
      CollectLast(ps[..n]);
      forall i | 0 <= i < n && LastWithKey(ps, i)
        ensures ps[i].0 in Collect(ps) && Collect(ps)[ps[i].0] == ps[i].1
      {
        assert ps[..n][i] == ps[i];
        assert LastWithKey(ps[..n], i);
      }
    }
  }

  /** Equal names collapse to one entry: the keys of the knowledge map are exactly the rows'
      keys, and each holds the entry of the last row with that key. */
  lemma KnowledgeMapMeaning(ks: seq<Knowledge>)
    ensures forall key :: key in KnowledgeMap(ks) <==> exists i :: 0 <= i < |ks| && Key(ks[i]) == key
    ensures forall i :: 0 <= i < |ks| && LastWithKey(Pairs(ks), i) ==>
      KnowledgeMap(ks)[Key(ks[i])] == Entry(ks[i])
  {
    CollectKeys(Pairs(ks));
    CollectLast(Pairs(ks));
    forall key ensures key in KnowledgeMap(ks) <==> exists i :: 0 <= i < |ks| && Key(ks[i]) == key {
      if exists i :: 0 <= i < |ks| && Key(ks[i]) == key {
        var i :| 0 <= i < |ks| && Key(ks[i]) == key;
        assert Pairs(ks)[i].0 == key;
      }
    }
  }

  // ----- The match loop -----

  /** The match test of the loop: the name contains the key, ignoring case, and is at least
      six bytes long. */
  predicate Hit(token: string, key: string) {
    FuzzySearch(token, key) && |Utf8(token)| >= 6
  }

  /** The keys of `m` that match `token`. */
  function MatchingKeys(token: string, m: map<string, string>): set<string> {
    set k | k in m && Hit(token, k)
  }

  /** The map iterated in the order `keys`: distinct and covering exactly the map's keys. */
  predicate Enumerates(keys: seq<string>, m: map<string, string>) {
    (forall k :: k in keys ==> k in m) && (forall k :: k in m ==> k in keys) && Distinct(keys)
  }

  predicate Distinct(keys: seq<string>) {
    forall i, j :: 0 <= i < j < |keys| ==> keys[i] != keys[j]
  }

  /** The values of the keys in `pick`, the keys visited in the order `keys`. */
  function Picked(pick: set<string>, m: map<string, string>, keys: seq<string>): seq<string>
    requires forall k :: k in keys ==> k in m
    decreases |keys|
  {
    if keys == [] then []
    else
      var key := keys[|keys| - 1];
      Picked(pick, m, keys[..|keys| - 1]) + (if key in pick then [m[key]] else [])
  }

  /** The values pushed for all tokens, in token order; for one token, those of its matching
      keys in the order `keys`. */
  function MatchList(tokens: seq<string>, m: map<string, string>, keys: seq<string>): seq<string>
    requires forall k :: k in keys ==> k in m
    decreases |tokens|
  {
    if tokens == [] then []
    else
      var token := tokens[|tokens| - 1];
      MatchList(tokens[..|tokens| - 1], m, keys) + Picked(MatchingKeys(token, m), m, keys)
  }

  /** The nested loop of `analysis` that pushes a value for every matching token and key. */
  method CollectMatches(tokens: seq<string>, m: map<string, string>, keys: seq<string>)
    returns (list: seq<string>)
    requires forall k :: k in keys ==> k in m
    ensures list == MatchList(tokens, m, keys)
  {
    list := [];
    for t := 0 to |tokens|
      invariant list == MatchList(tokens[..t], m, keys)
    {
      var token := tokens[t];
      ghost var before := list;
      for i := 0 to |keys|
        invariant list == before + Picked(MatchingKeys(token, m), m, keys[..i])
      {
        var key := keys[i];
        assert keys[..i + 1][..i] == keys[..i];
        if FuzzySearch(token, key) && |Utf8(token)| >= 6 {
          list := list + [m[key]];
        }
      }
      assert keys[..|keys|] == keys;
      assert tokens[..t + 1][..t] == tokens[..t];
    }
    assert tokens[..|tokens|] == tokens;
  }

  lemma {:induction false} PickedAppend(pick: set<string>, m: map<string, string>, a: seq<string>, b: seq<string>)
    requires forall k :: k in a + b ==> k in m
    ensures Picked(pick, m, a + b) == Picked(pick, m, a) + Picked(pick, m, b)
    decreases |b|
  {
    if b != [] {
      var n := |b| - 1;
      assert (a + b)[..|a + b| - 1] == a + b[..n];
      PickedAppend(pick, m, a, b[..n]);
    } else {
      assert a + b == a;
    }
  }

  /** Taking the element at `i` out of a sequence. */
  lemma RemoveAt(b: seq<string>, i: nat)
    requires i < |b|
    ensures multiset(b) == multiset(b[..i] + b[i + 1..]) + multiset{b[i]}
  {
    assert b == b[..i] + [b[i]] + b[i + 1..];
  }

  lemma Cancel(x: multiset<string>, y: multiset<string>, e: string)
    requires x + multiset{e} == y + multiset{e}
    ensures x == y
  {
    forall z ensures x[z] == y[z] {
      assert x[z] == (x + multiset{e})[z] - multiset{e}[z];
      assert y[z] == (y + multiset{e})[z] - multiset{e}[z];
    }
  }

  /** Visiting the key at `i` last instead picks the same values. */
  lemma PickedRemoveAt(pick: set<string>, m: map<string, string>, b: seq<string>, i: nat)
    requires forall k :: k in b ==> k in m
    requires i < |b|
    ensures multiset(Picked(pick, m, b)) ==
      multiset(Picked(pick, m, b[..i] + b[i + 1..])) + multiset(Picked(pick, m, [b[i]]))
  {
    assert b == b[..i] + [b[i]] + b[i + 1..];
    PickedAppend(pick, m, b[..i] + [b[i]], b[i + 1..]);
    PickedAppend(pick, m, b[..i], [b[i]]);
    PickedAppend(pick, m, b[..i], b[i + 1..]);
  }

  /** The values picked depend only on which keys are visited, not on their order. */
  lemma {:induction false} PickedPermutation(pick: set<string>, m: map<string, string>, a: seq<string>, b: seq<string>)
    requires forall k :: k in a ==> k in m
    requires forall k :: k in b ==> k in m
    requires multiset(a) == multiset(b)
    ensures multiset(Picked(pick, m, a)) == multiset(Picked(pick, m, b))
    decreases |a|
  {
    if a == [] {
      assert |b| == |multiset(b)| == 0;
    } else {
      var n := |a| - 1;
      assert a[n] in multiset(a);
      var i :| 0 <= i < |b| && b[i] == a[n];
      assert a == a[..n] + [a[n]];
      RemoveAt(b, i);
      Cancel(multiset(a[..n]), multiset(b[..i] + b[i + 1..]), a[n]);
      PickedPermutation(pick, m, a[..n], b[..i] + b[i + 1..]);
      PickedRemoveAt(pick, m, b, i);
      assert [a[n]][..0] == [];
    }
  }

  /** A distinct sequence holds each of its elements once. */
  lemma {:induction false} DistinctOnce(a: seq<string>, x: string)
    requires Distinct(a)
    ensures multiset(a)[x] == if x in a then 1 else 0
    decreases |a|
  {
    if a != [] {
      var n := |a| - 1;
      assert a == a[..n] + [a[n]];
      DistinctOnce(a[..n], x);
      assert x == a[n] ==> x !in a[..n];
    }
  }

  /** Two enumerations of one map visit the same keys, each once. */
  lemma EnumerationsAgree(m: map<string, string>, a: seq<string>, b: seq<string>)
    requires Enumerates(a, m) && Enumerates(b, m)
    ensures multiset(a) == multiset(b)
  {
    forall x ensures multiset(a)[x] == multiset(b)[x] {
      DistinctOnce(a, x);
      DistinctOnce(b, x);
    }
  }

  /** The match list is the same multiset whatever order the map is iterated in, so its length
      (the reported count) does not depend on the order either. */
  lemma {:induction false} MatchListOrderFree(tokens: seq<string>, m: map<string, string>, a: seq<string>, b: seq<string>)
    requires Enumerates(a, m) && Enumerates(b, m)
    ensures multiset(MatchList(tokens, m, a)) == multiset(MatchList(tokens, m, b))
    ensures |MatchList(tokens, m, a)| == |MatchList(tokens, m, b)|
    decreases |tokens|
  {
    if tokens != [] {
      var n := |tokens| - 1;
      MatchListOrderFree(tokens[..n], m, a, b);
      EnumerationsAgree(m, a, b);
      PickedPermutation(MatchingKeys(tokens[n], m), m, a, b);
    }
    assert |multiset(MatchList(tokens, m, a))| == |MatchList(tokens, m, a)|;
  }

  /** A value is picked exactly when some visited key in `pick` maps to it. */
  lemma {:induction false} PickedMembers(pick: set<string>, m: map<string, string>, keys: seq<string>, v: string)
    requires forall k :: k in keys ==> k in m
    ensures v in Picked(pick, m, keys) <==> exists k :: k in keys && k in pick && m[k] == v
    decreases |keys|
  {
    if keys != [] {
      var n := |keys| - 1;
      PickedMembers(pick, m, keys[..n], v);
      if exists k :: k in keys && k in pick && m[k] == v {
        var k :| k in keys && k in pick && m[k] == v;
        if k != keys[n] {
          var i :| 0 <= i < |keys| && keys[i] == k;
          assert keys[..n][i] == k;
        }
      }
    }
  }

  /** Distinct keys are each picked at most once. */
  lemma {:induction false} PickedCount(pick: set<string>, m: map<string, string>, keys: seq<string>)
    requires forall k :: k in keys ==> k in m
    requires Distinct(keys)
    ensures |Picked(pick, m, keys)| == |set k | k in keys && k in pick|
    decreases |keys|
  {
    if keys != [] {
      var n := |keys| - 1;
      PickedCount(pick, m, keys[..n]);
      var before := set k | k in keys[..n] && k in pick;
      var after := set k | k in keys && k in pick;
      assert keys[n] !in keys[..n];
      assert forall k :: k in keys <==> k in keys[..n] || k == keys[n];
      if keys[n] in pick {
        assert after == before + {keys[n]};
      } else {
        assert after == before;
      }
    }
  }

  /** The number of matching (token, key) pairs. */
  function MatchCount(tokens: seq<string>, m: map<string, string>): nat
    decreases |tokens|
  {
    if tokens == [] then 0
    else MatchCount(tokens[..|tokens| - 1], m) + |MatchingKeys(tokens[|tokens| - 1], m)|
  }

  /** For each token and each key, one value is pushed exactly when they match: the list has as
      many entries as there are matching (token, key) pairs. */
  lemma {:induction false} MatchListCount(tokens: seq<string>, m: map<string, string>, keys: seq<string>)
    requires Enumerates(keys, m)
    ensures |MatchList(tokens, m, keys)| == MatchCount(tokens, m)
    decreases |tokens|
  {
    if tokens != [] {
      var n := |tokens| - 1;
      MatchListCount(tokens[..n], m, keys);
      PickedCount(MatchingKeys(tokens[n], m), m, keys);
      assert (set k | k in keys && k in MatchingKeys(tokens[n], m)) == MatchingKeys(tokens[n], m);
    }
  }

  /** The list holds a value exactly when some token matches some key mapping to it. */
  lemma {:induction false} MatchListMembers(tokens: seq<string>, m: map<string, string>, keys: seq<string>, v: string)
    requires Enumerates(keys, m)
    ensures v in MatchList(tokens, m, keys) <==>
      exists t, k :: t in tokens && k in m && Hit(t, k) && m[k] == v
    decreases |tokens|
  {
    if tokens != [] {
      var n := |tokens| - 1;
      MatchListMembers(tokens[..n], m, keys, v);
      PickedMembers(MatchingKeys(tokens[n], m), m, keys, v);
      SupplierEarlier(tokens, m, v);
      SupplierLast(tokens, m, keys, v);
    }
  }

  /** A supplier among all tokens is among the earlier ones unless it is the last token. */
  lemma SupplierEarlier(tokens: seq<string>, m: map<string, string>, v: string)
    requires tokens != []
    ensures (exists t, k :: t in tokens && k in m && Hit(t, k) && m[k] == v) <==>
      (exists t, k :: t in tokens[..|tokens| - 1] && k in m && Hit(t, k) && m[k] == v) ||
      (exists k :: k in m && Hit(tokens[|tokens| - 1], k) && m[k] == v)
  {
    var n := |tokens| - 1;
    if exists t, k :: t in tokens && k in m && Hit(t, k) && m[k] == v {
      var t, k :| t in tokens && k in m && Hit(t, k) && m[k] == v;
      if t != tokens[n] {
        InEarlier(tokens, t);
      }
    }
    if exists t, k :: t in tokens[..n] && k in m && Hit(t, k) && m[k] == v {
      var t, k :| t in tokens[..n] && k in m && Hit(t, k) && m[k] == v;
      assert t in tokens;
    }
  }

  lemma InEarlier(tokens: seq<string>, t: string)
    requires t in tokens && t != tokens[|tokens| - 1]
    ensures t in tokens[..|tokens| - 1]
  {
    var i :| 0 <= i < |tokens| && tokens[i] == t;
    assert tokens[..|tokens| - 1][i] == t;
  }

  /** The keys the last token matches, through an enumeration of the map. */
  lemma SupplierLast(tokens: seq<string>, m: map<string, string>, keys: seq<string>, v: string)
    requires tokens != [] && Enumerates(keys, m)
    ensures (exists k :: k in m && Hit(tokens[|tokens| - 1], k) && m[k] == v) <==>
      (exists k :: k in keys && k in MatchingKeys(tokens[|tokens| - 1], m) && m[k] == v)
  {
    var last := tokens[|tokens| - 1];
    if exists k :: k in m && Hit(last, k) && m[k] == v {
      var k :| k in m && Hit(last, k) && m[k] == v;
      assert k in keys && k in MatchingKeys(last, m);
    }
  }

  // ----- The verdict message -----

  const NoAnomaly := "未检测到异常"
  const Lead := "该可执行程序运行可能会尝试调用"
  const Middle := "个系统函数，可能会对计算机造成损害。分别为："

  /** The message of `analysis`: the count and the `{:?}` of the list, or "no anomaly". */
  function Message(list: seq<string>): string {
    if list == [] then NoAnomaly else Lead + Decimal(|list|) + Middle + DebugList(list)
  }

  /** The "no anomaly" message is chosen exactly when nothing matched. */
  lemma MessageChoice(list: seq<string>)
    ensures Message(list) == NoAnomaly <==> list == []
  {
    if list != [] {
      assert Message(list)[0] == '该' != NoAnomaly[0];
    }
  }

  /** The reported count is a decimal number equal to the length of the list. */
  lemma MessageCount(list: seq<string>)
    requires list != []
    ensures exists digits ::
              Message(list) == Lead + digits + Middle + DebugList(list) &&
              IsDigits(digits, 10) && DigitsValue(digits, 10) == |list|
  {
    DecimalValue(|list|);
  }

  /** Rust's `{:?}` of a list of strings: quoted, escaped items between brackets. */
  function DebugList(list: seq<string>): string {
    "[" + DebugItems(list) + "]"
  }

  function DebugItems(list: seq<string>): string
    decreases |list|
  {
    if list == [] then ""
    else if |list| == 1 then DebugStr(list[0])
    else DebugStr(list[0]) + ", " + DebugItems(list[1..])
  }

  function DebugStr(s: string): string {
    "\"" + Escape(s) + "\""
  }

  function Escape(s: string): string
    decreases |s|
  {
    if s == [] then "" else EscapeChar(s[0]) + Escape(s[1..])
  }

  /** `char::escape_debug` inside a string: the usual backslash escapes, `\u{..}` in lower-case
      hex for the other ASCII control characters, everything else as itself. */
  function EscapeChar(c: char): string {
    if c == '\0' then "\\0"
    else if c == '\t' then "\\t"
    else if c == '\r' then "\\r"
    else if c == '\n' then "\\n"
    else if c == '\\' then "\\\\"
    else if c == '"' then "\\\""
    else if c < ' ' || c == '\U{7F}' then "\\u{" + ShortHex(c as int) + "}"
    else [c]
  }

  /** Lower-case hex without leading zeros, for values below 256. */
  function ShortHex(n: nat): string
    requires n < 256
  {
    if n < 16 then [LowerDigit(n)] else [LowerDigit(n / 16), LowerDigit(n % 16)]
  }

  /** The character a one-letter escape stands for. */
  function SimpleEscape(e: char): Option<char> {
    if e == '0' then Some('\0')
    else if e == 't' then Some('\t')
    else if e == 'r' then Some('\r')
    else if e == 'n' then Some('\n')
    else if e == '\\' then Some('\\')
    else if e == '"' then Some('"')
    else None
  }

  /** Reading an escaped string back. */
  function Unescape(t: string): Option<string>
    decreases |t|
  {
    if t == [] then Some("")
    else if t[0] != '\\' then Prepend([t[0]], Unescape(t[1..]))
    else if |t| >= 2 && SimpleEscape(t[1]).Some? then
      Prepend([SimpleEscape(t[1]).value], Unescape(t[2..]))
    else if |t| >= 5 && t[1] == 'u' && t[2] == '{' && t[4] == '}' && DigitValue(t[3], 16).Some? then
      Prepend([DigitValue(t[3], 16).value as char], Unescape(t[5..]))
    else if |t| >= 6 && t[1] == 'u' && t[2] == '{' && t[5] == '}' &&
            DigitValue(t[3], 16).Some? && DigitValue(t[4], 16).Some? then
      Prepend([(16 * DigitValue(t[3], 16).value + DigitValue(t[4], 16).value) as char], Unescape(t[6..]))
    else None
  }

  /** A control character below 0x10 is written as `\u{d}` and reads back. */
  lemma UnescapeShort(c: char, rest: string)
    requires c < '\U{10}' && !(c == '\0' || c == '\t' || c == '\r' || c == '\n')
    ensures Unescape(EscapeChar(c) + rest) == Prepend([c], Unescape(rest))
  {
    var t := EscapeChar(c) + rest;
    assert t[..5] == "\\u{" + [LowerDigit(c as int)] + "}";
    assert t[5..] == rest;
  }

  /** A control character from 0x10 on is written as `\u{dd}` and reads back. */
  lemma UnescapeLong(c: char, rest: string)
    requires ('\U{10}' <= c < ' ') || c == '\U{7F}'
    ensures Unescape(EscapeChar(c) + rest) == Prepend([c], Unescape(rest))
  {
    var t := EscapeChar(c) + rest;
    var n := c as int;
    assert t[..6] == "\\u{" + [LowerDigit(n / 16), LowerDigit(n % 16)] + "}";
    assert t[6..] == rest;
    assert 16 * (n / 16) + n % 16 == n;
  }

  /** A character with a one-letter escape reads back. */
  lemma UnescapeSimple(c: char, rest: string)
    requires c == '\0' || c == '\t' || c == '\r' || c == '\n' || c == '\\' || c == '"'
    ensures Unescape(EscapeChar(c) + rest) == Prepend([c], Unescape(rest))
  {
    var t := EscapeChar(c) + rest;
    assert t[0] == '\\' && SimpleEscape(t[1]) == Some(c);
    assert t[2..] == rest;
  }

  /** A character written as itself reads back. */
  lemma UnescapePlain(c: char, rest: string)
    requires !(c == '\0' || c == '\t' || c == '\r' || c == '\n' || c == '\\' || c == '"')
    requires !(c < ' ' || c == '\U{7F}')
    ensures Unescape(EscapeChar(c) + rest) == Prepend([c], Unescape(rest))
  {
    var t := EscapeChar(c) + rest;
    assert EscapeChar(c) == [c];
    assert t[0] == c && t[1..] == rest;
  }

  lemma UnescapeChar(c: char, rest: string)
    ensures Unescape(EscapeChar(c) + rest) == Prepend([c], Unescape(rest))
  {
    if c == '\0' || c == '\t' || c == '\r' || c == '\n' || c == '\\' || c == '"' {
      UnescapeSimple(c, rest);
    } else if c < '\U{10}' {
      UnescapeShort(c, rest);
    } else if c < ' ' || c == '\U{7F}' {
      UnescapeLong(c, rest);
    } else {
      UnescapePlain(c, rest);
    }
  }

  /** Escaping loses nothing: the escaped text reads back as the original string. */
  lemma {:induction false} EscapeRoundTrip(s: string)
    ensures Unescape(Escape(s)) == Some(s)
    decreases |s|
  {
    if s != [] {
      UnescapeChar(s[0], Escape(s[1..]));
      EscapeRoundTrip(s[1..]);
      assert [s[0]] + s[1..] == s;
    }
  }

  // ----- The analysis -----

  /** `analysis` on a stored file: read it, match its imported names against the knowledge
      map iterated in the order `keys`, and return the message with the report that is stored
      for the file. `None` is a panic of the reader. */
  function Analysis(fileBuf: seq<Byte>, fileName: string, fileSize: string, ks: seq<Knowledge>,
                    keys: seq<string>): Option<(string, string)>
    requires Enumerates(keys, KnowledgeMap(ks))
  {
    var study :- Study(HexEncode(fileBuf), fileName, fileSize);
    Verdict(study, KnowledgeMap(ks), keys)
  }

  /** The message and report for a file already read. */
  function Verdict(study: PeStudy, m: map<string, string>, keys: seq<string>): Option<(string, string)>
    requires Enumerates(keys, m)
  {
    var msg := Message(MatchList(study.bynameInformation, m, keys));
    var report :- Report(study, msg);
    Some((msg, report))
  }

  /** A verdict exists whenever the names decode, and says "no anomaly" exactly when no
      imported name matches any key of the map. */
  lemma VerdictMessage(study: PeStudy, m: map<string, string>, keys: seq<string>)
    requires Enumerates(keys, m)
    requires forall tok :: tok in study.bynameInformation ==> HexDecode(tok).Some?
    ensures Verdict(study, m, keys).Some?
    ensures Verdict(study, m, keys).value.0 == NoAnomaly <==>
      forall t, k :: (t in study.bynameInformation && k in m) ==> !Hit(t, k)
  {
    var list := MatchList(study.bynameInformation, m, keys);
    ReportDefined(study, Message(list));
    MessageChoice(list);
    if list != [] {
      MatchListMembers(study.bynameInformation, m, keys, list[0]);
    } else if exists t, k :: t in study.bynameInformation && k in m && Hit(t, k) {
      var t, k :| t in study.bynameInformation && k in m && Hit(t, k);
      MatchListMembers(study.bynameInformation, m, keys, m[k]);
    }
  }

  /** The analysis fails only where the reader does, and says "no anomaly" exactly when no
      imported name matches any key of the knowledge map. */
  lemma AnalysisVerdict(fileBuf: seq<Byte>, fileName: string, fileSize: string, ks: seq<Knowledge>,
                        keys: seq<string>)
    requires Enumerates(keys, KnowledgeMap(ks))
    ensures Analysis(fileBuf, fileName, fileSize, ks, keys).Some? <==>
      Study(HexEncode(fileBuf), fileName, fileSize).Some?
    ensures Analysis(fileBuf, fileName, fileSize, ks, keys).Some? ==>
      (Analysis(fileBuf, fileName, fileSize, ks, keys).value.0 == NoAnomaly <==>
       forall t, k ::
         (t in Study(HexEncode(fileBuf), fileName, fileSize).value.bynameInformation &&
          k in KnowledgeMap(ks)) ==> !Hit(t, k))
  {
    if Study(HexEncode(fileBuf), fileName, fileSize).Some? {
      StudyReport(HexEncode(fileBuf), fileName, fileSize, NoAnomaly);
      VerdictMessage(Study(HexEncode(fileBuf), fileName, fileSize).value, KnowledgeMap(ks), keys);
    }
  }

  /** `analysis` as the handler runs it, with the knowledge rows and their iteration order as
      inputs. */
  method Analyse(fileBuf: seq<Byte>, fileName: string, fileSize: string, ks: seq<Knowledge>,
                 keys: seq<string>) returns (r: Option<(string, string)>)
    requires Enumerates(keys, KnowledgeMap(ks))
    ensures r == Analysis(fileBuf, fileName, fileSize, ks, keys)
  {
    var hex := VecToString(fileBuf);
    var study := ReadExeFile(hex, fileName, fileSize);
    if study.None? {
      return None;
    }
    var list := CollectMatches(study.value.bynameInformation, KnowledgeMap(ks), keys);
    var msg := Message(list);
    var report := GenerateReport(study.value, msg);
    if report.None? {
      return None;
    }
    return Some((msg, report.value));
  }
}
