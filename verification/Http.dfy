/** Header fields and the byte-level helpers of `http.rs`. Field maps are ordered
    name/value pairs in iteration order; names are stored in lower case. */
module Http {
  import opened Prelude

  const SPACE: Byte := 32
  const TAB: Byte := 9
  const COMMA: Byte := 44
  const QUOTE: Byte := 34
  const COLON: Byte := 58
  const PLUS: Byte := 43
  const SLASH: Byte := 47

  datatype Header = Header(name: Bytes, value: Bytes)

  type Headers = seq<Header>

  /** The bytes of an ASCII literal. */
  function Ascii(s: string): Bytes {
    seq(|s|, i requires 0 <= i < |s| => (s[i] as int) % 256)
  }

  const GET: Bytes := Ascii("GET")
  const HEAD: Bytes := Ascii("HEAD")

  predicate IsOws(b: Byte) {
    b == SPACE || b == TAB
  }

  predicate IsDigit(b: Byte) {
    48 <= b <= 57
  }

  predicate IsAlpha(b: Byte) {
    65 <= b <= 90 || 97 <= b <= 122
  }

  /** `is_token`: alphanumeric or one of the marks ! # $ % & ' * + - . ^ _ ` | ~ */
  predicate IsToken(b: Byte) {
    IsDigit(b) || IsAlpha(b) || b in {33, 35, 36, 37, 38, 39, 42, 43, 45, 46, 94, 95, 96, 124, 126}
  }

  function Lower(b: Byte): Byte {
    if 65 <= b <= 90 then b + 32 else b
  }

  function LowerAll(s: Bytes): (r: Bytes)
    ensures |r| == |s|
    ensures forall i :: 0 <= i < |s| ==> r[i] == Lower(s[i])
  {
    seq(|s|, i requires 0 <= i < |s| => Lower(s[i]))
  }

  /** The same text up to the case of ASCII letters. */
  predicate SameText(a: Bytes, b: Bytes) {
    |a| == |b| && forall i :: 0 <= i < |a| ==> SameLetter(a[i], b[i])
  }

  predicate SameLetter(a: Byte, b: Byte) {
    a == b || (65 <= a <= 90 && b == a + 32) || (65 <= b <= 90 && a == b + 32)
  }

  lemma LowerIffSameText(a: Bytes, b: Bytes)
    ensures LowerAll(a) == LowerAll(b) <==> SameText(a, b)
  {
    if LowerAll(a) == LowerAll(b) {
      assert forall i :: 0 <= i < |a| ==> LowerAll(a)[i] == LowerAll(b)[i];
    }
  }

  lemma LowerAllIdempotent(s: Bytes)
    ensures LowerAll(LowerAll(s)) == LowerAll(s)
  {
  }

  function TrimStart(s: Bytes): Bytes {
    if s != [] && IsOws(s[0]) then TrimStart(s[1..]) else s
  }

  function TrimEnd(s: Bytes): Bytes {
    if s != [] && IsOws(s[|s| - 1]) then TrimEnd(s[..|s| - 1]) else s
  }

  function TrimOws(s: Bytes): Bytes {
    TrimEnd(TrimStart(s))
  }

  lemma {:induction false} TrimStartEnds(s: Bytes)
    ensures var t := TrimStart(s); t == [] || !IsOws(t[0])
  {
    if s != [] && IsOws(s[0]) {
      TrimStartEnds(s[1..]);
    }
  }

  lemma {:induction false} TrimEndEnds(s: Bytes)
    ensures var t := TrimEnd(s); t <= s && (t == [] || !IsOws(t[|t| - 1]))
  {
    if s != [] && IsOws(s[|s| - 1]) {
      TrimEndEnds(s[..|s| - 1]);
    }
  }

  predicate AllOws(s: Bytes) {
    forall i :: 0 <= i < |s| ==> IsOws(s[i])
  }

  /** Padding, a core that neither begins nor ends with padding, and padding. */
  predicate Padded(s: Bytes, before: Bytes, core: Bytes, after: Bytes) {
    && s == before + core + after && AllOws(before) && AllOws(after)
    && (core != [] ==> !IsOws(core[0]) && !IsOws(core[|core| - 1]))
  }

  /** Trimming takes off all padding and nothing else. */
  lemma TrimTakesPadding(s: Bytes) returns (before: Bytes, after: Bytes)
    ensures Padded(s, before, TrimOws(s), after)
  {
    before := TrimStartTakes(s);
    after := TrimEndTakes(TrimStart(s));
    TrimStartEnds(s);
    TrimEndEnds(TrimStart(s));
    assert before + (TrimOws(s) + after) == before + TrimOws(s) + after;
  }

  lemma {:induction false} TrimStartTakes(s: Bytes) returns (before: Bytes)
    ensures s == before + TrimStart(s) && AllOws(before)
  {
    before := [];
    if s != [] && IsOws(s[0]) {
      var rest := TrimStartTakes(s[1..]);
      before := [s[0]] + rest;
      assert s == [s[0]] + s[1..];
    }
  }

  lemma {:induction false} TrimEndTakes(s: Bytes) returns (after: Bytes)
    ensures s == TrimEnd(s) + after && AllOws(after)
  {
    after := [];
    if s != [] && IsOws(s[|s| - 1]) {
      var rest := TrimEndTakes(s[..|s| - 1]);
      after := rest + [s[|s| - 1]];
      assert s == s[..|s| - 1] + [s[|s| - 1]];
    }
  }

  /** Only trimming does. */
  lemma {:induction false} PaddedIsTrim(s: Bytes, before: Bytes, core: Bytes, after: Bytes)
    requires Padded(s, before, core, after)
    ensures core == TrimOws(s)
    decreases |before| + |after|
  {
    if before != [] {
      assert s[1..] == before[1..] + core + after && s[0] == before[0];
      PaddedIsTrim(s[1..], before[1..], core, after);
    } else if core == [] {
      assert s == after;
      AllOwsTrims(s);
    } else {
      assert s[0] == core[0] && TrimStart(s) == s;
      TrimEndCore(core, after);
      assert s == core + after;
    }
  }

  lemma {:induction false} AllOwsTrims(s: Bytes)
    requires AllOws(s)
    ensures TrimStart(s) == []
  {
    if s != [] {
      AllOwsTrims(s[1..]);
    }
  }

  lemma {:induction false} TrimEndCore(core: Bytes, after: Bytes)
    requires core != [] && !IsOws(core[|core| - 1]) && AllOws(after)
    ensures TrimEnd(core + after) == core
  {
    var s := core + after;
    if after == [] {
      assert s == core;
    } else {
      assert s[..|s| - 1] == core + after[..|after| - 1];
      TrimEndCore(core, after[..|after| - 1]);
    }
  }

  lemma TrimOwsFixed(s: Bytes)
    requires s == [] || (!IsOws(s[0]) && !IsOws(s[|s| - 1]))
    ensures TrimOws(s) == s
  {
  }

  /** `HeaderMap::get_all`. */
  function ValuesOf(headers: Headers, name: Bytes): seq<Bytes> {
    if headers == [] then []
    else if headers[0].name == name then [headers[0].value] + ValuesOf(headers[1..], name)
    else ValuesOf(headers[1..], name)
  }

  /** The values of a field, line by line and in order. */
  lemma {:induction false} ValuesOfAppend(a: Headers, b: Headers, name: Bytes)
    ensures ValuesOf(a + b, name) == ValuesOf(a, name) + ValuesOf(b, name)
    ensures forall h: Header :: ValuesOf([h], name) == if h.name == name then [h.value] else []
  {
    if a == [] {
      assert a + b == b;
    } else {
      assert (a + b)[1..] == a[1..] + b;
      ValuesOfAppend(a[1..], b, name);
    }
  }

  lemma {:induction false} HasHeaderIff(headers: Headers, name: Bytes)
    ensures HasHeader(headers, name) <==> ValuesOf(headers, name) != []
  {
    if headers != [] {
      HasHeaderIff(headers[1..], name);
      if HasHeader(headers, name) && headers[0].name != name {
        var i :| 0 <= i < |headers| && headers[i].name == name;
        assert headers[1..][i - 1].name == name;
      }
    }
  }

  predicate HasHeader(headers: Headers, name: Bytes) {
    exists i :: 0 <= i < |headers| && headers[i].name == name
  }

  /** Bytes of all names and values, as `check_header_bounds` sums them. */
  function HeaderBytes(headers: Headers): nat {
    if headers == [] then 0
    else HeaderBytes(headers[..|headers| - 1]) + |headers[|headers| - 1].name| + |headers[|headers| - 1].value|
  }

  lemma {:induction false} HeaderBytesBoundsEach(headers: Headers, i: nat)
    requires i < |headers|
    ensures |headers[i].name| + |headers[i].value| <= HeaderBytes(headers)
  {
    var front := headers[..|headers| - 1];
    if i < |front| {
      HeaderBytesBoundsEach(front, i);
    }
  }

  /** `HeaderName::from_bytes`: a nonempty token, stored in lower case. */
  function ParseName(raw: Bytes): Option<Bytes> {
    if raw != [] && forall i :: 0 <= i < |raw| ==> IsToken(raw[i]) then Some(LowerAll(raw)) else None
  }

  predicate IsName(name: Bytes) {
    ParseName(name) == Some(name)
  }

  lemma ParseNameIsName(raw: Bytes)
    ensures ParseName(raw).Some? ==> IsName(ParseName(raw).value)
  {
    LowerAllIdempotent(raw);
  }

  /** `HeaderValue::from_bytes`: visible bytes, spaces, tabs and obs-text. */
  predicate IsFieldValue(value: Bytes) {
    forall i :: 0 <= i < |value| ==> value[i] == TAB || (32 <= value[i] && value[i] != 127)
  }

  /** Byte-wise lexicographic order of two names, as `str` compares them. */
  predicate Less(a: Bytes, b: Bytes) {
    if b == [] then false
    else if a == [] then true
    else a[0] < b[0] || (a[0] == b[0] && Less(a[1..], b[1..]))
  }

  lemma {:induction false} LessTransitive(a: Bytes, b: Bytes, c: Bytes)
    requires Less(a, b) && Less(b, c)
    ensures Less(a, c)
  {
    if a != [] && a[0] == b[0] == c[0] {
      LessTransitive(a[1..], b[1..], c[1..]);
    }
  }

  lemma {:induction false} LessTotal(a: Bytes, b: Bytes)
    ensures a == b || Less(a, b) || Less(b, a)
    ensures !(Less(a, b) && Less(b, a))
    ensures !Less(a, a)
  {
    if a != [] {
      LessTotal(a[1..], a[1..]);
      if b != [] && a[0] == b[0] {
        LessTotal(a[1..], b[1..]);
        assert a == [a[0]] + a[1..] && b == [b[0]] + b[1..];
      }
    }
  }
}
