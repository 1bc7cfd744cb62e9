/** Cache keys (`key.rs`): canonical request identity plus normalised `Vary` values. */
module Keys {
  import opened Prelude
  import opened Http

  datatype BaseKey = BaseKey(verb: Bytes, scheme: Bytes, authority: Bytes, path: Bytes, query: Option<Bytes>)

  datatype VaryValue = VaryValue(name: Bytes, present: bool, value: Bytes)

  datatype CacheKey = CacheKey(base: BaseKey, vary: seq<VaryValue>)

  datatype Vary = Any | Names(names: seq<Bytes>)

  datatype KeyError = InvalidScheme | InvalidAuthority | InvalidPath | InvalidQuery | InvalidVary | VaryAny
    | TooManyVaryFields | TooLarge

  /** `RequestKeyInput`. */
  datatype KeyInput = KeyInput(verb: Bytes, scheme: Bytes, authority: Bytes, path: Bytes, query: Option<Bytes>,
                               headers: Headers)

  // ---------------------------------------------------------------- sizes

  function QueryLen(query: Option<Bytes>): nat {
    if query.Some? then |query.value| else 0
  }

  function BaseLen(b: BaseKey): nat {
    |b.verb| + |b.scheme| + |b.authority| + |b.path| + QueryLen(b.query) + 20
  }

  function VaryLen(vary: seq<VaryValue>): nat {
    if vary == [] then 0
    else VaryLen(vary[..|vary| - 1]) + |vary[|vary| - 1].name| + |vary[|vary| - 1].value| + 9
  }

  /** `CacheKey::encoded_len`, without its saturation. */
  function KeyLen(k: CacheKey): nat {
    BaseLen(k.base) + VaryLen(k.vary)
  }

  lemma {:induction false} VaryLenBoundsEach(vary: seq<VaryValue>, i: nat)
    requires i < |vary|
    ensures |vary[i].name| + |vary[i].value| <= VaryLen(vary)
  {
    var front := vary[..|vary| - 1];
    if i < |front| {
      VaryLenBoundsEach(front, i);
    }
  }

  // ---------------------------------------------------------------- field-value normalisation

  /** Spec of the loop in `normalize_field_value`, over an already trimmed value. */
  function NormalizeFrom(output: Bytes, value: Bytes, whitespace: bool): Bytes
    decreases |value|
  {
    if value == [] then output
    else if IsOws(value[0]) then NormalizeFrom(output, value[1..], true)
    else NormalizeFrom(Separated(output, whitespace) + [value[0]], value[1..], false)
  }

  function Separated(output: Bytes, whitespace: bool): Bytes {
    if whitespace && output != [] && output[|output| - 1] != COMMA then output + [SPACE] else output
  }

  /** Appends one normalised field line to `output`. */
  function NormalizeOnto(output: Bytes, value: Bytes): Bytes {
    NormalizeFrom(output, TrimOws(value), false)
  }

  /** All lines of one field, joined by commas. */
  function NormalizeLines(lines: seq<Bytes>): Bytes {
    if lines == [] then []
    else if |lines| == 1 then NormalizeOnto([], lines[0])
    else NormalizeOnto(NormalizeLines(lines[..|lines| - 1]) + [COMMA], lines[|lines| - 1])
  }

  method NormalizeFieldValue(value: Bytes, start: Bytes) returns (output: Bytes)
    ensures output == NormalizeOnto(start, value)
  {
    output := start;
    var whitespace := false;
    var rest := TrimOws(value);
    while rest != []
      invariant NormalizeFrom(output, rest, whitespace) == NormalizeOnto(start, value)
      decreases |rest|
    {
      var byte := rest[0];
      if IsOws(byte) {
        whitespace := true;
      } else {
        if whitespace && output != [] && output[|output| - 1] != COMMA {
          output := output + [SPACE];
        }
        output := output + [byte];
        whitespace := false;
      }
      rest := rest[1..];
    }
  }

  /** The fixed points of normalisation: no tabs, and single spaces only between two
      bytes of which the first is not a comma. */
  ghost predicate IsNormal(v: Bytes) {
    forall i :: 0 <= i < |v| ==> NormalAt(v, i)
  }

  ghost predicate NormalAt(v: Bytes, i: nat)
    requires i < |v|
  {
    v[i] != TAB && (v[i] == SPACE ==> 0 < i && i + 1 < |v| && !IsOws(v[i - 1]) && v[i - 1] != COMMA)
  }

  lemma {:induction false} NormalizeFromIsNormal(output: Bytes, value: Bytes, whitespace: bool)
    requires IsNormal(output)
    ensures IsNormal(NormalizeFrom(output, value, whitespace))
    decreases |value|
  {
    if value == [] {
    } else if IsOws(value[0]) {
      NormalizeFromIsNormal(output, value[1..], true);
    } else {
      var next := Separated(output, whitespace) + [value[0]];
      forall i | 0 <= i < |next|
        ensures NormalAt(next, i)
      {
        if i < |output| {
          assert NormalAt(output, i);
        }
        if output != [] {
          assert NormalAt(output, |output| - 1);
        }
      }
      NormalizeFromIsNormal(next, value[1..], false);
    }
  }

  /** Reading the next bytes of a normal value rebuilds them one for one. */
  lemma {:induction false} NormalizeFromRebuilds(v: Bytes, i: nat)
    requires IsNormal(v) && i <= |v|
    requires 0 < i < |v| ==> !IsOws(v[i - 1])
    ensures NormalizeFrom(v[..i], v[i..], false) == v
    decreases |v| - i
  {
    if i == |v| {
      assert v[..i] == v;
    } else {
      assert NormalAt(v, i);
      assert v[i..][1..] == v[i + 1..];
      assert v[..i] + [v[i]] == v[..i + 1];
      if v[i] == SPACE {
        assert NormalAt(v, i + 1);
        assert v[i + 1..][1..] == v[i + 2..];
        assert v[..i][|v[..i]| - 1] == v[i - 1];
        assert v[..i] + [SPACE] + [v[i + 1]] == v[..i + 2];
        NormalizeFromRebuilds(v, i + 2);
      } else {
        NormalizeFromRebuilds(v, i + 1);
      }
    }
  }

  lemma NormalIsTrimmed(v: Bytes)
    requires IsNormal(v)
    ensures TrimOws(v) == v
  {
    if v != [] {
      assert NormalAt(v, 0) && NormalAt(v, |v| - 1);
    }
    TrimOwsFixed(v);
  }

  /** A normalised value is its own normal form, so a key built from normalised headers
      is the key built from the originals. */
  lemma NormalizeIdempotent(lines: seq<Bytes>)
    ensures IsNormal(NormalizeLines(lines))
    ensures lines != [] ==> NormalizeLines([NormalizeLines(lines)]) == NormalizeLines(lines)
  {
    NormalizeLinesIsNormal(lines);
    var v := NormalizeLines(lines);
    NormalIsTrimmed(v);
    NormalizeFromRebuilds(v, 0);
    assert v[..0] == [] && v[0..] == v;
  }

  lemma {:induction false} NormalizeLinesIsNormal(lines: seq<Bytes>)
    ensures IsNormal(NormalizeLines(lines))
  {
    if lines == [] {
    } else if |lines| == 1 {
      NormalizeFromIsNormal([], TrimOws(lines[0]), false);
    } else {
      var front := NormalizeLines(lines[..|lines| - 1]);
      NormalizeLinesIsNormal(lines[..|lines| - 1]);
      forall i | 0 <= i < |front + [COMMA]|
        ensures NormalAt(front + [COMMA], i)
      {
        if i < |front| {
          assert NormalAt(front, i);
        }
      }
      NormalizeFromIsNormal(front + [COMMA], TrimOws(lines[|lines| - 1]), false);
    }
  }

  // ---------------------------------------------------------------- one line or several

  function EndsInOws(s: Bytes, whitespace: bool): bool {
    if s == [] then whitespace else IsOws(s[|s| - 1])
  }

  lemma {:induction false} NormalizeFromSplit(output: Bytes, s: Bytes, t: Bytes, whitespace: bool)
    ensures NormalizeFrom(output, s + t, whitespace)
         == NormalizeFrom(NormalizeFrom(output, s, whitespace), t, EndsInOws(s, whitespace))
    decreases |s|
  {
    if s == [] {
      assert s + t == t;
    } else {
      assert (s + t)[1..] == s[1..] + t;
      if IsOws(s[0]) {
        NormalizeFromSplit(output, s[1..], t, true);
      } else {
        NormalizeFromSplit(Separated(output, whitespace) + [s[0]], s[1..], t, false);
      }
    }
  }

  lemma {:induction false} NormalizeFromExtends(output: Bytes, value: Bytes, whitespace: bool)
    ensures output <= NormalizeFrom(output, value, whitespace)
    decreases |value|
  {
    if value == [] {
    } else if IsOws(value[0]) {
      NormalizeFromExtends(output, value[1..], true);
    } else {
      NormalizeFromExtends(Separated(output, whitespace) + [value[0]], value[1..], false);
    }
  }

  /** Trailing whitespace writes nothing. */
  lemma {:induction false} TrailingOwsIgnored(output: Bytes, s: Bytes, whitespace: bool)
    ensures NormalizeFrom(output, s, whitespace) == NormalizeFrom(output, TrimEnd(s), whitespace)
    decreases |s|
  {
    if s != [] && IsOws(s[|s| - 1]) {
      var front, last := s[..|s| - 1], [s[|s| - 1]];
      assert s == front + last;
      NormalizeFromSplit(output, front, last, whitespace);
      assert last[1..] == [];
      TrailingOwsIgnored(output, front, whitespace);
    }
  }

  /** Leading whitespace writes nothing after a comma. */
  lemma {:induction false} LeadingOwsIgnored(output: Bytes, s: Bytes, whitespace: bool)
    requires output != [] && output[|output| - 1] == COMMA
    ensures NormalizeFrom(output, s, whitespace) == NormalizeFrom(output, TrimStart(s), false)
    decreases |s|
  {
    if s != [] && IsOws(s[0]) {
      LeadingOwsIgnored(output, s[1..], true);
    }
  }

  lemma {:induction false} TrimStartStops(a: Bytes, b: Bytes)
    ensures TrimStart(a + [COMMA] + b) == TrimStart(a) + [COMMA] + b
  {
    var whole := a + [COMMA] + b;
    if a != [] && IsOws(a[0]) {
      assert whole[1..] == a[1..] + [COMMA] + b;
      TrimStartStops(a[1..], b);
    }
  }

  lemma {:induction false} TrimEndStops(a: Bytes, b: Bytes)
    ensures TrimEnd(a + [COMMA] + b) == a + [COMMA] + TrimEnd(b)
  {
    var whole := a + [COMMA] + b;
    if b != [] && IsOws(b[|b| - 1]) {
      assert whole[..|whole| - 1] == a + [COMMA] + b[..|b| - 1];
      TrimEndStops(a, b[..|b| - 1]);
    } else if b == [] {
      assert whole[|whole| - 1] == COMMA;
    }
  }

  /** The last byte written is the last byte read, when that is not whitespace. */
  lemma {:induction false} LastByteKept(output: Bytes, s: Bytes, whitespace: bool)
    requires s != [] && !IsOws(s[|s| - 1])
    ensures var n := NormalizeFrom(output, s, whitespace); n != [] && n[|n| - 1] == s[|s| - 1]
    decreases |s|
  {
    if |s| == 1 {
      assert s[1..] == [];
    } else if IsOws(s[0]) {
      LastByteKept(output, s[1..], true);
    } else {
      LastByteKept(Separated(output, whitespace) + [s[0]], s[1..], false);
    }
  }

  /** Whitespace between the last content byte and the end of a field line. */
  predicate PadsItsEnd(a: Bytes) {
    var t := TrimOws(a);
    a != [] && IsOws(a[|a| - 1]) && t != [] && t[|t| - 1] != COMMA
  }

  /** A field sent on two lines gives the same key as the lines joined by a comma exactly
      when the first line has no padding after its content (section 5.3 of RFC 9110 lets
      a sender choose either form). */
  lemma TwoLinesAsOne(a: Bytes, b: Bytes)
    ensures NormalizeLines([a, b]) == NormalizeLines([a + [COMMA] + b]) <==> !PadsItsEnd(a)
  {
    var x, y := TrimStart(a), TrimEnd(b);
    var padded := EndsInOws(x, false);
    var n := NormalizeFrom([], x, false);
    TrimStartStops(a, b);
    TrimEndStops(x, b);
    assert x + [COMMA] + y == x + ([COMMA] + y);
    NormalizeFromSplit([], x, [COMMA] + y, false);
    assert ([COMMA] + y)[1..] == y;
    assert NormalizeLines([a + [COMMA] + b]) == NormalizeFrom(Separated(n, padded) + [COMMA], y, false);
    TwoLinesSeparately(a, b);
    TrailingOwsIgnored([], x, false);
    TrimEndEnds(x);
    TrimStartEnds(a);
    TrimStartKeepsEnd(a);
    if TrimEnd(x) != [] {
      LastByteKept([], TrimEnd(x), false);
    }
    NormalizeFromExtends(n + [SPACE] + [COMMA], y, false);
    NormalizeFromExtends(n + [COMMA], y, false);
    assert (n + [SPACE] + [COMMA])[|n|] != (n + [COMMA])[|n|];
  }

  lemma TwoLinesSeparately(a: Bytes, b: Bytes)
    ensures NormalizeLines([a, b]) == NormalizeFrom(NormalizeFrom([], TrimStart(a), false) + [COMMA], TrimEnd(b), false)
  {
    var n := NormalizeFrom([], TrimStart(a), false);
    TrailingOwsIgnored([], TrimStart(a), false);
    assert [a, b][..1] == [a];
    LeadingOwsIgnored(n + [COMMA], b, false);
    TrailingOwsIgnored(n + [COMMA], TrimStart(b), false);
    TrailingOwsIgnored(n + [COMMA], b, false);
  }

  lemma {:induction false} TrimStartKeepsEnd(a: Bytes)
    ensures TrimStart(a) != [] ==> TrimStart(a)[|TrimStart(a)| - 1] == a[|a| - 1]
  {
    if a != [] && IsOws(a[0]) {
      TrimStartKeepsEnd(a[1..]);
    }
  }

  // ---------------------------------------------------------------- what a normal form says

  /** Everything but whitespace. */
  function Letters(s: Bytes): Bytes {
    if s == [] then [] else if IsOws(s[0]) then Letters(s[1..]) else [s[0]] + Letters(s[1..])
  }

  /** The lines with commas between them. */
  function Joined(lines: seq<Bytes>): Bytes {
    if lines == [] then []
    else if |lines| == 1 then lines[0]
    else Joined(lines[..|lines| - 1]) + [COMMA] + lines[|lines| - 1]
  }

  lemma {:induction false} LettersAppend(a: Bytes, b: Bytes)
    ensures Letters(a + b) == Letters(a) + Letters(b)
  {
    if a == [] {
      assert a + b == b;
    } else {
      assert (a + b)[1..] == a[1..] + b;
      LettersAppend(a[1..], b);
    }
  }

  lemma {:induction false} PaddingHasNoLetters(s: Bytes)
    requires AllOws(s)
    ensures Letters(s) == []
  {
    if s != [] {
      PaddingHasNoLetters(s[1..]);
    }
  }

  lemma TrimKeepsLetters(s: Bytes)
    ensures Letters(TrimOws(s)) == Letters(s)
  {
    hide TrimOws, Letters;
    var before, after := TrimTakesPadding(s);
    PaddingHasNoLetters(before);
    PaddingHasNoLetters(after);
    LettersAppend(before, TrimOws(s));
    LettersAppend(before + TrimOws(s), after);
  }

  lemma {:induction false} NormalizeFromKeepsLetters(output: Bytes, value: Bytes, whitespace: bool)
    ensures Letters(NormalizeFrom(output, value, whitespace)) == Letters(output) + Letters(value)
    decreases |value|
  {
    if value == [] {
    } else if IsOws(value[0]) {
      NormalizeFromKeepsLetters(output, value[1..], true);
    } else {
      NormalizeFromKeepsLetters(Separated(output, whitespace) + [value[0]], value[1..], false);
      OneMoreLetter(output, value[0], whitespace);
      assert value == [value[0]] + value[1..];
      LettersAppend([value[0]], value[1..]);
    }
  }

  lemma OneMoreLetter(output: Bytes, b: Byte, whitespace: bool)
    ensures Letters(Separated(output, whitespace) + [b]) == Letters(output) + Letters([b])
  {
    LettersAppend(output, [SPACE]);
    LettersAppend(Separated(output, whitespace), [b]);
    assert Letters([SPACE]) == [];
  }

  /** Normalising changes nothing but whitespace. */
  lemma {:induction false} NormalizeKeepsLetters(lines: seq<Bytes>)
    ensures Letters(NormalizeLines(lines)) == Letters(Joined(lines))
  {
    if lines != [] {
      var front, last := lines[..|lines| - 1], lines[|lines| - 1];
      TrimKeepsLetters(last);
      if |lines| == 1 {
        NormalizeFromKeepsLetters([], TrimOws(last), false);
      } else {
        NormalizeKeepsLetters(front);
        LettersAppend(NormalizeLines(front), [COMMA]);
        LettersAppend(Joined(front), [COMMA]);
        LettersAppend(Joined(front) + [COMMA], last);
        NormalizeFromKeepsLetters(NormalizeLines(front) + [COMMA], TrimOws(last), false);
      }
    }
  }

  // ---------------------------------------------------------------- keys and matching

  function VaryValueFor(headers: Headers, name: Bytes): VaryValue {
    var lines := ValuesOf(headers, name);
    VaryValue(name, lines != [], NormalizeLines(lines))
  }

  function VaryValuesFor(headers: Headers, names: seq<Bytes>): seq<VaryValue> {
    seq(|names|, i requires 0 <= i < |names| => VaryValueFor(headers, names[i]))
  }

  /** The key of a request under a `Vary` name list. */
  function KeyFor(base: BaseKey, headers: Headers, names: seq<Bytes>): CacheKey {
    CacheKey(base, VaryValuesFor(headers, names))
  }

  /** `CacheKey::new`. */
  method NewKey(base: BaseKey, headers: Headers, vary: Vary, maxBytes: nat) returns (r: Result<CacheKey, KeyError>)
    ensures vary.Any? ==> r == Err(VaryAny)
    ensures vary.Names? ==>
              var k := KeyFor(base, headers, vary.names);
              r == if KeyLen(k) > maxBytes then Err(TooLarge) else Ok(k)
  {
    if vary.Any? {
      return Err(VaryAny);
    }
    var values: seq<VaryValue> := [];
    for i := 0 to |vary.names|
      invariant values == VaryValuesFor(headers, vary.names[..i])
    {
      var name := vary.names[i];
      var all := ValuesOf(headers, name);
      var normalized: Bytes := [];
      for index := 0 to |all|
        invariant normalized == NormalizeLines(all[..index])
      {
        assert all[..index + 1][..index] == all[..index];
        if index != 0 {
          normalized := normalized + [COMMA];
        }
        normalized := NormalizeFieldValue(all[index], normalized);
      }
      assert all[..|all|] == all;
      values := values + [VaryValue(name, all != [], normalized)];
      assert vary.names[..i + 1] == vary.names[..i] + [name];
    }
    assert vary.names[..|vary.names|] == vary.names;
    var key := CacheKey(base, values);
    r := if KeyLen(key) > maxBytes then Err(TooLarge) else Ok(key);
  }

  function NamesOf(k: CacheKey): seq<Bytes> {
    seq(|k.vary|, i requires 0 <= i < |k.vary| => k.vary[i].name)
  }

  /** `CacheKey::matches_request`. */
  predicate MatchesRequest(k: CacheKey, base: BaseKey, headers: Headers, maxBytes: nat) {
    k.base == base &&
    var rebuilt := KeyFor(base, headers, NamesOf(k));
    KeyLen(rebuilt) <= maxBytes && rebuilt == k
  }

  /** `CacheKey::same_vary_schema`. */
  predicate SameSchema(a: CacheKey, b: CacheKey) {
    |a.vary| == |b.vary| && forall i :: 0 <= i < |a.vary| ==> a.vary[i].name == b.vary[i].name
  }

  /** A key matches the very request it was built from. */
  lemma BuiltKeyMatches(base: BaseKey, headers: Headers, names: seq<Bytes>, maxBytes: nat)
    requires KeyLen(KeyFor(base, headers, names)) <= maxBytes
    ensures MatchesRequest(KeyFor(base, headers, names), base, headers, maxBytes)
  {
    assert NamesOf(KeyFor(base, headers, names)) == names;
  }

  /** Both have the field, with the same value up to whitespace and lines, or neither has it. */
  predicate SameField(a: Headers, b: Headers, name: Bytes) {
    && (ValuesOf(a, name) == [] <==> ValuesOf(b, name) == [])
    && NormalizeLines(ValuesOf(a, name)) == NormalizeLines(ValuesOf(b, name))
  }

  /** A key that matches one request matches another exactly if that asks for the same base
      and both carry the same values of every listed field. */
  lemma MatchesBothIff(k: CacheKey, base: BaseKey, a: Headers, other: BaseKey, b: Headers, maxBytes: nat)
    requires MatchesRequest(k, base, a, maxBytes)
    ensures MatchesRequest(k, other, b, maxBytes) <==>
              base == other && forall i :: 0 <= i < |k.vary| ==> SameField(a, b, k.vary[i].name)
  {
    hide NormalizeLines, ValuesOf, KeyLen;
    var names := NamesOf(k);
    assert k.vary == VaryValuesFor(a, names);
    if base == other && forall i :: 0 <= i < |k.vary| ==> SameField(a, b, k.vary[i].name) {
      forall i | 0 <= i < |names|
        ensures VaryValueFor(b, names[i]) == k.vary[i]
      {
        assert k.vary[i] == VaryValueFor(a, names[i]);
      }
      assert VaryValuesFor(b, names) == k.vary;
    }
    if MatchesRequest(k, other, b, maxBytes) {
      forall i | 0 <= i < |k.vary|
        ensures SameField(a, b, k.vary[i].name)
      {
        assert VaryValueFor(a, names[i]) == k.vary[i] == VaryValueFor(b, names[i]);
      }
    }
  }

  /** Two keys of one schema cannot both match a request unless they are the same key. */
  lemma MatchUniqueInSchema(a: CacheKey, b: CacheKey, base: BaseKey, headers: Headers, maxBytes: nat)
    requires MatchesRequest(a, base, headers, maxBytes) && MatchesRequest(b, base, headers, maxBytes)
    requires SameSchema(a, b)
    ensures a == b
  {
    assert NamesOf(a) == NamesOf(b);
  }
}
