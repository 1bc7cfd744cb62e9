/** Building keys from a request (`key.rs`): `BaseKey::new`, `canonical_authority` and
    `Vary::parse`. The authority grammar of the URI library is modelled as
    `[userinfo "@"] host [":" port]` with `host` bracketed or free of colons. */
module Identity {
  import opened Prelude
  import opened Http
  import opened Keys

  const OPEN_BRACKET: Byte := 91
  const CLOSE_BRACKET: Byte := 93
  const AT: Byte := 64
  const QUESTION: Byte := 63
  const HASH: Byte := 35

  // ---------------------------------------------------------------- decimal ports

  function Decimal(n: nat): Bytes {
    if n < 10 then [48 + n] else Decimal(n / 10) + [48 + n % 10]
  }

  predicate AllDigits(s: Bytes) {
    forall i :: 0 <= i < |s| ==> IsDigit(s[i])
  }

  function DecimalValue(s: Bytes): nat
    requires AllDigits(s)
  {
    if s == [] then 0 else DecimalValue(s[..|s| - 1]) * 10 + (s[|s| - 1] - 48)
  }

  lemma {:induction false} DecimalRoundTrip(n: nat)
    ensures Decimal(n) != [] && AllDigits(Decimal(n)) && DecimalValue(Decimal(n)) == n
  {
    if n < 10 {
      assert Decimal(n)[..0] == [];
    } else {
      DecimalRoundTrip(n / 10);
      assert Decimal(n)[..|Decimal(n)| - 1] == Decimal(n / 10);
    }
  }

  // ---------------------------------------------------------------- authority

  datatype Authority = Authority(host: Bytes, port: Option<nat>)

  function IndexOf(s: Bytes, b: Byte): (i: nat)
    ensures i <= |s|
    ensures forall j :: 0 <= j < i ==> s[j] != b
    ensures i < |s| ==> s[i] == b
  {
    if s == [] || s[0] == b then 0 else 1 + IndexOf(s[1..], b)
  }

  /** The part after the last `@`. */
  function AfterUserinfo(s: Bytes): (r: Bytes)
    ensures AT !in r
    ensures AT !in s ==> r == s
    ensures Visible(s) ==> Visible(r)
  {
    if AT !in s then s else AfterUserinfo(s[IndexOf(s, AT) + 1..])
  }

  predicate Plain(s: Bytes) {
    COLON !in s && OPEN_BRACKET !in s && CLOSE_BRACKET !in s
  }

  /** A number may have a plus sign in front. */
  function Unsigned(number: Bytes): Bytes {
    if number != [] && number[0] == PLUS then number[1..] else number
  }

  function ParsePort(rest: Bytes): Option<nat> {
    if rest == [] || rest[0] != COLON then None
    else
      var digits := Unsigned(rest[1..]);
      if digits != [] && AllDigits(digits) && DecimalValue(digits) <= U16_MAX then Some(DecimalValue(digits)) else None
  }

  /** `rest` is what may follow a host: nothing, or one colon and no further delimiter. */
  predicate ValidTail(rest: Bytes) {
    rest == [] || (rest[0] == COLON && Plain(rest[1..]))
  }

  predicate IsUriByte(b: Byte) {
    33 <= b <= 126
  }

  predicate Visible(s: Bytes) {
    forall i :: 0 <= i < |s| ==> IsUriByte(s[i])
  }

  function ParseAuthority(raw: Bytes): Option<Authority> {
    var hostPort := AfterUserinfo(raw);
    if hostPort == [] || !Visible(raw) then None
    else if hostPort[0] == OPEN_BRACKET then
      var close := IndexOf(hostPort, CLOSE_BRACKET);
      if close == |hostPort| || OPEN_BRACKET in hostPort[1..close] || !ValidTail(hostPort[close + 1..]) then None
      else Some(Authority(hostPort[1..close], ParsePort(hostPort[close + 1..])))
    else
      var colon := IndexOf(hostPort, COLON);
      if !Plain(hostPort[..colon]) || !ValidTail(hostPort[colon..]) then None
      else Some(Authority(hostPort[..colon], ParsePort(hostPort[colon..])))
  }

  const HTTP: Bytes := Ascii("http")
  const HTTPS: Bytes := Ascii("https")

  predicate DefaultPort(scheme: Bytes, port: nat) {
    (port == 80 && scheme == HTTP) || (port == 443 && scheme == HTTPS)
  }

  function PrintHost(host: Bytes): Bytes {
    if COLON in host then [OPEN_BRACKET] + host + [CLOSE_BRACKET] else host
  }

  function PrintPort(port: Option<nat>, scheme: Bytes): Bytes {
    if port.None? || DefaultPort(scheme, port.value) then [] else [COLON] + Decimal(port.value)
  }

  /** `canonical_authority`. */
  function CanonicalAuthority(raw: Bytes, scheme: Bytes): Result<Bytes, KeyError> {
    match ParseAuthority(raw)
    case None => Err(InvalidAuthority)
    case Some(authority) => Ok(PrintHost(LowerAll(authority.host)) + PrintPort(authority.port, scheme))
  }

  lemma LowerKeepsDelimiters(s: Bytes, b: Byte)
    requires b in {COLON, OPEN_BRACKET, CLOSE_BRACKET, AT}
    ensures b in LowerAll(s) <==> b in s
  {
    if b in s {
      var i :| 0 <= i < |s| && s[i] == b;
      assert LowerAll(s)[i] == b;
    }
  }

  lemma ParsedHostShape(raw: Bytes)
    requires ParseAuthority(raw).Some?
    ensures var a := ParseAuthority(raw).value;
            AT !in a.host && OPEN_BRACKET !in a.host && CLOSE_BRACKET !in a.host && Visible(a.host)
            && (a.port.Some? ==> a.port.value <= U16_MAX)
  {
  }

  lemma PortRoundTrip(port: nat)
    requires port <= U16_MAX
    ensures var tail := [COLON] + Decimal(port);
            ValidTail(tail) && ParsePort(tail) == Some(port) && AT !in tail && Visible(tail)
  {
    DecimalRoundTrip(port);
    var tail := [COLON] + Decimal(port);
    assert tail[1..] == Decimal(port);
  }

  /** Printing a parsed, lower-cased authority and parsing it again gives it back. */
  lemma PrintedAuthorityParses(host: Bytes, tail: Bytes)
    requires AT !in host && OPEN_BRACKET !in host && CLOSE_BRACKET !in host
    requires ValidTail(tail) && AT !in tail
    requires PrintHost(host) + tail != [] && Visible(host) && Visible(tail)
    ensures ParseAuthority(PrintHost(host) + tail) == Some(Authority(host, ParsePort(tail)))
  {
    hide ParseAuthority, ParsePort, ValidTail, Visible;
    if COLON in host {
      BracketedParses(host, tail);
    } else {
      PlainParses(host, tail);
    }
  }

  lemma VisibleJoin(a: Bytes, b: Bytes)
    requires Visible(a) && Visible(b)
    ensures Visible(a + b)
  {
  }

  lemma BracketedParses(host: Bytes, tail: Bytes)
    requires AT !in host && OPEN_BRACKET !in host && CLOSE_BRACKET !in host
    requires ValidTail(tail) && AT !in tail && Visible(host) && Visible(tail)
    ensures ParseAuthority([OPEN_BRACKET] + host + [CLOSE_BRACKET] + tail) == Some(Authority(host, ParsePort(tail)))
  {
    hide ParsePort, ValidTail, Visible, AfterUserinfo, IndexOf;
    var out := [OPEN_BRACKET] + host + [CLOSE_BRACKET] + tail;
    assert Visible([OPEN_BRACKET]) && Visible([CLOSE_BRACKET]) by {
      OneVisible(OPEN_BRACKET);
      OneVisible(CLOSE_BRACKET);
    }
    VisibleJoin([OPEN_BRACKET], host);
    VisibleJoin([OPEN_BRACKET] + host, [CLOSE_BRACKET]);
    VisibleJoin([OPEN_BRACKET] + host + [CLOSE_BRACKET], tail);
    assert AfterUserinfo(out) == out;
    var close := |host| + 1;
    assert out[close] == CLOSE_BRACKET && out[1..close] == host && out[close + 1..] == tail;
    assert IndexOf(out, CLOSE_BRACKET) == close;
  }

  lemma OneVisible(b: Byte)
    requires IsUriByte(b)
    ensures Visible([b])
  {
  }

  lemma PlainParses(host: Bytes, tail: Bytes)
    requires AT !in host && OPEN_BRACKET !in host && CLOSE_BRACKET !in host && COLON !in host
    requires ValidTail(tail) && AT !in tail && Visible(host) && Visible(tail) && host + tail != []
    ensures ParseAuthority(host + tail) == Some(Authority(host, ParsePort(tail)))
  {
    hide ParsePort, Visible, AfterUserinfo, IndexOf;
    var out := host + tail;
    VisibleJoin(host, tail);
    assert AfterUserinfo(out) == out;
    assert tail != [] ==> out[|host|] == COLON;
    assert forall i :: 0 <= i < |host| ==> out[i] in host;
    assert IndexOf(out, COLON) == |host|;
    assert out[..|host|] == host && out[|host|..] == tail;
  }

  /** Canonicalisation is idempotent exactly on the authorities whose canonical form is
      not empty; the empty form arises from an empty host with no port or the scheme's
      default one. */
  lemma CanonicalAuthorityIdempotent(raw: Bytes, scheme: Bytes)
    requires CanonicalAuthority(raw, scheme).Ok?
    ensures var out := CanonicalAuthority(raw, scheme).value;
            var a := ParseAuthority(raw).value;
            && (CanonicalAuthority(out, scheme) == Ok(out) <==> out != [])
            && (out == [] <==> a.host == [] && (a.port.None? || DefaultPort(scheme, a.port.value)))
  {
    var a := ParseAuthority(raw).value;
    ParsedHostShape(raw);
    var host := LowerAll(a.host);
    LowerKeepsDelimiters(a.host, AT);
    LowerKeepsDelimiters(a.host, OPEN_BRACKET);
    LowerKeepsDelimiters(a.host, CLOSE_BRACKET);
    LowerAllIdempotent(a.host);
    var tail := PrintPort(a.port, scheme);
    if tail != [] {
      PortRoundTrip(a.port.value);
    }
    if PrintHost(host) + tail != [] {
      PrintedAuthorityParses(host, tail);
    }
  }

  /** The failing family is real: an `http` request for authority ":80". */
  lemma EmptyHostIsLost()
    ensures CanonicalAuthority([COLON, 56, 48], HTTP) == Ok([])
    ensures CanonicalAuthority([], HTTP).Err?
  {
    var raw: Bytes := [COLON, 56, 48];
    assert AfterUserinfo(raw) == raw;
    var digits: Bytes := [56, 48];
    assert IndexOf(raw, COLON) == 0 && raw[0..] == raw && raw[..0] == [] && raw[1..] == digits;
    assert digits[..1] == [56] && digits[..1][..0] == [];
    assert AllDigits(digits) && DecimalValue(digits[..1]) == 8;
    assert DecimalValue(digits) == 80;
    assert Plain(raw[..0]) && ValidTail(raw);
    assert ParseAuthority(raw) == Some(Authority([], Some(80)));
    assert PrintHost(LowerAll([])) + PrintPort(Some(80), HTTP) == [];
  }

  // ---------------------------------------------------------------- what an authority spells

  /** An optional plus sign and the digits of a number that fits in 16 bits. */
  predicate SpellsPort(text: Bytes, n: nat) {
    && n <= U16_MAX && (SpellsNumber(text, n) || (text != [] && text[0] == PLUS && SpellsNumber(text[1..], n)))
  }

  predicate SpellsNumber(text: Bytes, n: nat) {
    text != [] && AllDigits(text) && DecimalValue(text) == n
  }

  /** What follows the host: nothing, or a colon and a text that spells the port, if any. */
  ghost predicate SpellsTail(tail: Bytes, port: Option<nat>) {
    || (tail == [] && port == None)
    || (&& tail != [] && tail[0] == COLON && Plain(tail[1..])
        && match port
           case Some(n) => SpellsPort(tail[1..], n)
           case None => forall n: nat :: !SpellsPort(tail[1..], n))
  }

  /** The host as written: in brackets, or plain. */
  predicate SpellsHost(text: Bytes, host: Bytes) {
    || (text == host && Plain(host) && (text != [] ==> text[0] != OPEN_BRACKET))
    || (text == [OPEN_BRACKET] + host + [CLOSE_BRACKET] && OPEN_BRACKET !in host && CLOSE_BRACKET !in host)
  }

  /** Perhaps a user, then the host, then perhaps a port. */
  ghost predicate SpellsParts(raw: Bytes, user: Bytes, text: Bytes, tail: Bytes, host: Bytes, port: Option<nat>) {
    && raw == user + (text + tail) && text + tail != [] && Visible(raw)
    && (user == [] || user[|user| - 1] == AT) && AT !in text + tail
    && SpellsHost(text, host) && SpellsTail(tail, port)
  }

  ghost predicate Spells(raw: Bytes, host: Bytes, port: Option<nat>) {
    exists user, text, tail :: SpellsParts(raw, user, text, tail, host, port)
  }

  /** An authority parses to a host and a port exactly if it spells them. */
  lemma ParseIffSpells(raw: Bytes, host: Bytes, port: Option<nat>)
    ensures ParseAuthority(raw) == Some(Authority(host, port)) <==> Spells(raw, host, port)
  {
    hide ParseAuthority, Spells, SpellsParts;
    if ParseAuthority(raw) == Some(Authority(host, port)) {
      ParsedSpells(raw);
    }
    if Spells(raw, host, port) {
      SpelledParses(raw, host, port);
    }
  }

  lemma {:induction false} AfterUserinfoSplits(s: Bytes) returns (user: Bytes)
    ensures s == user + AfterUserinfo(s) && (user == [] || user[|user| - 1] == AT)
    decreases |s|
  {
    hide Visible, IndexOf;
    if AT in s {
      var i := IndexOf(s, AT);
      var front, rest := s[..i + 1], s[i + 1..];
      var more := AfterUserinfoSplits(rest);
      user := front + more;
      var last := AfterUserinfo(rest);
      assert front + more + last == front + (more + last);
      assert s == front + rest;
    } else {
      user := [];
      assert [] + s == s;
    }
  }

  lemma {:induction false} AfterUserinfoIs(user: Bytes, rest: Bytes)
    requires (user == [] || user[|user| - 1] == AT) && AT !in rest
    ensures AfterUserinfo(user + rest) == rest
    decreases |user|
  {
    var s := user + rest;
    if user == [] {
      assert s == rest;
    } else {
      assert s[|user| - 1] == AT;
      var i := IndexOf(s, AT);
      assert i < |user|;
      assert s[i + 1..] == user[i + 1..] + rest;
      AfterUserinfoIs(user[i + 1..], rest);
    }
  }

  lemma PortIffSpells(tail: Bytes, port: Option<nat>)
    requires ValidTail(tail)
    ensures ParsePort(tail) == port <==> SpellsTail(tail, port)
  {
    if tail != [] {
      var text := tail[1..];
      forall n: nat
        ensures SpellsPort(text, n) <==> ParsePort(tail) == Some(n)
      {
        if text != [] && text[0] == PLUS {
          assert !IsDigit(text[0]);
        }
      }
    }
  }

  lemma ParsedSpells(raw: Bytes)
    requires ParseAuthority(raw).Some?
    ensures var a := ParseAuthority(raw).value; Spells(raw, a.host, a.port)
  {
    hide AfterUserinfo, SpellsParts, SpellsHost, SpellsTail;
    var a, rest := ParseAuthority(raw).value, AfterUserinfo(raw);
    var user := AfterUserinfoSplits(raw);
    var text, tail := RestSplits(raw);
    PortIffSpells(tail, a.port);
    PartsMade(raw, user, text, tail, a.host, a.port);
  }

  lemma PartsMade(raw: Bytes, user: Bytes, text: Bytes, tail: Bytes, host: Bytes, port: Option<nat>)
    requires raw == user + (text + tail) && text + tail != [] && Visible(raw)
    requires (user == [] || user[|user| - 1] == AT) && AT !in text + tail
    requires SpellsHost(text, host) && SpellsTail(tail, port)
    ensures Spells(raw, host, port)
  {
    hide SpellsHost, SpellsTail, Visible;
    assert SpellsParts(raw, user, text, tail, host, port);
  }

  /** What a parsed authority is made of after the user. */
  lemma RestSplits(raw: Bytes) returns (text: Bytes, tail: Bytes)
    requires ParseAuthority(raw).Some?
    ensures var a := ParseAuthority(raw).value;
            && AfterUserinfo(raw) == text + tail && text + tail != [] && Visible(raw)
            && SpellsHost(text, a.host) && ValidTail(tail) && ParsePort(tail) == a.port
  {
    hide ParsePort, Visible, AfterUserinfo, IndexOf;
    var rest := AfterUserinfo(raw);
    if rest[0] == OPEN_BRACKET {
      var close := IndexOf(rest, CLOSE_BRACKET);
      text, tail := rest[..close + 1], rest[close + 1..];
      assert text == [OPEN_BRACKET] + rest[1..close] + [CLOSE_BRACKET];
      assert CLOSE_BRACKET !in rest[1..close];
    } else {
      var colon := IndexOf(rest, COLON);
      text, tail := rest[..colon], rest[colon..];
    }
    assert rest == text + tail;
  }

  lemma SpelledParses(raw: Bytes, host: Bytes, port: Option<nat>)
    requires Spells(raw, host, port)
    ensures ParseAuthority(raw) == Some(Authority(host, port))
  {
    hide ParseAuthority, SpellsHost, SpellsTail, AfterUserinfo, Visible;
    var user, text, tail :| SpellsParts(raw, user, text, tail, host, port);
    AfterUserinfoIs(user, text + tail);
    TailValid(tail, port);
    PortIffSpells(tail, port);
    TextParses(raw, text, tail, host);
  }

  lemma TailValid(tail: Bytes, port: Option<nat>)
    requires SpellsTail(tail, port)
    ensures ValidTail(tail)
  {
    hide SpellsPort;
  }

  lemma TextParses(raw: Bytes, text: Bytes, tail: Bytes, host: Bytes)
    requires AfterUserinfo(raw) == text + tail && text + tail != [] && Visible(raw)
    requires SpellsHost(text, host) && ValidTail(tail)
    ensures ParseAuthority(raw) == Some(Authority(host, ParsePort(tail)))
  {
    hide ParseAuthority, ParsePort, Visible, AfterUserinfo, ValidTail;
    if text == [OPEN_BRACKET] + host + [CLOSE_BRACKET] {
      BracketsParse(raw, tail, host);
    } else {
      PlainTextParses(raw, tail, host);
    }
  }

  lemma BracketsParse(raw: Bytes, tail: Bytes, host: Bytes)
    requires AfterUserinfo(raw) == [OPEN_BRACKET] + host + [CLOSE_BRACKET] + tail && Visible(raw)
    requires OPEN_BRACKET !in host && CLOSE_BRACKET !in host && ValidTail(tail)
    ensures ParseAuthority(raw) == Some(Authority(host, ParsePort(tail)))
  {
    hide ParsePort, Visible, AfterUserinfo, IndexOf, ValidTail;
    var rest, close := AfterUserinfo(raw), |host| + 1;
    assert rest[close] == CLOSE_BRACKET && rest[1..close] == host && rest[close + 1..] == tail;
    assert forall i :: 0 < i < close ==> rest[i] == host[i - 1];
    assert IndexOf(rest, CLOSE_BRACKET) == close;
  }

  lemma PlainTextParses(raw: Bytes, tail: Bytes, host: Bytes)
    requires AfterUserinfo(raw) == host + tail && host + tail != [] && Visible(raw)
    requires Plain(host) && ValidTail(tail)
    ensures ParseAuthority(raw) == Some(Authority(host, ParsePort(tail)))
  {
    hide ParsePort, Visible, AfterUserinfo, IndexOf;
    var rest := host + tail;
    assert tail != [] ==> rest[|host|] == COLON;
    assert forall i :: 0 <= i < |host| ==> rest[i] in host;
    assert IndexOf(rest, COLON) == |host| && rest[..|host|] == host && rest[|host|..] == tail;
  }

  // ---------------------------------------------------------------- base keys

  predicate IsSchemeByte(b: Byte, first: bool) {
    IsAlpha(b) || (!first && (IsDigit(b) || b == 43 || b == 45 || b == 46))
  }

  predicate ValidPath(path: Bytes) {
    path != [] && path[0] == SLASH && QUESTION !in path && HASH !in path
    && Visible(path)
  }

  predicate ValidQuery(query: Option<Bytes>) {
    query.Some? ==> HASH !in query.value && Visible(query.value)
  }

  predicate ValidScheme(scheme: Bytes) {
    scheme != [] && forall i :: 0 <= i < |scheme| ==> IsSchemeByte(scheme[i], i == 0)
  }

  /** `BaseKey::new`. */
  function NewBaseKey(input: KeyInput, maxBytes: nat): Result<BaseKey, KeyError> {
    if !ValidPath(input.path) then Err(InvalidPath)
    else if !ValidQuery(input.query) then Err(InvalidQuery)
    else
      var scheme := LowerAll(input.scheme);
      if !ValidScheme(scheme) then Err(InvalidScheme)
      else
        match CanonicalAuthority(input.authority, scheme)
        case Err(e) => Err(e)
        case Ok(authority) =>
          var verb := if input.verb == HEAD then GET else input.verb;
          var key := BaseKey(verb, scheme, authority, input.path, input.query);
          if BaseLen(key) > maxBytes then Err(TooLarge) else Ok(key)
  }

  function AsInput(b: BaseKey): KeyInput {
    KeyInput(b.verb, b.scheme, b.authority, b.path, b.query, [])
  }

  /** A base key built from a request is rebuilt unchanged from its own parts exactly when
      its authority is not empty. */
  lemma BaseKeyIdempotent(input: KeyInput, maxBytes: nat)
    requires NewBaseKey(input, maxBytes).Ok?
    ensures var b := NewBaseKey(input, maxBytes).value;
            && (NewBaseKey(AsInput(b), maxBytes) == Ok(b) <==> b.authority != [])
            && (b.authority == [] ==> NewBaseKey(AsInput(b), maxBytes) == Err(InvalidAuthority))
  {
    var scheme := LowerAll(input.scheme);
    LowerAllIdempotent(input.scheme);
    CanonicalAuthorityIdempotent(input.authority, scheme);
    assert GET != HEAD by {
      assert |GET| == 3 && |HEAD| == 4;
    }
  }

  // ---------------------------------------------------------------- one key for many requests

  /** HEAD counts as GET. */
  predicate SameVerb(a: Bytes, b: Bytes) {
    a == b || (a in {GET, HEAD} && b in {GET, HEAD})
  }

  /** The port a request goes to. */
  function EffectivePort(port: Option<nat>, scheme: Bytes): Option<nat> {
    if port.Some? then port
    else if SameText(scheme, Ascii("http")) then Some(80)
    else if SameText(scheme, Ascii("https")) then Some(443)
    else None
  }

  /** The same host, whatever its case, and the same port, written out or implied. */
  ghost predicate SamePlace(a: Bytes, b: Bytes, scheme: Bytes) {
    exists host, port, host', port' ::
      Spells(a, host, port) && Spells(b, host', port') && SameText(host, host')
      && EffectivePort(port, scheme) == EffectivePort(port', scheme)
  }

  /** The two requests ask for the same thing. */
  ghost predicate SameTarget(a: KeyInput, b: KeyInput) {
    && a.path == b.path && a.query == b.query && SameText(a.scheme, b.scheme) && SameVerb(a.verb, b.verb)
    && SamePlace(a.authority, b.authority, a.scheme)
  }

  /** Two requests that have a base key have the same one exactly if they ask for the same thing. */
  lemma SameBaseIff(a: KeyInput, b: KeyInput, maxBytes: nat)
    requires NewBaseKey(a, maxBytes).Ok? && NewBaseKey(b, maxBytes).Ok?
    ensures NewBaseKey(a, maxBytes) == NewBaseKey(b, maxBytes) <==> SameTarget(a, b)
  {
    hide CanonicalAuthority, SamePlace, SameText, ValidPath, ValidQuery, ValidScheme, BaseLen;
    LowerIffSameText(a.scheme, b.scheme);
    VerbsDiffer();
    if SameText(a.scheme, b.scheme) {
      SamePlaceIff(a.authority, b.authority, a.scheme);
    }
  }

  lemma VerbsDiffer()
    ensures GET != HEAD
  {
    assert |GET| == 3 && |HEAD| == 4;
  }

  lemma SamePlaceIff(a: Bytes, b: Bytes, scheme: Bytes)
    requires CanonicalAuthority(a, LowerAll(scheme)).Ok? && CanonicalAuthority(b, LowerAll(scheme)).Ok?
    ensures CanonicalAuthority(a, LowerAll(scheme)) == CanonicalAuthority(b, LowerAll(scheme)) <==>
              SamePlace(a, b, scheme)
  {
    hide ParseAuthority, Spells, EffectivePort, SameText;
    var x, y := ParseAuthority(a).value, ParseAuthority(b).value;
    PrintedIff(x, y, scheme, a, b);
    ParseIffSpells(a, x.host, x.port);
    ParseIffSpells(b, y.host, y.port);
    if SamePlace(a, b, scheme) {
      var host, port, host', port' :|
        Spells(a, host, port) && Spells(b, host', port') && SameText(host, host')
        && EffectivePort(port, scheme) == EffectivePort(port', scheme);
      ParseIffSpells(a, host, port);
      ParseIffSpells(b, host', port');
    }
  }

  lemma PrintedIff(x: Authority, y: Authority, scheme: Bytes, a: Bytes, b: Bytes)
    requires ParseAuthority(a) == Some(x) && ParseAuthority(b) == Some(y)
    ensures PrintHost(LowerAll(x.host)) + PrintPort(x.port, LowerAll(scheme))
            == PrintHost(LowerAll(y.host)) + PrintPort(y.port, LowerAll(scheme)) <==>
              SameText(x.host, y.host) && EffectivePort(x.port, scheme) == EffectivePort(y.port, scheme)
  {
    hide ParseAuthority, PrintHost, PrintPort, EffectivePort, SameText;
    ParsedHostShape(a);
    ParsedHostShape(b);
    LowerIffSameText(x.host, y.host);
    ShownIff(x.port, y.port, scheme);
    PrintedOnce(x, LowerAll(scheme));
    PrintedOnce(y, LowerAll(scheme));
    ShownPrints(x.port, y.port, LowerAll(scheme));
    EmptyPrinted(x, LowerAll(scheme));
    EmptyPrinted(y, LowerAll(scheme));
  }

  /** The port as it is shown. */
  function Shown(port: Option<nat>, scheme: Bytes): Option<nat> {
    if port.None? || DefaultPort(scheme, port.value) then None else port
  }

  lemma ShownIff(p: Option<nat>, q: Option<nat>, scheme: Bytes)
    ensures Shown(p, LowerAll(scheme)) == Shown(q, LowerAll(scheme)) <==>
              EffectivePort(p, scheme) == EffectivePort(q, scheme)
  {
    LowerIffSameText(scheme, Ascii("http"));
    LowerIffSameText(scheme, Ascii("https"));
    assert LowerAll(Ascii("http")) == HTTP && LowerAll(Ascii("https")) == HTTPS;
    assert |HTTP| == 4 && |HTTPS| == 5;
  }

  lemma ShownPrints(p: Option<nat>, q: Option<nat>, scheme: Bytes)
    ensures Shown(p, scheme) == Shown(q, scheme) ==> PrintPort(p, scheme) == PrintPort(q, scheme)
  {
  }

  /** What is printed gives back host and shown port. */
  lemma PrintedOnce(x: Authority, scheme: Bytes)
    requires AT !in x.host && OPEN_BRACKET !in x.host && CLOSE_BRACKET !in x.host && Visible(x.host)
    requires x.port.Some? ==> x.port.value <= U16_MAX
    ensures var out := PrintHost(LowerAll(x.host)) + PrintPort(x.port, scheme);
            out != [] ==> ParseAuthority(out) == Some(Authority(LowerAll(x.host), Shown(x.port, scheme)))
  {
    hide ParseAuthority;
    var host, tail := LowerAll(x.host), PrintPort(x.port, scheme);
    LowerKeepsDelimiters(x.host, AT);
    LowerKeepsDelimiters(x.host, OPEN_BRACKET);
    LowerKeepsDelimiters(x.host, CLOSE_BRACKET);
    if tail != [] {
      PortRoundTrip(x.port.value);
    }
    if PrintHost(host) + tail != [] {
      PrintedAuthorityParses(host, tail);
    }
  }

  lemma EmptyPrinted(x: Authority, scheme: Bytes)
    ensures PrintHost(LowerAll(x.host)) + PrintPort(x.port, scheme) == [] <==>
              LowerAll(x.host) == [] && Shown(x.port, scheme) == None
  {
  }

  /** What a base key holds, and when there is one. */
  lemma BaseKeyParts(input: KeyInput, maxBytes: nat)
    ensures NewBaseKey(input, maxBytes).Ok? <==>
              && input.path != [] && input.path[0] == SLASH && QUESTION !in input.path && HASH !in input.path
              && Visible(input.path) && ValidScheme(input.scheme)
              && (input.query.Some? ==> HASH !in input.query.value && Visible(input.query.value))
              && (exists host, port :: Spells(input.authority, host, port))
              && BaseLen(KeyWith(input, LowerAll(input.scheme))) <= maxBytes
    ensures NewBaseKey(input, maxBytes).Ok? ==>
              var b := NewBaseKey(input, maxBytes).value;
              && b.path == input.path && b.query == input.query && b.scheme == LowerAll(input.scheme)
              && b.verb == if input.verb == HEAD then GET else input.verb
  {
    hide ParseAuthority, Spells;
    LowerKeepsScheme(input.scheme);
    if ParseAuthority(input.authority).Some? {
      var a := ParseAuthority(input.authority).value;
      ParseIffSpells(input.authority, a.host, a.port);
    }
    if exists host, port :: Spells(input.authority, host, port) {
      var host, port :| Spells(input.authority, host, port);
      ParseIffSpells(input.authority, host, port);
    }
  }

  lemma LowerKeepsScheme(scheme: Bytes)
    ensures ValidScheme(LowerAll(scheme)) <==> ValidScheme(scheme)
  {
    forall i | 0 <= i < |scheme|
      ensures IsSchemeByte(LowerAll(scheme)[i], i == 0) <==> IsSchemeByte(scheme[i], i == 0)
    {
    }
  }

  /** The key before its length is checked. */
  ghost function KeyWith(input: KeyInput, scheme: Bytes): BaseKey {
    var authority := CanonicalAuthority(input.authority, scheme);
    BaseKey(if input.verb == HEAD then GET else input.verb, scheme, if authority.Ok? then authority.value else [],
            input.path, input.query)
  }

  // ---------------------------------------------------------------- Vary

  function SplitCommas(s: Bytes): (items: seq<Bytes>)
    ensures |items| > 0
    ensures forall i :: 0 <= i < |items| ==> COMMA !in items[i]
    decreases |s|
  {
    var i := IndexOf(s, COMMA);
    if i == |s| then [s] else [s[..i]] + SplitCommas(s[i + 1..])
  }

  /** The stretch from `i` to `j` is one piece between commas. */
  predicate Delimited(s: Bytes, i: nat, j: nat) {
    && i <= j <= |s| && (i == 0 || s[i - 1] == COMMA) && (j == |s| || s[j] == COMMA)
    && forall k :: i <= k < j ==> s[k] != COMMA
  }

  /** Some piece of the comma-separated list is this item, up to padding and case. */
  ghost predicate ListsItem(line: Bytes, item: Bytes) {
    exists i: nat, j: nat :: Delimited(line, i, j) && i <= j <= |line| && Denotes(line[i..j], item)
  }

  ghost predicate Denotes(raw: Bytes, item: Bytes) {
    exists before, core, after :: Padded(raw, before, core, after) && SameText(core, item)
  }

  ghost predicate ListedIn(lines: seq<Bytes>, item: Bytes) {
    exists i :: 0 <= i < |lines| && ListsItem(lines[i], item)
  }

  lemma DenotesIff(raw: Bytes, item: Bytes)
    ensures Denotes(raw, item) <==> LowerAll(TrimOws(raw)) == LowerAll(item)
  {
    hide SameText, TrimOws, Padded;
    var before, after := TrimTakesPadding(raw);
    LowerIffSameText(TrimOws(raw), item);
    forall b, core, a | Padded(raw, b, core, a)
      ensures core == TrimOws(raw)
    {
      PaddedIsTrim(raw, b, core, a);
    }
  }

  /** Pieces after a comma are pieces of the whole. */
  lemma DelimitedAfter(s: Bytes, at: nat, i: nat, j: nat)
    requires 0 < at <= |s| && s[at - 1] == COMMA
    ensures Delimited(s[at..], i, j) <==> Delimited(s, at + i, at + j)
    ensures Delimited(s[at..], i, j) ==> s[at..][i..j] == s[at + i..at + j]
  {
    var rest := s[at..];
    assert forall k :: 0 <= k < |rest| ==> rest[k] == s[at + k];
    if Delimited(rest, i, j) {
      forall k | at + i <= k < at + j
        ensures s[k] != COMMA
      {
        assert rest[k - at] != COMMA;
      }
    }
  }

  lemma FirstDelimited(s: Bytes, j: nat)
    ensures Delimited(s, 0, j) <==> j == IndexOf(s, COMMA)
  {
  }

  /** Splitting gives the pieces. */
  lemma {:induction false} SplitIsPiece(s: Bytes, n: nat) returns (i: nat, j: nat)
    requires n < |SplitCommas(s)|
    ensures Delimited(s, i, j) && i <= j <= |s| && SplitCommas(s)[n] == s[i..j]
    decreases |s|
  {
    hide Delimited, IndexOf;
    var comma := IndexOf(s, COMMA);
    FirstDelimited(s, comma);
    i, j := 0, comma;
    if n > 0 {
      i, j := SplitIsPiece(s[comma + 1..], n - 1);
      DelimitedAfter(s, comma + 1, i, j);
      i, j := comma + 1 + i, comma + 1 + j;
    }
  }

  lemma {:induction false} PieceIsSplit(s: Bytes, i: nat, j: nat) returns (n: nat)
    requires Delimited(s, i, j) && i <= j <= |s|
    ensures n < |SplitCommas(s)| && SplitCommas(s)[n] == s[i..j]
    decreases |s|
  {
    hide Delimited, IndexOf;
    var comma := IndexOf(s, COMMA);
    n := 0;
    if i == 0 {
      FirstDelimited(s, j);
      assert s[0..j] == s[..j] && s[..|s|] == s;
    } else {
      CommaBefore(s, i, j);
      DelimitedAfter(s, comma + 1, i - comma - 1, j - comma - 1);
      n := PieceIsSplit(s[comma + 1..], i - comma - 1, j - comma - 1);
      n := n + 1;
    }
  }

  lemma CommaBefore(s: Bytes, i: nat, j: nat)
    requires Delimited(s, i, j) && 0 < i
    ensures IndexOf(s, COMMA) < i && s[IndexOf(s, COMMA)] == COMMA
  {
  }

  predicate HasItem(items: seq<Bytes>, item: Bytes) {
    exists i :: 0 <= i < |items| && LowerAll(TrimOws(items[i])) == item
  }

  lemma ListsItemIff(line: Bytes, item: Bytes)
    ensures ListsItem(line, item) <==> HasItem(SplitCommas(line), LowerAll(item))
  {
    hide Denotes, TrimOws, Delimited, SplitCommas;
    if ListsItem(line, item) {
      var i: nat, j: nat :| Delimited(line, i, j) && i <= j <= |line| && Denotes(line[i..j], item);
      var n := PieceIsSplit(line, i, j);
      DenotesIff(line[i..j], item);
      assert LowerAll(TrimOws(SplitCommas(line)[n])) == LowerAll(item);
    }
    if HasItem(SplitCommas(line), LowerAll(item)) {
      var n :| 0 <= n < |SplitCommas(line)| && LowerAll(TrimOws(SplitCommas(line)[n])) == LowerAll(item);
      var i, j := SplitIsPiece(line, n);
      DenotesIff(line[i..j], item);
    }
  }

  /** The names a list of lines denotes are the items listed in one of them. */
  lemma NamesInIff(lines: seq<Bytes>, name: Bytes)
    requires AllNames(VaryItems(lines)) && LowerAll(name) == name
    ensures name in NamesIn(VaryItems(lines)) <==> ListedIn(lines, name)
  {
    hide SplitCommas, ListsItem, TrimOws, VaryItems;
    var items := VaryItems(lines);
    if name in NamesIn(items) {
      var i :| 0 <= i < |items| && ParseName(TrimOws(items[i])).value == name;
      var k, n := ItemHasLine(lines, i);
      ListsItemIff(lines[k], name);
      assert LowerAll(TrimOws(SplitCommas(lines[k])[n])) == LowerAll(name);
    }
    if ListedIn(lines, name) {
      var k :| 0 <= k < |lines| && ListsItem(lines[k], name);
      ListsItemIff(lines[k], name);
      var n :| 0 <= n < |SplitCommas(lines[k])| && LowerAll(TrimOws(SplitCommas(lines[k])[n])) == LowerAll(name);
      var i := LineHasItem(lines, k, n);
      assert ParseName(TrimOws(items[i])).value == name;
    }
  }

  lemma StarIff(lines: seq<Bytes>)
    requires AllNames(VaryItems(lines))
    ensures ListedIn(lines, Ascii("*")) <==> ListsStar(VaryItems(lines))
  {
    hide VaryItems, ListedIn, TrimOws;
    var items := VaryItems(lines);
    NamesInIff(lines, Ascii("*"));
    forall i | 0 <= i < |items|
      ensures ParseName(TrimOws(items[i])).value == Ascii("*") <==> TrimOws(items[i]) == STAR
    {
      OnlyStar(TrimOws(items[i]));
    }
  }

  lemma OnlyStar(s: Bytes)
    ensures LowerAll(s) == Ascii("*") <==> s == STAR
  {
    if LowerAll(s) == Ascii("*") {
      assert LowerAll(s)[0] == Lower(s[0]);
    }
  }

  lemma {:induction false} ItemHasLine(lines: seq<Bytes>, i: nat) returns (k: nat, n: nat)
    requires i < |VaryItems(lines)|
    ensures k < |lines| && n < |SplitCommas(lines[k])| && VaryItems(lines)[i] == SplitCommas(lines[k])[n]
  {
    hide SplitCommas;
    var front := lines[..|lines| - 1];
    if i < |VaryItems(front)| {
      k, n := ItemHasLine(front, i);
    } else {
      k, n := |lines| - 1, i - |VaryItems(front)|;
    }
  }

  lemma {:induction false} LineHasItem(lines: seq<Bytes>, k: nat, n: nat) returns (i: nat)
    requires k < |lines| && n < |SplitCommas(lines[k])|
    ensures i < |VaryItems(lines)| && VaryItems(lines)[i] == SplitCommas(lines[k])[n]
  {
    hide SplitCommas;
    var front := lines[..|lines| - 1];
    if k < |front| {
      i := LineHasItem(front, k, n);
    } else {
      i := |VaryItems(front)| + n;
    }
  }

  function VaryItems(lines: seq<Bytes>): seq<Bytes> {
    if lines == [] then [] else VaryItems(lines[..|lines| - 1]) + SplitCommas(lines[|lines| - 1])
  }

  predicate StrictlySorted(names: seq<Bytes>) {
    forall i, j :: 0 <= i < j < |names| ==> Less(names[i], names[j])
  }

  /** Sum of the lengths of the trimmed items. */
  function ItemsLen(items: seq<Bytes>): nat {
    if items == [] then 0 else ItemsLen(items[..|items| - 1]) + |TrimOws(items[|items| - 1])|
  }

  /** Inserts a name into a strictly sorted list: one step of sort-and-deduplicate. */
  function InsertName(names: seq<Bytes>, name: Bytes): (r: seq<Bytes>)
    requires StrictlySorted(names)
    ensures forall n :: n in r <==> n == name || n in names
    ensures |r| <= |names| + 1
    ensures StrictlySorted(r)
  {
    if names == [] then [name]
    else
      var last := names[|names| - 1];
      LessTotal(last, name);
      assert names == names[..|names| - 1] + [last];
      if name == last then names
      else if Less(last, name) then
        assert forall i :: 0 <= i < |names| - 1 ==> Less(names[i], name) by {
          forall i | 0 <= i < |names| - 1 ensures Less(names[i], name) {
            LessTransitive(names[i], last, name);
          }
        }
        names + [name]
      else
        var front := InsertName(names[..|names| - 1], name);
        assert forall n :: n in front ==> Less(n, last);
        front + [last]
  }

  predicate AllNames(items: seq<Bytes>) {
    forall i :: 0 <= i < |items| ==> ParseName(TrimOws(items[i])).Some?
  }

  /** The field names the items denote. */
  function NamesIn(items: seq<Bytes>): set<Bytes>
    requires AllNames(items)
  {
    set i | 0 <= i < |items| :: ParseName(TrimOws(items[i])).value
  }

  predicate ShortNames(names: seq<Bytes>, maxBytes: nat) {
    forall n :: n in names ==> IsName(n) && |n| <= maxBytes
  }

  const STAR: Bytes := [42]

  predicate ListsStar(items: seq<Bytes>) {
    exists i :: 0 <= i < |items| && TrimOws(items[i]) == STAR
  }

  /** A list `Vary::parse` accepts: field names only, none of them `*`, within both bounds. */
  predicate VaryFits(items: seq<Bytes>, maxFields: nat, maxBytes: nat) {
    AllNames(items) && !ListsStar(items) && |items| <= maxFields && ItemsLen(items) <= maxBytes
  }

  /** `*` stands in the list, and everything before it is acceptable. */
  ghost predicate StarReached(items: seq<Bytes>, maxFields: nat, maxBytes: nat) {
    exists i :: 0 <= i < |items| && TrimOws(items[i]) == STAR && VaryFits(items[..i], maxFields, maxBytes)
  }

  /** What is wrong with item `i` when everything before it is acceptable. */
  function VaryDefect(items: seq<Bytes>, i: nat, maxFields: nat, maxBytes: nat): Option<KeyError>
    requires i < |items|
  {
    var raw := TrimOws(items[i]);
    if raw == [] then Some(InvalidVary)
    else if ItemsLen(items[..i + 1]) > maxBytes then Some(TooLarge)
    else if ParseName(raw).None? then Some(InvalidVary)
    else if i + 1 > maxFields then Some(TooManyVaryFields)
    else None
  }

  /** The first item that is not acceptable has this defect. */
  ghost predicate VaryFailsWith(items: seq<Bytes>, maxFields: nat, maxBytes: nat, error: KeyError) {
    exists i :: && 0 <= i < |items| && VaryFits(items[..i], maxFields, maxBytes) && TrimOws(items[i]) != STAR
                && VaryDefect(items, i, maxFields, maxBytes) == Some(error)
  }

  /** What parsing a list comes to: names are returned exactly for an acceptable list, and they
      are those listed, strictly sorted; `*` is reported exactly when it is reached; an error is
      that of the first item with a defect. */
  ghost predicate VaryParsed(items: seq<Bytes>, maxFields: nat, maxBytes: nat, r: Result<Vary, KeyError>) {
    && (r.Ok? && r.value.Names? <==> VaryFits(items, maxFields, maxBytes))
    && (r == Ok(Any) <==> StarReached(items, maxFields, maxBytes))
    && (r.Err? ==> VaryFailsWith(items, maxFields, maxBytes, r.error))
    && (r.Ok? && r.value.Names? ==>
          && StrictlySorted(r.value.names) && |r.value.names| <= maxFields
          && ShortNames(r.value.names, maxBytes)
          && forall n :: n in r.value.names <==> n in NamesIn(items))
  }

  /** Every part of an acceptable list is acceptable. */
  lemma {:induction false} FitsPrefix(items: seq<Bytes>, i: nat, maxFields: nat, maxBytes: nat)
    requires i <= |items| && VaryFits(items, maxFields, maxBytes)
    ensures VaryFits(items[..i], maxFields, maxBytes)
  {
    if i == |items| {
      assert items[..i] == items;
    } else {
      var shorter := items[..|items| - 1];
      forall j | 0 <= j < |shorter|
        ensures TrimOws(shorter[j]) == TrimOws(items[j])
      {
      }
      FitsPrefix(shorter, i, maxFields, maxBytes);
      assert shorter[..i] == items[..i];
    }
  }

  /** The parse stops with an error at item `i`: no continuation is accepted. */
  lemma StoppedAt(items: seq<Bytes>, i: nat, maxFields: nat, maxBytes: nat, error: KeyError)
    requires i < |items| && VaryFits(items[..i], maxFields, maxBytes) && !VaryFits(items[..i + 1], maxFields, maxBytes)
    requires TrimOws(items[i]) != STAR && VaryDefect(items, i, maxFields, maxBytes) == Some(error)
    ensures VaryParsed(items, maxFields, maxBytes, Err(error))
  {
    hide VaryDefect, ItemsLen, AllNames;
    assert forall j :: 0 <= j < i ==> items[..i][j] == items[j];
    assert items[..|items|] == items;
    forall j | i < j <= |items|
      ensures !VaryFits(items[..j], maxFields, maxBytes)
    {
      NoLongerFits(items, i + 1, j, maxFields, maxBytes);
    }
  }

  lemma NoLongerFits(items: seq<Bytes>, i: nat, j: nat, maxFields: nat, maxBytes: nat)
    requires i <= j <= |items| && !VaryFits(items[..i], maxFields, maxBytes)
    ensures !VaryFits(items[..j], maxFields, maxBytes)
  {
    assert items[..j][..i] == items[..i];
    if VaryFits(items[..j], maxFields, maxBytes) {
      FitsPrefix(items[..j], i, maxFields, maxBytes);
    }
  }

  /** One more item is acceptable exactly when it is a name and still fits. */
  lemma FitsOneMore(items: seq<Bytes>, i: nat, maxFields: nat, maxBytes: nat)
    requires i < |items| && VaryFits(items[..i], maxFields, maxBytes)
    ensures VaryFits(items[..i + 1], maxFields, maxBytes) <==>
              && ParseName(TrimOws(items[i])).Some? && TrimOws(items[i]) != STAR
              && i + 1 <= maxFields && ItemsLen(items[..i]) + |TrimOws(items[i])| <= maxBytes
    ensures ItemsLen(items[..i + 1]) == ItemsLen(items[..i]) + |TrimOws(items[i])|
  {
    var longer, shorter := items[..i + 1], items[..i];
    assert longer[..i] == shorter && longer[i] == items[i];
    forall j | 0 <= j < i
      ensures longer[j] == shorter[j]
    {
    }
  }

  /** What the loop has gathered from the first `i` items. */
  ghost predicate Gathered(items: seq<Bytes>, i: nat, maxFields: nat, maxBytes: nat, names: seq<Bytes>, bytes: nat)
    requires i <= |items|
  {
    && VaryFits(items[..i], maxFields, maxBytes) && bytes == ItemsLen(items[..i])
    && StrictlySorted(names) && |names| <= i && ShortNames(names, maxBytes)
    && forall n :: n in names <==> n in NamesIn(items[..i])
  }

  /** `Vary::parse`. */
  method ParseVary(headers: Headers, varyName: Bytes, maxFields: nat, maxBytes: nat) returns (r: Result<Vary, KeyError>)
    ensures VaryParsed(VaryItems(ValuesOf(headers, varyName)), maxFields, maxBytes, r)
  {
    hide VaryParsed, VaryFits, StrictlySorted, ShortNames, NamesIn, ItemsLen;
    var items := VaryItems(ValuesOf(headers, varyName));
    var names: seq<Bytes> := [];
    var count, bytes: nat := 0, 0;
    NothingGathered(items, maxFields, maxBytes);
    for i := 0 to |items|
      invariant count == i && Gathered(items, i, maxFields, maxBytes, names, bytes)
    {
      var raw := TrimOws(items[i]);
      if raw == STAR {
        NeverFits(items, i, maxFields, maxBytes);
        return Ok(Any);
      }
      ItemDefect(items, i, maxFields, maxBytes, names, bytes);
      if raw == [] {
        return Err(InvalidVary);
      }
      bytes := bytes + |raw|;
      if bytes > maxBytes {
        return Err(TooLarge);
      }
      var name := ParseName(raw);
      if name.None? {
        return Err(InvalidVary);
      }
      ghost var before := names;
      names := AddName(names, raw, maxBytes);
      count := count + 1;
      if count > maxFields {
        return Err(TooManyVaryFields);
      }
      GatherOne(items, i, maxFields, maxBytes, before, bytes - |raw|);
    }
    assert items[..|items|] == items;
    AllListed(items, maxFields, maxBytes, names);
    r := Ok(Names(names));
  }

  lemma NothingGathered(items: seq<Bytes>, maxFields: nat, maxBytes: nat)
    ensures Gathered(items, 0, maxFields, maxBytes, [], 0)
  {
  }

  /** The checks on an item find its defect, if it has one. */
  lemma ItemDefect(items: seq<Bytes>, i: nat, maxFields: nat, maxBytes: nat, names: seq<Bytes>, bytes: nat)
    requires i < |items| && Gathered(items, i, maxFields, maxBytes, names, bytes) && TrimOws(items[i]) != STAR
    ensures var raw := TrimOws(items[i]);
            if raw == [] then VaryParsed(items, maxFields, maxBytes, Err(InvalidVary))
            else if bytes + |raw| > maxBytes then VaryParsed(items, maxFields, maxBytes, Err(TooLarge))
            else if ParseName(raw).None? then VaryParsed(items, maxFields, maxBytes, Err(InvalidVary))
            else i + 1 > maxFields ==> VaryParsed(items, maxFields, maxBytes, Err(TooManyVaryFields))
  {
    hide VaryParsed, VaryFits, StrictlySorted, ShortNames, NamesIn, ItemsLen;
    FitsOneMore(items, i, maxFields, maxBytes);
    var defect := VaryDefect(items, i, maxFields, maxBytes);
    if defect.Some? {
      StoppedAt(items, i, maxFields, maxBytes, defect.value);
    }
  }

  lemma GatherOne(items: seq<Bytes>, i: nat, maxFields: nat, maxBytes: nat, names: seq<Bytes>, bytes: nat)
    requires i < |items| && Gathered(items, i, maxFields, maxBytes, names, bytes)
    requires TrimOws(items[i]) != STAR && ParseName(TrimOws(items[i])).Some?
    requires bytes + |TrimOws(items[i])| <= maxBytes && i + 1 <= maxFields
    ensures Gathered(items, i + 1, maxFields, maxBytes, AddName(names, TrimOws(items[i]), maxBytes),
                     bytes + |TrimOws(items[i])|)
  {
    hide ListsStar, StrictlySorted, ShortNames, NamesIn, ItemsLen, AddName;
    FitsOneMore(items, i, maxFields, maxBytes);
    NamesInGrows(items, i);
  }

  lemma NeverFits(items: seq<Bytes>, i: nat, maxFields: nat, maxBytes: nat)
    requires i < |items| && TrimOws(items[i]) == STAR && VaryFits(items[..i], maxFields, maxBytes)
    ensures VaryParsed(items, maxFields, maxBytes, Ok(Any))
  {
    hide ItemsLen;
    assert ListsStar(items);
  }

  lemma AllListed(items: seq<Bytes>, maxFields: nat, maxBytes: nat, names: seq<Bytes>)
    requires VaryFits(items, maxFields, maxBytes) && StrictlySorted(names) && |names| <= |items|
    requires ShortNames(names, maxBytes) && forall n :: n in names <==> n in NamesIn(items)
    ensures VaryParsed(items, maxFields, maxBytes, Ok(Names(names)))
  {
    hide StrictlySorted, ItemsLen, ShortNames, NamesIn;
  }

  /** A set of names has one strictly sorted list. */
  lemma {:induction false} SortedUnique(a: seq<Bytes>, b: seq<Bytes>)
    requires StrictlySorted(a) && StrictlySorted(b)
    requires forall n :: n in a <==> n in b
    ensures a == b
  {
    assert (a != [] ==> a[0] in a) && (b != [] ==> b[0] in b);
    if a != [] {
      var x, y := a[|a| - 1], b[|b| - 1];
      LastIsGreatest(a, b);
      LastIsGreatest(b, a);
      LessTotal(x, y);
      assert x == y;
      FrontsAgree(a, b);
      FrontsAgree(b, a);
      SortedUnique(a[..|a| - 1], b[..|b| - 1]);
      assert a == a[..|a| - 1] + [x] && b == b[..|b| - 1] + [y];
    }
  }

  lemma LastIsGreatest(a: seq<Bytes>, b: seq<Bytes>)
    requires a != [] && b != [] && StrictlySorted(a)
    requires forall n :: n in b ==> n in a
    ensures b[|b| - 1] == a[|a| - 1] || Less(b[|b| - 1], a[|a| - 1])
  {
    assert b[|b| - 1] in a;
  }

  lemma FrontsAgree(a: seq<Bytes>, b: seq<Bytes>)
    requires a != [] && b != [] && StrictlySorted(a) && StrictlySorted(b)
    requires a[|a| - 1] == b[|b| - 1] && forall n :: n in a ==> n in b
    ensures StrictlySorted(a[..|a| - 1])
    ensures var front, other := a[..|a| - 1], b[..|b| - 1]; forall n :: n in front ==> n in other
  {
    var x, front := a[|a| - 1], a[..|a| - 1];
    forall n | n in front
      ensures n in b[..|b| - 1]
    {
      LessTotal(n, x);
      assert Less(n, x) && n in b;
      assert b == b[..|b| - 1] + [x];
    }
  }

  lemma NamesInGrows(items: seq<Bytes>, i: nat)
    requires i < |items| && AllNames(items[..i]) && ParseName(TrimOws(items[i])).Some?
    ensures AllNames(items[..i + 1])
    ensures NamesIn(items[..i + 1]) == NamesIn(items[..i]) + {ParseName(TrimOws(items[i])).value}
  {
    var longer, shorter := items[..i + 1], items[..i];
    forall n | n in NamesIn(shorter)
      ensures n in NamesIn(longer)
    {
      var j :| 0 <= j < i && ParseName(TrimOws(shorter[j])).value == n;
      assert longer[j] == shorter[j];
    }
    assert longer[i] == items[i];
  }

  function AddName(names: seq<Bytes>, raw: Bytes, maxBytes: nat): (r: seq<Bytes>)
    requires StrictlySorted(names) && ShortNames(names, maxBytes)
    requires ParseName(raw).Some? && |raw| <= maxBytes
    ensures StrictlySorted(r) && ShortNames(r, maxBytes) && |r| <= |names| + 1
    ensures forall n :: n in r <==> n == ParseName(raw).value || n in names
  {
    ParseNameIsName(raw);
    InsertName(names, ParseName(raw).value)
  }
}
