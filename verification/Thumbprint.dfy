/** The canonical text of a JWK that its thumbprint hashes (section 3 of RFC 7638): compact JSON of the members
    required for the key type, ASCII-escaped. Strings are sequences of code points, so a lone surrogate is one. */
module Thumbprints {
  import opened Wrappers
  import opened Floats
  import opened Texts

  datatype Json = Str(text: Text) | Number(value: Float) | Flag(on: bool) | OtherJson

  type Jwk = map<Text, Json>

  // ---- JSON strings -----------------------------------------------------------------------------------

  function HexDigit(d: nat): char
    requires d < 16
  {
    if d < 10 then '0' + d as char else 'a' + (d - 10) as char
  }

  function Hex4(n: nat): string
    requires n < 0x10000
  {
    [HexDigit(n / 4096), HexDigit(n / 256 % 16), HexDigit(n / 16 % 16), HexDigit(n % 16)]
  }

  /** Every printer below writes its text in front of what follows it. */
  function UnitThen(n: nat, rest: string): string
    requires n < 0x10000
  {
    ['\\', 'u'] + Hex4(n) + rest
  }

  function High(c: int): (unit: nat)
    requires 0x10000 <= c < 0x110000
    ensures IsHigh(unit)
  {
    0xD800 + (c - 0x10000) / 1024
  }

  function Low(c: int): (unit: nat)
    requires 0x10000 <= c < 0x110000
    ensures IsLow(unit)
  {
    0xDC00 + (c - 0x10000) % 1024
  }

  predicate IsHigh(c: int) { 0xD800 <= c <= 0xDBFF }

  predicate IsLow(c: int) { 0xDC00 <= c <= 0xDFFF }

  /** Control and non-ASCII characters become one \uXXXX unit, or two beyond U+FFFF. */
  function CodeThen(c: CodePoint, rest: string): string {
    if c < 0x10000 then UnitThen(c, rest) else UnitThen(High(c), UnitThen(Low(c), rest))
  }

  /** The letter of a two-character escape. */
  function Short(c: CodePoint): Option<char> {
    if c == 0x22 then Some('"')
    else if c == 0x5C then Some('\\')
    else if c == 0x0A then Some('n')
    else if c == 0x0D then Some('r')
    else if c == 0x09 then Some('t')
    else if c == 0x0C then Some('f')
    else if c == 0x08 then Some('b')
    else None
  }

  function EscapeThen(c: CodePoint, rest: string): string {
    if Short(c).Some? then ['\\', Short(c).value] + rest
    else if 0x20 <= c <= 0x7E then [c as char] + rest
    else CodeThen(c, rest)
  }

  function EscapedThen(s: Text, rest: string): string {
    if s == [] then ['"'] + rest else EscapeThen(s[0], EscapedThen(s[1..], rest))
  }

  function QuoteThen(s: Text, rest: string): string { ['"'] + EscapedThen(s, rest) }

  // ---- Objects ----------------------------------------------------------------------------------------

  datatype Pair = Pair(key: Text, value: Text)

  function MemberThen(p: Pair, rest: string): string {
    QuoteThen(p.key, [':'] + QuoteThen(p.value, rest))
  }

  /** The members after an opening brace, closing brace included. */
  function Members(ps: seq<Pair>): string {
    if ps == [] then ['}'] else MemberThen(ps[0], if |ps| == 1 then ['}'] else [','] + Members(ps[1..]))
  }

  /** `json.dumps` with compact separators, of string members in the order given. */
  function Dumps(ps: seq<Pair>): string { ['{'] + Members(ps) }

  // ---- UTF-16 -----------------------------------------------------------------------------------------

  predicate AllUnits(s: Text) { forall i | 0 <= i < |s| :: s[i] < 0x10000 }

  function Units(c: CodePoint): (units: Text)
    ensures units != [] && AllUnits(units)
  {
    if c < 0x10000 then [c] else [High(c), Low(c)]
  }

  /** A surrogate pair in the text and the code point it stands for have the same units. */
  function Utf16(s: Text): (units: Text)
    ensures AllUnits(units) && (s == [] <==> units == [])
  {
    if s == [] then [] else Units(s[0]) + Utf16(s[1..])
  }

  /** Beyond U+FFFF the escape is that of the two units. */
  lemma EscapeUnitsThen(c: CodePoint, s: Text, rest: string)
    ensures EscapedThen(Units(c) + s, rest) == EscapeThen(c, EscapedThen(s, rest))
  {
    if c < 0x10000 {
      assert ([c] + s)[1..] == s;
    } else {
      assert ([High(c), Low(c)] + s)[1..] == [Low(c)] + s && ([Low(c)] + s)[1..] == s;
    }
  }

  lemma {:induction false} EscapedIsUnits(s: Text, rest: string)
    ensures EscapedThen(s, rest) == EscapedThen(Utf16(s), rest)
  {
    if s == [] {
    } else {
      EscapedIsUnits(s[1..], rest);
      EscapeUnitsThen(s[0], Utf16(s[1..]), rest);
    }
  }

  // ---- Cancellation -----------------------------------------------------------------------------------

  lemma HexDigitInjective(a: nat, b: nat)
    requires a < 16 && b < 16 && HexDigit(a) == HexDigit(b)
    ensures a == b
  {}

  lemma HexValue(n: nat)
    requires n < 0x10000
    ensures n == 4096 * (n / 4096) + 256 * (n / 256 % 16) + 16 * (n / 16 % 16) + n % 16
  {
    assert n / 16 / 16 == n / 256 && n / 256 / 16 == n / 4096;
  }

  lemma Hex4Injective(a: nat, b: nat)
    requires a < 0x10000 && b < 0x10000 && Hex4(a) == Hex4(b)
    ensures a == b
  {
    assert Hex4(a)[0] == Hex4(b)[0] && Hex4(a)[1] == Hex4(b)[1];
    assert Hex4(a)[2] == Hex4(b)[2] && Hex4(a)[3] == Hex4(b)[3];
    HexDigitInjective(a / 4096, b / 4096);
    HexDigitInjective(a / 256 % 16, b / 256 % 16);
    HexDigitInjective(a / 16 % 16, b / 16 % 16);
    HexDigitInjective(a % 16, b % 16);
    HexValue(a);
    HexValue(b);
  }

  lemma UnitCancel(a: nat, b: nat, x: string, y: string)
    requires a < 0x10000 && b < 0x10000 && UnitThen(a, x) == UnitThen(b, y)
    ensures a == b && x == y
  {
    var s, t := UnitThen(a, x), UnitThen(b, y);
    assert s[2..6] == Hex4(a) && t[2..6] == Hex4(b);
    Hex4Injective(a, b);
    assert s[6..] == x && t[6..] == y;
  }

  /** The escapes of single units form a prefix code, and none begins with a quote. */
  lemma EscapeCancel(c: CodePoint, d: CodePoint, x: string, y: string)
    requires c < 0x10000 && d < 0x10000 && EscapeThen(c, x) == EscapeThen(d, y)
    ensures c == d && x == y
  {
    var s, t := EscapeThen(c, x), EscapeThen(d, y);
    assert |s| > 0 && |t| > 0;
    if s[0] == '\\' {
      if s[1] == 'u' {
        UnitCancel(c, d, x, y);
      } else {
        assert s[2..] == x && t[2..] == y;
      }
    } else {
      assert s[1..] == x && t[1..] == y;
    }
  }

  lemma EscapeIsNoQuote(c: CodePoint, x: string)
    ensures EscapeThen(c, x) != "" && EscapeThen(c, x)[0] != '"'
  {}

  lemma {:induction false} UnitsCancel(s: Text, t: Text, x: string, y: string)
    requires AllUnits(s) && AllUnits(t) && EscapedThen(s, x) == EscapedThen(t, y)
    ensures s == t && x == y
    decreases |s|
  {
    if s != [] { EscapeIsNoQuote(s[0], EscapedThen(s[1..], x)); }
    if t != [] { EscapeIsNoQuote(t[0], EscapedThen(t[1..], y)); }
    if s == [] {
      assert (['"'] + x)[1..] == x && (['"'] + y)[1..] == y;
    } else {
      EscapeCancel(s[0], t[0], EscapedThen(s[1..], x), EscapedThen(t[1..], y));
      UnitsCancel(s[1..], t[1..], x, y);
      assert s == [s[0]] + s[1..] && t == [t[0]] + t[1..];
    }
  }

  lemma EscapedAgree(s: Text, t: Text, x: string, y: string)
    ensures EscapedThen(s, x) == EscapedThen(t, y) <==> Utf16(s) == Utf16(t) && x == y
  {
    EscapedIsUnits(s, x);
    EscapedIsUnits(t, y);
    if EscapedThen(s, x) == EscapedThen(t, y) { UnitsCancel(Utf16(s), Utf16(t), x, y); }
  }

  lemma ConsCancel(c: char, d: char, x: string, y: string)
    ensures [c] + x == [d] + y <==> c == d && x == y
  {
    assert ([c] + x)[0] == c && ([d] + y)[0] == d;
    assert ([c] + x)[1..] == x && ([d] + y)[1..] == y;
  }

  lemma QuotesAgree(s: Text, t: Text, x: string, y: string)
    ensures QuoteThen(s, x) == QuoteThen(t, y) <==> Utf16(s) == Utf16(t) && x == y
  {
    ConsCancel('"', '"', EscapedThen(s, x), EscapedThen(t, y));
    EscapedAgree(s, t, x, y);
  }

  ghost predicate SamePair(p: Pair, q: Pair) {
    Utf16(p.key) == Utf16(q.key) && Utf16(p.value) == Utf16(q.value)
  }

  lemma MembersAgree(p: Pair, q: Pair, x: string, y: string)
    ensures MemberThen(p, x) == MemberThen(q, y) <==> SamePair(p, q) && x == y
  {
    var u, v := QuoteThen(p.value, x), QuoteThen(q.value, y);
    QuotesAgree(p.key, q.key, [':'] + u, [':'] + v);
    ConsCancel(':', ':', u, v);
    QuotesAgree(p.value, q.value, x, y);
  }

  lemma MembersStart(ps: seq<Pair>)
    ensures Members(ps) != "" && Members(ps)[0] == if ps == [] then '}' else '"'
  {}

  /** What follows the first member. */
  function AfterFirst(ps: seq<Pair>): string
    requires ps != []
  {
    if |ps| == 1 then ['}'] else [','] + Members(ps[1..])
  }

  lemma AfterFirstAgree(ps: seq<Pair>, qs: seq<Pair>)
    requires ps != [] && qs != []
    ensures AfterFirst(ps) == AfterFirst(qs) <==>
            (|ps| == 1 <==> |qs| == 1) && (|ps| > 1 && |qs| > 1 ==> Members(ps[1..]) == Members(qs[1..]))
  {
    assert AfterFirst(ps)[0] == if |ps| == 1 then '}' else ',';
    assert AfterFirst(qs)[0] == if |qs| == 1 then '}' else ',';
    if |ps| > 1 && |qs| > 1 { ConsCancel(',', ',', Members(ps[1..]), Members(qs[1..])); }
  }

  ghost predicate SamePairs(ps: seq<Pair>, qs: seq<Pair>) {
    |ps| == |qs| && forall i | 0 <= i < |ps| :: SamePair(ps[i], qs[i])
  }

  lemma SamePairsUnfold(ps: seq<Pair>, qs: seq<Pair>)
    requires ps != [] && qs != []
    ensures SamePairs(ps, qs) <==> SamePair(ps[0], qs[0]) && SamePairs(ps[1..], qs[1..])
  {
    if SamePair(ps[0], qs[0]) && SamePairs(ps[1..], qs[1..]) {
      forall i | 0 <= i < |ps| ensures SamePair(ps[i], qs[i]) {
        if i > 0 { assert ps[i] == ps[1..][i - 1] && qs[i] == qs[1..][i - 1]; }
      }
    }
  }

  /** Two objects are written alike exactly when their members have the same units, one by one. */
  lemma {:induction false} MembersExactly(ps: seq<Pair>, qs: seq<Pair>)
    ensures Members(ps) == Members(qs) <==> SamePairs(ps, qs)
    decreases |ps|
  {
    MembersStart(ps);
    MembersStart(qs);
    if ps == [] || qs == [] {
    } else {
      MembersAgree(ps[0], qs[0], AfterFirst(ps), AfterFirst(qs));
      AfterFirstAgree(ps, qs);
      MembersExactly(ps[1..], qs[1..]);
      SamePairsUnfold(ps, qs);
    }
  }

  // ---- The canonical text -----------------------------------------------------------------------------

  /** The members that take part, per key type, already in lexicographic order. */
  function Required(kty: Text): Option<seq<string>> {
    if kty == Codes("RSA") then Some(["e", "kty", "n"])
    else if kty == Codes("EC") then Some(["crv", "kty", "x", "y"])
    else if kty == Codes("OKP") then Some(["crv", "kty", "x"])
    else None
  }

  function Get(jwk: Jwk, name: string): Json { if Codes(name) in jwk then jwk[Codes(name)] else OtherJson }

  function TextOf(v: Json): Text {
    match v
    case Str(text) => text
    case _ => []
  }

  predicate Usable(v: Json) { v.Str? && v.text != [] }

  predicate AllUsable(jwk: Jwk, names: seq<string>) { forall i | 0 <= i < |names| :: Usable(Get(jwk, names[i])) }

  predicate HasThumbprint(jwk: Jwk) {
    var kty := Get(jwk, "kty");
    kty.Str? && Required(kty.text).Some? && AllUsable(jwk, Required(kty.text).value)
  }

  /** The names of the members that take part in a key's thumbprint. */
  function Names(jwk: Jwk): seq<string>
    requires HasThumbprint(jwk)
  {
    Required(Get(jwk, "kty").text).value
  }

  function PairOf(jwk: Jwk, name: string): Pair { Pair(Codes(name), TextOf(Get(jwk, name))) }

  function PairsOf(jwk: Jwk, names: seq<string>): seq<Pair> {
    seq(|names|, i requires 0 <= i < |names| => PairOf(jwk, names[i]))
  }

  function CanonicalText(jwk: Jwk): string
    requires HasThumbprint(jwk)
  {
    Dumps(PairsOf(jwk, Names(jwk)))
  }

  /** `jwk_thumbprint_s256` up to the hash. */
  method Serialize(jwk: Jwk) returns (r: Option<string>)
    ensures r == if HasThumbprint(jwk) then Some(CanonicalText(jwk)) else None
  {
    var kty := Get(jwk, "kty");
    if !kty.Str? || Required(kty.text).None? { return None; }
    var names := Required(kty.text).value;
    var canonical: seq<Pair> := [];
    for i := 0 to |names|
      invariant |canonical| == i
      invariant forall j | 0 <= j < i :: Usable(Get(jwk, names[j])) && canonical[j] == PairOf(jwk, names[j])
    {
      var value := Get(jwk, names[i]);
      if !Usable(value) { return None; }
      canonical := canonical + [Pair(Codes(names[i]), value.text)];
    }
    assert canonical == PairsOf(jwk, names);
    return Some(Dumps(canonical));
  }

  /** The same key type, and the same units in every member required for it. */
  ghost predicate SameUnits(j1: Jwk, j2: Jwk)
    requires HasThumbprint(j1) && HasThumbprint(j2)
  {
    Get(j1, "kty") == Get(j2, "kty") &&
    forall m | m in Names(j1) :: Utf16(TextOf(Get(j1, m))) == Utf16(TextOf(Get(j2, m)))
  }

  lemma {:induction false} UnitsOfUnits(s: Text)
    requires AllUnits(s)
    ensures Utf16(s) == s
  {
    if s == [] {
    } else {
      UnitsOfUnits(s[1..]);
      assert s == [s[0]] + s[1..];
    }
  }

  lemma KeyTypeIsAscii(kty: Text)
    requires Required(kty).Some?
    ensures IsAscii(kty) && Required(kty).value[1] == "kty"
  {
    assert IsAscii(Codes("RSA")) && IsAscii(Codes("EC")) && IsAscii(Codes("OKP"));
  }

  lemma SameNamesSamePairs(j1: Jwk, j2: Jwk, names: seq<string>)
    ensures SamePairs(PairsOf(j1, names), PairsOf(j2, names)) <==>
            forall m | m in names :: Utf16(TextOf(Get(j1, m))) == Utf16(TextOf(Get(j2, m)))
  {
    var p1, p2 := PairsOf(j1, names), PairsOf(j2, names);
    if SamePairs(p1, p2) {
      forall m | m in names ensures Utf16(TextOf(Get(j1, m))) == Utf16(TextOf(Get(j2, m))) {
        var i :| 0 <= i < |names| && names[i] == m;
        assert SamePair(p1[i], p2[i]);
      }
    }
  }

  /** The second member is the key type in every case, so keys written alike have one type. */
  lemma SameTextSameType(j1: Jwk, j2: Jwk)
    requires HasThumbprint(j1) && HasThumbprint(j2)
    requires SamePairs(PairsOf(j1, Names(j1)), PairsOf(j2, Names(j2)))
    ensures Get(j1, "kty") == Get(j2, "kty")
  {
    var t1, t2 := Get(j1, "kty").text, Get(j2, "kty").text;
    KeyTypeIsAscii(t1);
    KeyTypeIsAscii(t2);
    UnitsOfUnits(t1);
    UnitsOfUnits(t2);
    assert SamePair(PairsOf(j1, Names(j1))[1], PairsOf(j2, Names(j2))[1]);
  }

  /** Two keys have one canonical text exactly when they agree on the key type and on the units of every member
      required for it, whatever their other members are. */
  lemma SameTextExactlyWhenSameUnits(j1: Jwk, j2: Jwk)
    requires HasThumbprint(j1) && HasThumbprint(j2)
    ensures CanonicalText(j1) == CanonicalText(j2) <==> SameUnits(j1, j2)
  {
    var p1, p2 := PairsOf(j1, Names(j1)), PairsOf(j2, Names(j2));
    ConsCancel('{', '{', Members(p1), Members(p2));
    MembersExactly(p1, p2);
    if SamePairs(p1, p2) { SameTextSameType(j1, j2); }
    if Get(j1, "kty") == Get(j2, "kty") { SameNamesSamePairs(j1, j2, Names(j1)); }
  }

  // ---- When the units tell texts apart ----------------------------------------------------------------

  /** No high surrogate followed by a low one: true of every text that is not malformed, and of others. */
  predicate Unpaired(s: Text) { forall i | 0 < i < |s| :: !(IsHigh(s[i - 1]) && IsLow(s[i])) }

  lemma UnpairedTail(s: Text)
    requires Unpaired(s) && s != []
    ensures Unpaired(s[1..])
  {
    forall i | 0 < i < |s[1..]| ensures !(IsHigh(s[1..][i - 1]) && IsLow(s[1..][i])) {
      assert !(IsHigh(s[i]) && IsLow(s[i + 1]));
    }
  }

  lemma FirstUnit(s: Text)
    requires s != []
    ensures Utf16(s)[0] == if s[0] < 0x10000 then s[0] else High(s[0])
    ensures s[0] < 0x10000 ==> Utf16(s)[1..] == Utf16(s[1..])
    ensures s[0] >= 0x10000 ==>
              |Utf16(s)| > 1 && Utf16(s)[1] == Low(s[0]) && Utf16(s)[2..] == Utf16(s[1..])
  {}

  lemma SurrogatesDetermine(c: CodePoint, d: CodePoint)
    requires c >= 0x10000 && d >= 0x10000 && High(c) == High(d) && Low(c) == Low(d)
    ensures c == d
  {
    var m, n := c - 0x10000, d - 0x10000;
    assert m == 1024 * (m / 1024) + m % 1024 && n == 1024 * (n / 1024) + n % 1024;
  }

  /** A text whose units begin with a high and a low surrogate begins with that pair or with one astral code point. */
  lemma PairOrAstral(s: Text)
    requires |Utf16(s)| > 1 && IsHigh(Utf16(s)[0]) && IsLow(Utf16(s)[1])
    ensures s[0] >= 0x10000 || (|s| > 1 && IsHigh(s[0]) && IsLow(s[1]))
  {
    FirstUnit(s);
    if s[0] < 0x10000 {
      assert Utf16(s[1..])[0] == Utf16(s)[1];
      FirstUnit(s[1..]);
    }
  }

  lemma UnpairedAt(s: Text, i: nat)
    requires Unpaired(s) && 0 < i < |s|
    ensures !(IsHigh(s[i - 1]) && IsLow(s[i]))
  {}

  lemma UnpairedStart(s: Text)
    requires s != [] && Unpaired(s)
    ensures s[0] >= 0x10000 <==> |Utf16(s)| > 1 && IsHigh(Utf16(s)[0]) && IsLow(Utf16(s)[1])
  {
    FirstUnit(s);
    if |s| > 1 { UnpairedAt(s, 1); }
    if |Utf16(s)| > 1 && IsHigh(Utf16(s)[0]) && IsLow(Utf16(s)[1]) { PairOrAstral(s); }
  }

  lemma {:induction false} UnitsTellUnpairedApart(s: Text, t: Text)
    requires Unpaired(s) && Unpaired(t) && Utf16(s) == Utf16(t)
    ensures s == t
    decreases |s|
  {
    if s == [] || t == [] {
    } else {
      FirstUnit(s);
      FirstUnit(t);
      UnpairedStart(s);
      UnpairedStart(t);
      if s[0] >= 0x10000 { SurrogatesDetermine(s[0], t[0]); }
      UnpairedTail(s);
      UnpairedTail(t);
      UnitsTellUnpairedApart(s[1..], t[1..]);
      assert s == [s[0]] + s[1..] && t == [t[0]] + t[1..];
    }
  }

  ghost predicate SameRequired(j1: Jwk, j2: Jwk) {
    Get(j1, "kty") == Get(j2, "kty") &&
    (Get(j1, "kty").Str? && Required(Get(j1, "kty").text).Some? ==>
       forall m | m in Required(Get(j1, "kty").text).value :: Get(j1, m) == Get(j2, m))
  }

  /** Every required member passes the test. */
  ghost predicate EveryRequired(jwk: Jwk, good: Text -> bool)
    requires HasThumbprint(jwk)
  {
    forall m | m in Names(jwk) :: good(TextOf(Get(jwk, m)))
  }

  lemma RequiredIsText(jwk: Jwk, m: string)
    requires HasThumbprint(jwk) && m in Names(jwk)
    ensures Get(jwk, m) == Str(TextOf(Get(jwk, m))) && TextOf(Get(jwk, m)) != []
  {
    var i :| 0 <= i < |Names(jwk)| && Names(jwk)[i] == m;
    assert Usable(Get(jwk, Names(jwk)[i]));
  }

  /** So keys without a surrogate pair in a required member have one canonical text exactly when they agree on the
      key type and on every required member. */
  lemma SameTextExactlyWhenSameRequired(j1: Jwk, j2: Jwk)
    requires HasThumbprint(j1) && HasThumbprint(j2)
    requires EveryRequired(j1, Unpaired) && EveryRequired(j2, Unpaired)
    ensures CanonicalText(j1) == CanonicalText(j2) <==> SameRequired(j1, j2)
  {
    SameTextExactlyWhenSameUnits(j1, j2);
    if SameUnits(j1, j2) {
      forall m | m in Names(j1) ensures Get(j1, m) == Get(j2, m) {
        RequiredIsText(j1, m);
        RequiredIsText(j2, m);
        UnitsTellUnpairedApart(TextOf(Get(j1, m)), TextOf(Get(j2, m)));
      }
    }
  }

  // ---- Which keys have a text of their own ------------------------------------------------------------

  /** No surrogate pair, and nothing one could stand for. */
  predicate Alone(s: Text) { AllUnits(s) && Unpaired(s) }

  lemma NoAstralStart(s: Text, t: Text)
    requires s != [] && Alone(t) && Utf16(s) == t
    ensures s[0] < 0x10000 && t[0] == s[0] && t[1..] == Utf16(s[1..])
  {
    FirstUnit(s);
    if |t| > 1 { UnpairedAt(t, 1); }
  }

  lemma {:induction false} AloneHasOwnUnits(s: Text, t: Text)
    requires Alone(t) && Utf16(s) == t
    ensures s == t
    decreases |s|
  {
    if s == [] {
    } else {
      NoAstralStart(s, t);
      UnpairedTail(t);
      AloneHasOwnUnits(s[1..], t[1..]);
      assert s == [s[0]] + s[1..] && t == [t[0]] + t[1..];
    }
  }

  lemma Associate(a: Text, b: Text, c: Text)
    ensures a + (b + c) == a + b + c
  {}

  lemma {:induction false} UnitsConcat(a: Text, b: Text)
    ensures Utf16(a + b) == Utf16(a) + Utf16(b)
    decreases |a|
  {
    if a == [] {
      assert a + b == b;
    } else {
      UnitsConcat(a[1..], b);
      assert (a + b)[0] == a[0] && (a + b)[1..] == a[1..] + b;
      Associate(Units(a[0]), Utf16(a[1..]), Utf16(b));
    }
  }

  function Joined(high: int, low: int): (c: CodePoint)
    requires IsHigh(high) && IsLow(low)
    ensures c >= 0x10000 && High(c) == high && Low(c) == low
  {
    0x10000 + (high - 0xD800) * 1024 + (low - 0xDC00)
  }

  lemma ReplaceMiddle(a: Text, b: Text, b': Text, c: Text)
    requires Utf16(b) == Utf16(b') && |b| != |b'|
    ensures Utf16(a + b' + c) == Utf16(a + b + c) && a + b' + c != a + b + c
  {
    UnitsConcat(a + b, c);
    UnitsConcat(a, b);
    UnitsConcat(a + b', c);
    UnitsConcat(a, b');
    assert |a + b + c| != |a + b' + c|;
  }

  lemma PairAndAstral(c: CodePoint)
    requires c >= 0x10000
    ensures Utf16([c]) == Utf16([High(c), Low(c)]) == [High(c), Low(c)]
  {
    UnitsOfUnits([High(c), Low(c)]);
    assert [c][1..] == [];
  }

  lemma SplitAstral(s: Text, i: nat) returns (t: Text)
    requires i < |s| && s[i] >= 0x10000
    ensures t != s && t != [] && Utf16(t) == Utf16(s)
  {
    var a, c := s[..i], s[i + 1..];
    t := a + [High(s[i]), Low(s[i])] + c;
    PairAndAstral(s[i]);
    ReplaceMiddle(a, [s[i]], [High(s[i]), Low(s[i])], c);
    assert s == a + [s[i]] + c;
  }

  lemma JoinPair(s: Text, i: nat) returns (t: Text)
    requires 0 < i < |s| && IsHigh(s[i - 1]) && IsLow(s[i])
    ensures t != s && t != [] && Utf16(t) == Utf16(s)
  {
    var a, c, joined := s[..i - 1], s[i + 1..], Joined(s[i - 1], s[i]);
    t := a + [joined] + c;
    PairAndAstral(joined);
    ReplaceMiddle(a, [s[i - 1], s[i]], [joined], c);
    assert s == a + [s[i - 1], s[i]] + c;
  }

  /** Any other text shares its units: splitting an astral code point, or joining a pair. */
  lemma Twin(s: Text) returns (t: Text)
    requires !Alone(s)
    ensures t != s && t != [] && Utf16(t) == Utf16(s)
  {
    if i :| 0 <= i < |s| && s[i] >= 0x10000 {
      t := SplitAstral(s, i);
    } else {
      var i :| 0 < i < |s| && IsHigh(s[i - 1]) && IsLow(s[i]);
      t := JoinPair(s, i);
    }
  }

  ghost predicate TextIsItsOwn(jwk: Jwk)
    requires HasThumbprint(jwk)
  {
    forall k | HasThumbprint(k) && CanonicalText(k) == CanonicalText(jwk) :: SameRequired(k, jwk)
  }

  lemma AloneKeyHasOwnText(jwk: Jwk, k: Jwk)
    requires HasThumbprint(jwk) && HasThumbprint(k) && EveryRequired(jwk, Alone)
    requires CanonicalText(k) == CanonicalText(jwk)
    ensures SameRequired(k, jwk)
  {
    SameTextExactlyWhenSameUnits(k, jwk);
    forall m | m in Names(k) ensures Get(k, m) == Get(jwk, m) {
      RequiredIsText(k, m);
      RequiredIsText(jwk, m);
      UnitsOfUnits(TextOf(Get(jwk, m)));
      AloneHasOwnUnits(TextOf(Get(k, m)), TextOf(Get(jwk, m)));
    }
  }

  /** The key a required member that is not alone is mistaken for. */
  lemma TwinKey(jwk: Jwk, m: string) returns (k: Jwk)
    requires HasThumbprint(jwk) && m in Names(jwk) && !Alone(TextOf(Get(jwk, m)))
    ensures HasThumbprint(k) && CanonicalText(k) == CanonicalText(jwk) && !SameRequired(k, jwk)
  {
    var t := Twin(TextOf(Get(jwk, m)));
    k := jwk[Codes(m) := Str(t)];
    KeyTypeIsAlone(jwk);
    forall n: string ensures Get(k, n) == if n == m then Str(t) else Get(jwk, n) { CodesInjective(n, m); }
    RequiredIsText(jwk, m);
    assert AllUsable(k, Names(jwk));
    SameTextExactlyWhenSameUnits(k, jwk);
    assert Get(k, m) != Get(jwk, m) && m in Names(k);
  }

  lemma KeyTypeIsAlone(jwk: Jwk)
    requires HasThumbprint(jwk)
    ensures Alone(TextOf(Get(jwk, "kty")))
  {
    KeyTypeIsAscii(Get(jwk, "kty").text);
  }

  /** A key shares its canonical text with no key of other required members exactly when no required member holds a
      code point beyond U+FFFF or a surrogate pair. */
  lemma OwnTextExactlyWhenAlone(jwk: Jwk)
    requires HasThumbprint(jwk)
    ensures TextIsItsOwn(jwk) <==> EveryRequired(jwk, Alone)
  {
    if EveryRequired(jwk, Alone) {
      forall k | HasThumbprint(k) && CanonicalText(k) == CanonicalText(jwk) ensures SameRequired(k, jwk) {
        AloneKeyHasOwnText(jwk, k);
      }
    } else {
      var m :| m in Names(jwk) && !Alone(TextOf(Get(jwk, m)));
      var k := TwinKey(jwk, m);
    }
  }

  function OkpKey(x: Text): Jwk {
    map[Codes("kty") := Str(Codes("OKP")), Codes("crv") := Str(Codes("Ed25519")), Codes("x") := Str(x)]
  }

  lemma OkpMembers(x: Text)
    ensures Get(OkpKey(x), "kty") == Str(Codes("OKP")) && Get(OkpKey(x), "crv") == Str(Codes("Ed25519"))
    ensures Get(OkpKey(x), "x") == Str(x) && Required(Codes("OKP")) == Some(["crv", "kty", "x"])
    ensures Codes("Ed25519") != []
  {
    CodesInjective("kty", "crv");
    CodesInjective("kty", "x");
    CodesInjective("crv", "x");
    CodesInjective("OKP", "RSA");
    CodesInjective("OKP", "EC");
  }

  lemma OkpKeysCollide(x: Text, y: Text)
    requires x != [] && y != [] && x != y && Utf16(x) == Utf16(y)
    ensures HasThumbprint(OkpKey(x)) && HasThumbprint(OkpKey(y))
    ensures CanonicalText(OkpKey(x)) == CanonicalText(OkpKey(y)) && !SameRequired(OkpKey(x), OkpKey(y))
  {
    OkpMembers(x);
    OkpMembers(y);
    assert "x" in Names(OkpKey(x));
    SameTextExactlyWhenSameUnits(OkpKey(x), OkpKey(y));
  }

  /** The collision itself: U+1F600 against the two surrogates it is written with. */
  lemma AstralAndItsPairCollide()
    ensures HasThumbprint(OkpKey([0x1F600])) && HasThumbprint(OkpKey([0xD83D, 0xDE00]))
    ensures CanonicalText(OkpKey([0x1F600])) == CanonicalText(OkpKey([0xD83D, 0xDE00]))
    ensures !SameRequired(OkpKey([0x1F600]), OkpKey([0xD83D, 0xDE00]))
  {
    PairAndAstral(0x1F600);
    OkpKeysCollide([0x1F600], [0xD83D, 0xDE00]);
  }

  /** Whether a key has a thumbprint at all depends on the same members only. */
  lemma OtherMembersDoNotMatter(j1: Jwk, j2: Jwk)
    requires SameRequired(j1, j2)
    ensures HasThumbprint(j1) <==> HasThumbprint(j2)
  {}
}
