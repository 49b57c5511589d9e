/** The value of a `WWW-Authenticate: Bearer` header (section 3 of RFC 6750): which calls are accepted, what is
    printed, and a parser that reads every printed header back. */
module BearerChallenges {
  import opened Wrappers
  import opened Texts
  import opened Uris

  datatype Call = Call(url: string, error: Option<string>, description: Option<string>, scope: Option<string>)

  predicate IsErrorCode(e: string) { e == "invalid_request" || e == "invalid_token" || e == "insufficient_scope" }

  // ---- Printing -----------------------------------------------------------------------------------------------

  datatype Param = Param(key: string, value: string)

  function PrintParam(p: Param): string { p.key + "=\"" + p.value + "\"" }

  function PrintParams(ps: seq<Param>): string
    requires ps != []
  {
    if |ps| == 1 then PrintParam(ps[0]) else PrintParam(ps[0]) + (", " + PrintParams(ps[1..]))
  }

  function Optional(key: string, value: Option<string>): seq<Param> {
    match value
    case None => []
    case Some(v) => [Param(key, v)]
  }

  function ParamsOf(c: Call): (ps: seq<Param>)
    ensures ps != []
  {
    Optional("error", c.error) + Optional("error_description", c.description) + Optional("scope", c.scope) +
    [Param("resource_metadata", c.url)]
  }

  function Printed(c: Call): string { "Bearer " + PrintParams(ParamsOf(c)) }

  // ---- Accepting ------------------------------------------------------------------------------------------------

  /** Python's `split(" ")`: one token more than there are spaces. */
  function Tokens(s: string): (ts: seq<string>)
    ensures ts != []
    decreases |s|
  {
    var i := Scan(s, 0, {' '});
    if i == |s| then [s] else [s[..i]] + Tokens(s[i + 1..])
  }

  predicate IsToken(t: string) { t != "" && AllNqchar(t) }

  function CheckScope(scope: string): bool { scope != "" && forall t | t in Tokens(scope) :: IsToken(t) }

  function Challenge(c: Call): Result<string, Refusal> {
    if c.error.Some? && !IsErrorCode(c.error.value) then Err(BadMember("error"))
    else if c.description.Some? && (c.description.value == "" || !AllNqschar(c.description.value)) then
      Err(BadMember("error_description"))
    else if c.scope.Some? && !CheckScope(c.scope.value) then Err(BadMember("scope"))
    else
      match RequireAbsoluteUri(c.url, Locator)
      case Err(e) => Err(e)
      case Ok(_) => if AllNqchar(c.url) then Ok(Printed(c)) else Err(BadMember("resource_metadata"))
  }

  method BearerChallenge(c: Call) returns (r: Result<string, Refusal>)
    ensures r == Challenge(c)
  {
    var params: seq<Param> := [];
    if c.error.Some? {
      if !IsErrorCode(c.error.value) { return Err(BadMember("error")); }
      params := params + [Param("error", c.error.value)];
    }
    if c.description.Some? {
      if c.description.value == "" || !AllNqschar(c.description.value) { return Err(BadMember("error_description")); }
      params := params + [Param("error_description", c.description.value)];
    }
    if c.scope.Some? {
      if c.scope.value == "" { return Err(BadMember("scope")); }
      var tokens := Tokens(c.scope.value);
      for i := 0 to |tokens|
        invariant forall j | 0 <= j < i :: IsToken(tokens[j])
      {
        if !IsToken(tokens[i]) {
          assert tokens[i] in tokens;
          return Err(BadMember("scope"));
        }
      }
      params := params + [Param("scope", c.scope.value)];
    }
    assert params ==
           Optional("error", c.error) + Optional("error_description", c.description) + Optional("scope", c.scope);
    var uri := RequireAbsoluteUri(c.url, Locator);
    if uri.Err? { return Err(uri.error); }
    if !AllNqchar(c.url) { return Err(BadMember("resource_metadata")); }
    params := params + [Param("resource_metadata", c.url)];
    return Ok("Bearer " + PrintParams(params));
  }

  /** Scope tokens joined by single spaces, said of the text itself: no leading, trailing or doubled space. */
  predicate WellSpaced(s: string) {
    s != "" && AllNqschar(s) && s[0] != ' ' && s[|s| - 1] != ' ' &&
    forall i | 0 < i < |s| :: !(s[i - 1] == ' ' && s[i] == ' ')
  }

  ghost predicate Acceptable(c: Call) {
    (c.error.Some? ==> IsErrorCode(c.error.value)) &&
    (c.description.Some? ==> c.description.value != "" && AllNqschar(c.description.value)) &&
    (c.scope.Some? ==> WellSpaced(c.scope.value)) &&
    RequireAbsoluteUri(c.url, Locator).Ok? && AllNqchar(c.url)
  }

  lemma {:induction false} TokensAreWellSpaced(s: string)
    ensures (forall t | t in Tokens(s) :: IsToken(t)) <==> WellSpaced(s)
    decreases |s|
  {
    var i := Scan(s, 0, {' '});
    if i == |s| {
      assert Tokens(s) == [s] && s in Tokens(s);
      OneToken(s);
    } else {
      var head, rest := s[..i], s[i + 1..];
      TokensAreWellSpaced(rest);
      assert forall t :: t in Tokens(s) <==> t == head || t in Tokens(rest);
      assert forall j | 0 <= j < |rest| :: rest[j] == s[i + 1 + j];
      HeadAndRest(s, i);
    }
  }

  lemma OneToken(s: string)
    requires forall j | 0 <= j < |s| :: s[j] != ' '
    ensures IsToken(s) <==> WellSpaced(s)
  {
    if WellSpaced(s) {
      forall j | 0 <= j < |s| ensures IsNqchar(s[j]) { assert IsNqschar(s[j]); }
    }
    if IsToken(s) {
      forall j | 0 <= j < |s| ensures IsNqschar(s[j]) { assert IsNqchar(s[j]); }
    }
  }

  lemma HeadAndRest(s: string, i: nat)
    requires i < |s| && s[i] == ' ' && forall j | 0 <= j < i :: s[j] != ' '
    ensures WellSpaced(s) <==> IsToken(s[..i]) && WellSpaced(s[i + 1..])
  {
    var head, rest := s[..i], s[i + 1..];
    if IsToken(head) && WellSpaced(rest) {
      forall j | 0 <= j < |s| ensures IsNqschar(s[j]) {
        if j < i { assert IsNqchar(head[j]); } else if j > i { assert IsNqschar(rest[j - i - 1]); }
      }
      forall j | 0 < j < |s| ensures !(s[j - 1] == ' ' && s[j] == ' ') {
        if j > i + 1 { assert !(rest[j - i - 2] == ' ' && rest[j - i - 1] == ' '); }
      }
      assert s[|s| - 1] == rest[|rest| - 1];
      assert s[0] == head[0] && IsNqchar(head[0]);
    }
    if WellSpaced(s) {
      assert i > 0;
      forall j | 0 <= j < i ensures IsNqchar(head[j]) { assert IsNqschar(s[j]); }
      assert i + 1 < |s| && rest[0] == s[i + 1];
      forall j | 0 < j < |rest| ensures !(rest[j - 1] == ' ' && rest[j] == ' ') {
        assert !(s[i + j] == ' ' && s[i + 1 + j] == ' ');
      }
    }
  }

  /** A challenge is built exactly for the acceptable calls. */
  lemma ChallengeAccepted(c: Call)
    ensures Challenge(c).Ok? <==> Acceptable(c)
    ensures Challenge(c).Ok? ==> Challenge(c).value == Printed(c)
  {
    if c.scope.Some? { TokensAreWellSpaced(c.scope.value); }
  }

  // ---- Reading it back ----------------------------------------------------------------------------------------------

  /** The parameter a text starts with, and what follows its closing quote. */
  function FirstParam(s: string): (r: Option<(Param, string)>)
    ensures r.Some? ==> |r.value.1| < |s|
  {
    var eq := Scan(s, 0, {'='});
    if eq + 1 >= |s| || s[eq + 1] != '"' then None
    else
      var close := Scan(s, eq + 2, {'"'});
      if close == |s| then None else Some((Param(s[..eq], s[eq + 2..close]), s[close + 1..]))
  }

  /** A quote-aware parser of `k="v", k="v", ...`; it knows nothing of which keys exist. */
  function ParseParams(s: string): Option<seq<Param>>
    decreases |s|
  {
    match FirstParam(s)
    case None => None
    case Some((p, more)) =>
      if more == "" then Some([p])
      else if |more| < 2 || more[..2] != ", " then None
      else
        match ParseParams(more[2..])
        case None => None
        case Some(ps) => Some([p] + ps)
  }

  function ValueOf(ps: seq<Param>, key: string): Option<string> {
    if ps == [] then None else if ps[0].key == key then Some(ps[0].value) else ValueOf(ps[1..], key)
  }

  function ReadChallenge(header: string): Option<Call> {
    if |header| < 7 || header[..7] != "Bearer " then None
    else
      match ParseParams(header[7..])
      case None => None
      case Some(ps) =>
        var url := ValueOf(ps, "resource_metadata");
        if url.None? then None
        else Some(Call(url.value, ValueOf(ps, "error"), ValueOf(ps, "error_description"), ValueOf(ps, "scope")))
  }

  ghost predicate Printable(p: Param) { '=' !in p.key && '"' !in p.value }

  lemma PrintedCuts(p: Param, more: string)
    ensures var s, n := PrintParam(p) + more, |p.key|;
            var close := n + 2 + |p.value|;
            close < |s| && s[..n] == p.key && s[n] == '=' && s[n + 1] == '"' &&
            s[n + 2..close] == p.value && s[close] == '"' && s[close + 1..] == more
  {
    var named := p.key + "=\"";
    var valued := named + p.value;
    var closed := valued + "\"";
    assert named[..|p.key|] == p.key && valued[..|named|] == named && closed[..|valued|] == valued;
    assert (closed + more)[..|closed|] == closed;
  }

  lemma FirstOfPrinted(p: Param, more: string)
    requires Printable(p)
    ensures FirstParam(PrintParam(p) + more) == Some((p, more))
  {
    PrintedCuts(p, more);
    CutsParseFirst(PrintParam(p) + more, p, more, |p.key|, |p.key| + 2 + |p.value|);
  }

  lemma CutsParseFirst(s: string, p: Param, more: string, n: nat, close: nat)
    requires Printable(p) && n + 2 <= close < |s|
    requires s[..n] == p.key && s[n] == '=' && s[n + 1] == '"'
    requires s[n + 2..close] == p.value && s[close] == '"' && s[close + 1..] == more
    ensures FirstParam(s) == Some((p, more))
  {
    forall j | 0 <= j < n ensures s[j] !in {'='} { assert s[j] == p.key[j] && p.key[j] in p.key; }
    ScanIs(s, 0, {'='}, n);
    forall j | n + 2 <= j < close ensures s[j] !in {'"'} {
      assert s[j] == p.value[j - n - 2] && p.value[j - n - 2] in p.value;
    }
    ScanIs(s, n + 2, {'"'}, close);
  }

  lemma ParseCons(s: string, p: Param, rest: string)
    requires FirstParam(s) == Some((p, ", " + rest)) && ParseParams(rest).Some?
    ensures ParseParams(s) == Some([p] + ParseParams(rest).value)
  {
    var more := ", " + rest;
    assert |more| >= 2 && more[..2] == ", " && more[2..] == rest;
  }

  lemma ParseLast(s: string, p: Param)
    requires FirstParam(s) == Some((p, ""))
    ensures ParseParams(s) == Some([p])
  {}

  lemma HeadAndTail(ps: seq<Param>)
    requires ps != []
    ensures ps == [ps[0]] + ps[1..]
  {}

  lemma NothingMore(s: string)
    ensures s + "" == s
  {}

  lemma {:induction false} ParseInvertsPrint(ps: seq<Param>)
    requires ps != [] && forall p | p in ps :: Printable(p)
    ensures ParseParams(PrintParams(ps)) == Some(ps)
    decreases |ps|
  {
    if |ps| == 1 {
      NothingMore(PrintParam(ps[0]));
      FirstOfPrinted(ps[0], "");
      ParseLast(PrintParams(ps), ps[0]);
      assert ps == [ps[0]];
    } else {
      HeadAndTail(ps);
      var rest := PrintParams(ps[1..]);
      FirstOfPrinted(ps[0], ", " + rest);
      ParseInvertsPrint(ps[1..]);
      ParseCons(PrintParams(ps), ps[0], rest);
    }
  }

  /** Every printed header reads back to the call that printed it, optional members and all, although a
      description may contain ", " and "=". */
  lemma ReadInvertsChallenge(c: Call)
    requires Challenge(c).Ok?
    ensures ReadChallenge(Challenge(c).value) == Some(c)
  {
    ChallengeAccepted(c);
    var ps := ParamsOf(c);
    ValuesHaveNoQuote(c);
    ParseInvertsPrint(ps);
    var header := Printed(c);
    assert header[..7] == "Bearer " && header[7..] == PrintParams(ps);
    ValuesOfParams(c);
  }

  lemma NqscharHasNoQuote(v: string)
    requires AllNqschar(v)
    ensures '"' !in v
  {}

  /** The accepted error codes are NQCHAR like every other value. */
  lemma ErrorCodesAreNqchar(code: string)
    requires IsErrorCode(code)
    ensures AllNqchar(code)
  {}

  lemma OptionalPrintable(key: string, value: Option<string>)
    requires '=' !in key && (value.Some? ==> AllNqschar(value.value))
    ensures forall p | p in Optional(key, value) :: Printable(p)
  {
    if value.Some? { NqscharHasNoQuote(value.value); }
  }

  lemma ValuesAreNqschar(c: Call)
    requires Acceptable(c)
    ensures c.error.Some? ==> AllNqschar(c.error.value)
    ensures c.scope.Some? ==> AllNqschar(c.scope.value)
    ensures c.description.Some? ==> AllNqschar(c.description.value)
    ensures AllNqschar(c.url)
  {
    if c.error.Some? { ErrorCodesAreNqchar(c.error.value); }
  }

  lemma KeysHaveNoEquals()
    ensures '=' !in "error" && '=' !in "error_description" && '=' !in "scope" && '=' !in "resource_metadata"
  {}

  lemma ValuesHaveNoQuote(c: Call)
    requires Acceptable(c)
    ensures forall p | p in ParamsOf(c) :: Printable(p)
  {
    ValuesAreNqschar(c);
    KeysHaveNoEquals();
    EachIsPrintable("error", "error_description", "scope", "resource_metadata", c.error, c.description, c.scope, c.url);
  }

  lemma EachIsPrintable(k1: string, k2: string, k3: string, k4: string, v1: Option<string>, v2: Option<string>,
      v3: Option<string>, v4: string)
    requires '=' !in k1 && '=' !in k2 && '=' !in k3 && '=' !in k4 && AllNqschar(v4)
    requires (v1.Some? ==> AllNqschar(v1.value)) && (v2.Some? ==> AllNqschar(v2.value)) &&
             (v3.Some? ==> AllNqschar(v3.value))
    ensures forall p | p in Optional(k1, v1) + Optional(k2, v2) + Optional(k3, v3) + [Param(k4, v4)] :: Printable(p)
  {
    OptionalPrintable(k1, v1);
    OptionalPrintable(k2, v2);
    OptionalPrintable(k3, v3);
    NqscharHasNoQuote(v4);
    InOneOf(Optional(k1, v1), Optional(k2, v2), Optional(k3, v3), Param(k4, v4));
  }

  lemma InOneOf(a: seq<Param>, b: seq<Param>, c: seq<Param>, last: Param)
    ensures forall p | p in a + b + c + [last] :: p in a || p in b || p in c || p == last
  {}

  lemma KeysDiffer()
    ensures "error" != "scope" && "error" != "error_description" && "error" != "resource_metadata"
    ensures "scope" != "error_description" && "scope" != "resource_metadata" &&
            "error_description" != "resource_metadata"
  {
    assert "error"[0] == 'e' && "scope"[0] == 's';
    assert "error_description"[0] == 'e' && "resource_metadata"[0] == 'r';
  }

  lemma ValuesOfParams(c: Call)
    ensures var ps := ParamsOf(c);
            ValueOf(ps, "resource_metadata") == Some(c.url) && ValueOf(ps, "error") == c.error &&
            ValueOf(ps, "error_description") == c.description && ValueOf(ps, "scope") == c.scope
  {
    KeysDiffer();
    ValuesOf("error", "error_description", "scope", "resource_metadata", c.error, c.description, c.scope, c.url);
  }

  lemma ValuesOf(k1: string, k2: string, k3: string, k4: string, v1: Option<string>, v2: Option<string>,
      v3: Option<string>, v4: string)
    requires k1 != k2 && k1 != k3 && k1 != k4 && k2 != k3 && k2 != k4 && k3 != k4
    ensures var ps := Optional(k1, v1) + Optional(k2, v2) + Optional(k3, v3) + [Param(k4, v4)];
            ValueOf(ps, k1) == v1 && ValueOf(ps, k2) == v2 && ValueOf(ps, k3) == v3 && ValueOf(ps, k4) == Some(v4)
  {
    var last := [Param(k4, v4)];
    var third := Optional(k3, v3) + last;
    var second := Optional(k2, v2) + third;
    Regroup(Optional(k1, v1), Optional(k2, v2), Optional(k3, v3), last);
    ValueOfOptional(k1, v1, second);
    ValueOfOptional(k2, v2, third);
    ValueOfOptional(k3, v3, last);
    ValueOfOne(k4, v4);
  }

  lemma Regroup(a: seq<Param>, b: seq<Param>, c: seq<Param>, d: seq<Param>)
    ensures a + b + c + d == a + (b + (c + d))
  {}

  lemma ValueOfOne(key: string, value: string)
    ensures forall k :: ValueOf([Param(key, value)], k) == if k == key then Some(value) else None
  {
    assert [Param(key, value)][1..] == [];
  }

  lemma ValueOfOptional(key: string, value: Option<string>, rest: seq<Param>)
    ensures forall k :: ValueOf(Optional(key, value) + rest, k) ==
                        if k == key && value.Some? then value else ValueOf(rest, k)
  {
    if value.Some? {
      assert (Optional(key, value) + rest)[1..] == rest;
    } else {
      assert Optional(key, value) + rest == rest;
    }
  }

  /** A printed header is one line of printable ASCII. */
  lemma ChallengeIsOneLine(c: Call)
    requires Challenge(c).Ok?
    ensures forall ch | ch in Challenge(c).value :: ' ' <= ch <= '~'
  {
    ChallengeAccepted(c);
    ParamsOfAreOneLine(c);
    ParamsAreOneLine(ParamsOf(c));
  }

  ghost predicate OneLine(s: string) { forall i | 0 <= i < |s| :: ' ' <= s[i] <= '~' }

  lemma OptionalIsOneLine(key: string, value: Option<string>)
    requires OneLine(key) && (value.Some? ==> AllNqschar(value.value))
    ensures forall p | p in Optional(key, value) :: OneLine(PrintParam(p))
  {
    if value.Some? {
      forall i | 0 <= i < |value.value| ensures ' ' <= value.value[i] <= '~' { assert IsNqschar(value.value[i]); }
    }
  }

  lemma KeysAreOneLine()
    ensures OneLine("error") && OneLine("error_description") && OneLine("scope") && OneLine("resource_metadata")
  {}

  lemma ParamsOfAreOneLine(c: Call)
    requires Acceptable(c)
    ensures forall p | p in ParamsOf(c) :: OneLine(PrintParam(p))
  {
    ValuesAreNqschar(c);
    KeysAreOneLine();
    EachIsOneLine("error", "error_description", "scope", "resource_metadata", c.error, c.description, c.scope, c.url);
  }

  lemma EachIsOneLine(k1: string, k2: string, k3: string, k4: string, v1: Option<string>, v2: Option<string>,
      v3: Option<string>, v4: string)
    requires OneLine(k1) && OneLine(k2) && OneLine(k3) && OneLine(k4) && AllNqschar(v4)
    requires (v1.Some? ==> AllNqschar(v1.value)) && (v2.Some? ==> AllNqschar(v2.value)) &&
             (v3.Some? ==> AllNqschar(v3.value))
    ensures forall p | p in Optional(k1, v1) + Optional(k2, v2) + Optional(k3, v3) + [Param(k4, v4)] ::
              OneLine(PrintParam(p))
  {
    OptionalIsOneLine(k1, v1);
    OptionalIsOneLine(k2, v2);
    OptionalIsOneLine(k3, v3);
    OptionalIsOneLine(k4, Some(v4));
    assert Param(k4, v4) in Optional(k4, Some(v4));
    InOneOf(Optional(k1, v1), Optional(k2, v2), Optional(k3, v3), Param(k4, v4));
  }

  lemma {:induction false} ParamsAreOneLine(ps: seq<Param>)
    requires ps != [] && forall p | p in ps :: OneLine(PrintParam(p))
    ensures OneLine(PrintParams(ps))
    decreases |ps|
  {
    assert ps[0] in ps;
    if |ps| > 1 { ParamsAreOneLine(ps[1..]); }
  }
}
