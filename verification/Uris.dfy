/** The absolute-URI slicer: `scheme://authority[path][?query][#fragment]`, cut without normalisation, and the
    https-or-loopback policy. */
module Uris {
  import opened Wrappers
  import opened Texts

  datatype ParsedUri = ParsedUri(scheme: string, authority: string, path: string, hasQuery: bool, hasFragment: bool)

  datatype Policy = Identifier | Locator

  datatype Refusal = NotAbsolute | HasQuery | HasFragment | NotHttps | BadMember(field: string)

  predicate IsAlpha(c: char) { 'A' <= c <= 'Z' || 'a' <= c <= 'z' }

  predicate IsSchemeChar(c: char) { IsAlpha(c) || '0' <= c <= '9' || c == '+' || c == '.' || c == '-' }

  predicate IsScheme(s: string) { s != "" && IsAlpha(s[0]) && forall i | 0 <= i < |s| :: IsSchemeChar(s[i]) }

  /** The first colon ends the scheme; the first slash, question mark or hash after `://` ends the authority. */
  function ParseAbsoluteUri(raw: string): Option<ParsedUri> {
    var colon := Scan(raw, 0, {':'});
    if !IsScheme(raw[..colon]) || colon + 3 > |raw| || raw[colon..colon + 3] != "://" then None
    else
      var start := colon + 3;
      var slash := Scan(raw, start, {'/', '?', '#'});
      var mark := Scan(raw, slash, {'?', '#'});
      var hash := Scan(raw, mark, {'#'});
      if slash == start then None
      else Some(ParsedUri(raw[..colon], raw[start..slash], raw[slash..mark], mark < hash, hash < |raw|))
  }

  /** Where the host of a `host[:port]` ends; an IPv6 literal keeps its brackets. */
  function HostEnd(hostport: string): (n: nat)
    ensures n <= |hostport|
    ensures n < |hostport| ==> hostport[n] == ':' || (n > 0 && hostport[0] == '[')
  {
    if hostport != "" && hostport[0] == '[' then
      var close := Scan(hostport, 0, {']'});
      if close == |hostport| then close else close + 1
    else Scan(hostport, 0, {':'})
  }

  /** Userinfo and port stripped. */
  function HostOf(authority: string): string {
    var hostport := authority[PastLastAt(authority, |authority|)..];
    hostport[..HostEnd(hostport)]
  }

  /** Just past the last `@` before `n`. */
  function PastLastAt(s: string, n: nat): (i: nat)
    requires n <= |s|
    ensures i <= n && (i > 0 ==> s[i - 1] == '@') && forall j | i <= j < n :: s[j] != '@'
  {
    if n == 0 || s[n - 1] == '@' then n else PastLastAt(s, n - 1)
  }

  predicate IsLoopback(host: string) { host == "127.0.0.1" || host == "[::1]" || host == "localhost" }

  function RequireAbsoluteUri(raw: string, policy: Policy): Result<ParsedUri, Refusal> {
    match ParseAbsoluteUri(raw)
    case None => Err(NotAbsolute)
    case Some(p) =>
      if p.hasQuery && policy == Identifier then Err(HasQuery)
      else if p.hasFragment && policy == Identifier then Err(HasFragment)
      else if LowerAscii(p.scheme) == "https" then Ok(p)
      else if LowerAscii(p.scheme) == "http" && IsLoopback(LowerAscii(HostOf(p.authority))) then Ok(p)
      else Err(NotHttps)
  }

  // ---- Slicing and putting back together ---------------------------------------------------------------------

  ghost predicate IsAuthority(s: string) { s != "" && '/' !in s && '?' !in s && '#' !in s }

  ghost predicate IsPath(s: string) { (s != "" ==> s[0] == '/') && '?' !in s && '#' !in s }

  lemma FourSlices(raw: string, i: nat, j: nat, k: nat)
    requires i <= j <= k <= |raw|
    ensures raw == raw[..i] + raw[i..j] + raw[j..k] + raw[k..]
  {}

  lemma NoStopInSlice(raw: string, from: nat, stops: set<char>)
    requires from <= |raw|
    ensures forall c | c in raw[from..Scan(raw, from, stops)] :: c !in stops
  {
    var end := Scan(raw, from, stops);
    forall c | c in raw[from..end] ensures c !in stops {
      var j :| 0 <= j < end - from && raw[from..end][j] == c;
      assert raw[from + j] !in stops;
    }
  }

  lemma AuthorityAndPath(raw: string, start: nat)
    requires start <= |raw|
    ensures var slash := Scan(raw, start, {'/', '?', '#'});
            (slash > start ==> IsAuthority(raw[start..slash])) && IsPath(raw[slash..Scan(raw, slash, {'?', '#'})])
  {
    var slash := Scan(raw, start, {'/', '?', '#'});
    NoStopInSlice(raw, start, {'/', '?', '#'});
    NoStopInSlice(raw, slash, {'?', '#'});
    assert slash < |raw| ==> raw[slash] == '/' || raw[slash] == '?' || raw[slash] == '#';
  }

  /** What the slicer returns are pieces of the grammar, and without query and fragment they make up the text. */
  lemma ParsedPieces(raw: string)
    requires ParseAbsoluteUri(raw).Some?
    ensures var p := ParseAbsoluteUri(raw).value; IsScheme(p.scheme) && IsAuthority(p.authority) && IsPath(p.path)
    ensures var p := ParseAbsoluteUri(raw).value;
            !p.hasQuery && !p.hasFragment ==> raw == p.scheme + "://" + p.authority + p.path
  {
    var colon := Scan(raw, 0, {':'});
    var start := colon + 3;
    var slash := Scan(raw, start, {'/', '?', '#'});
    var mark := Scan(raw, slash, {'?', '#'});
    AuthorityAndPath(raw, start);
    FourSlices(raw, colon, start, slash);
    assert mark == |raw| ==> raw[slash..mark] == raw[slash..];
  }

  /** A query, a fragment, both or neither. */
  ghost predicate IsTail(s: string) { s != "" ==> s[0] == '?' || s[0] == '#' }

  /** `raw` is scheme, `://`, authority, path and tail, cut at n, a and m. */
  ghost predicate CutInto(
      raw: string, scheme: string, authority: string, path: string, tail: string, n: nat, a: nat, m: nat)
  {
    n + 3 <= a <= m <= |raw| && raw[..n] == scheme && raw[n..n + 3] == "://" &&
    raw[n + 3..a] == authority && raw[a..m] == path && raw[m..] == tail
  }

  lemma Cuts(scheme: string, authority: string, path: string, tail: string)
    ensures var n, a := |scheme|, |scheme| + 3 + |authority|;
            CutInto(scheme + "://" + authority + path + tail, scheme, authority, path, tail, n, a, a + |path|)
  {
    var s1 := scheme + "://";
    var s2 := s1 + authority;
    var s3 := s2 + path;
    var raw := s3 + tail;
    assert raw[..|s3|] == s3 && s3[..|s2|] == s2 && s2[..|s1|] == s1;
  }

  /** Pieces of the grammar, put together, slice back into themselves. */
  lemma PiecesParse(scheme: string, authority: string, path: string, tail: string)
    requires IsScheme(scheme) && IsAuthority(authority) && IsPath(path) && IsTail(tail)
    ensures ParseAbsoluteUri(scheme + "://" + authority + path + tail)
            == Some(ParsedUri(scheme, authority, path, tail != "" && tail[0] == '?', '#' in tail))
  {
    Cuts(scheme, authority, path, tail);
    var n, a := |scheme|, |scheme| + 3 + |authority|;
    CutsParse(scheme + "://" + authority + path + tail, scheme, authority, path, tail, n, a, a + |path|);
  }

  lemma SchemeScan(raw: string, scheme: string, n: nat)
    requires n < |raw| && raw[..n] == scheme && IsScheme(scheme) && raw[n] == ':'
    ensures Scan(raw, 0, {':'}) == n
  {
    forall j | 0 <= j < n ensures raw[j] !in {':'} { assert raw[j] == scheme[j]; }
    ScanIs(raw, 0, {':'}, n);
  }

  lemma AuthorityScan(raw: string, from: nat, authority: string, a: nat)
    requires from <= a <= |raw| && raw[from..a] == authority && IsAuthority(authority)
    requires a < |raw| ==> raw[a] in {'/', '?', '#'}
    ensures Scan(raw, from, {'/', '?', '#'}) == a
  {
    forall j | from <= j < a ensures raw[j] !in {'/', '?', '#'} { assert raw[j] == authority[j - from]; }
    ScanIs(raw, from, {'/', '?', '#'}, a);
  }

  lemma PathScan(raw: string, a: nat, path: string, m: nat)
    requires a <= m <= |raw| && raw[a..m] == path && IsPath(path)
    requires m < |raw| ==> raw[m] in {'?', '#'}
    ensures Scan(raw, a, {'?', '#'}) == m
  {
    forall j | a <= j < m ensures raw[j] !in {'?', '#'} { assert raw[j] == path[j - a]; }
    ScanIs(raw, a, {'?', '#'}, m);
  }

  lemma CutsParse(
      raw: string, scheme: string, authority: string, path: string, tail: string, n: nat, a: nat, m: nat)
    requires IsScheme(scheme) && IsAuthority(authority) && IsPath(path) && IsTail(tail)
    requires CutInto(raw, scheme, authority, path, tail, n, a, m)
    ensures ParseAbsoluteUri(raw)
            == Some(ParsedUri(scheme, authority, path, tail != "" && tail[0] == '?', '#' in tail))
  {
    assert raw[n] == raw[n..n + 3][0];
    assert m < |raw| ==> raw[m] == tail[0];
    assert a < m ==> raw[a] == path[0];
    SchemeScan(raw, scheme, n);
    AuthorityScan(raw, n + 3, authority, a);
    PathScan(raw, a, path, m);
    TailScan(raw, m, tail);
  }

  lemma TailScan(raw: string, m: nat, tail: string)
    requires m <= |raw| && raw[m..] == tail && IsTail(tail)
    ensures var h := Scan(raw, m, {'#'}); (h < |raw| <==> '#' in tail) && (m < h <==> tail != "" && tail[0] == '?')
  {
    var h := Scan(raw, m, {'#'});
    if h < |raw| { assert tail[h - m] == '#'; }
    if '#' in tail {
      var j :| 0 <= j < |tail| && tail[j] == '#';
      assert raw[m + j] == '#';
    }
    if tail != "" { assert raw[m] == tail[0]; }
  }

  // ---- The policy -------------------------------------------------------------------------------------

  /** `[userinfo@]host[:port]` with a loopback host. */
  ghost predicate Loopback(authority: string, user: string, host: string, port: string) {
    authority == user + host + port && Userinfo(user) && '@' !in host && '@' !in port &&
    IsLoopback(LowerAscii(host)) && (port != "" ==> port[0] == ':')
  }

  ghost predicate Userinfo(user: string) { user != "" ==> user[|user| - 1] == '@' }

  ghost predicate OnLoopback(authority: string) {
    exists user, host, port :: Loopback(authority, user, host, port)
  }

  /** Something other than a port right behind the bracket of `[::1]`. */
  ghost predicate Trailing(authority: string, user: string, tail: string) {
    authority == user + "[::1]" + tail && Userinfo(user) && '@' !in tail && tail != "" && tail[0] != ':'
  }

  ghost predicate TrailsBracket(authority: string) { exists user, tail :: Trailing(authority, user, tail) }

  lemma HostSplits(authority: string) returns (user: string, host: string, rest: string)
    ensures host == HostOf(authority) && authority == user + host + rest
    ensures (user != "" ==> user[|user| - 1] == '@') && '@' !in host && '@' !in rest
    ensures rest != "" ==> rest[0] == ':' || (host != "" && host[0] == '[')
  {
    var m := PastLastAt(authority, |authority|);
    user, host, rest := Split(authority, m, authority[m..], HostEnd(authority[m..]));
  }

  lemma Split(authority: string, m: nat, hostport: string, n: nat) returns (user: string, host: string, rest: string)
    requires m <= |authority| && authority[m..] == hostport && forall j | m <= j < |authority| :: authority[j] != '@'
    requires m > 0 ==> authority[m - 1] == '@'
    requires n <= |hostport| && (n < |hostport| ==> hostport[n] == ':' || (n > 0 && hostport[0] == '['))
    ensures host == hostport[..n] && authority == user + host + rest
    ensures (user != "" ==> user[|user| - 1] == '@') && '@' !in host && '@' !in rest
    ensures rest != "" ==> rest[0] == ':' || (host != "" && host[0] == '[')
  {
    user, host, rest := authority[..m], hostport[..n], hostport[n..];
    Rejoin(authority, m);
    Rejoin(hostport, n);
    Associate(user, host, rest);
  }

  lemma Rejoin(s: string, n: nat)
    requires n <= |s|
    ensures s[..n] + s[n..] == s
  {}

  lemma Associate(a: string, b: string, c: string)
    ensures a + b + c == a + (b + c)
  {}

  lemma LowersToBracket(host: string)
    requires LowerAscii(host) == "[::1]"
    ensures host == "[::1]"
  {
    assert forall i | 0 <= i < |host| :: LowerAscii(host)[i] == LowerChar(host[i]);
  }

  lemma LowersToPlain(host: string)
    requires IsLoopback(LowerAscii(host)) && LowerAscii(host) != "[::1]"
    ensures host != "" && host[0] != '[' && ':' !in host
  {
    assert forall i | 0 <= i < |host| :: LowerAscii(host)[i] == LowerChar(host[i]);
    forall i | 0 <= i < |host| ensures host[i] != ':' && host[i] != '[' {
      assert LowerAscii(host)[i] != ':' && LowerAscii(host)[i] != '[';
    }
  }

  lemma PastLastAtIs(s: string, m: nat, n: nat)
    requires m <= n <= |s| && (m > 0 ==> s[m - 1] == '@') && forall j | m <= j < n :: s[j] != '@'
    ensures PastLastAt(s, n) == m
  {}

  /** The last `@` is the one the userinfo ends with. */
  lemma HostOfRest(authority: string, user: string, hostport: string)
    requires authority == user + hostport && Userinfo(user) && '@' !in hostport
    ensures PastLastAt(authority, |authority|) == |user| && authority[|user|..] == hostport
    ensures HostOf(authority) == hostport[..HostEnd(hostport)]
  {
    forall j | |user| <= j < |authority| ensures authority[j] != '@' {
      assert authority[j] == hostport[j - |user|];
    }
    PastLastAtIs(authority, |user|, |authority|);
  }

  lemma HostInFront(host: string, rest: string)
    requires IsLoopback(LowerAscii(host)) && (rest != "" ==> rest[0] == ':' || host == "[::1]")
    ensures (host + rest)[..HostEnd(host + rest)] == host
  {
    if LowerAscii(host) == "[::1]" {
      LowersToBracket(host);
      BracketEnd(rest);
    } else {
      LowersToPlain(host);
      PlainEnd(host, rest);
    }
  }

  /** A loopback host with or without a port, or `[::1]` with anything behind it, is what the code takes for the
      host. */
  lemma HostIs(user: string, host: string, rest: string)
    requires Userinfo(user) && '@' !in host && '@' !in rest && IsLoopback(LowerAscii(host))
    requires rest != "" ==> rest[0] == ':' || host == "[::1]"
    ensures HostOf(user + host + rest) == host
  {
    Associate(user, host, rest);
    HostOfRest(user + (host + rest), user, host + rest);
    HostInFront(host, rest);
  }

  lemma BracketEnd(rest: string)
    ensures HostEnd("[::1]" + rest) == 5 && ("[::1]" + rest)[..5] == "[::1]"
  {
    ScanIs("[::1]" + rest, 0, {']'}, 4);
  }

  lemma PlainEnd(host: string, rest: string)
    requires host != "" && host[0] != '[' && ':' !in host && (rest != "" ==> rest[0] == ':')
    ensures HostEnd(host + rest) == |host| && (host + rest)[..|host|] == host
  {
    forall j | 0 <= j < |host| ensures (host + rest)[j] !in {':'} { assert host[j] in host; }
    ScanIs(host + rest, 0, {':'}, |host|);
  }

  /** What the code takes for a loopback host: one, or `[::1]` with anything but a port behind its bracket. */
  lemma TakenForLoopbackExactly(authority: string)
    ensures IsLoopback(LowerAscii(HostOf(authority))) <==> OnLoopback(authority) || TrailsBracket(authority)
  {
    if IsLoopback(LowerAscii(HostOf(authority))) {
      var user, host, rest := HostSplits(authority);
      if rest == "" || rest[0] == ':' {
        assert Loopback(authority, user, host, rest);
      } else {
        BracketedHost(host);
        assert Trailing(authority, user, rest);
      }
    }
    if OnLoopback(authority) {
      var user, host, port :| Loopback(authority, user, host, port);
      HostIs(user, host, port);
    }
    if TrailsBracket(authority) {
      var user, tail :| Trailing(authority, user, tail);
      BracketIsLoopback();
      HostIs(user, "[::1]", tail);
    }
  }

  lemma BracketedHost(host: string)
    requires IsLoopback(LowerAscii(host)) && host != "" && host[0] == '['
    ensures host == "[::1]"
  {
    if LowerAscii(host) == "[::1]" { LowersToBracket(host); } else { LowersToPlain(host); }
  }

  lemma BracketIsLoopback()
    ensures LowerAscii("[::1]") == "[::1]" && '@' !in "[::1]"
  {}

  lemma PortOrNothing(host: string, port: string, tail: string)
    requires IsLoopback(LowerAscii(host)) && host + port == "[::1]" + tail && (port != "" ==> port[0] == ':')
    ensures tail == "" || tail[0] == ':'
  {
    assert |host| == |LowerAscii(host)| > 0;
    assert host[0] == (host + port)[0] == '[';
    BracketedHost(host);
    assert (host + port)[5..] == port && ("[::1]" + tail)[5..] == tail;
  }

  lemma NotBoth(authority: string)
    ensures !(OnLoopback(authority) && TrailsBracket(authority))
  {
    if OnLoopback(authority) && TrailsBracket(authority) {
      var user1, host, port :| Loopback(authority, user1, host, port);
      var user2, tail :| Trailing(authority, user2, tail);
      Associate(user1, host, port);
      HostOfRest(authority, user1, host + port);
      Associate(user2, "[::1]", tail);
      HostOfRest(authority, user2, "[::1]" + tail);
      PortOrNothing(host, port, tail);
      assert false;
    }
  }

  /** Every accepted URI is https or http. An accepted http one is on loopback, as the policy promises, exactly when
      nothing but a port stands behind the bracket of `[::1]`; and every http URI on loopback passes. */
  lemma HttpOnLoopbackExactly(raw: string, policy: Policy)
    requires ParseAbsoluteUri(raw).Some?
    ensures var p := ParseAbsoluteUri(raw).value; var ok := RequireAbsoluteUri(raw, policy).Ok?;
            (ok ==> LowerAscii(p.scheme) == "https" || LowerAscii(p.scheme) == "http") &&
            (LowerAscii(p.scheme) == "http" && (policy == Locator || (!p.hasQuery && !p.hasFragment)) ==>
               (ok <==> OnLoopback(p.authority) || TrailsBracket(p.authority))) &&
            (LowerAscii(p.scheme) == "http" && ok ==> (OnLoopback(p.authority) <==> !TrailsBracket(p.authority)))
  {
    var p := ParseAbsoluteUri(raw).value;
    TakenForLoopbackExactly(p.authority);
    NotBoth(p.authority);
  }

  /** Any such tail is accepted, `http://[::1].other.example/` for one. */
  lemma BracketTailAccepted(tail: string, path: string, policy: Policy)
    requires tail != "" && tail[0] != ':' && '@' !in tail && '/' !in tail && '?' !in tail && '#' !in tail &&
             IsPath(path)
    ensures var raw := "http" + "://" + ("[::1]" + tail) + path + "";
            RequireAbsoluteUri(raw, policy).Ok? && !OnLoopback(ParseAbsoluteUri(raw).value.authority)
  {
    var authority := "[::1]" + tail;
    var raw := "http" + "://" + authority + path + "";
    PlainHttp();
    PiecesParse("http", authority, path, "");
    assert authority == "" + "[::1]" + tail && Trailing(authority, "", tail);
    HttpOnLoopbackExactly(raw, policy);
  }

  lemma PlainHttp()
    ensures IsScheme("http") && LowerAscii("http") == "http" && "http" != "https"
  {}
}
