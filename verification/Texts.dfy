/** Character classes, string scanning and texts of code points shared by the text modules. */
module Texts {
  /** What a string of the source holds: any code point, lone surrogates included. */
  type CodePoint = c: int | 0 <= c <= 0x10FFFF

  type Text = seq<CodePoint>

  function Codes(s: string): Text { seq(|s|, i requires 0 <= i < |s| => s[i] as int) }

  lemma CodesInjective(s: string, t: string)
    ensures Codes(s) == Codes(t) <==> s == t
  {
    if Codes(s) == Codes(t) {
      assert forall i | 0 <= i < |s| :: Codes(s)[i] == s[i] as int && Codes(t)[i] == t[i] as int;
    }
  }

  predicate IsAscii(t: Text) { forall i | 0 <= i < |t| :: t[i] < 0x80 }

  function LowerCode(c: CodePoint): CodePoint { if 0x41 <= c <= 0x5A then c + 32 else c }

  function LowerText(t: Text): Text { seq(|t|, i requires 0 <= i < |t| => LowerCode(t[i])) }

  /** The first index at or after `from` whose character is in `stops`, or the length. */
  function Scan(s: string, from: nat, stops: set<char>): (i: nat)
    requires from <= |s|
    ensures from <= i <= |s|
    ensures forall j | from <= j < i :: s[j] !in stops
    ensures i < |s| ==> s[i] in stops
    decreases |s| - from
  {
    if from == |s| || s[from] in stops then from else Scan(s, from + 1, stops)
  }

  /** A scan is determined by what it promises. */
  lemma ScanIs(s: string, from: nat, stops: set<char>, i: nat)
    requires from <= i <= |s|
    requires forall j | from <= j < i :: s[j] !in stops
    requires i < |s| ==> s[i] in stops
    ensures Scan(s, from, stops) == i {}

  /** RFC 6749 Appendix A: no space, no quote, no backslash, no control and no non-ASCII character. */
  predicate IsNqchar(c: char) {
    var code := c as int;
    code == 0x21 || 0x23 <= code <= 0x5B || 0x5D <= code <= 0x7E
  }

  predicate IsNqschar(c: char) { c == ' ' || IsNqchar(c) }

  predicate AllNqchar(s: string) { forall i | 0 <= i < |s| :: IsNqchar(s[i]) }

  predicate AllNqschar(s: string) { forall i | 0 <= i < |s| :: IsNqschar(s[i]) }

  function LowerChar(c: char): char { if 'A' <= c <= 'Z' then c + 32 as char else c }

  function UpperChar(c: char): char { if 'a' <= c <= 'z' then c - 32 as char else c }

  function LowerAscii(s: string): string { seq(|s|, i requires 0 <= i < |s| => LowerChar(s[i])) }

  function UpperAscii(s: string): string { seq(|s|, i requires 0 <= i < |s| => UpperChar(s[i])) }

  /** The whitespace that `strip()` and `split()` without arguments recognise. */
  predicate IsSpace(c: char) {
    '\t' <= c <= '\r' || '\U{001C}' <= c <= ' ' || c == '\U{0085}' || c == '\U{00A0}' || c == '\U{1680}' ||
    '\U{2000}' <= c <= '\U{200A}' || c == '\U{2028}' || c == '\U{2029}' || c == '\U{202F}' || c == '\U{205F}' ||
    c == '\U{3000}'
  }
}
