/** Unpadded base64url (section 5 of RFC 4648): the encoder with its padding stripped, and the lenient decoder
    run on the text with padding put back. */
module Base64Url {
  import opened Wrappers

  newtype Byte = b: int | 0 <= b < 256

  // ---- The alphabet ---------------------------------------------------------------------------------------------

  function Letter(v: int): char
    requires 0 <= v < 64
  {
    if v < 26 then 'A' + v as char
    else if v < 52 then 'a' + (v - 26) as char
    else if v < 62 then '0' + (v - 52) as char
    else if v == 62 then '-'
    else '_'
  }

  /** The decoder maps the two URL-safe letters onto the standard ones first, so it takes either spelling. */
  function Value(c: char): Option<int> {
    if 'A' <= c <= 'Z' then Some(c as int - 'A' as int)
    else if 'a' <= c <= 'z' then Some(c as int - 'a' as int + 26)
    else if '0' <= c <= '9' then Some(c as int - '0' as int + 52)
    else if c == '-' || c == '+' then Some(62)
    else if c == '_' || c == '/' then Some(63)
    else None
  }

  // ---- Encoding -----------------------------------------------------------------------------------------

  /** The six-bit groups of three bytes. */
  function First(b0: Byte): int { b0 as int / 4 }
  function Second(b0: Byte, b1: Byte): int { b0 as int % 4 * 16 + b1 as int / 16 }
  function Third(b1: Byte, b2: Byte): int { b1 as int % 16 * 4 + b2 as int / 64 }
  function Fourth(b2: Byte): int { b2 as int % 64 }

  /** The characters of the first one, two or three bytes, without padding. */
  function Quad(bs: seq<Byte>): string
    requires bs != []
  {
    if |bs| == 1 then [Letter(First(bs[0])), Letter(Second(bs[0], 0))]
    else if |bs| == 2 then [Letter(First(bs[0])), Letter(Second(bs[0], bs[1])), Letter(Third(bs[1], 0))]
    else [Letter(First(bs[0])), Letter(Second(bs[0], bs[1])), Letter(Third(bs[1], bs[2])), Letter(Fourth(bs[2]))]
  }

  function Equals(k: nat): string { if k == 0 then "" else ['='] + Equals(k - 1) }

  /** Characters missing in the last quad. */
  function Missing(n: nat): nat { if n % 3 == 0 then 0 else 3 - n % 3 }

  function EncodePadded(bs: seq<Byte>): string {
    if bs == [] then ""
    else if |bs| < 3 then Quad(bs) + Equals(3 - |bs|)
    else Quad(bs) + EncodePadded(bs[3..])
  }

  function StripPadding(s: string): string {
    if s != "" && s[|s| - 1] == '=' then StripPadding(s[..|s| - 1]) else s
  }

  function Encode(bs: seq<Byte>): string { StripPadding(EncodePadded(bs)) }

  // ---- Decoding -----------------------------------------------------------------------------------------

  /** The decoder's state: position in the quad, the bits left over, the padding seen in a row. Characters outside
      the alphabet are skipped, and enough padding ends the input. */
  function Scan(s: string, quad: nat, left: int, pads: nat): Option<seq<Byte>>
    requires quad < 4 && 0 <= left < 64 && (quad == 2 ==> left < 16) && (quad == 3 ==> left < 4)
    decreases |s|
  {
    if s == "" then (if quad == 0 then Some([]) else None)
    else if s[0] == '=' then
      if quad >= 2 && quad + pads + 1 >= 4 then Some([])
      else Scan(s[1..], quad, left, if quad >= 2 then pads + 1 else pads)
    else
      match Value(s[0])
      case None => Scan(s[1..], quad, left, pads)
      case Some(v) =>
        if quad == 0 then Scan(s[1..], 1, v, 0)
        else if quad == 1 then Emit((left * 4 + v / 16) as Byte, Scan(s[1..], 2, v % 16, 0))
        else if quad == 2 then Emit((left * 16 + v / 4) as Byte, Scan(s[1..], 3, v % 4, 0))
        else Emit((left * 64 + v) as Byte, Scan(s[1..], 0, 0, 0))
  }

  function Emit(b: Byte, rest: Option<seq<Byte>>): Option<seq<Byte>> {
    match rest
    case None => None
    case Some(bs) => Some([b] + bs)
  }

  /** `-n % 4` of the source's language. */
  function PaddingFor(n: nat): (k: nat)
    ensures k < 4 && (n + k) % 4 == 0
  {
    (4 - n % 4) % 4
  }

  function Decode(s: string): Option<seq<Byte>> { Scan(s + Equals(PaddingFor(|s|)), 0, 0, 0) }

  // ---- The round trip -----------------------------------------------------------------------------------

  lemma LetterValue(v: int)
    requires 0 <= v < 64
    ensures Value(Letter(v)) == Some(v) && Letter(v) != '='
  {}

  /** What the encoder emits without padding. */
  function Unpadded(bs: seq<Byte>): string {
    if bs == [] then "" else if |bs| < 3 then Quad(bs) else Quad(bs) + Unpadded(bs[3..])
  }

  lemma QuadEnds(bs: seq<Byte>)
    requires bs != []
    ensures Quad(bs)[|Quad(bs)| - 1] != '=' && |Quad(bs)| == if |bs| < 3 then |bs| + 1 else 4
  {
    LetterValue(Second(bs[0], 0));
    if |bs| == 2 { LetterValue(Third(bs[1], 0)); }
    if |bs| > 2 { LetterValue(Fourth(bs[2])); }
  }

  function QuadsLength(n: nat): nat { 4 * (n / 3) + if n % 3 == 0 then 0 else n % 3 + 1 }

  lemma {:induction false} UnpaddedLength(bs: seq<Byte>)
    ensures |Unpadded(bs)| == QuadsLength(|bs|)
    decreases |bs|
  {
    if bs != [] { QuadEnds(bs); }
    if |bs| >= 3 {
      UnpaddedLength(bs[3..]);
      assert |bs[3..]| / 3 == |bs| / 3 - 1 && |bs[3..]| % 3 == |bs| % 3;
    }
  }

  lemma LengthMeaning(n: nat)
    ensures QuadsLength(n) == (4 * n + 2) / 3 && PaddingFor(QuadsLength(n)) == Missing(n)
  {
    assert n == 3 * (n / 3) + n % 3;
  }

  lemma ThreeLess(n: nat)
    requires n >= 3
    ensures Missing(n - 3) == Missing(n)
  {
    assert n % 3 == (n - 3) % 3;
  }

  lemma QuadInFront(quad: string, rest: string, pads: string)
    ensures quad + (rest + pads) == quad + rest + pads
  {}

  lemma {:induction false} PaddedIsUnpadded(bs: seq<Byte>)
    ensures EncodePadded(bs) == Unpadded(bs) + Equals(Missing(|bs|))
    decreases |bs|
  {
    if bs == [] {
      assert Equals(Missing(0)) == "";
    } else if |bs| < 3 {
    } else {
      PaddedIsUnpadded(bs[3..]);
      ThreeLess(|bs|);
      QuadInFront(Quad(bs), Unpadded(bs[3..]), Equals(Missing(|bs|)));
    }
  }

  lemma {:induction false} UnpaddedEnds(bs: seq<Byte>)
    requires bs != []
    ensures Unpadded(bs) != "" && Unpadded(bs)[|Unpadded(bs)| - 1] != '='
    decreases |bs|
  {
    QuadEnds(bs);
    if |bs| > 3 { UnpaddedEnds(bs[3..]); }
  }

  lemma {:induction false} EqualsSnoc(k: nat)
    ensures Equals(k + 1) == Equals(k) + ['='] && |Equals(k)| == k
  {
    if k > 0 { EqualsSnoc(k - 1); }
  }

  lemma StripOne(s: string)
    ensures StripPadding(s + ['=']) == StripPadding(s)
  {
    assert (s + ['='])[..|s|] == s;
  }

  lemma PaddedOnce(s: string, pads: string)
    ensures s + (pads + ['=']) == s + pads + ['=']
  {}

  lemma {:induction false} StripUndoesPadding(s: string, k: nat)
    requires s != "" ==> s[|s| - 1] != '='
    ensures StripPadding(s + Equals(k)) == s
    decreases k
  {
    if k == 0 {
      assert s + Equals(0) == s;
    } else {
      EqualsSnoc(k - 1);
      PaddedOnce(s, Equals(k - 1));
      StripOne(s + Equals(k - 1));
      StripUndoesPadding(s, k - 1);
    }
  }

  lemma ScanLetter(v: int, rest: string, quad: nat, left: int)
    requires 0 <= v < 64
    requires quad < 4 && 0 <= left < 64 && (quad == 2 ==> left < 16) && (quad == 3 ==> left < 4)
    ensures Scan([Letter(v)] + rest, quad, left, 0) ==
            if quad == 0 then Scan(rest, 1, v, 0)
            else if quad == 1 then Emit((left * 4 + v / 16) as Byte, Scan(rest, 2, v % 16, 0))
            else if quad == 2 then Emit((left * 16 + v / 4) as Byte, Scan(rest, 3, v % 4, 0))
            else Emit((left * 64 + v) as Byte, Scan(rest, 0, 0, 0))
  {
    LetterValue(v);
    assert ([Letter(v)] + rest)[1..] == rest;
  }

  /** The bits of a byte split over two groups come back together. */
  lemma BytesRejoin(b0: Byte, b1: Byte, b2: Byte)
    ensures First(b0) * 4 + Second(b0, b1) / 16 == b0 as int
    ensures Second(b0, b1) % 16 * 16 + Third(b1, b2) / 4 == b1 as int
    ensures Third(b1, b2) % 4 * 64 + Fourth(b2) == b2 as int
  {}

  /** Two letters give the first byte, and leave the upper bits of the second. */
  lemma ScanTwoLetters(b0: Byte, b1: Byte, rest: string)
    ensures Scan([Letter(First(b0))] + ([Letter(Second(b0, b1))] + rest), 0, 0, 0) ==
            Emit(b0, Scan(rest, 2, Second(b0, b1) % 16, 0))
  {
    ScanLetter(First(b0), [Letter(Second(b0, b1))] + rest, 0, 0);
    ScanLetter(Second(b0, b1), rest, 1, First(b0));
    BytesRejoin(b0, b1, 0);
  }

  lemma ScanThirdLetter(b0: Byte, b1: Byte, b2: Byte, rest: string)
    ensures Scan([Letter(Third(b1, b2))] + rest, 2, Second(b0, b1) % 16, 0) ==
            Emit(b1, Scan(rest, 3, Third(b1, b2) % 4, 0))
  {
    ScanLetter(Third(b1, b2), rest, 2, Second(b0, b1) % 16);
    BytesRejoin(b0, b1, b2);
  }

  lemma ScanFourthLetter(b1: Byte, b2: Byte, rest: string)
    ensures Scan([Letter(Fourth(b2))] + rest, 3, Third(b1, b2) % 4, 0) == Emit(b2, Scan(rest, 0, 0, 0))
  {
    ScanLetter(Fourth(b2), rest, 3, Third(b1, b2) % 4);
    BytesRejoin(0, b1, b2);
  }

  lemma ScanPadding(left: int)
    requires 0 <= left < 4
    ensures Scan(Equals(1), 3, left, 0) == Some([])
    ensures Scan(Equals(2), 2, left, 0) == Some([])
  {
    assert Equals(1)[0] == '=' && Equals(2)[0] == '=' && Equals(2)[1..] == Equals(1);
  }

  lemma ScanOneByte(b0: Byte)
    ensures Scan([Letter(First(b0))] + ([Letter(Second(b0, 0))] + Equals(2)), 0, 0, 0) == Some([b0])
  {
    ScanTwoLetters(b0, 0, Equals(2));
    ScanPadding(0);
    assert [b0] + [] == [b0];
  }

  lemma ScanTwoBytes(b0: Byte, b1: Byte)
    ensures Scan([Letter(First(b0))] + ([Letter(Second(b0, b1))] + ([Letter(Third(b1, 0))] + Equals(1))), 0, 0, 0) ==
            Some([b0, b1])
  {
    ScanTwoLetters(b0, b1, [Letter(Third(b1, 0))] + Equals(1));
    ScanThirdLetter(b0, b1, 0, Equals(1));
    ScanPadding(Third(b1, 0) % 4);
    assert [b0] + ([b1] + []) == [b0, b1];
  }

  lemma ScanThreeBytes(b0: Byte, b1: Byte, b2: Byte, rest: string)
    ensures Scan([Letter(First(b0))] +
                 ([Letter(Second(b0, b1))] + ([Letter(Third(b1, b2))] + ([Letter(Fourth(b2))] + rest))), 0, 0, 0)
            == Emit(b0, Emit(b1, Emit(b2, Scan(rest, 0, 0, 0))))
  {
    var fourth := [Letter(Fourth(b2))] + rest;
    ScanTwoLetters(b0, b1, [Letter(Third(b1, b2))] + fourth);
    ScanThirdLetter(b0, b1, b2, fourth);
    ScanFourthLetter(b1, b2, rest);
  }

  lemma OneThen(a: char, b: char, rest: string)
    ensures [a, b] + rest == [a] + ([b] + rest)
  {}

  lemma TwoThen(a: char, b: char, c: char, rest: string)
    ensures [a, b, c] + rest == [a] + ([b] + ([c] + rest))
  {}

  lemma ThreeThen(a: char, b: char, c: char, d: char, rest: string)
    ensures [a, b, c, d] + rest == [a] + ([b] + ([c] + ([d] + rest)))
  {}

  lemma BytesOf(bs: seq<Byte>)
    ensures |bs| == 1 ==> bs == [bs[0]]
    ensures |bs| == 2 ==> bs == [bs[0], bs[1]]
    ensures |bs| >= 3 ==> bs == [bs[0]] + ([bs[1]] + ([bs[2]] + bs[3..]))
  {}

  lemma {:induction false} ScanUndoesEncode(bs: seq<Byte>)
    ensures Scan(EncodePadded(bs), 0, 0, 0) == Some(bs)
    decreases |bs|
  {
    BytesOf(bs);
    if bs == [] {
    } else if |bs| == 1 {
      OneThen(Letter(First(bs[0])), Letter(Second(bs[0], 0)), Equals(2));
      ScanOneByte(bs[0]);
    } else if |bs| == 2 {
      TwoThen(Letter(First(bs[0])), Letter(Second(bs[0], bs[1])), Letter(Third(bs[1], 0)), Equals(1));
      ScanTwoBytes(bs[0], bs[1]);
    } else {
      ThreeThen(Letter(First(bs[0])), Letter(Second(bs[0], bs[1])), Letter(Third(bs[1], bs[2])), Letter(Fourth(bs[2])),
                EncodePadded(bs[3..]));
      ScanThreeBytes(bs[0], bs[1], bs[2], EncodePadded(bs[3..]));
      ScanUndoesEncode(bs[3..]);
    }
  }

  /** For every byte sequence: the encoding is ceil(4n/3) characters long, 43 for a 32-byte hash, and decoding it
      gives the bytes back. */
  lemma RoundTrip(bs: seq<Byte>)
    ensures Decode(Encode(bs)) == Some(bs)
    ensures |Encode(bs)| == (4 * |bs| + 2) / 3 && (|bs| == 32 ==> |Encode(bs)| == 43)
  {
    PaddedIsUnpadded(bs);
    if bs != [] { UnpaddedEnds(bs); }
    StripUndoesPadding(Unpadded(bs), Missing(|bs|));
    UnpaddedLength(bs);
    LengthMeaning(|bs|);
    ScanUndoesEncode(bs);
  }
}
