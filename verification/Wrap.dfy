/** The generator's paragraph filler. */
module Wraps {
  import opened Texts

  // ---- Splitting ------------------------------------------------------------------------------------------------

  function StripLeft(s: string): string { if s != "" && IsSpace(s[0]) then StripLeft(s[1..]) else s }

  function StripRight(s: string): string { if s != "" && IsSpace(s[|s| - 1]) then StripRight(s[..|s| - 1]) else s }

  function BlankLine(s: string, from: nat): (i: nat)
    requires from <= |s|
    ensures from <= i <= |s| && (i < |s| ==> i + 1 < |s| && s[i] == '\n' && s[i + 1] == '\n')
    decreases |s| - from
  {
    if |s| - from < 2 then |s|
    else if s[from] == '\n' && s[from + 1] == '\n' then from
    else BlankLine(s, from + 1)
  }

  /** `split("\n\n")` */
  function Paragraphs(s: string): seq<string>
    decreases |s|
  {
    var i := BlankLine(s, 0);
    if i == |s| then [s] else [s[..i]] + Paragraphs(s[i + 2..])
  }

  function WordEnd(s: string, from: nat): (i: nat)
    requires from <= |s|
    ensures from <= i <= |s| && (i < |s| ==> IsSpace(s[i])) && forall j | from <= j < i :: !IsSpace(s[j])
    decreases |s| - from
  {
    if from == |s| || IsSpace(s[from]) then from else WordEnd(s, from + 1)
  }

  predicate IsWord(w: string) { w != "" && forall i | 0 <= i < |w| :: !IsSpace(w[i]) }

  predicate AllWords(ws: seq<string>) { forall i | 0 <= i < |ws| :: IsWord(ws[i]) }

  /** `split()` */
  function Words(s: string): (ws: seq<string>)
    ensures AllWords(ws)
    decreases |s|
  {
    if s == "" then []
    else if IsSpace(s[0]) then Words(s[1..])
    else var n := WordEnd(s, 0); [s[..n]] + Words(s[n..])
  }

  // ---- Filling ----------------------------------------------------------------------------------------------------

  /** A group of words as one line. */
  function Line(group: seq<string>): string
    requires group != []
  {
    if |group| == 1 then group[0] else Line(group[..|group| - 1]) + [' '] + group[|group| - 1]
  }

  function Width(group: seq<string>): nat
    requires group != []
  {
    if |group| == 1 then |group[0]| else Width(group[..|group| - 1]) + 1 + |group[|group| - 1]|
  }

  lemma {:induction false} WidthIsLength(group: seq<string>)
    requires group != []
    ensures Width(group) == |Line(group)|
  {
    if |group| > 1 { WidthIsLength(group[..|group| - 1]); }
  }

  /** The lines still to come, with `current` on the line being filled. */
  function Greedy(current: seq<string>, rest: seq<string>, width: int): (lines: seq<seq<string>>)
    requires current != []
    ensures lines != [] && forall i | 0 <= i < |lines| :: lines[i] != []
    decreases |rest|
  {
    if rest == [] then [current]
    else if Width(current) + 1 + |rest[0]| > width then [current] + Greedy([rest[0]], rest[1..], width)
    else Greedy(current + [rest[0]], rest[1..], width)
  }

  function Fill(words: seq<string>, width: int): seq<seq<string>> {
    if words == [] then [] else Greedy([words[0]], words[1..], width)
  }

  function Flatten(lines: seq<seq<string>>): seq<string> { if lines == [] then [] else lines[0] + Flatten(lines[1..]) }

  /** Within the width, or a single word. */
  ghost predicate Fits(line: seq<string>, width: int) { line != [] && (|line| == 1 || Width(line) <= width) }

  ghost predicate IsFilling(lines: seq<seq<string>>, words: seq<string>, width: int) {
    Flatten(lines) == words && forall i | 0 <= i < |lines| :: Fits(lines[i], width)
  }

  lemma {:induction false} GreedyIsFilling(current: seq<string>, rest: seq<string>, width: int)
    requires Fits(current, width)
    ensures IsFilling(Greedy(current, rest, width), current + rest, width)
    decreases |rest|
  {
    if rest == [] {
      assert Flatten([current]) == current + Flatten([]);
    } else if Width(current) + 1 + |rest[0]| > width {
      GreedyIsFilling([rest[0]], rest[1..], width);
      var tail := Greedy([rest[0]], rest[1..], width);
      assert ([current] + tail)[1..] == tail;
      assert [rest[0]] + rest[1..] == rest;
    } else {
      var longer := current + [rest[0]];
      assert longer[..|longer| - 1] == current;
      GreedyIsFilling(longer, rest[1..], width);
      assert longer + rest[1..] == current + rest;
    }
  }

  // ---- Fewest lines -------------------------------------------------------------------------------------

  lemma {:induction false} WidthOfPrefix(group: seq<string>, n: nat)
    requires 0 < n <= |group|
    ensures Width(group[..n]) <= Width(group)
  {
    if n < |group| {
      WidthOfPrefix(group[..|group| - 1], n);
      assert group[..|group| - 1][..n] == group[..n];
    } else {
      assert group[..n] == group;
    }
  }

  ghost predicate IsSuffix(a: seq<string>, b: seq<string>) { |a| <= |b| && a == b[|b| - |a|..] }

  lemma {:induction false} WidthOfSuffix(a: seq<string>, b: seq<string>)
    requires a != [] && IsSuffix(a, b)
    ensures Width(a) <= Width(b)
    decreases |a|
  {
    if |a| > 1 {
      WidthOfSuffix(a[..|a| - 1], b[..|b| - 1]);
    } else if |b| > 1 {
      assert a[0] == b[|b| - 1];
    }
  }

  /** Greedy stays ahead. Another filling has `begun` on its current line, `coming` still to come on it, and then the
      lines `later`; greedy has `current` on its line. If greedy is a whole line ahead, or its line is a suffix of the
      other's, it ends with no more lines. */
  lemma {:induction false} StaysAhead(
      current: seq<string>, begun: seq<string>, coming: seq<string>, later: seq<seq<string>>, ahead: bool, width: int)
    requires current != [] && begun != []
    requires Fits(begun + coming, width) && forall i | 0 <= i < |later| :: Fits(later[i], width)
    requires ahead || IsSuffix(current, begun)
    ensures |Greedy(current, coming + Flatten(later), width)| <= (if ahead then 1 else 0) + 1 + |later|
    decreases |coming| + |Flatten(later)|, |later|
  {
    var rest := coming + Flatten(later);
    if rest == [] {
    } else if coming == [] {
      // The other filling breaks its line here.
      var line, w := later[0], later[0][0];
      assert rest == [w] + (line[1..] + Flatten(later[1..]));
      assert rest[1..] == line[1..] + Flatten(later[1..]);
      assert [w] + line[1..] == line;
      if Width(current) + 1 + |w| > width {
        StaysAhead([w], [w], line[1..], later[1..], ahead, width);
      } else {
        StaysAhead(current + [w], [w], line[1..], later[1..], true, width);
      }
    } else {
      // The other filling keeps the next word on its line.
      var w, whole := coming[0], begun + coming;
      assert rest[1..] == coming[1..] + Flatten(later);
      assert begun + [w] + coming[1..] == whole;
      if Width(current) + 1 + |w| > width {
        if !ahead {
          WidthOfSuffix(current, begun);
          var longer := begun + [w];
          assert longer == whole[..|longer|] && longer[..|longer| - 1] == begun;
          WidthOfPrefix(whole, |longer|);
        }
        StaysAhead([w], begun + [w], coming[1..], later, false, width);
      } else {
        StaysAhead(current + [w], begun + [w], coming[1..], later, ahead, width);
      }
    }
  }

  /** Greedy filling keeps the words in order, makes only lines that fit or hold a single word, and uses the fewest
      lines of any such filling. */
  lemma GreedyIsBest(words: seq<string>, width: int, other: seq<seq<string>>)
    requires IsFilling(other, words, width)
    ensures IsFilling(Fill(words, width), words, width)
    ensures |Fill(words, width)| <= |other|
  {
    if words != [] {
      GreedyIsFilling([words[0]], words[1..], width);
      assert [words[0]] + words[1..] == words;
      var line := other[0];
      assert Fits(line, width);
      assert [line[0]] + line[1..] == line;
      assert words[1..] == line[1..] + Flatten(other[1..]);
      StaysAhead([words[0]], [words[0]], line[1..], other[1..], false, width);
    }
  }

  // ---- The whole text -----------------------------------------------------------------------------------

  function Lines(groups: seq<seq<string>>): seq<string>
    requires forall i | 0 <= i < |groups| :: groups[i] != []
  {
    if groups == [] then [] else [Line(groups[0])] + Lines(groups[1..])
  }

  function FilledLines(words: seq<string>, width: int): seq<string> { Lines(Fill(words, width)) }

  /** The words of each paragraph that has any. */
  function WordLists(paras: seq<string>): (wss: seq<seq<string>>)
    ensures forall i | 0 <= i < |wss| :: wss[i] != [] && AllWords(wss[i])
  {
    if paras == [] then []
    else WordLists(paras[..|paras| - 1]) + if Words(paras[|paras| - 1]) == [] then [] else [Words(paras[|paras| - 1])]
  }

  function Filled(wss: seq<seq<string>>, width: int): (blocks: seq<seq<string>>)
    ensures |blocks| == |wss| && forall i | 0 <= i < |wss| :: blocks[i] == FilledLines(wss[i], width)
  {
    if wss == [] then [] else Filled(wss[..|wss| - 1], width) + [FilledLines(wss[|wss| - 1], width)]
  }

  function Stripped(text: string): string { StripRight(StripLeft(text)) }

  /** The words of a text, paragraph by paragraph. */
  function Content(text: string): seq<seq<string>> { WordLists(Paragraphs(Stripped(text))) }

  /** Exactly one blank line between blocks, none before the first or after the last. */
  function Separated(blocks: seq<seq<string>>): seq<string> {
    if blocks == [] then []
    else if |blocks| == 1 then blocks[0]
    else Separated(blocks[..|blocks| - 1]) + [""] + blocks[|blocks| - 1]
  }

  function Wrapped(text: string, width: int): seq<string> { Separated(Filled(Content(text), width)) }

  lemma {:induction false} LinesSnoc(groups: seq<seq<string>>, last: seq<string>)
    requires last != [] && forall i | 0 <= i < |groups| :: groups[i] != []
    ensures Lines(groups + [last]) == Lines(groups) + [Line(last)]
  {
    if groups == [] {
    } else {
      LinesSnoc(groups[1..], last);
      assert (groups + [last])[1..] == groups[1..] + [last];
    }
  }

  lemma {:induction false} LineIsNotEmpty(group: seq<string>)
    requires group != [] && AllWords(group)
    ensures Line(group) != "" && !IsSpace(Line(group)[0]) && !IsSpace(Line(group)[|Line(group)| - 1])
  {
    if |group| > 1 { LineIsNotEmpty(group[..|group| - 1]); }
  }

  lemma {:induction false} GreedyKeepsWords(current: seq<string>, rest: seq<string>, width: int)
    requires current != [] && AllWords(current) && AllWords(rest)
    ensures forall i | 0 <= i < |Greedy(current, rest, width)| :: AllWords(Greedy(current, rest, width)[i])
    decreases |rest|
  {
    if rest == [] {
    } else {
      if Width(current) + 1 + |rest[0]| > width {
        GreedyKeepsWords([rest[0]], rest[1..], width);
      } else {
        GreedyKeepsWords(current + [rest[0]], rest[1..], width);
      }
    }
  }

  ghost predicate NoBlank(lines: seq<string>) { lines != [] && forall i | 0 <= i < |lines| :: lines[i] != "" }

  lemma {:induction false} LinesAreNotBlank(groups: seq<seq<string>>)
    requires forall i | 0 <= i < |groups| :: groups[i] != [] && AllWords(groups[i])
    ensures |Lines(groups)| == |groups|
    ensures forall i | 0 <= i < |groups| :: Lines(groups)[i] == Line(groups[i]) && Lines(groups)[i] != ""
  {
    if groups == [] {
    } else {
      LinesAreNotBlank(groups[1..]);
      LineIsNotEmpty(groups[0]);
    }
  }

  lemma BlockIsNotBlank(words: seq<string>, width: int)
    requires words != [] && AllWords(words)
    ensures NoBlank(FilledLines(words, width))
  {
    GreedyKeepsWords([words[0]], words[1..], width);
    LinesAreNotBlank(Fill(words, width));
  }

  lemma BlocksAreNotBlank(wss: seq<seq<string>>, width: int)
    requires forall i | 0 <= i < |wss| :: wss[i] != [] && AllWords(wss[i])
    ensures forall i | 0 <= i < |wss| :: NoBlank(Filled(wss, width)[i])
  {
    forall i | 0 <= i < |wss| ensures NoBlank(Filled(wss, width)[i]) { BlockIsNotBlank(wss[i], width); }
  }

  method FillParagraph(words: seq<string>, width: int) returns (out: seq<string>)
    requires AllWords(words)
    ensures out == FilledLines(words, width)
  {
    out := [];
    var line := "";
    ghost var done: seq<seq<string>>, current: seq<string> := [], [];
    for i := 0 to |words|
      invariant forall j | 0 <= j < |done| :: done[j] != []
      invariant out == Lines(done)
      invariant i == 0 ==> current == [] && done == [] && line == ""
      invariant i > 0 ==> current != [] && AllWords(current) && line == Line(current) &&
                          done + Greedy(current, words[i..], width) == Fill(words, width)
    {
      var word := words[i];
      if i > 0 {
        LineIsNotEmpty(current);
        WidthIsLength(current);
        assert words[i..][0] == word && words[i..][1..] == words[i + 1..];
      }
      if line != "" && |line| + 1 + |word| > width {
        out := out + [line];
        LinesSnoc(done, current);
        done, current := done + [current], [word];
        line := word;
      } else {
        ghost var longer := current + [word];
        assert longer[..|longer| - 1] == current;
        current := longer;
        line := if line != "" then line + " " + word else word;
      }
    }
    if line != "" {
      out := out + [line];
      LinesSnoc(done, current);
      assert words[|words|..] == [];
    } else if |words| > 0 {
      LineIsNotEmpty(current);
    }
  }

  lemma SeparatedSnoc(blocks: seq<seq<string>>, last: seq<string>)
    ensures Separated(blocks + [last]) == (if blocks == [] then [] else Separated(blocks) + [""]) + last
  {
    assert (blocks + [last])[..|blocks|] == blocks;
  }

  lemma FilledSnoc(paras: seq<string>, i: nat, width: int)
    requires i < |paras|
    ensures Filled(WordLists(paras[..i + 1]), width) ==
            Filled(WordLists(paras[..i]), width) +
            if Words(paras[i]) == [] then [] else [FilledLines(Words(paras[i]), width)]
  {
    assert paras[..i + 1][..i] == paras[..i];
    if Words(paras[i]) != [] {
      var wss := WordLists(paras[..i]);
      assert (wss + [Words(paras[i])])[..|wss|] == wss;
    }
  }

  /** The trailing blank lines go. */
  method DropTrailingBlanks(lines: seq<string>, ghost kept: seq<string>) returns (out: seq<string>)
    requires lines == kept || lines == kept + [""]
    requires kept != [] ==> kept[|kept| - 1] != ""
    ensures out == kept
  {
    out := lines;
    while out != [] && out[|out| - 1] == ""
      invariant out == kept + [""] || out == kept
      decreases |out|
    {
      out := out[..|out| - 1];
    }
  }

  /** Reflow into lines, one blank line between paragraphs. */
  method Wrap(text: string, width: int) returns (out: seq<string>)
    ensures out == Wrapped(text, width)
  {
    out := [];
    var paras := Paragraphs(Stripped(text));
    ghost var blocks: seq<seq<string>> := [];
    for i := 0 to |paras|
      invariant blocks == Filled(WordLists(paras[..i]), width)
      invariant out == if blocks == [] then [] else Separated(blocks) + [""]
    {
      FilledSnoc(paras, i, width);
      var words := Words(paras[i]);
      if words == [] { continue; }
      var lines := FillParagraph(words, width);
      out := out + lines;
      out := out + [""];
      SeparatedSnoc(blocks, lines);
      blocks := blocks + [lines];
    }
    assert paras[..|paras|] == paras;
    BlocksAreNotBlank(WordLists(paras), width);
    if blocks != [] { SeparatedEnds(blocks); }
    out := DropTrailingBlanks(out, Separated(blocks));
  }

  lemma SeparatedEnds(blocks: seq<seq<string>>)
    requires blocks != [] && forall i | 0 <= i < |blocks| :: NoBlank(blocks[i])
    ensures Separated(blocks) != [] && Separated(blocks)[|Separated(blocks)| - 1] != ""
  {
    var last := blocks[|blocks| - 1];
    assert NoBlank(last);
    assert Separated(blocks)[|Separated(blocks)| - 1] == last[|last| - 1];
  }

  // ---- Reading the result back --------------------------------------------------------------------------

  /** The lines as one text. */
  function Unlines(lines: seq<string>): string {
    if lines == [] then ""
    else if |lines| == 1 then lines[0]
    else Unlines(lines[..|lines| - 1]) + ['\n'] + lines[|lines| - 1]
  }

  lemma UnlinesSnoc(lines: seq<string>, last: string)
    requires lines != []
    ensures Unlines(lines + [last]) == Unlines(lines) + ['\n'] + last
  {
    assert (lines + [last])[..|lines|] == lines;
  }

  lemma WordEndIs(s: string, from: nat, n: nat)
    requires from <= n <= |s| && (n < |s| ==> IsSpace(s[n])) && forall j | from <= j < n :: !IsSpace(s[j])
    ensures WordEnd(s, from) == n
  {}

  /** Any whitespace character separates words. */
  lemma {:induction false} WordsSplit(a: string, c: char, b: string)
    requires IsSpace(c)
    ensures Words(a + [c] + b) == Words(a) + Words(b)
    decreases |a|
  {
    var s := a + [c] + b;
    if a == "" {
      assert s[1..] == b;
    } else if IsSpace(a[0]) {
      WordsSplit(a[1..], c, b);
      assert s[1..] == a[1..] + [c] + b;
    } else {
      var n := WordEnd(a, 0);
      assert forall j | 0 <= j < n :: s[j] == a[j];
      assert s[n] == if n < |a| then a[n] else c;
      WordEndIs(s, 0, n);
      assert s[..n] == a[..n] && s[n..] == a[n..] + [c] + b;
      WordsSplit(a[n..], c, b);
      assert Words(a) == [a[..n]] + Words(a[n..]);
    }
  }

  lemma WordsOfWord(w: string)
    requires IsWord(w)
    ensures Words(w) == [w]
  {
    WordEndIs(w, 0, |w|);
    assert w[..|w|] == w && w[|w|..] == "";
  }

  lemma {:induction false} WordsOfLine(group: seq<string>)
    requires group != [] && AllWords(group)
    ensures Words(Line(group)) == group
  {
    var init, last := group[..|group| - 1], group[|group| - 1];
    WordsOfWord(last);
    if |group| > 1 {
      WordsOfLine(init);
      WordsSplit(Line(init), ' ', last);
    }
    assert group == init + [last];
  }

  lemma {:induction false} FlattenSnoc(groups: seq<seq<string>>, last: seq<string>)
    ensures Flatten(groups + [last]) == Flatten(groups) + last
  {
    if groups == [] {
      assert Flatten([last]) == last + Flatten([]);
    } else {
      FlattenSnoc(groups[1..], last);
      assert (groups + [last])[1..] == groups[1..] + [last];
    }
  }

  lemma {:induction false} WordsOfLines(groups: seq<seq<string>>)
    requires groups != [] && forall i | 0 <= i < |groups| :: groups[i] != [] && AllWords(groups[i])
    ensures Words(Unlines(Lines(groups))) == Flatten(groups)
  {
    var init, last := groups[..|groups| - 1], groups[|groups| - 1];
    assert groups == init + [last];
    LinesSnoc(init, last);
    LinesAreNotBlank(init);
    FlattenSnoc(init, last);
    WordsOfLine(last);
    if init != [] {
      WordsOfLines(init);
      UnlinesSnoc(Lines(init), Line(last));
      WordsSplit(Unlines(Lines(init)), '\n', Line(last));
    }
  }

  /** No blank line inside, no line feed or space at either end. */
  ghost predicate Solid(s: string) {
    s != "" && !IsSpace(s[0]) && !IsSpace(s[|s| - 1]) && forall i | 0 < i < |s| :: !(s[i - 1] == '\n' && s[i] == '\n')
  }

  lemma {:induction false} LineHasNoLineFeed(group: seq<string>)
    requires group != [] && AllWords(group)
    ensures '\n' !in Line(group)
  {
    if |group| > 1 { LineHasNoLineFeed(group[..|group| - 1]); }
    assert IsWord(group[|group| - 1]);
  }

  lemma {:induction false} BlockIsSolid(groups: seq<seq<string>>)
    requires groups != [] && forall i | 0 <= i < |groups| :: groups[i] != [] && AllWords(groups[i])
    ensures Solid(Unlines(Lines(groups)))
  {
    var init, last := groups[..|groups| - 1], groups[|groups| - 1];
    assert groups == init + [last];
    LinesSnoc(init, last);
    LinesAreNotBlank(init);
    LineHasNoLineFeed(last);
    LineIsNotEmpty(last);
    if init != [] {
      BlockIsSolid(init);
      UnlinesSnoc(Lines(init), Line(last));
      SolidSnoc(Unlines(Lines(init)), Line(last));
    }
  }

  lemma SolidSnoc(a: string, line: string)
    requires Solid(a) && line != "" && '\n' !in line && !IsSpace(line[|line| - 1])
    ensures Solid(a + ['\n'] + line)
  {
    var s := a + ['\n'] + line;
    forall i | 0 < i < |s| ensures !(s[i - 1] == '\n' && s[i] == '\n') {
      if i < |a| { assert s[i - 1] == a[i - 1] && s[i] == a[i]; }
      else if i == |a| { assert s[i - 1] == a[|a| - 1]; }
      else { assert s[i] == line[i - |a| - 1]; }
    }
  }

  lemma {:induction false} BlankLineIs(s: string, from: nat, n: nat)
    requires from <= n <= |s|
    requires forall j | from <= j < n && j + 1 < |s| :: !(s[j] == '\n' && s[j + 1] == '\n')
    requires n == |s| || (n + 1 < |s| && s[n] == '\n' && s[n + 1] == '\n')
    ensures BlankLine(s, from) == n
    decreases n - from
  {
    if from < n && |s| - from >= 2 { BlankLineIs(s, from + 1, n); }
  }

  lemma ParagraphsCons(a: string, rest: string)
    requires Solid(a)
    ensures Paragraphs(a) == [a]
    ensures Paragraphs(a + ['\n', '\n'] + rest) == [a] + Paragraphs(rest)
  {
    forall j | 0 <= j < |a| && j + 1 < |a| ensures !(a[j] == '\n' && a[j + 1] == '\n') {
      assert !(a[j + 1 - 1] == '\n' && a[j + 1] == '\n');
    }
    BlankLineIs(a, 0, |a|);
    var s := a + ['\n', '\n'] + rest;
    forall j | 0 <= j < |a| && j + 1 < |s| ensures !(s[j] == '\n' && s[j + 1] == '\n') {
      assert s[j] == a[j];
      if j + 1 < |a| { assert s[j + 1] == a[j + 1]; }
    }
    BlankLineIs(s, 0, |a|);
    assert s[..|a|] == a && s[|a| + 2..] == rest;
  }

  // ---- The text of several blocks -----------------------------------------------------------------------

  lemma {:induction false} UnlinesAcrossBlank(a: seq<string>, b: seq<string>)
    requires a != [] && b != []
    ensures Unlines(a + [""] + b) == Unlines(a) + ['\n', '\n'] + Unlines(b)
    decreases |b|
  {
    var init, last := b[..|b| - 1], b[|b| - 1];
    UnlinesSnoc(a, "");
    if |b| == 1 {
      assert a + [""] + b == (a + [""]) + [last];
      UnlinesSnoc(a + [""], last);
      TwoFeeds(Unlines(a), last);
    } else {
      UnlinesAcrossBlank(a, init);
      assert a + [""] + b == (a + [""] + init) + [last];
      UnlinesSnoc(a + [""] + init, last);
      assert b == init + [last];
      UnlinesSnoc(init, last);
      Reassociate(Unlines(a) + ['\n', '\n'], Unlines(init), last);
    }
  }

  lemma TwoFeeds(a: string, b: string)
    ensures a + ['\n'] + "" + ['\n'] + b == a + ['\n', '\n'] + b
  {}

  lemma Reassociate(a: string, b: string, c: string)
    ensures (a + b) + ['\n'] + c == a + (b + ['\n'] + c)
  {}

  lemma {:induction false} SeparatedFront(blocks: seq<seq<string>>)
    requires |blocks| >= 2
    ensures Separated(blocks) == blocks[0] + [""] + Separated(blocks[1..])
  {
    var init := blocks[..|blocks| - 1];
    if |blocks| > 2 {
      SeparatedFront(init);
      assert blocks[1..][..|blocks| - 2] == init[1..];
    }
  }

  /** The texts of the blocks. */
  function BlockTexts(blocks: seq<seq<string>>): seq<string> {
    if blocks == [] then [] else [Unlines(blocks[0])] + BlockTexts(blocks[1..])
  }

  lemma {:induction false} TextSplitsIntoBlocks(blocks: seq<seq<string>>)
    requires blocks != [] && forall i | 0 <= i < |blocks| :: NoBlank(blocks[i]) && Solid(Unlines(blocks[i]))
    ensures Paragraphs(Unlines(Separated(blocks))) == BlockTexts(blocks)
    ensures var t := Unlines(Separated(blocks)); t != "" && !IsSpace(t[0]) && !IsSpace(t[|t| - 1])
  {
    assert NoBlank(blocks[0]) && Solid(Unlines(blocks[0]));
    if |blocks| == 1 {
      ParagraphsCons(Unlines(blocks[0]), "");
      assert BlockTexts(blocks) == [Unlines(blocks[0])] + BlockTexts([]);
    } else {
      var rest := blocks[1..];
      assert NoBlank(rest[0]);
      TextSplitsIntoBlocks(rest);
      SeparatedFront(blocks);
      assert Separated(rest) != [];
      UnlinesAcrossBlank(blocks[0], Separated(rest));
      ParagraphsCons(Unlines(blocks[0]), Unlines(Separated(rest)));
    }
  }

  lemma StrippedIsItself(t: string)
    requires t != "" ==> !IsSpace(t[0]) && !IsSpace(t[|t| - 1])
    ensures Stripped(t) == t
  {}

  lemma {:induction false} WordListsFront(paras: seq<string>)
    requires paras != []
    ensures WordLists(paras) == (if Words(paras[0]) == [] then [] else [Words(paras[0])]) + WordLists(paras[1..])
  {
    if |paras| > 1 {
      WordListsFront(paras[..|paras| - 1]);
      assert paras[1..][..|paras| - 2] == paras[..|paras| - 1][1..];
    }
  }

  lemma {:induction false} WordListsOfBlocks(wss: seq<seq<string>>, blocks: seq<seq<string>>, width: int)
    requires forall i | 0 <= i < |wss| :: wss[i] != [] && AllWords(wss[i])
    requires |blocks| == |wss| && forall i | 0 <= i < |wss| :: blocks[i] == FilledLines(wss[i], width)
    ensures WordLists(BlockTexts(blocks)) == wss
  {
    if wss == [] {
    } else {
      var words, texts := wss[0], BlockTexts(blocks);
      GreedyKeepsWords([words[0]], words[1..], width);
      GreedyIsFilling([words[0]], words[1..], width);
      assert [words[0]] + words[1..] == words;
      assert blocks[0] == FilledLines(words, width);
      WordsOfLines(Fill(words, width));
      WordListsFront(texts);
      assert texts[1..] == BlockTexts(blocks[1..]);
      WordListsOfBlocks(wss[1..], blocks[1..], width);
      assert wss == [words] + wss[1..];
    }
  }

  /** Wrapping loses nothing: read as one text, the lines have the same words in the same paragraphs and the same
      order as the text they were made from. */
  lemma WrapKeepsContent(text: string, width: int)
    ensures Content(Unlines(Wrapped(text, width))) == Content(text)
  {
    var wss := Content(text);
    var blocks := Filled(wss, width);
    if wss != [] {
      forall i | 0 <= i < |wss| ensures NoBlank(blocks[i]) && Solid(Unlines(blocks[i])) {
        BlockIsNotBlank(wss[i], width);
        GreedyKeepsWords([wss[i][0]], wss[i][1..], width);
        BlockIsSolid(Fill(wss[i], width));
      }
      TextSplitsIntoBlocks(blocks);
      StrippedIsItself(Unlines(Separated(blocks)));
      WordListsOfBlocks(wss, blocks, width);
    } else {
      assert Wrapped(text, width) == [] && Stripped("") == "";
      assert Paragraphs("") == [""] && WordLists([""]) == WordLists([]) + [];
    }
  }

  /** So wrapping what has been wrapped changes nothing. */
  lemma WrapIsAProjection(text: string, width: int)
    ensures Wrapped(Unlines(Wrapped(text, width)), width) == Wrapped(text, width)
  {
    WrapKeepsContent(text, width);
  }
}
