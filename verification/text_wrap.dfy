/** The greedy word wrapper of the card renderer (`wrap_text`).

    Text is split into words on whitespace, as Python's `str.split()` does.
    Each word is charged the measured width of the word followed by one
    space; words are added to the current line while the running total
    stays within the maximum width, otherwise the current line is flushed
    and the word starts a new one. The width of the joined line itself is
    never measured, and a word too wide for any line is placed alone on its
    own line, unsplit. Font measurement is a parameter `width`. */
module TextWrap {
  import opened Chars

  predicate IsWord(w: string) {
    |w| > 0 && NoSpace(w)
  }

  predicate AllWords(ws: seq<string>) {
    forall i :: 0 <= i < |ws| ==> IsWord(ws[i])
  }

  /** Length of the leading run of non-whitespace characters. */
  function WordLength(s: string): (n: nat)
    ensures n <= |s|
    ensures NoSpace(s[..n])
    ensures n < |s| ==> IsSpace(s[n])
  {
    if |s| == 0 || IsSpace(s[0]) then 0 else 1 + WordLength(s[1..])
  }

  /** Python's argument-less `s.split()`: the maximal runs of non-whitespace
      characters, in order. */
  function SplitWords(s: string): (ws: seq<string>)
    ensures AllWords(ws)
    decreases |s|
  {
    if |s| == 0 then []
    else if IsSpace(s[0]) then SplitWords(s[1..])
    else
      var n := WordLength(s);
      [s[..n]] + SplitWords(s[n..])
  }

  /** Python's `' '.join(ws)`. */
  function JoinWords(ws: seq<string>): string {
    if |ws| == 0 then ""
    else if |ws| == 1 then ws[0]
    else ws[0] + " " + JoinWords(ws[1..])
  }

  /** Concatenation of a sequence of sequences, in order. */
  function Flatten<T>(gs: seq<seq<T>>): seq<T> {
    if |gs| == 0 then [] else gs[0] + Flatten(gs[1..])
  }

  lemma {:induction false} FlattenAppend<T>(a: seq<seq<T>>, b: seq<seq<T>>)
    ensures Flatten(a + b) == Flatten(a) + Flatten(b)
  {
    if |a| > 0 {
      assert (a + b)[1..] == a[1..] + b;
      FlattenAppend(a[1..], b);
    } else {
      assert a + b == b;
    }
  }

  /** A text has no words exactly when it is blank. */
  lemma {:induction false} SplitWordsEmptyIffBlank(s: string)
    ensures SplitWords(s) == [] <==> AllSpace(s)
    decreases |s|
  {
    if |s| > 0 {
      if IsSpace(s[0]) {
        SplitWordsEmptyIffBlank(s[1..]);
        if AllSpace(s[1..]) {
          assert forall i :: 0 < i < |s| ==> s[i] == s[1..][i - 1];
        }
      }
    }
  }

  lemma {:induction false} WordLengthOfWord(w: string, t: string)
    requires IsWord(w)
    requires |t| == 0 || IsSpace(t[0])
    ensures WordLength(w + t) == |w|
    decreases |w|
  {
    assert (w + t)[0] == w[0];
    if |w| > 1 {
      assert (w + t)[1..] == w[1..] + t;
      assert w[1..][0] == w[1];
      WordLengthOfWord(w[1..], t);
    } else {
      assert (w + t)[1..] == t;
    }
  }

  /** A word followed by nothing or by whitespace is split off intact. */
  lemma SplitWordsOfWord(w: string, t: string)
    requires IsWord(w)
    requires |t| == 0 || IsSpace(t[0])
    ensures SplitWords(w + t) == [w] + SplitWords(t)
  {
    WordLengthOfWord(w, t);
    assert (w + t)[0] == w[0];
    assert (w + t)[..|w|] == w;
    assert (w + t)[|w|..] == t;
  }

  /** Splitting a space-joined sequence of words gives back the words. */
  lemma {:induction false} SplitJoinWords(ws: seq<string>)
    requires AllWords(ws)
    ensures SplitWords(JoinWords(ws)) == ws
  {
    if |ws| == 1 {
      SplitWordsOfWord(ws[0], "");
      assert ws[0] + "" == ws[0];
    } else if |ws| > 1 {
      var rest := JoinWords(ws[1..]);
      SplitJoinWords(ws[1..]);
      SplitWordsOfWord(ws[0], " " + rest);
      assert ws[0] + " " + rest == ws[0] + (" " + rest);
      assert (" " + rest)[1..] == rest;
    }
  }

  /** Each word is charged the width of the word followed by one space. */
  function WordWidth(w: string, width: string -> nat): nat {
    width(w + " ")
  }

  /** The accumulated width the wrapper charges for a line's words. */
  function LineWidth(ws: seq<string>, width: string -> nat): nat {
    if |ws| == 0 then 0 else LineWidth(ws[..|ws| - 1], width) + WordWidth(ws[|ws| - 1], width)
  }

  /** A line is acceptable when it holds one word or its charged width fits. */
  predicate Fits(ws: seq<string>, width: string -> nat, maxWidth: int) {
    |ws| <= 1 || LineWidth(ws, width) <= maxWidth
  }

  function Flush(cur: seq<string>): seq<seq<string>> {
    if |cur| > 0 then [cur] else []
  }

  /** The loop of `wrap_text`, over the words still to place, with the words
      of the current line `cur` and their accumulated width `curWidth`.
      Returns the words of each emitted line. */
  function Wrap(words: seq<string>, width: string -> nat, maxWidth: int,
                cur: seq<string>, curWidth: int): seq<seq<string>>
    decreases |words|
  {
    if |words| == 0 then Flush(cur)
    else
      var ww := WordWidth(words[0], width);
      if curWidth + ww <= maxWidth then
        Wrap(words[1..], width, maxWidth, cur + [words[0]], curWidth + ww)
      else
        Flush(cur) + Wrap(words[1..], width, maxWidth, [words[0]], ww)
  }

  /** The words of each output line of `wrap_text`. */
  function WrapGroups(text: string, width: string -> nat, maxWidth: int): seq<seq<string>> {
    Wrap(SplitWords(text), width, maxWidth, [], 0)
  }

  /** `wrap_text(text, font, max_width)`: the lines, each the space-joined
      words of one group. */
  function WrapText(text: string, width: string -> nat, maxWidth: int): seq<string> {
    var gs := WrapGroups(text, width, maxWidth);
    seq(|gs|, i requires 0 <= i < |gs| => JoinWords(gs[i]))
  }

  /** The words of a list of lines, in order. */
  function WordsOf(lines: seq<string>): seq<string> {
    Flatten(LineWords(lines))
  }

  lemma LineWidthAppend(ws: seq<string>, w: string, width: string -> nat)
    ensures LineWidth(ws + [w], width) == LineWidth(ws, width) + WordWidth(w, width)
  {
    assert (ws + [w])[..|ws|] == ws;
  }

  /** Every word of a line is charged no more than the whole line. */
  lemma {:induction false} WordWidthAtMostLineWidth(ws: seq<string>, j: int, width: string -> nat)
    requires 0 <= j < |ws|
    ensures WordWidth(ws[j], width) <= LineWidth(ws, width)
    decreases |ws|
  {
    if j < |ws| - 1 {
      WordWidthAtMostLineWidth(ws[..|ws| - 1], j, width);
    }
  }

  /** The wrapper places every word exactly once, in order. */
  lemma {:induction false} WrapKeepsWords(words: seq<string>, width: string -> nat, maxWidth: int,
                                          cur: seq<string>, curWidth: int)
    ensures Flatten(Wrap(words, width, maxWidth, cur, curWidth)) == cur + words
    decreases |words|
  {
    if |words| == 0 {
      assert Flatten(Flush(cur)) == cur by {
        if |cur| > 0 {
          assert Flatten([cur]) == cur + Flatten([cur][1..]);
        }
      }
      assert cur + words == cur;
    } else {
      var ww := WordWidth(words[0], width);
      assert cur + words == cur + [words[0]] + words[1..];
      if curWidth + ww <= maxWidth {
        WrapKeepsWords(words[1..], width, maxWidth, cur + [words[0]], curWidth + ww);
      } else {
        var rest := Wrap(words[1..], width, maxWidth, [words[0]], ww);
        WrapKeepsWords(words[1..], width, maxWidth, [words[0]], ww);
        FlattenAppend(Flush(cur), rest);
        if |cur| > 0 {
          assert Flatten([cur]) == cur + Flatten([cur][1..]);
        }
      }
    }
  }

  /** A non-empty current line stays at the head of the first emitted line. */
  lemma {:induction false} WrapStartsWithCurrent(words: seq<string>, width: string -> nat, maxWidth: int,
                                                 cur: seq<string>, curWidth: int)
    requires |cur| > 0
    ensures var r := Wrap(words, width, maxWidth, cur, curWidth);
      |r| > 0 && |r[0]| > 0 && r[0][0] == cur[0]
    decreases |words|
  {
    if |words| > 0 {
      var ww := WordWidth(words[0], width);
      if curWidth + ww <= maxWidth {
        WrapStartsWithCurrent(words[1..], width, maxWidth, cur + [words[0]], curWidth + ww);
      }
    }
  }

  /** Every line is non-empty and fits. */
  predicate AllFit(gs: seq<seq<string>>, width: string -> nat, maxWidth: int) {
    forall i :: 0 <= i < |gs| ==> |gs[i]| > 0 && Fits(gs[i], width, maxWidth)
  }

  /** Every line after the first starts with a word that would have pushed
      the line before it past `maxWidth`. */
  predicate GreedyBreaks(gs: seq<seq<string>>, width: string -> nat, maxWidth: int) {
    forall i :: 0 < i < |gs| ==>
      |gs[i]| > 0 && LineWidth(gs[i - 1], width) + WordWidth(gs[i][0], width) > maxWidth
  }

  /** The words of each of a list of lines. */
  function LineWords(lines: seq<string>): (gs: seq<seq<string>>)
    ensures |gs| == |lines|
  {
    seq(|lines|, i requires 0 <= i < |lines| => SplitWords(lines[i]))
  }

  /** Every emitted line is non-empty and fits: a line of two or more words
      is charged at most `maxWidth`. */
  lemma {:induction false} WrapLinesFit(words: seq<string>, width: string -> nat, maxWidth: int,
                                        cur: seq<string>, curWidth: int)
    requires curWidth == LineWidth(cur, width)
    requires Fits(cur, width, maxWidth)
    ensures AllFit(Wrap(words, width, maxWidth, cur, curWidth), width, maxWidth)
    decreases |words|
  {
    if |words| > 0 {
      var ww := WordWidth(words[0], width);
      if curWidth + ww <= maxWidth {
        assert Wrap(words, width, maxWidth, cur, curWidth)
          == Wrap(words[1..], width, maxWidth, cur + [words[0]], curWidth + ww);
        LineWidthAppend(cur, words[0], width);
        WrapLinesFit(words[1..], width, maxWidth, cur + [words[0]], curWidth + ww);
      } else {
        assert LineWidth([words[0]], width) == ww by {
          assert [words[0]][..0] == [];
        }
        WrapLinesFit(words[1..], width, maxWidth, [words[0]], ww);
      }
    }
  }

  /** Greedy maximality: the first word of each line would not have fitted
      on the line before it. */
  lemma {:induction false} WrapIsGreedy(words: seq<string>, width: string -> nat, maxWidth: int,
                                        cur: seq<string>, curWidth: int)
    requires curWidth == LineWidth(cur, width)
    ensures GreedyBreaks(Wrap(words, width, maxWidth, cur, curWidth), width, maxWidth)
    decreases |words|
  {
    if |words| > 0 {
      var ww := WordWidth(words[0], width);
      if curWidth + ww <= maxWidth {
        assert Wrap(words, width, maxWidth, cur, curWidth)
          == Wrap(words[1..], width, maxWidth, cur + [words[0]], curWidth + ww);
        LineWidthAppend(cur, words[0], width);
        WrapIsGreedy(words[1..], width, maxWidth, cur + [words[0]], curWidth + ww);
      } else {
        assert LineWidth([words[0]], width) == ww by {
          assert [words[0]][..0] == [];
        }
        var rest := Wrap(words[1..], width, maxWidth, [words[0]], ww);
        WrapIsGreedy(words[1..], width, maxWidth, [words[0]], ww);
        WrapStartsWithCurrent(words[1..], width, maxWidth, [words[0]], ww);
        assert Wrap(words, width, maxWidth, cur, curWidth) == Flush(cur) + rest;
        if |cur| > 0 {
          GreedyCons(cur, rest, width, maxWidth);
        } else {
          assert Flush(cur) + rest == rest;
        }
      }
    }
  }

  /** A line put before greedy lines keeps them greedy when the first word
      of the next line would not have fitted on it. */
  lemma GreedyCons(line: seq<string>, rest: seq<seq<string>>, width: string -> nat, maxWidth: int)
    requires GreedyBreaks(rest, width, maxWidth)
    requires |rest| > 0 && |rest[0]| > 0
    requires LineWidth(line, width) + WordWidth(rest[0][0], width) > maxWidth
    ensures GreedyBreaks([line] + rest, width, maxWidth)
  {
    var r := [line] + rest;
    forall i | 0 < i < |r|
      ensures |r[i]| > 0 && LineWidth(r[i - 1], width) + WordWidth(r[i][0], width) > maxWidth
    {
      assert r[i] == rest[i - 1];
      if i > 1 {
        assert r[i - 1] == rest[i - 2];
      }
    }
  }

  /** The groups of a whole text: the lines hold valid words. */
  lemma WrapGroupsAreWords(text: string, width: string -> nat, maxWidth: int)
    ensures var gs := WrapGroups(text, width, maxWidth);
      Flatten(gs) == SplitWords(text)
      && forall i :: 0 <= i < |gs| ==> |gs[i]| > 0 && AllWords(gs[i])
  {
    var words := SplitWords(text);
    var gs := WrapGroups(text, width, maxWidth);
    WrapKeepsWords(words, width, maxWidth, [], 0);
    WrapLinesFit(words, width, maxWidth, [], 0);
    assert [] + words == words;
    forall i | 0 <= i < |gs|
      ensures AllWords(gs[i])
    {
      FlattenMember(gs, i);
    }
  }

  /** Every element of a member of `gs` occurs in `Flatten(gs)`. */
  lemma {:induction false} FlattenMember(gs: seq<seq<string>>, i: int)
    requires 0 <= i < |gs|
    ensures forall j :: 0 <= j < |gs[i]| ==> gs[i][j] in Flatten(gs)
  {
    if i > 0 {
      FlattenMember(gs[1..], i - 1);
    }
  }

  /** Re-splitting each output line recovers exactly that line's group. */
  lemma WrapTextLinesSplit(text: string, width: string -> nat, maxWidth: int)
    ensures LineWords(WrapText(text, width, maxWidth)) == WrapGroups(text, width, maxWidth)
  {
    var gs := WrapGroups(text, width, maxWidth);
    WrapGroupsAreWords(text, width, maxWidth);
    forall i | 0 <= i < |gs|
      ensures SplitWords(JoinWords(gs[i])) == gs[i]
    {
      SplitJoinWords(gs[i]);
    }
  }

  /** Blank text wraps to no lines at all; any other text to at least one. */
  lemma WrapTextBlank(text: string, width: string -> nat, maxWidth: int)
    ensures WrapText(text, width, maxWidth) == [] <==> AllSpace(text)
  {
    var gs := WrapGroups(text, width, maxWidth);
    WrapGroupsAreWords(text, width, maxWidth);
    SplitWordsEmptyIffBlank(text);
    if gs == [] {
      assert Flatten(gs) == [];
    }
  }

  /** Wrapping neither loses, duplicates nor reorders words, and never emits
      an empty line: the words of the lines, in order, are `text.split()`. */
  lemma WrapTextKeepsWords(text: string, width: string -> nat, maxWidth: int)
    ensures var lines := WrapText(text, width, maxWidth);
      WordsOf(lines) == SplitWords(text)
      && forall i :: 0 <= i < |lines| ==> lines[i] != ""
  {
    var gs := WrapGroups(text, width, maxWidth);
    var lines := WrapText(text, width, maxWidth);
    WrapGroupsAreWords(text, width, maxWidth);
    WrapTextLinesSplit(text, width, maxWidth);
    assert LineWords(lines) == gs;
    forall i | 0 <= i < |lines|
      ensures lines[i] != ""
    {
      assert SplitWords(lines[i]) == LineWords(lines)[i] == gs[i];
    }
  }

  /** Every line of two or more words is charged at most `maxWidth`, and a
      word charged more than `maxWidth` stands alone on its line. */
  lemma WrapTextFits(text: string, width: string -> nat, maxWidth: int)
    ensures AllFit(LineWords(WrapText(text, width, maxWidth)), width, maxWidth)
    ensures var gs := LineWords(WrapText(text, width, maxWidth));
      forall i, j :: 0 <= i < |gs| && 0 <= j < |gs[i]| && WordWidth(gs[i][j], width) > maxWidth
        ==> gs[i] == [gs[i][j]]
  {
    var gs := WrapGroups(text, width, maxWidth);
    WrapLinesFit(SplitWords(text), width, maxWidth, [], 0);
    WrapTextLinesSplit(text, width, maxWidth);
    forall i, j | 0 <= i < |gs| && 0 <= j < |gs[i]| && WordWidth(gs[i][j], width) > maxWidth
      ensures gs[i] == [gs[i][j]]
    {
      WordWidthAtMostLineWidth(gs[i], j, width);
    }
  }

  /** Greedy maximality over the output lines: the first word of each line
      would have pushed the previous line past `maxWidth`. */
  lemma WrapTextIsGreedy(text: string, width: string -> nat, maxWidth: int)
    ensures GreedyBreaks(LineWords(WrapText(text, width, maxWidth)), width, maxWidth)
  {
    WrapIsGreedy(SplitWords(text), width, maxWidth, [], 0);
    WrapTextLinesSplit(text, width, maxWidth);
  }

  /** Wrapping depends only on the words: collapsing the whitespace of a text
      to single spaces first changes nothing. */
  lemma WrapTextNormalised(text: string, width: string -> nat, maxWidth: int)
    ensures WrapText(JoinWords(SplitWords(text)), width, maxWidth) == WrapText(text, width, maxWidth)
  {
    SplitJoinWords(SplitWords(text));
  }
}
