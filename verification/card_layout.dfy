/** The layout arithmetic of `create_text_image`: colour-template lookup,
    paragraph splitting with blank-line markers, the content-height sum,
    the minimum card height, and the drawing cursor that places each line.
    Pixels are not modelled; a drawn line is a `Placement`. Font
    measurement is passed in as `FontMetrics`. */
module CardLayout {
  import opened TextWrap

  /** An RGB colour, each channel in 0..255. */
  datatype Rgb = Rgb(r: nat, g: nat, b: nat) {
    predicate Valid() {
      r < 256 && g < 256 && b < 256
    }
  }

  datatype ColorTemplate = ColorTemplate(
    name: string,
    gradientStart: Rgb,
    gradientEnd: Rgb,
    textColor: Rgb,
    cardColor: string)

  /** The measures the renderer takes from a loaded font: the right edge of
      a string's bounding box, and its bottom minus its top. */
  datatype FontMetrics = FontMetrics(width: string -> nat, height: string -> nat)

  /** One `draw.text` call: the string drawn and its top-left corner. */
  datatype Placement = Placement(line: string, x: int, y: int)

  /** The computed card: template, fixed font sizes, image and card size,
      where every title and body line is drawn, and where the body cursor
      ends. */
  datatype Card = Card(
    template: ColorTemplate,
    titleFontSize: nat,
    bodyFontSize: nat,
    imageWidth: nat,
    imageHeight: nat,
    cardWidth: nat,
    cardHeight: nat,
    title: seq<Placement>,
    body: seq<Placement>,
    bodyEnd: int)

  const DefaultTemplateKey: string := "purple_blue"

  const Templates: map<string, ColorTemplate> := map[
    "purple_blue" := ColorTemplate("Purple to Blue", Rgb(138, 43, 226), Rgb(100, 83, 246), Rgb(0, 0, 0), "white"),
    "sunset" := ColorTemplate("Sunset", Rgb(255, 128, 8), Rgb(255, 200, 55), Rgb(0, 0, 0), "white"),
    "ocean" := ColorTemplate("Ocean", Rgb(0, 119, 182), Rgb(3, 169, 244), Rgb(255, 255, 255), "white"),
    "forest" := ColorTemplate("Forest", Rgb(34, 139, 34), Rgb(154, 205, 50), Rgb(255, 255, 255), "white"),
    "dark" := ColorTemplate("Dark", Rgb(28, 28, 28), Rgb(64, 64, 64), Rgb(255, 255, 255), "white")
  ]

  const TitleFontSize: nat := 120
  const BodyFontSize: nat := 60
  const CardWidth: nat := 1080
  const CardMargin: nat := 60
  const CardPadding: nat := 100
  const MaxTextWidth: int := CardWidth - 2 * CardPadding
  /** Where text starts, horizontally and vertically. */
  const TextOrigin: int := CardMargin + CardPadding
  const TitleLineGap: nat := 10
  const TitleBodyGap: nat := 80
  const BodyLineGap: nat := 20
  const ParagraphGap: nat := 30
  const MinCardHeight: nat := 600

  /** `COLOR_TEMPLATES.get(key, COLOR_TEMPLATES['purple_blue'])`. */
  function LookupTemplate(key: string): (t: ColorTemplate)
    ensures key in Templates ==> t == Templates[key]
    ensures key !in Templates ==> t == Templates[DefaultTemplateKey]
    ensures t in Templates.Values
  {
    if key in Templates then Templates[key] else Templates[DefaultTemplateKey]
  }

  /** The registry holds exactly the five named templates, every colour a
      valid RGB triple, and the fallback is the purple-to-blue one. */
  lemma TemplateRegistry()
    ensures Templates.Keys == {"purple_blue", "sunset", "ocean", "forest", "dark"}
    ensures forall k :: k in Templates ==>
      Templates[k].gradientStart.Valid() && Templates[k].gradientEnd.Valid() && Templates[k].textColor.Valid()
    ensures LookupTemplate("no such template").name == "Purple to Blue"
  {
  }

  // ---------------------------------------------------------------------
  // Paragraphs: `text.split('\n\n')`

  predicate BreakAt(s: string, i: int) {
    0 <= i < |s| - 1 && s[i] == '\n' && s[i + 1] == '\n'
  }

  /** True when `s` contains the paragraph separator. */
  predicate HasBreak(s: string) {
    exists i :: 0 <= i < |s| && BreakAt(s, i)
  }

  /** Python's `s.split('\n\n')`: cut at each separator found scanning left
      to right, without overlaps. */
  function SplitParagraphs(s: string): (ps: seq<string>)
    ensures |ps| > 0
    ensures |ps[0]| <= |s| && ps[0] == s[..|ps[0]|]
    decreases |s|
  {
    if |s| < 2 then [s]
    else if s[0] == '\n' && s[1] == '\n' then [""] + SplitParagraphs(s[2..])
    else
      var rest := SplitParagraphs(s[1..]);
      assert [s[0]] + rest[0] == s[..|rest[0]| + 1];
      [[s[0]] + rest[0]] + rest[1..]
  }

  /** Python's `'\n\n'.join(ps)`. */
  function JoinParagraphs(ps: seq<string>): string
    requires |ps| > 0
  {
    if |ps| == 1 then ps[0] else ps[0] + "\n\n" + JoinParagraphs(ps[1..])
  }

  /** Joining the paragraphs back with the separator restores the text. */
  lemma {:induction false} SplitParagraphsRoundTrip(s: string)
    ensures JoinParagraphs(SplitParagraphs(s)) == s
    decreases |s|
  {
    if |s| >= 2 {
      if s[0] == '\n' && s[1] == '\n' {
        var rest := SplitParagraphs(s[2..]);
        SplitParagraphsRoundTrip(s[2..]);
        assert ([""] + rest)[1..] == rest;
        assert s == "\n\n" + s[2..];
      } else {
        var rest := SplitParagraphs(s[1..]);
        SplitParagraphsRoundTrip(s[1..]);
        var ps := [[s[0]] + rest[0]] + rest[1..];
        if |rest| == 1 {
          assert s == [s[0]] + s[1..];
        } else {
          assert ps[1..] == rest[1..];
          assert JoinParagraphs(rest) == rest[0] + "\n\n" + JoinParagraphs(rest[1..]);
          assert s == [s[0]] + s[1..];
        }
      }
    }
  }

  /** Prefixing one character creates a separator only with a newline in
      front of a newline. */
  lemma NoBreakCons(c: char, q: string)
    requires !HasBreak(q)
    requires c != '\n' || |q| == 0 || q[0] != '\n'
    ensures !HasBreak([c] + q)
  {
    var p := [c] + q;
    forall i | 0 <= i < |p|
      ensures !BreakAt(p, i)
    {
      if 0 < i < |p| - 1 {
        assert p[i] == q[i - 1] && p[i + 1] == q[i];
        assert !BreakAt(q, i - 1);
      }
    }
  }

  predicate NoBreaks(ps: seq<string>) {
    forall k :: 0 <= k < |ps| ==> !HasBreak(ps[k])
  }

  /** No paragraph contains the separator. */
  lemma {:induction false} SplitParagraphsHaveNoBreak(s: string)
    ensures NoBreaks(SplitParagraphs(s))
    decreases |s|
  {
    var ps := SplitParagraphs(s);
    if |s| < 2 {
      assert forall i :: !BreakAt(s, i);
    } else if s[0] == '\n' && s[1] == '\n' {
      SplitParagraphsHaveNoBreak(s[2..]);
      assert forall i :: !BreakAt("", i);
      assert forall k :: 1 <= k < |ps| ==> ps[k] == SplitParagraphs(s[2..])[k - 1];
    } else {
      var rest := SplitParagraphs(s[1..]);
      SplitParagraphsHaveNoBreak(s[1..]);
      assert |rest[0]| > 0 ==> rest[0][0] == s[1];
      NoBreakCons(s[0], rest[0]);
      assert forall k :: 1 <= k < |ps| ==> ps[k] == rest[k];
    }
  }

  /** Unless it is the last piece, the first paragraph is followed in the
      text by the separator. */
  lemma {:induction false} SplitParagraphsFirstCut(s: string)
    ensures var ps := SplitParagraphs(s);
      |ps| > 1 ==> |ps[0]| + 2 <= |s| && s[|ps[0]|] == '\n' && s[|ps[0]| + 1] == '\n'
    decreases |s|
  {
    if |s| >= 2 && !(s[0] == '\n' && s[1] == '\n') {
      SplitParagraphsFirstCut(s[1..]);
    }
  }

  /** Every piece but the last is empty or does not end in a newline. */
  predicate LeftmostCuts(ps: seq<string>) {
    forall k :: 0 <= k < |ps| - 1 ==> ps[k] == "" || ps[k][|ps[k]| - 1] != '\n'
  }

  /** Python cuts at the leftmost separator: a paragraph followed by another
      never ends in a newline, since that newline and the separator would
      have held an earlier `\n\n`. With `SplitParagraphsRoundTrip` and
      `SplitParagraphsHaveNoBreak` this fixes the pieces, and so the number
      of paragraphs (`SplitParagraphsUnique`). */
  lemma {:induction false} SplitParagraphsLeftmost(s: string)
    ensures LeftmostCuts(SplitParagraphs(s))
    decreases |s|
  {
    if |s| < 2 {
    } else if s[0] == '\n' && s[1] == '\n' {
      SplitParagraphsLeftmost(s[2..]);
      LeftmostEmptyFirst(SplitParagraphs(s[2..]));
    } else {
      var rest := SplitParagraphs(s[1..]);
      SplitParagraphsLeftmost(s[1..]);
      SplitParagraphsFirstCut(s[1..]);
      assert |rest| > 1 && rest[0] == "" ==> s[1] == '\n';
      LeftmostMergeFirst(s[0], rest);
    }
  }

  lemma LeftmostEmptyFirst(rest: seq<string>)
    requires LeftmostCuts(rest)
    ensures LeftmostCuts([""] + rest)
  {
    var ps := [""] + rest;
    forall k | 0 <= k < |ps| - 1 ensures ps[k] == "" || ps[k][|ps[k]| - 1] != '\n' {
      if k > 0 {
        assert ps[k] == rest[k - 1];
      }
    }
  }

  lemma LeftmostMergeFirst(c: char, rest: seq<string>)
    requires |rest| > 0 && LeftmostCuts(rest)
    requires |rest| > 1 && rest[0] == "" ==> c != '\n'
    ensures LeftmostCuts([[c] + rest[0]] + rest[1..])
  {
    var ps := [[c] + rest[0]] + rest[1..];
    forall k | 0 <= k < |ps| - 1 ensures ps[k] == "" || ps[k][|ps[k]| - 1] != '\n' {
      if k > 0 {
        assert ps[k] == rest[k];
      } else if rest[0] != "" {
        assert ps[0][|ps[0]| - 1] == rest[0][|rest[0]| - 1];
      }
    }
  }

  /** Four newlines in a row hold two separators: `"a\n\n\n\nb"` is the
      paragraph `a`, an empty paragraph, and `b`. */
  lemma SplitParagraphsExample()
    ensures SplitParagraphs("a\n\n\n\nb") == ["a", "", "b"]
  {
    assert SplitParagraphs("b") == ["b"];
    assert "\n\nb"[2..] == "b";
    assert SplitParagraphs("\n\nb") == ["", "b"];
    assert "\n\n\n\nb"[2..] == "\n\nb";
    assert SplitParagraphs("\n\n\n\nb") == ["", "", "b"];
    var rest := SplitParagraphs("\n\n\n\nb");
    assert "a\n\n\n\nb"[0] == 'a' && "a\n\n\n\nb"[1] == '\n';
    assert "a\n\n\n\nb"[1..] == "\n\n\n\nb";
    assert ['a'] + rest[0] == "a" && rest[1..] == ["", "b"];
  }

  /** A paragraph that does not end in a newline, followed by the
      separator: here the leftmost cut. */
  predicate CutsCleanly(p: string) {
    !HasBreak(p) && (p == "" || p[|p| - 1] != '\n')
  }

  /** A text without the separator is one paragraph. */
  lemma {:induction false} SplitParagraphsNoBreak(s: string)
    requires !HasBreak(s)
    ensures SplitParagraphs(s) == [s]
    decreases |s|
  {
    if |s| >= 2 {
      assert !BreakAt(s, 0);
      var t := s[1..];
      assert !HasBreak(t) by {
        forall i | 0 <= i < |t| ensures !BreakAt(t, i) {
          assert !BreakAt(s, i + 1);
        }
      }
      SplitParagraphsNoBreak(t);
      assert [s[0]] + t == s;
    }
  }

  /** Splitting `p + "\n\n" + t` cuts right after `p` when `p` cuts
      cleanly. */
  lemma {:induction false} SplitParagraphsCons(p: string, t: string)
    requires CutsCleanly(p)
    ensures SplitParagraphs(p + "\n\n" + t) == [p] + SplitParagraphs(t)
    decreases |p|
  {
    var s := p + "\n\n" + t;
    if p == "" {
      assert s[2..] == t;
    } else {
      var q := p[1..];
      assert s[0] == p[0];
      assert s[1..] == q + "\n\n" + t;
      if q == "" {
        assert s[1] == '\n';
      } else {
        assert s[1] == p[1];
        assert !BreakAt(p, 0);
        assert q[|q| - 1] == p[|p| - 1];
      }
      assert !HasBreak(q) by {
        forall i | 0 <= i < |q| ensures !BreakAt(q, i) {
          assert !BreakAt(p, i + 1);
        }
      }
      SplitParagraphsCons(q, t);
      assert [p[0]] + q == p;
    }
  }

  /** `split('\n\n')` is the only way to cut the text into pieces that
      join back to it, hold no separator, and are cut leftmost. */
  lemma {:induction false} SplitParagraphsUnique(s: string, qs: seq<string>)
    requires |qs| > 0 && JoinParagraphs(qs) == s
    requires NoBreaks(qs) && LeftmostCuts(qs)
    ensures qs == SplitParagraphs(s)
    decreases |qs|
  {
    if |qs| == 1 {
      SplitParagraphsNoBreak(s);
    } else {
      var t := JoinParagraphs(qs[1..]);
      assert CutsCleanly(qs[0]);
      SplitParagraphsUnique(t, qs[1..]);
      SplitParagraphsCons(qs[0], t);
      assert qs == [qs[0]] + qs[1..];
    }
  }

  // ---------------------------------------------------------------------
  // Body lines: each paragraph's wrapped lines followed by a '' marker

  /** The body line list of `create_text_image`: for each paragraph its
      wrapped lines, then one `""` marker. */
  function BodyLines(ps: seq<string>, width: string -> nat): seq<string> {
    if |ps| == 0 then []
    else WrapText(ps[0], width, MaxTextWidth) + [""] + BodyLines(ps[1..], width)
  }

  function CountMarkers(lines: seq<string>): nat {
    if |lines| == 0 then 0
    else (if lines[0] == "" then 1 else 0) + CountMarkers(lines[1..])
  }

  /** Index of the first marker, or the length when there is none. */
  function MarkerIndex(lines: seq<string>): (k: nat)
    ensures k <= |lines|
    ensures forall j :: 0 <= j < k ==> lines[j] != ""
    ensures k < |lines| ==> lines[k] == ""
  {
    if |lines| == 0 || lines[0] == "" then 0 else 1 + MarkerIndex(lines[1..])
  }

  /** Reads a line list back as groups, each closed by a marker; trailing
      lines with no marker after them form a last group. */
  function SplitAtMarkers(lines: seq<string>): seq<seq<string>>
    decreases |lines|
  {
    if |lines| == 0 then []
    else
      var k := MarkerIndex(lines);
      if k == |lines| then [lines] else [lines[..k]] + SplitAtMarkers(lines[k + 1..])
  }

  predicate NoMarker(lines: seq<string>) {
    forall j :: 0 <= j < |lines| ==> lines[j] != ""
  }

  lemma CountMarkersAppend(a: seq<string>, b: seq<string>)
    ensures CountMarkers(a + b) == CountMarkers(a) + CountMarkers(b)
  {
    if |a| > 0 {
      assert (a + b)[1..] == a[1..] + b;
      CountMarkersAppend(a[1..], b);
    } else {
      assert a + b == b;
    }
  }

  lemma {:induction false} CountMarkersNone(lines: seq<string>)
    requires NoMarker(lines)
    ensures CountMarkers(lines) == 0
  {
    if |lines| > 0 {
      CountMarkersNone(lines[1..]);
    }
  }

  lemma {:induction false} MarkerIndexAfterGroup(g: seq<string>, rest: seq<string>)
    requires NoMarker(g)
    ensures MarkerIndex(g + [""] + rest) == |g|
  {
    if |g| > 0 {
      assert (g + [""] + rest)[1..] == g[1..] + [""] + rest;
      MarkerIndexAfterGroup(g[1..], rest);
    }
  }

  /** There is one marker per paragraph, and never a marker from wrapping. */
  lemma {:induction false} BodyLinesMarkerCount(ps: seq<string>, width: string -> nat)
    ensures CountMarkers(BodyLines(ps, width)) == |ps|
  {
    if |ps| > 0 {
      var w := WrapText(ps[0], width, MaxTextWidth);
      WrapTextKeepsWords(ps[0], width, MaxTextWidth);
      CountMarkersNone(w);
      CountMarkersAppend(w, [""]);
      CountMarkersAppend(w + [""], BodyLines(ps[1..], width));
      BodyLinesMarkerCount(ps[1..], width);
    }
  }

  /** Cutting the body lines at the markers gives back exactly each
      paragraph's wrapped lines, in paragraph order. */
  lemma {:induction false} BodyLinesSplitBack(ps: seq<string>, width: string -> nat)
    ensures SplitAtMarkers(BodyLines(ps, width))
      == seq(|ps|, i requires 0 <= i < |ps| => WrapText(ps[i], width, MaxTextWidth))
  {
    if |ps| > 0 {
      var w := WrapText(ps[0], width, MaxTextWidth);
      var rest := BodyLines(ps[1..], width);
      var lines := w + [""] + rest;
      WrapTextKeepsWords(ps[0], width, MaxTextWidth);
      MarkerIndexAfterGroup(w, rest);
      assert lines[..|w|] == w;
      assert lines[|w| + 1..] == rest;
      BodyLinesSplitBack(ps[1..], width);
    }
  }

  /** The body line list ends with a marker whenever there is a paragraph,
      which `text.split('\n\n')` always yields. */
  lemma BodyLinesEndWithMarker(text: string, width: string -> nat)
    ensures var lines := BodyLines(SplitParagraphs(text), width);
      |lines| > 0 && lines[|lines| - 1] == ""
  {
    var ps := SplitParagraphs(text);
    BodyLinesLastMarker(ps, width);
  }

  lemma {:induction false} BodyLinesLastMarker(ps: seq<string>, width: string -> nat)
    requires |ps| > 0
    ensures var lines := BodyLines(ps, width); |lines| > 0 && lines[|lines| - 1] == ""
  {
    if |ps| > 1 {
      BodyLinesLastMarker(ps[1..], width);
    }
  }

  // ---------------------------------------------------------------------
  // Heights

  /** Height of the title block: each line's height plus 10. */
  function TitleHeight(lines: seq<string>, height: string -> nat): nat {
    if |lines| == 0 then 0
    else TitleHeight(lines[..|lines| - 1], height) + height(lines[|lines| - 1]) + TitleLineGap
  }

  /** Vertical advance for one body line: a text line's height plus 20, or
      30 for a paragraph marker. */
  function BodyAdvance(line: string, height: string -> nat): nat {
    if line != "" then height(line) + BodyLineGap else ParagraphGap
  }

  function BodyHeight(lines: seq<string>, height: string -> nat): nat {
    if |lines| == 0 then 0
    else BodyHeight(lines[..|lines| - 1], height) + BodyAdvance(lines[|lines| - 1], height)
  }

  /** `content_height`: padding, title block, the 80 gap, body, padding. */
  function ContentHeight(titleLines: seq<string>, bodyLines: seq<string>,
                         titleFont: FontMetrics, bodyFont: FontMetrics): nat {
    CardPadding + TitleHeight(titleLines, titleFont.height) + TitleBodyGap
      + BodyHeight(bodyLines, bodyFont.height) + CardPadding
  }

  /** The text lines of a body line list, markers skipped, in order. */
  function TextLines(lines: seq<string>): seq<string> {
    if |lines| == 0 then []
    else TextLines(lines[..|lines| - 1]) + (if lines[|lines| - 1] != "" then [lines[|lines| - 1]] else [])
  }

  // ---------------------------------------------------------------------
  // Drawing cursor

  /** Title line `i` is drawn at x = 160 and at 160 plus the height of the
      title lines above it. */
  predicate TitlePlaced(placed: seq<Placement>, lines: seq<string>, height: string -> nat) {
    && |placed| == |lines|
    && forall i :: 0 <= i < |lines| ==>
      placed[i] == Placement(lines[i], TextOrigin, TextOrigin + TitleHeight(lines[..i], height))
  }

  /** The text lines of `lines` are drawn in order at x = 160, each at the
      body start `y0` plus the body height of the lines before it. */
  predicate BodyPlaced(placed: seq<Placement>, lines: seq<string>, height: string -> nat, y0: int) {
    && |placed| == |TextLines(lines)|
    && (forall k :: 0 <= k < |placed| ==> placed[k].line == TextLines(lines)[k] && placed[k].x == TextOrigin)
    && (forall i :: 0 <= i < |lines| && lines[i] != "" ==> DrawnAtCursor(placed, lines, i, y0, height))
  }

  /** The title drawing loop: each line at the cursor, which then advances
      by the line's height plus 10. The cursor stays in step with the title
      height computation. */
  method DrawTitle(lines: seq<string>, font: FontMetrics) returns (placed: seq<Placement>, y: int)
    ensures TitlePlaced(placed, lines, font.height)
    ensures y == TextOrigin + TitleHeight(lines, font.height)
  {
    placed := [];
    y := TextOrigin;
    var i := 0;
    while i < |lines|
      invariant 0 <= i <= |lines|
      invariant placed == TitlePlacements(lines[..i], font.height)
      invariant y == TextOrigin + TitleHeight(lines[..i], font.height)
    {
      placed := placed + [Placement(lines[i], TextOrigin, y)];
      TitleStep(lines, i, font.height);
      y := y + font.height(lines[i]) + TitleLineGap;
      i := i + 1;
    }
    assert lines[..|lines|] == lines;
    TitlePlacementsPlaced(lines, font.height);
  }

  /** The placements the title loop records, line by line. */
  function TitlePlacements(lines: seq<string>, height: string -> nat): seq<Placement> {
    if |lines| == 0 then []
    else
      var pre := lines[..|lines| - 1];
      TitlePlacements(pre, height) + [Placement(lines[|lines| - 1], TextOrigin, TextOrigin + TitleHeight(pre, height))]
  }

  /** The recorded title placements put each line at its cursor. */
  lemma {:induction false} TitlePlacementsPlaced(lines: seq<string>, height: string -> nat)
    ensures TitlePlaced(TitlePlacements(lines, height), lines, height)
    decreases |lines|
  {
    if |lines| > 0 {
      var n := |lines|;
      var pre := lines[..n - 1];
      var ps := TitlePlacements(lines, height);
      var qs := TitlePlacements(pre, height);
      TitlePlacementsPlaced(pre, height);
      forall i | 0 <= i < n
        ensures ps[i] == Placement(lines[i], TextOrigin, TextOrigin + TitleHeight(lines[..i], height))
      {
        if i < n - 1 {
          assert ps[i] == qs[i];
          assert lines[..i] == pre[..i];
        }
      }
    }
  }

  /** One more title line adds its height plus 10 to the title block. */
  lemma TitleStep(lines: seq<string>, i: int, height: string -> nat)
    requires 0 <= i < |lines|
    ensures TitleHeight(lines[..i + 1], height) == TitleHeight(lines[..i], height) + height(lines[i]) + TitleLineGap
    ensures TitlePlacements(lines[..i + 1], height)
      == TitlePlacements(lines[..i], height) + [Placement(lines[i], TextOrigin, TextOrigin + TitleHeight(lines[..i], height))]
  {
    assert lines[..i + 1][..i] == lines[..i];
  }

  /** Text line `i` of `lines` is recorded, in drawing order, at the body
      start plus the body height of the lines before it. */
  predicate DrawnAtCursor(placed: seq<Placement>, lines: seq<string>, i: int, y0: int, height: string -> nat)
    requires 0 <= i < |lines|
  {
    && |TextLines(lines[..i])| < |placed|
    && placed[|TextLines(lines[..i])|] == Placement(lines[i], TextOrigin, y0 + BodyHeight(lines[..i], height))
  }

  /** The placements the body loop records, line by line from the start
      `y0`: a text line at the cursor, a marker nothing. */
  function BodyPlacements(lines: seq<string>, height: string -> nat, y0: int): seq<Placement> {
    if |lines| == 0 then []
    else
      var pre := lines[..|lines| - 1];
      var last := lines[|lines| - 1];
      BodyPlacements(pre, height, y0)
        + (if last != "" then [Placement(last, TextOrigin, y0 + BodyHeight(pre, height))] else [])
  }

  /** One placement per text line, in order, at x = 160. */
  lemma {:induction false} BodyPlacementsLines(lines: seq<string>, height: string -> nat, y0: int)
    ensures var ps := BodyPlacements(lines, height, y0);
      && |ps| == |TextLines(lines)|
      && forall k :: 0 <= k < |ps| ==> ps[k].line == TextLines(lines)[k] && ps[k].x == TextOrigin
    decreases |lines|
  {
    if |lines| > 0 {
      BodyPlacementsLines(lines[..|lines| - 1], height, y0);
    }
  }

  /** Each text line is placed at the start plus the body height of the
      lines before it. */
  lemma {:induction false} BodyPlacementsAtCursor(lines: seq<string>, height: string -> nat, y0: int)
    ensures forall i :: 0 <= i < |lines| && lines[i] != "" ==>
      DrawnAtCursor(BodyPlacements(lines, height, y0), lines, i, y0, height)
    decreases |lines|
  {
    if |lines| > 0 {
      var n := |lines|;
      var pre := lines[..n - 1];
      var ps := BodyPlacements(lines, height, y0);
      var qs := BodyPlacements(pre, height, y0);
      BodyPlacementsAtCursor(pre, height, y0);
      BodyPlacementsLines(pre, height, y0);
      forall i | 0 <= i < n && lines[i] != "" ensures DrawnAtCursor(ps, lines, i, y0, height) {
        if i < n - 1 {
          assert lines[..i] == pre[..i];
          assert pre[i] == lines[i];
          assert DrawnAtCursor(qs, pre, i, y0, height);
          assert ps[|TextLines(lines[..i])|] == qs[|TextLines(lines[..i])|];
        } else {
          assert lines[..i] == pre;
        }
      }
    }
  }

  /** Every placed line, with its gap below, lies between the start and the
      end of the body. */
  lemma {:induction false} BodyPlacementsWithin(lines: seq<string>, height: string -> nat, y0: int)
    ensures forall k :: 0 <= k < |BodyPlacements(lines, height, y0)| ==>
      && y0 <= BodyPlacements(lines, height, y0)[k].y
      && BodyPlacements(lines, height, y0)[k].y + height(BodyPlacements(lines, height, y0)[k].line) + BodyLineGap
         <= y0 + BodyHeight(lines, height)
    decreases |lines|
  {
    if |lines| > 0 {
      var pre := lines[..|lines| - 1];
      var last := lines[|lines| - 1];
      var ps := BodyPlacements(lines, height, y0);
      var qs := BodyPlacements(pre, height, y0);
      BodyPlacementsWithin(pre, height, y0);
      assert BodyHeight(lines, height) == BodyHeight(pre, height) + BodyAdvance(last, height);
      forall k | 0 <= k < |ps|
        ensures y0 <= ps[k].y && ps[k].y + height(ps[k].line) + BodyLineGap <= y0 + BodyHeight(lines, height)
      {
        if k < |qs| {
          assert ps[k] == qs[k];
          assert qs[k].y + height(qs[k].line) + BodyLineGap <= y0 + BodyHeight(pre, height);
        } else {
          assert ps == qs + [Placement(last, TextOrigin, y0 + BodyHeight(pre, height))];
        }
      }
    }
  }

  /** The body drawing loop: text lines are drawn at the cursor, which
      advances by height plus 20; markers only advance it by 30. Each text
      line is drawn at the start plus the body height of the lines before
      it; the cursor ends where the body height computation says, and every
      drawn line, with its gap below, lies between the start and the end. */
  method DrawBody(lines: seq<string>, font: FontMetrics, y0: int) returns (placed: seq<Placement>, y: int)
    ensures y == y0 + BodyHeight(lines, font.height)
    ensures BodyPlaced(placed, lines, font.height, y0)
    ensures forall k :: 0 <= k < |placed| ==>
      y0 <= placed[k].y && placed[k].y + font.height(placed[k].line) + BodyLineGap <= y
  {
    placed := [];
    y := y0;
    var i := 0;
    while i < |lines|
      invariant 0 <= i <= |lines|
      invariant y == y0 + BodyHeight(lines[..i], font.height)
      invariant placed == BodyPlacements(lines[..i], font.height, y0)
    {
      assert lines[..i + 1][..i] == lines[..i];
      if lines[i] != "" {
        placed := placed + [Placement(lines[i], TextOrigin, y)];
        y := y + font.height(lines[i]) + BodyLineGap;
      } else {
        y := y + ParagraphGap;
      }
      i := i + 1;
    }
    assert lines[..|lines|] == lines;
    BodyPlacementsLines(lines, font.height, y0);
    BodyPlacementsAtCursor(lines, font.height, y0);
    BodyPlacementsWithin(lines, font.height, y0);
  }

  /** `create_text_image` without the pixels: wrap the title and the body
      paragraphs at the fixed sizes, compute the content height, clamp the
      card height to at least 600, and place every line. */
  method CreateTextImage(text: string, title: string, templateKey: string,
                         titleFont: FontMetrics, bodyFont: FontMetrics) returns (card: Card)
    ensures var titleLines := WrapText(title, titleFont.width, MaxTextWidth);
      var bodyLines := BodyLines(SplitParagraphs(text), bodyFont.width);
      var content := ContentHeight(titleLines, bodyLines, titleFont, bodyFont);
      && card.template == LookupTemplate(templateKey)
      && card.titleFontSize == 120 && card.bodyFontSize == 60
      && card.cardWidth == 1080 && card.imageWidth == 1080 + 120
      && card.cardHeight >= 600 && card.cardHeight >= content
      && (card.cardHeight == 600 || card.cardHeight == content)
      && card.imageHeight == card.cardHeight + 120
      && card.bodyEnd == CardMargin + content - CardPadding
      && TitlePlaced(card.title, titleLines, titleFont.height)
      && BodyPlaced(card.body, bodyLines, bodyFont.height, 160 + TitleHeight(titleLines, titleFont.height) + TitleBodyGap)
    ensures |card.title| > 0 ==> card.title[0].y == 160
    ensures card.bodyEnd <= CardMargin + card.cardHeight - CardPadding
    ensures forall p :: p in card.title ==> p.x == 160 && p.y >= 160
    ensures forall p :: p in card.body ==> p.x == 160 && p.y >= 160
    ensures forall p :: p in card.body ==> p.y + bodyFont.height(p.line) + BodyLineGap <= card.bodyEnd
    ensures forall p :: p in card.title ==>
      p.y + titleFont.height(p.line) + TitleLineGap + TitleBodyGap <= card.bodyEnd
  {
    var template := LookupTemplate(templateKey);
    var titleLines := WrapText(title, titleFont.width, MaxTextWidth);
    var bodyLines := BodyLines(SplitParagraphs(text), bodyFont.width);
    var titleHeight := TitleHeight(titleLines, titleFont.height);
    var content := ContentHeight(titleLines, bodyLines, titleFont, bodyFont);
    var cardHeight := if content >= MinCardHeight then content else MinCardHeight;

    var titlePlaced, titleEnd := DrawTitle(titleLines, titleFont);
    var bodyStart := CardMargin + CardPadding + titleHeight + TitleBodyGap;
    var bodyPlaced, bodyEnd := DrawBody(bodyLines, bodyFont, bodyStart);

    TitlePlacementsWithin(titleLines, titlePlaced, titleFont.height);
    assert |titleLines| > 0 ==> titleLines[..0] == [];
    forall p | p in bodyPlaced
      ensures p.x == 160 && bodyStart <= p.y && p.y + bodyFont.height(p.line) + BodyLineGap <= bodyEnd
    {
      var k :| 0 <= k < |bodyPlaced| && bodyPlaced[k] == p;
    }
    card := Card(template, TitleFontSize, BodyFontSize,
                 CardWidth + 2 * CardMargin, cardHeight + 2 * CardMargin, CardWidth, cardHeight,
                 titlePlaced, bodyPlaced, bodyEnd);
  }

  /** Every title line drawn at its cursor lies, with its gap below, within
      the title block that starts at 160. */
  lemma TitlePlacementsWithin(lines: seq<string>, placed: seq<Placement>, height: string -> nat)
    requires TitlePlaced(placed, lines, height)
    ensures forall p :: p in placed ==>
      p.x == 160 && 160 <= p.y && p.y + height(p.line) + TitleLineGap <= 160 + TitleHeight(lines, height)
  {
    forall p | p in placed
      ensures p.x == 160 && 160 <= p.y && p.y + height(p.line) + TitleLineGap <= 160 + TitleHeight(lines, height)
    {
      var i :| 0 <= i < |placed| && placed[i] == p;
      TitleHeightPrefix(lines, i, height);
    }
  }

  /** The title block up to and including line `i` is no taller than the
      whole block. */
  lemma {:induction false} TitleHeightPrefix(lines: seq<string>, i: int, height: string -> nat)
    requires 0 <= i < |lines|
    ensures TitleHeight(lines[..i], height) + height(lines[i]) + TitleLineGap <= TitleHeight(lines, height)
    decreases |lines|
  {
    if i == |lines| - 1 {
    } else {
      assert lines[..|lines| - 1][..i] == lines[..i];
      TitleHeightPrefix(lines[..|lines| - 1], i, height);
    }
  }
}
