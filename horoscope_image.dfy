/**
 * The layout of one horoscope card (create_horoscope_image in Horoscope.py):
 * the sign name as a centred title, then the text wrapped greedily to the
 * text width and drawn as a vertically centred block of lines.  The width
 * of a rendered string (draw.textbbox with one of the two fonts) is a
 * parameter; pixels, font files and saving the image are not modelled.
 */
module HoroscopeImage {
  import opened Wrappers
  import opened Text
  import opened Seqs

  const ImageWidth: int := 1080
  const ImageHeight: int := 1080
  const TitleFontSize: int := 70
  const TextFontSize: int := 40
  const LineSpacing: int := 20
  const TitleY: int := 50
  /** Lines may be up to 100 px narrower than the image. */
  const MaxTextWidth: int := ImageWidth - 100
  /** The text area starts 50 px below the bottom of the title font. */
  const TextAreaTop: int := TitleY + TitleFontSize + 50
  /** The step of y_offset from one line to the next. */
  const LineHeight: int := TextFontSize + LineSpacing

  /** A string drawn at (x, y); x is a float in the source. */
  datatype Placement = Placement(text: string, x: real, y: int)

  /** A drawn card: the title and the lines of text, top to bottom. */
  datatype Card = Card(title: Placement, body: seq<Placement>)

  /** The x at which a string of the given width is centred; a true (real) division. */
  function CentredX(width: int): (x: real)
    ensures x + width as real / 2.0 == ImageWidth as real / 2.0
  {
    (ImageWidth - width) as real / 2.0
  }

  // -------------------------------------------------------------- wrapping

  /** The words of each line, line by line. */
  function LineWords(lines: seq<string>): (ws: seq<seq<string>>)
    ensures |ws| == |lines|
    ensures forall k :: 0 <= k < |lines| ==> ws[k] == Words(lines[k])
  {
    seq(|lines|, k requires 0 <= k < |lines| => Words(lines[k]))
  }

  /** Every prefix of at least `from` words of a line fits the text width:
      each word added to the line passed the width test. */
  ghost predicate PrefixesFit(ws: seq<string>, from: nat, width: string -> int) {
    forall m :: from <= m <= |ws| ==> width(JoinSpace(ws[..m])) <= MaxTextWidth
  }

  /** The lines, as lists of words, that the greedy wrap of `words` yields:
      - they hold the words in order, none dropped or repeated;
      - only the first line can be empty, and it is exactly when there are
        no words or the first word alone is too wide;
      - every word after the first of a line passed the width test, and so
        did the first word of the first line;
      - a line ends only because its next word did not fit. */
  ghost predicate GreedyBreaks(words: seq<string>, lw: seq<seq<string>>, width: string -> int) {
    && |lw| >= 1
    && Flatten(lw) == words
    && (lw[0] == [] <==> (words == [] || width(words[0]) > MaxTextWidth))
    && PrefixesFit(lw[0], 1, width)
    && (forall k :: 1 <= k < |lw| ==> LaterLine(lw[k - 1], lw[k], width))
  }

  /** A line after the first: not empty, every word after its first passed
      the width test, and the previous line ended because this line's first
      word did not fit on it. */
  ghost predicate LaterLine(previous: seq<string>, line: seq<string>, width: string -> int) {
    line != [] && PrefixesFit(line, 2, width) && ForcedBreak(previous, line, width)
  }

  /** The first word of `next` did not fit at the end of `line`. */
  ghost predicate ForcedBreak(line: seq<string>, next: seq<string>, width: string -> int) {
    next != [] && width(JoinSpace(line + [next[0]])) > MaxTextWidth
  }

  /** The wrapped text: single-spaced lines whose words break greedily. */
  ghost predicate GreedyWrap(text: string, lines: seq<string>, width: string -> int) {
    && (forall k :: 0 <= k < |lines| ==> lines[k] == JoinSpace(Words(lines[k])))
    && GreedyBreaks(Words(text), LineWords(lines), width)
  }

  /** The loop of create_horoscope_image that splits the text into lines:
      it tries each word on the current line (test_line is the line, a space
      and the word, stripped) and starts a new line when the test line is
      wider than max_text_width. */
  method WrapText(text: string, width: string -> int) returns (lines: seq<string>)
    ensures GreedyWrap(text, lines, width)
    ensures 1 <= |lines| <= |Words(text)| + 1
  {
    var words := Words(text);
    lines := [];
    var currentLine := "";
    ghost var done: seq<seq<string>> := [];
    ghost var current: seq<string> := [];
    var i := 0;
    while i < |words|
      invariant WrapInvariant(words, i, lines, currentLine, done, current, width)
    {
      var word := words[i];
      var testLine := Strip(currentLine + " " + word);
      StripExtend(current, word);
      if width(testLine) <= MaxTextWidth {
        ExtendStep(words, i, lines, currentLine, done, current, width);
        currentLine := testLine;
        current := current + [word];
      } else {
        BreakStep(words, i, lines, currentLine, done, current, width);
        lines := lines + [currentLine];
        done := done + [current];
        currentLine := word;
        current := [word];
      }
      i := i + 1;
    }
    FinishWrap(words, lines, currentLine, done, current, width);
    lines := lines + [currentLine];
    WrapReadsBack(text, lines, done + [current], width);
  }

  /** What the wrap loop knows after i words: `done` are the words of the
      finished lines, `current` those of currentLine. */
  ghost predicate WrapInvariant(words: seq<string>, i: int, lines: seq<string>, currentLine: string,
                                done: seq<seq<string>>, current: seq<string>, width: string -> int) {
    && AllWords(words)
    && 0 <= i <= |words|
    && |done| == |lines| <= i
    && (forall k :: 0 <= k < |lines| ==> lines[k] == JoinSpace(done[k]) && AllWords(done[k]))
    && currentLine == JoinSpace(current) && AllWords(current)
    && Flatten(done) + current == words[..i]
    && (i > 0 ==> current != [])
    && (done != [] && done[0] == [] ==> width(words[0]) > MaxTextWidth)
    && (done != [] ==> PrefixesFit(done[0], 1, width))
    && (done == [] ==> PrefixesFit(current, 1, width))
    && (forall k :: 1 <= k < |done| ==> LaterLine(done[k - 1], done[k], width))
    && (done != [] ==> LaterLine(done[|done| - 1], current, width))
  }

  /** The word fits: it joins the current line. */
  lemma ExtendStep(words: seq<string>, i: int, lines: seq<string>, currentLine: string,
                   done: seq<seq<string>>, current: seq<string>, width: string -> int)
    requires WrapInvariant(words, i, lines, currentLine, done, current, width) && i < |words|
    requires width(JoinSpace(current + [words[i]])) <= MaxTextWidth
    ensures WrapInvariant(words, i + 1, lines, JoinSpace(current + [words[i]]), done, current + [words[i]], width)
  {
    var ext := current + [words[i]];
    assert AllWords(ext);
    PrefixesFitExtend(current, words[i], if done == [] then 1 else 2, width);
    assert words[..i + 1] == words[..i] + [words[i]];
    assert Flatten(done) + ext == (Flatten(done) + current) + [words[i]];
    if done != [] {
      assert ext[0] == current[0];
    }
  }

  /** The word does not fit: the current line is finished and the word
      starts the next one. */
  lemma BreakStep(words: seq<string>, i: int, lines: seq<string>, currentLine: string,
                  done: seq<seq<string>>, current: seq<string>, width: string -> int)
    requires WrapInvariant(words, i, lines, currentLine, done, current, width) && i < |words|
    requires width(JoinSpace(current + [words[i]])) > MaxTextWidth
    ensures WrapInvariant(words, i + 1, lines + [currentLine], words[i], done + [current], [words[i]], width)
  {
    var w := words[i];
    var done' := done + [current];
    FlattenSnoc(done, current);
    assert words[..i + 1] == words[..i] + [w];
    assert JoinSpace([w]) == w;
    assert AllWords([w]);
    assert LaterLine(current, [w], width);
    assert forall k :: 1 <= k < |done'| ==> LaterLine(done'[k - 1], done'[k], width) by {
      forall k | 1 <= k < |done'| ensures LaterLine(done'[k - 1], done'[k], width) {
        if k < |done| {
          assert done'[k - 1] == done[k - 1] && done'[k] == done[k];
        }
      }
    }
    if done == [] && current == [] {
      assert i == 0;
      assert current + [w] == [w];
    }
  }

  /** After the last word the current line is appended; the lines then
      satisfy GreedyWrap. */
  lemma FinishWrap(words: seq<string>, lines: seq<string>, currentLine: string,
                   done: seq<seq<string>>, current: seq<string>, width: string -> int)
    requires WrapInvariant(words, |words|, lines, currentLine, done, current, width)
    ensures GreedyBreaks(words, done + [current], width)
    ensures |done| + 1 <= |words| + 1
    ensures forall k :: 0 <= k < |lines| + 1 ==>
      (lines + [currentLine])[k] == JoinSpace((done + [current])[k]) && AllWords((done + [current])[k])
  {
    var lw := done + [current];
    FlattenSnoc(done, current);
    assert words[..|words|] == words;
    FirstLineEmptyIff(words, lw, width);
  }

  lemma FirstLineEmptyIff(words: seq<string>, lw: seq<seq<string>>, width: string -> int)
    requires |lw| >= 1 && Flatten(lw) == words
    requires PrefixesFit(lw[0], 1, width)
    requires lw[0] == [] && words != [] ==> width(words[0]) > MaxTextWidth
    ensures lw[0] == [] <==> (words == [] || width(words[0]) > MaxTextWidth)
  {
    if lw[0] != [] {
      assert words[0] == lw[0][0];
      assert lw[0][..1] == [lw[0][0]];
      assert JoinSpace(lw[0][..1]) == words[0];
    }
  }

  /** A finished wrap reads back as the words it was built from. */
  lemma WrapReadsBack(text: string, lines: seq<string>, lw: seq<seq<string>>, width: string -> int)
    requires |lines| == |lw|
    requires forall k :: 0 <= k < |lines| ==> lines[k] == JoinSpace(lw[k]) && AllWords(lw[k])
    requires GreedyBreaks(Words(text), lw, width)
    ensures GreedyWrap(text, lines, width)
  {
    WrapWordsOfLines(lines, lw);
  }

  lemma PrefixesFitExtend(ws: seq<string>, w: string, from: nat, width: string -> int)
    requires PrefixesFit(ws, from, width)
    requires from <= |ws| + 1 ==> width(JoinSpace(ws + [w])) <= MaxTextWidth
    ensures PrefixesFit(ws + [w], from, width)
  {
    var ext := ws + [w];
    forall m | from <= m <= |ext| ensures width(JoinSpace(ext[..m])) <= MaxTextWidth {
      TakeAppend(ws, w, m);
    }
  }

  lemma TakeAppend<T>(xs: seq<T>, x: T, m: nat)
    requires m <= |xs| + 1
    ensures (xs + [x])[..m] == if m <= |xs| then xs[..m] else xs + [x]
  {
  }

  /** At the end of the loop: the lines read back as the tracked words. */
  lemma WrapWordsOfLines(lines: seq<string>, done: seq<seq<string>>)
    requires |done| == |lines|
    requires forall k :: 0 <= k < |lines| ==> lines[k] == JoinSpace(done[k]) && AllWords(done[k])
    ensures LineWords(lines) == done
    ensures forall k :: 0 <= k < |lines| ==> lines[k] == JoinSpace(Words(lines[k]))
  {
    forall k | 0 <= k < |lines| ensures Words(lines[k]) == done[k] {
      WordsOfJoin(done[k]);
    }
  }

  // ------------------------------------------- the greedy wrap is unique

  /** Lines that are all non-empty, whose words after the first each passed
      the width test, and each of which ended because the next line's first
      word did not fit. */
  ghost predicate Chain(lw: seq<seq<string>>, width: string -> int) {
    && (forall k :: 0 <= k < |lw| ==> lw[k] != [] && PrefixesFit(lw[k], 2, width))
    && (forall k :: 1 <= k < |lw| ==> ForcedBreak(lw[k - 1], lw[k], width))
  }

  /** GreedyBreaks pins the lines down: for given words and widths there is
      exactly one way to break them, the one the wrap loop takes. */
  lemma GreedyBreaksUnique(words: seq<string>, lw1: seq<seq<string>>, lw2: seq<seq<string>>, width: string -> int)
    requires GreedyBreaks(words, lw1, width) && GreedyBreaks(words, lw2, width)
    ensures lw1 == lw2
  {
    if lw1[0] == [] {
      assert lw2[0] == [];
      GreedyTailChain(words, lw1, width);
      GreedyTailChain(words, lw2, width);
      ChainUnique(lw1[1..], lw2[1..], width);
      assert lw1 == [lw1[0]] + lw1[1..];
      assert lw2 == [lw2[0]] + lw2[1..];
    } else {
      assert lw2[0] != [];
      GreedyChain(words, lw1, width);
      GreedyChain(words, lw2, width);
      ChainUnique(lw1, lw2, width);
    }
  }

  lemma GreedyTailChain(words: seq<string>, lw: seq<seq<string>>, width: string -> int)
    requires GreedyBreaks(words, lw, width) && lw[0] == []
    ensures Chain(lw[1..], width) && Flatten(lw[1..]) == words
  {
    var tail := lw[1..];
    forall k | 1 <= k < |tail| ensures ForcedBreak(tail[k - 1], tail[k], width) {
      assert LaterLine(lw[k], lw[k + 1], width);
    }
    forall k | 0 <= k < |tail| ensures tail[k] != [] && PrefixesFit(tail[k], 2, width) {
      assert LaterLine(lw[k], lw[k + 1], width);
    }
  }

  lemma GreedyChain(words: seq<string>, lw: seq<seq<string>>, width: string -> int)
    requires GreedyBreaks(words, lw, width) && lw[0] != []
    ensures Chain(lw, width)
  {
    forall k | 0 <= k < |lw| ensures lw[k] != [] && PrefixesFit(lw[k], 2, width) {
      if k > 0 {
        assert LaterLine(lw[k - 1], lw[k], width);
      }
    }
    forall k | 1 <= k < |lw| ensures ForcedBreak(lw[k - 1], lw[k], width) {
      assert LaterLine(lw[k - 1], lw[k], width);
    }
  }

  lemma {:induction false} ChainUnique(lw1: seq<seq<string>>, lw2: seq<seq<string>>, width: string -> int)
    requires Chain(lw1, width) && Chain(lw2, width) && Flatten(lw1) == Flatten(lw2)
    ensures lw1 == lw2
    decreases |lw1|
  {
    ChainWordCount(lw1, width);
    ChainWordCount(lw2, width);
    if lw1 != [] && lw2 != [] {
      FirstLineNotShorter(lw1, lw2, width);
      FirstLineNotShorter(lw2, lw1, width);
      var a := lw1[0];
      assert a == Flatten(lw1)[..|a|] == lw2[0];
      var rest1, rest2 := Flatten(lw1[1..]), Flatten(lw2[1..]);
      assert Flatten(lw1) == a + rest1 && Flatten(lw2) == a + rest2;
      assert rest1 == Flatten(lw1)[|a|..] == rest2;
      ChainTail(lw1, width);
      ChainTail(lw2, width);
      ChainUnique(lw1[1..], lw2[1..], width);
      assert lw1 == [a] + lw1[1..];
      assert lw2 == [a] + lw2[1..];
    }
  }

  /** A chain holds at least as many words as lines. */
  lemma ChainWordCount(lw: seq<seq<string>>, width: string -> int)
    requires Chain(lw, width)
    ensures lw != [] ==> |Flatten(lw)| >= |lw[0]| > 0
  {
  }

  lemma ChainTail(lw: seq<seq<string>>, width: string -> int)
    requires Chain(lw, width) && lw != []
    ensures Chain(lw[1..], width)
  {
    var tail := lw[1..];
    forall k | 1 <= k < |tail| ensures ForcedBreak(tail[k - 1], tail[k], width) {
      assert tail[k - 1] == lw[k] && tail[k] == lw[k + 1];
    }
  }

  /** Two chains of the same words: the first line of one cannot be longer
      than that of the other, or the other's first break was not forced. */
  lemma FirstLineNotShorter(lw1: seq<seq<string>>, lw2: seq<seq<string>>, width: string -> int)
    requires Chain(lw1, width) && Chain(lw2, width) && Flatten(lw1) == Flatten(lw2)
    requires lw1 != [] && lw2 != []
    ensures |lw2[0]| <= |lw1[0]|
  {
    if |lw1[0]| < |lw2[0]| {
      LongerFirstLineFits(lw1, lw2, width);
      assert false;
    }
  }

  /** If the other first line is longer, it holds this first line followed
      by the first word of this second line, and that prefix fits. */
  lemma LongerFirstLineFits(lw1: seq<seq<string>>, lw2: seq<seq<string>>, width: string -> int)
    requires Flatten(lw1) == Flatten(lw2) && lw1 != [] && lw2 != []
    requires forall k :: 0 <= k < |lw1| ==> lw1[k] != []
    requires PrefixesFit(lw2[0], 2, width)
    requires |lw1[0]| < |lw2[0]|
    ensures |lw1| > 1 && width(JoinSpace(lw1[0] + [lw1[1][0]])) <= MaxTextWidth
  {
    var words := Flatten(lw1);
    var a, b := lw1[0], lw2[0];
    var rest := Flatten(lw1[1..]);
    assert words == a + rest == b + Flatten(lw2[1..]);
    assert |rest| > 0;
    assert |lw1| > 1;
    assert rest == lw1[1] + Flatten(lw1[2..]) by {
      assert lw1[1..][1..] == lw1[2..];
    }
    var next := lw1[1][0];
    var m := |a| + 1;
    assert b[..m] == words[..m] == a + [next];
    assert width(JoinSpace(b[..m])) <= MaxTextWidth;
  }

  // ---------------------------------------------------------------- layout

  /** The left and right margins of a centred string are equal. */
  lemma CentredMargins(width: int)
    ensures CentredX(width) == ImageWidth as real - (CentredX(width) + width as real)
  {
  }

  /** The y of the first line: the text area top plus half of what the
      block leaves free below it, halved with Python's floor division, which
      rounds toward minus infinity as Dafny's / does for a positive divisor. */
  function TextTop(lineCount: nat): int {
    TextAreaTop + (ImageHeight - TextAreaTop - lineCount * LineHeight) / 2
  }

  /** The block of lines is centred exactly in the area below the title: the
      gap above it equals the gap below it, whatever the number of lines. */
  lemma BlockCentred(lineCount: nat)
    ensures TextTop(lineCount) - TextAreaTop == ImageHeight - (TextTop(lineCount) + lineCount * LineHeight)
  {
  }

  /** Up to 15 lines fit between the title area and the bottom edge; from 16
      lines on, the block starts above text_y_start and ends below the image. */
  lemma BlockFits(lineCount: nat)
    ensures TextTop(lineCount) >= TextAreaTop <==> lineCount <= 15
    ensures TextTop(lineCount) + lineCount * LineHeight <= ImageHeight <==> lineCount <= 15
  {
  }

  /** The drawing loop of create_horoscope_image: each line centred
      horizontally, the first at TextTop, each next one LineHeight lower. */
  method LayoutLines(lines: seq<string>, width: string -> int) returns (placed: seq<Placement>)
    ensures |placed| == |lines|
    ensures forall k :: 0 <= k < |lines| ==>
      placed[k] == Placement(lines[k], CentredX(width(lines[k])), TextTop(|lines|) + k * LineHeight)
  {
    var textYStart := TitleY + TitleFontSize + 50;
    var totalTextHeight := |lines| * (TextFontSize + LineSpacing);
    var yOffset := textYStart + (ImageHeight - textYStart - totalTextHeight) / 2;
    placed := [];
    for i := 0 to |lines|
      invariant |placed| == i
      invariant yOffset == TextTop(|lines|) + i * LineHeight
      invariant forall k :: 0 <= k < i ==>
        placed[k] == Placement(lines[k], CentredX(width(lines[k])), TextTop(|lines|) + k * LineHeight)
    {
      var lineWidth := width(lines[i]);
      placed := placed + [Placement(lines[i], (ImageWidth - lineWidth) as real / 2.0, yOffset)];
      yOffset := yOffset + TextFontSize + LineSpacing;
    }
  }

  function Texts(placed: seq<Placement>): (texts: seq<string>)
    ensures |texts| == |placed|
    ensures forall k :: 0 <= k < |placed| ==> texts[k] == placed[k].text
  {
    seq(|placed|, k requires 0 <= k < |placed| => placed[k].text)
  }

  /** What a card's body holds for `text`: the greedy wrap of the text, one placement per line,
      each line centred horizontally and the block centred vertically. */
  ghost predicate CardBody(text: string, body: seq<Placement>, width: string -> int)
  {
    && GreedyWrap(text, Texts(body), width)
    && 1 <= |body| <= |Words(text)| + 1
    && forall k :: 0 <= k < |body| ==>
         body[k].x == CentredX(width(body[k].text)) && body[k].y == TextTop(|body|) + k * LineHeight
  }

  /** create_horoscope_image up to saving: without its fonts it draws
      nothing; otherwise the centred title at title_y and the greedily
      wrapped text as a centred block of evenly spaced lines.
      `titleWidth` and `textWidth` measure with the 70 px and 40 px fonts. */
  method CreateHoroscopeImage(sign: string, text: string, fontsLoaded: bool,
                              titleWidth: string -> int, textWidth: string -> int)
    returns (card: Option<Card>)
    ensures card.Some? <==> fontsLoaded
    ensures card.Some? ==> card.value.title == Placement(sign, CentredX(titleWidth(sign)), TitleY)
    ensures card.Some? ==> CardBody(text, card.value.body, textWidth)
  {
    if !fontsLoaded {
      return None;
    }
    var title := Placement(sign, CentredX(titleWidth(sign)), TitleY);
    var lines := WrapText(text, textWidth);
    var body := LayoutLines(lines, textWidth);
    CardBodyOfLayout(text, lines, body, textWidth);
    card := Some(Card(title, body));
  }

  lemma CardBodyOfLayout(text: string, lines: seq<string>, body: seq<Placement>, width: string -> int)
    requires GreedyWrap(text, lines, width) && 1 <= |lines| <= |Words(text)| + 1
    requires |body| == |lines|
    requires forall k :: 0 <= k < |lines| ==>
      body[k] == Placement(lines[k], CentredX(width(lines[k])), TextTop(|lines|) + k * LineHeight)
    ensures CardBody(text, body, width)
  {
    TextsOfLayout(lines, body);
  }

  lemma TextsOfLayout(lines: seq<string>, placed: seq<Placement>)
    requires |placed| == |lines| && forall k :: 0 <= k < |lines| ==> placed[k].text == lines[k]
    ensures Texts(placed) == lines
  {
  }
}
