/**
 * The HTML rendering of the two cards (`CardFormatter` in
 * modules/card_formatter.py): fixed templates for the image and the word,
 * the `<`/`>` escaper, the paragraph reflow of the content, and the two
 * deliberately different back layouts.
 *
 * The reflow is specified by `Reflow`, a recursive reference definition over
 * the content's lines: every non-blank line, stripped and escaped, followed by
 * "<br>" when the next line is non-blank and by "<br><br>" when one or more
 * blank lines come before the next non-blank line. `FormatContent` is the
 * source's imperative algorithm (trim blank edge lines, collect blocks, join)
 * proved equal to it.
 */
module CardFormatter {
  import opened Text

  const ImageOpen: string := "<img src=\""
  const ImageStyle: string := "max-width: 100%; height: auto;"
  const ImageClose: string := "\" style=\"" + ImageStyle + "\">"
  const WordStyle: string := "color: #0000FF; font-weight: bold; font-size: 20px;"
  const WordOpen: string := "<span style=\"" + WordStyle + "\">"
  const WordClose: string := "</span>"
  const Br: string := "<br>"
  const BlankLine: string := "<br><br>"
  const ImageToWord: string := "image_to_word"

  // ------------------------------------------------ fixed templates

  /** `format_front_image`: the filename, verbatim and unescaped, inside the image tag. */
  function FormatFrontImage(imageFilename: string): (html: string)
    ensures |html| == |ImageOpen| + |imageFilename| + |ImageClose|
    ensures StartsWith(html, ImageOpen)
    ensures html[|ImageOpen|..|html| - |ImageClose|] == imageFilename
    ensures html[|html| - |ImageClose|..] == ImageClose
  {
    var html := ImageOpen + imageFilename + ImageClose;
    assert html[..|ImageOpen|] == ImageOpen;
    html
  }

  /** `format_front_word`: the word, verbatim and unescaped, inside the styled span. */
  function FormatFrontWord(word: string): (html: string)
    ensures |html| == |WordOpen| + |word| + |WordClose|
    ensures StartsWith(html, WordOpen)
    ensures html[|WordOpen|..|html| - |WordClose|] == word
    ensures html[|html| - |WordClose|..] == WordClose
  {
    var html := WordOpen + word + WordClose;
    assert html[..|WordOpen|] == WordOpen;
    html
  }

  /** Different filenames give different image tags, different words different spans. */
  lemma FrontsInjective(a: string, b: string)
    ensures FormatFrontImage(a) == FormatFrontImage(b) ==> a == b
    ensures FormatFrontWord(a) == FormatFrontWord(b) ==> a == b
  {
  }

  // ------------------------------------------------ escaping

  /** What one character becomes. */
  function EscapeChar(c: char): string {
    if c == '<' then "&lt;" else if c == '>' then "&gt;" else [c]
  }

  /** Character-wise reference definition of the escaper. */
  function EscapeEach(t: string): (r: string)
    ensures '<' !in r && '>' !in r
    ensures |r| >= |t|
  {
    if t == [] then [] else EscapeChar(t[0]) + EscapeEach(t[1..])
  }

  /** `_escape_html`: two `str.replace` passes, `<` first, then `>`. It is the
      character-wise map: `<` and `>` become entities, every other character,
      `&` included, is kept. */
  function EscapeHtml(text: string): (r: string)
    ensures r == EscapeEach(text)
  {
    EscapeIsCharwise(text);
    ReplaceAll(ReplaceAll(text, "<", "&lt;"), ">", "&gt;")
  }

  /** The two passes equal the character-wise escaper. */
  lemma {:induction false} EscapeIsCharwise(t: string)
    ensures ReplaceAll(ReplaceAll(t, "<", "&lt;"), ">", "&gt;") == EscapeEach(t)
  {
    if t != [] {
      EscapeIsCharwise(t[1..]);
      var first := if t[0] == '<' then "&lt;" else [t[0]];
      assert ReplaceAll(t, "<", "&lt;") == first + ReplaceAll(t[1..], "<", "&lt;");
      ReplaceCharConcat(first, ReplaceAll(t[1..], "<", "&lt;"), '>', "&gt;");
      if t[0] == '<' {
        ReplaceCharAbsent("&lt;", '>', "&gt;");
      }
    }
  }

  /** Text without angle brackets is not changed by escaping. */
  lemma {:induction false} EscapeKeepsPlainText(t: string)
    requires '<' !in t && '>' !in t
    ensures EscapeHtml(t) == t
  {
    if t != [] {
      EscapeKeepsPlainText(t[1..]);
      assert t == [t[0]] + t[1..];
    }
  }

  // ------------------------------------------------ paragraph reflow

  predicate AllBlank(lines: seq<string>) {
    forall k :: 0 <= k < |lines| ==> Blank(lines[k])
  }

  /** What a line contributes once stripped and escaped: "" exactly for a
      blank line, never an angle bracket. */
  function Cell(line: string): (r: string)
    ensures r == [] <==> Blank(line)
    ensures '<' !in r && '>' !in r
  {
    EscapeEach(Strip(line))
  }

  function Cells(lines: seq<string>): (r: seq<string>)
    ensures |r| == |lines|
  {
    if lines == [] then [] else [Cell(lines[0])] + Cells(lines[1..])
  }

  lemma {:induction false} CellAt(lines: seq<string>, i: nat)
    requires i < |lines|
    ensures Cells(lines)[i] == Cell(lines[i])
  {
    var head := Cell(lines[0]);
    var rest := Cells(lines[1..]);
    assert Cells(lines) == [head] + rest;
    if i > 0 {
      CellAt(lines[1..], i - 1);
      TailAt(lines, i);
      TailAt([head] + rest, i);
    }
  }

  lemma TailAt<T>(xs: seq<T>, i: nat)
    requires 0 < i < |xs|
    ensures xs[1..][i - 1] == xs[i]
  {
  }

  lemma {:induction false} CellsAppend(xs: seq<string>, ys: seq<string>)
    ensures Cells(xs + ys) == Cells(xs) + Cells(ys)
  {
    if xs == [] {
      assert xs + ys == ys;
    } else {
      assert (xs + ys)[1..] == xs[1..] + ys;
      CellsAppend(xs[1..], ys);
    }
  }

  predicate AllEmpty(cells: seq<string>) {
    forall k :: 0 <= k < |cells| ==> cells[k] == []
  }

  lemma AllBlankCells(lines: seq<string>)
    ensures AllBlank(lines) <==> AllEmpty(Cells(lines))
  {
    forall k | 0 <= k < |lines| ensures Cells(lines)[k] == Cell(lines[k]) {
      CellAt(lines, k);
    }
  }

  lemma AllEmptyAppend(a: seq<string>, b: seq<string>)
    ensures AllEmpty(a + b) <==> AllEmpty(a) && AllEmpty(b)
  {
    if AllEmpty(a + b) {
      forall k | 0 <= k < |a| ensures a[k] == [] { assert (a + b)[k] == a[k]; }
      forall k | 0 <= k < |b| ensures b[k] == [] { assert (a + b)[|a| + k] == b[k]; }
    }
  }

  /** What follows a non-empty cell: nothing at the end, "<br>" before an
      adjacent non-empty cell, "<br><br>" when empty cells intervene. */
  function Gap(rest: seq<string>): string {
    if AllEmpty(rest) then "" else if rest[0] == [] then BlankLine else Br
  }

  /** Lays out the cells of the lines: every non-empty cell followed by its gap. */
  function Layout(cells: seq<string>): string {
    if cells == [] then ""
    else if cells[0] == [] then Layout(cells[1..])
    else cells[0] + Gap(cells[1..]) + Layout(cells[1..])
  }

  /** Reference definition of the reflowed lines. */
  function Reflow(lines: seq<string>): string {
    Layout(Cells(lines))
  }

  /** The reflow of a text. */
  function ContentHtml(content: string): string {
    Reflow(Split(content, '\n'))
  }

  lemma {:induction false} LayoutEmpty(cells: seq<string>)
    ensures Layout(cells) == "" <==> AllEmpty(cells)
  {
    if cells != [] {
      LayoutEmpty(cells[1..]);
      assert AllEmpty(cells) <==> cells[0] == [] && AllEmpty(cells[1..]);
    }
  }

  /** An empty cell at the end adds nothing. */
  lemma {:induction false} LayoutEmptySuffix(xs: seq<string>)
    ensures Layout(xs + [""]) == Layout(xs)
  {
    if xs == [] {
      assert [""][1..] == [];
    } else {
      assert (xs + [""])[1..] == xs[1..] + [""];
      LayoutEmptySuffix(xs[1..]);
      AllEmptyAppend(xs[1..], [""]);
      if xs[1..] != [] {
        assert (xs[1..] + [""])[0] == xs[1..][0];
      }
    }
  }

  /** Empty cells at the start add nothing. */
  lemma {:induction false} LayoutEmptyPrefix(xs: seq<string>, ys: seq<string>)
    requires AllEmpty(xs)
    ensures Layout(xs + ys) == Layout(ys)
  {
    if xs != [] {
      assert (xs + ys)[1..] == xs[1..] + ys;
      LayoutEmptyPrefix(xs[1..], ys);
    } else {
      assert xs + ys == ys;
    }
  }

  /** The separator between the last cell of one part and the first of the next. */
  function Junction(xs: seq<string>, ys: seq<string>): string
    requires xs != [] && ys != []
  {
    if xs[|xs| - 1] == [] || ys[0] == [] then BlankLine else Br
  }

  lemma {:induction false} LayoutAppend(xs: seq<string>, ys: seq<string>)
    requires !AllEmpty(xs) && !AllEmpty(ys)
    ensures Layout(xs + ys) == Layout(xs) + Junction(xs, ys) + Layout(ys)
    decreases |xs|, 2
  {
    var x, xs' := xs[0], xs[1..];
    assert xs == [x] + xs';
    assert (xs + ys)[0] == x;
    assert (xs + ys)[1..] == xs' + ys;
    if x == [] {
      assert !AllEmpty(xs') by { assert forall k :: 0 <= k < |xs'| ==> xs'[k] == xs[k + 1]; }
      LayoutAppend(xs', ys);
      assert xs[|xs| - 1] == xs'[|xs'| - 1];
      assert Layout(xs + ys) == Layout(xs' + ys);
    } else {
      LayoutAppendHead(x, xs', ys);
    }
  }

  lemma {:induction false} LayoutAppendHead(x: string, xs': seq<string>, ys: seq<string>)
    requires x != [] && !AllEmpty(ys)
    ensures Layout([x] + xs' + ys) == Layout([x] + xs') + Junction([x] + xs', ys) + Layout(ys)
    decreases |xs'| + 1, 1
  {
    var xs := [x] + xs';
    assert (xs + ys)[0] == x && (xs + ys)[1..] == xs' + ys;
    assert xs[0] == x && xs[1..] == xs';
    assert Layout(xs + ys) == x + Gap(xs' + ys) + Layout(xs' + ys);
    assert Layout(xs) == x + Gap(xs') + Layout(xs');
    if xs' == [] {
      HeadAlone(x, ys);
    } else if AllEmpty(xs') {
      HeadThenEmpty(x, xs', ys);
    } else {
      HeadThenMore(x, xs', ys);
    }
  }

  lemma HeadAlone(x: string, ys: seq<string>)
    requires x != [] && !AllEmpty(ys)
    ensures x + Gap(ys) + Layout(ys) == Layout([x]) + Junction([x], ys) + Layout(ys)
  {
    assert [x][1..] == [];
    assert Layout([x]) == x;
  }

  lemma HeadThenEmpty(x: string, xs': seq<string>, ys: seq<string>)
    requires x != [] && xs' != [] && AllEmpty(xs') && !AllEmpty(ys)
    ensures x + Gap(xs' + ys) + Layout(xs' + ys) == x + Gap(xs') + Layout(xs') + Junction([x] + xs', ys) + Layout(ys)
  {
    EmptyThen(xs', ys);
    var xs := [x] + xs';
    assert xs[|xs| - 1] == xs'[|xs'| - 1];
    assert x + Gap(xs') + Layout(xs') == x + "" + "" == x;
  }

  lemma HeadThenMore(x: string, xs': seq<string>, ys: seq<string>)
    requires x != [] && !AllEmpty(xs') && !AllEmpty(ys)
    ensures x + Gap(xs' + ys) + Layout(xs' + ys) == x + Gap(xs') + Layout(xs') + Junction([x] + xs', ys) + Layout(ys)
    decreases |xs'| + 1, 0
  {
    assert Gap(xs' + ys) == Gap(xs') by {
      AllEmptyAppend(xs', ys);
      assert (xs' + ys)[0] == xs'[0];
    }
    assert Junction([x] + xs', ys) == Junction(xs', ys) by {
      var xs := [x] + xs';
      assert xs[|xs| - 1] == xs'[|xs'| - 1];
    }
    LayoutAppend(xs', ys);
    AppendAssoc(x + Gap(xs'), Layout(xs'), Junction(xs', ys), Layout(ys));
  }

  lemma AppendAssoc(p: string, a: string, b: string, c: string)
    ensures p + (a + b + c) == p + a + b + c
  {
  }

  lemma EmptyThen(xs: seq<string>, ys: seq<string>)
    requires xs != [] && AllEmpty(xs) && !AllEmpty(ys)
    ensures Layout(xs + ys) == Layout(ys)
    ensures Layout(xs) == "" && Gap(xs) == ""
    ensures Gap(xs + ys) == BlankLine && Junction(xs, ys) == BlankLine
  {
    LayoutEmptyPrefix(xs, ys);
    LayoutEmpty(xs);
    AllEmptyAppend(xs, ys);
    assert (xs + ys)[0] == xs[0];
  }

  /** Adding one non-empty cell at the end: what the loop of `FormatContent` relies on. */
  lemma LayoutSnoc(xs: seq<string>, c: string)
    requires c != []
    ensures AllEmpty(xs) ==> Layout(xs + [c]) == c
    ensures !AllEmpty(xs) ==> Layout(xs + [c]) == Layout(xs) + Junction(xs, [c]) + c
  {
    assert [c][1..] == [];
    assert Layout([c]) == c;
    if AllEmpty(xs) {
      LayoutEmptyPrefix(xs, [c]);
    } else {
      LayoutAppend(xs, [c]);
    }
  }

  /** Reflowing two pieces of text that both have content joins their reflows
      with exactly one separator: "<br>" when a non-blank line ends the first
      and another begins the second, "<br><br>" for any run of blank lines
      between them. */
  lemma ReflowAppend(xs: seq<string>, ys: seq<string>)
    requires !AllBlank(xs) && !AllBlank(ys)
    ensures Reflow(xs + ys) == Reflow(xs) + (if Blank(xs[|xs| - 1]) || Blank(ys[0]) then BlankLine else Br) + Reflow(ys)
  {
    var cx, cy := Cells(xs), Cells(ys);
    assert !AllEmpty(cx) && !AllEmpty(cy) by {
      AllBlankCells(xs);
      AllBlankCells(ys);
    }
    assert Junction(cx, cy) == if Blank(xs[|xs| - 1]) || Blank(ys[0]) then BlankLine else Br by {
      CellAt(xs, |xs| - 1);
      CellAt(ys, 0);
    }
    CellsAppend(xs, ys);
    LayoutAppend(cx, cy);
  }

  /** Every `<` of the output opens a "<br>" and every `>` closes one. */
  predicate OnlyBreakTags(h: string) {
    && (forall i :: 0 <= i < |h| && h[i] == '<' ==> i + 4 <= |h| && h[i..i + 4] == Br)
    && (forall i :: 0 <= i < |h| && h[i] == '>' ==> 3 <= i && h[i - 3..i + 1] == Br)
  }

  lemma OnlyBreakTagsConcat(a: string, b: string)
    requires OnlyBreakTags(a) && OnlyBreakTags(b)
    ensures OnlyBreakTags(a + b)
  {
    var h := a + b;
    forall i | 0 <= i < |h| && h[i] == '<' ensures i + 4 <= |h| && h[i..i + 4] == Br {
      if i < |a| {
        assert a[i] == '<';
        assert h[i..i + 4] == a[i..i + 4];
      } else {
        assert b[i - |a|] == '<';
        assert h[i..i + 4] == b[i - |a|..i - |a| + 4];
      }
    }
    forall i | 0 <= i < |h| && h[i] == '>' ensures 3 <= i && h[i - 3..i + 1] == Br {
      if i < |a| {
        assert a[i] == '>';
        assert h[i - 3..i + 1] == a[i - 3..i + 1];
      } else {
        assert b[i - |a|] == '>';
        assert h[i - 3..i + 1] == b[i - |a| - 3..i - |a| + 1];
      }
    }
  }

  lemma SeparatorsAreTags()
    ensures OnlyBreakTags(Br) && OnlyBreakTags(BlankLine) && OnlyBreakTags("")
  {
    assert BlankLine == Br + Br;
    OnlyBreakTagsConcat(Br, Br);
  }

  /** Cells without angle brackets. */
  predicate Plain(cells: seq<string>) {
    forall k :: 0 <= k < |cells| ==> '<' !in cells[k] && '>' !in cells[k]
  }

  lemma {:induction false} LayoutShape(cells: seq<string>)
    requires Plain(cells)
    ensures OnlyBreakTags(Layout(cells))
    ensures Layout(cells) != "" ==> Layout(cells)[0] != '<' && Layout(cells)[|Layout(cells)| - 1] != '>'
  {
    if cells != [] {
      assert Plain(cells[1..]);
      LayoutShape(cells[1..]);
      if cells[0] != [] {
        var item, gap, rest := cells[0], Gap(cells[1..]), Layout(cells[1..]);
        assert OnlyBreakTags(item);
        SeparatorsAreTags();
        OnlyBreakTagsConcat(item, gap);
        OnlyBreakTagsConcat(item + gap, rest);
        LayoutEmpty(cells[1..]);
        assert item[0] in item;
        if AllEmpty(cells[1..]) {
          assert item + gap + rest == item;
          assert item[|item| - 1] in item;
        } else {
          assert (item + gap + rest)[|item + gap + rest| - 1] == rest[|rest| - 1];
        }
      }
    }
  }

  /** The reflowed content holds no markup but line breaks, and it neither
      starts nor ends inside a tag: it is "" or begins and ends with text. */
  lemma ReflowShape(lines: seq<string>)
    ensures OnlyBreakTags(Reflow(lines))
    ensures Reflow(lines) != "" ==> Reflow(lines)[0] != '<' && Reflow(lines)[|Reflow(lines)| - 1] != '>'
  {
    forall k | 0 <= k < |lines| ensures '<' !in Cells(lines)[k] && '>' !in Cells(lines)[k] {
      CellAt(lines, k);
    }
    LayoutShape(Cells(lines));
  }

  /** Whitespace-only content renders as "", and only such content does. */
  lemma BlankContent(content: string)
    ensures ContentHtml(content) == "" <==> AllSpace(content)
  {
    var lines := Split(content, '\n');
    LayoutEmpty(Cells(lines));
    AllBlankCells(lines);
    JoinSplit(content, '\n');
    AllSpaceJoin(lines);
  }

  lemma {:induction false} AllSpaceJoin(lines: seq<string>)
    ensures AllSpace(Join("\n", lines)) <==> AllBlank(lines)
  {
    if |lines| == 1 {
      StripEmpty(lines[0]);
    } else if |lines| > 1 {
      StripEmpty(lines[0]);
      AllSpaceJoin(lines[1..]);
      AllSpaceConcat(lines[0] + "\n", Join("\n", lines[1..]));
      AllSpaceConcat(lines[0], "\n");
      assert AllBlank(lines) <==> Blank(lines[0]) && AllBlank(lines[1..]);
    }
  }

  lemma AllSpaceConcat(a: string, b: string)
    ensures AllSpace(a + b) <==> AllSpace(a) && AllSpace(b)
  {
    if AllSpace(a) && AllSpace(b) {
      forall i | 0 <= i < |a + b| ensures IsSpace((a + b)[i]) {
        if i >= |a| { assert (a + b)[i] == b[i - |a|]; }
      }
    }
    if AllSpace(a + b) {
      forall i | 0 <= i < |b| ensures IsSpace(b[i]) { assert (a + b)[|a| + i] == b[i]; }
      forall i | 0 <= i < |a| ensures IsSpace(a[i]) { assert (a + b)[i] == a[i]; }
    }
  }

  /** A blank first line adds nothing. */
  lemma DropFirstBlank(lines: seq<string>)
    requires lines != [] && Blank(lines[0])
    ensures Reflow(lines[1..]) == Reflow(lines)
  {
  }

  /** A blank last line adds nothing. */
  lemma DropLastBlank(lines: seq<string>)
    requires lines != [] && Blank(lines[|lines| - 1])
    ensures Reflow(lines[..|lines| - 1]) == Reflow(lines)
  {
    var init, last := lines[..|lines| - 1], lines[|lines| - 1];
    assert lines == init + [last];
    CellsAppend(init, [last]);
    assert Cells([last]) == [""];
    LayoutEmptySuffix(Cells(init));
  }

  /** Joins the blocks collected so far, with the open block as the last one. */
  function Collected(blocks: seq<string>, current: seq<string>): string {
    Join(BlankLine, blocks + (if current == [] then [] else [Join(Br, current)]))
  }

  lemma JoinExtendLast(sep: string, xs: seq<string>, x: string, y: string)
    ensures Join(sep, xs + [x]) + y == Join(sep, xs + [x + y])
  {
    if xs != [] {
      JoinSnoc(sep, xs, x);
      JoinSnoc(sep, xs, x + y);
    }
  }

  lemma PrefixSnoc(s: seq<string>, i: nat)
    requires i < |s|
    ensures s[..i + 1] == s[..i] + [s[i]]
  {
  }

  lemma PrefixAll(s: seq<string>)
    ensures s[..|s|] == s
  {
  }

  /** The loop state of `FormatContent` after the cells `cells`: the closed
      blocks and the open block join to their layout, a block is open exactly
      when the last cell has content, and nothing was collected exactly when
      every cell was empty. */
  predicate Tracks(blocks: seq<string>, current: seq<string>, cells: seq<string>) {
    && Collected(blocks, current) == Layout(cells)
    && (current != [] <==> cells != [] && cells[|cells| - 1] != [])
    && (blocks == [] && current == [] <==> AllEmpty(cells))
  }

  /** A line with content joins the open block. */
  lemma ContentStep(blocks: seq<string>, current: seq<string>, cells: seq<string>, e: string)
    requires Tracks(blocks, current, cells) && e != []
    ensures Tracks(blocks, current + [e], cells + [e])
  {
    AllEmptyAppend(cells, [e]);
    assert (cells + [e])[|cells|] == e;
    ContentLayout(blocks, current, cells, e);
  }

  lemma ContentLayout(blocks: seq<string>, current: seq<string>, cells: seq<string>, e: string)
    requires Tracks(blocks, current, cells) && e != []
    ensures Collected(blocks, current + [e]) == Layout(cells + [e])
  {
    LayoutSnoc(cells, e);
    if current != [] {
      GrowOpenBlock(blocks, current, e);
    } else {
      StartBlock(blocks, e);
    }
  }

  /** Appending to an open block adds one "<br>" and the new text. */
  lemma GrowOpenBlock(blocks: seq<string>, current: seq<string>, e: string)
    requires current != []
    ensures Collected(blocks, current + [e]) == Collected(blocks, current) + Br + e
  {
    var open := Join(Br, current);
    JoinSnoc(Br, current, e);
    JoinExtendLast(BlankLine, blocks, open, Br + e);
    assert open + Br + e == open + (Br + e);
  }

  /** Opening a block adds "<br><br>" and the new text, or only the text when
      nothing was collected before. */
  lemma StartBlock(blocks: seq<string>, e: string)
    ensures Collected(blocks, [e]) == if blocks == [] then e else Collected(blocks, []) + BlankLine + e
  {
    assert Join(Br, [e]) == e;
    assert blocks + [] == blocks;
    if blocks != [] {
      JoinSnoc(BlankLine, blocks, e);
    }
  }

  /** A blank line closes the open block, if any. */
  lemma BlankStep(blocks: seq<string>, current: seq<string>, cells: seq<string>)
    requires Tracks(blocks, current, cells)
    ensures current != [] ==> Tracks(blocks + [Join(Br, current)], [], cells + [""])
    ensures current == [] ==> Tracks(blocks, [], cells + [""])
  {
    LayoutEmptySuffix(cells);
    AllEmptyAppend(cells, [""]);
    assert (cells + [""])[|cells|] == "";
    assert blocks + [] == blocks;
    assert blocks + [Join(Br, current)] + [] == blocks + [Join(Br, current)];
  }

  /** Closing the open block yields the layout of all cells. */
  lemma CloseLast(blocks: seq<string>, current: seq<string>, cells: seq<string>)
    requires Tracks(blocks, current, cells)
    ensures Join(BlankLine, if current != [] then blocks + [Join(Br, current)] else blocks) == Layout(cells)
  {
    assert blocks + [] == blocks;
  }

  /** One turn of the loop of `FormatContent` keeps `Tracks`. */
  lemma LineStep(blocks: seq<string>, current: seq<string>, lines: seq<string>, i: nat)
    requires i < |lines| && Tracks(blocks, current, Cells(lines)[..i])
    ensures Strip(lines[i]) != [] ==>
              Tracks(blocks, current + [EscapeHtml(Strip(lines[i]))], Cells(lines)[..i + 1])
    ensures Strip(lines[i]) == [] && current != [] ==>
              Tracks(blocks + [Join(Br, current)], [], Cells(lines)[..i + 1])
    ensures Strip(lines[i]) == [] && current == [] ==>
              Tracks(blocks, [], Cells(lines)[..i + 1])
  {
    var cells := Cells(lines);
    PrefixSnoc(cells, i);
    CellAt(lines, i);
    if Strip(lines[i]) != [] {
      ContentStep(blocks, current, cells[..i], cells[i]);
    } else {
      BlankStep(blocks, current, cells[..i]);
    }
  }

  /** `_format_content`: split into lines, drop blank lines at both ends,
      collect the stripped and escaped non-blank lines into blocks that a
      blank line closes, join lines with "<br>" and blocks with "<br><br>". */
  method FormatContent(content: string) returns (html: string)
    ensures html == ContentHtml(content)
  {
    var lines := Split(content, '\n');
    while |lines| > 0 && Blank(lines[0])
      invariant Reflow(lines) == ContentHtml(content)
    {
      DropFirstBlank(lines);
      lines := lines[1..];
    }
    while |lines| > 0 && Blank(lines[|lines| - 1])
      invariant Reflow(lines) == ContentHtml(content)
    {
      DropLastBlank(lines);
      lines := lines[..|lines| - 1];
    }
    ghost var cells := Cells(lines);
    var blocks: seq<string> := [];
    var current: seq<string> := [];
    for i := 0 to |lines|
      invariant Tracks(blocks, current, cells[..i])
    {
      LineStep(blocks, current, lines, i);
      var line := Strip(lines[i]);
      if line != [] {
        var escaped := EscapeHtml(line);
        current := current + [escaped];
      } else {
        if current != [] {
          blocks := blocks + [Join(Br, current)];
          current := [];
        }
      }
    }
    PrefixAll(cells);
    CloseLast(blocks, current, cells);
    if current != [] {
      blocks := blocks + [Join(Br, current)];
    }
    html := Join(BlankLine, blocks);
  }

  // ------------------------------------------------ backs and whole cards

  /** The back, as a value: the two layouts differ in what precedes the content. */
  function BackHtml(word: string, content: string, imageFilename: string, includeImage: bool): string {
    if includeImage then FormatFrontImage(imageFilename) + Br + ContentHtml(content)
    else FormatFrontWord(word) + BlankLine + ContentHtml(content)
  }

  /** `format_back`: with the image, the image tag, one "<br>", the content;
      without it, the word span, "<br><br>", the content. */
  method FormatBack(word: string, content: string, imageFilename: string, includeImage: bool)
    returns (html: string)
    ensures html == BackHtml(word, content, imageFilename, includeImage)
  {
    var wordHtml := FormatFrontWord(word);
    var contentHtml := FormatContent(content);
    var backParts: seq<string> := [];
    if includeImage {
      backParts := backParts + [FormatFrontImage(imageFilename)];
      backParts := backParts + [Br];
      backParts := backParts + [contentHtml];
      JoinThree(backParts, FormatFrontImage(imageFilename), Br, contentHtml);
    } else {
      backParts := backParts + [wordHtml];
      backParts := backParts + [BlankLine];
      backParts := backParts + [contentHtml];
      JoinThree(backParts, wordHtml, BlankLine, contentHtml);
    }
    html := Join("", backParts);
  }

  /** The two backs share the rendered content and differ only in what comes
      before it; the image back never shows the word and the word back never
      shows the image. */
  lemma BackLayouts(word: string, word': string, content: string, image: string, image': string)
    ensures BackHtml(word, content, image, true) == BackHtml(word', content, image, true)
    ensures BackHtml(word, content, image, false) == BackHtml(word, content, image', false)
    ensures BackHtml(word, content, image, true) != BackHtml(word, content, image, false)
  {
    var img, span := FormatFrontImage(image), FormatFrontWord(word);
    FrontTagNames(image, word);
    var a, b := img + Br + ContentHtml(content), span + BlankLine + ContentHtml(content);
    assert a[1] == img[1] && b[1] == span[1];
  }

  /** The image front opens an `img` element, the word front a `span`. */
  lemma FrontTagNames(image: string, word: string)
    ensures FormatFrontImage(image)[1] == 'i'
    ensures FormatFrontWord(word)[1] == 's'
  {
    assert ImageOpen[1] == 'i' && WordOpen[1] == 's';
    assert FormatFrontImage(image)[1] == (ImageOpen + image + ImageClose)[1] == ImageOpen[1];
    assert FormatFrontWord(word)[1] == (WordOpen + word + WordClose)[1] == WordOpen[1];
  }

  /** `"".join` of three parts. */
  lemma JoinThree(parts: seq<string>, a: string, b: string, c: string)
    requires parts == [] + [a] + [b] + [c]
    ensures Join("", parts) == a + b + c
  {
    assert parts == [a, b, c];
    var rest := parts[1..];
    assert rest[1..] == [c];
    assert Join("", rest) == b + "" + c;
    assert b + "" + c == b + c;
    assert a + "" + (b + c) == a + b + c;
  }

  /** `format_complete_card`: "image_to_word" pairs the image front with the
      word back; every other card type pairs the word front with the image back. */
  method FormatCompleteCard(word: string, content: string, imageFilename: string, cardType: string)
    returns (front: string, back: string)
    ensures cardType == ImageToWord ==>
              front == FormatFrontImage(imageFilename) && back == BackHtml(word, content, imageFilename, false)
    ensures cardType != ImageToWord ==>
              front == FormatFrontWord(word) && back == BackHtml(word, content, imageFilename, true)
  {
    if cardType == ImageToWord {
      front := FormatFrontImage(imageFilename);
      back := FormatBack(word, content, imageFilename, false);
    } else {
      front := FormatFrontWord(word);
      back := FormatBack(word, content, imageFilename, true);
    }
  }
}
