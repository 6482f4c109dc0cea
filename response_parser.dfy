/**
 * Turning the text generator's free-text reply into the three flashcard
 * fields (`ClaudeProvider` in modules/llm_provider.py): the prompt that is
 * sent, the extraction of the visual-concept section, the cleaning of the
 * main content, and the gate that decides whether the result is usable.
 *
 * The three regular expressions of the source are written out as scans:
 *   - `CONCEITO VISUAL[:\s]*\n(.+)` (search, IGNORECASE | DOTALL) picks the
 *     leftmost marker whose `[:\s]*` run holds a line break that is followed
 *     by at least one character; the greedy run backs off to the LAST such
 *     line break, and the group is everything after it.
 *   - `\n*CONCEITO VISUAL[:\s]*\n.*` (sub, IGNORECASE | DOTALL) deletes from
 *     the leftmost marker whose run holds any line break, together with the
 *     line breaks directly before that marker, to the end of the text. A
 *     match cannot start earlier: `\n*` can only stop where the marker
 *     begins, and an earlier marker would be the leftmost one.
 *   - `^Flashcard:.*\n?` (sub, MULTILINE) deletes every line that starts
 *     with the label, with its line break when it has one.
 */
module ResponseParser {
  import opened Text
  import opened Wrappers

  /** The section marker; matched ignoring ASCII case, anywhere in the text. */
  const Marker: string := "CONCEITO VISUAL"
  /** What separates the prompt template from the word. */
  const PromptSeparator: string := "\n\n---\n\nPalavra: "
  const LabelPrefix: string := "Flashcard:"
  const Fence: string := "```"
  /** Familiarity annotations that mark a trailing line for removal. */
  const FrequencyKeywords: seq<string> := ["muito comum", "comum", "pouco comum", "raro"]
  const RequiredFields: seq<string> := ["word", "content", "visual_concept"]
  const MinContentLength: nat := 50
  const MinConceptLength: nat := 20

  /** The parser's result dictionary. */
  datatype Flashcard = Flashcard(word: string, content: string, visualConcept: string)

  // ---------------------------------------------------------------- prompt

  /** The full prompt: the template, the separator, then the word. */
  function BuildPrompt(template: string, word: string): (prompt: string)
    ensures |prompt| == |template| + |PromptSeparator| + |word|
    ensures StartsWith(prompt, template)
    ensures WordOfPrompt(prompt, template) == Some(word)
  {
    var prompt := template + PromptSeparator + word;
    assert prompt[..|template| + |PromptSeparator|] == template + PromptSeparator;
    assert prompt[|template| + |PromptSeparator|..] == word;
    prompt
  }

  /** Reads the word back out of a prompt built on `template`. */
  function WordOfPrompt(prompt: string, template: string): Option<string> {
    if StartsWith(prompt, template + PromptSeparator)
    then Some(prompt[|template| + |PromptSeparator|..])
    else None
  }

  /** Two prompts on the same template are equal only for the same word. */
  lemma BuildPromptInjective(template: string, w1: string, w2: string)
    requires BuildPrompt(template, w1) == BuildPrompt(template, w2)
    ensures w1 == w2
  {
    assert WordOfPrompt(BuildPrompt(template, w1), template) == Some(w1);
  }

  // ------------------------------------------------------- marker scanning

  predicate MarkerAt(s: string, i: nat) {
    i + |Marker| <= |s| && forall k :: 0 <= k < |Marker| ==> LowerChar(s[i + k]) == LowerChar(Marker[k])
  }

  /** A character of the `[:\s]` class. */
  predicate IsRunChar(c: char) {
    c == ':' || IsSpace(c)
  }

  /** The end of the maximal `[:\s]*` run that starts at `p`. */
  function RunEnd(s: string, p: nat): (q: nat)
    requires p <= |s|
    ensures p <= q <= |s|
    ensures forall k :: p <= k < q ==> IsRunChar(s[k])
    ensures q == |s| || !IsRunChar(s[q])
    decreases |s| - p
  {
    if p < |s| && IsRunChar(s[p]) then RunEnd(s, p + 1) else p
  }

  /** A line break at which `[:\s]*\n` may stop; with `needAfter` the `(.+)`
      that follows must still find a character. */
  predicate Usable(s: string, k: nat, needAfter: bool) {
    k < |s| && s[k] == '\n' && (needAfter ==> k + 1 < |s|)
  }

  /** The greedy run backs off to the last usable line break in `[p, q)`. */
  function LastUsable(s: string, p: nat, q: nat, needAfter: bool): (k: Option<nat>)
    requires p <= q <= |s|
    ensures k.Some? ==> p <= k.value < q && Usable(s, k.value, needAfter)
    ensures k.Some? ==> forall j :: k.value < j < q ==> !Usable(s, j, needAfter)
    ensures k.None? ==> forall j :: p <= j < q ==> !Usable(s, j, needAfter)
    decreases q
  {
    if q == p then None
    else if Usable(s, q - 1, needAfter) then Some(q - 1)
    else LastUsable(s, p, q - 1, needAfter)
  }

  /** The line break that the pattern passes after the marker at `i`, if any. */
  function BreakAfter(s: string, i: nat, needAfter: bool): Option<nat>
    requires MarkerAt(s, i)
  {
    LastUsable(s, i + |Marker|, RunEnd(s, i + |Marker|), needAfter)
  }

  /** The pattern matches with its marker at `i`. */
  predicate Qualifies(s: string, i: nat, needAfter: bool) {
    MarkerAt(s, i) && BreakAfter(s, i, needAfter).Some?
  }

  /** The leftmost position at or after `from` where the pattern matches. */
  function FindMarker(s: string, from: nat, needAfter: bool): (r: Option<nat>)
    ensures r.Some? ==> from <= r.value && Qualifies(s, r.value, needAfter)
    ensures r.Some? ==> forall j :: from <= j < r.value ==> !Qualifies(s, j, needAfter)
    ensures r.None? ==> forall j :: from <= j ==> !Qualifies(s, j, needAfter)
    decreases |s| + 1 - from
  {
    if from + |Marker| > |s| then
      NoRoomForMarker(s, from, needAfter);
      None
    else if Qualifies(s, from, needAfter) then Some(from)
    else FindMarker(s, from + 1, needAfter)
  }

  /** No marker fits into the last `|Marker| - 1` characters. */
  lemma NoRoomForMarker(s: string, from: nat, needAfter: bool)
    requires from + |Marker| > |s|
    ensures forall j :: from <= j ==> !Qualifies(s, j, needAfter)
  {
  }

  /** The leftmost match is determined by the two properties FindMarker promises. */
  lemma FindMarkerIsLeftmost(s: string, i: nat, needAfter: bool)
    requires IsFirstMatch(s, i, needAfter)
    ensures FindMarker(s, 0, needAfter) == Some(i)
  {
  }

  // ------------------------------------------------ the visual concept

  /** `_extract_visual_concept`: the trimmed text after the line break that
      follows the first qualifying marker, or "" when no marker qualifies. */
  function ExtractVisualConcept(s: string): (r: string)
    ensures NoEdgeSpace(r)
    ensures (forall i: nat :: !Qualifies(s, i, true)) ==> r == ""
    ensures forall i: nat :: IsFirstMatch(s, i, true) ==> r == ConceptAfter(s, i)
  {
    match FindMarker(s, 0, true)
    case None => ""
    case Some(i) =>
      FirstMatchUnique(s, i, true);
      ConceptAfter(s, i)
  }

  /** The `(.+)` group of a match at `i`, trimmed. */
  function ConceptAfter(s: string, i: nat): string
    requires Qualifies(s, i, true)
  {
    Strip(s[BreakAfter(s, i, true).value + 1..])
  }

  /** The pattern matches at `i` and nowhere before. */
  predicate IsFirstMatch(s: string, i: nat, needAfter: bool) {
    Qualifies(s, i, needAfter) && forall j: nat :: j < i ==> !Qualifies(s, j, needAfter)
  }

  lemma FirstMatchUnique(s: string, i: nat, needAfter: bool)
    requires IsFirstMatch(s, i, needAfter)
    ensures forall i': nat :: IsFirstMatch(s, i', needAfter) ==> i' == i
  {
  }

  /** The start of the run of line breaks that ends at `i`. */
  function NewlinesBefore(s: string, i: nat): (j: nat)
    requires i <= |s|
    ensures j <= i
    ensures forall k :: j <= k < i ==> s[k] == '\n'
    ensures j == 0 || s[j - 1] != '\n'
    decreases i
  {
    if i > 0 && s[i - 1] == '\n' then NewlinesBefore(s, i - 1) else i
  }

  /** The first `re.sub` of `_parse_flashcard_response`: cut the text at the
      first marker whose run holds a line break, dropping the line breaks
      right before it; with no such marker the text is kept whole. */
  function RemoveVisualSection(s: string): (r: string)
    ensures |r| <= |s| && r == s[..|r|]
    ensures (forall i: nat :: !Qualifies(s, i, false)) ==> r == s
    ensures forall i: nat :: IsFirstMatch(s, i, false) ==> r == s[..NewlinesBefore(s, i)]
  {
    match FindMarker(s, 0, false)
    case None => s
    case Some(i) =>
      FirstMatchUnique(s, i, false);
      s[..NewlinesBefore(s, i)]
  }

  lemma QualifiesWithoutTail(s: string, i: nat)
    requires Qualifies(s, i, true)
    ensures Qualifies(s, i, false)
  {
    var k := BreakAfter(s, i, true).value;
    assert Usable(s, k, false);
  }

  /** A marker that only the removal accepts has its run reach the end of the text. */
  lemma RunReachesEnd(s: string, i: nat)
    requires Qualifies(s, i, false) && !Qualifies(s, i, true)
    ensures RunEnd(s, i + |Marker|) == |s|
  {
    var k := BreakAfter(s, i, false).value;
    assert !Usable(s, k, true);
  }

  /** Extraction and removal act on the same marker: when a concept is
      found, the content is cut exactly where that concept's marker starts. */
  lemma {:induction false} SameMarker(s: string)
    requires FindMarker(s, 0, true).Some?
    ensures FindMarker(s, 0, false) == FindMarker(s, 0, true)
  {
    var i := FindMarker(s, 0, true).value;
    QualifiesWithoutTail(s, i);
    forall j | 0 <= j < i ensures !Qualifies(s, j, false) {
      if Qualifies(s, j, false) {
        RunReachesEnd(s, j);
        assert false;
      }
    }
    FindMarkerIsLeftmost(s, i, false);
  }

  // ------------------------------------------------ label lines and fences

  predicate IsLabelLine(line: string) {
    StartsWith(line, LabelPrefix)
  }

  /** Rebuilds the text from its lines, leaving out label lines together with
      the line break that ends them. */
  function DropLabelLines(lines: seq<string>): string
    requires |lines| >= 1
  {
    if |lines| == 1 then (if IsLabelLine(lines[0]) then "" else lines[0])
    else (if IsLabelLine(lines[0]) then "" else lines[0] + "\n") + DropLabelLines(lines[1..])
  }

  /** The second `re.sub`: `^Flashcard:.*\n?` under MULTILINE. */
  function RemoveLabelLines(s: string): string {
    DropLabelLines(Split(s, '\n'))
  }

  /** The lines that are not label lines, in order. */
  function Unlabelled(lines: seq<string>): (r: seq<string>)
    ensures forall k :: 0 <= k < |r| ==> !IsLabelLine(r[k])
  {
    if lines == [] then []
    else (if IsLabelLine(lines[0]) then [] else [lines[0]]) + Unlabelled(lines[1..])
  }

  lemma {:induction false} UnlabelledSnoc(lines: seq<string>, x: string)
    ensures Unlabelled(lines + [x]) == Unlabelled(lines) + (if IsLabelLine(x) then [] else [x])
  {
    if lines != [] {
      assert (lines + [x])[1..] == lines[1..] + [x];
      UnlabelledSnoc(lines[1..], x);
    } else {
      assert Unlabelled([x][1..]) == [];
    }
  }

  /** The lines of the result: the non-label lines before the last one, then
      the last line, or an empty line where a last label line stood. */
  lemma {:induction false} DropLabelLinesShape(lines: seq<string>)
    requires |lines| >= 1
    requires forall k :: 0 <= k < |lines| ==> '\n' !in lines[k]
    ensures Split(DropLabelLines(lines), '\n')
            == Unlabelled(lines[..|lines| - 1]) + [LastLineAfterLabels(lines)]
  {
    if |lines| == 1 {
      if !IsLabelLine(lines[0]) { SplitNoSep(lines[0], '\n'); }
      assert lines[..0] == [];
    } else {
      DropLabelLinesShape(lines[1..]);
      DropLabelStep(lines);
    }
  }

  /** One step of `DropLabelLinesShape`: the first line is either dropped or
      becomes the first line of the result. */
  lemma DropLabelStep(lines: seq<string>)
    requires |lines| >= 2
    requires '\n' !in lines[0]
    requires Split(DropLabelLines(lines[1..]), '\n')
             == Unlabelled(lines[1..][..|lines| - 2]) + [LastLineAfterLabels(lines[1..])]
    ensures Split(DropLabelLines(lines), '\n')
            == Unlabelled(lines[..|lines| - 1]) + [LastLineAfterLabels(lines)]
  {
    var n := |lines|;
    var init := lines[..n - 1];
    MiddleSlice(lines);
    var u := Unlabelled(init[1..]);
    var last := LastLineAfterLabels(lines);
    assert LastLineAfterLabels(lines[1..]) == last;
    var tail := Split(DropLabelLines(lines[1..]), '\n');
    assert tail == u + [last];
    assert Unlabelled(init) == (if IsLabelLine(lines[0]) then [] else [lines[0]]) + u;
    if IsLabelLine(lines[0]) {
      assert DropLabelLines(lines) == DropLabelLines(lines[1..]);
      assert Unlabelled(init) == u;
    } else {
      assert DropLabelLines(lines) == lines[0] + "\n" + DropLabelLines(lines[1..]);
      HeadLineKept(lines[0], DropLabelLines(lines[1..]));
      assert Split(DropLabelLines(lines), '\n') == [lines[0]] + tail;
      ConsSnoc(lines[0], u, last);
    }
  }

  lemma MiddleSlice<T>(xs: seq<T>)
    requires |xs| >= 2
    ensures xs[1..][..|xs| - 2] == xs[..|xs| - 1][1..]
  {
  }

  lemma ConsSnoc<T>(a: T, u: seq<T>, l: T)
    ensures [a] + (u + [l]) == [a] + u + [l]
  {
  }

  /** The last line as the label rule leaves it. */
  function LastLineAfterLabels(lines: seq<string>): string
    requires |lines| >= 1
  {
    if IsLabelLine(lines[|lines| - 1]) then "" else lines[|lines| - 1]
  }

  lemma HeadLineKept(line: string, rest: string)
    requires '\n' !in line
    ensures Split(line + "\n" + rest, '\n') == [line] + Split(rest, '\n')
  {
    SplitAppend(line, rest, '\n');
  }

  /** No line of the cleaned text starts with the label. */
  lemma NoLabelLineLeft(s: string)
    ensures forall l :: l in Split(RemoveLabelLines(s), '\n') ==> !IsLabelLine(l)
  {
    DropLabelLinesShape(Split(s, '\n'));
  }

  /** Text without label lines passes through unchanged. */
  lemma {:induction false} NoLabelLineUnchanged(s: string)
    requires forall l :: l in Split(s, '\n') ==> !IsLabelLine(l)
    ensures RemoveLabelLines(s) == s
  {
    var lines := Split(s, '\n');
    DropLabelLinesShape(lines);
    UnlabelledKeepsAll(lines[..|lines| - 1]);
    InitLast(lines);
    JoinSplit(RemoveLabelLines(s), '\n');
    JoinSplit(s, '\n');
  }

  lemma {:induction false} UnlabelledKeepsAll(lines: seq<string>)
    requires forall k :: 0 <= k < |lines| ==> !IsLabelLine(lines[k])
    ensures Unlabelled(lines) == lines
  {
    if lines != [] { UnlabelledKeepsAll(lines[1..]); }
  }

  /** `content.replace('```', '')`. */
  function RemoveFences(s: string): string {
    ReplaceAll(s, Fence, "")
  }

  lemma FenceStartsFrom(u: string)
    ensures |RemoveFences(u)| > 0 && RemoveFences(u)[0] == '`' ==> |u| > 0 && u[0] == '`'
  {
  }

  lemma TwoTicksFrom(u: string)
    ensures StartsWith(RemoveFences(u), "``") ==> StartsWith(u, "``")
  {
    if StartsWith(RemoveFences(u), "``") && !StartsWith(u, Fence) && u != [] {
      assert RemoveFences(u) == [u[0]] + RemoveFences(u[1..]);
      FenceStartsFrom(u[1..]);
    }
  }

  /** Deleting the fences never glues backticks into a new fence. */
  lemma {:induction false} NoFenceLeft(s: string)
    ensures !Contains(RemoveFences(s), Fence)
    decreases |s|
  {
    if StartsWith(s, Fence) {
      assert RemoveFences(s) == RemoveFences(s[|Fence|..]);
      NoFenceLeft(s[|Fence|..]);
    } else if s != [] {
      var r := RemoveFences(s);
      assert r == [s[0]] + RemoveFences(s[1..]);
      NoFenceLeft(s[1..]);
      if StartsWith(r, Fence) {
        assert r[1..3] == RemoveFences(s[1..])[..2];
        assert StartsWith(RemoveFences(s[1..]), "``");
        TwoTicksFrom(s[1..]);
      }
      assert r[1..] == RemoveFences(s[1..]);
    }
  }

  // ------------------------------------------------ echo and frequency lines

  /** The first line repeats the word, ignoring case and surrounding blanks. */
  predicate IsEcho(line: string, word: string) {
    Lower(Strip(line)) == Strip(Lower(word))
  }

  /** `any(keyword in text for keyword in keywords)`. */
  predicate ContainsAny(text: string, keywords: seq<string>) {
    |keywords| > 0 && (Contains(text, keywords[0]) || ContainsAny(text, keywords[1..]))
  }

  /** A trailing familiarity annotation such as "Muito comum" or "[Raro]". */
  predicate IsFrequencyLine(line: string) {
    ContainsAny(Lower(Strip(line)), FrequencyKeywords)
  }

  /** Drops the first line when it echoes the word; never drops anything else. */
  function DropEcho(lines: seq<string>, word: string): (r: seq<string>)
    requires |lines| >= 1
    ensures |lines| - 1 <= |r| <= |lines|
    ensures r == lines[|lines| - |r|..]
    ensures |r| < |lines| <==> IsEcho(lines[0], word)
  {
    if IsEcho(lines[0], word) then lines[1..] else lines
  }

  /** Drops the last line when it is a frequency annotation; nothing else. */
  function DropFrequency(lines: seq<string>): (r: seq<string>)
    ensures |r| <= |lines| <= |r| + 1
    ensures r == lines[..|r|]
    ensures |r| < |lines| <==> |lines| > 0 && IsFrequencyLine(lines[|lines| - 1])
  {
    if |lines| > 0 && IsFrequencyLine(lines[|lines| - 1]) then lines[..|lines| - 1] else lines
  }

  /** Every keyword with "comum" in it is subsumed by "comum": the list
      behaves as "comum" or "raro". */
  lemma FrequencyKeywordsReduce(line: string)
    ensures IsFrequencyLine(line)
            <==> Contains(Lower(Strip(line)), "comum") || Contains(Lower(Strip(line)), "raro")
  {
    KeywordsReduce(Lower(Strip(line)));
  }

  lemma KeywordsReduce(t: string)
    ensures ContainsAny(t, FrequencyKeywords) <==> Contains(t, "comum") || Contains(t, "raro")
  {
    var k0 := FrequencyKeywords;
    var k1 := k0[1..];
    var k2 := k1[1..];
    var k3 := k2[1..];
    assert k0[0] == "muito comum" && k1[0] == "comum" && k2[0] == "pouco comum";
    assert k3[0] == "raro" && k3[1..] == [];
    assert ContainsAny(t, k3) <==> Contains(t, "raro");
    assert ContainsAny(t, k2) <==> Contains(t, "pouco comum") || ContainsAny(t, k3);
    assert ContainsAny(t, k1) <==> Contains(t, "comum") || ContainsAny(t, k2);
    assert ContainsAny(t, k0) <==> Contains(t, "muito comum") || ContainsAny(t, k1);
    if Contains(t, "muito comum") { Subsumes(t, "muito comum"); }
    if Contains(t, "pouco comum") { Subsumes(t, "pouco comum"); }
  }

  lemma Subsumes(t: string, kw: string)
    requires |kw| == 11 && kw[6..] == "comum"
    requires Contains(t, kw)
    ensures Contains(t, "comum")
  {
    var i := ContainsPosition(t, kw);
    assert t[i + 6..i + 11] == kw[6..];
    ContainsAt(t, "comum", i + 6);
  }

  /** The echo test is equality ignoring ASCII case and surrounding
      whitespace, whichever side carries the capitals ("To Deem" echoes
      "to deem"). */
  lemma EchoIgnoresCase(line: string, word: string)
    ensures IsEcho(line, word) <==> Lower(Strip(line)) == Lower(Strip(word))
  {
    LowerStripCommute(word);
  }

  // ------------------------------------------------ the parser

  /** The text before the line split: marker section cut, label lines and
      fences deleted, trimmed after each step. */
  function CleanedText(response: string): (r: string)
    ensures NoEdgeSpace(r)
    ensures !Contains(r, Fence)
  {
    var c1 := Strip(RemoveVisualSection(response));
    var c2 := Strip(RemoveLabelLines(c1));
    var c3 := RemoveFences(c2);
    NoFenceLeft(c2);
    StripNoFence(c3);
    Strip(c3)
  }

  lemma StripNoFence(s: string)
    requires !Contains(s, Fence)
    ensures !Contains(Strip(s), Fence)
  {
    var i := StripIsInfix(s);
    if Contains(Strip(s), Fence) {
      ContainsInInfix(s, i, Strip(s), Fence);
    }
  }

  /** The content lines that survive the echo and frequency rules. */
  function ContentLines(response: string, word: string): seq<string> {
    DropFrequency(DropEcho(Split(CleanedText(response), '\n'), word))
  }

  /** `_parse_flashcard_response`. Total: malformed replies give empty
      fields, never a failure. */
  function ParseFlashcardResponse(response: string, word: string): (r: Flashcard)
    ensures r.word == word
    ensures NoEdgeSpace(r.content) && NoEdgeSpace(r.visualConcept)
    ensures r.visualConcept == ExtractVisualConcept(response)
    ensures r.content == Strip(Join("\n", ContentLines(response, word)))
  {
    Flashcard(word, Strip(Join("\n", ContentLines(response, word))), ExtractVisualConcept(response))
  }

  /** Without a qualifying marker the concept is empty; the content is built
      from the whole reply. */
  lemma NoMarkerNoConcept(response: string, word: string)
    requires forall i :: !Qualifies(response, i, true)
    ensures ParseFlashcardResponse(response, word).visualConcept == ""
    ensures !ValidateResponse(AsDict(ParseFlashcardResponse(response, word)))
  {
    ValidateParsed(ParseFlashcardResponse(response, word));
  }

  /** The content never reaches into the marker section: every character it
      draws on lies before the first qualifying marker. */
  lemma ContentBeforeConcept(response: string)
    requires FindMarker(response, 0, true).Some?
    ensures RemoveVisualSection(response)
            == response[..NewlinesBefore(response, FindMarker(response, 0, true).value)]
  {
    SameMarker(response);
  }

  // ------------------------------------------------ validation

  /** The parsed result as the dictionary the source hands around. */
  function AsDict(f: Flashcard): map<string, string> {
    map["word" := f.word, "content" := f.content, "visual_concept" := f.visualConcept]
  }

  /** Every named field is present and non-empty. */
  predicate AllPresent(response: map<string, string>, fields: seq<string>) {
    |fields| == 0 || (fields[0] in response && response[fields[0]] != "" && AllPresent(response, fields[1..]))
  }

  lemma RequiredFieldsPresent(response: map<string, string>)
    ensures AllPresent(response, RequiredFields)
            <==> && "word" in response && response["word"] != ""
                 && "content" in response && response["content"] != ""
                 && "visual_concept" in response && response["visual_concept"] != ""
  {
    var f0 := RequiredFields;
    var f1 := f0[1..];
    var f2 := f1[1..];
    assert f0[0] == "word" && f1[0] == "content" && f2[0] == "visual_concept" && f2[1..] == [];
    assert AllPresent(response, f2) <==> f2[0] in response && response[f2[0]] != "";
    assert AllPresent(response, f1) <==> f1[0] in response && response[f1[0]] != "" && AllPresent(response, f2);
    assert AllPresent(response, f0) <==> f0[0] in response && response[f0[0]] != "" && AllPresent(response, f1);
  }

  /** `validate_response`. */
  function ValidateResponse(response: map<string, string>): (ok: bool)
    ensures ok <==> && "word" in response && response["word"] != ""
                    && "content" in response && |response["content"]| >= MinContentLength
                    && "visual_concept" in response && |response["visual_concept"]| >= MinConceptLength
  {
    RequiredFieldsPresent(response);
    if !AllPresent(response, RequiredFields) then false
    else if |response["content"]| < MinContentLength then false
    else if |response["visual_concept"]| < MinConceptLength then false
    else true
  }

  /** On a parsed result the gate reduces to three length checks. */
  lemma ValidateParsed(f: Flashcard)
    ensures ValidateResponse(AsDict(f))
            <==> f.word != "" && |f.content| >= MinContentLength && |f.visualConcept| >= MinConceptLength
  {
  }
}
