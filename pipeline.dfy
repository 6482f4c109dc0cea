/**
 * The batch driver: which words are processed, the processed-words cache
 * keyed by the lower-case word, the per-word pipeline (content, image, media
 * upload, two cards) with every external step given as an oracle outcome,
 * the words-file filters, and the loop that counts successes, skips and
 * failures and decides the exit status.
 *
 * The words file is a sequence of lines; what saving the cache writes,
 * printing and the clock are outside the model (the timestamp and whether
 * the save raises are part of the oracle outcome).
 */
module Pipeline {
  import opened Text
  import opened Wrappers
  import ResponseParser
  import AnkiConnect

  /** What the cache remembers about a processed word. */
  datatype Entry = Entry(timestamp: string, cardIds: seq<AnkiConnect.Json>)

  /** What the external steps of `process_word` give back for one word.
      `card`: what `generate_flashcard_content` returns, the model's reply
      parsed by `ResponseParser.ParseFlashcardResponse`; `None` when it raises.
      `imagePath`: what `generate_image` returns, `None` when it raises.
      `mediaAdded`: the answer of `add_media_file`.
      `cardIds`: the list `create_flashcards` returns.
      `timestamp`: the clock reading taken when the cache is updated.
      `saved`: whether `save_cache` completes; `false` when it raises. */
  datatype Outcome = Outcome(
    card: Option<ResponseParser.Flashcard>,
    imagePath: Option<string>,
    mediaAdded: bool,
    cardIds: seq<AnkiConnect.Json>,
    timestamp: string,
    saved: bool)

  // ------------------------------------------------ the cache

  /** `is_processed`: the lower-case word is a key of the cache. */
  predicate IsProcessed(word: string, cache: map<string, Entry>) {
    Lower(word) in cache
  }

  lemma IsProcessedIgnoresCase(w1: string, w2: string, cache: map<string, Entry>)
    requires Lower(w1) == Lower(w2)
    ensures IsProcessed(w1, cache) <==> IsProcessed(w2, cache)
  {
  }

  /** The content step: the fields arrive and pass `validate_response`. */
  predicate ContentValid(o: Outcome) {
    o.card.Some? && ResponseParser.ValidateResponse(ResponseParser.AsDict(o.card.value))
  }

  /** The steps before the cache update go through: valid content, an image
      path that is not empty, the media upload, and exactly two card ids.
      The entry is then written into the cache. */
  predicate Recorded(o: Outcome) {
    ContentValid(o)
    && o.imagePath.Some? && o.imagePath.value != ""
    && o.mediaAdded
    && |o.cardIds| == 2
  }

  /** `process_word` returns true: every step, `save_cache` included, goes
      through. */
  predicate Succeeds(o: Outcome) {
    Recorded(o) && o.saved
  }

  /** The cache after `process_word`: one entry under the lower-case word once
      the cards exist, whether or not saving then succeeds; no change
      otherwise. */
  function AfterProcess(cache: map<string, Entry>, word: string, o: Outcome): map<string, Entry> {
    if Recorded(o) then cache[Lower(word) := Entry(o.timestamp, o.cardIds)] else cache
  }

  /** Only the word's own key can change, it is set only when the cards
      exist, and then it records exactly two card ids. */
  lemma AfterProcessFrame(cache: map<string, Entry>, word: string, o: Outcome)
    ensures forall k :: k != Lower(word) ==>
              (k in AfterProcess(cache, word, o) <==> k in cache)
              && (k in cache ==> AfterProcess(cache, word, o)[k] == cache[k])
    ensures Recorded(o) ==>
              IsProcessed(word, AfterProcess(cache, word, o))
              && |AfterProcess(cache, word, o)[Lower(word)].cardIds| == 2
    ensures !Recorded(o) ==> AfterProcess(cache, word, o) == cache
  {
  }

  /** The cache dictionary, updated in place by `process_word`. */
  class Cache {
    var entries: map<string, Entry>

    constructor(initial: map<string, Entry>)
      ensures entries == initial
    {
      entries := initial;
    }
  }

  /** `process_word`: stops at the first failing step and touches the cache
      only after the cards exist; a failing `save_cache` then makes it return
      false with the entry already in place. */
  method ProcessWord(word: string, o: Outcome, cache: Cache) returns (ok: bool)
    modifies cache
    ensures ok <==> Succeeds(o)
    ensures cache.entries == AfterProcess(old(cache.entries), word, o)
  {
    AfterProcessFrame(cache.entries, word, o);
    if !ContentValid(o) {
      return false;
    }
    if o.imagePath.None? || o.imagePath.value == "" {
      return false;
    }
    if !o.mediaAdded {
      return false;
    }
    if |o.cardIds| != 2 {
      return false;
    }
    cache.entries := cache.entries[Lower(word) := Entry(o.timestamp, o.cardIds)];
    if !o.saved {
      return false;
    }
    return true;
  }

  // ------------------------------------------------ the words file

  /** What one line of the words file contributes: its stripped text, or
      nothing when it is blank. */
  function LineWords(line: string): (r: seq<string>)
    ensures |r| <= 1
    ensures r == [] <==> Blank(line)
    ensures r != [] ==> r[0] == Strip(line) && NoEdgeSpace(r[0])
  {
    var w := Strip(line);
    if w == [] then [] else [w]
  }

  /** `load_words_from_file`: the stripped lines, blank ones left out. */
  function LoadWords(lines: seq<string>): (words: seq<string>)
    ensures |words| <= |lines|
    ensures forall k :: 0 <= k < |words| ==> words[k] != [] && NoEdgeSpace(words[k])
  {
    if lines == [] then []
    else
      var n := |lines| - 1;
      LoadWords(lines[..n]) + LineWords(lines[n])
  }

  /** Loading distributes over the lines of two pieces of a file. */
  lemma {:induction false} LoadWordsAppend(a: seq<string>, b: seq<string>)
    ensures LoadWords(a + b) == LoadWords(a) + LoadWords(b)
    decreases |b|
  {
    if b == [] {
      assert a + b == a;
    } else {
      var n := |b| - 1;
      AppendInit(a, b);
      LoadWordsAppend(a, b[..n]);
      SeqAssoc(LoadWords(a), LoadWords(b[..n]), LineWords(b[n]));
    }
  }

  lemma AppendInit<T>(a: seq<T>, b: seq<T>)
    requires |b| > 0
    ensures (a + b)[..|a + b| - 1] == a + b[..|b| - 1]
    ensures (a + b)[|a + b| - 1] == b[|b| - 1]
  {
  }

  lemma SeqAssoc<T>(x: seq<T>, y: seq<T>, z: seq<T>)
    ensures x + y + z == x + (y + z)
  {
  }

  /** A single line gives its stripped text, or nothing when it is blank. */
  lemma LoadWordsLine(line: string)
    ensures LoadWords([line]) == if Blank(line) then [] else [Strip(line)]
  {
    assert [line][..0] == [];
    assert LoadWords([line]) == LoadWords([]) + LineWords(line);
  }

  /** Whether a word survives the removal of `word`. */
  function KeptWords(w: string, word: string): seq<string> {
    if Lower(w) == Lower(word) then [] else [w]
  }

  /** `remove_word_from_file`'s filter: the words whose lower-case form
      differs from the removed word's, in their original order. */
  function RemoveWord(words: seq<string>, word: string): (kept: seq<string>)
    ensures |kept| <= |words|
    ensures forall k :: 0 <= k < |kept| ==> Lower(kept[k]) != Lower(word) && kept[k] in words
  {
    if words == [] then []
    else
      var n := |words| - 1;
      var rest := RemoveWord(words[..n], word);
      assert forall k :: 0 <= k < |rest| ==> rest[k] in words by {
        forall k | 0 <= k < |rest| ensures rest[k] in words {
          var j :| 0 <= j < n && words[..n][j] == rest[k];
          assert words[j] == rest[k];
        }
      }
      rest + KeptWords(words[n], word)
  }

  /** Every word that is not a case variant of the removed one stays. */
  lemma {:induction false} RemoveWordKeeps(words: seq<string>, word: string, w: string)
    requires w in words && Lower(w) != Lower(word)
    ensures w in RemoveWord(words, word)
  {
    var n := |words| - 1;
    if words[n] != w {
      var j :| 0 <= j < |words| && words[j] == w;
      assert words[..n][j] == w;
      RemoveWordKeeps(words[..n], word, w);
    }
  }

  /** Removal distributes over two pieces of the list. */
  lemma {:induction false} RemoveWordAppend(a: seq<string>, b: seq<string>, word: string)
    ensures RemoveWord(a + b, word) == RemoveWord(a, word) + RemoveWord(b, word)
    decreases |b|
  {
    if b == [] {
      assert a + b == a;
    } else {
      var n := |b| - 1;
      AppendInit(a, b);
      RemoveWordAppend(a, b[..n], word);
      SeqAssoc(RemoveWord(a, word), RemoveWord(b[..n], word), KeptWords(b[n], word));
    }
  }

  /** Words as the file helpers handle them: not empty, no surrounding
      whitespace, no line break inside. */
  predicate IsWordList(words: seq<string>) {
    forall k :: 0 <= k < |words| ==> words[k] != [] && NoEdgeSpace(words[k]) && '\n' !in words[k]
  }

  /** The lines of a file hold no line break, so neither do the loaded words. */
  lemma {:induction false} LoadedWordList(lines: seq<string>)
    requires forall k :: 0 <= k < |lines| ==> '\n' !in lines[k]
    ensures IsWordList(LoadWords(lines))
  {
    if lines != [] {
      var n := |lines| - 1;
      LoadedWordList(lines[..n]);
      assert '\n' !in lines[n];
      StripAvoids(lines[n], '\n');
    }
  }

  lemma StripAvoids(line: string, c: char)
    requires c !in line
    ensures c !in Strip(line)
  {
    var i := StripIsInfix(line);
    var t := Strip(line);
    forall k | 0 <= k < |t| ensures t[k] != c {
      assert t[k] == line[i + k];
    }
  }

  lemma RemovedWordList(words: seq<string>, word: string)
    requires IsWordList(words)
    ensures IsWordList(RemoveWord(words, word))
  {
    var kept := RemoveWord(words, word);
    forall k | 0 <= k < |kept|
      ensures kept[k] != [] && NoEdgeSpace(kept[k]) && '\n' !in kept[k]
    {
      var j :| 0 <= j < |words| && words[j] == kept[k];
    }
  }

  /** The text `remove_word_from_file` writes: every word followed by a line break. */
  function WordsText(words: seq<string>): string {
    if words == [] then [] else words[0] + "\n" + WordsText(words[1..])
  }

  /** The lines of the written text are the words and one empty last line. */
  lemma {:induction false} WordsTextLines(words: seq<string>)
    requires forall k :: 0 <= k < |words| ==> '\n' !in words[k]
    ensures Split(WordsText(words), '\n') == words + [""]
  {
    if words != [] {
      WordsTextLines(words[1..]);
      SplitAppend(words[0], WordsText(words[1..]), '\n');
      assert words == [words[0]] + words[1..];
    }
  }

  lemma {:induction false} LoadWordList(words: seq<string>)
    requires IsWordList(words)
    ensures LoadWords(words) == words
  {
    if words != [] {
      var n := |words| - 1;
      LoadWordList(words[..n]);
      StripOfStripped(words[n]);
      InitLast(words);
    }
  }

  /** Written words read back unchanged. */
  lemma WrittenWordsReload(words: seq<string>)
    requires IsWordList(words)
    ensures LoadWords(Split(WordsText(words), '\n')) == words
  {
    WordsTextLines(words);
    LoadWordsAppend(words, [""]);
    LoadWordsLine("");
    assert LoadWords([""]) == [];
    LoadWordList(words);
    assert LoadWords(words + [""]) == words + [];
  }

  /** `remove_word_from_file` as a whole: the file keeps the loaded words that
      are not case variants of the word, and reading it again gives exactly
      those words. */
  lemma RemoveWordFromFile(lines: seq<string>, word: string)
    requires forall k :: 0 <= k < |lines| ==> '\n' !in lines[k]
    ensures var kept := RemoveWord(LoadWords(lines), word);
            LoadWords(Split(WordsText(kept), '\n')) == kept
  {
    LoadedWordList(lines);
    RemovedWordList(LoadWords(lines), word);
    WrittenWordsReload(RemoveWord(LoadWords(lines), word));
  }

  // ------------------------------------------------ the batch loop

  /** `--word` given with a non-empty value (an empty one is falsy). */
  predicate HasWordArg(wordArg: Option<string>) {
    wordArg.Some? && wordArg.value != ""
  }

  /** The words to process: the `--word` value alone, or the words file. */
  function WordsToProcess(wordArg: Option<string>, fileLines: seq<string>): seq<string> {
    if HasWordArg(wordArg) then [wordArg.value] else LoadWords(fileLines)
  }

  /** The cache the loop starts with: emptied by `--reset-cache`, loaded otherwise. */
  function StartCache(reset: bool, loaded: map<string, Entry>): map<string, Entry> {
    if reset then map[] else loaded
  }

  /** Where a word ends up: exactly one of the three counters. */
  datatype Verdict = Skipped | Succeeded | Failed

  /** The run-wide settings: `--reset-cache`, whether successful words leave
      the words file (no `--word`), and the starting cache. */
  datatype Setup = Setup(reset: bool, removeFromFile: bool, start: map<string, Entry>)

  /** What the loop has produced so far. */
  datatype Tally = Tally(cache: map<string, Entry>, verdicts: seq<Verdict>, removed: seq<string>)

  /** The verdict for one word against the cache as it stands. */
  function Judge(cache: map<string, Entry>, word: string, o: Outcome, reset: bool): Verdict {
    if IsProcessed(word, cache) && !reset then Skipped
    else if Succeeds(o) then Succeeded
    else Failed
  }

  /** One iteration of the loop. */
  function StepTally(t: Tally, word: string, o: Outcome, s: Setup): Tally {
    var v := Judge(t.cache, word, o, s.reset);
    Tally(if v == Skipped then t.cache else AfterProcess(t.cache, word, o),
          t.verdicts + [v],
          t.removed + (if v == Succeeded && s.removeFromFile then [word] else []))
  }

  /** Reference definition of the loop over `words`, word `i` meeting outcome `i`. */
  function RunWords(words: seq<string>, outcomes: seq<Outcome>, s: Setup): (t: Tally)
    requires |outcomes| == |words|
    ensures |t.verdicts| == |words|
    decreases |words|
  {
    if words == [] then Tally(s.start, [], [])
    else
      var n := |words| - 1;
      StepTally(RunWords(words[..n], outcomes[..n], s), words[n], outcomes[n], s)
  }

  /** How many verdicts equal `v`. */
  function Count(vs: seq<Verdict>, v: Verdict): (c: nat)
    ensures c <= |vs|
  {
    if vs == [] then 0 else Count(vs[..|vs| - 1], v) + (if vs[|vs| - 1] == v then 1 else 0)
  }

  lemma CountSnoc(vs: seq<Verdict>, x: Verdict, v: Verdict)
    ensures Count(vs + [x], v) == Count(vs, v) + (if x == v then 1 else 0)
  {
    assert (vs + [x])[..|vs|] == vs;
  }

  /** Every verdict is counted exactly once. */
  lemma {:induction false} CountsAddUp(vs: seq<Verdict>)
    ensures Count(vs, Succeeded) + Count(vs, Skipped) + Count(vs, Failed) == |vs|
  {
    if vs != [] {
      CountsAddUp(vs[..|vs| - 1]);
    }
  }

  lemma PrefixOfPrefix<T>(xs: seq<T>, n: nat, i: nat)
    requires i <= n <= |xs|
    ensures xs[..n][..i] == xs[..i]
  {
  }

  lemma SnocPrefix<T>(xs: seq<T>, x: T)
    ensures (xs + [x])[..|xs|] == xs && (xs + [x])[|xs|] == x
  {
  }

  /** The loop after `i + 1` words is one step after the loop after `i` words. */
  lemma RunStep(words: seq<string>, outcomes: seq<Outcome>, s: Setup, i: nat)
    requires |outcomes| == |words| && i < |words|
    ensures RunWords(words[..i + 1], outcomes[..i + 1], s)
            == StepTally(RunWords(words[..i], outcomes[..i], s), words[i], outcomes[i], s)
  {
    PrefixOfPrefix(words, i + 1, i);
    PrefixOfPrefix(outcomes, i + 1, i);
  }

  /** Running on a prefix gives a prefix of the verdicts. */
  lemma {:induction false} RunPrefix(words: seq<string>, outcomes: seq<Outcome>, s: Setup, i: nat)
    requires |outcomes| == |words| && i <= |words|
    ensures RunWords(words[..i], outcomes[..i], s).verdicts == RunWords(words, outcomes, s).verdicts[..i]
    decreases |words|
  {
    if i == |words| {
      assert words[..i] == words && outcomes[..i] == outcomes;
    } else {
      var n := |words| - 1;
      RunPrefix(words[..n], outcomes[..n], s, i);
      PrefixOfPrefix(words, n, i);
      PrefixOfPrefix(outcomes, n, i);
      var before := RunWords(words[..n], outcomes[..n], s).verdicts;
      var v := Judge(RunWords(words[..n], outcomes[..n], s).cache, words[n], outcomes[n], s.reset);
      assert RunWords(words, outcomes, s).verdicts == before + [v];
      SnocPrefix(before, v);
      PrefixOfPrefix(before + [v], n, i);
    }
  }

  /** Word `i`'s verdict is judged against the cache the first `i` words left. */
  lemma VerdictAt(words: seq<string>, outcomes: seq<Outcome>, s: Setup, i: nat)
    requires |outcomes| == |words| && i < |words|
    ensures RunWords(words, outcomes, s).verdicts[i]
            == Judge(RunWords(words[..i], outcomes[..i], s).cache, words[i], outcomes[i], s.reset)
  {
    RunStep(words, outcomes, s, i);
    RunPrefix(words, outcomes, s, i + 1);
    var before := RunWords(words[..i], outcomes[..i], s).verdicts;
    SnocPrefix(before, Judge(RunWords(words[..i], outcomes[..i], s).cache, words[i], outcomes[i], s.reset));
  }

  /** A verdict says what happened: a skipped word was already in the cache
      and the cache was kept; otherwise the pipeline's steps decide. */
  lemma VerdictMeaning(words: seq<string>, outcomes: seq<Outcome>, s: Setup, i: nat)
    requires |outcomes| == |words| && i < |words|
    ensures var v := RunWords(words, outcomes, s).verdicts[i];
            var cache := RunWords(words[..i], outcomes[..i], s).cache;
            && (v == Skipped <==> !s.reset && IsProcessed(words[i], cache))
            && (v == Succeeded <==> !(!s.reset && IsProcessed(words[i], cache)) && Succeeds(outcomes[i]))
  {
    VerdictAt(words, outcomes, s, i);
  }

  /** With `--reset-cache` no word is skipped. */
  lemma {:induction false} ResetNeverSkips(words: seq<string>, outcomes: seq<Outcome>, s: Setup)
    requires |outcomes| == |words| && s.reset
    ensures Count(RunWords(words, outcomes, s).verdicts, Skipped) == 0
    decreases |words|
  {
    if words != [] {
      var n := |words| - 1;
      ResetNeverSkips(words[..n], outcomes[..n], s);
      var t := RunWords(words[..n], outcomes[..n], s);
      CountSnoc(t.verdicts, Judge(t.cache, words[n], outcomes[n], s.reset), Skipped);
    }
  }

  /** Keys never leave the cache during a run. */
  lemma {:induction false} CacheGrows(words: seq<string>, outcomes: seq<Outcome>, s: Setup, i: nat, j: nat)
    requires |outcomes| == |words| && i <= j <= |words|
    ensures RunWords(words[..i], outcomes[..i], s).cache.Keys <= RunWords(words[..j], outcomes[..j], s).cache.Keys
    decreases j
  {
    if i < j {
      var k := j - 1;
      CacheGrows(words, outcomes, s, i, k);
      var prev := RunWords(words[..k], outcomes[..k], s);
      RunStep(words, outcomes, s, k);
      StepKeepsKeys(prev, words[k], outcomes[k], s);
    }
  }

  lemma StepKeepsKeys(t: Tally, word: string, o: Outcome, s: Setup)
    ensures t.cache.Keys <= StepTally(t, word, o, s).cache.Keys
  {
    AfterProcessFrame(t.cache, word, o);
  }

  /** A word that was processed and got its cards is in the cache from then
      on. */
  lemma RecordedIsCached(words: seq<string>, outcomes: seq<Outcome>, s: Setup, i: nat, j: nat)
    requires |outcomes| == |words| && i < j <= |words|
    requires RunWords(words, outcomes, s).verdicts[i] != Skipped && Recorded(outcomes[i])
    ensures IsProcessed(words[i], RunWords(words[..j], outcomes[..j], s).cache)
  {
    VerdictAt(words, outcomes, s, i);
    RunStep(words, outcomes, s, i);
    var t := RunWords(words[..i], outcomes[..i], s);
    AfterProcessFrame(t.cache, words[i], outcomes[i]);
    CacheGrows(words, outcomes, s, i + 1, j);
  }

  /** A word that succeeded is in the cache from then on. */
  lemma SuccessIsCached(words: seq<string>, outcomes: seq<Outcome>, s: Setup, i: nat, j: nat)
    requires |outcomes| == |words| && i < j <= |words|
    requires RunWords(words, outcomes, s).verdicts[i] == Succeeded
    ensures IsProcessed(words[i], RunWords(words[..j], outcomes[..j], s).cache)
  {
    VerdictAt(words, outcomes, s, i);
    RecordedIsCached(words, outcomes, s, i, j);
  }

  /** A word whose cards were created but whose cache could not be saved is
      counted as a failure, stays in the words file, and is in the cache for
      the rest of the run all the same. */
  lemma UnsavedFailureCached(words: seq<string>, outcomes: seq<Outcome>, s: Setup, i: nat)
    requires |outcomes| == |words| && i < |words|
    requires RunWords(words, outcomes, s).verdicts[i] != Skipped
    requires Recorded(outcomes[i]) && !outcomes[i].saved
    ensures RunWords(words, outcomes, s).verdicts[i] == Failed
    ensures IsProcessed(words[i], RunWords(words[..i + 1], outcomes[..i + 1], s).cache)
  {
    VerdictAt(words, outcomes, s, i);
    RecordedIsCached(words, outcomes, s, i, i + 1);
  }

  /** Without `--reset-cache`, a later case variant of a word that got its
      cards earlier in the same run is skipped, even when that word counted
      as a failure because saving the cache failed. */
  lemma LaterVariantSkipped(words: seq<string>, outcomes: seq<Outcome>, s: Setup, i: nat, j: nat)
    requires |outcomes| == |words| && i < j < |words|
    requires !s.reset
    requires RunWords(words, outcomes, s).verdicts[i] != Skipped && Recorded(outcomes[i])
    requires Lower(words[j]) == Lower(words[i])
    ensures RunWords(words, outcomes, s).verdicts[j] == Skipped
  {
    RecordedIsCached(words, outcomes, s, i, j);
    VerdictAt(words, outcomes, s, j);
  }

  /** The successful words, in order. */
  function Successes(words: seq<string>, verdicts: seq<Verdict>): seq<string>
    requires |verdicts| == |words|
  {
    if words == [] then []
    else
      var n := |words| - 1;
      Successes(words[..n], verdicts[..n]) + (if verdicts[n] == Succeeded then [words[n]] else [])
  }

  /** Words leave the file exactly when they succeed, and only without `--word`. */
  lemma {:induction false} RemovedWords(words: seq<string>, outcomes: seq<Outcome>, s: Setup)
    requires |outcomes| == |words|
    ensures var t := RunWords(words, outcomes, s);
            t.removed == if s.removeFromFile then Successes(words, t.verdicts) else []
    decreases |words|
  {
    if words != [] {
      var n := |words| - 1;
      RemovedWords(words[..n], outcomes[..n], s);
      var t := RunWords(words[..n], outcomes[..n], s);
      SnocPrefix(t.verdicts, Judge(t.cache, words[n], outcomes[n], s.reset));
    }
  }

  /** The loop's variables agree with the reference run over the first `i` words. */
  predicate Tracks(words: seq<string>, outcomes: seq<Outcome>, s: Setup, i: nat,
                   cache: map<string, Entry>, removed: seq<string>, success: nat, skip: nat, fail: nat)
    requires |outcomes| == |words| && i <= |words|
  {
    var t := RunWords(words[..i], outcomes[..i], s);
    && cache == t.cache && removed == t.removed
    && success == Count(t.verdicts, Succeeded)
    && skip == Count(t.verdicts, Skipped)
    && fail == Count(t.verdicts, Failed)
  }

  /** One iteration keeps the loop's variables in step with the reference run. */
  lemma BatchStep(words: seq<string>, outcomes: seq<Outcome>, s: Setup, i: nat,
                  cache: map<string, Entry>, removed: seq<string>, success: nat, skip: nat, fail: nat)
    requires |outcomes| == |words| && i < |words|
    requires Tracks(words, outcomes, s, i, cache, removed, success, skip, fail)
    ensures var v := Judge(cache, words[i], outcomes[i], s.reset);
            Tracks(words, outcomes, s, i + 1,
                   if v == Skipped then cache else AfterProcess(cache, words[i], outcomes[i]),
                   removed + (if v == Succeeded && s.removeFromFile then [words[i]] else []),
                   success + (if v == Succeeded then 1 else 0),
                   skip + (if v == Skipped then 1 else 0),
                   fail + (if v == Failed then 1 else 0))
  {
    var t := RunWords(words[..i], outcomes[..i], s);
    RunStep(words, outcomes, s, i);
    var v := Judge(cache, words[i], outcomes[i], s.reset);
    CountSnoc(t.verdicts, v, Succeeded);
    CountSnoc(t.verdicts, v, Skipped);
    CountSnoc(t.verdicts, v, Failed);
  }

  lemma WholePrefix<T>(xs: seq<T>)
    ensures xs[..|xs|] == xs
  {
  }

  /** The loop of `main` over the words: each word is skipped when the cache
      already has it and the cache was not reset, otherwise processed; a
      success is removed from the words file unless `--word` was given. */
  method ProcessWords(words: seq<string>, outcomes: seq<Outcome>, s: Setup)
    returns (success: nat, skip: nat, fail: nat, removed: seq<string>, cache: map<string, Entry>)
    requires |outcomes| == |words|
    ensures var t := RunWords(words, outcomes, s);
            && success == Count(t.verdicts, Succeeded)
            && skip == Count(t.verdicts, Skipped)
            && fail == Count(t.verdicts, Failed)
            && removed == t.removed
            && cache == t.cache
    ensures success + skip + fail == |words|
  {
    var c := new Cache(s.start);
    success, skip, fail, removed := 0, 0, 0, [];
    for i := 0 to |words|
      invariant Tracks(words, outcomes, s, i, c.entries, removed, success, skip, fail)
    {
      var word := words[i];
      BatchStep(words, outcomes, s, i, c.entries, removed, success, skip, fail);
      if IsProcessed(word, c.entries) && !s.reset {
        skip := skip + 1;
      } else {
        var ok := ProcessWord(word, outcomes[i], c);
        if ok {
          success := success + 1;
          if s.removeFromFile {
            removed := removed + [word];
          }
        } else {
          fail := fail + 1;
        }
      }
    }
    WholePrefix(words);
    WholePrefix(outcomes);
    CountsAddUp(RunWords(words, outcomes, s).verdicts);
    cache := c.entries;
  }

  /** `main` from the arguments on: the words to process, the starting cache,
      the loop, and an exit status that is 1 exactly when some word failed. */
  method RunBatch(wordArg: Option<string>, fileLines: seq<string>, reset: bool,
                  loaded: map<string, Entry>, outcomes: seq<Outcome>)
    returns (success: nat, skip: nat, fail: nat, status: int, removed: seq<string>, cache: map<string, Entry>)
    requires |outcomes| == |WordsToProcess(wordArg, fileLines)|
    ensures var words := WordsToProcess(wordArg, fileLines);
            var t := RunWords(words, outcomes, Setup(reset, !HasWordArg(wordArg), StartCache(reset, loaded)));
            && success == Count(t.verdicts, Succeeded)
            && skip == Count(t.verdicts, Skipped)
            && fail == Count(t.verdicts, Failed)
            && removed == t.removed
            && cache == t.cache
    ensures success + skip + fail == |WordsToProcess(wordArg, fileLines)|
    ensures status == 1 <==> fail > 0
    ensures status == 0 || status == 1
  {
    var words := WordsToProcess(wordArg, fileLines);
    var s := Setup(reset, !HasWordArg(wordArg), StartCache(reset, loaded));
    success, skip, fail, removed, cache := ProcessWords(words, outcomes, s);
    status := if fail > 0 then 1 else 0;
  }
}
