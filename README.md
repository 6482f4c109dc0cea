# Anki flashcard automation: a verified model

The system turns English words into pairs of Anki flashcards:

- It asks a text generator for a study text about the word.
- It parses the reply into three fields: `word`, `content` and `visual_concept`.
- It rejects replies that are too thin.
- It fetches an illustration for the visual concept from Pollinations.ai.
- It renders two cards as HTML: image → word and word → image.
- It posts both cards to AnkiConnect.
- It records each word it finished in a cache, keyed by the word's lower-case form.
- In batch mode it removes each finished word from the words file.

This project models that core in Dafny, one module per source file:

| module | file | source |
|---|---|---|
| `Text` | `text.dfy` | the Python `str` operations the core relies on: `strip`, `lower`, `split`, `join`, `replace`, `in` |
| `ResponseParser` | `response_parser.dfy` | `modules/llm_provider.py`: prompt, reply parsing, validation |
| `CardFormatter` | `card_formatter.dfy` | `modules/card_formatter.py`: the HTML of both cards |
| `AnkiConnect` | `anki_connector.dfy` | `modules/anki_connector.py`: request bodies, reply checking, the field-name cache, card creation |
| `ImageNaming` | `image_naming.dfy` | `modules/image_provider.py`: file names, image paths, the image URL, the no-text instruction |
| `Pipeline` | `pipeline.dfy` | `main.py`: the processed-word cache, `process_word`, the words file, the batch loop and its counters |

The parser and the formatter are pure, so they are functions with lemmas. Two exceptions are imperative, as in the source, and are methods proved against a reference function:

- `_format_content` is a loop that collects blocks. `FormatContent` is proved equal to `ContentHtml`.
- `format_back` builds a list of parts. `FormatBack` is proved equal to `BackHtml`.

`AnkiConnector` keeps a field-name cache that it updates in place, so it is a class. Its methods take the replies of AnkiConnect as parameters. It keeps a ghost log of the requests it posted.

The batch loop of `main` is the method `Pipeline.ProcessWords`. It is proved against the reference definition `RunWords`. The cache that `process_word` changes in place is the class `Pipeline.Cache`.

Where the text regexes of the parser are involved, each one is written as an explicit scan:

- `FindMarker` finds the leftmost match.
- `LastUsable` models the backtracking of the greedy `[:\s]*` run.
- `NewlinesBefore` models the `\n*` prefix of the removal pattern.

Where the code and the prose description of the system differ, the model follows the code:

- The section marker is `CONCEITO VISUAL`, and the frequency keywords are Portuguese (`muito comum`, `comum`, `pouco comum`, `raro`).
- The `Flashcard:` pattern is applied with `re.MULTILINE`, so every line that starts with the label is removed, not only a leading one (`ResponseParser.NoLabelLineLeft`).
- The removal pattern `\n*CONCEITO VISUAL[:\s]*\n.*` needs a line break after the marker. A marker with nothing but `:` and spaces after it, up to the end of the text, is left in `content` (`ResponseParser.RunReachesEnd`).
- The text is stripped after every cleaning step, not only at the end.

## Model

| member | source | states |
|---|---|---|
| Text.TrimStart | modules/card_formatter.py:101 | the result is a suffix of the input that does not start with whitespace |
| Text.TrimStartDropsSpaces | modules/card_formatter.py:101 | everything `lstrip` removes is whitespace |
| Text.TrimEnd | modules/card_formatter.py:101 | the result is a prefix of the input that does not end with whitespace |
| Text.TrimEndDropsSpaces | modules/card_formatter.py:101 | everything `rstrip` removes is whitespace |
| Text.Strip | modules/card_formatter.py:101 | the stripped text has no whitespace at either end and is no longer than the input |
| Text.StripEmpty | modules/card_formatter.py:91-94 | a line strips to nothing exactly when it is all whitespace (the blank-line test) |
| Text.StripOfStripped | modules/llm_provider.py:105 | stripping is the identity on text with no edge whitespace |
| Text.StripIsInfix | modules/llm_provider.py:105 | the stripped text is a contiguous piece of the input |
| Text.Lower | modules/llm_provider.py:117 | `lower` keeps the length and maps each character on its own |
| Text.LowerIdempotent | main.py:104 | lower-casing twice equals lower-casing once |
| Text.LowerOfLower | modules/image_provider.py:145 | text without upper-case letters is unchanged by `lower` |
| Text.ContainsAt | modules/llm_provider.py:127 | a piece found at a position counts as contained |
| Text.ContainsPosition | modules/llm_provider.py:127 | a contained piece occurs at some position |
| Text.ContainsInInfix | modules/llm_provider.py:127 | a piece contained in a slice is contained in the whole text |
| Text.Split | modules/card_formatter.py:88 | `split` gives at least one piece, and no piece holds the separator |
| Text.JoinSnoc | modules/card_formatter.py:117 | joining one more item appends the separator and that item |
| Text.JoinSplit | modules/llm_provider.py:114-130 | joining the pieces of a split with the separator gives back the text |
| Text.SplitJoin | main.py:233-235 | splitting a join of separator-free pieces gives back the pieces |
| Text.SplitNoSep | modules/card_formatter.py:88 | text without the separator splits into itself alone |
| Text.SplitAppend | modules/card_formatter.py:88 | the first piece of a split ends at the first separator |
| Text.ReplaceCharConcat | modules/card_formatter.py:131-132 | replacing one character distributes over concatenation |
| Text.ReplaceCharAbsent | modules/card_formatter.py:131-132 | replacing a character that does not occur changes nothing |
| Text.ReplaceCharPointwise | modules/image_provider.py:146 | replacing one character by another keeps the length and changes exactly the matching positions |
| Text.LowerKeepsSpace | modules/image_provider.py:145 | lower-casing neither makes nor removes whitespace |
| Text.LowerTrimStart | modules/llm_provider.py:117-119 | lower-casing commutes with `lstrip` |
| Text.LowerTrimEnd | modules/llm_provider.py:117-119 | lower-casing commutes with `rstrip` |
| Text.LowerStripCommute | modules/llm_provider.py:116-119 | lower-casing commutes with `strip` |
| ResponseParser.BuildPrompt | modules/llm_provider.py:60 | the prompt starts with the template, and the word can be read back from it |
| ResponseParser.BuildPromptInjective | modules/llm_provider.py:60 | two words give the same prompt on one template only when they are equal |
| ResponseParser.RunEnd | modules/llm_provider.py:150 | the `[:\s]*` run is maximal: all run characters up to its end, none at its end |
| ResponseParser.LastUsable | modules/llm_provider.py:150 | the greedy run backs off to the last line break that the rest of the pattern accepts, or to none |
| ResponseParser.FindMarker | modules/llm_provider.py:149-153 | the leftmost position where the pattern matches, or none when no position matches |
| ResponseParser.NoRoomForMarker | modules/llm_provider.py:149-153 | no match can start too close to the end for the marker to fit |
| ResponseParser.FindMarkerIsLeftmost | modules/llm_provider.py:149-153 | the scan finds exactly the leftmost match |
| ResponseParser.ExtractVisualConcept | modules/llm_provider.py:149-159 | no match gives `""`; otherwise it is the stripped text after the line break the first match uses |
| ResponseParser.FirstMatchUnique | modules/llm_provider.py:149-153 | the leftmost match is unique |
| ResponseParser.NewlinesBefore | modules/llm_provider.py:101 | the `\n*` prefix spans the maximal run of line breaks just before the marker |
| ResponseParser.RemoveVisualSection | modules/llm_provider.py:100-104 | the result is a prefix of the reply; with no match it is the whole reply; otherwise it ends before the line breaks in front of the first marker |
| ResponseParser.QualifiesWithoutTail | modules/llm_provider.py:100-104 | a marker the extraction pattern accepts is also accepted by the removal pattern |
| ResponseParser.RunReachesEnd | modules/llm_provider.py:100-104 | a marker accepted only by the removal pattern has its run reaching the end of the text |
| ResponseParser.SameMarker | modules/llm_provider.py:97-104 | when a concept is found, removal starts at the same marker |
| ResponseParser.Unlabelled | modules/llm_provider.py:108 | no label line is kept |
| ResponseParser.UnlabelledSnoc | modules/llm_provider.py:108 | label filtering works line by line |
| ResponseParser.DropLabelLinesShape | modules/llm_provider.py:108 | the lines left after the substitution are the unlabelled lines, followed by the last line |
| ResponseParser.HeadLineKept | modules/llm_provider.py:108 | a kept first line stays the first line of the result |
| ResponseParser.NoLabelLineLeft | modules/llm_provider.py:108 | no line of the result starts with `Flashcard:` |
| ResponseParser.NoLabelLineUnchanged | modules/llm_provider.py:108 | text with no label line is unchanged |
| ResponseParser.UnlabelledKeepsAll | modules/llm_provider.py:108 | filtering keeps every line when none is a label line |
| ResponseParser.RemoveLabelLines | modules/llm_provider.py:108 | the `^Flashcard:.*\n?` substitution on the lines of the text; `NoLabelLineLeft` and `NoLabelLineUnchanged` state that no label line is left and that label-free text is unchanged |
| ResponseParser.RemoveFences | modules/llm_provider.py:111 | `replace('```', '')`; `NoFenceLeft` states that no fence is left |
| ResponseParser.FenceStartsFrom | modules/llm_provider.py:111 | removing fences never makes a leading backtick |
| ResponseParser.TwoTicksFrom | modules/llm_provider.py:111 | removing fences never makes a leading double backtick |
| ResponseParser.NoFenceLeft | modules/llm_provider.py:111 | after the replacement no triple backtick is left anywhere |
| ResponseParser.DropEcho | modules/llm_provider.py:114-120 | the first line is dropped exactly when it echoes the word, ignoring case and edge spaces; nothing else is dropped |
| ResponseParser.DropFrequency | modules/llm_provider.py:124-128 | the last line is dropped exactly when it holds a familiarity keyword; nothing else is dropped |
| ResponseParser.FrequencyKeywordsReduce | modules/llm_provider.py:126-127 | a line holds a familiarity keyword exactly when it holds `comum` or `raro` |
| ResponseParser.KeywordsReduce | modules/llm_provider.py:126-127 | the four keywords reduce to `comum` and `raro` |
| ResponseParser.Subsumes | modules/llm_provider.py:126 | a text that holds `muito comum` or `pouco comum` holds `comum` |
| ResponseParser.EchoIgnoresCase | modules/llm_provider.py:116-119 | the echo test compares the stripped lower-case forms of line and word |
| ResponseParser.IsEcho | modules/llm_provider.py:116-119 | the first line, stripped and lower-cased, equals the word lower-cased and stripped; `EchoIgnoresCase` states it as a comparison of the two stripped lower-case forms |
| ResponseParser.IsFrequencyLine | modules/llm_provider.py:124-127 | the stripped, lower-cased last line holds one of the four keywords; `FrequencyKeywordsReduce` states it as holding `comum` or `raro` |
| ResponseParser.ContentLines | modules/llm_provider.py:113-128 | the lines of the cleaned text without the echo line and the familiarity line; `DropEcho` and `DropFrequency` state exactly which lines go |
| ResponseParser.CleanedText | modules/llm_provider.py:100-111 | the cleaned text has no edge whitespace and no code fence |
| ResponseParser.StripNoFence | modules/llm_provider.py:111 | stripping cannot create a code fence |
| ResponseParser.ParseFlashcardResponse | modules/llm_provider.py:85-136 | the word is passed through; the concept is the extracted one; the content is the stripped join of the kept lines; neither has edge whitespace |
| ResponseParser.NoMarkerNoConcept | modules/llm_provider.py:155-159 | a reply without a usable marker has an empty concept and fails validation |
| ResponseParser.ContentBeforeConcept | modules/llm_provider.py:100-104 | with a marker, the content source ends before the first marker's preceding line breaks |
| ResponseParser.RequiredFieldsPresent | modules/llm_provider.py:171-175 | the field loop passes exactly when all three fields are present and non-empty |
| ResponseParser.ValidateResponse | modules/llm_provider.py:161-185 | valid exactly when the word is present and non-empty, the content has at least 50 characters and the concept at least 20 |
| ResponseParser.ValidateParsed | modules/llm_provider.py:161-185 | on a parsed flashcard, validity is a condition on the three fields |
| CardFormatter.FormatFrontImage | modules/card_formatter.py:11-21 | the image tag wraps the file name between fixed opening and closing text |
| CardFormatter.FormatFrontWord | modules/card_formatter.py:23-33 | the styled span wraps the word between fixed opening and closing text |
| CardFormatter.FrontsInjective | modules/card_formatter.py:11-33 | different file names give different image fronts, and different words give different word fronts |
| CardFormatter.EscapeEach | modules/card_formatter.py:119-134 | the escaped text holds no angle bracket |
| CardFormatter.EscapeHtml | modules/card_formatter.py:119-134 | the two `replace` passes equal the character-wise reference `EscapeEach`, so no angle bracket is left |
| CardFormatter.EscapeIsCharwise | modules/card_formatter.py:131-132 | the `<` pass followed by the `>` pass escapes character by character, as `EscapeEach` does |
| CardFormatter.EscapeKeepsPlainText | modules/card_formatter.py:131-134 | text without angle brackets is unchanged |
| CardFormatter.Cell | modules/card_formatter.py:101-105 | a line contributes nothing exactly when it is blank, and never an angle bracket |
| CardFormatter.Cells | modules/card_formatter.py:100-105 | one cell per line |
| CardFormatter.CellAt | modules/card_formatter.py:100-105 | cell i belongs to line i |
| CardFormatter.CellsAppend | modules/card_formatter.py:100-105 | cells distribute over concatenation of lines |
| CardFormatter.AllBlankCells | modules/card_formatter.py:91-105 | all lines are blank exactly when all cells are empty |
| CardFormatter.LayoutEmpty | modules/card_formatter.py:97-117 | the layout is empty exactly when every cell is |
| CardFormatter.LayoutEmptySuffix | modules/card_formatter.py:93-94 | a trailing blank line changes nothing |
| CardFormatter.LayoutEmptyPrefix | modules/card_formatter.py:91-92 | leading blank lines change nothing |
| CardFormatter.LayoutAppend | modules/card_formatter.py:97-117 | the layout of two non-blank parts is their layouts joined by `<br>` or by `<br><br>` when a blank line lies between them |
| CardFormatter.LayoutSnoc | modules/card_formatter.py:100-105 | one more content line extends the layout by a separator and its cell |
| CardFormatter.ReflowAppend | modules/card_formatter.py:97-117 | reflowing two texts joins them with `<br><br>` when a blank line separates them and with `<br>` otherwise |
| CardFormatter.OnlyBreakTagsConcat | modules/card_formatter.py:117 | concatenation keeps "the only tags are `<br>`" |
| CardFormatter.SeparatorsAreTags | modules/card_formatter.py:109-117 | both separators consist of `<br>` tags |
| CardFormatter.LayoutShape | modules/card_formatter.py:97-117 | the only tags in the layout are `<br>`, and it neither starts nor ends with one |
| CardFormatter.ReflowShape | modules/card_formatter.py:77-117 | the same for the reflow of any lines |
| CardFormatter.BlankContent | modules/card_formatter.py:88-117 | the content HTML is empty exactly when the content is all whitespace |
| CardFormatter.AllSpaceJoin | modules/card_formatter.py:88 | text is all whitespace exactly when every line is blank |
| CardFormatter.DropFirstBlank | modules/card_formatter.py:91-92 | dropping a leading blank line does not change the result |
| CardFormatter.DropLastBlank | modules/card_formatter.py:93-94 | dropping a trailing blank line does not change the result |
| CardFormatter.StartBlock | modules/card_formatter.py:102-105 | a first content line after a gap starts a new block behind `<br><br>` |
| CardFormatter.GrowOpenBlock | modules/card_formatter.py:102-105 | a content line extends the open block behind `<br>` |
| CardFormatter.LineStep | modules/card_formatter.py:100-110 | each line keeps the blocks collected so far equal to the layout of the lines seen |
| CardFormatter.CloseLast | modules/card_formatter.py:113-117 | closing the last block and joining gives the layout of all lines |
| CardFormatter.FormatContent | modules/card_formatter.py:77-117 | the block-collecting loop returns the reference reflow `ContentHtml` of the content |
| CardFormatter.FormatBack | modules/card_formatter.py:35-75 | the back is `BackHtml`: image, `<br>`, content, or word span, `<br><br>`, content |
| CardFormatter.BackLayouts | modules/card_formatter.py:64-73 | the image back does not depend on the word, the word back does not depend on the file name, and the two backs always differ |
| CardFormatter.FrontTagNames | modules/card_formatter.py:21-33 | the image front is an `img` tag and the word front a `span` tag |
| CardFormatter.FormatCompleteCard | modules/card_formatter.py:136-164 | `image_to_word` gives the image front with the word back; any other type gives the word front with the image back |
| AnkiConnect.Payload | modules/anki_connector.py:210-214 | the body has exactly `action`, `version` 6 and `params` |
| AnkiConnect.CheckReply | modules/anki_connector.py:216-229 | a reply is accepted exactly when it is an object of two members whose `error` is null or absent; the result is its `result`, or null |
| AnkiConnect.ReplyRoundTrip | modules/anki_connector.py:223-229 | a success reply yields its result and an error reply fails |
| AnkiConnect.NextFieldNames | modules/anki_connector.py:47-54 | the cache after `get_model_field_names`; `CacheIsOneShot` states that a set cache is kept and a failed query stores the defaults |
| AnkiConnect.CacheIsOneShot | modules/anki_connector.py:47-54 | a set cache is never changed, a failed query sets the defaults, and a second query after a set cache changes nothing |
| AnkiConnect.FieldNamesFor | modules/anki_connector.py:127-129 | the first two names are used, `Frente` and `Verso` fill in for missing ones, an empty list or object gives both defaults, and null, a number or a boolean fails |
| AnkiConnect.FallbackFieldNames | modules/anki_connector.py:50-52 | the fallback list gives the fields `Frente` and `Verso` |
| AnkiConnect.TagList | modules/anki_connector.py:138 | the tags are sent in order as strings |
| AnkiConnect.BuildNote | modules/anki_connector.py:131-142 | the note has the deck, the model, the two fields, the tags and `allowDuplicate` false |
| AnkiConnect.AddNotePayload | modules/anki_connector.py:131-144 | the `addNote` body carries exactly that note under version 6 |
| AnkiConnect.FieldNamesPayload | modules/anki_connector.py:49 | the `modelFieldNames` body names the card model |
| AnkiConnect.CardId | modules/anki_connector.py:125-149 | the card id is null when the field names or the `addNote` call fail, and the call's result otherwise |
| AnkiConnect.CardRequests | modules/anki_connector.py:106-149 | the requests one `create_card` posts: `modelFieldNames` only while the cache is unset, then `addNote` only when field names are known; `CreateCard` states the log grows by exactly these |
| AnkiConnect.Truthy | modules/anki_connector.py:182-191 | Python truthiness of a decoded id (`if card_id_1:`); `KeepTruthyOne` states that an id is kept exactly when it is truthy |
| AnkiConnect.KeepTruthy | modules/anki_connector.py:175-195 | only truthy ids are kept, each taken from the input, and all are kept exactly when all are truthy; the three lemmas below fix the result exactly |
| AnkiConnect.KeepTruthyAppend | modules/anki_connector.py:175-195 | the ids kept from `a + b` are those kept from `a`, then those kept from `b`: order is kept and no truthy id is dropped |
| AnkiConnect.KeepTruthyOne | modules/anki_connector.py:182-183 | one id is kept exactly when it is truthy |
| AnkiConnect.KeepTruthySnoc | modules/anki_connector.py:191-192 | each `if card_id: card_ids.append(card_id)` appends a truthy id at the end and drops any other |
| AnkiConnect.KeepTruthyPair | modules/anki_connector.py:181-195 | two ids are both kept exactly when both are truthy |
| AnkiConnect.CollectTwo | modules/anki_connector.py:175-195 | the two appends build the truthy ids |
| AnkiConnect.AnkiConnector.constructor | modules/anki_connector.py:15-25 | the connector starts with no cached field names and no requests |
| AnkiConnect.AnkiConnector.Invoke | modules/anki_connector.py:197-229 | the reply is checked, the request is logged, and the cache is unchanged |
| AnkiConnect.AnkiConnector.GetModelFieldNames | modules/anki_connector.py:40-54 | the cache is queried only while empty; a failure stores the defaults |
| AnkiConnect.AnkiConnector.CreateCard | modules/anki_connector.py:106-149 | the field names are fetched, the note is posted, and the id or null is returned |
| AnkiConnect.AnkiConnector.CreateFlashcards | modules/anki_connector.py:151-195 | the image card and then the word card are posted, and the truthy ids come back in order |
| ImageNaming.KeepSafe | modules/image_provider.py:147 | only letters, digits, `_` and `-` are kept, each taken from the input; the three lemmas below fix the result exactly |
| ImageNaming.KeepSafeAppend | modules/image_provider.py:147 | what is kept from `a + b` is what is kept from `a`, then what is kept from `b`: order is kept and nothing safe is dropped |
| ImageNaming.KeepSafeOne | modules/image_provider.py:147 | one character is kept exactly when it is safe |
| ImageNaming.KeepSafeKeepsAll | modules/image_provider.py:147 | the filter drops nothing exactly when every character is safe |
| ImageNaming.KeepSafeOfSafe | modules/image_provider.py:147 | a safe name is kept whole |
| ImageNaming.SanitizeFilename | modules/image_provider.py:134-149 | the name holds only safe characters, so no `/` and no space |
| ImageNaming.SafeAvoids | modules/image_provider.py:147 | safe text holds no `/` and no space |
| ImageNaming.SanitizeIsLowerCase | modules/image_provider.py:145-147 | no upper-case letter is left in the name |
| ImageNaming.SanitizeIdempotent | modules/image_provider.py:144-149 | sanitizing a sanitized name changes nothing |
| ImageNaming.SafeNoEdgeSpace | modules/image_provider.py:145 | a safe name has no edge whitespace |
| ImageNaming.SanitizeIgnoresCase | modules/image_provider.py:145 | words equal up to case give the same name |
| ImageNaming.SanitizeWords | modules/image_provider.py:145-147 | for a plain word, each inner space becomes `_` and each letter its lower-case form; nothing is dropped |
| ImageNaming.ImagePath | modules/image_provider.py:176-177 | `output_dir / f"{safe_word}.jpg"`, shared by `generate_image`, `image_exists` and `get_image_path`; `ImagePathName` states that the name reads back and holds no `/` |
| ImageNaming.ImagePathName | modules/image_provider.py:50-51 | the name between the directory and `.jpg` is the sanitized word and holds no `/` |
| ImageNaming.ImageExists | modules/image_provider.py:151-164 | the image path is among the existing files; `ExistingImage` and `ImageIgnoresCase` state its use and its case independence |
| ImageNaming.ExistingImage | modules/image_provider.py:50-56 | an existing file at the image path is returned before any download |
| ImageNaming.ImageIgnoresCase | modules/image_provider.py:161-177 | words equal up to case share one image path and one existence answer |
| ImageNaming.ImagePathOfSanitized | modules/image_provider.py:161-177 | looking up the sanitized name finds the same path as the word |
| ImageNaming.Dimension | modules/image_provider.py:108-113 | `high` gives 1024, `medium` 768, any other quality 512 |
| ImageNaming.BuildImageUrl | modules/image_provider.py:91-115 | the base URL, `/`, the encoded concept, `?` and the query for the quality; `UrlParts` and `QueryFields` state how it splits back into these |
| ImageNaming.QueryFields | modules/image_provider.py:108-113 | the query lists width and height of that size and `nologo=true` |
| ImageNaming.QueryAvoids | modules/image_provider.py:108-113 | the query has no character outside the dimension and the fixed field text |
| ImageNaming.UrlParts | modules/image_provider.py:101-115 | the URL splits at `?` into the base with the encoded concept, and the query |
| ImageNaming.EnhanceConcept | modules/image_provider.py:117-132 | the prompt is the no-text instruction followed by the unchanged concept |
| ImageNaming.ConceptRoundTrip | modules/image_provider.py:127-132 | the concept can be read back from the prompt |
| Pipeline.IsProcessedIgnoresCase | main.py:93-104 | words equal up to case are processed or not together |
| Pipeline.IsProcessed | main.py:93-104 | the lower-case word is a key of the cache; `IsProcessedIgnoresCase` states that case variants agree |
| Pipeline.AfterProcess | main.py:180-185 | the cache after `process_word`: the word's entry is written once the cards exist, and `AfterProcessFrame` states what changes |
| Pipeline.AfterProcessFrame | main.py:180-185 | only the word's own key changes, only once content, image, media and both cards went through, and it then records two card ids |
| Pipeline.Cache.constructor | main.py:311-316 | the cache starts with the given entries |
| Pipeline.ProcessWord | main.py:107-192 | the result is true exactly when every step including `save_cache` succeeded; the cache gains the word's entry exactly when every step before `save_cache` did, so a failing save returns false with the entry in place |
| Pipeline.LineWords | main.py:209 | a line gives its stripped form, or nothing when it is blank |
| Pipeline.LoadWords | main.py:205-211 | the loaded words are non-empty and stripped, at most one per line |
| Pipeline.LoadWordsAppend | main.py:209 | loading works line by line |
| Pipeline.LoadWordsLine | main.py:209 | a single line gives its stripped form unless it is blank |
| Pipeline.RemoveWord | main.py:230 | every kept word differs from the removed one in lower case and comes from the list |
| Pipeline.RemoveWordKeeps | main.py:230 | every word that differs in lower case is kept |
| Pipeline.RemoveWordAppend | main.py:230 | the filter works word by word, keeping order |
| Pipeline.LoadedWordList | main.py:208-209 | loaded words are non-empty, stripped and free of line breaks |
| Pipeline.StripAvoids | main.py:209 | stripping cannot introduce a character |
| Pipeline.RemovedWordList | main.py:226-230 | the filter keeps a proper word list |
| Pipeline.WordsTextLines | main.py:233-235 | the written file splits into the words and one empty last line |
| Pipeline.LoadWordList | main.py:209 | loading a proper word list gives it back |
| Pipeline.WrittenWordsReload | main.py:208-209 | the written file reads back as the words written |
| Pipeline.RemoveWordFromFile | main.py:214-241 | after a removal, the file reads back as exactly the kept words |
| Pipeline.WordsToProcess | main.py:320-326 | the `--word` value alone, or the words file; `RunBatch` states the run over these words |
| Pipeline.StartCache | main.py:310-316 | empty with `--reset-cache`, the loaded cache otherwise; `RunBatch` and `ResetNeverSkips` state its effect |
| Pipeline.Judge | main.py:337-359 | the verdict for one word against the cache as it stands; `VerdictMeaning` states when each verdict is given |
| Pipeline.RunWords | main.py:335-359 | one verdict per word |
| Pipeline.Count | main.py:331-359 | a counter never exceeds the number of words |
| Pipeline.CountSnoc | main.py:339-359 | each word adds one to exactly its own counter |
| Pipeline.CountsAddUp | main.py:365-368 | successes, skips and failures add up to the number of words |
| Pipeline.RunStep | main.py:335-359 | the loop's result on a prefix one longer is one more step |
| Pipeline.RunPrefix | main.py:335-359 | the verdicts on a prefix are the first verdicts of the run |
| Pipeline.VerdictAt | main.py:335-359 | a word's verdict depends on the cache left by the words before it |
| Pipeline.VerdictMeaning | main.py:337-359 | a word is skipped exactly when the cache is kept and holds it, and succeeds exactly when not skipped and every step succeeds |
| Pipeline.ResetNeverSkips | main.py:311-314 | with `--reset-cache` no word is skipped |
| Pipeline.CacheGrows | main.py:335-359 | the cache never loses a key during the run |
| Pipeline.StepKeepsKeys | main.py:335-359 | one step never loses a key |
| Pipeline.RecordedIsCached | main.py:180-185 | a word that was processed and got its cards is in the cache for every later word, whatever `save_cache` did |
| Pipeline.SuccessIsCached | main.py:180-185 | a word that succeeded is processed for every later word |
| Pipeline.UnsavedFailureCached | main.py:180-192 | a word whose cards exist but whose cache save fails counts as a failure and is in the cache all the same |
| Pipeline.LaterVariantSkipped | main.py:337-340 | a later spelling of a word that got its cards is skipped when the cache is kept, even if that word failed at `save_cache` |
| Pipeline.RemovedWords | main.py:355-357 | in file mode the successful words are removed, in order; with `--word` nothing is |
| Pipeline.BatchStep | main.py:335-359 | one iteration keeps the counters, cache and removals in step with the reference run |
| Pipeline.ProcessWords | main.py:331-359 | the counters, the removed words and the cache are those of the reference run, and the counters add up to the number of words |
| Pipeline.RunBatch | main.py:311-376 | the word source and the starting cache follow the options, the results are those of the reference run, and the exit status is 1 exactly when a word failed |

## Left out

- Network I/O: the text generator, Pollinations.ai and AnkiConnect become parameters. Their replies are Dafny values: a `Json` reply, `None` for a transport failure, and a `Pipeline.Outcome` record for each word.
- File I/O: the words file is given as its lines, the images directory as the set of existing paths, and the cache file as a map. `load_cache`, `load_settings`, directory creation and the prompt-template file are left out. What `save_cache` writes is left out; whether it raises is `Outcome.saved`, and `ProcessWord` models both of its outcomes. The save after `--reset-cache` (main.py line 314) is left out.
- Universal-newline reading of the words file is left out; the lines arrive already split at `\n`.
- Printing, `argparse`, the banner, the summary text and the exception messages are left out.
- `datetime.now().isoformat()` becomes the `timestamp` field of each outcome.
- `check_connection`, `create_deck_if_needed` and a fatal error during setup are left out. `KeyboardInterrupt` is left out too.
- `add_media_file` enters only as its answer, `Outcome.mediaAdded`.
- The retry loop of `generate_image`, its two-second sleep and the download itself are left out. The model keeps the path it computes, the early return for an existing file, the URL and the prompt. `Outcome.imagePath` holds what it returns.
- `os.path.basename` of the image path is left out; the cards take the file name as a parameter.
- `Path` division is written as `dir + "/" + name`.
- String semantics are ASCII: `lower`, `isalnum` and `isspace` agree with Python on ASCII characters only. Unicode letters that Python would keep or lower-case are treated as other characters. The same holds for the regexes: the case-insensitive marker match compares ASCII case only, and `\s` is ASCII whitespace. Python's Unicode `re` also matches `İ` or `ı` against `I`, `ſ` against `S`, and treats `\xa0` as `\s`; the model does not.
- ImageNaming.BuildImageUrl: `urllib.parse.quote` is a function parameter, so the URL is stated up to that function. The query is written as the join of its three fields, which spells out the literal suffixes.
- Pipeline.Outcome: the flashcard comes from the text generator already parsed. The parse is `ResponseParser.ParseFlashcardResponse`, modelled and proved separately, and is not re-run inside `ProcessWord`.
- AnkiConnect.AnkiConnector: the request log records the `Request` values posted. Their JSON bodies are given by `RequestPayload` and described by `AddNotePayload` and `FieldNamesPayload`.
- AnkiConnect.FieldNamesFor: a field-name list holding something other than strings is treated as a failed `create_card`. Python would put that value in the note as a key.
- CardFormatter.FormatBack states the back as `BackHtml`. The layouts of the two backs are stated by `BackLayouts` and `FrontTagNames`, not in its own contract.
- Python's JSON key order is not modelled; the request bodies are maps.
