/**
 * The pure helpers of the image provider: the file name derived from a word,
 * the image path shared by the existence check, the path lookup and the
 * download target, the Pollinations URL chosen by the quality setting, and
 * the no-text instruction put in front of a visual concept.
 *
 * `urllib.parse.quote` is passed in as a function; the file system is a set
 * of existing paths; `Path` division is written as `dir + "/" + name`.
 */
module ImageNaming {
  import opened Text
  import opened Wrappers

  const BaseUrl := "https://image.pollinations.ai/prompt"
  const Extension := ".jpg"

  // ------------------------------------------------ file names

  /** The characters `_sanitize_filename` keeps: ASCII letters and digits, `_`, `-`. */
  predicate SafeChar(c: char) {
    IsAlnum(c) || c == '_' || c == '-'
  }

  predicate AllSafe(s: string) {
    forall i :: 0 <= i < |s| ==> SafeChar(s[i])
  }

  /** The filtering comprehension: keeps the safe characters, in order. */
  function KeepSafe(s: string): (r: string)
    ensures |r| <= |s|
    ensures AllSafe(r)
    ensures forall i :: 0 <= i < |r| ==> r[i] in s
  {
    if s == [] then []
    else
      var rest := KeepSafe(s[1..]);
      assert forall i :: 0 <= i < |rest| ==> rest[i] in s by {
        forall i | 0 <= i < |rest| ensures rest[i] in s {
          var j :| 0 <= j < |s[1..]| && s[1..][j] == rest[i];
          assert s[j + 1] == rest[i];
        }
      }
      (if SafeChar(s[0]) then [s[0]] else []) + rest
  }

  /** The filter works character by character and keeps the order: what is
      kept from `a + b` is what is kept from `a`, then what is kept from `b`. */
  lemma {:induction false} KeepSafeAppend(a: string, b: string)
    ensures KeepSafe(a + b) == KeepSafe(a) + KeepSafe(b)
  {
    if a == [] {
      assert a + b == b;
    } else {
      assert (a + b)[1..] == a[1..] + b;
      KeepSafeAppend(a[1..], b);
    }
  }

  /** One character is kept exactly when it is safe. */
  lemma KeepSafeOne(c: char)
    ensures KeepSafe([c]) == if SafeChar(c) then [c] else []
  {
    assert [c][1..] == [];
  }

  /** Nothing is dropped exactly when every character is safe. */
  lemma {:induction false} KeepSafeKeepsAll(s: string)
    ensures KeepSafe(s) == s <==> AllSafe(s)
  {
    if AllSafe(s) {
      KeepSafeOfSafe(s);
    } else if s != [] {
      if !SafeChar(s[0]) {
        assert |KeepSafe(s)| < |s|;
      } else {
        assert !AllSafe(s[1..]) by {
          var k :| 0 <= k < |s| && !SafeChar(s[k]);
          assert s[1..][k - 1] == s[k];
        }
        KeepSafeKeepsAll(s[1..]);
        assert KeepSafe(s)[1..] == KeepSafe(s[1..]);
      }
    }
  }

  lemma {:induction false} KeepSafeOfSafe(s: string)
    requires AllSafe(s)
    ensures KeepSafe(s) == s
  {
    if s != [] {
      KeepSafeOfSafe(s[1..]);
      assert s == [s[0]] + s[1..];
    }
  }

  /** `_sanitize_filename`: lower-case, strip, spaces to underscores, then
      drop every character that is not safe. */
  function SanitizeFilename(word: string): (r: string)
    ensures AllSafe(r)
    ensures '/' !in r && ' ' !in r
  {
    var r := KeepSafe(ReplaceAll(Strip(Lower(word)), " ", "_"));
    SafeAvoids(r);
    r
  }

  lemma SafeAvoids(s: string)
    requires AllSafe(s)
    ensures '/' !in s && ' ' !in s
  {
    forall i | 0 <= i < |s| ensures s[i] != '/' && s[i] != ' ' {
      assert SafeChar(s[i]);
    }
  }

  predicate NoUpper(s: string) {
    forall i :: 0 <= i < |s| ==> !IsUpper(s[i])
  }

  /** No upper-case letter survives: the word was lower-cased first and
      nothing later introduces a letter. */
  lemma SanitizeIsLowerCase(word: string)
    ensures NoUpper(SanitizeFilename(word))
  {
    var low := Lower(word);
    LowerNoUpper(word);
    var k := StripIsInfix(low);
    NoUpperInfix(low, k, Strip(low));
    ReplaceSpacesNoUpper(Strip(low));
    KeepSafeNoUpper(ReplaceAll(Strip(low), " ", "_"));
  }

  lemma LowerNoUpper(s: string)
    ensures NoUpper(Lower(s))
  {
  }

  lemma NoUpperInfix(s: string, k: nat, r: string)
    requires NoUpper(s)
    requires k + |r| <= |s| && r == s[k..k + |r|]
    ensures NoUpper(r)
  {
    forall i | 0 <= i < |r| ensures !IsUpper(r[i]) {
      assert r[i] == s[k + i];
    }
  }

  lemma ReplaceSpacesNoUpper(t: string)
    requires NoUpper(t)
    ensures NoUpper(ReplaceAll(t, " ", "_"))
  {
    ReplaceCharPointwise(t, ' ', '_');
  }

  lemma KeepSafeNoUpper(s: string)
    requires NoUpper(s)
    ensures NoUpper(KeepSafe(s))
  {
    var r := KeepSafe(s);
    forall i | 0 <= i < |r| ensures !IsUpper(r[i]) {
      var j :| 0 <= j < |s| && s[j] == r[i];
    }
  }

  /** Sanitizing a sanitized name changes nothing. */
  lemma SanitizeIdempotent(word: string)
    ensures SanitizeFilename(SanitizeFilename(word)) == SanitizeFilename(word)
  {
    var s := SanitizeFilename(word);
    SanitizeIsLowerCase(word);
    LowerOfLower(s);
    assert Lower(s) == s;
    SafeNoEdgeSpace(s);
    StripOfStripped(s);
    assert Strip(Lower(s)) == s;
    ReplaceCharAbsent(s, ' ', "_");
    assert ReplaceAll(Strip(Lower(s)), " ", "_") == s;
    KeepSafeOfSafe(s);
  }

  lemma SafeNoEdgeSpace(s: string)
    requires AllSafe(s)
    ensures NoEdgeSpace(s)
  {
    if s != [] {
      assert SafeChar(s[0]) && SafeChar(s[|s| - 1]);
    }
  }

  /** The name depends only on the lower-case form of the word. */
  lemma SanitizeIgnoresCase(w1: string, w2: string)
    requires Lower(w1) == Lower(w2)
    ensures SanitizeFilename(w1) == SanitizeFilename(w2)
  {
  }

  /** For a word of letters, digits, `_`, `-` and inner spaces, nothing is
      dropped: each space becomes `_` and each letter its lower-case form. */
  lemma SanitizeWords(word: string)
    requires forall i :: 0 <= i < |word| ==> SafeChar(word[i]) || word[i] == ' '
    requires NoEdgeSpace(word)
    ensures |SanitizeFilename(word)| == |word|
    ensures forall i :: 0 <= i < |word| ==>
              SanitizeFilename(word)[i] == (if word[i] == ' ' then '_' else LowerChar(word[i]))
  {
    var low := Lower(word);
    assert NoEdgeSpace(low) by {
      if word != [] {
        LowerKeepsSpace(word[0]);
        LowerKeepsSpace(word[|word| - 1]);
      }
    }
    StripOfStripped(low);
    ReplaceCharPointwise(low, ' ', '_');
    var u := ReplaceAll(low, " ", "_");
    forall i | 0 <= i < |u| ensures SafeChar(u[i]) {
      assert low[i] == LowerChar(word[i]);
    }
    KeepSafeOfSafe(u);
  }

  // ------------------------------------------------ image paths

  /** `output_dir / f"{safe_word}.jpg"`, the path `generate_image` writes to
      and the one `image_exists` looks at; `get_image_path` returns it. */
  function ImagePath(dir: string, word: string): string {
    dir + "/" + SanitizeFilename(word) + Extension
  }

  /** The file name can be read back from the path, and it never reaches
      outside the output directory: it holds no `/`. */
  lemma ImagePathName(dir: string, word: string)
    ensures var path := ImagePath(dir, word);
            var name := path[|dir| + 1..|path| - |Extension|];
            name == SanitizeFilename(word) && '/' !in name && AllSafe(name)
  {
    var name := SanitizeFilename(word);
    var path := ImagePath(dir, word);
    assert path[|dir| + 1..|path| - |Extension|] == name;
  }

  /** `image_exists`, with the file system given as the set of existing paths. */
  predicate ImageExists(dir: string, word: string, files: set<string>) {
    ImagePath(dir, word) in files
  }

  /** `generate_image` returns the existing file before any download when the
      path is taken; `None` stands for "a download is needed". */
  function ExistingImage(dir: string, word: string, files: set<string>): (r: Option<string>)
    ensures r.Some? <==> ImageExists(dir, word, files)
    ensures r.Some? ==> r.value == ImagePath(dir, word)
  {
    var path := ImagePath(dir, word);
    if path in files then Some(path) else None
  }

  /** Two spellings of a word that differ only in case share one image. */
  lemma ImageIgnoresCase(dir: string, w1: string, w2: string, files: set<string>)
    requires Lower(w1) == Lower(w2)
    ensures ImagePath(dir, w1) == ImagePath(dir, w2)
    ensures ImageExists(dir, w1, files) <==> ImageExists(dir, w2, files)
  {
    SanitizeIgnoresCase(w1, w2);
  }

  /** Looking up the sanitized name finds the same image as the word. */
  lemma ImagePathOfSanitized(dir: string, word: string)
    ensures ImagePath(dir, SanitizeFilename(word)) == ImagePath(dir, word)
  {
    SanitizeIdempotent(word);
  }

  // ------------------------------------------------ image URL

  /** Width and height in pixels for a quality setting. */
  function Dimension(quality: string): (d: string)
    ensures quality == "high" <==> d == "1024"
    ensures quality == "medium" <==> d == "768"
    ensures quality != "high" && quality != "medium" <==> d == "512"
  {
    if quality == "high" then "1024" else if quality == "medium" then "768" else "512"
  }

  /** The query string: width, height and the no-logo flag, joined by `&`. */
  function Query(d: string): string {
    Join("&", ["width=" + d, "height=" + d, "nologo=true"])
  }

  /** `_build_image_url`: the base URL, the encoded concept, then the query
      for the quality setting. */
  function BuildImageUrl(base: string, quality: string, concept: string, quote: string -> string): string {
    base + "/" + quote(concept) + "?" + Query(Dimension(quality))
  }

  /** The query lists width and height, both of the same size, then `nologo=true`. */
  lemma QueryFields(d: string)
    requires '&' !in d
    ensures Split(Query(d), '&') == ["width=" + d, "height=" + d, "nologo=true"]
  {
    var fields := ["width=" + d, "height=" + d, "nologo=true"];
    assert forall k :: 0 <= k < |fields| ==> '&' !in fields[k];
    SplitJoin(fields, '&');
  }

  lemma QueryAvoids(d: string, c: char)
    requires c !in d && c !in "width=height&nologo=true"
    ensures c !in Query(d)
  {
    var fields := ["width=" + d, "height=" + d, "nologo=true"];
    var tail := fields[1..];
    assert tail[1..] == [fields[2]];
    assert Join("&", tail) == fields[1] + "&" + fields[2];
    assert Query(d) == fields[0] + "&" + Join("&", tail);
  }

  /** When neither the base URL nor the encoded concept holds a `?` (quote
      escapes it as `%3F`), the URL splits into the resource and the query. */
  lemma UrlParts(base: string, quality: string, concept: string, quote: string -> string)
    requires '?' !in base && '?' !in quote(concept)
    ensures Split(BuildImageUrl(base, quality, concept, quote), '?')
            == [base + "/" + quote(concept), Query(Dimension(quality))]
  {
    var resource := base + "/" + quote(concept);
    var q := Query(Dimension(quality));
    QueryAvoids(Dimension(quality), '?');
    SplitAppend(resource, q, '?');
    SplitNoSep(q, '?');
  }

  // ------------------------------------------------ no-text instruction

  const NoTextInstructions := "IMPORTANT: No text, no words, no letters, no numbers, no symbols, "
    + "no signs, no labels, no typography of any kind. Pure visual concept only. "

  /** `_enhance_concept_for_no_text`: the concept, unchanged, after the instruction. */
  function EnhanceConcept(concept: string): (r: string)
    ensures |r| == |NoTextInstructions| + |concept|
    ensures StartsWith(r, NoTextInstructions)
    ensures r[|NoTextInstructions|..] == concept
  {
    NoTextInstructions + concept
  }

  /** Reads the concept back from an enhanced prompt. */
  function ConceptOf(prompt: string): Option<string> {
    if StartsWith(prompt, NoTextInstructions) then Some(prompt[|NoTextInstructions|..]) else None
  }

  lemma ConceptRoundTrip(concept: string)
    ensures ConceptOf(EnhanceConcept(concept)) == Some(concept)
  {
  }
}
