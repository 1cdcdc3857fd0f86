/** The code-switching language tagger (`detect_languages_in_text`): a
    segment's text is cut into sentence-like chunks, each chunk long enough
    is identified by the language detector, and the
    distinct codes are returned sorted and comma-joined, so that a segment
    that switches language carries a tag such as "en,hi". */
module Tagger {
  import opened Base
  import opened Strings
  import opened Order

  /** The sentinel tag for text that is missing, blank or unidentifiable. */
  const Unknown: string := "unknown"

  /** The characters `re.split(r"[.?!]", text)` cuts at. */
  const Terminators: set<char> := {'.', '?', '!'}

  /** The language detector (`langdetect.detect`) applied
      to one chunk: `Some(code)`, or `None` where the call raises. It is a
      fixed function, so one chunk always gets the same answer; the codes
      themselves may be any strings. */
  type Detector = string -> Option<string>

  /** The raw chunks of a text: the pieces between terminators, empty pieces
      included. No chunk holds a terminator, and the chunks glued back with
      the text's own terminators, in order, give the text. */
  function Chunks(text: string): (r: seq<string>)
    ensures |r| == |SeparatorsOf(text, Terminators)| + 1
    ensures Interleave(r, SeparatorsOf(text, Terminators)) == text
    ensures forall k, c :: 0 <= k < |r| && c in r[k] ==> c !in Terminators
  {
    SplitRebuild(text, Terminators);
    SplitPiecesAvoid(text, Terminators);
    SplitOn(text, Terminators)
  }

  /** The code one chunk contributes: the detector's answer, or the
      sentinel when it fails. */
  function CodeOf(detect: Detector, chunk: string): string {
    match detect(chunk)
    case Some(code) => code
    case None => Unknown
  }

  /** The raw piece `piece` is kept (its trimmed form has at least two
      characters) and contributes `code`. */
  predicate Yields(piece: string, detect: Detector, code: string) {
    |Strip(piece)| >= 2 && CodeOf(detect, Strip(piece)) == code
  }

  /** Some piece of `pieces` yields `code`. */
  predicate SomeYields(pieces: seq<string>, detect: Detector, code: string) {
    exists k :: 0 <= k < |pieces| && Yields(pieces[k], detect, code)
  }

  /** A piece list yields what its head or its tail yields. */
  lemma SomeYieldsCons(pieces: seq<string>, detect: Detector, code: string)
    requires pieces != []
    ensures SomeYields(pieces, detect, code) <==> Yields(pieces[0], detect, code) || SomeYields(pieces[1..], detect, code)
  {
    if SomeYields(pieces[1..], detect, code) {
      var k :| 0 <= k < |pieces[1..]| && Yields(pieces[1..][k], detect, code);
      assert Yields(pieces[k + 1], detect, code);
    }
    if SomeYields(pieces, detect, code) && !Yields(pieces[0], detect, code) {
      var k :| 0 <= k < |pieces| && Yields(pieces[k], detect, code);
      assert Yields(pieces[1..][k - 1], detect, code);
    }
  }

  /** The codes of the kept pieces, in order, duplicates included: exactly
      the codes some piece yields. */
  function ChunkCodes(pieces: seq<string>, detect: Detector): (r: seq<string>)
    ensures forall c :: c in r <==> SomeYields(pieces, detect, c)
    ensures |r| <= |pieces|
  {
    if pieces == [] then []
    else
      var chunk := Strip(pieces[0]);
      var rest := ChunkCodes(pieces[1..], detect);
      assert forall c :: SomeYields(pieces, detect, c) <==> Yields(pieces[0], detect, c) || SomeYields(pieces[1..], detect, c) by {
        forall c ensures SomeYields(pieces, detect, c) <==> Yields(pieces[0], detect, c) || SomeYields(pieces[1..], detect, c) {
          SomeYieldsCons(pieces, detect, c);
        }
      }
      if |chunk| < 2 then rest else [CodeOf(detect, chunk)] + rest
  }

  /** The distinct codes of a text, in increasing order: Python's
      `sorted(detected)` for the set built by the chunk loop. */
  function TagCodes(text: string, detect: Detector): (r: seq<string>)
    ensures StrictlySorted(r)
    ensures forall c :: c in r <==> SomeYields(Chunks(text), detect, c)
  {
    var r := SortedSet(ChunkCodes(Chunks(text), detect));
    assert forall c :: c in r <==> c in Elems(r);
    r
  }

  /** `detect_languages_in_text`: the sentinel for missing or blank text,
      otherwise the distinct codes of the kept chunks, sorted and joined by
      commas. A text none of whose chunks is kept gets the empty tag. */
  function DetectLanguages(text: Option<string>, detect: Detector): (r: string)
    ensures text.None? || IsBlank(text.value) ==> r == Unknown
    ensures text.Some? && !IsBlank(text.value) && TagCodes(text.value, detect) == [] ==> r == ""
    ensures text.Some? && !IsBlank(text.value) && |TagCodes(text.value, detect)| == 1 ==> r == TagCodes(text.value, detect)[0]
  {
    if text.None? || Strip(text.value) == [] then Unknown
    else Join(TagCodes(text.value, detect), ',')
  }

  /** The tag is determined by the set of codes alone: any increasing listing
      of exactly the codes the kept chunks yield, comma-joined, is the tag.
      Hence tagging is a function of the text (and the detector), and the
      order in which chunks were identified never shows. */
  lemma TagIsSortedCodes(text: string, detect: Detector, codes: seq<string>)
    requires !IsBlank(text)
    requires StrictlySorted(codes)
    requires forall c :: c in codes <==> SomeYields(Chunks(text), detect, c)
    ensures DetectLanguages(Some(text), detect) == Join(codes, ',')
  {
    var t := TagCodes(text, detect);
    assert Elems(t) == Elems(codes) by {
      assert forall c :: c in Elems(t) <==> c in t;
      assert forall c :: c in Elems(codes) <==> c in codes;
    }
    SortedUnique(t, codes);
  }

  /** The detector never answers with a comma inside a code. */
  ghost predicate CommaFree(detect: Detector) {
    forall s :: detect(s).Some? ==> ',' !in detect(s).value
  }

  /** With such a detector, no chunk's code holds a comma. */
  lemma CodeOfCommaFree(detect: Detector, chunk: string)
    requires CommaFree(detect)
    ensures ',' !in CodeOf(detect, chunk)
  {
    assert detect(chunk).Some? ==> ',' !in detect(chunk).value;
  }

  /** Splitting a non-blank text's tag at its commas gives back the sorted
      codes, provided no code holds a comma; a tag with no codes splits into
      the single empty piece. */
  lemma TagPieces(text: string, detect: Detector)
    requires !IsBlank(text) && CommaFree(detect)
    ensures TagCodes(text, detect) != [] ==> SplitOn(DetectLanguages(Some(text), detect), {','}) == TagCodes(text, detect)
    ensures TagCodes(text, detect) == [] ==> SplitOn(DetectLanguages(Some(text), detect), {','}) == [""]
  {
    var t := TagCodes(text, detect);
    if t != [] {
      TagCodesCommaFree(text, detect);
      SplitJoin(t, ',');
    }
  }

  /** With such a detector, no code of a text holds a comma. */
  lemma TagCodesCommaFree(text: string, detect: Detector)
    requires CommaFree(detect)
    ensures forall k :: 0 <= k < |TagCodes(text, detect)| ==> ',' !in TagCodes(text, detect)[k]
  {
    var t := TagCodes(text, detect);
    forall k | 0 <= k < |t| ensures ',' !in t[k] {
      assert t[k] in t;
      var j :| 0 <= j < |Chunks(text)| && Yields(Chunks(text)[j], detect, t[k]);
      CodeOfCommaFree(detect, Strip(Chunks(text)[j]));
    }
  }

  /** A text that is not blank but whose every chunk trims to fewer than two
      characters is tagged with the empty string, not the sentinel. */
  lemma ShortChunksGiveEmptyTag(text: string, detect: Detector)
    requires !IsBlank(text)
    requires forall k :: 0 <= k < |Chunks(text)| ==> |Strip(Chunks(text)[k])| < 2
    ensures DetectLanguages(Some(text), detect) == ""
  {
    var t := TagCodes(text, detect);
    forall c ensures !SomeYields(Chunks(text), detect, c) {
      forall k | 0 <= k < |Chunks(text)| ensures !Yields(Chunks(text)[k], detect, c) {
      }
    }
    assert Elems(t) == {};
    ElemsEmpty(t);
  }
}
