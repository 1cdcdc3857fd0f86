/** The language pass of `main` (step 3): every segment is tagged, and the
    record's `detectedLanguages` becomes the sorted set of all codes named in
    any tag, leaving out the empty code and the sentinel. */
module Languages {
  import opened Base
  import opened Strings
  import opened Order
  import opened Tagger
  import opened Store

  /** `l` is one of the comma-separated codes in the tag of some segment. */
  ghost predicate Listed(l: string, segments: seq<Segment>) {
    exists k :: 0 <= k < |segments| && segments[k].lang.Some? && l in SplitOn(segments[k].lang.value, {','})
  }

  /** `l` counts as a detected language: it is not empty, not the sentinel,
      and some tag lists it. */
  ghost predicate Detected(l: string, segments: seq<Segment>) {
    l != "" && l != Unknown && Listed(l, segments)
  }

  /** Adds the pieces of one tag to the sorted set `found`, skipping the
      empty piece and the sentinel (`if l and l != "unknown"`). */
  function AddCodes(found: seq<string>, pieces: seq<string>): (r: seq<string>)
    requires StrictlySorted(found)
    ensures StrictlySorted(r)
    ensures forall l :: l in r <==> l in found || (l in pieces && l != "" && l != Unknown)
    decreases |pieces|
  {
    if pieces == [] then found
    else
      var l := pieces[0];
      var next := if l != "" && l != Unknown then Insert(found, l) else found;
      assert forall x :: x in next <==> x in Elems(next);
      assert forall x :: x in found <==> x in Elems(found);
      assert forall x :: x in pieces <==> x == l || x in pieces[1..] by {
        assert pieces == [l] + pieces[1..];
      }
      AddCodes(next, pieces[1..])
  }

  /** Step 3 of `main`: each segment's `lang` becomes its tag, and
      `detectedLanguages` becomes the codes the tags list, without the empty
      code and the sentinel, each once, sorted. Nothing else changes. */
  method TagLanguages(rec: Record, detect: Detector) returns (r: Record)
    ensures r == rec.(segments := r.segments, detectedLanguages := r.detectedLanguages)
    ensures |r.segments| == |rec.segments|
    ensures forall i :: 0 <= i < |rec.segments| ==>
              r.segments[i] == rec.segments[i].(lang := Some(DetectLanguages(rec.segments[i].text, detect)))
    ensures StrictlySorted(r.detectedLanguages)
    ensures forall l :: l in r.detectedLanguages <==> Detected(l, r.segments)
    ensures Unknown !in r.detectedLanguages && "" !in r.detectedLanguages
  {
    var segments := rec.segments;
    var found: seq<string> := [];
    var i := 0;
    while i < |segments|
      invariant 0 <= i <= |segments| == |rec.segments|
      invariant TaggedUpTo(segments, rec.segments, i, detect)
      invariant StrictlySorted(found)
      invariant forall l :: l in found <==> Detected(l, segments[..i])
    {
      var tag := DetectLanguages(segments[i].text, detect);
      var next := segments[i := segments[i].(lang := Some(tag))];
      TaggedStep(segments, rec.segments, i, detect);
      found := AddCodes(found, SplitOn(tag, {','}));
      DetectedStep(next, i);
      assert next[..i] == segments[..i];
      segments := next;
      i := i + 1;
    }
    assert segments[..i] == segments;
    r := rec.(segments := segments, detectedLanguages := found);
  }

  /** The first `i` segments of `segments` are those of `original` with their
      tag set; the rest are untouched. */
  predicate TaggedUpTo(segments: seq<Segment>, original: seq<Segment>, i: nat, detect: Detector)
    requires i <= |segments| == |original|
  {
    && (forall k :: 0 <= k < i ==>
          segments[k] == original[k].(lang := Some(DetectLanguages(original[k].text, detect))))
    && (forall k :: i <= k < |segments| ==> segments[k] == original[k])
  }

  /** Tagging segment `i` extends the tagged prefix by one. */
  lemma TaggedStep(segments: seq<Segment>, original: seq<Segment>, i: nat, detect: Detector)
    requires i < |segments| == |original| && TaggedUpTo(segments, original, i, detect)
    ensures TaggedUpTo(segments[i := segments[i].(lang := Some(DetectLanguages(segments[i].text, detect)))], original, i + 1, detect)
  {
  }

  /** Taking one more tagged segment into account adds exactly its pieces. */
  lemma DetectedStep(segments: seq<Segment>, i: nat)
    requires i < |segments| && segments[i].lang.Some?
    ensures forall l :: Detected(l, segments[..i + 1]) <==>
              Detected(l, segments[..i]) || (l in SplitOn(segments[i].lang.value, {','}) && l != "" && l != Unknown)
  {
    var pre, cur := segments[..i], segments[..i + 1];
    forall l ensures Listed(l, cur) <==> Listed(l, pre) || l in SplitOn(segments[i].lang.value, {','}) {
      if Listed(l, pre) {
        var k :| 0 <= k < |pre| && pre[k].lang.Some? && l in SplitOn(pre[k].lang.value, {','});
        assert cur[k] == pre[k];
      }
      if l in SplitOn(segments[i].lang.value, {','}) {
        assert cur[i] == segments[i];
      }
      if Listed(l, cur) && !(l in SplitOn(segments[i].lang.value, {','})) {
        var k :| 0 <= k < |cur| && cur[k].lang.Some? && l in SplitOn(cur[k].lang.value, {','});
        assert k != i;
        assert pre[k] == cur[k];
      }
    }
  }

  /** When no code the detector returns holds a comma, the detected
      languages are exactly the codes it gave for the kept chunks of the
      segments with non-blank text, other than the empty code and the
      sentinel: splitting the tags recovers the codes. */
  lemma DetectedAreOracleCodes(segments: seq<Segment>, tagged: seq<Segment>, detect: Detector)
    requires CommaFree(detect)
    requires |tagged| == |segments|
    requires forall i :: 0 <= i < |segments| ==>
               tagged[i] == segments[i].(lang := Some(DetectLanguages(segments[i].text, detect)))
    ensures forall l :: Detected(l, tagged) <==>
              l != "" && l != Unknown &&
              exists i :: 0 <= i < |segments| && segments[i].text.Some? && !IsBlank(segments[i].text.value)
                          && SomeYields(Chunks(segments[i].text.value), detect, l)
  {
    forall l | l != "" && l != Unknown
      ensures Listed(l, tagged) <==>
              exists i :: 0 <= i < |segments| && segments[i].text.Some? && !IsBlank(segments[i].text.value)
                          && SomeYields(Chunks(segments[i].text.value), detect, l)
    {
      forall i | 0 <= i < |segments|
        ensures l in SplitOn(tagged[i].lang.value, {','}) <==>
                segments[i].text.Some? && !IsBlank(segments[i].text.value)
                && SomeYields(Chunks(segments[i].text.value), detect, l)
      {
        TagPiecesMembers(segments[i].text, detect, l);
      }
    }
  }

  /** The pieces of one tag, as far as codes other than the empty code and
      the sentinel go, are the codes of the text's kept chunks. */
  lemma TagPiecesMembers(text: Option<string>, detect: Detector, l: string)
    requires CommaFree(detect) && l != "" && l != Unknown
    ensures l in SplitOn(DetectLanguages(text, detect), {','}) <==>
            text.Some? && !IsBlank(text.value) && SomeYields(Chunks(text.value), detect, l)
  {
    if text.None? || IsBlank(text.value) {
      SplitFree(Unknown, ',');
    } else {
      TagPieces(text.value, detect);
    }
  }
}
