/** The data steps of `main` run in order on one recording: the record is
    built from the diarization turns, the transcription is aligned onto it,
    every segment is tagged, and every speaker is classified. */
module Pipeline {
  import opened Base
  import opened Strings
  import opened Order
  import opened Tagger
  import opened Store
  import opened Languages
  import opened Roles

  /** The text segment `i` ends up with: the stripped transcription segment
      at the same position, or none past the end of the transcription. */
  function TextAt(transcript: seq<string>, i: nat): Option<string> {
    if i < |transcript| then Some(Strip(transcript[i])) else None
  }

  /** Steps 1 to 4 of `main`. Segment `i` is the segment of turn `i` with
      its aligned text and that text's tag; the speakers are the labels in
      order of first appearance, each classified on the final segments; the
      detected languages are the codes the tags list. */
  method Annotate(turns: seq<Turn>, transcript: seq<string>, detect: Detector, createdAt: string) returns (rec: Record)
    ensures rec.encounterId == EncounterId && rec.createdAt == createdAt
    ensures |rec.segments| == |turns|
    ensures forall i :: 0 <= i < |turns| ==>
              rec.segments[i] == SegmentOf(turns, i).(text := TextAt(transcript, i),
                                                      lang := Some(DetectLanguages(TextAt(transcript, i), detect)))
    ensures FirstAppearanceOrder(SpeakerIds(rec.speakers), Labels(turns))
    ensures forall k :: 0 <= k < |rec.speakers| ==> rec.speakers[k] == Classify(rec.segments, rec.speakers[k].id, Keywords)
    ensures StrictlySorted(rec.detectedLanguages)
    ensures forall l :: l in rec.detectedLanguages <==> Detected(l, rec.segments)
  {
    var aligned := BuildAligned(turns, transcript, createdAt);
    var tagged := TagLanguages(aligned, detect);
    rec := AssignRoles(tagged);
    assert SpeakerIds(rec.speakers) == SpeakerIds(aligned.speakers);
  }

  /** Steps 1 and 2: segment `i` is the segment of turn `i` with its aligned
      text and no tag yet. */
  method BuildAligned(turns: seq<Turn>, transcript: seq<string>, createdAt: string) returns (rec: Record)
    ensures rec.encounterId == EncounterId && rec.createdAt == createdAt
    ensures |rec.segments| == |turns|
    ensures forall i :: 0 <= i < |turns| ==> rec.segments[i] == SegmentOf(turns, i).(text := TextAt(transcript, i))
    ensures FirstAppearanceOrder(SpeakerIds(rec.speakers), Labels(turns))
  {
    var built := BuildRecord(turns, createdAt);
    rec := AlignTranscript(built, transcript);
    forall i | 0 <= i < |turns| ensures rec.segments[i] == SegmentOf(turns, i).(text := TextAt(transcript, i)) {
      assert built.segments[i].text == None;
    }
  }
}
