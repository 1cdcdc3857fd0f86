/** The segment store: the record one run builds from the diarization turns,
    and the positional alignment of the transcription onto its segments
    (`main`, steps 1 and 2). */
module Store {
  import opened Base
  import opened Strings
  import opened Order
  import opened SegmentIds

  /** The conversational role a speaker is classified into. */
  datatype Role = Clinician | Patient | Other

  /** One speaker turn as diarization reports it: a speaker label and the
      turn's bounds in seconds. */
  datatype Turn = Turn(speaker: string, start: real, end: real)

  /** One segment of the record. `text` and `lang` are `None` until the
      transcription and tagging passes fill them in. */
  datatype Segment = Segment(
    id: string,
    speaker: string,
    startSec: real,
    endSec: real,
    text: Option<string>,
    lang: Option<string>)

  /** One speaker of the record; `role` and `confidence` are `None` until
      role assignment. */
  datatype Speaker = Speaker(id: string, role: Option<Role>, confidence: Option<real>)

  /** The record a run produces, as persisted to JSON. */
  datatype Record = Record(
    encounterId: string,
    speakers: seq<Speaker>,
    segments: seq<Segment>,
    detectedLanguages: seq<string>,
    createdAt: string)

  /** The encounter identifier every run writes. */
  const EncounterId: string := "enc_001"

  /** The speaker labels of the turns, one per turn, in turn order. */
  function Labels(turns: seq<Turn>): (r: seq<string>)
    ensures |r| == |turns| && forall i :: 0 <= i < |turns| ==> r[i] == turns[i].speaker
  {
    seq(|turns|, i requires 0 <= i < |turns| => turns[i].speaker)
  }

  /** The ids of a speaker list, in order. */
  function SpeakerIds(speakers: seq<Speaker>): (r: seq<string>)
    ensures |r| == |speakers| && forall i :: 0 <= i < |speakers| ==> r[i] == speakers[i].id
  {
    seq(|speakers|, i requires 0 <= i < |speakers| => speakers[i].id)
  }

  /** No string occurs twice. */
  predicate Distinct(xs: seq<string>) {
    forall a, b :: 0 <= a < b < |xs| ==> xs[a] != xs[b]
  }

  /** The position of the first occurrence of `x` in `xs`. */
  function FirstIndex(xs: seq<string>, x: string): (k: nat)
    requires x in xs
    ensures k < |xs| && xs[k] == x
    ensures forall j :: 0 <= j < k ==> xs[j] != x
  {
    if xs[0] == x then 0 else 1 + FirstIndex(xs[1..], x)
  }

  /** `ids` lists each label of `labels` exactly once, in order of first
      appearance. */
  predicate FirstAppearanceOrder(ids: seq<string>, labels: seq<string>) {
    && Distinct(ids)
    && (forall i :: 0 <= i < |labels| ==> labels[i] in ids)
    && (forall a :: 0 <= a < |ids| ==> ids[a] in labels)
    && (forall a, b :: 0 <= a < b < |ids| && ids[a] in labels && ids[b] in labels ==>
          FirstIndex(labels, ids[a]) < FirstIndex(labels, ids[b]))
  }

  /** Step 1 of `main`: one segment per turn, with ids "seg_0001",
      "seg_0002", ... and no text or tag yet, and one speaker per distinct
      label in order of first appearance, not yet classified. */
  method BuildRecord(turns: seq<Turn>, createdAt: string) returns (rec: Record)
    ensures rec.encounterId == EncounterId && rec.createdAt == createdAt && rec.detectedLanguages == []
    ensures |rec.segments| == |turns|
    ensures forall i :: 0 <= i < |turns| ==> rec.segments[i] == SegmentOf(turns, i)
    ensures FirstAppearanceOrder(SpeakerIds(rec.speakers), Labels(turns))
    ensures forall k :: 0 <= k < |rec.speakers| ==> rec.speakers[k].role.None? && rec.speakers[k].confidence.None?
    ensures forall a, b :: 0 <= a < b < |rec.segments| ==> rec.segments[a].id != rec.segments[b].id
    ensures |turns| < 10000 ==>
              forall a, b :: 0 <= a < b < |rec.segments| ==> LexLess(rec.segments[a].id, rec.segments[b].id)
  {
    var labels := Labels(turns);
    var speakers: seq<string> := [];
    var segments: seq<Segment> := [];
    var i := 0;
    while i < |turns|
      invariant 0 <= i <= |turns|
      invariant |segments| == i
      invariant forall k :: 0 <= k < i ==> segments[k] == SegmentOf(turns, k)
      invariant speakers == FirstAppearances(labels[..i])
    {
      var speaker := turns[i].speaker;
      assert labels[..i + 1][..i] == labels[..i];
      if speaker !in speakers {
        speakers := speakers + [speaker];
      }
      segments := segments + [Segment(SegmentId(|segments| + 1), speaker, turns[i].start, turns[i].end, None, None)];
      i := i + 1;
    }
    var entries := seq(|speakers|, k requires 0 <= k < |speakers| => Speaker(speakers[k], None, None));
    rec := Record(EncounterId, entries, segments, [], createdAt);
    assert SpeakerIds(entries) == speakers;
    assert labels[..i] == labels;
    FirstAppearancesInOrder(labels);
    SegmentIdsOrdered(segments);
  }

  /** The segment built from turn `i`: id `SegmentId(i + 1)`, the turn's
      speaker and bounds, no text and no tag. */
  function SegmentOf(turns: seq<Turn>, i: nat): Segment
    requires i < |turns|
  {
    Segment(SegmentId(i + 1), turns[i].speaker, turns[i].start, turns[i].end, None, None)
  }

  /** Each label once, in the order the labels first occur: the list the
      source's `if speaker not in speakers: speakers.append(speaker)` loop
      builds. */
  function FirstAppearances(labels: seq<string>): seq<string> {
    if labels == [] then []
    else
      var seen := FirstAppearances(labels[..|labels| - 1]);
      if labels[|labels| - 1] in seen then seen else seen + [labels[|labels| - 1]]
  }

  /** The speaker list holds every label exactly once, nothing else, in order
      of first appearance. */
  lemma {:induction false} FirstAppearancesInOrder(labels: seq<string>)
    ensures FirstAppearanceOrder(FirstAppearances(labels), labels)
    decreases |labels|
  {
    if labels != [] {
      var p := labels[..|labels| - 1];
      var x := labels[|labels| - 1];
      FirstAppearancesInOrder(p);
      assert labels == p + [x];
      if x in FirstAppearances(p) {
        SeenLabel(FirstAppearances(p), p, x);
      } else {
        NewLabel(FirstAppearances(p), p, x);
      }
    }
  }

  /** A label seen before leaves the speaker list as it was. */
  lemma SeenLabel(seen: seq<string>, p: seq<string>, x: string)
    requires FirstAppearanceOrder(seen, p) && x in seen
    ensures FirstAppearanceOrder(seen, p + [x])
  {
    var labels := p + [x];
    assert forall i :: 0 <= i < |labels| ==> labels[i] in seen by {
      forall i | 0 <= i < |labels| ensures labels[i] in seen {
        if i < |p| {
          assert labels[i] == p[i];
        }
      }
    }
    forall a, b | 0 <= a < b < |seen| && seen[a] in labels && seen[b] in labels
      ensures FirstIndex(labels, seen[a]) < FirstIndex(labels, seen[b])
    {
      assert seen[a] in p && seen[b] in p;
      FirstIndexExtend(p, x, seen[a]);
      FirstIndexExtend(p, x, seen[b]);
    }
  }

  /** A new label joins the end of the speaker list. */
  lemma NewLabel(seen: seq<string>, p: seq<string>, x: string)
    requires FirstAppearanceOrder(seen, p) && x !in seen
    ensures FirstAppearanceOrder(seen + [x], p + [x])
  {
    var labels := p + [x];
    var r := seen + [x];
    assert x !in p;
    assert FirstIndex(labels, x) == |p| by {
      assert labels[|p|] == x;
      assert forall j :: 0 <= j < |p| ==> labels[j] == p[j] && p[j] in p;
    }
    assert Distinct(r);
    assert forall i :: 0 <= i < |labels| ==> labels[i] in r by {
      forall i | 0 <= i < |labels| ensures labels[i] in r {
        if i < |p| {
          assert labels[i] == p[i];
        }
      }
    }
    assert forall a :: 0 <= a < |r| ==> r[a] in labels by {
      forall a | 0 <= a < |r| ensures r[a] in labels {
        if a < |seen| {
          assert r[a] == seen[a];
        }
      }
    }
    forall a, b | 0 <= a < b < |r| && r[a] in labels && r[b] in labels
      ensures FirstIndex(labels, r[a]) < FirstIndex(labels, r[b])
    {
      assert r[a] == seen[a] && r[a] in p;
      FirstIndexExtend(p, x, r[a]);
      if b == |seen| {
        assert FirstIndex(p, r[a]) < |p|;
      } else {
        assert r[b] == seen[b] && r[b] in p;
        FirstIndexExtend(p, x, r[b]);
      }
    }
  }

  /** Appending a label leaves the first position of earlier labels alone. */
  lemma FirstIndexExtend(p: seq<string>, x: string, y: string)
    requires y in p
    ensures FirstIndex(p + [x], y) == FirstIndex(p, y)
  {
    var k := FirstIndex(p, y);
    var k' := FirstIndex(p + [x], y);
    assert (p + [x])[k] == y;
    if k' < |p| {
      assert p[k'] == y;
    }
  }

  /** Segments numbered 1, 2, ... in order have distinct ids, which also sort
      in segment order while there are fewer than 10000 of them. */
  lemma SegmentIdsOrdered(segments: seq<Segment>)
    requires forall k :: 0 <= k < |segments| ==> segments[k].id == SegmentId(k + 1)
    ensures forall a, b :: 0 <= a < b < |segments| ==> segments[a].id != segments[b].id
    ensures |segments| < 10000 ==>
              forall a, b :: 0 <= a < b < |segments| ==> LexLess(segments[a].id, segments[b].id)
  {
    forall a, b | 0 <= a < b < |segments| ensures segments[a].id != segments[b].id {
      SegmentIdInjective(a + 1, b + 1);
    }
    if |segments| < 10000 {
      forall a, b | 0 <= a < b < |segments| ensures LexLess(segments[a].id, segments[b].id) {
        SegmentIdsSortInOrder(a + 1, b + 1);
      }
    }
  }

  /** Step 2 of `main`: segment `i` takes the stripped text of transcription
      segment `i` when there is one; segments past the end of the
      transcription keep their text. Nothing else changes. */
  method AlignTranscript(rec: Record, transcript: seq<string>) returns (r: Record)
    ensures r == rec.(segments := r.segments)
    ensures |r.segments| == |rec.segments|
    ensures forall i :: 0 <= i < |rec.segments| && i < |transcript| ==>
              r.segments[i] == rec.segments[i].(text := Some(Strip(transcript[i])))
    ensures forall i :: |transcript| <= i < |rec.segments| ==> r.segments[i] == rec.segments[i]
  {
    var segments := rec.segments;
    var i := 0;
    while i < |segments|
      invariant 0 <= i <= |segments| == |rec.segments|
      invariant AlignedUpTo(segments, rec.segments, transcript, i)
    {
      if i < |transcript| {
        AlignStep(segments, rec.segments, transcript, i);
        segments := segments[i := segments[i].(text := Some(Strip(transcript[i])))];
      }
      i := i + 1;
    }
    r := rec.(segments := segments);
  }

  /** The first `i` segments of `segments` carry the transcription where it
      reaches; every other segment is as in `original`. */
  ghost predicate AlignedUpTo(segments: seq<Segment>, original: seq<Segment>, transcript: seq<string>, i: nat)
    requires i <= |segments| == |original|
  {
    && (forall k :: 0 <= k < i && k < |transcript| ==>
          segments[k] == original[k].(text := Some(Strip(transcript[k]))))
    && (forall k :: i <= k < |segments| || |transcript| <= k < |segments| ==> segments[k] == original[k])
  }

  /** Filling in segment `i` extends the aligned prefix by one. */
  lemma AlignStep(segments: seq<Segment>, original: seq<Segment>, transcript: seq<string>, i: nat)
    requires i < |segments| == |original| && i < |transcript|
    requires AlignedUpTo(segments, original, transcript, i)
    ensures AlignedUpTo(segments[i := segments[i].(text := Some(Strip(transcript[i])))], original, transcript, i + 1)
  {
  }
}
