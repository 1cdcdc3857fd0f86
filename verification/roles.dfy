/** The heuristic role classifier (`assign_roles`): per speaker, the
    speaker's own text and tags are aggregated, scored against a clinician
    and a patient keyword list plus two language-tag signals, and the larger
    total decides the role, with the total per word as confidence. */
module Roles {
  import opened Base
  import opened Strings
  import opened Tagger
  import opened Store

  /** The two keyword lists the classifier scores a speaker's text against. */
  datatype Lexicon = Lexicon(clinician: seq<string>, patient: seq<string>)

  /** The lists `assign_roles` uses. */
  const Keywords: Lexicon := Lexicon(
    ["how long", "symptoms", "report", "examine", "check", "prescribe", "treatment"],
    ["pain", "fever", "since", "problem", "hurt", "ache", "cough", "medicine"])

  /** A speaker's segments, in record order (`spk_segments`). */
  function SpeakerSegments(segments: seq<Segment>, id: string): (r: seq<Segment>)
    ensures |r| <= |segments|
  {
    if segments == [] then []
    else
      var rest := SpeakerSegments(segments[1..], id);
      if segments[0].speaker == id then [segments[0]] + rest else rest
  }

  /** The selection holds exactly the segments of `segments` that belong to
      speaker `id`. */
  lemma {:induction false} SpeakerSegmentsMembers(segments: seq<Segment>, id: string)
    ensures forall s :: s in SpeakerSegments(segments, id) <==> s in segments && s.speaker == id
    decreases |segments|
  {
    if segments != [] {
      SpeakerSegmentsMembers(segments[1..], id);
      assert forall s :: s in segments <==> s == segments[0] || s in segments[1..] by {
        assert segments == [segments[0]] + segments[1..];
      }
    }
  }

  /** Selecting one speaker's segments distributes over concatenation. */
  lemma {:induction false} SpeakerSegmentsConcat(a: seq<Segment>, b: seq<Segment>, id: string)
    ensures SpeakerSegments(a + b, id) == SpeakerSegments(a, id) + SpeakerSegments(b, id)
    decreases |a|
  {
    if a == [] {
      assert a + b == b;
    } else {
      var ab := a + b;
      assert ab[0] == a[0] && ab[1..] == a[1..] + b;
      SpeakerSegmentsConcat(a[1..], b, id);
      var x, y := SpeakerSegments(a[1..], id), SpeakerSegments(b, id);
      if a[0].speaker == id {
        assert [a[0]] + (x + y) == ([a[0]] + x) + y;
      }
    }
  }

  /** `s["text"] or ""` for each segment. */
  function Texts(segments: seq<Segment>): (r: seq<string>)
    ensures |r| == |segments|
    ensures forall i :: 0 <= i < |segments| ==> r[i] == segments[i].text.GetOr("")
  {
    if segments == [] then [] else [segments[0].text.GetOr("")] + Texts(segments[1..])
  }

  /** `s["lang"] or ""` for each segment. */
  function Langs(segments: seq<Segment>): (r: seq<string>)
    ensures |r| == |segments|
    ensures forall i :: 0 <= i < |segments| ==> r[i] == segments[i].lang.GetOr("")
  {
    if segments == [] then [] else [segments[0].lang.GetOr("")] + Langs(segments[1..])
  }

  /** What the classifier reads of one speaker: the lower-cased text of its
      segments joined by spaces (`text_all`), and their tags joined by
      commas (`langs_all`). */
  datatype Features = Features(text: string, langs: string)

  function Aggregate(segments: seq<Segment>, id: string): Features {
    var own := SpeakerSegments(segments, id);
    Features(Lower(Join(Texts(own), ' ')), Join(Langs(own), ','))
  }

  /** The number of keywords of `keywords` that occur in `text`. */
  function KeywordScore(text: string, keywords: seq<string>): (r: nat)
    ensures r <= |keywords|
  {
    if keywords == [] then 0
    else (if IsSubstring(keywords[0], text) then 1 else 0) + KeywordScore(text, keywords[1..])
  }

  /** A keyword counts once however often it occurs: for a list without
      repeats, the score is the number of distinct keywords present. */
  lemma {:induction false} KeywordScoreCountsPresent(text: string, keywords: seq<string>)
    requires Distinct(keywords)
    ensures KeywordScore(text, keywords) == |set k | k in keywords && IsSubstring(k, text)|
    decreases |keywords|
  {
    if keywords != [] {
      assert Distinct(keywords[1..]) && keywords[0] !in keywords[1..] by {
        forall a, b | 0 <= a < b < |keywords[1..]| ensures keywords[1..][a] != keywords[1..][b] {
          assert keywords[1..][a] == keywords[a + 1] && keywords[1..][b] == keywords[b + 1];
        }
      }
      KeywordScoreCountsPresent(text, keywords[1..]);
      PresentCons(text, keywords);
    }
  }

  /** The keywords present in a list are those present in its tail, plus
      its head when that is present. */
  lemma PresentCons(text: string, keywords: seq<string>)
    requires keywords != []
    ensures (set k | k in keywords && IsSubstring(k, text))
         == (set k | k in keywords[1..] && IsSubstring(k, text))
            + (if IsSubstring(keywords[0], text) then {keywords[0]} else {})
  {
    assert keywords == [keywords[0]] + keywords[1..];
  }

  /** The signals of one speaker: keyword scores, `langs_all.count("en")`,
      `langs_all.count(",")` and the number of words of the text. */
  datatype Scores = Scores(clinical: nat, patient: nat, enCount: nat, commaCount: nat, words: nat)

  function Score(f: Features, lex: Lexicon): (sc: Scores)
    ensures sc.clinical <= |lex.clinician| && sc.patient <= |lex.patient|
    ensures sc.enCount == 0 <==> !IsSubstring("en", f.langs)
    ensures sc.commaCount == 0 <==> ',' !in f.langs
    ensures sc.words == 0 <==> IsBlank(f.text)
  {
    CharSubstring(',', f.langs);
    Scores(
      KeywordScore(f.text, lex.clinician),
      KeywordScore(f.text, lex.patient),
      Count(f.langs, "en"),
      Count(f.langs, ","),
      WordCount(f.text))
  }

  /** A role with its confidence. */
  datatype Decision = Decision(role: Role, confidence: real)

  /** The role decision on whole numbers: each total doubled, so that the
      half-weighted tag signals stay integral. */
  function Decide(sc: Scores): Decision {
    var clinician2 := 2 * sc.clinical + sc.enCount;
    var patient2 := 2 * sc.patient + sc.commaCount;
    var perWord := if sc.words > 1 then sc.words else 1;
    if clinician2 > patient2 then Decision(Clinician, clinician2 as real / (2 * perWord) as real)
    else if patient2 > clinician2 then Decision(Patient, patient2 as real / (2 * perWord) as real)
    else Decision(Other, 0.5)
  }

  /** The totals are `clin_score + 0.5 * lang_score_clin` and
      `pat_score + 0.5 * lang_score_pat`. The larger total wins, with the
      winning total per word (at least one word) as confidence; a tie gives
      `other` with confidence 0.5. */
  lemma DecideByTotals(sc: Scores)
    ensures var d := Decide(sc);
            var clinician := sc.clinical as real + 0.5 * sc.enCount as real;
            var patient := sc.patient as real + 0.5 * sc.commaCount as real;
            var perWord := (if sc.words > 1 then sc.words else 1) as real;
            && (clinician > patient ==> d == Decision(Clinician, clinician / perWord))
            && (patient > clinician ==> d == Decision(Patient, patient / perWord))
            && (clinician == patient ==> d == Decision(Other, 0.5))
            && d.confidence >= 0.0
  {
  }

  /** The speaker entry `assign_roles` writes for speaker `id`, scoring
      against the keyword lists `lex`. */
  function Classify(segments: seq<Segment>, id: string, lex: Lexicon): (sp: Speaker)
    ensures sp.id == id && sp.role.Some? && sp.confidence.Some?
  {
    var d := Decide(Score(Aggregate(segments, id), lex));
    Speaker(id, Some(d.role), Some(d.confidence))
  }

  /** `assign_roles`: every speaker entry gets a role and a confidence from
      its own segments; the ids, their order, the segments and the rest of
      the record stay as they are. */
  function AssignRoles(rec: Record): (r: Record)
    ensures r == rec.(speakers := r.speakers)
    ensures |r.speakers| == |rec.speakers|
    ensures forall i :: 0 <= i < |rec.speakers| ==>
              r.speakers[i].id == rec.speakers[i].id && r.speakers[i].role.Some? && r.speakers[i].confidence.Some?
    ensures forall i :: 0 <= i < |rec.speakers| ==> r.speakers[i] == Classify(rec.segments, rec.speakers[i].id, Keywords)
  {
    rec.(speakers := seq(|rec.speakers|, i requires 0 <= i < |rec.speakers| => Classify(rec.segments, rec.speakers[i].id, Keywords)))
  }

  /** A speaker's outcome depends on its own segments only: adding or
      removing other speakers' segments anywhere leaves it unchanged. */
  lemma OtherSpeakersIgnored(pre: seq<Segment>, others: seq<Segment>, post: seq<Segment>, id: string, lex: Lexicon)
    requires forall s :: s in others ==> s.speaker != id
    ensures Classify(pre + others + post, id, lex) == Classify(pre + post, id, lex)
  {
    SameOwnSegments(pre, others, post, id);
    assert Aggregate(pre + others + post, id) == Aggregate(pre + post, id);
  }

  /** Segments of other speakers drop out of a speaker's selection. */
  lemma SameOwnSegments(pre: seq<Segment>, others: seq<Segment>, post: seq<Segment>, id: string)
    requires forall s :: s in others ==> s.speaker != id
    ensures SpeakerSegments(pre + others + post, id) == SpeakerSegments(pre + post, id)
  {
    SpeakerSegmentsConcat(pre + others, post, id);
    SpeakerSegmentsConcat(pre, others, id);
    SpeakerSegmentsConcat(pre, post, id);
    NoOwnSegments(others, id);
  }

  /** A list with none of the speaker's segments selects nothing. */
  lemma {:induction false} NoOwnSegments(others: seq<Segment>, id: string)
    requires forall k :: 0 <= k < |others| ==> others[k].speaker != id
    ensures SpeakerSegments(others, id) == []
    decreases |others|
  {
    if others != [] {
      NoOwnSegments(others[1..], id);
    }
  }

  /** Joining blank pieces with a space gives a blank string. */
  lemma {:induction false} JoinBlank(xs: seq<string>)
    requires forall i :: 0 <= i < |xs| ==> IsBlank(xs[i])
    ensures IsBlank(Join(xs, ' '))
    decreases |xs|
  {
    if |xs| > 1 {
      JoinBlank(xs[1..]);
      BlankConcat(xs[0], [' ']);
      BlankConcat(xs[0] + [' '], Join(xs[1..], ' '));
    }
  }

  /** A character that is neither the separator nor in any piece is not in
      the join. */
  lemma {:induction false} JoinAvoids(xs: seq<string>, sep: char, c: char)
    requires c != sep && forall i :: 0 <= i < |xs| ==> c !in xs[i]
    ensures c !in Join(xs, sep)
    decreases |xs|
  {
    if |xs| > 1 {
      JoinAvoids(xs[1..], sep, c);
    }
  }

  /** No keyword with a non-space first character occurs in a blank text. */
  lemma {:induction false} BlankTextScoresZero(text: string, keywords: seq<string>)
    requires IsBlank(text)
    requires forall j :: 0 <= j < |keywords| ==> keywords[j] != [] && !IsSpace(keywords[j][0])
    ensures KeywordScore(text, keywords) == 0
    decreases |keywords|
  {
    if keywords != [] {
      var k := keywords[0];
      forall i | 0 <= i <= |text| - |k| ensures !OccursAt(k, text, i) {
        assert text[i..i + |k|][0] == text[i];
      }
      BlankTextScoresZero(text, keywords[1..]);
    }
  }

  /** Every segment of speaker `id` is untranscribed: no text, and the
      sentinel tag. */
  predicate Untranscribed(segments: seq<Segment>, id: string) {
    forall s :: s in segments && s.speaker == id ==> s.text.None? && s.lang == Some(Unknown)
  }

  /** Every keyword starts with a non-space character. */
  predicate Plain(lex: Lexicon) {
    && (forall j :: 0 <= j < |lex.clinician| ==> lex.clinician[j] != [] && !IsSpace(lex.clinician[j][0]))
    && (forall j :: 0 <= j < |lex.patient| ==> lex.patient[j] != [] && !IsSpace(lex.patient[j][0]))
  }

  /** A speaker none of whose segments was transcribed (so each carries the
      sentinel tag) has no words and no keywords, but the commas joining its
      tags still count as code-switching: with one segment it is `other`
      with confidence 0.5, with n >= 2 segments it is `patient` with
      confidence (n - 1) / 2. */
  lemma UntranscribedSpeaker(segments: seq<Segment>, id: string, lex: Lexicon)
    requires Plain(lex) && Untranscribed(segments, id)
    requires |SpeakerSegments(segments, id)| >= 1
    ensures |SpeakerSegments(segments, id)| == 1 ==> Classify(segments, id, lex) == Speaker(id, Some(Other), Some(0.5))
    ensures |SpeakerSegments(segments, id)| >= 2 ==>
              Classify(segments, id, lex) == Speaker(id, Some(Patient), Some((|SpeakerSegments(segments, id)| - 1) as real / 2.0))
  {
    var n := |SpeakerSegments(segments, id)|;
    assert Score(Aggregate(segments, id), lex) == Scores(0, 0, 0, n - 1, 0) by {
      UntranscribedAggregate(segments, id, lex);
    }
    ClassifyCommasOnly(segments, id, lex, n - 1);
  }

  /** The aggregated signals of such a speaker are the commas alone. */
  lemma UntranscribedAggregate(segments: seq<Segment>, id: string, lex: Lexicon)
    requires Plain(lex) && Untranscribed(segments, id)
    requires |SpeakerSegments(segments, id)| >= 1
    ensures Score(Aggregate(segments, id), lex) == Scores(0, 0, 0, |SpeakerSegments(segments, id)| - 1, 0)
  {
    var own := SpeakerSegments(segments, id);
    SpeakerSegmentsMembers(segments, id);
    assert forall i :: 0 <= i < |own| ==> own[i] in own;
    UntranscribedScores(own, lex);
  }

  /** A speaker whose only signal is `commas` commas in its tags. */
  lemma ClassifyCommasOnly(segments: seq<Segment>, id: string, lex: Lexicon, commas: nat)
    requires Score(Aggregate(segments, id), lex) == Scores(0, 0, 0, commas, 0)
    ensures commas == 0 ==> Classify(segments, id, lex) == Speaker(id, Some(Other), Some(0.5))
    ensures commas > 0 ==> Classify(segments, id, lex) == Speaker(id, Some(Patient), Some(commas as real / 2.0))
  {
    CommasOnly(commas);
  }

  /** Only the comma signal present: a tie at zero, else a patient win. */
  lemma CommasOnly(commas: nat)
    ensures commas == 0 ==> Decide(Scores(0, 0, 0, commas, 0)) == Decision(Other, 0.5)
    ensures commas > 0 ==> Decide(Scores(0, 0, 0, commas, 0)) == Decision(Patient, commas as real / 2.0)
  {
  }

  /** The signals of a run of untranscribed segments: only the n - 1
      commas between their sentinel tags. */
  lemma UntranscribedScores(own: seq<Segment>, lex: Lexicon)
    requires Plain(lex)
    requires forall i :: 0 <= i < |own| ==> own[i].text.None? && own[i].lang == Some(Unknown)
    requires |own| >= 1
    ensures Score(Features(Lower(Join(Texts(own), ' ')), Join(Langs(own), ',')), lex) == Scores(0, 0, 0, |own| - 1, 0)
  {
    UntranscribedText(own, lex);
    UntranscribedLangs(own);
  }

  /** Their text is blank: no keyword, no word. */
  lemma UntranscribedText(own: seq<Segment>, lex: Lexicon)
    requires Plain(lex)
    requires forall i :: 0 <= i < |own| ==> own[i].text.None?
    ensures var text := Lower(Join(Texts(own), ' '));
            KeywordScore(text, lex.clinician) == 0 && KeywordScore(text, lex.patient) == 0 && WordCount(text) == 0
  {
    JoinBlank(Texts(own));
    LowerBlank(Join(Texts(own), ' '));
    var text := Lower(Join(Texts(own), ' '));
    BlankTextScoresZero(text, lex.clinician);
    BlankTextScoresZero(text, lex.patient);
  }

  /** Lower-casing leaves a blank string blank. */
  lemma LowerBlank(s: string)
    requires IsBlank(s)
    ensures IsBlank(Lower(s))
  {
  }

  /** Their tags join to sentinels separated by n - 1 commas, with no "en". */
  lemma UntranscribedLangs(own: seq<Segment>)
    requires forall i :: 0 <= i < |own| ==> own[i].lang == Some(Unknown)
    requires |own| >= 1
    ensures var langs := Join(Langs(own), ',');
            Count(langs, "en") == 0 && Count(langs, ",") == |own| - 1
  {
    var langs := Langs(own);
    assert forall i :: 0 <= i < |langs| ==> langs[i] == Unknown;
    SentinelLetters();
    JoinAvoids(langs, ',', 'e');
    CountAbsentFirst(Join(langs, ','), "en");
    CountJoinSeparators(langs, ',');
  }

  /** The sentinel holds neither an 'e' nor a comma. */
  lemma SentinelLetters()
    ensures 'e' !in Unknown && ',' !in Unknown
  {
    assert Unknown == ['u', 'n', 'k', 'n', 'o', 'w', 'n'];
  }

  /** The keyword lists of `assign_roles` are plain, so an untranscribed
      speaker is classified as above. */
  lemma KeywordsPlain()
    ensures Plain(Keywords)
  {
  }

  /** The confidence is not bounded by 1: scores of one clinician keyword,
      no patient keyword, one "en", no comma and one word decide `clinician`
      with confidence 1.5. */
  lemma ConfidenceAboveOne()
    ensures Decide(Scores(1, 0, 1, 0, 1)) == Decision(Clinician, 1.5)
  {
  }
}
