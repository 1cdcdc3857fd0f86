# Speaker diarization annotation — a Dafny model

The repository turns a recording of a clinical conversation into an annotated
record. Diarization splits the audio into speaker turns. Transcription gives
text per segment. A code-switching tagger labels each segment with the
languages it uses (for example `en,hi`). A keyword heuristic then classifies
each speaker as clinician, patient or other, with a confidence.

This project models the deterministic part of that pipeline in
`final_pipeline.py`:

- building the record from the diarization turns;
- aligning the transcription onto the segments by position;
- the tagger `detect_languages_in_text` and the `detectedLanguages` pass;
- the role classifier `assign_roles`.

The language-identification library is an input: a `Detector` maps a chunk
to `Some(code)`, or to `None` where the call raises. Diarization turns and
transcription segments are input sequences.

Modules, one per file:

- `Base` (base.dfy): `Option`.
- `Strings` (strings.dfy): the Python `str` operations used — `strip`, `split`, `join`, `count`, `in`, `lower`, `len(s.split())`.
- `Order` (order.dfy): Python string order and `sorted(set(...))`.
- `SegmentIds` (segment_ids.dfy): the ids `seg_0001`, `seg_0002`, ...
- `Store` (store.dfy): records, step 1 (build) and step 2 (align) of `main`.
- `Tagger` (tagger.dfy): `detect_languages_in_text`.
- `Languages` (languages.dfy): step 3 of `main`, the tagging pass.
- `Roles` (roles.dfy): `assign_roles`.
- `Pipeline` (pipeline.dfy): steps 1 to 4 in sequence.

A few behaviours of the code are easy to misread; the model keeps them:

- A non-blank text whose every chunk trims to fewer than two characters is tagged `""`, not `"unknown"` (`Tagger.ShortChunksGiveEmptyTag`).
- A speaker with no transcribed text is not always `other` with confidence 0.5. The commas that join its `"unknown"` tags count as code-switching, so with n ≥ 2 segments it is `patient` with confidence (n − 1)/2 (`Roles.UntranscribedSpeaker`).
- The confidence is not bounded by 1 (`Roles.ConfidenceAboveOne`).
- Segment ids sort in segment order only up to 9999 segments (`SegmentIds.SegmentIdsSortBreaksAt10000`).

## Model

| member | source | states |
|---|---|---|
| Strings.Strip | final_pipeline.py:88 | `strip()` removes whitespace at both ends only: the result sits in the input with blank text on either side, neither end of a non-empty result is whitespace, and it is empty exactly when the input is blank |
| Strings.SplitJoin | final_pipeline.py:178 | splitting a comma-joined tag at its commas gives the joined codes back when no code holds a comma |
| Strings.JoinSplit | final_pipeline.py:178 | joining the pieces of a split with the separator rebuilds the string |
| Strings.Count | final_pipeline.py:113-114 | `count` is zero exactly when the pattern does not occur, and never exceeds the length |
| Strings.CountJoinSeparators | final_pipeline.py:108 | in a comma-join of comma-free pieces, `count(",")` is the number of pieces minus one |
| Strings.CharSubstring | final_pipeline.py:114 | a one-character pattern occurs exactly when the character is present |
| Strings.Lower | final_pipeline.py:107 | lower-casing maps every character on its own and keeps the length |
| Strings.WordCount | final_pipeline.py:121 | `len(text.split())` is zero exactly for blank text and at most the length |
| Strings.WordCountLower | final_pipeline.py:107 | lower-casing does not change the number of words |
| Order.Insert | final_pipeline.py:93 | adding a code to a sorted set keeps it strictly sorted, with exactly the old members and the new one |
| Order.SortedSet | final_pipeline.py:96 | `sorted(set)` is strictly increasing and has exactly the members of the input |
| Order.SortedUnique | final_pipeline.py:96 | two strictly sorted lists with the same members are equal, so the order of insertion never shows |
| SegmentIds.Pad4Facts | final_pipeline.py:151 | `f"{n:04d}"` is a digit string of at least four characters, exactly four below 10000, reading back as n, with no leading zero when longer than four; together these fix the string for every n |
| SegmentIds.SegmentIdInjective | final_pipeline.py:151 | different positions get different ids |
| SegmentIds.SegmentIdsSortInOrder | final_pipeline.py:151 | below 10000, the string order of ids is the order of positions |
| SegmentIds.SegmentIdsSortBreaksAt10000 | final_pipeline.py:151 | "seg_10000" sorts before "seg_9999" |
| Store.BuildRecord | final_pipeline.py:145-165 | one segment per turn with id `seg_` + padded position, its speaker and bounds, no text and no tag; speakers are the labels each once in first-appearance order with no role and no confidence; encounter id `enc_001`, no detected languages; ids distinct, and increasing below 10000 turns |
| Store.FirstAppearancesInOrder | final_pipeline.py:147-149 | the `if speaker not in speakers` loop lists every label, only labels, each once, ordered by first occurrence |
| Store.SegmentIdsOrdered | final_pipeline.py:150-151 | segments numbered by position have distinct ids, in increasing string order below 10000 |
| Store.AlignTranscript | final_pipeline.py:170-172 | segment i gets the stripped transcription segment i exactly when i is below the transcription length; later segments and all other fields are unchanged |
| Strings.SplitRebuild | final_pipeline.py:85 | a split at a set of separators has one more piece than the separators the string holds, and gluing the pieces back with those separators, in order, gives the string |
| Tagger.Chunks | final_pipeline.py:85 | `re.split(r"[.?!]", text)`: no chunk holds `.`, `?` or `!`, and the chunks glued back with the text's own terminators, in order, give the text |
| Tagger.ChunkCodes | final_pipeline.py:87-95 | the codes gathered are exactly those of chunks that trim to at least two characters: the detector's answer, or `"unknown"` where it fails |
| Tagger.TagCodes | final_pipeline.py:85-96 | the codes of a text are strictly increasing and are exactly the codes some kept chunk yields |
| Tagger.DetectLanguages | final_pipeline.py:82-96 | missing or blank text is tagged `"unknown"`; text with no kept chunk gets `""`; a single code is the tag itself |
| Tagger.TagIsSortedCodes | final_pipeline.py:82-96 | the tag is the comma-join of any strictly increasing list of exactly the yielded codes, so, with the detector a fixed function, it depends only on the text and the detector |
| Tagger.TagPieces | final_pipeline.py:96 | splitting a non-blank text's tag at commas gives its sorted codes, or the single empty piece when there are none |
| Tagger.ShortChunksGiveEmptyTag | final_pipeline.py:89-96 | a non-blank text whose chunks all trim to fewer than two characters is tagged `""` |
| Languages.AddCodes | final_pipeline.py:178-180 | adding a tag's pieces keeps the set sorted and adds exactly the pieces that are neither empty nor `"unknown"` |
| Languages.TagLanguages | final_pipeline.py:175-181 | each segment's tag becomes the tagger's result on its text; `detectedLanguages` is strictly sorted, holds exactly the codes listed in some tag other than `""` and `"unknown"`; nothing else changes |
| Languages.DetectedAreOracleCodes | final_pipeline.py:175-181 | with comma-free codes, the detected languages are exactly the codes the detector gave for kept chunks of non-blank segment texts, other than `""` and `"unknown"` |
| Languages.TagPiecesMembers | final_pipeline.py:178 | a code other than `""` and `"unknown"` is a piece of a segment's tag exactly when a kept chunk of its non-blank text yields it |
| Roles.SpeakerSegmentsMembers | final_pipeline.py:106 | a speaker's selection holds exactly the segments with that speaker label |
| Roles.SpeakerSegmentsConcat | final_pipeline.py:106 | selection distributes over concatenation, keeping record order |
| Roles.Texts | final_pipeline.py:107 | each segment contributes its text, or `""` when it has none; Roles.Aggregate joins these with spaces and lower-cases them into `text_all` |
| Roles.Langs | final_pipeline.py:108 | each segment contributes its tag, or `""` when it has none; Roles.Aggregate joins these with commas into `langs_all` |
| Roles.KeywordScore | final_pipeline.py:110-111 | the keyword score is at most the number of keywords (0..7 and 0..8) |
| Roles.KeywordScoreCountsPresent | final_pipeline.py:110-111 | for a list without repeats, the score is the number of distinct keywords present, however often each occurs |
| Roles.Score | final_pipeline.py:110-114 | the keyword scores are bounded by the list sizes; the "en" count is zero exactly when "en" is absent, the comma count exactly when no comma is present, and the word count exactly when the text is blank |
| Roles.DecideByTotals | final_pipeline.py:116-127 | with totals `clin + 0.5·en` and `pat + 0.5·commas`, the larger total wins with confidence total / max(1, words); a tie gives `other` with 0.5; the confidence is never negative. This is the meaning of Roles.Decide, which computes the decision on doubled whole numbers |
| Roles.Classify | final_pipeline.py:105-127 | a speaker entry keeps its id and always gets a role and a confidence |
| Roles.AssignRoles | final_pipeline.py:105-127 | each speaker keeps its id and gets the classification of its own segments; speakers keep their order; segments and every other field are unchanged |
| Roles.OtherSpeakersIgnored | final_pipeline.py:105-106 | adding or removing other speakers' segments anywhere does not change a speaker's outcome |
| Roles.SameOwnSegments | final_pipeline.py:106 | other speakers' segments drop out of a speaker's selection |
| Roles.UntranscribedSpeaker | final_pipeline.py:105-127 | a speaker whose segments all lack text is `other` with 0.5 when it has one segment, and `patient` with (n − 1)/2 when it has n ≥ 2 |
| Roles.UntranscribedLangs | final_pipeline.py:108-114 | n `"unknown"` tags joined by commas hold no "en" and exactly n − 1 commas |
| Roles.CommasOnly | final_pipeline.py:116-127 | with only the comma signal, zero commas tie as `other`/0.5 and c > 0 commas give `patient` with c/2 |
| Roles.KeywordsPlain | final_pipeline.py:102-103 | every keyword of the two lists starts with a non-space character |
| Roles.ConfidenceAboveOne | final_pipeline.py:121 | scores of one clinician keyword, no patient keyword, one "en", no comma and one word decide `clinician` with confidence 1.5, above 1 |
| Pipeline.BuildAligned | final_pipeline.py:145-172 | after steps 1 and 2, segment i is turn i's segment carrying the stripped transcription segment i when there is one and no tag; speakers are the labels in first-appearance order |
| Pipeline.Annotate | final_pipeline.py:145-184 | after steps 1 to 4, segment i is turn i's segment with its aligned text and that text's tag; speakers are the labels in first-appearance order, each classified on the final segments; detected languages are the sorted codes the tags list |

## Left out

- Model loading, the Hugging Face token check and `sys.exit` (final_pipeline.py:15-27): environment setup and foreign libraries.
- The diarization and transcription calls (final_pipeline.py:143, 147, 169): their outputs are the `turns` and `transcript` inputs.
- The internals of `langdetect.detect` (final_pipeline.py:92): the `Detector` parameter stands in for it. The codes it returns may be any strings, except where a lemma requires that they hold no comma.
- Output folder, JSON, DOCX and timeline image writing (final_pipeline.py:32-77, 166, 186-189): file I/O and rendering.
- `createdAt` and command-line handling (final_pipeline.py:134-138, 164): the timestamp is a parameter, and argv is not modelled.
- Store.BuildRecord: segment bounds are kept as given; the `round(..., 2)` of binary floats is not modelled.
- Roles.DecideByTotals: the confidence is the exact rational; the `round(..., 2)` of a float is not modelled.
- Tagger.DetectLanguages: the detector is a fixed function, so the same chunk always gets the same code and tagging a text twice gives the same tag. The program never seeds langdetect (`DetectorFactory.seed`), and unseeded langdetect may answer differently on repeated calls; that randomness is not modelled, so the determinism stated by Tagger.TagIsSortedCodes holds of the model only.
- Strings.Count: its own contract states only when the count is zero and a bound; exact counts are stated where the model needs them, by Strings.CountJoinSeparators and Strings.CountCharConcat.
- Strings.WordCount: its own contract states only when the count is zero and a bound; the count itself is the number of word starts, as defined.
- Strings.Lower: lower-cases ASCII letters only, not the full Unicode mapping of Python's `lower()`.
- Roles.Classify: its own contract states only that a role and a confidence are set; the decision itself is stated by Roles.DecideByTotals over Roles.Score of the aggregated text and tags.
- Tagger.DetectLanguages: for two or more codes the tag is stated through Tagger.TagIsSortedCodes and Tagger.TagPieces rather than in its own contract.
- app.py: a web upload and download front end with no decision logic.
