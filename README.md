# Arabic voice helper: verified pronunciation check

This project models the pronunciation check of the Arabic voice helper
backend (`backend.py`) and proves its properties in Dafny. A learner reads
a reference phrase aloud. The recording arrives as a base64 string,
optionally wrapped in a data URL. A speech-to-text service turns it into a
transcript. The transcript is then scored against the reference:

- both texts are normalised by `normalize_arabic`. It deletes every
  character from U+064B to U+065F and the tatweel U+0640, folds alef with
  hamza above, with hamza below and with madda to bare alef, writes teh marbuta as `h` and alef maksura as `y`, and
  strips surrounding whitespace. The range U+064B to U+065F holds the short
  vowels, and also shadda, sukun, maddah, the combining hamza above and
  below, subscript alef and U+0657 to U+065F. So و or ي followed by a
  combining hamza loses it, while the precomposed ؤ and ئ keep theirs; for
  alef, both spellings become bare ا;
- `difflib.SequenceMatcher(None, ref, trans).ratio()` is computed on the two
  normal forms and turned into a whole percentage `score`;
- `match` is `score >= 85`, and the feedback is "Perfect!" from 90,
  "Good try!" from 60, and "Try again" below.

Modules:

- `ArabicNormalizer` (`normalizer.dfy`) holds the normaliser, stage by
  stage: `StripMarks` (the first `re.sub`), `FoldLetters` (the three letter
  substitutions), and `Trim` (`str.strip`, with whitespace as Python's
  `str.isspace` defines it).
- `Similarity` (`similarity.dfy`) holds the matched-character count `M`
  that `SequenceMatcher.ratio()` uses, i.e. Ratcliff/Obershelp as difflib
  implements it:
  - `LongestMatch` is the search of `find_longest_match` over a window of
    both strings. It keeps the longest common block, the earliest in the
    first string, then the earliest in the second.
  - `IsLongestMatch` specifies the block that search must return.
  - `MatchesIn` / `Matches` is the specified total of the blocks found by
    recursing left and right of each block (`get_matching_blocks`).
  - `CountMatches` computes that total with the scan, and
    `CountMatchesIsMatches` proves the two equal.
- `Scoring` (`scoring.dfy`) holds the percentage, the thresholds, the feedback
  messages and the whole response (`AttemptResponse`).
- `AudioPayload` (`payload.dfy`) holds the choice of the base64 payload.
  It is `split(",")[1]` when the upload contains a comma and the whole
  string otherwise. `split` itself is modelled with its round trip with
  `join`. The base64 decoder is a function parameter.

## Model

| member | source | states |
|---|---|---|
| ArabicNormalizer.IsSpace | backend.py:65 | the characters `str.strip()` removes: Python's `str.isspace` set, U+0009 to U+000D, U+001C to U+001F, U+0020, U+0085, U+00A0, U+1680, U+2000 to U+200A, U+2028, U+2029, U+202F, U+205F and U+3000 |
| ArabicNormalizer.IsMark | backend.py:58 | the characters the first substitution deletes: U+064B to U+065F and the tatweel U+0640 |
| ArabicNormalizer.IsVariant | backend.py:60-64 | the letters the later substitutions replace: أ U+0623, إ U+0625, آ U+0622, ة U+0629 and ى U+0649 |
| ArabicNormalizer.StripMarks | backend.py:58 | the result has no character in U+064B..U+065F and no tatweel, is no longer than the input, and is the input itself when the input has none |
| ArabicNormalizer.StripMarksAppend | backend.py:58 | deleting marks distributes over concatenation, so every other character keeps its place in the order |
| ArabicNormalizer.StripMarksChar | backend.py:58 | a single character is deleted exactly when it is a mark |
| ArabicNormalizer.StripMarksCounts | backend.py:58 | every character that is not a mark occurs as often after the deletion as before |
| ArabicNormalizer.FoldChar | backend.py:60-64 | the folded character is never one of أ إ آ ة ى; marks and whitespace are neither created nor destroyed; any other character is unchanged |
| ArabicNormalizer.FoldLetters | backend.py:60-64 | the substitutions are one for one: same length, each character folded in place |
| ArabicNormalizer.FoldLettersSpec | backend.py:60-64 | the result has none of أ إ آ ة ى; it has marks exactly when the input has; it is the input when the input has none of those letters |
| ArabicNormalizer.FoldLettersAppend | backend.py:60-64 | folding distributes over concatenation |
| ArabicNormalizer.LeadingSpaces | backend.py:65 | counts the whitespace prefix: all of it is whitespace and the next character is not |
| ArabicNormalizer.TrailingSpaces | backend.py:65 | counts the whitespace suffix: all of it is whitespace and the character before is not |
| ArabicNormalizer.Trim | backend.py:65 | the result is a contiguous slice of the input, no longer, preceded and followed only by whitespace, and starts and ends with a non-whitespace character |
| ArabicNormalizer.TrimUnique | backend.py:65 | stripping whitespace around a string that has none at its ends gives back exactly that string |
| ArabicNormalizer.TrimIdempotent | backend.py:65 | stripping twice is stripping once |
| ArabicNormalizer.TrimKeepsCharacters | backend.py:65 | stripping introduces neither a mark nor a foldable letter |
| ArabicNormalizer.Normalize | backend.py:54-65 | the empty string normalises to the empty string; the result is no longer than the input and has no mark, no foldable letter and no surrounding whitespace |
| ArabicNormalizer.NormalizeFixedPoints | backend.py:54-65 | a string is its own normal form exactly when it has no mark, no foldable letter and no surrounding whitespace |
| ArabicNormalizer.NormalizeIdempotent | backend.py:54-65 | normalising twice is normalising once |
| ArabicNormalizer.NormalizeIgnoresMark | backend.py:58 | inserting a mark anywhere does not change the normal form |
| ArabicNormalizer.NormalizeFoldsVariant | backend.py:60-64 | exchanging a character for another that folds to the same letter does not change the normal form |
| ArabicNormalizer.AlefVariantsFold | backend.py:60 | أ, إ and آ normalise as ا does |
| ArabicNormalizer.PlaceholdersCollide | backend.py:62-64 | ة normalises as the Latin letter h does and ى as the Latin letter y does |
| Similarity.Run | backend.py:112 | the block that starts at a given pair of positions stays inside the search window |
| Similarity.RunAgrees | backend.py:112 | the characters of such a block coincide pairwise |
| Similarity.ScanRow | backend.py:112 | one row of the search keeps its candidate block inside the window |
| Similarity.ScanRows | backend.py:112 | the whole search keeps its candidate block inside the window |
| Similarity.ScanRowKeepsBest | backend.py:112 | the inner loop's invariant: after the rest of a row, the candidate is the longest block starting at any position scanned so far, and every earlier start gives a strictly shorter one |
| Similarity.ScanRowsKeepsBest | backend.py:112 | after scanning the remaining rows, the candidate is the longest block starting anywhere scanned, and every earlier start gives a shorter one |
| Similarity.LongestMatch | backend.py:112 | the block found lies inside the window, and is empty at the window's corner when nothing matches |
| Similarity.LongestMatchIsLongest | backend.py:112 | the block found is the longest common block of the window, and the earliest of the longest |
| Similarity.IsLongestMatch | backend.py:112 | the block `find_longest_match` must return: inside the window, a common block, no common block is longer, every longest block that starts earlier (in a, then in b) is ruled out, and it is the empty block at (alo, blo) when nothing is shared |
| Similarity.LongestMatchUnique | backend.py:112 | only one block meets that description, so the search result is determined |
| Similarity.MatchesIn | backend.py:112-113 | the matched-character count of a window is at most the length of either side |
| Similarity.CountMatches | backend.py:112-113 | the count the matcher computes is at most the length of either side |
| Similarity.CountMatchesIsMatches | backend.py:112-113 | the count computed with the scan equals the specified count |
| Similarity.Matches | backend.py:112-113 | M is at most the length of either string |
| Similarity.MatchesSplit | backend.py:112-113 | M is the size of the longest block plus M left of it plus M right of it, and 0 when there is no common character |
| Similarity.MatchesAllOnlyIfEqualIn | backend.py:112-113 | a window whose characters are all matched has the same characters on both sides |
| Similarity.MatchesSelf | backend.py:112-113 | a string matches itself in full |
| Similarity.MatchesAllIffEqual | backend.py:112-113 | both strings are matched in full exactly when they are equal |
| Similarity.MatchesPositiveIffSharedChar | backend.py:112-113 | something matches exactly when the strings share a character |
| Similarity.MatchesPrefix | backend.py:112-113 | a prefix matches the string it starts in its full length |
| Scoring.Percent | backend.py:113-114 | the percentage of a ratio 2m/t is the whole part of 200m/t (100 when t is 0), never above 100, and 100 exactly when 2m equals t |
| Scoring.Feedback.Text | backend.py:118 | the three messages exactly as the endpoint spells them: "Perfect!", "Good try!" and "Try again" |
| Scoring.FeedbackFor | backend.py:118 | "Perfect!" exactly from 90, "Good try!" exactly from 60 to 89, "Try again" exactly below 60 |
| Scoring.Score | backend.py:112-114 | the score of two strings is at most 100 |
| Scoring.ScoreMeaning | backend.py:112-114 | the score is the percentage of the specified count M over the total length |
| Scoring.ScoreFullIffEqual | backend.py:112-114 | two strings score 100 exactly when they are equal, both empty included |
| Scoring.SimilarityScore | backend.py:109-114 | a transcript's score against the reference is at most 100 |
| Scoring.PerfectScoreIffSameNormalForm | backend.py:109-114 | the score is 100 exactly when the transcript and the reference have the same normal form |
| Scoring.AttemptResponse | backend.py:120-125 | the response body: the raw transcript, the integer score, the match flag and the feedback text, the fields of the response class at backend.py lines 48-52 |
| Scoring.Grade | backend.py:109-125 | the response echoes the transcript; its score is in 0..100; match holds exactly when the score is at least 85; the message is "Perfect!", "Good try!" or "Try again" exactly in the bands from 90, from 60 to 89 and below 60 |
| Scoring.GradeConsistent | backend.py:116-118 | a match never gets "Try again", "Perfect!" is always a match, and a match that is not perfect scores 85 to 89 and gets "Good try!" |
| Scoring.GradeSameNormalForm | backend.py:109-125 | a transcript with the reference's normal form gets 100, a match and "Perfect!" |
| Scoring.GradeEmptyTranscript | backend.py:109-125 | a transcript whose normal form is empty scores 0 against a non-empty reference, no match and "Try again" |
| Scoring.GradeTruncated | backend.py:109-114 | a transcript that is a prefix of the reference (both in normal form) scores the percentage of twice its length over the total length |
| Scoring.GradeDroppedLetter | backend.py:109-125 | reading a four-letter word without its last letter scores 85: a match with "Good try!" |
| Scoring.ShukranDroppedLetter | backend.py:109-125 | شكرا and شكر are an instance of that case |
| Scoring.GradeShukran | backend.py:109-125 | the transcript شكر of the reference شكرا gets 85, a match and "Good try!" |
| Scoring.GradeVowelledTranscript | backend.py:109-125 | the transcript مرحباً بالعالم, with a fathatan, of the reference مرحبا بالعالم gets 100, a match and "Perfect!" |
| AudioPayload.IndexOf | backend.py:76-77 | the position found holds the first comma |
| AudioPayload.Split | backend.py:77 | split gives at least one piece and no piece contains the separator |
| AudioPayload.JoinSplit | backend.py:77 | joining the pieces with the separator gives back the string |
| AudioPayload.SplitJoin | backend.py:77 | splitting a join of separator-free pieces gives back the pieces |
| AudioPayload.SplitSecond | backend.py:77 | the second piece is the text strictly between the first comma and the next comma, or the end of the string |
| AudioPayload.Payload | backend.py:76-79 | without a comma the payload is the whole upload; with one it is the text strictly between the first comma and the next comma or the end; it never contains a comma (the same selection is repeated at backend.py lines 150-153) |
| AudioPayload.DecodeAudio | backend.py:76-79 | the decoder, a parameter standing for `base64.b64decode`, receives the selected payload; the same call is at backend.py lines 150-153 |
| AudioPayload.DataUrlAndBarePayloadAgree | backend.py:76-79 | a data URL with a comma-free header and its bare payload hand the decoder the same text |
| AudioPayload.LaterPiecesDropped | backend.py:77 | text after a second comma is not part of the payload |

## Left out

- HTTP serving (FastAPI routes, CORS, `HTTPException` wrapping), loading of
  credentials from the environment, and the `/exercise` mock: server
  plumbing and configuration, with no scoring logic in them.
- The ElevenLabs speech-to-text request, the OpenAI transcription, chat and
  speech calls, temporary files and the streaming of speech chunks: these
  are network services and file I/O. The transcript is an arbitrary
  string input of `Scoring.Grade`.
- `base64.b64decode`: a library decoder, passed to
  `AudioPayload.DecodeAudio` as a function parameter. Only which text it
  receives is modelled.
- The sequencing inside `process_attempt` and `process_voice_chat`
  (decode, transcribe, score, respond) is not a separate member. Its pure
  steps are `AudioPayload.Payload` and `Scoring.Grade`.
- Similarity.Matches: does not model difflib's `autojunk` heuristic. That
  heuristic ignores characters that are very frequent in the transcript
  when looking for the longest block, once the transcript has 200 or more
  characters. The model is exact
  for shorter transcripts.
- Scoring.Percent: uses the exact whole part of `200 * M / T`, while
  `int(similarity * 100)` multiplies a floating-point ratio. At a few
  boundaries the float result is one lower, e.g. M = 29, T = 200 gives 28
  where the exact value is 29. Float rounding is out of scope.
- Similarity.MatchesIn: is a ghost function over the block that the
  specification `IsLongestMatch` describes. `Similarity.CountMatches` is
  the executable counterpart. The order in which `get_matching_blocks`
  lists the blocks, and its merging of adjacent blocks, do not change the
  total, so it is not modelled.
