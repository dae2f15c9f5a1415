/** Scoring of a pronunciation attempt in process_attempt (backend.py):
    both texts are normalised, compared with SequenceMatcher.ratio(), and
    the ratio is turned into a percentage, a match flag and a feedback
    message. */
module Scoring {
  import ArabicNormalizer
  import Similarity

  /** The lowest score that counts as a match. */
  const MatchThreshold: int := 85
  /** The lowest score whose feedback is "Perfect!". */
  const PerfectThreshold: int := 90
  /** The lowest score whose feedback is "Good try!". */
  const GoodTryThreshold: int := 60

  /** int(ratio * 100) for ratio = 2 * m / t, where ratio is 1.0 when
      t == 0: the whole part of the percentage. */
  function Percent(m: nat, t: nat): (s: nat)
    requires 2 * m <= t
    ensures s <= 100
    ensures s == 100 <==> 2 * m == t
    ensures t > 0 ==> s * t <= 200 * m < (s + 1) * t
  {
    if t == 0 then 100 else (200 * m) / t
  }

  /** The three feedback messages the endpoint can return. */
  datatype Feedback = Perfect | GoodTry | TryAgain {
    function Text(): (s: string)
      ensures |s| > 0
    {
      match this
      case Perfect => "Perfect!"
      case GoodTry => "Good try!"
      case TryAgain => "Try again"
    }
  }

  /** The feedback band a score falls into. */
  function FeedbackFor(score: int): (f: Feedback)
    ensures f == Feedback.Perfect <==> score >= PerfectThreshold
    ensures f == Feedback.GoodTry <==> GoodTryThreshold <= score < PerfectThreshold
    ensures f == Feedback.TryAgain <==> score < GoodTryThreshold
  {
    if score >= PerfectThreshold then Feedback.Perfect
    else if score >= GoodTryThreshold then Feedback.GoodTry
    else Feedback.TryAgain
  }

  /** The body of the response: AttemptResponse in backend.py. */
  datatype AttemptResponse = AttemptResponse(transcript: string, score: int, isMatch: bool, feedback: string)

  /** int(SequenceMatcher(None, r, t).ratio() * 100). */
  function Score(r: string, t: string): (s: nat)
    ensures s <= 100
  {
    Percent(Similarity.CountMatches(r, t, Similarity.Whole(r, t)), |r| + |t|)
  }

  /** The score is the percentage of matched characters that the
      specification of SequenceMatcher describes. */
  lemma ScoreMeaning(r: string, t: string)
    ensures Score(r, t) == Percent(Similarity.Matches(r, t), |r| + |t|)
  {
    Similarity.CountMatchesIsMatches(r, t, Similarity.Whole(r, t));
  }

  /** A full score is given exactly when the two strings are equal. */
  lemma ScoreFullIffEqual(r: string, t: string)
    ensures Score(r, t) == 100 <==> r == t
  {
    ScoreMeaning(r, t);
    Similarity.MatchesAllIffEqual(r, t);
  }

  /** The similarity score of a transcript against the reference text:
      the score of their normal forms. */
  function SimilarityScore(reference: string, transcript: string): (s: nat)
    ensures s <= 100
  {
    Score(ArabicNormalizer.Normalize(reference), ArabicNormalizer.Normalize(transcript))
  }

  /** A full score is given exactly when the transcript and the reference
      have the same normal form. */
  lemma PerfectScoreIffSameNormalForm(reference: string, transcript: string)
    ensures SimilarityScore(reference, transcript) == 100 <==>
      ArabicNormalizer.Normalize(reference) == ArabicNormalizer.Normalize(transcript)
  {
    ScoreFullIffEqual(ArabicNormalizer.Normalize(reference), ArabicNormalizer.Normalize(transcript));
  }

  /** Scores a transcript against the reference text. */
  function Grade(reference: string, transcript: string): (resp: AttemptResponse)
    ensures resp.transcript == transcript
    ensures 0 <= resp.score <= 100
    ensures resp.isMatch <==> resp.score >= MatchThreshold
    ensures resp.feedback == "Perfect!" <==> resp.score >= PerfectThreshold
    ensures resp.feedback == "Good try!" <==> GoodTryThreshold <= resp.score < PerfectThreshold
    ensures resp.feedback == "Try again" <==> resp.score < GoodTryThreshold
  {
    var score := SimilarityScore(reference, transcript);
    AttemptResponse(transcript, score, score >= MatchThreshold, FeedbackFor(score).Text())
  }

  /** The flag and the message never contradict each other: every match
      gets an encouraging message and a "Perfect!" is always a match. */
  lemma GradeConsistent(reference: string, transcript: string)
    ensures var resp := Grade(reference, transcript);
      (resp.isMatch ==> resp.feedback != "Try again") &&
      (resp.feedback == "Perfect!" ==> resp.isMatch) &&
      (resp.isMatch && resp.feedback != "Perfect!" ==> resp.feedback == "Good try!" && 85 <= resp.score < 90)
  {
  }

  /** Reading the reference text, with or without its diacritics, hamza
      forms and surrounding spaces, gets the full score. */
  lemma GradeSameNormalForm(reference: string, transcript: string)
    requires ArabicNormalizer.Normalize(reference) == ArabicNormalizer.Normalize(transcript)
    ensures Grade(reference, transcript) == AttemptResponse(transcript, 100, true, "Perfect!")
  {
    PerfectScoreIffSameNormalForm(reference, transcript);
  }

  /** A transcript that normalises to nothing (empty, or only spaces and
      marks) scores nothing against a reference that does not. */
  lemma GradeEmptyTranscript(reference: string, transcript: string)
    requires ArabicNormalizer.Normalize(reference) != ""
    requires ArabicNormalizer.Normalize(transcript) == ""
    ensures Grade(reference, transcript) == AttemptResponse(transcript, 0, false, "Try again")
  {
    var r := ArabicNormalizer.Normalize(reference);
    var t := ArabicNormalizer.Normalize(transcript);
    ScoreMeaning(r, t);
    assert Similarity.Matches(r, t) == 0;
    assert Percent(0, |r|) == 0;
  }

  /** A transcript that stops short of the reference loses exactly the
      characters it leaves out. */
  lemma GradeTruncated(reference: string, transcript: string)
    requires ArabicNormalizer.IsCanonical(reference) && ArabicNormalizer.IsCanonical(transcript)
    requires transcript <= reference
    ensures Grade(reference, transcript).score == Percent(|transcript|, |reference| + |transcript|)
  {
    ArabicNormalizer.NormalizeFixedPoints(reference);
    ArabicNormalizer.NormalizeFixedPoints(transcript);
    Similarity.MatchesPrefix(reference, transcript);
    ScoreMeaning(reference, transcript);
  }

  /** Dropping the final letter of a four-letter word scores 85: a match,
      but only "Good try!". */
  lemma GradeDroppedLetter(word: string, heard: string)
    requires |word| == 4 && heard == word[..3]
    requires ArabicNormalizer.IsCanonical(word) && ArabicNormalizer.IsCanonical(heard)
    ensures Grade(word, heard) == AttemptResponse(heard, 85, true, "Good try!")
  {
    GradeTruncated(word, heard);
    assert Percent(3, 7) == 85;
  }

  /** The phrase shukran (thank you) and the same phrase with its final
      alef not heard meet the conditions of GradeDroppedLetter. */
  lemma ShukranDroppedLetter()
    ensures |"شكرا"| == 4 && "شكر" == "شكرا"[..3]
    ensures ArabicNormalizer.IsCanonical("شكرا") && ArabicNormalizer.IsCanonical("شكر")
  {
  }

  /** Reading shukran without its final alef is a match with "Good try!". */
  lemma GradeShukran()
    ensures Grade("شكرا", "شكر") == AttemptResponse("شكر", 85, true, "Good try!")
  {
    ShukranDroppedLetter();
    GradeDroppedLetter("شكرا", "شكر");
  }

  /** The phrase marhaban bil-alam (hello world). */
  const HelloWorld: string := "مرحبا بالعالم"
  /** The same phrase with a fathatan (U+064B) on the final alef of the
      first word. */
  const HelloWorldVowelled: string := "مرحباً بالعالم"

  /** A transcript that adds a vowel mark to the reference is perfect. */
  lemma GradeVowelledTranscript()
    ensures Grade(HelloWorld, HelloWorldVowelled) == AttemptResponse(HelloWorldVowelled, 100, true, "Perfect!")
  {
    var x, y := "مرحبا", " بالعالم";
    assert HelloWorld == x + y;
    assert HelloWorldVowelled == x + ['ً'] + y;
    ArabicNormalizer.NormalizeIgnoresMark(x, 'ً', y);
    GradeSameNormalForm(HelloWorld, HelloWorldVowelled);
  }
}
