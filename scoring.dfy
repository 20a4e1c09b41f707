/** The heuristic reply score: a base of 5 plus one additive adjustment per rubric
    criterion, with no clamp on the total (`score_response` in train_rl.py).

    Six sections are read unconditionally and are mandatory fields of `Rubric`; every other
    section is optional (`rules.get(name, {})`), and every key the source reads with
    `.get(key, default)` is an `Option` whose default is applied here. A `None` numeric
    bound stands for the source's `float('inf')` default. Rubric numbers are exact reals. */
module Scoring {
  import opened Wrappers
  import opened Text

  // ---------------------------------------------------------------------------
  // Rubric sections

  datatype LengthRule = LengthRule(minWords: real, maxWords: real,
                                   tooShortPenalty: Option<real>, tooLongPenalty: Option<real>)
  datatype RepetitionRule = RepetitionRule(maxRepeatRatio: real, repeatPenalty: Option<real>)
  datatype MarkerRule = MarkerRule(contractions: seq<string>, contractionReward: Option<real>)
  datatype QuestionRule = QuestionRule(reward: Option<real>)
  datatype OnTopicRule = OnTopicRule(keywordOverlapReward: Option<real>, noOverlapPenalty: Option<real>)
  datatype OriginalityRule = OriginalityRule(copyPenalty: Option<real>)

  /** `maxTypos` is part of the configuration but the source never applies it. */
  datatype TypoRule = TypoRule(commonTypos: seq<string>, minTypos: Option<real>, maxTypos: Option<real>,
                               rewardPerTypo: Option<real>, maxReward: Option<real>)
  datatype HedgingRule = HedgingRule(phrases: seq<string>, maxCount: Option<real>, rewardPer: Option<real>)
  /** A phrase list with a per-occurrence reward and a cap: back-channel phrases, personal
      pronouns (whole words), contextual callbacks and empathetic markers. */
  datatype PhraseRule = PhraseRule(phrases: seq<string>, rewardPer: Option<real>, maxReward: Option<real>)
  datatype PunctuationRule = PunctuationRule(punctuations: seq<string>, minVariety: Option<real>, reward: Option<real>)
  datatype EmojiItem = EmojiItem(emoji: Option<string>, reward: Option<real>)
  datatype EmojiRule = EmojiRule(items: seq<EmojiItem>, maxReward: Option<real>)
  datatype DiversityRule = DiversityRule(minStd: Option<real>, reward: Option<real>)
  datatype FollowUpRule = FollowUpRule(rewardPer: Option<real>, maxReward: Option<real>)
  datatype FillerRule = FillerRule(words: seq<string>, maxPenalty: Option<real>, penaltyPer: Option<real>)
  datatype RichnessRule = RichnessRule(minRatio: Option<real>, reward: Option<real>)
  datatype ReadabilityRule = ReadabilityRule(storyMarkers: seq<string>, minLen: Option<real>,
                                             maxLen: Option<real>, reward: Option<real>)

  datatype Rubric = Rubric(
    length: LengthRule,
    repetition: RepetitionRule,
    markers: MarkerRule,
    question: QuestionRule,
    onTopic: OnTopicRule,
    originality: OriginalityRule,
    typos: Option<TypoRule>,
    hedging: Option<HedgingRule>,
    backChannel: Option<PhraseRule>,
    punctuation: Option<PunctuationRule>,
    emojis: Option<EmojiRule>,
    diversity: Option<DiversityRule>,
    pronouns: Option<PhraseRule>,
    callbacks: Option<PhraseRule>,
    empathy: Option<PhraseRule>,
    followUp: Option<FollowUpRule>,
    filler: Option<FillerRule>,
    richness: Option<RichnessRule>,
    readability: Option<ReadabilityRule>)

  /** Every section after the six mandatory ones is absent. */
  predicate NoOptionalSections(rubric: Rubric) {
    rubric.typos.None? && rubric.hedging.None? && rubric.backChannel.None?
    && rubric.punctuation.None? && rubric.emojis.None? && rubric.diversity.None?
    && rubric.pronouns.None? && rubric.callbacks.None? && rubric.empathy.None?
    && rubric.followUp.None? && rubric.filler.None? && rubric.richness.None?
    && rubric.readability.None?
  }

  // ---------------------------------------------------------------------------
  // Arithmetic and counting helpers

  function Min(a: real, b: real): real {
    if a <= b then a else b
  }

  function Max(a: real, b: real): real {
    if a >= b then a else b
  }

  /** `min(x, bound)` where an absent bound is `float('inf')`. */
  function MinBound(x: real, bound: Option<real>): real {
    match bound
    case None => x
    case Some(b) => Min(x, b)
  }

  /** `min(count * rewardPer, maxReward)`, the capped reward most criteria use. */
  function CappedReward(count: nat, rewardPer: real, maxReward: real): (r: real)
    ensures r <= maxReward
    ensures count as real * rewardPer <= maxReward ==> r == count as real * rewardPer
  {
    Min(count as real * rewardPer, maxReward)
  }

  /** `sum(text.count(p.lower()) for p in phrases)`: substring counts of lower-cased phrases. */
  function PhraseCount(text: string, phrases: seq<string>): nat {
    if phrases == [] then 0 else Count(text, Lower(phrases[0])) + PhraseCount(text, phrases[1..])
  }

  /** `sum(tokens.count(w.lower()) for w in words)`: whole-token counts. */
  function WordCount(tokens: seq<string>, words: seq<string>): nat {
    if words == [] then 0 else Occurrences(tokens, Lower(words[0])) + WordCount(tokens, words[1..])
  }

  /** The lower-cased `split()` tokens of a reply. */
  function LowerTokens(response: string): seq<string> {
    Split(Lower(response))
  }

  function SumNat(ls: seq<nat>): nat {
    if ls == [] then 0 else ls[0] + SumNat(ls[1..])
  }

  function Mean(ls: seq<nat>): real
    requires ls != []
  {
    SumNat(ls) as real / |ls| as real
  }

  function SquaredDeviations(ls: seq<nat>, mean: real): (r: real)
    ensures r >= 0.0
  {
    if ls == [] then 0.0
    else
      var d := ls[0] as real - mean;
      d * d + SquaredDeviations(ls[1..], mean)
  }

  /** Population variance of the sentence lengths. */
  function Variance(ls: seq<nat>): (v: real)
    requires ls != []
    ensures v >= 0.0
  {
    SquaredDeviations(ls, Mean(ls)) / |ls| as real
  }

  /** `variance ** 0.5 >= minStd`, stated without the square root: a standard deviation is
      never negative, so it reaches a non-positive bound always and a positive bound exactly
      when the variance reaches the bound's square. An absent bound is infinite. */
  predicate StdAtLeast(ls: seq<nat>, minStd: Option<real>)
    requires ls != []
  {
    match minStd
    case None => false
    case Some(m) => m <= 0.0 || Variance(ls) >= m * m
  }

  // ---------------------------------------------------------------------------
  // The six mandatory criteria

  /** Word-count band: below `min_words` costs `too_short_penalty` (default -2), above
      `max_words` costs `too_long_penalty` (default -1), inside the band nothing. */
  function LengthAdj(response: string, rule: LengthRule): (r: real)
    ensures var wc := |Split(response)| as real;
      (wc < rule.minWords ==> r == rule.tooShortPenalty.GetOr(-2.0))
      && (rule.minWords <= wc <= rule.maxWords ==> r == 0.0)
      && (rule.minWords <= wc && rule.maxWords < wc ==> r == rule.tooLongPenalty.GetOr(-1.0))
  {
    var wc := |Split(response)| as real;
    if wc < rule.minWords then rule.tooShortPenalty.GetOr(-2.0)
    else if wc > rule.maxWords then rule.tooLongPenalty.GetOr(-1.0)
    else 0.0
  }

  /** Repetition: `repeat_penalty` (default -1) when the unique-word count falls below
      `max_repeat_ratio` times the word count, over the lower-cased words of the reply. */
  function RepetitionAdj(response: string, rule: RepetitionRule): real {
    WordsRepetitionAdj(LowerTokens(response), rule)
  }

  /** `len(set(words)) < len(words) * max_repeat_ratio` */
  predicate TooRepetitive(words: seq<string>, ratio: real) {
    (|ToSet(words)| as real) < (|words| as real) * ratio
  }

  /** The repetition rule over a list of words: the penalty exactly when the words are too
      repetitive for the ratio. No words, or a ratio of at most 0, is never penalised; a
      ratio above 1 penalises any non-empty list. */
  function WordsRepetitionAdj(words: seq<string>, rule: RepetitionRule): (r: real)
    ensures r == 0.0 || r == rule.repeatPenalty.GetOr(-1.0)
    ensures TooRepetitive(words, rule.maxRepeatRatio) ==> r == rule.repeatPenalty.GetOr(-1.0)
    ensures !TooRepetitive(words, rule.maxRepeatRatio) ==> r == 0.0
    ensures words == [] || rule.maxRepeatRatio <= 0.0 ==> r == 0.0
    ensures words != [] && rule.maxRepeatRatio > 1.0 ==> r == rule.repeatPenalty.GetOr(-1.0)
  {
    var distinct, total := |ToSet(words)|, |words|;
    assert distinct <= total by { ToSetSize(words); }
    RepetitionThreshold(distinct, total, rule.maxRepeatRatio);
    if TooRepetitive(words, rule.maxRepeatRatio) then rule.repeatPenalty.GetOr(-1.0) else 0.0
  }

  /** Some configured contraction occurs (case-insensitively, as a substring). */
  predicate HasContraction(response: string, contractions: seq<string>) {
    exists k :: 0 <= k < |contractions| && Contains(Lower(response), Lower(contractions[k]))
  }

  /** Contractions: `contraction_reward` (default 1) once if any configured contraction
      occurs, however many do. */
  function ContractionAdj(response: string, rule: MarkerRule): (r: real)
    ensures HasContraction(response, rule.contractions) ==> r == rule.contractionReward.GetOr(1.0)
    ensures r != 0.0 ==> HasContraction(response, rule.contractions)
    ensures rule.contractions == [] ==> r == 0.0
  {
    if HasContraction(response, rule.contractions) then rule.contractionReward.GetOr(1.0) else 0.0
  }

  /** Question: `reward` (default 1) once if the reply contains a `?`. */
  function QuestionAdj(response: string, rule: QuestionRule): (r: real)
    ensures r == 0.0 || r == rule.reward.GetOr(1.0)
    ensures '?' !in response ==> r == 0.0
  {
    if '?' in response then rule.reward.GetOr(1.0) else 0.0
  }

  /** The reply and the partner's message share a lower-cased `split()` token. */
  predicate SharesKeyword(response: string, partner: string) {
    ToSet(LowerTokens(partner)) * ToSet(LowerTokens(response)) != {}
  }

  /** On-topic: with a non-empty partner message, `keyword_overlap_reward` (default 1) when
      a token is shared and `no_overlap_penalty` (default -1) otherwise; nothing when the
      partner message is empty. */
  function OnTopicAdj(response: string, partner: string, rule: OnTopicRule): (r: real)
    ensures partner == [] ==> r == 0.0
    ensures partner != [] && SharesKeyword(response, partner) ==> r == rule.keywordOverlapReward.GetOr(1.0)
    ensures partner != [] && !SharesKeyword(response, partner) ==> r == rule.noOverlapPenalty.GetOr(-1.0)
  {
    if partner == [] then 0.0
    else if SharesKeyword(response, partner) then rule.keywordOverlapReward.GetOr(1.0)
    else rule.noOverlapPenalty.GetOr(-1.0)
  }

  /** Originality: `copy_penalty` (default -2) when the trimmed reply equals the trimmed,
      non-empty partner message up to case. */
  function OriginalityAdj(response: string, partner: string, rule: OriginalityRule): (r: real)
    ensures r != 0.0 ==> partner != [] && Lower(Strip(response)) == Lower(Strip(partner))
    ensures partner != [] && Lower(Strip(response)) == Lower(Strip(partner)) ==> r == rule.copyPenalty.GetOr(-2.0)
  {
    if partner != [] && Lower(Strip(response)) == Lower(Strip(partner)) then rule.copyPenalty.GetOr(-2.0) else 0.0
  }

  /** The adjustment of the six mandatory criteria. */
  function MandatoryAdj(response: string, partner: string, rubric: Rubric): real {
    LengthAdj(response, rubric.length)
    + RepetitionAdj(response, rubric.repetition)
    + ContractionAdj(response, rubric.markers)
    + QuestionAdj(response, rubric.question)
    + OnTopicAdj(response, partner, rubric.onTopic)
    + OriginalityAdj(response, partner, rubric.originality)
  }

  // ---------------------------------------------------------------------------
  // The optional criteria; an absent section is read as an empty one, `{}`

  const NoTypos := TypoRule([], None, None, None, None)

  /** Typos: when the substring count of the configured typos reaches `min_typos`
      (default 0), `min(count * reward_per_typo, max_reward)` (defaults 0). */
  function TypoAdj(response: string, rule: Option<TypoRule>): (r: real)
    ensures rule.None? ==> r == 0.0
    ensures var t := rule.GetOr(NoTypos);
      r != 0.0 ==> PhraseCount(Lower(response), t.commonTypos) as real >= t.minTypos.GetOr(0.0)
    ensures r <= Max(0.0, rule.GetOr(NoTypos).maxReward.GetOr(0.0))
  {
    var t := rule.GetOr(NoTypos);
    var count := PhraseCount(Lower(response), t.commonTypos);
    if count as real >= t.minTypos.GetOr(0.0)
    then CappedReward(count, t.rewardPerTypo.GetOr(0.0), t.maxReward.GetOr(0.0))
    else 0.0
  }

  /** `min(count, max_count)`, where an absent `max_count` leaves the count as it is. */
  function CappedCount(count: nat, maxCount: Option<real>): (c: real)
    ensures c <= count as real
    ensures maxCount.Some? ==> c <= maxCount.value
  {
    Min(count as real, maxCount.GetOr(count as real))
  }

  /** Hedging: the phrase count, first capped at `max_count` (default: uncapped), times
      `reward_per` (default 0). */
  function HedgingAdj(response: string, rule: Option<HedgingRule>): (r: real)
    ensures rule.None? ==> r == 0.0
    ensures rule.Some? && rule.value.maxCount.Some? && rule.value.rewardPer.GetOr(0.0) >= 0.0
      ==> r <= rule.value.maxCount.value * rule.value.rewardPer.GetOr(0.0)
  {
    match rule
    case None => 0.0
    case Some(h) =>
      var capped := CappedCount(PhraseCount(Lower(response), h.phrases), h.maxCount);
      var per := h.rewardPer.GetOr(0.0);
      CapScales(capped, h.maxCount, per);
      capped * per
  }

  lemma CapScales(c: real, bound: Option<real>, per: real)
    requires bound.Some? ==> c <= bound.value
    ensures bound.Some? && per >= 0.0 ==> c * per <= bound.value * per
  {
    if bound.Some? && per >= 0.0 {
      MulMonotone(c, bound.value, per);
    }
  }

  lemma MulMonotone(a: real, b: real, c: real)
    requires a <= b && c >= 0.0
    ensures a * c <= b * c
  {
    assert (b - a) * c >= 0.0;
  }

  /** When `len(set(words)) < len(words) * ratio` holds regardless of the words. */
  lemma RepetitionThreshold(u: nat, n: nat, ratio: real)
    requires u <= n
    ensures n == 0 || ratio <= 0.0 ==> !((u as real) < (n as real) * ratio)
    ensures n > 0 && ratio > 1.0 ==> (u as real) < (n as real) * ratio
  {
    var m := n as real;
    if ratio <= 0.0 {
      MulMonotone(ratio, 0.0, m);
      assert m * ratio <= 0.0;
    }
    if n > 0 && ratio > 1.0 {
      var extra := ratio - 1.0;
      MulPositive(m, extra);
      calc {
        m * ratio;
      ==
        m * (1.0 + extra);
      ==
        m * 1.0 + m * extra;
      >
        m;
      >=
        u as real;
      }
    }
  }

  lemma MulPositive(a: real, b: real)
    requires a > 0.0 && b > 0.0
    ensures a * b > 0.0
  {
  }

  const NoPhrases := PhraseRule([], None, None)

  /** Back-channel phrases, contextual callbacks and empathetic markers: substring counts,
      rewarded `min(count * reward_per, max_reward)` (defaults 0). */
  function PhraseAdj(response: string, rule: Option<PhraseRule>): (r: real)
    ensures rule.None? ==> r == 0.0
    ensures r <= rule.GetOr(NoPhrases).maxReward.GetOr(0.0)
  {
    var p := rule.GetOr(NoPhrases);
    CappedReward(PhraseCount(Lower(response), p.phrases), p.rewardPer.GetOr(0.0), p.maxReward.GetOr(0.0))
  }

  /** Personal pronouns: whole-token counts over the lower-cased `split()` tokens, rewarded
      `min(count * reward_per, max_reward)` (defaults 0). */
  function PronounAdj(response: string, rule: Option<PhraseRule>): (r: real)
    ensures rule.None? ==> r == 0.0
    ensures r <= rule.GetOr(NoPhrases).maxReward.GetOr(0.0)
  {
    var p := rule.GetOr(NoPhrases);
    CappedReward(WordCount(LowerTokens(response), p.phrases), p.rewardPer.GetOr(0.0), p.maxReward.GetOr(0.0))
  }

  const NoPunctuation := PunctuationRule([], None, None)

  /** The distinct configured marks that occur in the reply (case-sensitive substrings). */
  function UsedMarks(response: string, marks: seq<string>): (used: set<string>)
    ensures used <= ToSet(marks)
  {
    set p | p in marks && Contains(response, p)
  }

  /** Punctuation variety: `reward` (default 0) once when at least `min_variety`
      (default 0) distinct configured marks occur. */
  function PunctuationAdj(response: string, rule: Option<PunctuationRule>): (r: real)
    ensures rule.None? ==> r == 0.0
    ensures var p := rule.GetOr(NoPunctuation);
      |UsedMarks(response, p.punctuations)| as real >= p.minVariety.GetOr(0.0) ==> r == p.reward.GetOr(0.0)
    ensures var p := rule.GetOr(NoPunctuation);
      r != 0.0 ==> |UsedMarks(response, p.punctuations)| as real >= p.minVariety.GetOr(0.0)
  {
    var p := rule.GetOr(NoPunctuation);
    if |UsedMarks(response, p.punctuations)| as real >= p.minVariety.GetOr(0.0) then p.reward.GetOr(0.0) else 0.0
  }

  /** `sum(response.count(item.get("emoji", "")) * item.get("reward", 0))`; an item without
      an emoji counts the empty string, `len(response) + 1` times. */
  function EmojiTotal(response: string, items: seq<EmojiItem>): (t: real)
    ensures (forall k :: 0 <= k < |items| ==> items[k].reward.GetOr(0.0) >= 0.0) ==> t >= 0.0
  {
    if items == [] then 0.0
    else
      var n := Count(response, items[0].emoji.GetOr(""));
      var w := items[0].reward.GetOr(0.0);
      assert w >= 0.0 ==> n as real * w >= 0.0 by {
        if w >= 0.0 { MulMonotone(0.0, n as real, w); }
      }
      n as real * w + EmojiTotal(response, items[1..])
  }

  /** Emojis: the item total, capped at `max_reward` (default: uncapped). */
  function EmojiAdj(response: string, rule: Option<EmojiRule>): (r: real)
    ensures rule.None? ==> r == 0.0
    ensures rule.Some? && rule.value.maxReward.Some? ==> r <= rule.value.maxReward.value
    ensures rule.Some? && rule.value.maxReward.None? ==> r == EmojiTotal(response, rule.value.items)
  {
    match rule
    case None => 0.0
    case Some(e) => MinBound(EmojiTotal(response, e.items), e.maxReward)
  }

  /** Sentence-length diversity: with more than one non-blank sentence, `reward`
      (default 0) once when the standard deviation of their word counts reaches `min_std`
      (default: never). */
  function DiversityAdj(response: string, rule: Option<DiversityRule>): (r: real)
    ensures rule.None? ==> r == 0.0
    ensures r != 0.0 ==> |SentenceLengths(response)| > 1 && StdAtLeast(SentenceLengths(response), rule.value.minStd)
    ensures rule.Some? && |SentenceLengths(response)| > 1 && StdAtLeast(SentenceLengths(response), rule.value.minStd)
            ==> r == rule.value.reward.GetOr(0.0)
  {
    var lengths := SentenceLengths(response);
    match rule
    case None => 0.0
    case Some(d) =>
      if |lengths| > 1 && StdAtLeast(lengths, d.minStd) then d.reward.GetOr(0.0) else 0.0
  }

  /** The `?` characters beyond the first: `max(0, q_total - 1)`. */
  function ExtraQuestions(response: string): nat {
    var q := Count(response, "?");
    if q >= 1 then q - 1 else 0
  }

  const NoFollowUp := FollowUpRule(None, None)

  /** Follow-up depth: `min(extra * reward_per, max_reward)` (defaults 0) where `extra` is
      the number of `?` beyond the first. */
  function FollowUpAdj(response: string, rule: Option<FollowUpRule>): (r: real)
    ensures rule.None? ==> r == 0.0
    ensures r <= rule.GetOr(NoFollowUp).maxReward.GetOr(0.0)
    ensures Count(response, "?") <= 1 ==> r == Min(0.0, rule.GetOr(NoFollowUp).maxReward.GetOr(0.0))
  {
    var f := rule.GetOr(NoFollowUp);
    CappedReward(ExtraQuestions(response), f.rewardPer.GetOr(0.0), f.maxReward.GetOr(0.0))
  }

  const NoFiller := FillerRule([], None, None)

  /** Filler words: whole-token counts times `penalty_per`, but never below
      `max_penalty` (defaults 0). */
  function FillerAdj(response: string, rule: Option<FillerRule>): (r: real)
    ensures rule.None? ==> r == 0.0
    ensures r >= rule.GetOr(NoFiller).maxPenalty.GetOr(0.0)
  {
    var f := rule.GetOr(NoFiller);
    Max(f.maxPenalty.GetOr(0.0), WordCount(LowerTokens(response), f.words) as real * f.penaltyPer.GetOr(0.0))
  }

  /** `tokens and len(set(tokens)) / len(tokens) >= min_ratio` */
  predicate RichEnough(tokens: seq<string>, minRatio: real) {
    tokens != [] && (|ToSet(tokens)| as real) / (|tokens| as real) >= minRatio
  }

  /** Lexical richness: for a non-empty reply, `reward` (default 0) once when the ratio of
      distinct to all lower-cased tokens reaches `min_ratio` (default 1.0). */
  function RichnessAdj(response: string, rule: Option<RichnessRule>): (r: real)
    ensures rule.None? ==> r == 0.0
    ensures r != 0.0 ==> RichEnough(LowerTokens(response), rule.value.minRatio.GetOr(1.0))
    ensures rule.Some? && RichEnough(LowerTokens(response), rule.value.minRatio.GetOr(1.0))
            ==> r == rule.value.reward.GetOr(0.0)
  {
    match rule
    case None => 0.0
    case Some(l) =>
      if RichEnough(LowerTokens(response), l.minRatio.GetOr(1.0)) then l.reward.GetOr(0.0) else 0.0
  }

  /** Some story marker occurs in the lower-cased reply (the markers themselves are not
      lower-cased). */
  predicate HasStoryMarker(response: string, markers: seq<string>) {
    exists k :: 0 <= k < |markers| && Contains(Lower(response), markers[k])
  }

  /** `min_len <= avg_len <= max_len`, with the defaults 0 and unbounded. */
  predicate InBand(avg: real, rule: ReadabilityRule) {
    rule.minLen.GetOr(0.0) <= avg && (rule.maxLen.None? || avg <= rule.maxLen.value)
  }

  /** Readability: unless a story marker occurs, `reward` (default 0) once when the mean
      sentence word count lies in `[min_len, max_len]` (defaults 0 and unbounded). */
  function ReadabilityAdj(response: string, rule: Option<ReadabilityRule>): (r: real)
    ensures rule.None? ==> r == 0.0
    ensures r == 0.0 || r == rule.value.reward.GetOr(0.0)
    ensures rule.Some? && HasStoryMarker(response, rule.value.storyMarkers) ==> r == 0.0
    ensures r != 0.0 ==> SentenceLengths(response) != [] && InBand(Mean(SentenceLengths(response)), rule.value)
    ensures rule.Some? && !HasStoryMarker(response, rule.value.storyMarkers) && SentenceLengths(response) != []
              && InBand(Mean(SentenceLengths(response)), rule.value)
            ==> r == rule.value.reward.GetOr(0.0)
  {
    match rule
    case None => 0.0
    case Some(rr) =>
      if HasStoryMarker(response, rr.storyMarkers) then 0.0
      else
        var lengths := SentenceLengths(response);
        if lengths == [] then 0.0
        else
          if InBand(Mean(lengths), rr) then rr.reward.GetOr(0.0) else 0.0
  }

  /** The adjustment of the optional criteria, in the order the source applies them. */
  function OptionalAdj(response: string, rubric: Rubric): real {
    TypoAdj(response, rubric.typos)
    + HedgingAdj(response, rubric.hedging)
    + PhraseAdj(response, rubric.backChannel)
    + PunctuationAdj(response, rubric.punctuation)
    + EmojiAdj(response, rubric.emojis)
    + DiversityAdj(response, rubric.diversity)
    + PronounAdj(response, rubric.pronouns)
    + PhraseAdj(response, rubric.callbacks)
    + PhraseAdj(response, rubric.empathy)
    + FollowUpAdj(response, rubric.followUp)
    + FillerAdj(response, rubric.filler)
    + RichnessAdj(response, rubric.richness)
    + ReadabilityAdj(response, rubric.readability)
  }

  const BaseScore: real := 5.0

  /** `score_response(response, partner_message, rules)`. When every optional section is
      absent, only the six mandatory criteria move the score away from 5. */
  function ScoreResponse(response: string, partner: string, rubric: Rubric): (r: real)
    ensures NoOptionalSections(rubric) ==> r == BaseScore + MandatoryAdj(response, partner, rubric)
  {
    BaseScore + MandatoryAdj(response, partner, rubric) + OptionalAdj(response, rubric)
  }

  // ---------------------------------------------------------------------------
  // Properties of the score

  /** The total is not clamped: for any reply, partner message, rubric and target, changing
      one section's reward yields a score above the target, and another yields one below. */
  lemma ScoreIsUnclamped(response: string, partner: string, rubric: Rubric, target: real)
    ensures exists x: real :: ScoreResponse(response, partner, rubric.(punctuation := Some(PunctuationRule([], None, Some(x))))) > target
    ensures exists x: real :: ScoreResponse(response, partner, rubric.(punctuation := Some(PunctuationRule([], None, Some(x))))) < target
  {
    var s := ScoreResponse(response, partner, rubric);
    var old_ := PunctuationAdj(response, rubric.punctuation);
    var up := target - s + old_ + 1.0;
    var down := target - s + old_ - 1.0;
    assert UsedMarks(response, []) == {};
    assert ScoreResponse(response, partner, rubric.(punctuation := Some(PunctuationRule([], None, Some(up))))) == s - old_ + up;
    assert ScoreResponse(response, partner, rubric.(punctuation := Some(PunctuationRule([], None, Some(down))))) == s - old_ + down;
  }

  /** The `?` reward is paid once: more question marks never change it. */
  lemma {:induction false} QuestionPaidOnce(response: string, more: string, rule: QuestionRule)
    requires '?' in response
    ensures QuestionAdj(response + more, rule) == QuestionAdj(response, rule) == rule.reward.GetOr(1.0)
  {
    var i :| 0 <= i < |response| && response[i] == '?';
    assert (response + more)[i] == '?';
  }

  /** The contraction reward is paid once: a reply that already has a contraction keeps
      exactly that reward whatever text is added to it. */
  lemma ContractionPaidOnce(response: string, more: string, rule: MarkerRule)
    requires HasContraction(response, rule.contractions)
    ensures ContractionAdj(response + more, rule) == ContractionAdj(response, rule) == rule.contractionReward.GetOr(1.0)
  {
    var k :| 0 <= k < |rule.contractions| && Contains(Lower(response), Lower(rule.contractions[k]));
    LowerAppend(response, more);
    ContainsExtend(Lower(response), Lower(more), Lower(rule.contractions[k]));
  }

  /** A reply that echoes a non-empty partner message is charged the copy penalty, whatever
      its surrounding whitespace. */
  lemma EchoIsPenalised(partner: string, pad: string, rule: OriginalityRule)
    requires partner != [] && AllSpace(pad)
    ensures OriginalityAdj(pad + partner + pad, partner, rule) == rule.copyPenalty.GetOr(-2.0)
  {
    StripPadded(partner, pad);
  }

  /** With the default `min_ratio` of 1.0, lexical richness pays exactly for non-empty
      replies in which no lower-cased token repeats. */
  lemma RichnessDefaultMeansNoRepeats(response: string, reward: real)
    requires reward != 0.0
    ensures RichnessAdj(response, Some(RichnessRule(None, Some(reward)))) == reward
        <==> LowerTokens(response) != [] && Distinct(LowerTokens(response))
  {
    var tokens := LowerTokens(response);
    ToSetSize(tokens);
    if tokens != [] {
      RatioAtLeastOne(|ToSet(tokens)|, |tokens|);
    }
  }

  lemma RatioAtLeastOne(u: nat, n: nat)
    requires n > 0
    ensures (u as real) / (n as real) >= 1.0 <==> u >= n
  {
    var q := (u as real) / (n as real);
    assert q * (n as real) == u as real;
    if q >= 1.0 {
      MulMonotone(1.0, q, n as real);
    }
  }

  /** The readability reward is never paid to a reply containing a story marker, and an
      absent marker list never blocks it. */
  lemma ReadabilityIgnoresMarkersWhenNone(response: string, rr: ReadabilityRule)
    requires rr.storyMarkers == []
    ensures !HasStoryMarker(response, rr.storyMarkers)
  {
  }

  /** An emoji item with no emoji key counts the empty string, once per character plus one. */
  lemma MissingEmojiCountsLengthPlusOne(response: string, reward: real)
    ensures EmojiTotal(response, [EmojiItem(None, Some(reward))]) == (|response| + 1) as real * reward
  {
  }
}
