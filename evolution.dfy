/** The bookkeeping of the evolutionary loop in `main` (train_rl.py), as values: candidate
    ids, filling a generation from a seed and its mutants, the simulated conversation and
    its average score, choosing the winner, and the loser records. The stateful loop that
    uses these lives in module `Training`. */
module Evolution {
  import opened Wrappers
  import opened Text
  import opened Scoring
  import opened Oracle
  import opened Mutation

  // ---------------------------------------------------------------------------
  // Candidates

  /** `f"E{epoch}_C{slot}"`: the generation a candidate belongs to and the loop index of the
      slot it was made for. */
  datatype CandidateId = CandidateId(epoch: nat, slot: nat)

  function IdText(id: CandidateId): string {
    "E" + NatToString(id.epoch) + "_C" + NatToString(id.slot)
  }

  /** Ids are compared as text in the source; distinct ids never print the same. */
  lemma IdTextInjective(a: CandidateId, b: CandidateId)
    requires IdText(a) == IdText(b)
    ensures a == b
  {
    var ea, eb := NatToString(a.epoch), NatToString(b.epoch);
    var sa, sb := NatToString(a.slot), NatToString(b.slot);
    assert '_' !in ea && '_' !in eb;
    assert IdText(a)[1..] == ea + ['_'] + ("C" + sa);
    assert IdText(b)[1..] == eb + ['_'] + ("C" + sb);
    CutAt(ea, eb, "C" + sa, "C" + sb, '_');
    assert sa == ("C" + sa)[1..] && sb == ("C" + sb)[1..];
    ParseNatToString(a.epoch);
    ParseNatToString(b.epoch);
    ParseNatToString(a.slot);
    ParseNatToString(b.slot);
  }

  /** `{"id", "msg", "history", "parent"}`: `history` lists the mutation labels that led to
      `msg`, `parent` is `None` for the very first seed. */
  datatype Candidate = Candidate(id: CandidateId, msg: string, history: seq<string>, parent: Option<CandidateId>)

  /** An entry of `losers`. */
  datatype LoserRecord = LoserRecord(epoch: nat, id: CandidateId, msg: string, history: seq<string>,
                                     parent: Option<CandidateId>, lastMutation: Option<string>, score: real)

  /** An entry of `final_winners`. */
  datatype WinnerRecord = WinnerRecord(score: real, mutation: string)

  /** The texts of a population, `[c["msg"] for c in population]`. The source compares a
      new mutant against the population's texts and against the losers' texts, which are
      records of two different shapes; `LoserTexts` is the same projection over loser
      records. */
  function Texts(pop: seq<Candidate>): (ts: seq<string>)
    ensures |ts| == |pop| && forall i :: 0 <= i < |pop| ==> ts[i] == pop[i].msg
  {
    seq(|pop|, i requires 0 <= i < |pop| => pop[i].msg)
  }

  function LoserTexts(losers: seq<LoserRecord>): (ts: seq<string>)
    ensures |ts| == |losers| && forall i :: 0 <= i < |losers| ==> ts[i] == losers[i].msg
  {
    seq(|losers|, i requires 0 <= i < |losers| => losers[i].msg)
  }

  predicate DistinctTexts(pop: seq<Candidate>) {
    forall i, j :: 0 <= i < j < |pop| ==> pop[i].msg != pop[j].msg
  }

  // ---------------------------------------------------------------------------
  // Filling a generation

  /** A generation built from `seed` (slot 1) and the mutants returned for slots 2, 3, ...
      in order: a mutant is admitted only if its text differs from every text already in
      the generation and from every text in `banned` (the losers so far); its id keeps the
      slot number, so a rejected slot leaves a gap. */
  function Fill(seed: Candidate, ms: seq<Mutant>, banned: seq<string>): (pop: seq<Candidate>)
    requires seed.id.slot == 1
    ensures 1 <= |pop| <= |ms| + 1 && pop[0] == seed
  {
    if ms == [] then [seed]
    else
      var pop := Fill(seed, ms[..|ms| - 1], banned);
      var m := ms[|ms| - 1];
      if m.text !in Texts(pop) && m.text !in banned then
        pop + [Candidate(CandidateId(seed.id.epoch, |ms| + 1), m.text, seed.history + [m.edits], Some(seed.id))]
      else pop
  }

  /** What `Fill` admits: distinct texts, none of them banned; every mutant has the seed as
      parent, the seed's generation, the slot of the mutant it came from, that mutant's
      text, and the seed's history with that mutant's label appended; slots increase. */
  lemma {:induction false} FillShape(seed: Candidate, ms: seq<Mutant>, banned: seq<string>)
    requires seed.id.slot == 1
    ensures var pop := Fill(seed, ms, banned);
      DistinctTexts(pop)
      && (forall i :: 1 <= i < |pop| ==>
            pop[i].msg !in banned && pop[i].parent == Some(seed.id) && pop[i].id.epoch == seed.id.epoch
            && 2 <= pop[i].id.slot <= |ms| + 1
            && pop[i].msg == ms[pop[i].id.slot - 2].text
            && pop[i].history == seed.history + [ms[pop[i].id.slot - 2].edits])
      && (forall i, j :: 0 <= i < j < |pop| ==> pop[i].id.slot < pop[j].id.slot)
    decreases |ms|
  {
    if ms != [] {
      var front := ms[..|ms| - 1];
      FillShape(seed, front, banned);
      var pop := Fill(seed, front, banned);
      var m := ms[|ms| - 1];
      if m.text !in Texts(pop) && m.text !in banned {
        var pop' := Fill(seed, ms, banned);
        assert pop' == pop + [Candidate(CandidateId(seed.id.epoch, |ms| + 1), m.text, seed.history + [m.edits], Some(seed.id))];
        forall i | 1 <= i < |pop| ensures ms[pop[i].id.slot - 2] == front[pop[i].id.slot - 2] {
        }
      }
    }
  }

  /** A mutant whose text is new and not banned joins the generation in the next slot. */
  lemma FillAdmits(seed: Candidate, ms: seq<Mutant>, m: Mutant, banned: seq<string>)
    requires seed.id.slot == 1
    requires m.text !in Texts(Fill(seed, ms, banned)) && m.text !in banned
    ensures Fill(seed, ms + [m], banned)
              == Fill(seed, ms, banned)
                 + [Candidate(CandidateId(seed.id.epoch, |ms| + 2), m.text, seed.history + [m.edits], Some(seed.id))]
  {
    assert (ms + [m])[..|ms|] == ms;
  }

  /** A mutant whose text repeats an admitted or a banned text leaves the generation as it is. */
  lemma FillSkips(seed: Candidate, ms: seq<Mutant>, m: Mutant, banned: seq<string>)
    requires seed.id.slot == 1
    requires m.text in Texts(Fill(seed, ms, banned)) || m.text in banned
    ensures Fill(seed, ms + [m], banned) == Fill(seed, ms, banned)
  {
    assert (ms + [m])[..|ms|] == ms;
  }

  /** The last mutant is admitted, into its own slot, when its text is new and not banned. */
  lemma FillAdmitsFresh(seed: Candidate, ms: seq<Mutant>, banned: seq<string>)
    requires seed.id.slot == 1 && ms != []
    ensures var pop := Fill(seed, ms[..|ms| - 1], banned);
      ms[|ms| - 1].text !in Texts(pop) && ms[|ms| - 1].text !in banned ==>
        |Fill(seed, ms, banned)| == |pop| + 1 && Fill(seed, ms, banned)[|pop|].id.slot == |ms| + 1
  {
  }

  /** A slot is left empty only when its mutant repeats a text already admitted from an
      earlier slot, or a banned text. */
  lemma {:induction false} FillRejectsOnlyRepeats(seed: Candidate, ms: seq<Mutant>, banned: seq<string>, k: nat)
    requires seed.id.slot == 1 && k < |ms|
    requires forall i :: 0 <= i < |Fill(seed, ms, banned)| ==> Fill(seed, ms, banned)[i].id.slot != k + 2
    ensures ms[k].text in banned ||
            exists i :: 0 <= i < |Fill(seed, ms, banned)| && Fill(seed, ms, banned)[i].id.slot < k + 2
                        && Fill(seed, ms, banned)[i].msg == ms[k].text
    decreases |ms|
  {
    var front := ms[..|ms| - 1];
    var pop := Fill(seed, front, banned);
    assert pop <= Fill(seed, ms, banned);
    if k < |ms| - 1 {
      assert front[k] == ms[k];
      FillRejectsOnlyRepeats(seed, front, banned, k);
    } else {
      FillAdmitsFresh(seed, ms, banned);
      FillShape(seed, front, banned);
      if ms[k].text !in banned {
        assert ms[k].text in Texts(pop);
        var i :| 0 <= i < |pop| && Texts(pop)[i] == ms[k].text;
        assert pop[i].id.slot <= |front| + 1;
      }
    }
  }

  /** The well-formedness every generation has: a seed in slot 1 of generation `e`, then
      mutants of that generation whose parent is the seed, in increasing slot order, with
      distinct texts, none of them a loser text, and no more than `size` candidates. */
  predicate GenerationOK(pop: seq<Candidate>, e: nat, size: int) {
    1 <= |pop| && (|pop| == 1 || |pop| <= size)
    && pop[0].id == CandidateId(e, 1)
    && DistinctTexts(pop)
    && (forall i :: 1 <= i < |pop| ==> pop[i].parent == Some(pop[0].id) && pop[i].id.epoch == e)
    && (forall i, j :: 0 <= i < j < |pop| ==> pop[i].id.slot < pop[j].id.slot)
  }

  /** What `Fill` produces for `size - 1` mutants is a well-formed generation, and its ids are
      pairwise distinct. */
  lemma FillIsGeneration(seed: Candidate, ms: seq<Mutant>, banned: seq<string>, size: int)
    requires seed.id.slot == 1 && (ms == [] || |ms| + 1 <= size)
    ensures GenerationOK(Fill(seed, ms, banned), seed.id.epoch, size)
    ensures DistinctIds(Fill(seed, ms, banned))
  {
    var pop := Fill(seed, ms, banned);
    FillShape(seed, ms, banned);
    GenerationIdsDistinct(pop, seed.id.epoch, size);
  }

  predicate DistinctIds(pop: seq<Candidate>) {
    forall i, j :: 0 <= i < j < |pop| ==> pop[i].id != pop[j].id
  }

  lemma GenerationIdsDistinct(pop: seq<Candidate>, e: nat, size: int)
    requires 1 <= |pop| && forall i, j :: 0 <= i < j < |pop| ==> pop[i].id.slot < pop[j].id.slot
    ensures DistinctIds(pop)
  {
  }

  // ---------------------------------------------------------------------------
  // A simulated conversation

  /** A persona's endpoint and fixed system message (`config["trainee"]`, `config["partner"]`). */
  datatype AgentConfig = AgentConfig(endpoint: Endpoint, systemMessage: string)

  /** What one conversation depends on besides the candidate text and the starter. */
  datatype Setting = Setting(service: Service, trainee: AgentConfig, partner: AgentConfig, rubric: Rubric)

  /** The reply at turn `k` (call number `first + k`) to the dialog `d` so far: on an even
      turn the trainee answers the whole dialog under the candidate text; on an odd turn the
      partner sees only the last entry, under its own system message. */
  function Reply(st: Setting, first: nat, msg: string, d: seq<string>, k: nat): (r: string)
    requires d != []
  {
    if k % 2 == 0 then CallModel(st.service, first + k, st.trainee.endpoint, TurnTimeout, msg, d)
    else CallModel(st.service, first + k, st.partner.endpoint, TurnTimeout, st.partner.systemMessage, [d[|d| - 1]])
  }

  /** What produces the next dialog entry from the dialog so far and the turn number. */
  type Responder = (seq<string>, nat) -> string

  /** The dialog after `n` turns, starting from `starter`, each turn appending `next`'s
      answer to the dialog so far (`dialog.append(reply)`). */
  function Converse(next: Responder, starter: string, n: nat): (d: seq<string>)
    ensures |d| == n + 1 && d[0] == starter
  {
    if n == 0 then [starter]
    else
      var d := Converse(next, starter, n - 1);
      d + [next(d, n - 1)]
  }

  /** Each dialog is an extension of the shorter ones. */
  lemma {:induction false} ConversePrefix(next: Responder, starter: string, m: nat, n: nat)
    requires m <= n
    ensures Converse(next, starter, n)[..m + 1] == Converse(next, starter, m)
    decreases n
  {
    if m < n {
      ConversePrefix(next, starter, m, n - 1);
      var d := Converse(next, starter, n - 1);
      assert Converse(next, starter, n) == d + [next(d, n - 1)];
      assert (d + [next(d, n - 1)])[..m + 1] == d[..m + 1];
    }
  }

  /** Entry `k + 1` of a dialog is the answer to the entries before it. */
  lemma ConverseTurn(next: Responder, starter: string, n: nat, k: nat)
    requires k < n
    ensures Converse(next, starter, n)[k + 1] == next(Converse(next, starter, n)[..k + 1], k)
  {
    ConversePrefix(next, starter, k + 1, n);
    ConversePrefix(next, starter, k, n);
    var d := Converse(next, starter, n);
    assert d[k + 1] == d[..k + 2][k + 1];
  }

  /** The oracle's replies in a conversation whose calls are numbered from `first`. */
  function Responses(st: Setting, first: nat, msg: string): Responder {
    (d: seq<string>, k: nat) => if d == [] then [] else Reply(st, first, msg, d, k)
  }

  /** The dialog after `n` turns of the conversation for candidate text `msg`. */
  function Dialog(st: Setting, first: nat, msg: string, starter: string, n: nat): (d: seq<string>)
    ensures |d| == n + 1 && d[0] == starter
  {
    Converse(Responses(st, first, msg), starter, n)
  }

  /** One more turn appends the oracle's reply to the dialog so far. */
  lemma DialogStep(st: Setting, first: nat, msg: string, starter: string, n: nat)
    ensures var d := Dialog(st, first, msg, starter, n);
      Dialog(st, first, msg, starter, n + 1) == d + [Reply(st, first, msg, d, n)]
  {
  }

  /** Turn by turn: the trainee's reply at an even turn `k` answers the whole dialog up to
      it, and the partner's reply at an odd turn sees only the trainee line just before. */
  lemma DialogTurn(st: Setting, first: nat, msg: string, starter: string, n: nat, k: nat)
    requires k < n
    ensures var d := Dialog(st, first, msg, starter, n);
      (k % 2 == 0 ==> d[k + 1] == CallModel(st.service, first + k, st.trainee.endpoint, TurnTimeout, msg, d[..k + 1]))
      && (k % 2 == 1 ==> d[k + 1] == CallModel(st.service, first + k, st.partner.endpoint, TurnTimeout,
                                               st.partner.systemMessage, [d[k]]))
  {
    var d := Dialog(st, first, msg, starter, n);
    ConverseTurn(Responses(st, first, msg), starter, n, k);
    assert d[..k + 1][k] == d[k];
  }

  /** How a trainee reply is scored against the entry before it. */
  type Scorer = (string, string) -> real

  function RubricScorer(rubric: Rubric): Scorer {
    (reply: string, previous: string) => ScoreResponse(reply, previous, rubric)
  }

  /** `total_score` after the first `n` turns of the dialog `d`: the trainee reply at each
      even turn `k` (entry `k + 1`) scored against the entry before it. */
  function Total(d: seq<string>, score: Scorer, n: nat): real
    requires n < |d|
  {
    if n == 0 then 0.0
    else Total(d, score, n - 1) + (if (n - 1) % 2 == 0 then score(d[n], d[n - 1]) else 0.0)
  }

  /** The running total only looks at the entries it has reached. */
  lemma {:induction false} TotalOfPrefix(d: seq<string>, e: seq<string>, score: Scorer, n: nat)
    requires n < |d| && d <= e
    ensures Total(d, score, n) == Total(e, score, n)
    decreases n
  {
    if n > 0 {
      TotalOfPrefix(d, e, score, n - 1);
    }
  }

  function Sum(xs: seq<real>): real {
    if xs == [] then 0.0 else Sum(xs[..|xs| - 1]) + xs[|xs| - 1]
  }

  /** The scores of the trainee replies in the first `n` turns, in order. */
  function TraineeScores(d: seq<string>, score: Scorer, n: nat): (ss: seq<real>)
    requires n < |d|
    ensures |ss| == (n + 1) / 2
    ensures forall i :: 0 <= i < |ss| ==> ss[i] == score(d[2 * i + 1], d[2 * i])
  {
    seq((n + 1) / 2, i requires 0 <= i < (n + 1) / 2 => score(d[2 * i + 1], d[2 * i]))
  }

  /** The running total is the sum of the trainee scores: one per even turn, so
      `(n + 1) / 2` of them, and partner replies count for nothing. */
  lemma {:induction false} TotalIsSumOfTraineeScores(d: seq<string>, score: Scorer, n: nat)
    requires n < |d|
    ensures Total(d, score, n) == Sum(TraineeScores(d, score, n))
    decreases n
  {
    if n > 0 {
      TotalIsSumOfTraineeScores(d, score, n - 1);
      var prev, cur := TraineeScores(d, score, n - 1), TraineeScores(d, score, n);
      if (n - 1) % 2 == 0 {
        assert cur[..|cur| - 1] == prev;
      } else {
        assert cur == prev;
      }
    }
  }

  /** `total_score / (turns // 2)`; `None` when the divisor is zero, where the source raises
      `ZeroDivisionError`. Python's `//` rounds down, as Dafny's `/` does for a positive
      divisor. */
  function Average(total: real, turns: int): (r: Option<real>)
    ensures r.None? <==> turns / 2 == 0
    ensures r.None? <==> turns == 0 || turns == 1
  {
    if turns / 2 == 0 then None else Some(total / (turns / 2) as real)
  }

  /** With an even number of turns (at least two) the average is the mean of the trainee
      replies' scores. */
  lemma EvenTurnsAverageIsMean(d: seq<string>, score: Scorer, turns: nat)
    requires turns < |d| && turns >= 2 && turns % 2 == 0
    ensures var ss := TraineeScores(d, score, turns);
      |ss| == turns / 2 && Average(Total(d, score, turns), turns) == Some(Sum(ss) / |ss| as real)
  {
    TotalIsSumOfTraineeScores(d, score, turns);
  }

  /** With an odd number of turns (at least three) the divisor is one less than the number of
      scored replies, so the result exceeds their mean whenever that mean is positive. */
  lemma OddTurnsDivideByOneLess(d: seq<string>, score: Scorer, turns: nat)
    requires turns < |d| && turns >= 3 && turns % 2 == 1
    ensures var ss := TraineeScores(d, score, turns);
      |ss| == turns / 2 + 1 && Average(Total(d, score, turns), turns) == Some(Sum(ss) / (|ss| - 1) as real)
  {
    TotalIsSumOfTraineeScores(d, score, turns);
  }

  // ---------------------------------------------------------------------------
  // Selection and losers

  /** `max(candidate_scores, key=...)`: the first position holding the greatest score. */
  function FirstMax(xs: seq<real>): (w: nat)
    requires xs != []
    ensures w < |xs|
    ensures forall j :: 0 <= j < |xs| ==> xs[j] <= xs[w]
    ensures forall j :: 0 <= j < w ==> xs[j] < xs[w]
  {
    if |xs| == 1 then 0
    else
      var w := FirstMax(xs[..|xs| - 1]);
      if xs[|xs| - 1] > xs[w] then |xs| - 1 else w
  }

  /** The two properties pin the winner down: no other position has both. */
  lemma FirstMaxUnique(xs: seq<real>, w: nat)
    requires w < |xs|
    requires forall j :: 0 <= j < |xs| ==> xs[j] <= xs[w]
    requires forall j :: 0 <= j < w ==> xs[j] < xs[w]
    ensures FirstMax(xs) == w
  {
  }

  /** `cand["history"][-1] if cand["history"] else None` */
  function LastMutation(history: seq<string>): (r: Option<string>)
    ensures r.None? <==> history == []
    ensures r.Some? ==> r.value == history[|history| - 1]
  {
    if history == [] then None else Some(history[|history| - 1])
  }

  function LoserOf(e: nat, c: Candidate, score: real): LoserRecord {
    LoserRecord(e, c.id, c.msg, c.history, c.parent, LastMutation(c.history), score)
  }

  /** The records appended to `losers` in epoch `e`: every candidate whose id is not the
      winner's, in order, with its score. */
  function LoserRecords(e: nat, pop: seq<Candidate>, scores: seq<real>, winner: CandidateId): (ls: seq<LoserRecord>)
    requires |scores| == |pop|
    ensures |ls| <= |pop|
    ensures forall l :: l in ls ==> l.id != winner && l.epoch == e
    ensures forall l :: l in ls ==> exists i :: 0 <= i < |pop| && l == LoserOf(e, pop[i], scores[i])
  {
    if pop == [] then []
    else
      var front := LoserRecords(e, pop[..|pop| - 1], scores[..|scores| - 1], winner);
      var c := pop[|pop| - 1];
      if c.id != winner then front + [LoserOf(e, c, scores[|scores| - 1])] else front
  }

  /** With distinct ids and the winner among them, every candidate but the winner becomes a
      loser: `len(population) - 1` records. */
  lemma {:induction false} LoserCount(e: nat, pop: seq<Candidate>, scores: seq<real>, w: nat)
    requires |scores| == |pop| && w < |pop| && DistinctIds(pop)
    ensures |LoserRecords(e, pop, scores, pop[w].id)| == |pop| - 1
    decreases |pop|
  {
    var n := |pop| - 1;
    if w < n {
      LoserCount(e, pop[..n], scores[..n], w);
      assert pop[n].id != pop[w].id;
    } else {
      LoserCountNone(e, pop[..n], scores[..n], pop[w].id);
    }
  }

  lemma {:induction false} LoserCountNone(e: nat, pop: seq<Candidate>, scores: seq<real>, winner: CandidateId)
    requires |scores| == |pop| && forall i :: 0 <= i < |pop| ==> pop[i].id != winner
    ensures |LoserRecords(e, pop, scores, winner)| == |pop|
    decreases |pop|
  {
    if pop != [] {
      LoserCountNone(e, pop[..|pop| - 1], scores[..|scores| - 1], winner);
    }
  }

  lemma LoserTextsAppend(a: seq<LoserRecord>, b: seq<LoserRecord>)
    ensures LoserTexts(a + b) == LoserTexts(a) + LoserTexts(b)
  {
  }

  /** No loser record of an epoch carries the winner's text. */
  lemma WinnerTextNotLost(e: nat, pop: seq<Candidate>, scores: seq<real>, w: nat)
    requires |scores| == |pop| && w < |pop| && DistinctTexts(pop)
    ensures pop[w].msg !in LoserTexts(LoserRecords(e, pop, scores, pop[w].id))
  {
    var ls := LoserRecords(e, pop, scores, pop[w].id);
    forall k | 0 <= k < |ls| ensures ls[k].msg != pop[w].msg {
      assert ls[k] in ls;
      var i :| 0 <= i < |pop| && ls[k] == LoserOf(e, pop[i], scores[i]);
      assert i != w;
    }
  }

  /** The next generation's seed: the winner's text and history, carried into slot 1 of
      generation `e + 1` with the winner as parent. */
  function CarryOver(winner: Candidate, e: nat): (seed: Candidate)
    ensures seed.id == CandidateId(e + 1, 1) && seed.parent == Some(winner.id)
    ensures seed.msg == winner.msg && seed.history == winner.history
  {
    Candidate(CandidateId(e + 1, 1), winner.msg, winner.history, Some(winner.id))
  }

  /** The best of the recorded winners (`max(final_winners, key=...)`): a greatest score,
      and among equal scores the earliest record, as Python's `max` keeps the first. */
  function Best(ws: seq<WinnerRecord>): (b: WinnerRecord)
    requires ws != []
    ensures b in ws && forall j :: 0 <= j < |ws| ==> ws[j].score <= b.score
    ensures exists k :: 0 <= k < |ws| && b == ws[k] && forall j :: 0 <= j < k ==> ws[j].score < b.score
  {
    var scores := seq(|ws|, i requires 0 <= i < |ws| => ws[i].score);
    var k := FirstMax(scores);
    assert forall j :: 0 <= j < |ws| ==> scores[j] == ws[j].score;
    ws[k]
  }

  /** Winner scores that never go down, and a repeated score that keeps the same text. */
  predicate Monotone(ws: seq<WinnerRecord>) {
    forall i :: 0 < i < |ws| ==>
      (ws[i - 1].score <= ws[i].score && (ws[i - 1].score == ws[i].score ==> ws[i - 1].mutation == ws[i].mutation))
  }

  /** A new winner that scores at least the previous one, and keeps its text on a tie,
      keeps the winners monotone. */
  lemma MonotoneAppend(ws: seq<WinnerRecord>, x: WinnerRecord)
    requires Monotone(ws)
    requires ws != [] ==> ws[|ws| - 1].score <= x.score
                          && (ws[|ws| - 1].score == x.score ==> ws[|ws| - 1].mutation == x.mutation)
    ensures Monotone(ws + [x])
  {
  }

  /** When the winners are monotone, the best is the last one. */
  lemma BestIsLast(ws: seq<WinnerRecord>)
    requires ws != [] && Monotone(ws)
    ensures Best(ws) == ws[|ws| - 1]
  {
    var scores := seq(|ws|, i requires 0 <= i < |ws| => ws[i].score);
    var k := FirstMax(scores);
    MonotoneTail(ws, k);
  }

  lemma {:induction false} MonotoneTail(ws: seq<WinnerRecord>, k: nat)
    requires k < |ws| && Monotone(ws) && ws[k].score >= ws[|ws| - 1].score
    ensures ws[k] == ws[|ws| - 1]
    decreases |ws| - k
  {
    if k < |ws| - 1 {
      assert ws[k].score <= ws[k + 1].score;
      MonotoneUpTo(ws, k + 1, |ws| - 1);
      MonotoneTail(ws, k + 1);
    }
  }

  lemma {:induction false} MonotoneUpTo(ws: seq<WinnerRecord>, i: nat, j: nat)
    requires i <= j < |ws| && Monotone(ws)
    ensures ws[i].score <= ws[j].score
    decreases j - i
  {
    if i < j {
      MonotoneUpTo(ws, i, j - 1);
    }
  }
}
