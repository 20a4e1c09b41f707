/** The evolutionary loop of `main` in train_rl.py as a class whose fields are the lists and
    the map the source updates in place: the current `population`, the `losers` blacklist,
    the `lineage` of generations, the `evaluated_messages_archive` of scores by text and
    `final_winners`. The oracle is the `service` function, called with a running call
    number; the diff used to label mutations is the `differ` function. */
module Training {
  import opened Wrappers
  import opened Text
  import opened Scoring
  import opened Oracle
  import opened Mutation
  import opened Starters
  import opened Evolution

  /** The parts of `config.yaml` the loop reads; the rubric and the conversation files are
      given already loaded (a file that does not exist is `None`). */
  datatype Config = Config(
    conversationsPerEpoch: Option<int>,
    epochs: Option<int>,
    numDialogTurns: Option<int>,
    trainee: AgentConfig,
    partner: AgentConfig,
    rubric: Rubric,
    conversationFiles: seq<Option<seq<string>>>)

  /** How a run ends: with the best recorded winner (none when no epoch ran), or with the
      `ZeroDivisionError` of an average over `turns // 2 == 0`. */
  datatype Outcome = Finished(best: Option<WinnerRecord>) | DivisionByZero

  /** How the loop's lists and map relate after `epoch` completed epochs: the population is
      the last generation of the lineage and a well-formed generation of epoch `epoch + 1`;
      none of its texts is a loser text; there is one winner per epoch and their scores never
      decrease; the population's first text is the last winner's, stored in the archive with
      its score; and the lineage written last is everything but the newest generation. */
  ghost predicate Consistent(size: int, population: seq<Candidate>, losers: seq<LoserRecord>,
                             lineage: seq<seq<Candidate>>, archive: map<string, real>,
                             finalWinners: seq<WinnerRecord>, savedLineage: seq<seq<Candidate>>,
                             epoch: nat)
  {
    |lineage| == epoch + 1 && population == lineage[epoch]
    && GenerationOK(population, epoch + 1, size)
    && (forall i :: 0 <= i < |population| ==> population[i].msg !in LoserTexts(losers))
    && |finalWinners| == epoch && Monotone(finalWinners)
    && (epoch > 0 ==>
          population[0].msg == finalWinners[epoch - 1].mutation
          && population[0].msg in archive && archive[population[0].msg] == finalWinners[epoch - 1].score
          && savedLineage == lineage[..epoch])
  }

  /** One epoch keeps the loop invariant: the winner (the first best score) is recorded, the
      others become losers, and the next generation starts from the winner's text. */
  lemma {:induction false} EpochKeepsConsistent(
    size: int, population: seq<Candidate>, losers: seq<LoserRecord>, losers': seq<LoserRecord>,
    lineage: seq<seq<Candidate>>, archive: map<string, real>, archive': map<string, real>,
    finalWinners: seq<WinnerRecord>, finalWinners': seq<WinnerRecord>,
    savedLineage: seq<seq<Candidate>>, epoch: nat, scores: seq<real>, next: seq<Candidate>)
    requires Consistent(size, population, losers, lineage, archive, finalWinners, savedLineage, epoch)
    requires |scores| == |population|
    requires forall k :: k in archive ==> k in archive' && archive'[k] == archive[k]
    requires forall i :: 0 <= i < |population| ==>
               population[i].msg in archive' && archive'[population[i].msg] == scores[i]
    requires var w := FirstMax(scores);
             losers' == losers + LoserRecords(epoch + 1, population, scores, population[w].id)
             && finalWinners' == finalWinners + [WinnerRecord(scores[w], population[w].msg)]
    requires GenerationOK(next, epoch + 2, size) && next[0] == CarryOver(population[FirstMax(scores)], epoch + 1)
    requires forall i :: 1 <= i < |next| ==> next[i].msg !in LoserTexts(losers')
    ensures Consistent(size, next, losers', lineage + [next], archive', finalWinners', lineage, epoch + 1)
    ensures epoch > 0 ==> scores[0] == finalWinners[epoch - 1].score
    ensures epoch > 0 && scores[FirstMax(scores)] == scores[0] ==> FirstMax(scores) == 0
  {
    var w := FirstMax(scores);
    var newLosers := LoserRecords(epoch + 1, population, scores, population[w].id);
    var record := WinnerRecord(scores[w], population[w].msg);
    var lineage' := lineage + [next];
    assert DistinctTexts(population);
    WinnerTextNotLost(epoch + 1, population, scores, w);
    LoserTextsAppend(losers, newLosers);
    assert next[0].msg == population[w].msg;
    assert next[0].msg !in LoserTexts(losers');
    if epoch > 0 {
      assert scores[0] == archive[population[0].msg];
      if w != 0 {
        assert scores[0] < scores[w];
      }
    }
    MonotoneAppend(finalWinners, record);
    assert lineage'[..epoch + 1] == lineage;
  }

  /** The first generation, before any epoch, satisfies the loop invariant. */
  lemma FirstGenerationConsistent(size: int, population: seq<Candidate>, archive: map<string, real>,
                                  savedLineage: seq<seq<Candidate>>)
    requires GenerationOK(population, 1, size)
    ensures Consistent(size, population, [], [population], archive, [], savedLineage, 0)
  {
  }

  /** The best of the winners is the last one, and its text is the one carried into the
      current population's first slot. */
  lemma BestIsCarried(size: int, population: seq<Candidate>, losers: seq<LoserRecord>,
                      lineage: seq<seq<Candidate>>, archive: map<string, real>,
                      finalWinners: seq<WinnerRecord>, savedLineage: seq<seq<Candidate>>, epoch: nat)
    requires Consistent(size, population, losers, lineage, archive, finalWinners, savedLineage, epoch)
    requires finalWinners != []
    ensures Best(finalWinners) == finalWinners[|finalWinners| - 1]
    ensures Best(finalWinners).mutation == population[0].msg
  {
    BestIsLast(finalWinners);
  }

  /** The archive after scoring `texts` from `before`: the old keys, the scored texts, and
      nothing else. */
  lemma ArchiveKeys(before: map<string, real>, after: map<string, real>, texts: seq<string>)
    requires forall k :: k in before ==> k in after
    requires forall j :: 0 <= j < |texts| ==> texts[j] in after
    requires forall k :: k in after && k !in before ==> k in texts
    ensures after.Keys == before.Keys + ToSet(texts)
  {
  }

  /** `t` added `n` times. */
  function Times(t: nat, n: nat): nat {
    if n == 0 then 0 else Times(t, n - 1) + t
  }

  lemma {:induction false} TimesIsProduct(t: nat, n: nat)
    ensures Times(t, n) == t * n
  {
    if n > 0 {
      TimesIsProduct(t, n - 1);
      assert t * n == t * (n - 1) + t;
    }
  }

  /** The archive `archive` after the first `i` of `texts` were scored from `before`: old
      entries are kept, each scored text is stored with its score, and every new entry is
      one of `texts`. */
  ghost predicate Scored(before: map<string, real>, archive: map<string, real>, texts: seq<string>, i: nat,
                         scores: seq<real>)
  {
    i <= |texts| && |scores| == i
    && (forall k :: k in before ==> k in archive && archive[k] == before[k])
    && (forall j :: 0 <= j < i ==> texts[j] in archive && archive[texts[j]] == scores[j])
    && (forall k :: k in archive && k !in before ==> k in texts)
  }

  /** `calls` is `start` plus `t` calls for each entry of `archive` that is new since
      `before`. */
  ghost predicate Counted(before: map<string, real>, archive: map<string, real>, start: nat, calls: nat, t: nat) {
    calls == start + Times(t, |archive.Keys - before.Keys|)
  }

  /** Scoring text `i`: a stored text keeps the archive and makes no call; a new text is
      stored with its score `v` after `t` calls. Either way `Scored` moves one text on and
      `Counted` still holds. */
  lemma ScoredStep(before: map<string, real>, stored: map<string, real>, archive: map<string, real>,
                   start: nat, made: nat, calls: nat, t: nat, texts: seq<string>, i: nat, scores: seq<real>, v: real)
    requires Scored(before, stored, texts, i, scores) && Counted(before, stored, start, made, t) && i < |texts|
    requires texts[i] in stored ==> archive == stored && calls == made && v == stored[texts[i]]
    requires texts[i] !in stored ==> archive == stored[texts[i] := v] && calls == made + t
    ensures Scored(before, archive, texts, i + 1, scores + [v]) && Counted(before, archive, start, calls, t)
  {
    ScoredNext(before, stored, texts, i, scores, v, archive);
    if texts[i] !in stored {
      CountedNew(before, stored, start, made, t, texts[i], v);
    }
  }

  /** Storing `v` under text `i`, new or already there with that score, moves `Scored` one
      text on. */
  lemma ScoredNext(before: map<string, real>, stored: map<string, real>, texts: seq<string>, i: nat,
                   scores: seq<real>, v: real, archive: map<string, real>)
    requires Scored(before, stored, texts, i, scores) && i < |texts|
    requires texts[i] in stored ==> archive == stored && v == stored[texts[i]]
    requires texts[i] !in stored ==> archive == stored[texts[i] := v]
    ensures Scored(before, archive, texts, i + 1, scores + [v])
  {
    var scores' := scores + [v];
    assert forall j :: 0 <= j < i ==> scores'[j] == scores[j];
  }

  /** A new key adds `t` calls. */
  lemma CountedNew(before: map<string, real>, stored: map<string, real>, start: nat, made: nat, t: nat,
                   m: string, v: real)
    requires Counted(before, stored, start, made, t) && before.Keys <= stored.Keys && m !in stored
    ensures Counted(before, stored[m := v], start, made + t, t)
  {
    assert stored[m := v].Keys == stored.Keys + {m};
    NewKeyCount(stored.Keys, before.Keys, m);
  }

  /** A text not yet among the keys adds one key to those that are new since `before`. */
  lemma NewKeyCount(keys: set<string>, before: set<string>, m: string)
    requires before <= keys && m !in keys
    ensures |(keys + {m}) - before| == |keys - before| + 1
  {
    assert (keys + {m}) - before == (keys - before) + {m};
  }

  class Controller {
    const config: Config
    const service: Service
    const differ: Differ
    const starters: seq<string>
    /** `mutate_prompt(msg, trainee url, trainee model, ...)` made as call number `callNo`. */
    const mutate: (nat, string) -> Mutant
    /** How a trainee reply is scored: `score_response` under the configured rubric. */
    const scorer: Scorer
    /** `population_size`, `epochs` and `turns`, read once with their defaults. */
    const size: int
    const epochs: int
    const turns: int

    var population: seq<Candidate>
    var losers: seq<LoserRecord>
    var lineage: seq<seq<Candidate>>
    var archive: map<string, real>
    var finalWinners: seq<WinnerRecord>
    /** The lineage as last written to `lineage.json`. */
    var savedLineage: seq<seq<Candidate>>
    /** The number of oracle calls made so far; the next call has this number. */
    var calls: nat
    /** The number of epochs completed. */
    var epoch: nat

    /** How many times `for t in range(turns)` runs. */
    function TurnCount(): nat {
      if turns > 0 then turns else 0
    }

    /** How many mutants `for i in range(2, population_size + 1)` asks for. */
    function Slots(): nat {
      if size >= 2 then size - 1 else 0
    }

    function Setup(): Setting {
      Setting(service, config.trainee, config.partner, config.rubric)
    }

    /** The mutant that call number `callNo` returns for `msg`. */
    function MutantAt(callNo: nat, msg: string): Mutant {
      mutate(callNo, msg)
    }

    /** The mutants the next `n` calls return for `msg`, starting at call number `first`. */
    function MutantsAt(first: nat, msg: string, n: nat): (ms: seq<Mutant>)
      ensures |ms| == n
    {
      if n == 0 then [] else MutantsAt(first, msg, n - 1) + [MutantAt(first + n - 1, msg)]
    }

    /** The average score of one conversation for candidate text `msg`, opened by `starter`,
        whose calls are numbered from `first`. */
    function ConversationScore(first: nat, msg: string, starter: string): Option<real> {
      var d := Dialog(Setup(), first, msg, starter, TurnCount());
      Average(Total(d, scorer, TurnCount()), turns)
    }

    /** `score` is the average of a conversation of `msg` opened by one of the starters. */
    ghost predicate Simulated(msg: string, score: real) {
      exists s, n: nat :: s in starters && ConversationScore(n, msg, s) == Some(score)
    }

    /** The invariant of the loop between epochs. */
    ghost predicate Valid()
      reads this
    {
      starters != []
      && Consistent(size, population, losers, lineage, archive, finalWinners, savedLineage, epoch)
    }

    /** The state `main` starts from, with the starters extracted from the conversation
        files. */
    constructor (config: Config, service: Service, differ: Differ)
      requires TilingDiffer(differ)
      ensures this.config == config && this.service == service && this.differ == differ
      ensures scorer == RubricScorer(config.rubric)
      ensures forall callNo: nat, msg: string ::
                mutate(callNo, msg) == MutatePrompt(service, differ, callNo, config.trainee.endpoint, msg)
      ensures size == config.conversationsPerEpoch.GetOr(10)
      ensures epochs == config.epochs.GetOr(100)
      ensures turns == config.numDialogTurns.GetOr(10)
      ensures starters != []
      ensures Pools(config.conversationFiles, SpeakerWords) == [] ==> starters == [DefaultStarter]
      ensures Pools(config.conversationFiles, SpeakerWords) != [] ==> IsSelection(Pools(config.conversationFiles, SpeakerWords), starters)
      ensures population == [] && losers == [] && lineage == [] && archive == map[]
      ensures finalWinners == [] && savedLineage == [] && calls == 0 && epoch == 0
    {
      this.config := config;
      this.service := service;
      this.differ := differ;
      scorer := RubricScorer(config.rubric);
      mutate := (callNo: nat, msg: string) => MutatePrompt(service, differ, callNo, config.trainee.endpoint, msg);
      size := config.conversationsPerEpoch.GetOr(10);
      epochs := config.epochs.GetOr(100);
      turns := config.numDialogTurns.GetOr(10);
      var s := ExtractStarters(config.conversationFiles, SpeakerWords);
      starters := s;
      population := [];
      losers := [];
      lineage := [];
      archive := map[];
      finalWinners := [];
      savedLineage := [];
      calls := 0;
      epoch := 0;
    }

    /** Builds a generation from `seed`: one mutation request per slot 2..population_size,
        each admitted only if its text is new to the generation and not a loser text. */
    method FillGeneration(seed: Candidate) returns (pop: seq<Candidate>)
      requires seed.id.slot == 1
      modifies this`calls
      ensures pop == Fill(seed, MutantsAt(old(calls), seed.msg, Slots()), LoserTexts(losers))
      ensures calls == old(calls) + Slots()
    {
      var first := calls;
      var banned := LoserTexts(losers);
      pop := [seed];
      ghost var ms: seq<Mutant> := [];
      var i := 2;
      while i <= size
        invariant 2 <= i && (size >= 2 ==> i <= size + 1) && (size < 2 ==> i == 2)
        invariant ms == MutantsAt(first, seed.msg, i - 2)
        invariant pop == Fill(seed, ms, banned)
        invariant calls == first + i - 2
      {
        var m := MutantAt(calls, seed.msg);
        assert MutantsAt(first, seed.msg, i - 1) == ms + [m];
        calls := calls + 1;
        if m.text !in Texts(pop) && m.text !in banned {
          FillAdmits(seed, ms, m, banned);
          pop := pop + [Candidate(CandidateId(seed.id.epoch, i), m.text, seed.history + [m.edits], Some(seed.id))];
        } else {
          FillSkips(seed, ms, m, banned);
        }
        ms := ms + [m];
        i := i + 1;
      }
    }

    /** One simulated conversation for candidate text `msg`: a starter chosen at random, then
        `turns` alternating trainee and partner calls, and the average of the trainee
        scores (`None` where the source divides by zero). */
    method Simulate(msg: string) returns (starter: string, dialog: seq<string>, avg: Option<real>)
      requires starters != []
      modifies this`calls
      ensures starter in starters
      ensures dialog == Dialog(Setup(), old(calls), msg, starter, TurnCount())
      ensures avg == ConversationScore(old(calls), msg, starter)
      ensures calls == old(calls) + TurnCount()
    {
      var first := calls;
      var st := Setup();
      assert starters[0] in starters;
      starter :| starter in starters;
      dialog := [starter];
      var total := 0.0;
      var t := 0;
      while t < TurnCount()
        invariant 0 <= t <= TurnCount()
        invariant dialog == Dialog(st, first, msg, starter, t)
        invariant total == Total(dialog, scorer, t)
        invariant calls == first + t
      {
        var previous := dialog;
        var reply := Reply(st, first, msg, dialog, t);
        DialogStep(st, first, msg, starter, t);
        calls := calls + 1;
        dialog := dialog + [reply];
        if t % 2 == 0 {
          var score := scorer(reply, dialog[|dialog| - 2]);
          total := total + score;
        }
        TotalOfPrefix(previous, dialog, scorer, t);
        t := t + 1;
      }
      avg := Average(total, turns);
    }

    /** Scores one candidate: a text already in the archive is not simulated again and makes
        no oracle call; otherwise one conversation is simulated and its average is stored
        under the text. */
    method Evaluate(c: Candidate) returns (score: Option<real>)
      requires starters != []
      modifies this`archive, this`calls
      ensures c.msg in old(archive) ==> score == Some(old(archive)[c.msg]) && archive == old(archive) && calls == old(calls)
      ensures c.msg !in old(archive) ==>
                (exists s :: s in starters && score == ConversationScore(old(calls), c.msg, s))
                && calls == old(calls) + TurnCount()
                && archive == (if score.Some? then old(archive)[c.msg := score.value] else old(archive))
      ensures score.Some? ==> c.msg in archive && archive[c.msg] == score.value
      ensures forall k :: k in old(archive) ==> k in archive && archive[k] == old(archive)[k]
      ensures score.Some? && c.msg !in old(archive) ==> Simulated(c.msg, score.value)
      ensures score.None? ==> turns / 2 == 0 && archive == old(archive)
      ensures turns / 2 == 0 && c.msg !in old(archive) ==> score.None?
    {
      if c.msg in archive {
        score := Some(archive[c.msg]);
        return;
      }
      var starter, dialog, avg := Simulate(c.msg);
      assert avg.None? <==> turns / 2 == 0 by {
        var d := Dialog(Setup(), old(calls), c.msg, starter, TurnCount());
        assert avg == Average(Total(d, scorer, TurnCount()), turns);
      }
      score := avg;
      if avg.Some? {
        archive := archive[c.msg := avg.value];
      }
    }

    /** Every entry that is new since `before` is the average of a conversation. */
    ghost predicate NewSimulated(before: map<string, real>)
      reads this
    {
      forall k :: k in archive && k !in before ==> Simulated(k, archive[k])
    }

    /** Storing the average `v` of a conversation of `m` keeps every new entry simulated. */
    lemma SimulatedKept(before: map<string, real>, stored: map<string, real>, m: string, v: real)
      requires forall k :: k in stored && k !in before ==> Simulated(k, stored[k])
      requires Simulated(m, v)
      ensures forall k :: k in stored[m := v] && k !in before ==> Simulated(k, stored[m := v][k])
    {
    }

    /** Scores candidate `i`, keeping `Scored`, `Counted` and `NewSimulated` one candidate
        further. */
    method ScoreNext(ghost before: map<string, real>, ghost start: nat, ghost texts: seq<string>, i: nat,
                     ghost scores: seq<real>) returns (score: Option<real>)
      requires starters != [] && i < |population| && i < |texts| && texts[i] == population[i].msg
      requires Scored(before, archive, texts, i, scores) && Counted(before, archive, start, calls, TurnCount())
      requires NewSimulated(before)
      modifies this`archive, this`calls
      ensures score.Some? ==> Scored(before, archive, texts, i + 1, scores + [score.value])
      ensures score.Some? ==> Counted(before, archive, start, calls, TurnCount()) && NewSimulated(before)
      ensures score.None? ==> turns / 2 == 0 && archive == old(archive)
      ensures turns / 2 == 0 && population[i].msg !in old(archive) ==> score.None?
      ensures turns / 2 != 0 ==> score.Some?
    {
      var c := population[i];
      ghost var made, stored := calls, archive;
      score := Evaluate(c);
      if score.Some? {
        ScoredStep(before, stored, archive, start, made, calls, TurnCount(), texts, i, scores, score.value);
        if c.msg !in stored {
          SimulatedKept(before, stored, c.msg, score.value);
        }
      }
    }

    /** Scores the whole population in order; `ok` is false when an average divided by
        zero, which ends the run. */
    method EvaluateAll() returns (scores: seq<real>, ok: bool)
      requires starters != []
      modifies this`archive, this`calls
      ensures forall k :: k in old(archive) ==> k in archive && archive[k] == old(archive)[k]
      ensures ok ==> |scores| == |population|
      ensures ok ==> forall i :: 0 <= i < |population| ==>
                       population[i].msg in archive && archive[population[i].msg] == scores[i]
      ensures !ok ==> turns / 2 == 0
      ensures turns / 2 != 0 ==> ok
      ensures turns / 2 == 0 && population != [] && population[0].msg !in old(archive) ==> !ok
      ensures forall k :: k in archive && k !in old(archive) ==> Simulated(k, archive[k])
      ensures ok ==> archive.Keys == old(archive).Keys + ToSet(Texts(population))
      ensures ok ==> calls == old(calls) + TurnCount() * |archive.Keys - old(archive).Keys|
    {
      scores := [];
      ghost var texts := Texts(population);
      var i := 0;
      while i < |population|
        invariant Scored(old(archive), archive, texts, i, scores) && Counted(old(archive), archive, old(calls), calls, TurnCount())
        invariant NewSimulated(old(archive))
        invariant texts == Texts(population)
        invariant i == 0 ==> archive == old(archive)
        invariant i > 0 && turns / 2 == 0 ==> population[0].msg in old(archive)
      {
        var score := ScoreNext(old(archive), old(calls), texts, i, scores);
        if score.None? {
          return scores, false;
        }
        scores := scores + [score.value];
        i := i + 1;
      }
      ArchiveKeys(old(archive), archive, texts);
      TimesIsProduct(TurnCount(), |archive.Keys - old(archive).Keys|);
      ok := true;
    }
  
    /** Scores the population and records the outcome of epoch `e`: the first candidate
        with the best score wins, every other candidate is appended to `losers`, and the
        winner's score and text to `final_winners`. `ok` is false when scoring divided by
        zero. */
    method Judge(e: nat) returns (ok: bool, scores: seq<real>, w: nat)
      requires starters != [] && population != [] && DistinctIds(population)
      modifies this`archive, this`calls, this`losers, this`finalWinners
      ensures !ok ==> turns / 2 == 0
      ensures turns / 2 != 0 ==> ok
      ensures turns / 2 == 0 && population[0].msg !in old(archive) ==> !ok
      ensures forall k :: k in old(archive) ==> k in archive && archive[k] == old(archive)[k]
      ensures ok ==> |scores| == |population| && w == FirstMax(scores)
      ensures ok ==> forall i :: 0 <= i < |scores| ==>
                       population[i].msg in archive && archive[population[i].msg] == scores[i]
      ensures ok ==> losers == old(losers) + LoserRecords(e, population, scores, population[w].id)
      ensures ok ==> |losers| == |old(losers)| + |population| - 1
      ensures ok ==> finalWinners == old(finalWinners) + [WinnerRecord(scores[w], population[w].msg)]
      ensures forall k :: k in archive && k !in old(archive) ==> Simulated(k, archive[k])
      ensures ok ==> archive.Keys == old(archive).Keys + ToSet(Texts(population))
      ensures ok ==> calls == old(calls) + TurnCount() * |archive.Keys - old(archive).Keys|
    {
      scores, ok := EvaluateAll();
      if !ok {
        return false, scores, 0;
      }
      w := FirstMax(scores);
      var winner := population[w];
      LoserCount(e, population, scores, w);
      losers := losers + LoserRecords(e, population, scores, winner.id);
      finalWinners := finalWinners + [WinnerRecord(scores[w], winner.msg)];
    }

    /** The end of epoch `e` from the lineage `lineage0` and call number `first`: the lineage
        is written as it was, then the generation filled from `winner` with the next
        `Slots()` calls, banning the loser texts, becomes the population and is appended to
        the lineage. */
    ghost predicate Advanced(winner: Candidate, e: nat, lineage0: seq<seq<Candidate>>, first: nat)
      reads this
    {
      savedLineage == lineage0 && lineage == lineage0 + [population]
      && population == Fill(CarryOver(winner, e), MutantsAt(first, winner.msg, Slots()), LoserTexts(losers))
      && calls == first + Slots()
    }

    /** What epoch `e` over generation `pop` with `scores` leaves behind, from the lists
        `losers0`, `winners0` and `lineage0` and with the scoring finished at call number
        `judged`: the first best candidate wins; every other candidate is appended to
        `losers` and the winner's score and text to `finalWinners`; then `Advanced` from the
        winner. */
    ghost predicate Epoch(e: nat, pop: seq<Candidate>, scores: seq<real>, losers0: seq<LoserRecord>,
                          winners0: seq<WinnerRecord>, lineage0: seq<seq<Candidate>>, judged: nat)
      reads this
    {
      pop != [] && |scores| == |pop|
      && var winner := pop[FirstMax(scores)];
      losers == losers0 + LoserRecords(e, pop, scores, winner.id)
      && finalWinners == winners0 + [WinnerRecord(scores[FirstMax(scores)], winner.msg)]
      && Advanced(winner, e, lineage0, judged)
    }

    /** The end of epoch `e`: the lineage so far is written, then the next generation is
        built from the winner and appended to it. */
    method Advance(winner: Candidate, e: nat)
      modifies this`savedLineage, this`calls, this`population, this`lineage, this`epoch
      ensures Advanced(winner, e, old(lineage), old(calls)) && epoch == e
      ensures GenerationOK(population, e + 1, size)
      ensures population[0] == CarryOver(winner, e)
      ensures forall i :: 1 <= i < |population| ==> population[i].msg !in LoserTexts(losers)
    {
      savedLineage := lineage;
      var seed := CarryOver(winner, e);
      ghost var first := calls;
      var next := FillGeneration(seed);
      FillIsGeneration(seed, MutantsAt(first, seed.msg, Slots()), LoserTexts(losers), size);
      FillShape(seed, MutantsAt(first, seed.msg, Slots()), LoserTexts(losers));
      population := next;
      lineage := lineage + [next];
      epoch := e;
    }

    /** One epoch: `Judge`, then `Advance` from the winner. The loop invariant survives it, and
        from the second epoch on the carried-over text scores exactly what the previous
        winner scored, so a tie goes to it. */
    method RunEpoch(e: nat) returns (ok: bool, scores: seq<real>, ghost judged: nat)
      requires Valid() && e == epoch + 1
      modifies this
      ensures !ok ==> turns / 2 == 0
      ensures turns / 2 != 0 ==> ok
      ensures turns / 2 == 0 && old(population)[0].msg !in old(archive) ==> !ok
      ensures ok ==> Valid() && epoch == e
      ensures forall k :: k in old(archive) ==> k in archive && archive[k] == old(archive)[k]
      ensures forall k :: k in archive && k !in old(archive) ==> Simulated(k, archive[k])
      ensures ok ==> archive.Keys == old(archive).Keys + ToSet(Texts(old(population)))
      ensures ok ==> |scores| == |old(population)|
                     && forall i :: 0 <= i < |scores| ==>
                          old(population)[i].msg in archive && archive[old(population)[i].msg] == scores[i]
      ensures ok ==> judged == old(calls) + TurnCount() * |archive.Keys - old(archive).Keys|
      ensures ok ==> Epoch(e, old(population), scores, old(losers), old(finalWinners), old(lineage), judged)
    {
      var pop := population;
      ghost var oldLosers, oldLineage, oldArchive, oldWinners, oldSaved := losers, lineage, archive, finalWinners, savedLineage;
      GenerationIdsDistinct(pop, e, size);
      var w;
      ok, scores, w := Judge(e);
      judged := calls;
      if !ok {
        return;
      }
      Advance(pop[w], e);
      EpochKeepsConsistent(size, pop, oldLosers, losers, oldLineage, oldArchive, archive, oldWinners,
                           finalWinners, oldSaved, e - 1, scores, population);
    }

    /** The first generation, built from the configured trainee system message as the seed
        of slot 1 of epoch 1, and the lineage holding just it. */
    method Start()
      requires starters != [] && losers == [] && finalWinners == [] && epoch == 0
      modifies this`calls, this`population, this`lineage
      ensures Valid()
      ensures population[0] == Candidate(CandidateId(1, 1), config.trainee.systemMessage, [], None)
      ensures population == Fill(Candidate(CandidateId(1, 1), config.trainee.systemMessage, [], None),
                                 MutantsAt(old(calls), config.trainee.systemMessage, Slots()), [])
      ensures calls == old(calls) + Slots() && lineage == [population]
    {
      var seed := Candidate(CandidateId(1, 1), config.trainee.systemMessage, [], None);
      var first := calls;
      var pop := FillGeneration(seed);
      FillIsGeneration(seed, MutantsAt(first, seed.msg, Slots()), LoserTexts(losers), size);
      FirstGenerationConsistent(size, pop, archive, savedLineage);
      population := pop;
      lineage := [pop];
    }

    /** `main` after loading: the first generation from the configured trainee system
        message, then `epochs` epochs, then the best recorded winner. */
    method Run() returns (outcome: Outcome)
      requires starters != []
      requires population == [] && losers == [] && lineage == [] && archive == map[]
      requires finalWinners == [] && epoch == 0
      modifies this
      ensures outcome == DivisionByZero <==> epochs >= 1 && turns / 2 == 0
      ensures outcome.Finished? ==> Valid() && epoch == (if epochs > 0 then epochs else 0)
      ensures outcome.Finished? ==> (outcome.best.None? <==> epochs < 1)
      ensures outcome.Finished? && outcome.best.Some? ==>
                outcome.best.value == finalWinners[|finalWinners| - 1]
                && outcome.best.value.mutation == population[0].msg
    {
      Start();
      var e := 1;
      while e <= epochs
        invariant 1 <= e && (epochs >= 1 ==> e <= epochs + 1) && (epochs < 1 ==> e == 1)
        invariant Valid() && epoch == e - 1
        invariant e == 1 ==> archive == map[]
        invariant e > 1 ==> turns / 2 != 0
      {
        var ok, _, _ := RunEpoch(e);
        if !ok {
          return DivisionByZero;
        }
        e := e + 1;
      }
      if finalWinners != [] {
        BestIsCarried(size, population, losers, lineage, archive, finalWinners, savedLineage, epoch);
        outcome := Finished(Some(Best(finalWinners)));
      } else {
        outcome := Finished(None);
      }
    }
  }
}
