/** `extract_starters` in train_rl.py: the opening lines of simulated conversations, at most
    one drawn at random from each conversation file that exists, or `["Hello!"]` when no
    file offers a usable line. */
module Starters {
  import opened Wrappers
  import opened Text

  /** The speaker prefixes removed from a line, matched without regard to case; they are
      kept here in lower case and compared with the lower-cased prefix. The functions below
      take the word list as their `speakers` parameter, and the loop passes this one. */
  const SpeakerWords: seq<string> := [
    "user", "bot", "he", "she", "assistant", "system", "ai", "human", "speaker", "agent",
    "customer", "client", "support", "q", "a", "question", "answer", "prompt", "response",
    "input", "output", "message", "chatbot", "robot", "guide", "responder", "interviewer",
    "interviewee", "participant", "moderator", "narrator", "voice", "person", "listener",
    "talker", "rep", "counselor", "therapist", "doctor", "nurse", "teacher", "student",
    "friend", "colleague", "peer", "guest", "host", "admin", "operator", "staff", "manager",
    "leader", "director", "chief", "officer", "official", "representative"]

  const ChatLabel: string := "Chat"
  const DefaultStarter: string := "Hello!"

  /** The position of the first `c` in `s`. */
  function IndexOf(s: string, c: char): (r: Option<nat>)
    ensures r.Some? ==> r.value < |s| && s[r.value] == c && c !in s[..r.value]
    ensures r.None? ==> c !in s
  {
    if s == [] then None
    else if s[0] == c then Some(0)
    else match IndexOf(s[1..], c)
      case None => None
      case Some(k) =>
        assert s[..k + 1] == [s[0]] + s[1..][..k];
        Some(k + 1)
  }

  /** `re.sub(r'^(User|...|Representative):\s*', '', l, flags=re.IGNORECASE)` with the words
      `speakers`: a speaker word (no word of `SpeakerWords` holds a colon, so it is everything
      before the first colon) followed by a colon is removed together with the whitespace
      after it; anything else is left alone. */
  function StripSpeaker(l: string, speakers: seq<string>): (r: string)
    ensures |r| <= |l| && r == l[|l| - |r|..]
    ensures r != l ==> r == [] || !IsSpace(r[0])
  {
    match IndexOf(l, ':')
    case None => l
    case Some(k) =>
      if Lower(l[..k]) in speakers then
        var r := LStrip(l[k + 1..]);
        SuffixOfSuffix(l, k + 1, |r|);
        r
      else l
  }

  /** A suffix of a suffix of `l` is a suffix of `l`. */
  lemma SuffixOfSuffix(l: string, j: nat, n: nat)
    requires j <= |l| && n <= |l| - j
    ensures l[j..][|l| - j - n..] == l[|l| - n..]
  {
  }

  /** A line whose first colon, at `k`, ends a speaker word (in any case) loses that word,
      the colon and the whitespace after it; the rest is left as it is. */
  lemma SpeakerPrefixRemoved(l: string, k: nat, speakers: seq<string>)
    requires k < |l| && l[k] == ':' && ':' !in l[..k] && Lower(l[..k]) in speakers
    ensures StripSpeaker(l, speakers) == LStrip(l[k + 1..])
  {
    assert IndexOf(l, ':') == Some(k) by {
      FirstIndex(l, ':', k);
    }
  }

  /** `IndexOf` finds the first occurrence. */
  lemma FirstIndex(l: string, c: char, k: nat)
    requires k < |l| && l[k] == c && c !in l[..k]
    ensures IndexOf(l, c) == Some(k)
  {
    assert l[..k + 1][k] == c;
  }

  /** A line whose text before its first colon (or whose whole text, without a colon) is not a
      speaker word is left unchanged. */
  lemma OtherLinesUnchanged(l: string, speakers: seq<string>)
    requires forall k :: 0 <= k < |l| && l[k] == ':' && ':' !in l[..k] ==> Lower(l[..k]) !in speakers
    ensures StripSpeaker(l, speakers) == l
  {
  }

  /** A raw line after `strip()`, the `Chat` and empty-line skip, and the prefix removal:
      the text kept, or `None` when the line is skipped. */
  function CleanLine(raw: string, speakers: seq<string>): (r: Option<string>)
    ensures r.Some? ==> r.value != [] && !IsSpace(r.value[0]) && !IsSpace(r.value[|r.value| - 1])
    ensures r.Some? ==> !(ChatLabel <= Strip(raw))
  {
    var l := Strip(raw);
    if l == [] || ChatLabel <= l then None
    else
      var r := StripSpeaker(l, speakers);
      if r == [] then None
      else
        Some(r)
  }

  /** `valid_lines` of one file: the kept lines, in file order. */
  function ValidLines(lines: seq<string>, speakers: seq<string>): (vs: seq<string>)
    ensures |vs| <= |lines|
  {
    if lines == [] then []
    else
      var front := ValidLines(lines[..|lines| - 1], speakers);
      var last := lines[|lines| - 1];
      match CleanLine(last, speakers)
      case None => front
      case Some(v) => front + [v]
  }

  /** Every valid line is the cleaned form of a line of the file. */
  lemma {:induction false} ValidLinesFromFile(lines: seq<string>, v: string, speakers: seq<string>)
    requires v in ValidLines(lines, speakers)
    ensures exists raw :: raw in lines && CleanLine(raw, speakers) == Some(v)
    decreases |lines|
  {
    var front := lines[..|lines| - 1];
    if v in ValidLines(front, speakers) {
      ValidLinesFromFile(front, v, speakers);
      var raw :| raw in front && CleanLine(raw, speakers) == Some(v);
      assert raw in lines;
    } else {
      assert CleanLine(lines[|lines| - 1], speakers) == Some(v);
    }
  }

  /** The line lists of the files that offer at least one valid line, in file order; a file
      that does not exist is `None`. */
  function Pools(files: seq<Option<seq<string>>>, speakers: seq<string>): (ps: seq<seq<string>>)
    ensures |ps| <= |files|
    ensures forall k :: 0 <= k < |ps| ==> ps[k] != []
  {
    if files == [] then []
    else
      var front := Pools(files[..|files| - 1], speakers);
      match files[|files| - 1]
      case None => front
      case Some(lines) => if ValidLines(lines, speakers) == [] then front else front + [ValidLines(lines, speakers)]
  }

  /** One starter drawn from each pool, in order. */
  predicate IsSelection(pools: seq<seq<string>>, starters: seq<string>) {
    |starters| == |pools| && forall i :: 0 <= i < |pools| ==> starters[i] in pools[i]
  }

  /** The inner loop over one file's lines, collecting `valid_lines`. */
  method KeptLines(lines: seq<string>, speakers: seq<string>) returns (validLines: seq<string>)
    ensures validLines == ValidLines(lines, speakers)
  {
    validLines := [];
    var j := 0;
    while j < |lines|
      invariant 0 <= j <= |lines|
      invariant validLines == ValidLines(lines[..j], speakers)
    {
      assert lines[..j + 1][..j] == lines[..j];
      var cleaned := CleanLine(lines[j], speakers);
      if cleaned.Some? {
        validLines := validLines + [cleaned.value];
      }
      j := j + 1;
    }
    assert lines[..j] == lines;
  }

  /** `extract_starters(conversation_files)`: `random.choice` is a nondeterministic choice. */
  method ExtractStarters(files: seq<Option<seq<string>>>, speakers: seq<string>) returns (starters: seq<string>)
    ensures starters != []
    ensures Pools(files, speakers) == [] ==> starters == [DefaultStarter]
    ensures Pools(files, speakers) != [] ==> IsSelection(Pools(files, speakers), starters)
  {
    starters := [];
    var i := 0;
    while i < |files|
      invariant 0 <= i <= |files|
      invariant IsSelection(Pools(files[..i], speakers), starters)
    {
      if files[i].Some? {
        var validLines := KeptLines(files[i].value, speakers);
        if validLines != [] {
          assert validLines[0] in validLines;
          var choice :| choice in validLines;
          PoolsAdd(files, i, speakers, validLines);
          SelectionStep(Pools(files[..i], speakers), starters, validLines, choice);
          starters := starters + [choice];
        } else {
          PoolsSkip(files, i, speakers);
        }
      } else {
        PoolsSkip(files, i, speakers);
      }
      i := i + 1;
    }
    assert files[..i] == files;
    if starters == [] {
      starters := [DefaultStarter];
    }
  }

  lemma SelectionStep(pools: seq<seq<string>>, starters: seq<string>, p: seq<string>, c: string)
    requires IsSelection(pools, starters) && c in p
    ensures IsSelection(pools + [p], starters + [c])
  {
  }

  /** A file with valid lines adds them as the next pool. */
  lemma PoolsAdd(files: seq<Option<seq<string>>>, i: nat, speakers: seq<string>, vl: seq<string>)
    requires i < |files| && files[i].Some? && vl == ValidLines(files[i].value, speakers) && vl != []
    ensures Pools(files[..i + 1], speakers) == Pools(files[..i], speakers) + [vl]
  {
    assert files[..i + 1][..i] == files[..i];
  }

  /** A missing file, or one without a valid line, adds no pool. */
  lemma PoolsSkip(files: seq<Option<seq<string>>>, i: nat, speakers: seq<string>)
    requires i < |files| && (files[i].None? || ValidLines(files[i].value, speakers) == [])
    ensures Pools(files[..i + 1], speakers) == Pools(files[..i], speakers)
  {
    assert files[..i + 1][..i] == files[..i];
  }

  /** Every starter taken from the files is a kept line of one of them: non-empty, trimmed,
      and not from a line that began with `Chat`. */
  lemma {:induction false} PooledLinesAreClean(files: seq<Option<seq<string>>>, p: seq<string>, v: string, speakers: seq<string>)
    requires p in Pools(files, speakers) && v in p
    ensures KeptFrom(files, v, speakers)
    decreases |files|
  {
    var front := files[..|files| - 1];
    if p in Pools(front, speakers) {
      PooledLinesAreClean(front, p, v, speakers);
      var i, raw :| 0 <= i < |front| && front[i].Some? && raw in front[i].value && CleanLine(raw, speakers) == Some(v);
      assert files[i] == front[i];
    } else {
      var k := |files| - 1;
      ValidLinesFromFile(files[k].value, v, speakers);
    }
  }

  /** `v` is what cleaning made of some line of an existing file. */
  ghost predicate KeptFrom(files: seq<Option<seq<string>>>, v: string, speakers: seq<string>) {
    exists i, raw :: 0 <= i < |files| && files[i].Some? && raw in files[i].value && CleanLine(raw, speakers) == Some(v)
  }

  /** A selection of starters holds only kept lines: each is non-empty, trimmed, and comes
      from a line of an existing file whose trimmed form does not begin with `Chat`. */
  lemma SelectedStartersAreClean(files: seq<Option<seq<string>>>, starters: seq<string>, speakers: seq<string>)
    requires IsSelection(Pools(files, speakers), starters)
    ensures forall k :: 0 <= k < |starters| ==> KeptFrom(files, starters[k], speakers)
  {
    var pools := Pools(files, speakers);
    forall k | 0 <= k < |starters| ensures KeptFrom(files, starters[k], speakers) {
      PooledLinesAreClean(files, pools[k], starters[k], speakers);
    }
  }

  /** At most one starter per file that exists. */
  function ExistingCount(files: seq<Option<seq<string>>>): nat {
    if files == [] then 0
    else ExistingCount(files[..|files| - 1]) + (if files[|files| - 1].Some? then 1 else 0)
  }

  lemma {:induction false} AtMostOnePerExistingFile(files: seq<Option<seq<string>>>, speakers: seq<string>)
    ensures |Pools(files, speakers)| <= ExistingCount(files)
    decreases |files|
  {
    if files != [] {
      AtMostOnePerExistingFile(files[..|files| - 1], speakers);
    }
  }

  /** The default is used exactly when no existing file has a line that survives cleaning. */
  lemma NoPoolsIffNoCleanLine(files: seq<Option<seq<string>>>, speakers: seq<string>)
    ensures Pools(files, speakers) == [] <==>
              forall i, raw :: 0 <= i < |files| && files[i].Some? && raw in files[i].value ==> CleanLine(raw, speakers).None?
  {
    if Pools(files, speakers) == [] {
      forall i, raw | 0 <= i < |files| && files[i].Some? && raw in files[i].value
        ensures CleanLine(raw, speakers).None?
      {
        if CleanLine(raw, speakers).Some? {
          CleanLineMakesPool(files, i, raw, speakers);
        }
      }
    } else {
      var p := Pools(files, speakers)[0];
      assert p[0] in p;
      PooledLinesAreClean(files, p, p[0], speakers);
    }
  }

  /** A file that exists and has a line surviving cleaning contributes a pool. */
  lemma {:induction false} CleanLineMakesPool(files: seq<Option<seq<string>>>, i: nat, raw: string, speakers: seq<string>)
    requires i < |files| && files[i].Some? && raw in files[i].value && CleanLine(raw, speakers).Some?
    ensures Pools(files, speakers) != []
    decreases |files|
  {
    var k := |files| - 1;
    assert files[..k + 1] == files;
    if i < k {
      assert files[..k][i] == files[i];
      CleanLineMakesPool(files[..k], i, raw, speakers);
      if files[k].Some? && ValidLines(files[k].value, speakers) != [] {
        PoolsAdd(files, k, speakers, ValidLines(files[k].value, speakers));
      } else {
        PoolsSkip(files, k, speakers);
      }
    } else {
      NoValidLinesIffNoneClean(files[k].value, speakers);
      PoolsAdd(files, k, speakers, ValidLines(files[k].value, speakers));
    }
  }

  lemma {:induction false} NoValidLinesIffNoneClean(lines: seq<string>, speakers: seq<string>)
    ensures ValidLines(lines, speakers) == [] <==> forall raw :: raw in lines ==> CleanLine(raw, speakers).None?
    decreases |lines|
  {
    if lines != [] {
      NoValidLinesIffNoneClean(lines[..|lines| - 1], speakers);
      assert forall raw :: raw in lines <==> raw in lines[..|lines| - 1] || raw == lines[|lines| - 1];
    }
  }
}
