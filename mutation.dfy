/** Post-processing of a mutation reply (`mutate_prompt` in train_rl.py): the mutated text
    is the trimmed inside of the first `<OUTPUT>...</OUTPUT>` pair, or the whole trimmed reply
    when there is no such pair; the label lists every non-equal edit of a diff between the
    prompt and the mutated text. The diff itself comes from outside, as opcodes that tile
    both strings. */
module Mutation {
  import opened Wrappers
  import opened Text
  import opened Oracle

  const OpenTag: string := "<OUTPUT>"
  const CloseTag: string := "</OUTPUT>"

  /** The first position at or after `from` where `pat` occurs in `s`. */
  function FindFrom(s: string, pat: string, from: nat): (r: Option<nat>)
    requires from <= |s|
    ensures r.Some? ==> from <= r.value <= |s| && pat <= s[r.value..]
    decreases |s| - from
  {
    if pat <= s[from..] then Some(from)
    else if from == |s| then None
    else FindFrom(s, pat, from + 1)
  }

  /** `FindFrom` finds the first occurrence, and reports none only when there is none. */
  lemma {:induction false} FindFromIsFirst(s: string, pat: string, from: nat)
    requires from <= |s|
    ensures FindFrom(s, pat, from).Some? ==>
              forall k :: from <= k < FindFrom(s, pat, from).value ==> !(pat <= s[k..])
    ensures FindFrom(s, pat, from).None? <==> forall k :: from <= k <= |s| ==> !(pat <= s[k..])
    decreases |s| - from
  {
    if !(pat <= s[from..]) && from < |s| {
      FindFromIsFirst(s, pat, from + 1);
    }
  }

  /** The text between the first `open` and the first `close` after it, when both exist. */
  function Between(reply: string, open: string, close: string): (r: Option<string>)
    ensures r.Some? ==> |r.value| + |open| <= |reply|
  {
    match FindFrom(reply, open, 0)
    case None => None
    case Some(i) =>
      if i + |open| > |reply| then None
      else
        match FindFrom(reply, close, i + |open|)
        case None => None
        case Some(j) => Some(reply[i + |open|..j])
  }

  /** Group 1 of `re.search(r"<OUTPUT>(.*?)</OUTPUT>", reply, re.S)`. */
  function OutputBlock(reply: string): (r: Option<string>)
  {
    Between(reply, OpenTag, CloseTag)
  }

  /** The mutated text `mutate_prompt` keeps from a reply. */
  function MutationText(reply: string): (m: string)
    ensures OutputBlock(reply).None? ==> m == Strip(reply)
    ensures OutputBlock(reply).Some? ==> m == Strip(OutputBlock(reply).value)
  {
    match OutputBlock(reply)
    case None => Strip(reply)
    case Some(inner) => Strip(inner)
  }

  /** The search stops at the first occurrence. */
  lemma {:induction false} FindFromFirst(s: string, pat: string, from: nat, at: nat)
    requires from <= at <= |s| && pat <= s[at..]
    requires forall k :: from <= k < at ==> !(pat <= s[k..])
    ensures FindFrom(s, pat, from) == Some(at)
    decreases at - from
  {
    if from < at {
      FindFromFirst(s, pat, from + 1, at);
    }
  }

  /** A tag starting with `<` cannot start at a position holding another character. */
  lemma NoTagWithoutLt(s: string, pat: string, lo: nat, hi: nat)
    requires lo <= hi <= |s| && pat != [] && pat[0] == '<'
    requires forall k :: lo <= k < hi ==> s[k] != '<'
    ensures forall k :: lo <= k < hi ==> !(pat <= s[k..])
  {
    forall k | lo <= k < hi ensures !(pat <= s[k..]) {
      assert s[k..][0] == s[k];
    }
  }

  /** A reply that wraps its text in the tags, with no `<` before the opening tag or inside
      the text, yields that text, trimmed, whatever follows the closing tag. */
  lemma ExtractsWrappedText(pre: string, body: string, post: string)
    requires '<' !in pre && '<' !in body
    ensures MutationText(pre + OpenTag + body + CloseTag + post) == Strip(body)
  {
    WrappedBlock(pre, body, post);
  }

  lemma WrappedBlock(pre: string, body: string, post: string)
    requires '<' !in pre && '<' !in body
    ensures OutputBlock(pre + OpenTag + body + CloseTag + post) == Some(body)
  {
    var reply := pre + OpenTag + body + CloseTag + post;
    var i, j := |pre|, |pre| + |OpenTag| + |body|;
    assert reply[0..i] == pre && reply[i..i + |OpenTag|] == OpenTag;
    assert reply[i + |OpenTag|..j] == body && reply[j..j + |CloseTag|] == CloseTag;
    BetweenFound(reply, OpenTag, CloseTag, i, j);
  }

  /** `Between` finds the opening tag at `i` and the closing tag at `j` when no `<` comes
      before either of them. */
  lemma BetweenFound(reply: string, open: string, close: string, i: nat, j: nat)
    requires open != [] && close != [] && open[0] == '<' && close[0] == '<'
    requires i + |open| <= j && j + |close| <= |reply|
    requires '<' !in reply[0..i] && reply[i..i + |open|] == open
    requires '<' !in reply[i + |open|..j] && reply[j..j + |close|] == close
    ensures Between(reply, open, close) == Some(reply[i + |open|..j])
  {
    assert FindFrom(reply, open, 0) == Some(i) by {
      FirstAfterSkip(reply, open, 0, i);
    }
    assert FindFrom(reply, close, i + |open|) == Some(j) by {
      FirstAfterSkip(reply, close, i + |open|, j);
    }
    BetweenAt(reply, open, close, i, j);
  }

  /** `Between` once both searches are known. */
  lemma BetweenAt(reply: string, open: string, close: string, i: nat, j: nat)
    requires i + |open| <= |reply|
    requires FindFrom(reply, open, 0) == Some(i)
    requires FindFrom(reply, close, i + |open|) == Some(j)
    ensures j <= |reply| && Between(reply, open, close) == Some(reply[i + |open|..j])
  {
    match FindFrom(reply, open, 0) {
      case Some(i') =>
        match FindFrom(reply, close, i' + |open|) {
          case Some(j') =>
        }
    }
  }

  /** Searching from `from` skips a stretch without `<` and stops where `pat` starts. */
  lemma FirstAfterSkip(s: string, pat: string, from: nat, at: nat)
    requires pat != [] && pat[0] == '<' && from <= at && at + |pat| <= |s|
    requires '<' !in s[from..at] && s[at..at + |pat|] == pat
    ensures FindFrom(s, pat, from) == Some(at)
  {
    forall k | from <= k < at ensures s[k] != '<' {
      assert s[k] == s[from..at][k - from];
    }
    assert pat <= s[at..] by {
      assert s[at..][..|pat|] == s[at..at + |pat|];
    }
    NoTagWithoutLt(s, pat, from, at);
    FindFromFirst(s, pat, from, at);
  }

  /** A reply without an opening tag is used whole, trimmed. */
  lemma UntaggedReplyUsedWhole(reply: string)
    requires forall k :: 0 <= k <= |reply| ==> !(OpenTag <= reply[k..])
    ensures MutationText(reply) == Strip(reply)
  {
    FindFromIsFirst(reply, OpenTag, 0);
  }

  // ---------------------------------------------------------------------------
  // Diff opcodes and the mutation label

  datatype Tag = Replace | Delete | Insert | Equal

  function TagName(t: Tag): (s: string)
    ensures s != []
  {
    match t
    case Replace => "replace"
    case Delete => "delete"
    case Insert => "insert"
    case Equal => "equal"
  }

  /** `(tag, i1, i2, j1, j2)`: `a[i1:i2]` corresponds to `b[j1:j2]`. */
  datatype Opcode = Opcode(tag: Tag, i1: nat, i2: nat, j1: nat, j2: nat)

  /** The opcodes cover `a[i:]` and `b[j:]` in order, each starting where the previous one
      ended; an `equal` span is the same text on both sides, a `delete` is empty in `b`
      and an `insert` is empty in `a`. */
  predicate TilesFrom(a: string, b: string, ops: seq<Opcode>, i: nat, j: nat)
    decreases |ops|
  {
    if ops == [] then i == |a| && j == |b|
    else
      var op := ops[0];
      op.i1 == i && op.j1 == j && i <= op.i2 <= |a| && j <= op.j2 <= |b|
      && (op.tag == Equal ==> a[op.i1..op.i2] == b[op.j1..op.j2])
      && (op.tag == Delete ==> op.j1 == op.j2)
      && (op.tag == Insert ==> op.i1 == op.i2)
      && TilesFrom(a, b, ops[1..], op.i2, op.j2)
  }

  /** What `SequenceMatcher(None, a, b).get_opcodes()` is relied on to satisfy. */
  predicate Tiling(a: string, b: string, ops: seq<Opcode>) {
    TilesFrom(a, b, ops, 0, 0)
  }

  /** Every opcode lies inside both strings. */
  predicate InBounds(a: string, b: string, ops: seq<Opcode>) {
    forall k :: 0 <= k < |ops| ==> ops[k].i1 <= ops[k].i2 <= |a| && ops[k].j1 <= ops[k].j2 <= |b|
  }

  lemma {:induction false} TilesInBounds(a: string, b: string, ops: seq<Opcode>, i: nat, j: nat)
    requires TilesFrom(a, b, ops, i, j)
    ensures InBounds(a, b, ops)
    decreases |ops|
  {
    if ops != [] {
      TilesInBounds(a, b, ops[1..], ops[0].i2, ops[0].j2);
      forall k | 0 <= k < |ops| ensures ops[k].i1 <= ops[k].i2 <= |a| && ops[k].j1 <= ops[k].j2 <= |b| {
        if k > 0 { assert ops[k] == ops[1..][k - 1]; }
      }
    }
  }

  /** `f"{tag}:{a[i1:i2]}->{b[j1:j2]}"` */
  function Fragment(a: string, b: string, op: Opcode): (f: string)
    requires op.i1 <= op.i2 <= |a| && op.j1 <= op.j2 <= |b|
    ensures TagName(op.tag) <= f
  {
    TagName(op.tag) + ":" + a[op.i1..op.i2] + "->" + b[op.j1..op.j2]
  }

  /** The fragments of the non-equal opcodes, in order. */
  function Changes(a: string, b: string, ops: seq<Opcode>): (cs: seq<string>)
    requires InBounds(a, b, ops)
    ensures |cs| <= |ops|
    ensures forall k :: 0 <= k < |cs| ==> cs[k] != []
    ensures cs == [] <==> forall k :: 0 <= k < |ops| ==> ops[k].tag == Equal
  {
    if ops == [] then []
    else
      var rest := Changes(a, b, ops[1..]);
      assert forall k :: 1 <= k < |ops| ==> ops[k] == ops[1..][k - 1];
      if ops[0].tag == Equal then rest else [Fragment(a, b, ops[0])] + rest
  }

  /** The mutation label: the fragments joined with `;`. */
  function Label(a: string, b: string, ops: seq<Opcode>): string
    requires InBounds(a, b, ops)
  {
    Join(";", Changes(a, b, ops))
  }

  /** One more opcode, as the source's loop sees it: an `equal` opcode adds nothing, any
      other adds its fragment after the ones already collected. */
  lemma {:induction false} ChangesAppend(a: string, b: string, ops: seq<Opcode>, op: Opcode)
    requires InBounds(a, b, ops) && op.i1 <= op.i2 <= |a| && op.j1 <= op.j2 <= |b|
    ensures InBounds(a, b, ops + [op])
    ensures Changes(a, b, ops + [op])
            == Changes(a, b, ops) + (if op.tag == Equal then [] else [Fragment(a, b, op)])
    decreases |ops|
  {
    var all := ops + [op];
    assert forall k :: 0 <= k < |ops| ==> all[k] == ops[k];
    assert all[|ops|] == op;
    if ops == [] {
      assert all == [op];
    } else {
      assert all[0] == ops[0] && all[1..] == ops[1..] + [op];
      ChangesAppend(a, b, ops[1..], op);
    }
  }

  /** The label grows one opcode at a time: nothing for `equal`, otherwise the new fragment,
      after a `;` when there was already a fragment. So the label is the `tag:orig->new`
      fragment of every non-`equal` opcode, in opcode order, separated by `;`. */
  lemma LabelAppend(a: string, b: string, ops: seq<Opcode>, op: Opcode)
    requires InBounds(a, b, ops) && op.i1 <= op.i2 <= |a| && op.j1 <= op.j2 <= |b|
    ensures InBounds(a, b, ops + [op])
    ensures op.tag == Equal ==> Label(a, b, ops + [op]) == Label(a, b, ops)
    ensures op.tag != Equal && Label(a, b, ops) == [] ==> Label(a, b, ops + [op]) == Fragment(a, b, op)
    ensures op.tag != Equal && Label(a, b, ops) != [] ==>
              Label(a, b, ops + [op]) == Label(a, b, ops) + ";" + Fragment(a, b, op)
  {
    ChangesAppend(a, b, ops, op);
    var cs := Changes(a, b, ops);
    if op.tag != Equal {
      if cs == [] {
        assert cs + [Fragment(a, b, op)] == [Fragment(a, b, op)];
      } else {
        assert cs[0] <= Label(a, b, ops);
        JoinAppend(";", cs, Fragment(a, b, op));
      }
    } else {
      assert cs + [] == cs;
    }
  }

  /** The label is empty exactly when every opcode is `equal`. */
  lemma LabelEmptyIffAllEqual(a: string, b: string, ops: seq<Opcode>)
    requires InBounds(a, b, ops)
    ensures Label(a, b, ops) == [] <==> forall k :: 0 <= k < |ops| ==> ops[k].tag == Equal
  {
    var cs := Changes(a, b, ops);
    if cs != [] {
      assert cs[0] <= Label(a, b, ops);
    }
  }

  /** Opcodes that are all `equal` can only tile two identical strings. */
  lemma {:induction false} AllEqualMeansSame(a: string, b: string, ops: seq<Opcode>, i: nat, j: nat)
    requires TilesFrom(a, b, ops, i, j)
    requires forall k :: 0 <= k < |ops| ==> ops[k].tag == Equal
    ensures i <= |a| && j <= |b| && a[i..] == b[j..]
    decreases |ops|
  {
    if ops != [] {
      var op := ops[0];
      assert forall k :: 0 <= k < |ops| - 1 ==> ops[1..][k] == ops[k + 1];
      AllEqualMeansSame(a, b, ops[1..], op.i2, op.j2);
      assert a[i..] == a[op.i1..op.i2] + a[op.i2..];
      assert b[j..] == b[op.j1..op.j2] + b[op.j2..];
    }
  }

  /** An empty label is only produced for a text equal to the prompt. */
  lemma UnchangedWhenLabelEmpty(a: string, b: string, ops: seq<Opcode>)
    requires Tiling(a, b, ops)
    ensures InBounds(a, b, ops)
    ensures Label(a, b, ops) == [] <==> forall k :: 0 <= k < |ops| ==> ops[k].tag == Equal
    ensures Label(a, b, ops) == [] ==> a == b
  {
    TilesInBounds(a, b, ops, 0, 0);
    LabelEmptyIffAllEqual(a, b, ops);
    if forall k :: 0 <= k < |ops| ==> ops[k].tag == Equal {
      AllEqualMeansSame(a, b, ops, 0, 0);
    }
  }

  /** Each span of `b` as the diff describes it: shared text for `equal`, the new slice
      the label shows otherwise. */
  function NewSlices(a: string, b: string, ops: seq<Opcode>): seq<string>
    requires InBounds(a, b, ops)
  {
    if ops == [] then []
    else
      assert forall k :: 1 <= k < |ops| ==> ops[k] == ops[1..][k - 1];
      var op := ops[0];
      [if op.tag == Equal then a[op.i1..op.i2] else b[op.j1..op.j2]] + NewSlices(a, b, ops[1..])
  }

  /** Reading the diff forward rebuilds the mutated text: the shared spans of the original
      and the new slices of the label, in order, are exactly `b`. */
  lemma {:induction false} DiffRebuildsMutant(a: string, b: string, ops: seq<Opcode>, i: nat, j: nat)
    requires TilesFrom(a, b, ops, i, j)
    ensures InBounds(a, b, ops) && j <= |b| && Concat(NewSlices(a, b, ops)) == b[j..]
    decreases |ops|
  {
    TilesInBounds(a, b, ops, i, j);
    if ops != [] {
      var op := ops[0];
      DiffRebuildsMutant(a, b, ops[1..], op.i2, op.j2);
      assert b[j..] == b[op.j1..op.j2] + b[op.j2..];
    }
  }

  /** A mutant: the mutated text and its label. */
  datatype Mutant = Mutant(text: string, edits: string)

  /** `mutate_prompt` after the service has replied: the text kept from the reply and the
      label of the diff `ops` between the prompt and that text. An empty label means the
      text is the prompt itself. */
  function Mutate(prompt: string, reply: string, ops: seq<Opcode>): (m: Mutant)
    requires Tiling(prompt, MutationText(reply), ops)
    ensures m.text == MutationText(reply)
    ensures InBounds(prompt, m.text, ops) && m.edits == Label(prompt, m.text, ops)
    ensures m.edits == [] <==> forall k :: 0 <= k < |ops| ==> ops[k].tag == Equal
    ensures m.edits == [] ==> m.text == prompt
  {
    var text := MutationText(reply);
    TilesInBounds(prompt, text, ops, 0, 0);
    UnchangedWhenLabelEmpty(prompt, text, ops);
    Mutant(text, Label(prompt, text, ops))
  }

  /** The diff a mutation uses: opcodes for a pair of strings. */
  type Differ = (string, string) -> seq<Opcode>

  /** A differ that always tiles its two strings, as difflib's opcodes do. */
  ghost predicate TilingDiffer(differ: Differ) {
    forall a, b :: Tiling(a, b, differ(a, b))
  }

  /** `mutate_prompt(prompt, url, model, system_msg)` as call number `callNo`: one service
      call with the fixed mutation instructions and the default timeout, then extraction
      and labelling. The caller's `system_msg` is not an argument: it is never used. */
  function MutatePrompt(service: Service, differ: Differ, callNo: nat, endpoint: Endpoint, prompt: string): (m: Mutant)
    requires TilingDiffer(differ)
    ensures m.edits == [] ==> m.text == prompt
  {
    var reply := CallModel(service, callNo, endpoint, DefaultTimeout, MutationInstructions, [MutationRequestText(prompt)]);
    Mutate(prompt, reply, differ(prompt, MutationText(reply)))
  }
}
