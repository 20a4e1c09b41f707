/** Python string operations the optimiser relies on, stated over `seq<char>`:
    `str.split()`, `str.strip()`, `str.lower()`, `str.count`, the `in` substring test,
    `list.count`, `str.join`, `str(int)` and `re.split(r'[.!?]+', ...)`. */
module Text {

  /** Python's `str.isspace()` set, by code point (the set `split()`, `strip()` and `\s` use). */
  predicate IsSpace(c: char) {
    var n := c as int;
    (9 <= n <= 13) || (0x1c <= n <= 0x20) || n == 0x85 || n == 0xa0 || n == 0x1680
    || (0x2000 <= n <= 0x200a) || n == 0x2028 || n == 0x2029 || n == 0x202f
    || n == 0x205f || n == 0x3000
  }

  predicate NoSpace(s: string) {
    forall i :: 0 <= i < |s| ==> !IsSpace(s[i])
  }

  predicate AllSpace(s: string) {
    forall i :: 0 <= i < |s| ==> IsSpace(s[i])
  }

  /** Concatenation of a list of strings, `"".join(parts)`. */
  function Concat(parts: seq<string>): string {
    if parts == [] then [] else parts[0] + Concat(parts[1..])
  }

  /** The characters of `s` that are not whitespace, in order. */
  function RemoveSpaces(s: string): string {
    if s == [] then [] else (if IsSpace(s[0]) then [] else [s[0]]) + RemoveSpaces(s[1..])
  }

  // ---------------------------------------------------------------------------
  // split() with no separator

  /** Length of the run of non-whitespace characters that starts `s`. */
  function TokenLen(s: string): (n: nat)
    ensures n <= |s|
    ensures NoSpace(s[..n])
    ensures n < |s| ==> IsSpace(s[n])
  {
    if s == [] || IsSpace(s[0]) then 0
    else
      var m := TokenLen(s[1..]);
      assert s[..1 + m] == [s[0]] + s[1..][..m];
      1 + m
  }

  /** `s.split()`: the maximal runs of non-whitespace characters, in order. */
  function Split(s: string): (ws: seq<string>)
    ensures forall k :: 0 <= k < |ws| ==> ws[k] != [] && NoSpace(ws[k])
    decreases |s|
  {
    if s == [] then []
    else if IsSpace(s[0]) then Split(s[1..])
    else
      var n := TokenLen(s);
      [s[..n]] + Split(s[n..])
  }

  /** Leading whitespace yields no token: `split()` skips it. */
  lemma {:induction false} SplitSkipsSpace(sp: string, s: string)
    requires AllSpace(sp)
    ensures Split(sp + s) == Split(s)
    decreases |sp|
  {
    if sp == [] {
      assert sp + s == s;
    } else {
      assert (sp + s)[0] == sp[0];
      assert (sp + s)[1..] == sp[1..] + s;
      SplitSkipsSpace(sp[1..], s);
    }
  }

  lemma {:induction false} TokenLenOfWord(w: string, t: string)
    requires NoSpace(w) && (t == [] || IsSpace(t[0]))
    ensures TokenLen(w + t) == |w|
    decreases |w|
  {
    if w == [] {
      assert w + t == t;
    } else {
      assert (w + t)[0] == w[0];
      assert (w + t)[1..] == w[1..] + t;
      TokenLenOfWord(w[1..], t);
    }
  }

  /** A word ends where whitespace or the text ends: a non-empty run of non-whitespace
      followed by whitespace (or by nothing) is one token, and splitting goes on after it.
      With `SplitSkipsSpace` this fixes every cut `split()` makes, and so the word count. */
  lemma SplitCutsAtSpace(w: string, t: string)
    requires w != [] && NoSpace(w) && (t == [] || IsSpace(t[0]))
    ensures Split(w + t) == [w] + Split(t)
  {
    TokenLenOfWord(w, t);
    assert (w + t)[0] == w[0];
    assert (w + t)[..|w|] == w && (w + t)[|w|..] == t;
    if t != [] {
      SplitSkipsSpace(t[..1], t[1..]);
      assert t[..1] + t[1..] == t;
    }
  }

  lemma {:induction false} RemoveSpacesOfNoSpace(s: string, t: string)
    requires NoSpace(s)
    ensures RemoveSpaces(s + t) == s + RemoveSpaces(t)
    decreases |s|
  {
    if s != [] {
      assert (s + t)[0] == s[0] && !IsSpace(s[0]);
      assert (s + t)[1..] == s[1..] + t;
      RemoveSpacesOfNoSpace(s[1..], t);
      calc {
        RemoveSpaces(s + t);
        [s[0]] + RemoveSpaces(s[1..] + t);
        [s[0]] + (s[1..] + RemoveSpaces(t));
        ([s[0]] + s[1..]) + RemoveSpaces(t);
        { assert [s[0]] + s[1..] == s; }
        s + RemoveSpaces(t);
      }
    } else {
      assert s + t == t;
    }
  }

  /** The tokens of `split()`, glued back together, are exactly the non-whitespace
      characters of the input: nothing is lost, reordered or invented. */
  lemma {:induction false} SplitKeepsEveryNonSpace(s: string)
    ensures Concat(Split(s)) == RemoveSpaces(s)
    decreases |s|
  {
    if s == [] {
    } else if IsSpace(s[0]) {
      SplitKeepsEveryNonSpace(s[1..]);
    } else {
      var n := TokenLen(s);
      SplitKeepsEveryNonSpace(s[n..]);
      assert s == s[..n] + s[n..];
      RemoveSpacesOfNoSpace(s[..n], s[n..]);
    }
  }

  /** A string has no `split()` tokens exactly when it is all whitespace. */
  lemma {:induction false} SplitEmptyIffAllSpace(s: string)
    ensures Split(s) == [] <==> AllSpace(s)
    decreases |s|
  {
    if s != [] {
      SplitEmptyIffAllSpace(s[1..]);
      if IsSpace(s[0]) {
        assert AllSpace(s) <==> AllSpace(s[1..]) by {
          if AllSpace(s[1..]) {
            forall i | 0 <= i < |s| ensures IsSpace(s[i]) {
              if i > 0 { assert s[i] == s[1..][i - 1]; }
            }
          }
        }
      }
    }
  }

  // ---------------------------------------------------------------------------
  // strip()

  function LStrip(s: string): (r: string)
    ensures |r| <= |s| && r == s[|s| - |r|..] && AllSpace(s[..|s| - |r|])
    ensures r == [] || !IsSpace(r[0])
  {
    if s != [] && IsSpace(s[0]) then
      var r := LStrip(s[1..]);
      assert s[..|s| - |r|] == [s[0]] + s[1..][..|s[1..]| - |r|];
      r
    else s
  }

  function RStrip(s: string): (r: string)
    ensures |r| <= |s| && r == s[..|r|] && AllSpace(s[|r|..])
    ensures r == [] || !IsSpace(r[|r| - 1])
  {
    if s != [] && IsSpace(s[|s| - 1]) then
      var r := RStrip(s[..|s| - 1]);
      assert s[|r|..] == s[..|s| - 1][|r|..] + [s[|s| - 1]];
      r
    else s
  }

  lemma {:induction false} StripBounds(s: string)
    ensures var r := RStrip(LStrip(s));
      (r == [] || (!IsSpace(r[0]) && !IsSpace(r[|r| - 1]))) && (r == [] <==> AllSpace(s))
  {
    var l := LStrip(s);
    var r := RStrip(l);
    var k := |s| - |l|;
    if r == [] {
      assert s == s[..k];
    } else {
      assert r[0] == l[0];
      assert s[k] == l[0];
    }
  }

  /** `s.strip()`: `s` without its leading and trailing whitespace. */
  function Strip(s: string): (r: string)
    ensures r == [] || (!IsSpace(r[0]) && !IsSpace(r[|r| - 1]))
    ensures r == [] <==> AllSpace(s)
  {
    StripBounds(s);
    RStrip(LStrip(s))
  }

  lemma {:induction false} LStripSpacePrefix(pad: string, x: string)
    requires AllSpace(pad)
    ensures LStrip(pad + x) == LStrip(x)
    decreases |pad|
  {
    if pad == [] {
      assert pad + x == x;
    } else {
      assert (pad + x)[0] == pad[0];
      assert (pad + x)[1..] == pad[1..] + x;
      LStripSpacePrefix(pad[1..], x);
    }
  }

  lemma {:induction false} LStripAppend(s: string, t: string)
    requires !AllSpace(s)
    ensures LStrip(s + t) == LStrip(s) + t
    decreases |s|
  {
    assert (s + t)[0] == s[0];
    if IsSpace(s[0]) {
      assert !AllSpace(s[1..]) by {
        var i :| 0 <= i < |s| && !IsSpace(s[i]);
        assert s[1..][i - 1] == s[i];
      }
      assert (s + t)[1..] == s[1..] + t;
      LStripAppend(s[1..], t);
    }
  }

  lemma {:induction false} RStripSpaceSuffix(x: string, pad: string)
    requires AllSpace(pad)
    ensures RStrip(x + pad) == RStrip(x)
    decreases |pad|
  {
    if pad == [] {
      assert x + pad == x;
    } else {
      var xp := x + pad;
      assert xp[|xp| - 1] == pad[|pad| - 1];
      assert xp[..|xp| - 1] == x + pad[..|pad| - 1];
      RStripSpaceSuffix(x, pad[..|pad| - 1]);
    }
  }

  lemma AllSpaceConcat(s: string, t: string)
    requires AllSpace(s) && AllSpace(t)
    ensures AllSpace(s + t)
  {
  }

  /** Surrounding a string with whitespace does not change what `strip()` returns. */
  lemma StripPadded(s: string, pad: string)
    requires AllSpace(pad)
    ensures Strip(pad + s + pad) == Strip(s)
  {
    var sp := s + pad;
    assert LStrip(pad + s + pad) == LStrip(sp) by {
      assert pad + s + pad == pad + sp;
      LStripSpacePrefix(pad, sp);
    }
    if AllSpace(s) {
      assert LStrip(sp) == [] by {
        AllSpaceConcat(s, pad);
        assert sp + [] == sp;
        LStripSpacePrefix(sp, []);
      }
    } else {
      assert LStrip(sp) == LStrip(s) + pad by {
        LStripAppend(s, pad);
      }
      RStripSpaceSuffix(LStrip(s), pad);
    }
  }

  /** A string with no whitespace at either end is its own `strip()`; in particular
      `strip()` is idempotent. */
  lemma StripOfTrimmed(s: string)
    requires s == [] || (!IsSpace(s[0]) && !IsSpace(s[|s| - 1]))
    ensures Strip(s) == s
  {
    assert LStrip(s) == s;
  }

  /** `s.strip()` is empty exactly when `s.split()` has no tokens (the source filters
      sentence pieces with the first and counts their words with the second). */
  lemma StripEmptyIffNoTokens(s: string)
    ensures Strip(s) == [] <==> Split(s) == []
  {
    SplitEmptyIffAllSpace(s);
  }

  // ---------------------------------------------------------------------------
  // lower()

  /** ASCII lower-casing of one character. */
  function LowerChar(c: char): (d: char)
    ensures ('A' <= c <= 'Z') == ('a' <= d <= 'z' && c != d)
    ensures IsSpace(d) == IsSpace(c)
  {
    if 'A' <= c <= 'Z' then (c as int + 32) as char else c
  }

  /** `s.lower()`, ASCII letters only. */
  function Lower(s: string): (r: string)
    ensures |r| == |s|
    ensures forall i :: 0 <= i < |s| ==> r[i] == LowerChar(s[i])
  {
    if s == [] then [] else [LowerChar(s[0])] + Lower(s[1..])
  }

  /** Lower-casing works character by character, so it distributes over concatenation. */
  lemma LowerAppend(s: string, t: string)
    ensures Lower(s + t) == Lower(s) + Lower(t)
  {
  }

  /** Lower-casing twice is lower-casing once. */
  lemma LowerIdempotent(s: string)
    ensures Lower(Lower(s)) == Lower(s)
  {
  }

  // ---------------------------------------------------------------------------
  // substring test and str.count

  /** `sub in s`: `sub` occurs somewhere in `s` (the empty string occurs everywhere). */
  predicate Contains(s: string, sub: string) {
    exists i :: 0 <= i <= |s| && sub <= s[i..]
  }

  /** What occurs in a text still occurs once more text follows it. */
  lemma ContainsExtend(s: string, t: string, sub: string)
    requires Contains(s, sub)
    ensures Contains(s + t, sub)
  {
    var i :| 0 <= i <= |s| && sub <= s[i..];
    assert (s + t)[i..][..|sub|] == s[i..][..|sub|];
  }

  /** `s.count(sub)`: non-overlapping occurrences found scanning left to right;
      `s.count("")` is `len(s) + 1`. */
  function Count(s: string, sub: string): (n: nat)
    ensures sub != [] ==> n * |sub| <= |s|
    ensures sub == [] ==> n == |s| + 1
    decreases |s|
  {
    if sub == [] then |s| + 1
    else if |s| < |sub| then 0
    else if sub <= s then
      var m := Count(s[|sub|..], sub);
      OneMoreTimes(m, |sub|, |s| - |sub|);
      1 + m
    else Count(s[1..], sub)
  }

  lemma OneMoreTimes(m: nat, k: nat, r: nat)
    requires m * k <= r
    ensures (1 + m) * k <= k + r
  {
    assert (1 + m) * k == k + m * k;
  }

  /** A non-empty `sub` is counted at least once exactly when it occurs in `s`. */
  lemma {:induction false} CountPositiveIffContains(s: string, sub: string)
    requires sub != []
    ensures Count(s, sub) > 0 <==> Contains(s, sub)
    decreases |s|
  {
    if |s| < |sub| {
      forall i | 0 <= i <= |s| ensures !(sub <= s[i..]) {
        assert |s[i..]| < |sub|;
      }
    } else if sub <= s {
      assert sub <= s[0..];
    } else {
      CountPositiveIffContains(s[1..], sub);
      if Contains(s, sub) {
        var i :| 0 <= i <= |s| && sub <= s[i..];
        assert i != 0;
        assert s[1..][i - 1..] == s[i..];
      }
      if Contains(s[1..], sub) {
        var i :| 0 <= i <= |s[1..]| && sub <= s[1..][i..];
        assert s[1..][i..] == s[i + 1..];
      }
    }
  }

  /** `words.count(w)` on a list: how many entries equal `w`. */
  function Occurrences(ws: seq<string>, w: string): (n: nat)
    ensures n <= |ws|
    ensures n > 0 <==> w in ws
  {
    if ws == [] then 0
    else (if ws[0] == w then 1 else 0) + Occurrences(ws[1..], w)
  }

  /** `set(words)` */
  function ToSet(ws: seq<string>): set<string> {
    set w | w in ws
  }

  /** No word appears twice in the list. */
  predicate Distinct(ws: seq<string>) {
    forall i, j :: 0 <= i < j < |ws| ==> ws[i] != ws[j]
  }

  /** `len(set(words)) <= len(words)`, with equality exactly when no word repeats. */
  lemma {:induction false} ToSetSize(ws: seq<string>)
    ensures |ToSet(ws)| <= |ws|
    ensures |ToSet(ws)| == |ws| <==> Distinct(ws)
  {
    if ws != [] {
      var rest := ws[1..];
      ToSetSize(rest);
      assert ToSet(ws) == {ws[0]} + ToSet(rest);
      if ws[0] in rest {
        assert ToSet(ws) == ToSet(rest);
        var j :| 0 <= j < |rest| && rest[j] == ws[0];
        assert ws[j + 1] == ws[0];
      } else {
        assert ws[0] !in ToSet(rest);
        assert Distinct(ws) <==> Distinct(rest) by {
          if Distinct(rest) {
            forall i, j | 0 <= i < j < |ws| ensures ws[i] != ws[j] {
              if i > 0 { assert ws[i] == rest[i - 1] && ws[j] == rest[j - 1]; }
              else { assert ws[j] == rest[j - 1]; }
            }
          }
          if Distinct(ws) {
            forall i, j | 0 <= i < j < |rest| ensures rest[i] != rest[j] {
              assert rest[i] == ws[i + 1] && rest[j] == ws[j + 1];
            }
          }
        }
      }
    }
  }

  // ---------------------------------------------------------------------------
  // str.join

  function TotalLength(parts: seq<string>): nat {
    if parts == [] then 0 else |parts[0]| + TotalLength(parts[1..])
  }

  /** `sep.join(parts)`: the parts in order with `sep` between neighbours. */
  function Join(sep: string, parts: seq<string>): (r: string)
    ensures parts == [] ==> r == []
    ensures parts != [] ==> parts[0] <= r
    ensures parts != [] ==> |r| == TotalLength(parts) + (|parts| - 1) * |sep|
  {
    if parts == [] then []
    else if |parts| == 1 then parts[0]
    else
      var rest := Join(sep, parts[1..]);
      assert (|parts| - 1) * |sep| == |sep| + (|parts| - 2) * |sep|;
      parts[0] + sep + rest
  }

  /** Joining one more part adds the separator and then the part: the result is every part,
      in order, with `sep` between each pair of neighbours. */
  lemma {:induction false} JoinAppend(sep: string, parts: seq<string>, p: string)
    requires parts != []
    ensures Join(sep, parts + [p]) == Join(sep, parts) + sep + p
    decreases |parts|
  {
    var ps := parts + [p];
    assert ps[0] == parts[0] && ps[1..] == parts[1..] + [p];
    if |parts| > 1 {
      JoinAppend(sep, parts[1..], p);
    } else {
      assert ps[1..] == [p];
    }
  }

  /** A single part is joined to itself. */
  lemma JoinSingle(sep: string, p: string)
    ensures Join(sep, [p]) == p
  {
  }

  // ---------------------------------------------------------------------------
  // str(int)

  predicate IsDigit(c: char) {
    '0' <= c <= '9'
  }

  function DigitChar(d: nat): (c: char)
    requires d < 10
    ensures IsDigit(c) && c as int - '0' as int == d
  {
    (d + '0' as int) as char
  }

  /** Decimal digits of `n` without leading zeros. */
  function NatToString(n: nat): (r: string)
    ensures r != [] && forall i :: 0 <= i < |r| ==> IsDigit(r[i])
  {
    if n < 10 then [DigitChar(n)] else NatToString(n / 10) + [DigitChar(n % 10)]
  }

  /** `str(i)` for a Python int. */
  function IntToString(i: int): (r: string)
    ensures r != []
    ensures (r[0] == '-') == (i < 0)
  {
    if i < 0 then "-" + NatToString(-i) else NatToString(i)
  }

  /** Reads a string of decimal digits back as a number. */
  function ParseNat(s: string): nat
    requires forall i :: 0 <= i < |s| ==> IsDigit(s[i])
  {
    if s == [] then 0
    else
      var last := s[|s| - 1];
      assert IsDigit(last);
      10 * ParseNat(s[..|s| - 1]) + (last as int - '0' as int)
  }

  /** Printing a number in decimal and reading it back gives the number. */
  lemma {:induction false} ParseNatToString(n: nat)
    ensures ParseNat(NatToString(n)) == n
  {
    if n >= 10 {
      ParseNatToString(n / 10);
      var r := NatToString(n);
      assert r[..|r| - 1] == NatToString(n / 10);
    }
  }

  /** `str` on ints is one-to-one, so texts built from distinct numbers differ. */
  lemma IntToStringInjective(a: int, b: int)
    requires IntToString(a) == IntToString(b)
    ensures a == b
  {
    if a < 0 && b < 0 {
      assert NatToString(-a) == IntToString(a)[1..] == IntToString(b)[1..] == NatToString(-b);
      ParseNatToString(-a);
      ParseNatToString(-b);
    } else if a >= 0 && b >= 0 {
      ParseNatToString(a);
      ParseNatToString(b);
    }
  }

  /** Cutting a text at its first `ch`, where the part before holds no `ch`. */
  lemma {:induction false} CutAt(a: string, b: string, x: string, y: string, ch: char)
    requires ch !in a && ch !in b && a + [ch] + x == b + [ch] + y
    ensures a == b && x == y
    decreases |a|
  {
    if a == [] || b == [] {
      assert (a + [ch] + x)[0] == (b + [ch] + y)[0] == ch;
      assert a == [] && b == [];
      assert x == (a + [ch] + x)[1..] == (b + [ch] + y)[1..] == y;
    } else {
      assert a[0] == b[0] by { assert (a + [ch] + x)[0] == a[0]; assert (b + [ch] + y)[0] == b[0]; }
      assert a[1..] + [ch] + x == (a + [ch] + x)[1..] == (b + [ch] + y)[1..] == b[1..] + [ch] + y;
      CutAt(a[1..], b[1..], x, y, ch);
    }
  }

  // ---------------------------------------------------------------------------
  // re.split(r'[.!?]+', s)

  predicate IsTerminator(c: char) {
    c == '.' || c == '!' || c == '?'
  }

  predicate NoTerminator(s: string) {
    forall i :: 0 <= i < |s| ==> !IsTerminator(s[i])
  }

  function RemoveTerminators(s: string): string {
    if s == [] then [] else (if IsTerminator(s[0]) then [] else [s[0]]) + RemoveTerminators(s[1..])
  }

  /** `re.split(r'[.!?]+', s)`: the pieces between maximal runs of `.`, `!`, `?`
      (a leading or trailing run yields an empty piece at that end). */
  function SentencePieces(s: string): (ps: seq<string>)
    ensures |ps| >= 1
    ensures forall k :: 0 <= k < |ps| ==> NoTerminator(ps[k])
    decreases |s|
  {
    if s == [] then [""]
    else
      var rest := SentencePieces(s[1..]);
      if IsTerminator(s[0]) then
        if |s| > 1 && IsTerminator(s[1]) then rest else [""] + rest
      else [[s[0]] + rest[0]] + rest[1..]
  }

  /** The pieces, glued back together, are the input with its terminators removed. */
  lemma {:induction false} SentencePiecesKeepText(s: string)
    ensures Concat(SentencePieces(s)) == RemoveTerminators(s)
    decreases |s|
  {
    if s != [] {
      SentencePiecesKeepText(s[1..]);
      var rest := SentencePieces(s[1..]);
      if !IsTerminator(s[0]) {
        var ps := SentencePieces(s);
        assert ps[1..] == rest[1..];
        assert Concat(rest) == rest[0] + Concat(rest[1..]);
      }
    }
  }

  predicate AllTerminators(s: string) {
    forall i :: 0 <= i < |s| ==> IsTerminator(s[i])
  }

  /** A text without terminators is one piece. */
  lemma {:induction false} SentencePiecesOfPlain(p: string)
    requires NoTerminator(p)
    ensures SentencePieces(p) == [p]
    decreases |p|
  {
    if p != [] {
      SentencePiecesOfPlain(p[1..]);
      assert [p[0]] + p[1..] == p;
    }
  }

  lemma {:induction false} TerminatorRunCut(t: string, s: string)
    requires t != [] && AllTerminators(t) && (s == [] || !IsTerminator(s[0]))
    ensures SentencePieces(t + s) == [""] + SentencePieces(s)
    decreases |t|
  {
    var ts := t + s;
    assert ts[0] == t[0] && ts[1..] == t[1..] + s;
    if |t| > 1 {
      assert ts[1] == t[1];
      TerminatorRunCut(t[1..], s);
    } else {
      assert ts[1..] == s;
    }
  }

  /** A maximal run of terminators ends a piece: the text before the run is one piece,
      and splitting goes on after it. With `SentencePiecesOfPlain` this fixes every cut
      `re.split(r'[.!?]+', s)` makes, and so the sentence count. */
  lemma {:induction false} SentencePiecesCut(p: string, t: string, s: string)
    requires NoTerminator(p) && t != [] && AllTerminators(t)
    requires s == [] || !IsTerminator(s[0])
    ensures SentencePieces(p + t + s) == [p] + SentencePieces(s)
    decreases |p|
  {
    if p == [] {
      assert p + t + s == t + s;
      TerminatorRunCut(t, s);
    } else {
      var x := p + t + s;
      assert x[0] == p[0] && x[1..] == p[1..] + t + s;
      SentencePiecesCut(p[1..], t, s);
      assert [p[0]] + p[1..] == p;
    }
  }

  /** Word counts of the pieces that are not blank:
      `[len(p.split()) for p in pieces if p.strip()]`. */
  function WordCounts(ps: seq<string>): (ls: seq<nat>)
    ensures |ls| <= |ps|
  {
    if ps == [] then []
    else (if Strip(ps[0]) != [] then [|Split(ps[0])|] else []) + WordCounts(ps[1..])
  }

  /** Blank pieces are dropped, so every count is positive. */
  lemma {:induction false} WordCountsPositive(ps: seq<string>)
    ensures forall k :: 0 <= k < |WordCounts(ps)| ==> WordCounts(ps)[k] > 0
  {
    if ps != [] {
      var head := if Strip(ps[0]) != [] then [|Split(ps[0])|] else [];
      var rest := WordCounts(ps[1..]);
      assert forall k :: 0 <= k < |head| ==> head[k] > 0 by {
        StripEmptyIffNoTokens(ps[0]);
      }
      assert forall k :: 0 <= k < |rest| ==> rest[k] > 0 by {
        WordCountsPositive(ps[1..]);
      }
      assert WordCounts(ps) == head + rest;
    }
  }

  /** Word counts of the sentences of `s`, as the sentence criteria use them. */
  function SentenceLengths(s: string): seq<nat> {
    WordCounts(SentencePieces(s))
  }
}
