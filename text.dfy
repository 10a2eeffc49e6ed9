/** The few Python `str` operations the core relies on, over `string`
    (a sequence of Unicode characters). */
module Text {

  /** `c.isspace()`: the characters Python's `str.split()`, `str.strip()` and
      the regular-expression class `\s` treat as whitespace. */
  predicate IsSpace(c: char)
  {
    var n := c as int;
    n == 0x20 || (0x09 <= n <= 0x0d) || (0x1c <= n <= 0x1f) || n == 0x85 || n == 0xa0
    || n == 0x1680 || (0x2000 <= n <= 0x200a) || n == 0x2028 || n == 0x2029
    || n == 0x202f || n == 0x205f || n == 0x3000
  }

  /** `c.lower()` restricted to the ASCII letters; every other character is kept. */
  function LowerChar(c: char): char
  {
    if 'A' <= c <= 'Z' then (c as int + 32) as char else c
  }

  /** `s.lower()`, as `LowerChar` on every character. */
  function Lower(s: string): (r: string)
    ensures |r| == |s|
    ensures forall i :: 0 <= i < |s| ==> r[i] == LowerChar(s[i])
  {
    seq(|s|, i requires 0 <= i < |s| => LowerChar(s[i]))
  }

  /** Python's `p in s` on strings: `p` occurs in `s` as a contiguous substring. */
  predicate Contains(s: string, p: string)
    decreases |s|
  {
    p <= s || (|s| > 0 && Contains(s[1..], p))
  }

  /** `p` occurs in `s` starting at position `i`. */
  predicate OccursAt(s: string, p: string, i: nat)
  {
    i + |p| <= |s| && s[i..i + |p|] == p
  }

  /** `Contains` holds exactly when `p` occurs at some position of `s`. */
  lemma {:induction false} ContainsIffOccurs(s: string, p: string)
    ensures Contains(s, p) <==> exists i: nat :: OccursAt(s, p, i)
    decreases |s|
  {
    if p <= s {
      assert OccursAt(s, p, 0);
    } else if |s| > 0 {
      ContainsIffOccurs(s[1..], p);
      if exists i: nat :: OccursAt(s, p, i) {
        var i: nat :| OccursAt(s, p, i);
        assert i != 0;
        OccursShift(s, p, i - 1);
      }
      if Contains(s[1..], p) {
        var i: nat :| OccursAt(s[1..], p, i);
        OccursShift(s, p, i);
      }
    } else {
      assert forall i: nat :: !OccursAt(s, p, i);
    }
  }

  /** An occurrence in `s[1..]` is one in `s`, one position further on. */
  lemma OccursShift(s: string, p: string, i: nat)
    requires |s| > 0
    ensures OccursAt(s[1..], p, i) <==> OccursAt(s, p, i + 1)
  {
    if i + 1 + |p| <= |s| {
      assert s[1..][i..i + |p|] == s[i + 1..i + 1 + |p|];
    }
  }

  /** Whatever contains `q` contains every prefix of `q`. */
  lemma ContainsPrefix(s: string, p: string, q: string)
    requires Contains(s, q) && p <= q
    ensures Contains(s, p)
  {
    ContainsIffOccurs(s, q);
    var i: nat :| OccursAt(s, q, i);
    assert s[i..i + |p|] == q[..|p|];
    assert OccursAt(s, p, i);
    ContainsIffOccurs(s, p);
  }

  /** `s.lstrip()`: the longest suffix of `s` that does not start with whitespace. */
  function TrimStart(s: string): (r: string)
    ensures |r| <= |s|
  {
    if |s| > 0 && IsSpace(s[0]) then TrimStart(s[1..]) else s
  }

  /** What `TrimStart` removes is whitespace, and what it keeps is a suffix
      that does not start with whitespace. */
  lemma {:induction false} TrimStartSpec(s: string)
    ensures var r := TrimStart(s);
      && r == s[|s| - |r|..]
      && (r == [] || !IsSpace(r[0]))
      && forall i :: 0 <= i < |s| - |r| ==> IsSpace(s[i])
  {
    if |s| > 0 && IsSpace(s[0]) {
      TrimStartSpec(s[1..]);
    }
  }

  /** `s.rstrip()`: the longest prefix of `s` that does not end with whitespace. */
  function TrimEnd(s: string): (r: string)
    ensures |r| <= |s|
  {
    if |s| > 0 && IsSpace(s[|s| - 1]) then TrimEnd(s[..|s| - 1]) else s
  }

  /** What `TrimEnd` removes is whitespace, and what it keeps is a prefix
      that does not end with whitespace. */
  lemma {:induction false} TrimEndSpec(s: string)
    ensures var r := TrimEnd(s);
      && r <= s
      && (r == [] || !IsSpace(r[|r| - 1]))
      && forall i :: |r| <= i < |s| ==> IsSpace(s[i])
  {
    if |s| > 0 && IsSpace(s[|s| - 1]) {
      TrimEndSpec(s[..|s| - 1]);
    }
  }

  /** `s.strip()`. */
  function Strip(s: string): (r: string)
  {
    TrimEnd(TrimStart(s))
  }

  /** Everything before position `k` and after `r` placed at position `k` is whitespace. */
  predicate StrippedAt(s: string, r: string, k: nat)
    requires OccursAt(s, r, k)
  {
    (forall i :: 0 <= i < k ==> IsSpace(s[i])) && (forall i :: k + |r| <= i < |s| ==> IsSpace(s[i]))
  }

  /** Stripping removes only whitespace from the two ends: `s` is `r` with
      whitespace before and after it, and `r` neither starts nor ends with
      whitespace. */
  lemma StripSpec(s: string)
    ensures var r := Strip(s);
      && (r == [] || (!IsSpace(r[0]) && !IsSpace(r[|r| - 1])))
      && exists k: nat :: OccursAt(s, r, k) && StrippedAt(s, r, k)
  {
    var t := TrimStart(s);
    var r := TrimEnd(t);
    TrimStartSpec(s);
    TrimEndSpec(t);
    var k := |s| - |t|;
    assert r == t[..|r|];
    assert s[k..k + |r|] == r;
    assert OccursAt(s, r, k);
    forall i | k + |r| <= i < |s| ensures IsSpace(s[i]) {
      assert s[i] == t[i - k];
    }
  }

  /** The stripped text is a piece of the original. */
  lemma StripChars(s: string)
    ensures forall c :: c in Strip(s) ==> c in s
  {
    StripSpec(s);
    var k: nat :| OccursAt(s, Strip(s), k) && StrippedAt(s, Strip(s), k);
    forall c | c in Strip(s) ensures c in s {
      var j :| 0 <= j < |Strip(s)| && Strip(s)[j] == c;
      assert s[k + j] == c;
    }
  }

  /** The length of the longest prefix of `s` that holds no whitespace. */
  function WordLength(s: string): (n: nat)
    ensures n <= |s|
    ensures forall i :: 0 <= i < n ==> !IsSpace(s[i])
    ensures n < |s| ==> IsSpace(s[n])
  {
    if |s| == 0 || IsSpace(s[0]) then 0 else 1 + WordLength(s[1..])
  }

  /** `s.split()` with no separator: the maximal runs of non-whitespace, in order. */
  function Words(s: string): (ws: seq<string>)
    decreases |s|
  {
    var t := TrimStart(s);
    if t == [] then []
    else
      var n := WordLength(t);
      [t[..n]] + Words(t[n..])
  }

  /** `w` is a maximal run of non-whitespace of `s`, starting at position `i`:
      it is non-empty, holds no whitespace, and is bounded on each side by
      whitespace or an end of `s`. */
  predicate RunAt(s: string, w: string, i: nat)
  {
    && OccursAt(s, w, i)
    && w != []
    && (forall k :: 0 <= k < |w| ==> !IsSpace(w[k]))
    && (i == 0 || IsSpace(s[i - 1]))
    && (i + |w| == |s| || IsSpace(s[i + |w|]))
  }

  /** The words of `s` are exactly its maximal runs of non-whitespace; in
      particular every word is non-empty and holds no whitespace. */
  lemma WordsSpec(s: string)
    ensures forall w :: w in Words(s) <==> exists i: nat :: RunAt(s, w, i)
    ensures forall w :: w in Words(s) ==> w != [] && forall i :: 0 <= i < |w| ==> !IsSpace(w[i])
  {
    forall w | w in Words(s) ensures exists i: nat :: RunAt(s, w, i) {
      WordIsRun(s, w);
    }
    forall w, i: nat | RunAt(s, w, i) ensures w in Words(s) {
      RunIsWord(s, w, i);
    }
  }

  /** One step of `Words`: nothing when `s` is all whitespace, else the
      first word of what follows the leading whitespace, then the rest. */
  lemma WordsStep(s: string)
    ensures TrimStart(s) == [] ==> Words(s) == []
    ensures var t := TrimStart(s);
      t != [] ==> WordLength(t) >= 1 && Words(s) == [t[..WordLength(t)]] + Words(t[WordLength(t)..])
  {
    TrimStartSpec(s);
  }

  /** Every word is a maximal run. */
  lemma {:induction false} WordIsRun(s: string, w: string)
    requires w in Words(s)
    ensures exists i: nat :: RunAt(s, w, i)
    decreases |s|
  {
    var t := TrimStart(s);
    WordsStep(s);
    TrimStartSpec(s);
    var n := WordLength(t);
    if w == t[..n] {
      FirstRun(s, t, n);
    } else {
      assert w in Words(t[n..]);
      WordIsRun(t[n..], w);
      var j: nat :| RunAt(t[n..], w, j);
      LaterRun(s, t, n, w, j);
    }
  }

  /** The first word `t[..n]` of the text `t` that follows the leading
      whitespace of `s` is a run of `s`. */
  lemma FirstRun(s: string, t: string, n: nat)
    requires |t| <= |s| && t == s[|s| - |t|..] && 1 <= n <= |t|
    requires forall i :: 0 <= i < |s| - |t| ==> IsSpace(s[i])
    requires forall i :: 0 <= i < n ==> !IsSpace(t[i])
    requires n < |t| ==> IsSpace(t[n])
    ensures RunAt(s, t[..n], |s| - |t|)
  {
    var k := |s| - |t|;
    assert s[k..k + n] == t[..n];
    assert k + n < |s| ==> s[k + n] == t[n];
  }

  /** A run `w` at `j` in what follows the first word `t[..n]` of `t = s[k..]`
      is a run of `s`. */
  lemma LaterRun(s: string, t: string, n: nat, w: string, j: nat)
    requires |t| <= |s| && t == s[|s| - |t|..] && 1 <= n <= |t|
    requires n < |t| ==> IsSpace(t[n])
    requires RunAt(t[n..], w, j)
    ensures exists i: nat :: RunAt(s, w, i)
  {
    var u := t[n..];
    var k := |s| - |t|;
    assert u[j] == w[0] && !IsSpace(w[0]);
    assert n < |t| && u[0] == t[n];
    var i := k + n + j;
    assert u == s[k + n..];
    assert s[i..i + |w|] == u[j..j + |w|];
    assert s[i - 1] == u[j - 1];
    assert i + |w| < |s| ==> s[i + |w|] == u[j + |w|];
    assert RunAt(s, w, i);
  }

  /** Every maximal run is a word. */
  lemma {:induction false} RunIsWord(s: string, w: string, i: nat)
    requires RunAt(s, w, i)
    ensures w in Words(s)
    decreases |s|
  {
    var t := TrimStart(s);
    TrimStartSpec(s);
    assert s[i] == w[0];
    WordsStep(s);
    var n := WordLength(t);
    var p := i - (|s| - |t|);
    if p == 0 {
      RunIsFirstWord(s, t, n, w, i);
    } else {
      var j := RunAfterFirstWord(s, t, n, w, i);
      RunIsWord(t[n..], w, j);
    }
  }

  /** A run starting where the leading whitespace ends is the first word. */
  lemma RunIsFirstWord(s: string, t: string, n: nat, w: string, i: nat)
    requires |t| <= |s| && t == s[|s| - |t|..] && i == |s| - |t|
    requires n <= |t| && (forall q :: 0 <= q < n ==> !IsSpace(t[q])) && (n < |t| ==> IsSpace(t[n]))
    requires RunAt(s, w, i)
    ensures w == t[..n]
  {
    assert t[..|w|] == w;
    assert forall q :: 0 <= q < |w| ==> t[q] == w[q];
    assert i + |w| < |s| ==> s[i + |w|] == t[|w|];
  }

  /** A run starting after the first word is a run of what follows that word. */
  lemma RunAfterFirstWord(s: string, t: string, n: nat, w: string, i: nat) returns (j: nat)
    requires |t| <= |s| && t == s[|s| - |t|..] && i > |s| - |t|
    requires n <= |t| && (forall q :: 0 <= q < n ==> !IsSpace(t[q]))
    requires RunAt(s, w, i)
    ensures RunAt(t[n..], w, j)
  {
    var p := i - (|s| - |t|);
    assert t[p..p + |w|] == w;
    assert s[i - 1] == t[p - 1];
    assert p > n;
    var u := t[n..];
    j := p - n;
    assert u[j..j + |w|] == w;
    assert u[j - 1] == t[p - 1];
    assert j + |w| < |u| ==> u[j + |w|] == s[i + |w|];
  }

  /** `s.split('\n')[0]`: the text before the first line break. */
  function FirstLine(s: string): (r: string)
    ensures r <= s
    ensures '\n' !in r
    ensures |r| < |s| ==> s[|r|] == '\n'
  {
    if |s| == 0 || s[0] == '\n' then [] else [s[0]] + FirstLine(s[1..])
  }

  /** The length of the longest prefix of `s` made only of whitespace. */
  function SpaceRun(s: string): (n: nat)
    ensures n <= |s|
    ensures n < |s| ==> !IsSpace(s[n])
  {
    if |s| == 0 || !IsSpace(s[0]) then 0 else 1 + SpaceRun(s[1..])
  }

  /** Everything in the leading whitespace run is whitespace. */
  lemma {:induction false} SpaceRunSpaces(s: string)
    ensures forall i :: 0 <= i < SpaceRun(s) ==> IsSpace(s[i])
  {
    if |s| > 0 && IsSpace(s[0]) {
      SpaceRunSpaces(s[1..]);
      forall i | 1 <= i < SpaceRun(s) ensures IsSpace(s[i]) {
        assert s[i] == s[1..][i - 1];
      }
    }
  }

  /** One past the position of the last line break in `s`, or 0 when there is none. */
  function LastLineBreakEnd(s: string): (n: nat)
    ensures n <= |s|
    ensures n > 0 ==> s[n - 1] == '\n'
  {
    if |s| == 0 then 0
    else if s[|s| - 1] == '\n' then |s|
    else LastLineBreakEnd(s[..|s| - 1])
  }

  /** No line break follows the last one. */
  lemma {:induction false} LastLineBreakEndIsLast(s: string)
    ensures forall i :: LastLineBreakEnd(s) <= i < |s| ==> s[i] != '\n'
  {
    if |s| > 0 && s[|s| - 1] != '\n' {
      LastLineBreakEndIsLast(s[..|s| - 1]);
    }
  }

  /** The length of the match of the regular expression `\n\s*\n` at the very
      start of `s`, or 0 when it does not match there. The greedy `\s*` makes
      the match end at the last line break of the whitespace run. */
  function BlankLineAt(s: string): (n: nat)
    ensures n <= |s|
    ensures n == 0 || n >= 2
  {
    if |s| == 0 || s[0] != '\n' then 0
    else
      var k := LastLineBreakEnd(s[1..1 + SpaceRun(s[1..])]);
      if k == 0 then 0 else 1 + k
  }

  /** The length of the separator match at position `k` of `s`, or 0. */
  function BlankLineFrom(s: string, k: nat): nat
    requires k <= |s|
  {
    BlankLineAt(s[k..])
  }

  /** The leftmost position at or after `from` where `\n\s*\n` matches, or `|s|`. */
  function NextBlankLine(s: string, from: nat): (i: nat)
    requires from <= |s|
    ensures from <= i <= |s|
    decreases |s| - from
  {
    if from == |s| then |s|
    else if BlankLineAt(s[from..]) > 0 then from
    else NextBlankLine(s, from + 1)
  }

  /** A separator matches where the search stops short of the end. */
  lemma {:induction false} NextBlankLineFound(s: string, from: nat)
    requires from <= |s|
    ensures NextBlankLine(s, from) < |s| ==> BlankLineFrom(s, NextBlankLine(s, from)) > 0
    decreases |s| - from
  {
    if from < |s| && BlankLineAt(s[from..]) == 0 {
      NextBlankLineFound(s, from + 1);
    }
  }

  /** The separator found is the leftmost one from `from` on. */
  lemma {:induction false} NextBlankLineLeftmost(s: string, from: nat)
    requires from <= |s|
    ensures forall k :: from <= k < NextBlankLine(s, from) ==> BlankLineFrom(s, k) == 0
    decreases |s| - from
  {
    if from < |s| && BlankLineAt(s[from..]) == 0 {
      NextBlankLineLeftmost(s, from + 1);
    }
  }

  /** `re.split(r'\n\s*\n', s)`: the pieces between successive leftmost
      matches of a blank-line separator. */
  function SplitBlocks(s: string): (blocks: seq<string>)
    ensures |blocks| >= 1
    decreases |s|
  {
    var i := NextBlankLine(s, 0);
    if i == |s| then [s]
    else
      NextBlankLineFound(s, 0);
      [s[..i]] + SplitBlocks(s[i + BlankLineAt(s[i..])..])
  }

  /** Extending a text does not shorten its leading whitespace run, and the
      run of the shorter text is a prefix of the longer one's. */
  lemma {:induction false} SpaceRunExtends(a: string, b: string)
    ensures SpaceRun(a) <= SpaceRun(a + b)
    ensures (a + b)[..SpaceRun(a)] == a[..SpaceRun(a)]
  {
    if |a| > 0 && IsSpace(a[0]) {
      assert (a + b)[1..] == a[1..] + b;
      SpaceRunExtends(a[1..], b);
    }
  }

  lemma {:induction false} LineBreakFound(s: string, p: nat)
    requires p < |s| && s[p] == '\n'
    ensures LastLineBreakEnd(s) > p
  {
    if s[|s| - 1] != '\n' {
      LineBreakFound(s[..|s| - 1], p);
    }
  }

  /** A separator at the start of a text is still one when the text is extended. */
  lemma BlankLineExtends(t: string, u: string)
    requires BlankLineAt(t) > 0
    ensures BlankLineAt(t + u) > 0
  {
    var run := SpaceRun(t[1..]);
    var k := LastLineBreakEnd(t[1..1 + run]);
    assert (t + u)[1..] == t[1..] + u;
    SpaceRunExtends(t[1..], u);
    var run' := SpaceRun((t + u)[1..]);
    var spaces := (t + u)[1..1 + run'];
    assert spaces[k - 1] == t[1..1 + run][k - 1];
    LineBreakFound(spaces, k - 1);
  }

  /** No piece of a split holds a separator. */
  lemma {:induction false} SplitBlocksSeparated(s: string)
    ensures forall j, k :: 0 <= j < |SplitBlocks(s)| && 0 <= k < |SplitBlocks(s)[j]| ==> BlankLineAt(SplitBlocks(s)[j][k..]) == 0
    decreases |s|
  {
    var i := NextBlankLine(s, 0);
    FirstPieceSeparated(s, i);
    if i < |s| {
      var m := BlankLineAt(s[i..]);
      SplitStep(s, i, m);
      var rest := s[i + m..];
      SplitBlocksSeparated(rest);
      var blocks := SplitBlocks(s);
      forall j, k | 0 <= j < |blocks| && 0 <= k < |blocks[j]| ensures BlankLineAt(blocks[j][k..]) == 0 {
        if j > 0 {
          assert blocks[j] == SplitBlocks(rest)[j - 1];
        }
      }
    } else {
      assert s[..i] == s;
    }
  }

  /** The text before the first separator holds none. */
  lemma FirstPieceSeparated(s: string, i: nat)
    requires i == NextBlankLine(s, 0)
    ensures forall k :: 0 <= k < i ==> BlankLineAt(s[..i][k..]) == 0
  {
    var first := s[..i];
    NextBlankLineLeftmost(s, 0);
    forall k | 0 <= k < i ensures BlankLineAt(first[k..]) == 0 {
      assert BlankLineFrom(s, k) == 0;
      assert s[k..] == first[k..] + s[i..];
      if BlankLineAt(first[k..]) > 0 {
        BlankLineExtends(first[k..], s[i..]);
      }
    }
  }

  /** `sep` is a text the separator `\n\s*\n` matches in full: whitespace
      that starts and ends with a line break. */
  predicate IsBlankLine(sep: string)
  {
    |sep| >= 2 && sep[0] == '\n' && sep[|sep| - 1] == '\n' && forall k :: 0 <= k < |sep| ==> IsSpace(sep[k])
  }

  /** What a match of the separator at position `i` of `s` covers has that shape. */
  lemma BlankLineShape(s: string, i: nat, m: nat)
    requires i <= |s| && m == BlankLineAt(s[i..]) > 0
    ensures i + m <= |s| && IsBlankLine(s[i..i + m])
  {
    var t := s[i..];
    var run := SpaceRun(t[1..]);
    var spaces := t[1..1 + run];
    var k := LastLineBreakEnd(spaces);
    var sep := t[..m];
    SpaceRunSpaces(t[1..]);
    assert sep[|sep| - 1] == spaces[k - 1];
    forall q | 1 <= q < |sep| ensures IsSpace(sep[q]) {
      assert sep[q] == t[1..][q - 1];
    }
    assert sep == s[i..i + m];
  }

  /** The separators `re.split(r'\n\s*\n', s)` cuts out, in order. */
  function Separators(s: string): (seps: seq<string>)
    decreases |s|
  {
    var i := NextBlankLine(s, 0);
    if i == |s| then []
    else
      NextBlankLineFound(s, 0);
      var m := BlankLineAt(s[i..]);
      [s[i..i + m]] + Separators(s[i + m..])
  }

  /** The pieces with the separators between them. */
  function Interleave(blocks: seq<string>, seps: seq<string>): string
    requires |blocks| == |seps| + 1
    decreases |seps|
  {
    if seps == [] then blocks[0] else blocks[0] + seps[0] + Interleave(blocks[1..], seps[1..])
  }

  /** The first step of a split: the piece before the first separator, then
      the split of what follows it. */
  lemma SplitStep(s: string, i: nat, m: nat)
    requires i == NextBlankLine(s, 0) < |s| && m == BlankLineAt(s[i..])
    ensures SplitBlocks(s) == [s[..i]] + SplitBlocks(s[i + m..])
  {
  }

  /** The first separator of a split, then those of what follows it. */
  lemma SeparatorsStep(s: string, i: nat, m: nat)
    requires i == NextBlankLine(s, 0) < |s| && m == BlankLineAt(s[i..])
    ensures Separators(s) == [s[i..i + m]] + Separators(s[i + m..])
  {
  }

  /** Rejoining a piece and a separator in front of the rest. */
  lemma InterleaveCons(b: string, sep: string, blocks: seq<string>, seps: seq<string>)
    requires |blocks| == |seps| + 1
    ensures Interleave([b] + blocks, [sep] + seps) == b + sep + Interleave(blocks, seps)
  {
    assert ([b] + blocks)[1..] == blocks;
    assert ([sep] + seps)[1..] == seps;
  }

  /** Splitting loses nothing: there is one separator between each two
      pieces, and the pieces rejoined with them give back the text. */
  lemma {:induction false} SplitBlocksRejoin(s: string)
    ensures |Separators(s)| == |SplitBlocks(s)| - 1
    ensures Interleave(SplitBlocks(s), Separators(s)) == s
    decreases |s|
  {
    var i := NextBlankLine(s, 0);
    if i < |s| {
      var m := BlankLineAt(s[i..]);
      SplitStep(s, i, m);
      SeparatorsStep(s, i, m);
      var rest := s[i + m..];
      SplitBlocksRejoin(rest);
      InterleaveCons(s[..i], s[i..i + m], SplitBlocks(rest), Separators(rest));
      Reassemble(s, i, i + m);
    } else {
      SplitEnd(s);
    }
  }

  /** Without a separator there is one piece and no separator. */
  lemma SplitEnd(s: string)
    requires NextBlankLine(s, 0) == |s|
    ensures SplitBlocks(s) == [s] && Separators(s) == []
  {
  }

  /** A text is its three parts cut at `i` and `j`. */
  lemma Reassemble(s: string, i: nat, j: nat)
    requires i <= j <= |s|
    ensures s == s[..i] + s[i..j] + s[j..]
  {
  }

  /** Each separator cut out is a full match of `\n\s*\n`. */
  lemma {:induction false} SeparatorsAreBlankLines(s: string)
    ensures forall j :: 0 <= j < |Separators(s)| ==> IsBlankLine(Separators(s)[j])
    decreases |s|
  {
    var i := NextBlankLine(s, 0);
    if i < |s| {
      var m := BlankLineAt(s[i..]);
      SeparatorsStep(s, i, m);
      var rest := s[i + m..];
      SeparatorsAreBlankLines(rest);
      NextBlankLineFound(s, 0);
      BlankLineShape(s, i, m);
      AllBlankLinesCons(s[i..i + m], Separators(rest));
    } else {
      SplitEnd(s);
    }
  }

  lemma AllBlankLinesCons(sep: string, seps: seq<string>)
    requires IsBlankLine(sep)
    requires forall j :: 0 <= j < |seps| ==> IsBlankLine(seps[j])
    ensures forall j :: 0 <= j < |[sep] + seps| ==> IsBlankLine(([sep] + seps)[j])
  {
    forall j | 0 <= j < |[sep] + seps| ensures IsBlankLine(([sep] + seps)[j]) {
      if j > 0 {
        assert ([sep] + seps)[j] == seps[j - 1];
      }
    }
  }

  /** A text without a separator is a single piece. */
  lemma SplitWithoutSeparator(s: string)
    requires forall k :: 0 <= k < |s| ==> BlankLineAt(s[k..]) == 0
    ensures SplitBlocks(s) == [s]
  {
    NextBlankLineFound(s, 0);
  }
}
