/**
  The string primitives the conversion engine is built from: searching for a
  byte, Rust's `str::replace`, `BufRead::read_line` over content held in
  memory, and counting the occurrences of a tag.

  A `string` element stands for one byte of the UTF-8 text; every marker the
  engine looks for (`[ ] ( ) # - { } < \n \r`) is ASCII, so a byte offset in
  the source is an index here.
 */
module Strings {
  import opened Wrappers

  /** Concatenation regrouped. */
  lemma ConcatAssoc(a: string, b: string, c: string)
    ensures (a + b) + c == a + (b + c)
  {
  }

  /** An empty part adds nothing in front. */
  lemma EmptyPrefix(a: string, b: string)
    requires a == []
    ensures a + b == b
  {
  }

  /** An empty part adds nothing behind. */
  lemma EmptySuffix(a: string, b: string)
    requires b == []
    ensures a + b == a
  {
  }

  // ---------------------------------------------------------------------------
  // Searching
  // ---------------------------------------------------------------------------

  /** The first index at or after `from` where `s` holds `c`, if there is one. */
  function IndexFrom(s: string, c: char, from: nat): (r: Option<nat>)
    ensures r.Some? ==> from <= r.value < |s| && s[r.value] == c
    ensures r.Some? ==> forall k :: from <= k < r.value ==> s[k] != c
    ensures r.None? ==> forall k :: from <= k < |s| ==> s[k] != c
    decreases |s| - from
  {
    if from >= |s| then None
    else if s[from] == c then Some(from)
    else IndexFrom(s, c, from + 1)
  }

  /** The search stops at the first `c` it meets. */
  lemma IndexFromFirst(s: string, c: char, from: nat, k: nat)
    requires from <= k < |s| && s[k] == c
    requires forall j :: from <= j < k ==> s[j] != c
    ensures IndexFrom(s, c, from) == Some(k)
  {
  }

  /** A character missing from a slice is missing at each index of it. */
  lemma NotInSlice(s: string, c: char, i: nat, j: nat)
    requires i <= j <= |s| && c !in s[i..j]
    ensures forall k :: i <= k < j ==> s[k] != c
  {
    assert forall k :: i <= k < j ==> s[k] == s[i..j][k - i];
  }

  // ---------------------------------------------------------------------------
  // str::replace
  // ---------------------------------------------------------------------------

  /**
    Rust's `s.replace(pat, rep)`: every non-overlapping occurrence of `pat`,
    found scanning left to right, is replaced by `rep`; the inserted text is
    not scanned again. Every pattern the engine uses is a non-empty constant.
   */
  function ReplaceAll(s: string, pat: string, rep: string): string
    requires pat != []
    decreases |s|
  {
    if |s| < |pat| then s
    else if s[..|pat|] == pat then rep + ReplaceAll(s[|pat|..], pat, rep)
    else [s[0]] + ReplaceAll(s[1..], pat, rep)
  }

  /** A text that lacks some character of the pattern has no occurrence of it and is left as it is. */
  lemma {:induction false} ReplaceAllMissing(s: string, pat: string, rep: string, k: nat)
    requires k < |pat| && pat[k] !in s
    ensures ReplaceAll(s, pat, rep) == s
    decreases |s|
  {
    if |s| >= |pat| {
      assert s[..|pat|][k] == s[k];
      ReplaceAllMissing(s[1..], pat, rep, k);
      assert s == [s[0]] + s[1..];
    }
  }

  /** A leading character that does not start the pattern passes through unchanged. */
  lemma ReplaceAllCons(x: char, s: string, pat: string, rep: string)
    requires pat != [] && x != pat[0]
    ensures ReplaceAll([x] + s, pat, rep) == [x] + ReplaceAll(s, pat, rep)
  {
    var t := [x] + s;
    assert t[1..] == s;
    if |t| >= |pat| {
      assert t[..|pat|][0] == x;
    }
  }

  /** A prefix without the pattern's first character passes through unchanged. */
  lemma {:induction false} ReplaceAllSkip(p: string, s: string, pat: string, rep: string)
    requires pat != [] && pat[0] !in p
    ensures ReplaceAll(p + s, pat, rep) == p + ReplaceAll(s, pat, rep)
    decreases |p|
  {
    if p == [] {
      assert p + s == s;
    } else {
      assert p + s == [p[0]] + (p[1..] + s);
      ReplaceAllCons(p[0], p[1..] + s, pat, rep);
      assert pat[0] !in p[1..] by {
        assert forall j :: 0 <= j < |p[1..]| ==> p[1..][j] == p[j + 1];
      }
      ReplaceAllSkip(p[1..], s, pat, rep);
      ConcatAssoc([p[0]], p[1..], ReplaceAll(s, pat, rep));
      assert [p[0]] + p[1..] == p;
    }
  }

  /**
    Replacing in `s + q` is replacing in each part, when `q` starts with a
    character that is not in the pattern (so no occurrence spans the join).
   */
  lemma {:induction false} ReplaceAllSplit(s: string, q: string, pat: string, rep: string)
    requires pat != []
    requires q == [] || q[0] !in pat
    ensures ReplaceAll(s + q, pat, rep) == ReplaceAll(s, pat, rep) + ReplaceAll(q, pat, rep)
    decreases |s|
  {
    var t := s + q;
    if s == [] {
      assert t == q;
    } else if |t| < |pat| {
      assert ReplaceAll(q, pat, rep) == q;
    } else if t[..|pat|] == pat {
      if |s| < |pat| {
        JoinWindowDiffers(s, q, pat);
      }
      ReplaceAllSplit(s[|pat|..], q, pat, rep);
      SplitAtMatch(s, q, pat, rep);
    } else {
      ReplaceAllSplit(s[1..], q, pat, rep);
      SplitPastChar(s, q, pat, rep);
    }
  }

  /** The step of `ReplaceAllSplit` where `s` starts with the pattern. */
  lemma SplitAtMatch(s: string, q: string, pat: string, rep: string)
    requires pat != [] && |pat| <= |s| && (s + q)[..|pat|] == pat
    requires ReplaceAll(s[|pat|..] + q, pat, rep) == ReplaceAll(s[|pat|..], pat, rep) + ReplaceAll(q, pat, rep)
    ensures ReplaceAll(s + q, pat, rep) == ReplaceAll(s, pat, rep) + ReplaceAll(q, pat, rep)
  {
    assert s[..|pat|] == pat;
    assert (s + q)[|pat|..] == s[|pat|..] + q;
  }

  /** The step of `ReplaceAllSplit` where `s + q` does not start with the pattern. */
  lemma SplitPastChar(s: string, q: string, pat: string, rep: string)
    requires pat != [] && s != [] && |pat| <= |s + q| && (s + q)[..|pat|] != pat
    requires ReplaceAll(s[1..] + q, pat, rep) == ReplaceAll(s[1..], pat, rep) + ReplaceAll(q, pat, rep)
    ensures ReplaceAll(s + q, pat, rep) == ReplaceAll(s, pat, rep) + ReplaceAll(q, pat, rep)
  {
    var t, u, v := s + q, ReplaceAll(s[1..], pat, rep), ReplaceAll(q, pat, rep);
    JoinTail(s, q);
    assert ReplaceAll(t, pat, rep) == [s[0]] + (u + v);
    SkipFirst(s, pat, rep, t);
    ConcatAssoc([s[0]], u, v);
  }

  /** Dropping the first character of `s + q`, with `s` non-empty, drops it from `s`. */
  lemma JoinTail(s: string, q: string)
    requires s != []
    ensures (s + q)[1..] == s[1..] + q
  {
    var t := s + q;
    assert forall k :: 0 <= k < |t| - 1 ==> t[1..][k] == (s[1..] + q)[k];
  }

  /** When `t` extends `s` and does not start with the pattern, neither does `s`, whose first character is kept. */
  lemma SkipFirst(s: string, pat: string, rep: string, t: string)
    requires pat != [] && s != [] && |pat| <= |t| && t[..|pat|] != pat && s <= t
    ensures ReplaceAll(s, pat, rep) == [s[0]] + ReplaceAll(s[1..], pat, rep)
  {
    if |s| < |pat| {
      assert ReplaceAll(s[1..], pat, rep) == s[1..];
      assert s == [s[0]] + s[1..];
    } else {
      assert s[..|pat|] == t[..|pat|];
    }
  }

  /** A window that starts in non-empty `s` and ends in `q` holds `q[0]`, so it is not the pattern. */
  lemma JoinWindowDiffers(s: string, q: string, pat: string)
    requires s != [] && |s| < |pat| <= |s + q| && q[0] !in pat
    ensures (s + q)[..|pat|] != pat
  {
    assert (s + q)[..|pat|][|s|] == q[0];
  }

  /** The pattern on its own becomes the replacement. */
  lemma ReplaceAllWhole(pat: string, rep: string)
    requires pat != []
    ensures ReplaceAll(pat, pat, rep) == rep
  {
    assert pat[..|pat|] == pat;
    assert ReplaceAll(pat[|pat|..], pat, rep) == [];
  }

  /** Replacing introduces no character that neither the text nor the replacement has. */
  lemma {:induction false} ReplaceAllAvoids(s: string, pat: string, rep: string, c: char)
    requires pat != [] && c !in s && c !in rep
    ensures c !in ReplaceAll(s, pat, rep)
    decreases |s|
  {
    if |s| >= |pat| {
      if s[..|pat|] == pat {
        assert forall k :: |pat| <= k < |s| ==> s[k] in s;
        ReplaceAllAvoids(s[|pat|..], pat, rep, c);
      } else {
        ReplaceAllAvoids(s[1..], pat, rep, c);
      }
    }
  }

  // ---------------------------------------------------------------------------
  // BufRead::read_line
  // ---------------------------------------------------------------------------

  /** How many bytes one `read_line` call from `pos` takes: up to and including the first `\n`. */
  function LineLength(content: string, pos: nat): (n: nat)
    requires pos <= |content|
    ensures pos + n <= |content|
    ensures (n == 0) == (pos == |content|)
    decreases |content| - pos
  {
    if pos == |content| then 0
    else if content[pos] == '\n' then 1
    else 1 + LineLength(content, pos + 1)
  }

  /**
    One `read_line` call on a reader positioned at `pos`: the bytes up to and
    including the first `\n`, or the rest of the content when there is no
    `\n`; empty exactly at the end of the content.
   */
  function ReadLine(content: string, pos: nat): (line: string)
    requires pos <= |content|
    ensures pos + |line| <= |content|
    ensures (|line| == 0) == (pos == |content|)
  {
    content[pos..pos + LineLength(content, pos)]
  }

  /**
    The line read has no `\n` but possibly its last byte, and it ends in `\n`
    unless it reaches the end of the content.
   */
  lemma {:induction false} ReadLineFacts(content: string, pos: nat)
    requires pos <= |content|
    ensures var line := ReadLine(content, pos);
            && line == content[pos..pos + |line|]
            && (forall k :: 0 <= k < |line| - 1 ==> line[k] != '\n')
            && (pos + |line| < |content| ==> line[|line| - 1] == '\n')
    decreases |content| - pos
  {
    if pos < |content| && content[pos] != '\n' {
      ReadLineFacts(content, pos + 1);
      var rest := ReadLine(content, pos + 1);
      assert ReadLine(content, pos) == [content[pos]] + rest;
    }
  }

  /** A line break at `k`, the first from `pos` on, ends the line read from `pos`. */
  lemma {:induction false} ReadLineUpTo(content: string, pos: nat, k: nat)
    requires pos <= k < |content| && content[k] == '\n'
    requires forall j :: pos <= j < k ==> content[j] != '\n'
    ensures ReadLine(content, pos) == content[pos..k + 1]
    ensures LineLength(content, pos) == k + 1 - pos
    decreases k - pos
  {
    if pos < k {
      ReadLineUpTo(content, pos + 1, k);
    }
  }

  /** Without a line break from `pos` on, the line read is the rest of the content. */
  lemma {:induction false} ReadLineNoBreak(content: string, pos: nat)
    requires pos <= |content|
    requires forall j :: pos <= j < |content| ==> content[j] != '\n'
    ensures ReadLine(content, pos) == content[pos..]
    ensures LineLength(content, pos) == |content| - pos
    decreases |content| - pos
  {
    if pos < |content| {
      ReadLineNoBreak(content, pos + 1);
    }
  }

  /** Reading from inside `b` of `a + b` reads what reading `b` alone reads. */
  lemma {:induction false} ReadLineShift(a: string, b: string, pos: nat)
    requires pos <= |b|
    ensures LineLength(a + b, |a| + pos) == LineLength(b, pos)
    ensures ReadLine(a + b, |a| + pos) == ReadLine(b, pos)
    decreases |b| - pos
  {
    if pos < |b| && b[pos] != '\n' {
      ReadLineShift(a, b, pos + 1);
    }
    var n := LineLength(b, pos);
    assert (a + b)[|a| + pos..|a| + pos + n] == b[pos..pos + n];
  }

  /** The lines successive `read_line` calls return from byte `pos` on, until one returns nothing. */
  function Lines(content: string, pos: nat): seq<string>
    requires pos <= |content|
    decreases |content| - pos
  {
    if pos == |content| then []
    else [ReadLine(content, pos)] + Lines(content, pos + |ReadLine(content, pos)|)
  }

  /** Before the end of the content, the first line is the one read at `pos`. */
  lemma LinesStep(content: string, pos: nat)
    requires pos < |content|
    ensures Lines(content, pos) != []
    ensures Lines(content, pos)[0] == ReadLine(content, pos)
    ensures Lines(content, pos)[1..] == Lines(content, pos + |ReadLine(content, pos)|)
  {
  }

  /**
    The lines read from inside `b` of `a + b`, from `start` = `|a| + pos`,
    are those read from `b` alone from `pos`.
   */
  lemma {:induction false} LinesShiftFrom(a: string, b: string, pos: nat, start: nat)
    requires pos <= |b| && start == |a| + pos
    ensures Lines(a + b, start) == Lines(b, pos)
    decreases |b| - pos
  {
    if pos < |b| {
      var line := ReadLine(b, pos);
      ReadLineShift(a, b, pos);
      LinesShiftFrom(a, b, pos + |line|, start + |line|);
      var rest := Lines(b, pos + |line|);
      LinesCons(b, pos, line, rest);
      LinesCons(a + b, start, line, rest);
    }
  }

  /** The lines from `pos` are the one read there and those after it. */
  lemma LinesCons(content: string, pos: nat, line: string, rest: seq<string>)
    requires pos < |content| && ReadLine(content, pos) == line
    requires Lines(content, pos + |line|) == rest
    ensures Lines(content, pos) == [line] + rest
  {
  }

  /** The lines, one after the other. */
  function Join(lines: seq<string>): string
  {
    if lines == [] then "" else lines[0] + Join(lines[1..])
  }

  /** A character missing from a text is missing from every slice of it. */
  lemma SliceLacks(s: string, c: char, i: nat, j: nat)
    requires i <= j <= |s| && c !in s
    ensures c !in s[i..j]
  {
    assert forall k :: i <= k < j ==> s[i..j][k - i] == s[k] && s[k] in s;
  }

  lemma JoinCons(line: string, rest: seq<string>)
    ensures Join([line] + rest) == line + Join(rest)
  {
    assert ([line] + rest)[1..] == rest;
  }

  /** Reading line by line loses and repeats nothing: the lines put together are the content from `pos` on. */
  lemma {:induction false} LinesJoin(content: string, pos: nat)
    requires pos <= |content|
    ensures Join(Lines(content, pos)) == content[pos..]
    decreases |content| - pos
  {
    if pos < |content| {
      var line := ReadLine(content, pos);
      var next := pos + |line|;
      ReadLineFacts(content, pos);
      LinesJoin(content, next);
      var rest := Lines(content, next);
      LinesCons(content, pos, line, rest);
      JoinCons(line, rest);
      assert content[pos..] == line + content[next..];
    }
  }

  /** No line break before the last byte. */
  predicate NoInnerBreak(line: string)
  {
    forall k :: 0 <= k < |line| - 1 ==> line[k] != '\n'
  }

  /** A line that ends in a line break. */
  predicate EndsInBreak(line: string)
  {
    line != [] && line[|line| - 1] == '\n'
  }

  /** Every line read is non-empty with no inner line break, and all but the last end in one. */
  lemma {:induction false} LinesShape(content: string, pos: nat)
    requires pos <= |content|
    ensures forall i :: 0 <= i < |Lines(content, pos)| ==> Lines(content, pos)[i] != [] && NoInnerBreak(Lines(content, pos)[i])
    ensures forall i :: 0 <= i < |Lines(content, pos)| - 1 ==> EndsInBreak(Lines(content, pos)[i])
    decreases |content| - pos
  {
    if pos < |content| {
      var line := ReadLine(content, pos);
      var next := pos + |line|;
      ReadLineFacts(content, pos);
      LinesShape(content, next);
      var rest := Lines(content, next);
      LinesCons(content, pos, line, rest);
      var lines := [line] + rest;
      assert forall i :: 1 <= i < |lines| ==> lines[i] == rest[i - 1];
      if rest != [] {
        LinesCons(content, next, rest[0], rest[1..]);
        assert next < |content|;
      }
    }
  }

  /** A complete line at the front is read first, then the lines of what follows it. */
  lemma LinesFront(line: string, rest: string)
    requires EndsInBreak(line) && '\n' !in line[..|line| - 1]
    ensures Lines(line + rest, 0) == [line] + Lines(rest, 0)
  {
    var content := line + rest;
    NotInSlice(line, '\n', 0, |line| - 1);
    assert forall j :: 0 <= j < |line| ==> content[j] == line[j];
    ReadLineUpTo(content, 0, |line| - 1);
    assert content[..|line|] == line;
    LinesShiftFrom(line, rest, 0, |line|);
    LinesCons(content, 0, line, Lines(rest, 0));
  }

  /** A character missing from the content is missing from every line read. */
  lemma {:induction false} LinesLack(content: string, c: char, pos: nat)
    requires pos <= |content| && c !in content
    ensures forall i :: 0 <= i < |Lines(content, pos)| ==> c !in Lines(content, pos)[i]
    decreases |content| - pos
  {
    if pos < |content| {
      var line := ReadLine(content, pos);
      var next := pos + |line|;
      LinesStep(content, pos);
      ReadLineFacts(content, pos);
      SliceLacks(content, c, pos, next);
      LinesLack(content, c, next);
      var lines := Lines(content, pos);
      assert forall i :: 1 <= i < |lines| ==> lines[i] == Lines(content, next)[i - 1];
    }
  }

  // ---------------------------------------------------------------------------
  // Counting occurrences
  // ---------------------------------------------------------------------------

  /** The number of positions at which `pat` occurs in `s`. */
  function CountSub(s: string, pat: string): nat
    requires pat != []
    decreases |s|
  {
    if |s| < |pat| then 0
    else (if s[..|pat|] == pat then 1 else 0) + CountSub(s[1..], pat)
  }

  /** A text that lacks some character of the pattern contains no occurrence of it. */
  lemma {:induction false} CountSubMissing(s: string, pat: string, k: nat)
    requires k < |pat| && pat[k] !in s
    ensures CountSub(s, pat) == 0
    decreases |s|
  {
    if |s| >= |pat| {
      assert s[..|pat|][k] == s[k];
      assert forall j :: 1 <= j < |s| ==> s[j] in s;
      CountSubMissing(s[1..], pat, k);
    }
  }

  /** The `n` characters of `s` from index `i`. */
  function Window(s: string, i: nat, n: nat): string
    requires i + n <= |s|
  {
    s[i..i + n]
  }

  /** No occurrence of `pat` in `a + b` starts inside `a` and ends inside `b`. */
  ghost predicate Separated(a: string, b: string, pat: string)
  {
    forall i :: 0 <= i < |a| && |a| < i + |pat| <= |a| + |b| ==> Window(a + b, i, |pat|) != pat
  }

  /** Nothing spans the join when `b` starts with a character the pattern has only at its head, if at all. */
  lemma SeparatedByFirst(a: string, b: string, pat: string)
    requires pat != [] && (b == [] || b[0] !in pat[1..])
    ensures Separated(a, b, pat)
  {
    forall i | 0 <= i < |a| && |a| < i + |pat| <= |a| + |b|
      ensures Window(a + b, i, |pat|) != pat
    {
      assert Window(a + b, i, |pat|)[|a| - i] == b[0];
      assert pat[1..][|a| - i - 1] == pat[|a| - i];
    }
  }

  /** Nothing spans the join when the pattern's first character is missing from the end of `a`. */
  lemma SeparatedByLast(a: string, b: string, pat: string)
    requires pat != []
    requires forall i :: 0 <= i < |a| && |a| < i + |pat| ==> a[i] != pat[0]
    ensures Separated(a, b, pat)
  {
    forall i | 0 <= i < |a| && |a| < i + |pat| <= |a| + |b|
      ensures Window(a + b, i, |pat|) != pat
    {
      assert Window(a + b, i, |pat|)[0] == a[i];
    }
  }

  /** Occurrences in `a + b` are those of `a` and those of `b` when none spans the join. */
  lemma {:induction false} CountSubSplit(a: string, b: string, pat: string)
    requires pat != [] && Separated(a, b, pat)
    ensures CountSub(a + b, pat) == CountSub(a, pat) + CountSub(b, pat)
    decreases |a|
  {
    var t := a + b;
    if a == [] {
      assert t == b;
    } else if |t| < |pat| {
      assert CountSub(a, pat) == 0 && CountSub(b, pat) == 0;
    } else {
      assert t[1..] == a[1..] + b;
      assert Separated(a[1..], b, pat) by {
        forall i | 0 <= i < |a[1..]| && |a[1..]| < i + |pat| <= |a[1..]| + |b|
          ensures Window(a[1..] + b, i, |pat|) != pat
        {
          assert Window(a[1..] + b, i, |pat|) == Window(t, i + 1, |pat|);
        }
      }
      CountSubSplit(a[1..], b, pat);
      if |a| >= |pat| {
        assert t[..|pat|] == a[..|pat|];
      } else {
        assert Window(t, 0, |pat|) == t[..|pat|];
        assert CountSub(a[1..], pat) == 0;
      }
    }
  }
}
