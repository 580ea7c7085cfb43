/**
  Title detection, `parse_title_from_file`: the first three `read_line` calls
  on a fresh reader. A document has a title when its first line is neither
  empty nor a bare line break and the next two lines are bare line breaks;
  the title is then the first line, line break included, and the caller
  skips the bytes of all three lines.
 */
module Titles {
  import opened Strings

  /** A line that holds nothing but a line break, `\n` or `\r\n`. */
  predicate IsBlankLine(line: string)
  {
    line == "\n" || line == "\r\n"
  }

  /** Where the `n`-th `read_line` call on a fresh reader starts. */
  function Offset(content: string, n: nat): (r: nat)
    ensures r <= |content|
  {
    if n == 0 then 0 else Offset(content, n - 1) + LineLength(content, Offset(content, n - 1))
  }

  /** What the `n`-th `read_line` call on a fresh reader reads (counting from 0). */
  function LineAt(content: string, n: nat): string
  {
    ReadLine(content, Offset(content, n))
  }

  /** The condition `parse_title_from_file` checks on the three lines it read. */
  predicate HasTitle(content: string)
  {
    var first := LineAt(content, 0);
    first != [] && !IsBlankLine(first) && IsBlankLine(LineAt(content, 1)) && IsBlankLine(LineAt(content, 2))
  }

  /** Where conversion starts: after the title's three lines, or at the start. */
  function BodyStart(content: string): (start: nat)
    ensures start <= |content|
  {
    if HasTitle(content) then Offset(content, 3) else 0
  }

  /**
    `parse_title_from_file` on a file holding `content`, with `title0` the
    caller's title string: read three lines, adding up their lengths; on a
    title, store the first line and return the sum, otherwise return 0 and
    leave the title as it was. The reader's position is `readBytes` itself.
   */
  method ParseTitleFromFile(content: string, title0: string) returns (readBytes: nat, title: string)
    ensures HasTitle(content) ==> title == LineAt(content, 0) && readBytes == Offset(content, 3)
    ensures !HasTitle(content) ==> title == title0 && readBytes == 0
    ensures readBytes == BodyStart(content)
  {
    var lines: seq<string> := ["", "", ""];
    readBytes := 0;
    for j := 0 to 3
      invariant |lines| == 3
      invariant readBytes == Offset(content, j)
      invariant forall k :: 0 <= k < j ==> lines[k] == LineAt(content, k)
    {
      var line := ReadLine(content, readBytes);
      OffsetStep(content, j);
      lines := lines[j := line];
      readBytes := readBytes + |line|;
    }

    if lines[0] != [] && !IsBlankLine(lines[0]) && IsBlankLine(lines[1]) && IsBlankLine(lines[2]) {
      title := lines[0];
    } else {
      title := title0;
      readBytes := 0;
    }
  }

  // ---------------------------------------------------------------------------
  // Properties of the title rule
  // ---------------------------------------------------------------------------

  /** How one read continues from the previous one. */
  lemma OffsetStep(content: string, n: nat)
    ensures Offset(content, n + 1) == Offset(content, n) + |LineAt(content, n)|
    ensures LineAt(content, n) == content[Offset(content, n)..Offset(content, n + 1)]
  {
    ReadLineFacts(content, Offset(content, n));
  }

  /**
    With a title, the three lines read are exactly the bytes that are
    skipped, and the title ends in its line break.
   */
  lemma TitleSpansThreeLines(content: string)
    requires HasTitle(content)
    ensures content[..Offset(content, 3)] == LineAt(content, 0) + LineAt(content, 1) + LineAt(content, 2)
    ensures 0 < |LineAt(content, 0)| && LineAt(content, 0)[|LineAt(content, 0)| - 1] == '\n'
    ensures Offset(content, 3) == |LineAt(content, 0)| + |LineAt(content, 1)| + |LineAt(content, 2)|
  {
    OffsetStep(content, 0);
    OffsetStep(content, 1);
    OffsetStep(content, 2);
    ReadLineFacts(content, 0);
    var a, b, c := Offset(content, 1), Offset(content, 2), Offset(content, 3);
    assert content[..c] == content[..a] + content[a..b] + content[b..c];
    assert a < |content| by {
      assert LineAt(content, 1) != [];
    }
  }

  /** A blank line at the front is read whole, whatever follows it. */
  lemma BlankLineRead(b: string, r: string)
    requires IsBlankLine(b)
    ensures ReadLine(b + r, 0) == b
  {
    var s := b + r;
    if b == "\n" {
      ReadLineUpTo(s, 0, 0);
      assert s[..1] == b;
    } else {
      ReadLineUpTo(s, 0, 1);
      assert s[..2] == b;
    }
  }

  /** A line `t` + `\n` at the front is read whole, whatever follows it. */
  lemma FirstLineRead(t: string, r: string)
    requires '\n' !in t
    ensures ReadLine(t + "\n" + r, 0) == t + "\n"
  {
    var s := t + "\n" + r;
    assert forall k :: 0 <= k < |t| ==> s[k] == t[k];
    ReadLineUpTo(s, 0, |t|);
    assert s[..|t| + 1] == t + "\n";
  }

  /** Three consecutive reads, given by what each `read_line` returns. */
  lemma ThreeReads(content: string, l1: string, l2: string, l3: string)
    requires ReadLine(content, 0) == l1
    requires |l1| <= |content| && ReadLine(content, |l1|) == l2
    requires |l1| + |l2| <= |content| && ReadLine(content, |l1| + |l2|) == l3
    ensures LineAt(content, 0) == l1 && LineAt(content, 1) == l2 && LineAt(content, 2) == l3
    ensures Offset(content, 3) == |l1| + |l2| + |l3|
  {
    ReadsAt(content, l1, l2, l3, 1, 2, 3);
  }

  /** `ThreeReads` with the indices of the reads as parameters, which keeps the proof small. */
  lemma ReadsAt(content: string, l1: string, l2: string, l3: string, one: nat, two: nat, three: nat)
    requires one == 1 && two == 2 && three == 3
    requires ReadLine(content, 0) == l1
    requires |l1| <= |content| && ReadLine(content, |l1|) == l2
    requires |l1| + |l2| <= |content| && ReadLine(content, |l1| + |l2|) == l3
    ensures LineAt(content, 0) == l1 && LineAt(content, one) == l2 && LineAt(content, two) == l3
    ensures Offset(content, three) == |l1| + |l2| + |l3|
  {
    NextRead(content, 0, one, 0, l1);
    NextRead(content, one, two, |l1|, l2);
    NextRead(content, two, three, |l1| + |l2|, l3);
  }

  /** The `n`-th read, starting at `pos`, returns `line`, and the next one, the `m`-th, starts after it. */
  lemma NextRead(content: string, n: nat, m: nat, pos: nat, line: string)
    requires m == n + 1
    requires Offset(content, n) == pos && pos <= |content| && ReadLine(content, pos) == line
    ensures LineAt(content, n) == line && Offset(content, m) == pos + |line|
  {
    OffsetStep(content, n);
  }

  /**
    A first line `t` + `\n` (with `t` neither empty nor `\r`, and no line
    break in it) followed by two blank lines is a title, whatever comes next;
    the skip is the length of the three lines.
   */
  lemma {:induction false} TitleDetected(t: string, b2: string, b3: string, rest: string)
    requires t != [] && t != "\r" && '\n' !in t
    requires IsBlankLine(b2) && IsBlankLine(b3)
    ensures var content := t + "\n" + b2 + b3 + rest;
            HasTitle(content) && LineAt(content, 0) == t + "\n" && Offset(content, 3) == |t| + 1 + |b2| + |b3|
  {
    var l1 := t + "\n";
    var tail3 := b3 + rest;
    var tail2 := b2 + tail3;
    var content := t + "\n" + b2 + b3 + rest;
    ConcatAssoc(l1 + b2, b3, rest);
    ConcatAssoc(l1, b2, tail3);
    assert content == l1 + tail2;
    FirstLineRead(t, tail2);
    ReadLineShift(l1, tail2, 0);
    BlankLineRead(b2, tail3);
    ReadLineShift(l1 + b2, tail3, 0);
    BlankLineRead(b3, rest);
    ThreeReads(content, l1, b2, b3);
    assert !IsBlankLine(l1) by {
      if |l1| == 2 {
        assert t == [l1[0]];
      }
    }
  }

  /** The number of line breaks in `s`. */
  function LineBreaks(s: string): nat
  {
    multiset(s)['\n']
  }

  lemma LineBreaksConcat(a: string, b: string)
    ensures LineBreaks(a + b) == LineBreaks(a) + LineBreaks(b)
  {
  }

  lemma LineBreaksPrefix(s: string, c: nat)
    requires c <= |s|
    ensures LineBreaks(s[..c]) <= LineBreaks(s)
  {
    assert s == s[..c] + s[c..];
  }

  lemma EndsInLineBreak(line: string)
    requires |line| > 0 && line[|line| - 1] == '\n'
    ensures LineBreaks(line) >= 1
  {
    assert line[|line| - 1] in multiset(line);
  }

  /** The bytes a title skips hold at least three line breaks. */
  lemma TitleLineBreaks(content: string)
    requires HasTitle(content)
    ensures LineBreaks(content[..Offset(content, 3)]) >= 3
  {
    TitleSpansThreeLines(content);
    var l0, l1, l2 := LineAt(content, 0), LineAt(content, 1), LineAt(content, 2);
    EndsInLineBreak(l0);
    EndsInLineBreak(l1);
    EndsInLineBreak(l2);
    LineBreaksConcat(l0, l1);
    LineBreaksConcat(l0 + l1, l2);
  }

  /** A file with fewer than three line breaks has no title. */
  lemma FewLineBreaksNoTitle(content: string)
    requires LineBreaks(content) < 3
    ensures !HasTitle(content)
  {
    if HasTitle(content) {
      TitleLineBreaks(content);
      LineBreaksPrefix(content, Offset(content, 3));
    }
  }

  /** A first line that is empty or blank is never a title. */
  lemma BlankFirstLineNoTitle(content: string)
    requires LineAt(content, 0) == [] || IsBlankLine(LineAt(content, 0))
    ensures !HasTitle(content)
  {
  }

  /**
    The source's title tests: `test` followed by three line breaks has the
    title `test\n` and a skip of 7 bytes; `test` followed by two has none.
   */
  lemma TitleExamples()
    ensures HasTitle("test\n\n\n") && LineAt("test\n\n\n", 0) == "test\n" && Offset("test\n\n\n", 3) == 7
    ensures !HasTitle("test\n\n")
  {
    TitleDetected("test", "\n", "\n", "");
    assert "test" + "\n" + "\n" + "\n" + "" == "test\n\n\n";
    assert LineBreaks("test\n\n") == 2 by {
      assert "test\n\n" == ['t', 'e', 's', 't', '\n', '\n'];
    }
    FewLineBreaksNoTitle("test\n\n");
  }
}
