/**
  Paragraph balance of the generated page. For input that holds no `<`
  (nor does the language tag or the file stem), the page opens exactly as
  many `<p>` paragraphs as it closes with `</p>`: one more than the number
  of blank lines converted.
 */
module Balance {
  import opened Strings
  import opened Links
  import opened Titles
  import opened Paths
  import opened Convert

  /** The two tags whose occurrences are counted. */
  predicate IsParagraphTag(pat: string)
  {
    pat == "<p>" || pat == "</p>"
  }

  /** None of the last three characters of `s` is a `<`, so no tag can start in `s` and end after it. */
  ghost predicate TailSafe(s: string)
  {
    forall i :: 0 <= i < |s| && |s| < i + 4 ==> s[i] != '<'
  }

  /** `s` is empty or starts with a character that no tag has after its `<`. */
  predicate StartsSafe(s: string)
  {
    s == [] || s[0] == '\t' || s[0] == '<' || s[0] == '\n'
  }

  // ---------------------------------------------------------------------------
  // Counting tags across a join
  // ---------------------------------------------------------------------------

  /** Tags in `a + b` are the tags in `a` and those in `b` when `a` ends safely. */
  lemma JoinByTail(a: string, b: string, pat: string)
    requires IsParagraphTag(pat) && TailSafe(a)
    ensures CountSub(a + b, pat) == CountSub(a, pat) + CountSub(b, pat)
  {
    assert pat[0] == '<' && |pat| <= 4;
    SeparatedByLast(a, b, pat);
    CountSubSplit(a, b, pat);
  }

  /** Tags in `a + b` are the tags in `a` and those in `b` when `b` starts safely. */
  lemma JoinByHead(a: string, b: string, pat: string)
    requires IsParagraphTag(pat) && StartsSafe(b)
    ensures CountSub(a + b, pat) == CountSub(a, pat) + CountSub(b, pat)
  {
    assert pat == "<p>" ==> pat[1..] == ['p', '>'];
    assert pat == "</p>" ==> pat[1..] == ['/', 'p', '>'];
    SeparatedByFirst(a, b, pat);
    CountSubSplit(a, b, pat);
  }

  lemma FreeCount(s: string, pat: string)
    requires IsParagraphTag(pat) && '<' !in s
    ensures CountSub(s, pat) == 0
  {
    CountSubMissing(s, pat, 0);
  }

  lemma NoPCount(s: string, pat: string)
    requires IsParagraphTag(pat) && 'p' !in s
    ensures CountSub(s, pat) == 0
  {
    CountSubMissing(s, pat, if pat == "<p>" then 1 else 2);
  }

  lemma FreeTailSafe(s: string)
    requires '<' !in s
    ensures TailSafe(s)
  {
    assert forall i :: 0 <= i < |s| ==> s[i] in s;
  }

  lemma TailSafeAppendFree(a: string, b: string)
    requires TailSafe(a) && '<' !in b
    ensures TailSafe(a + b)
  {
    forall i | 0 <= i < |a + b| && |a + b| < i + 4
      ensures (a + b)[i] != '<'
    {
      if i >= |a| {
        assert (a + b)[i] == b[i - |a|];
        assert b[i - |a|] in b;
      }
    }
  }

  lemma TailSafeAppend(a: string, b: string)
    requires TailSafe(b) && |b| >= 3
    ensures TailSafe(a + b)
  {
    forall i | 0 <= i < |a + b| && |a + b| < i + 4
      ensures (a + b)[i] != '<'
    {
      assert (a + b)[i] == b[i - |a|];
    }
  }

  /** A piece whose every character is safe to join after anything. */
  lemma FreePiece(a: string, b: string, pat: string)
    requires IsParagraphTag(pat) && TailSafe(a) && '<' !in b
    ensures CountSub(a + b, pat) == CountSub(a, pat)
    ensures TailSafe(a + b)
  {
    JoinByTail(a, b, pat);
    FreeCount(b, pat);
    TailSafeAppendFree(a, b);
  }

  /** A text ends safely when none of its last three characters is a `<`. */
  lemma TailSafeByLast(s: string)
    requires |s| >= 3 && s[|s| - 1] != '<' && s[|s| - 2] != '<' && s[|s| - 3] != '<'
    ensures TailSafe(s)
  {
  }

  // ---------------------------------------------------------------------------
  // The fixed pieces of the page
  // ---------------------------------------------------------------------------

  lemma AnchorPieces(pat: string)
    requires IsParagraphTag(pat)
    ensures CountSub(AnchorHrefOpen, pat) == 0 && TailSafe(AnchorHrefOpen) && |AnchorHrefOpen| >= 3
    ensures '<' !in AnchorHrefClose
    ensures CountSub(AnchorClose, pat) == 0 && TailSafe(AnchorClose) && |AnchorClose| >= 3
  {
    NoPCount(AnchorHrefOpen, pat);
    NoPCount(AnchorClose, pat);
    TailSafeByLast(AnchorHrefOpen);
    TailSafeByLast(AnchorClose);
  }

  lemma HeadingPieces(pat: string)
    requires IsParagraphTag(pat)
    ensures CountSub(HeadingOpen, pat) == 0 && TailSafe(HeadingOpen)
    ensures CountSub(HeadingClose, pat) == 0
  {
    NoPCount(HeadingOpen, pat);
    NoPCount(HeadingClose, pat);
    TailSafeByLast(HeadingOpen);
  }

  lemma RuleCount(pat: string)
    requires IsParagraphTag(pat)
    ensures CountSub(HorizontalRule, pat) == 0
  {
    NoPCount(HorizontalRule, pat);
  }

  lemma IndentIsFree()
    ensures '<' !in Indent
  {
  }

  /** `\t</p>\n` closes one paragraph and opens none. */
  lemma ParagraphCloseCount()
    ensures CountSub(ParagraphClose, "<p>") == 0 && CountSub(ParagraphClose, "</p>") == 1
    ensures TailSafe(ParagraphClose)
  {
    var s := ParagraphClose;
    assert s == ['\t', '<', '/', 'p', '>', '\n'];
    assert s[..3][0] == '\t' && s[..4][0] == '\t';
    assert s[1..][..3][1] == '/';
    assert s[1..][..4] == "</p>";
    assert s[2..][..3][0] == '/' && s[2..][..4][0] == '/';
    assert s[3..][..3][0] == 'p';
    assert s[1..][1..] == s[2..];
    assert s[2..][1..] == s[3..];
    assert s[3..][1..] == s[4..];
    TailSafeByLast(s);
  }

  /** `\t<p>\n` opens one paragraph and closes none. */
  lemma ParagraphOpenCount()
    ensures CountSub(ParagraphOpen, "<p>") == 1 && CountSub(ParagraphOpen, "</p>") == 0
    ensures TailSafe(ParagraphOpen)
  {
    var s := ParagraphOpen;
    assert s == ['\t', '<', 'p', '>', '\n'];
    assert s[..3][0] == '\t' && s[..4][0] == '\t';
    assert s[1..][..3] == "<p>";
    assert s[1..][..4][1] == 'p';
    assert s[2..][..3][0] == 'p';
    assert s[1..][1..] == s[2..];
    assert s[2..][1..] == s[3..];
    TailSafeByLast(s);
  }

  /** `\t<p>` opens one paragraph and closes none. */
  lemma ShortOpenCount()
    ensures CountSub("\t<p>", "<p>") == 1 && CountSub("\t<p>", "</p>") == 0
  {
    var s := "\t<p>";
    assert s == ['\t', '<', 'p', '>'];
    assert s[..3][0] == '\t' && s[..4][0] == '\t';
    assert s[1..][..3] == "<p>";
    assert s[1..][1..] == s[2..];
  }

  /** A blank line in a plain-text file closes one paragraph and opens one. */
  lemma ParagraphBreakCount(pat: string)
    requires IsParagraphTag(pat)
    ensures CountSub(ParagraphBreak, pat) == 1
  {
    assert ParagraphBreak == ParagraphClose + ParagraphOpen;
    ParagraphCloseCount();
    ParagraphOpenCount();
    JoinByTail(ParagraphClose, ParagraphOpen, pat);
  }

  /** So does a blank line in a Markdown file. */
  lemma MarkdownBreakCount(pat: string)
    requires IsParagraphTag(pat)
    ensures CountSub(MarkdownParagraphBreak, pat) == 1
  {
    assert MarkdownParagraphBreak == ParagraphClose + "\t<p>";
    ParagraphCloseCount();
    ShortOpenCount();
    JoinByTail(ParagraphClose, "\t<p>", pat);
  }

  /** What follows the last paragraph's `</p>`. */
  const PageEnd: string := "</body>\n</html>\n"
  /** What precedes the first paragraph's `<p>` after a title. */
  const TitleEnd: string := "\t</h1>\n"

  lemma ClosingTagsSplit()
    ensures ClosingTags == ['\n'] + (ParagraphClose + PageEnd)
  {
  }

  /** A leading line break adds no tag. */
  lemma LineBreakFirst(x: string, pat: string)
    requires IsParagraphTag(pat)
    ensures CountSub(['\n'] + x, pat) == CountSub(x, pat)
  {
    var lf := ['\n'];
    assert TailSafe(lf);
    FreeCount(lf, pat);
    JoinByTail(lf, x, pat);
  }

  lemma TitleBlockCloseSplit()
    ensures TitleBlockClose == TitleEnd + ParagraphOpen
  {
  }

  lemma PageEndCount(pat: string)
    requires IsParagraphTag(pat)
    ensures CountSub(PageEnd, pat) == 0
  {
    NoPCount(PageEnd, pat);
  }

  lemma TitlePieces(pat: string)
    requires IsParagraphTag(pat)
    ensures CountSub(TitleEnd, pat) == 0 && TailSafe(TitleEnd)
    ensures CountSub(TitleBlockOpen, pat) == 0 && TailSafe(TitleBlockOpen)
  {
    NoPCount(TitleEnd, pat);
    TailSafeByLast(TitleEnd);
    NoPCount(TitleBlockOpen, pat);
    TailSafeByLast(TitleBlockOpen);
  }

  /** A line break, a safely ending piece, then a piece without tags. */
  lemma ClosingShapeCount(c: string, close: string, end: string, pat: string)
    requires IsParagraphTag(pat) && c == ['\n'] + (close + end)
    requires TailSafe(close) && CountSub(end, pat) == 0
    ensures CountSub(c, pat) == CountSub(close, pat)
    ensures StartsSafe(c)
  {
    JoinByTail(close, end, pat);
    LineBreakFirst(close + end, pat);
  }

  /** The closing tags close the last paragraph. */
  lemma ClosingTagsCount(pat: string)
    requires IsParagraphTag(pat)
    ensures CountSub(ClosingTags, pat) == if pat == "</p>" then 1 else 0
    ensures StartsSafe(ClosingTags)
  {
    ClosingTagsSplit();
    ParagraphCloseCount();
    PageEndCount(pat);
    ClosingShapeCount(ClosingTags, ParagraphClose, PageEnd, pat);
  }

  /** A safe opening, a text without tags, and a close made of a safe piece and a safely ending one. */
  lemma TitleShapeCount(open: string, title: string, close: string, end: string, next: string, pat: string)
    requires IsParagraphTag(pat) && close == end + next && '<' !in title
    requires CountSub(open, pat) == 0 && TailSafe(open)
    requires CountSub(end, pat) == 0 && TailSafe(end)
    requires TailSafe(next) && |next| >= 3
    ensures CountSub(open + title + close, pat) == CountSub(next, pat)
    ensures TailSafe(open + title + close) && |open + title + close| >= 3
  {
    JoinByTail(end, next, pat);
    FreePiece(open, title, pat);
    JoinByTail(open + title, close, pat);
    TailSafeAppend(end, next);
    TailSafeAppend(open + title, close);
  }

  /** The title block ends by opening the first paragraph. */
  lemma TitleBlockCount(title: string, pat: string)
    requires IsParagraphTag(pat) && '<' !in title
    ensures CountSub(TitleBlockOpen + title + TitleBlockClose, pat) == if pat == "<p>" then 1 else 0
    ensures TailSafe(TitleBlockOpen + title + TitleBlockClose) && |TitleBlockOpen + title + TitleBlockClose| >= 3
  {
    TitleBlockCloseSplit();
    ParagraphOpenCount();
    TitlePieces(pat);
    TitleShapeCount(TitleBlockOpen, title, TitleBlockClose, TitleEnd, ParagraphOpen, pat);
  }

  // ---------------------------------------------------------------------------
  // Links
  // ---------------------------------------------------------------------------

  /** An anchor adds no paragraph tag and ends safely. */
  lemma AnchorCount(text: string, url: string, pat: string)
    requires IsParagraphTag(pat) && '<' !in text && '<' !in url
    ensures CountSub(RenderAnchor(text, url), pat) == 0
    ensures TailSafe(RenderAnchor(text, url)) && |RenderAnchor(text, url)| >= 3
  {
    AnchorShape(text, url);
    AnchorPieces(pat);
    var r := ReplaceAll(text, "URL", url);
    ReplaceAllAvoids(text, "URL", url, '<');
    var x1 := AnchorHrefOpen + url;
    FreePiece(AnchorHrefOpen, url, pat);
    var x2 := x1 + AnchorHrefClose;
    FreePiece(x1, AnchorHrefClose, pat);
    var x3 := x2 + r;
    FreePiece(x2, r, pat);
    JoinByTail(x3, AnchorClose, pat);
    TailSafeAppend(x3, AnchorClose);
  }

  lemma AnchorInLineCount(pre: string, text: string, url: string, post: string, pat: string)
    requires IsParagraphTag(pat)
    requires '<' !in pre && '<' !in text && '<' !in url && '<' !in post
    ensures CountSub(pre + RenderAnchor(text, url) + post, pat) == 0
  {
    var a := RenderAnchor(text, url);
    AnchorCount(text, url, pat);
    FreeTailSafe(pre);
    FreeCount(pre, pat);
    JoinByTail(pre, a, pat);
    TailSafeAppend(pre, a);
    FreePiece(pre + a, post, pat);
  }

  /** Rewriting a link in a line without tags adds no paragraph tag. */
  lemma LinkMarkdownCount(line: string, pat: string)
    requires IsParagraphTag(pat) && '<' !in line
    ensures CountSub(LinkMarkdown(line), pat) == 0
  {
    match FindLink(line)
    case None =>
      NoLinkUnchanged(line);
      FreeCount(line, pat);
    case Some(LinkSpan(o, c, None)) =>
      LinkMarkdownWithoutUrl(line, o, c);
      SliceLacks(line, '<', 0, o);
      SliceLacks(line, '<', o + 1, c);
      SliceLacks(line, '<', 1, |line|);
      assert line[1..] == line[1..|line|];
      AnchorInLineCount(line[..o], line[o + 1..c], "", line[1..], pat);
    case Some(LinkSpan(o, c, Some(UrlSpan(p, q)))) =>
      LinkMarkdownWithUrl(line, o, c, p, q);
      SliceLacks(line, '<', 0, o);
      SliceLacks(line, '<', o + 1, c);
      SliceLacks(line, '<', p + 1, q);
      SliceLacks(line, '<', q + 1, |line|);
      assert line[q + 1..] == line[q + 1..|line|];
      AnchorInLineCount(line[..o], line[o + 1..c], line[p + 1..q], line[q + 1..], pat);
  }

  // ---------------------------------------------------------------------------
  // Lines and the body
  // ---------------------------------------------------------------------------

  /** A Markdown line's own HTML opens and closes no paragraph and starts safely. */
  lemma MarkdownLineCount(line: string, pat: string)
    requires IsParagraphTag(pat) && '<' !in line
    ensures CountSub(MarkdownLineHtml(line), pat) == 0
    ensures MarkdownLineHtml(line) != [] && StartsSafe(MarkdownLineHtml(line))
  {
    if IsHeading(line) {
      HeadingPieces(pat);
      SliceLacks(line, '<', 2, |line|);
      assert line[2..] == line[2..|line|];
      FreePiece(HeadingOpen, line[2..], pat);
      assert StartsSafe(HeadingClose);
      JoinByHead(HeadingOpen + line[2..], HeadingClose, pat);
    } else if IsRule(line) {
      RuleCount(pat);
    } else {
      IndentIsFree();
      FreeTailSafe(Indent);
      FreeCount(Indent, pat);
      JoinByTail(Indent, LinkMarkdown(line), pat);
      LinkMarkdownCount(line, pat);
    }
  }

  /** Each line opens and closes one paragraph exactly when it is blank. */
  lemma LineCount(format: Format, line: string, pat: string)
    requires IsParagraphTag(pat) && '<' !in line
    ensures CountSub(LineHtml(format, line), pat) == if IsBlankLine(line) then 1 else 0
    ensures LineHtml(format, line) != [] && StartsSafe(LineHtml(format, line))
  {
    match format
    case PlainText => PlainLineCount(line, pat);
    case Markdown => MarkdownLineTags(line, pat);
  }

  /** `LineCount` for a plain-text line. */
  lemma PlainLineCount(line: string, pat: string)
    requires IsParagraphTag(pat) && '<' !in line
    ensures CountSub(LineHtml(PlainText, line), pat) == if IsBlankLine(line) then 1 else 0
    ensures LineHtml(PlainText, line) != [] && StartsSafe(LineHtml(PlainText, line))
  {
    if IsBlankLine(line) {
      ParagraphBreakCount(pat);
      assert ParagraphBreak[0] == '\t';
    } else {
      IndentIsFree();
      FreeCount(Indent + line, pat);
      assert (Indent + line)[0] == '\t';
    }
  }

  /** `LineCount` for a Markdown line. */
  lemma MarkdownLineTags(line: string, pat: string)
    requires IsParagraphTag(pat) && '<' !in line
    ensures CountSub(LineHtml(Markdown, line), pat) == if IsBlankLine(line) then 1 else 0
    ensures LineHtml(Markdown, line) != [] && StartsSafe(LineHtml(Markdown, line))
  {
    MarkdownLineCount(line, pat);
    var html := MarkdownLineHtml(line);
    if IsBlankLine(line) {
      BreakThenLine(html, pat);
    } else {
      EmptyPrefix("", html);
    }
  }

  /** A paragraph break followed by tag-free HTML holds one of each paragraph tag. */
  lemma BreakThenLine(html: string, pat: string)
    requires IsParagraphTag(pat) && CountSub(html, pat) == 0 && StartsSafe(html)
    ensures CountSub(MarkdownParagraphBreak + html, pat) == 1
    ensures MarkdownParagraphBreak + html != [] && StartsSafe(MarkdownParagraphBreak + html)
  {
    MarkdownBreakCount(pat);
    JoinByHead(MarkdownParagraphBreak, html, pat);
    assert (MarkdownParagraphBreak + html)[0] == '\t';
  }

  /** The number of blank lines among `lines`. */
  function BlankCount(lines: seq<string>): nat
  {
    if lines == [] then 0 else (if IsBlankLine(lines[0]) then 1 else 0) + BlankCount(lines[1..])
  }

  /** The number of blank lines read from byte `pos` to the end of the file. */
  function BlankLines(content: string, pos: nat): nat
    requires pos <= |content|
  {
    BlankCount(Lines(content, pos))
  }

  /** Lines without `<` open and close one paragraph per blank line. */
  lemma {:induction false} LinesHtmlCount(format: Format, lines: seq<string>, pat: string)
    requires IsParagraphTag(pat)
    requires forall i :: 0 <= i < |lines| ==> '<' !in lines[i]
    ensures CountSub(LinesHtml(format, lines), pat) == BlankCount(lines)
    ensures StartsSafe(LinesHtml(format, lines))
  {
    if lines != [] {
      var line, rest := lines[0], lines[1..];
      assert lines == [line] + rest;
      LinesHtmlCons(format, line, rest);
      LineCount(format, line, pat);
      LinesHtmlCount(format, rest, pat);
      JoinByHead(LineHtml(format, line), LinesHtml(format, rest), pat);
    }
  }

  /** The body opens and closes one paragraph per blank line. */
  lemma BodyCount(content: string, format: Format, pos: nat, pat: string)
    requires pos <= |content| && IsParagraphTag(pat) && '<' !in content
    ensures CountSub(Body(content, format, pos), pat) == BlankLines(content, pos)
    ensures StartsSafe(Body(content, format, pos))
  {
    LinesLack(content, '<', pos);
    LinesHtmlCount(format, Lines(content, pos), pat);
  }

  // ---------------------------------------------------------------------------
  // The template
  // ---------------------------------------------------------------------------

  /** `s` holds no tag and ends safely. */
  ghost predicate Quiet(s: string, pat: string)
    requires IsParagraphTag(pat)
  {
    CountSub(s, pat) == 0 && TailSafe(s)
  }

  lemma TailSafeJoin(a: string, b: string)
    requires TailSafe(a) && TailSafe(b)
    ensures TailSafe(a + b)
  {
    forall i | 0 <= i < |a + b| && |a + b| < i + 4
      ensures (a + b)[i] != '<'
    {
      if i >= |a| {
        assert (a + b)[i] == b[i - |a|];
      }
    }
  }

  lemma QuietJoin(a: string, b: string, pat: string)
    requires IsParagraphTag(pat) && Quiet(a, pat) && Quiet(b, pat)
    ensures Quiet(a + b, pat)
  {
    JoinByTail(a, b, pat);
    TailSafeJoin(a, b);
  }

  lemma FreeQuiet(s: string, pat: string)
    requires IsParagraphTag(pat) && '<' !in s
    ensures Quiet(s, pat)
  {
    FreeCount(s, pat);
    FreeTailSafe(s);
  }

  /** A piece without `p` whose last three characters are not `<`. */
  lemma NoPQuiet(s: string, pat: string)
    requires IsParagraphTag(pat) && 'p' !in s
    requires |s| >= 3 && s[|s| - 1] != '<' && s[|s| - 2] != '<' && s[|s| - 3] != '<'
    ensures Quiet(s, pat)
  {
    NoPCount(s, pat);
    TailSafeByLast(s);
  }

  lemma HeadHasNoP()
    ensures 'p' !in TemplateHead
  {
  }

  lemma TailHasNoP()
    ensures 'p' !in TemplateTail
  {
  }

  lemma CharsetHasNoP()
    ensures 'p' !in MetaCharset
  {
  }

  lemma MetaOpenHasNoP()
    ensures 'p' !in MetaOpen
  {
  }

  lemma TitleOpenHasNoP()
    ensures 'p' !in TitleOpen
  {
  }

  lemma CompatIsFree()
    ensures '<' !in MetaCompat && '<' !in MetaCompatContent
  {
  }

  lemma ViewportIsFree()
    ensures '<' !in MetaViewport && '<' !in MetaViewportContent
  {
  }

  lemma TemplateTagPieces(pat: string)
    requires IsParagraphTag(pat)
    ensures Quiet(TemplateHead, pat) && Quiet(TemplateTail, pat)
  {
    HeadHasNoP();
    NoPQuiet(TemplateHead, pat);
    TailHasNoP();
    NoPQuiet(TemplateTail, pat);
  }

  lemma MetaTagPieces(pat: string)
    requires IsParagraphTag(pat)
    ensures Quiet(MetaCharset, pat) && Quiet(MetaOpen, pat) && Quiet(TitleOpen, pat)
  {
    CharsetHasNoP();
    NoPQuiet(MetaCharset, pat);
    MetaOpenHasNoP();
    NoPQuiet(MetaOpen, pat);
    TitleOpenHasNoP();
    NoPQuiet(TitleOpen, pat);
  }

  lemma MetaAttributePieces(pat: string)
    requires IsParagraphTag(pat)
    ensures Quiet(MetaCompat, pat) && Quiet(MetaCompatContent, pat)
    ensures Quiet(MetaViewport, pat) && Quiet(MetaViewportContent, pat)
  {
    CompatIsFree();
    ViewportIsFree();
    FreeQuiet(MetaCompat, pat);
    FreeQuiet(MetaCompatContent, pat);
    FreeQuiet(MetaViewport, pat);
    FreeQuiet(MetaViewportContent, pat);
  }

  /** Eight quiet pieces, nested as the template's middle is. */
  lemma QuietMidShape(charset: string, meta: string, compat: string, compatContent: string,
                      viewport: string, viewportContent: string, titleOpen: string, pat: string)
    requires IsParagraphTag(pat)
    requires Quiet(charset, pat) && Quiet(meta, pat) && Quiet(compat, pat) && Quiet(compatContent, pat)
    requires Quiet(viewport, pat) && Quiet(viewportContent, pat) && Quiet(titleOpen, pat)
    ensures Quiet(charset + (meta + (compat + (compatContent
              + (meta + (viewport + (viewportContent + titleOpen)))))), pat)
  {
    QuietJoin(viewportContent, titleOpen, pat);
    QuietJoin(viewport, viewportContent + titleOpen, pat);
    QuietJoin(meta, viewport + (viewportContent + titleOpen), pat);
    var v := meta + (viewport + (viewportContent + titleOpen));
    QuietJoin(compatContent, v, pat);
    QuietJoin(compat, compatContent + v, pat);
    QuietJoin(meta, compat + (compatContent + v), pat);
    QuietJoin(charset, meta + (compat + (compatContent + v)), pat);
  }

  lemma MidQuiet(pat: string)
    requires IsParagraphTag(pat)
    ensures Quiet(TemplateMid, pat)
  {
    MetaTagPieces(pat);
    MetaAttributePieces(pat);
    QuietMidShape(MetaCharset, MetaOpen, MetaCompat, MetaCompatContent,
                  MetaViewport, MetaViewportContent, TitleOpen, pat);
  }

  /** The filled template opens and closes no paragraph when neither the language nor the title has a tag. */
  lemma TemplateQuiet(lang: string, title: string, pat: string)
    requires IsParagraphTag(pat) && '<' !in lang && '<' !in title
    ensures Quiet(FillTemplate(lang, title), pat)
  {
    TemplateFilled(lang, title);
    var l := ReplaceAll(lang, TitlePlaceholder, title);
    ReplaceAllAvoids(lang, TitlePlaceholder, title, '<');
    TemplateTagPieces(pat);
    MidQuiet(pat);
    FreeQuiet(l, pat);
    FreeQuiet(title, pat);
    QuietJoin(title, TemplateTail, pat);
    QuietJoin(TemplateMid, title + TemplateTail, pat);
    QuietJoin(l, TemplateMid + (title + TemplateTail), pat);
    QuietJoin(TemplateHead, l + (TemplateMid + (title + TemplateTail)), pat);
  }

  // ---------------------------------------------------------------------------
  // The whole page
  // ---------------------------------------------------------------------------

  /**
    The tags of a page made of a quiet template, an opening, a body and a
    closing are those of the last three; when the opening and the closing
    hold one `pat` between them, the page holds one more than the body.
   */
  lemma PageShapeCount(fill: string, opening: string, body: string, closing: string, pat: string)
    requires IsParagraphTag(pat)
    requires Quiet(fill, pat) && TailSafe(opening) && |opening| >= 3 && StartsSafe(closing)
    requires CountSub(opening, pat) + CountSub(closing, pat) == 1
    ensures CountSub(fill + opening + body + closing, pat) == 1 + CountSub(body, pat)
  {
    var a := fill + opening;
    var b := a + body;
    JoinByTail(fill, opening, pat);
    TailSafeAppend(fill, opening);
    JoinByTail(a, body, pat);
    JoinByHead(b, closing, pat);
  }

  /** A paragraph tag is `<p>` or `</p>`, never both. */
  lemma OneTagEach(pat: string, x: nat, y: nat)
    requires IsParagraphTag(pat)
    requires x == (if pat == "<p>" then 1 else 0) && y == (if pat == "</p>" then 1 else 0)
    ensures x + y == 1
  {
    assert |"<p>"| != |"</p>"|;
  }

  /** `ParagraphOpen` holds one `<p>` and no `</p>`, and ends safely. */
  lemma ParagraphOpenTagCount(pat: string)
    requires IsParagraphTag(pat)
    ensures CountSub(ParagraphOpen, pat) == if pat == "<p>" then 1 else 0
    ensures TailSafe(ParagraphOpen) && |ParagraphOpen| >= 3
  {
    ParagraphOpenCount();
  }

  lemma TitledCount(content: string, format: Format, stem: string, lang: string, pat: string)
    requires IsParagraphTag(pat) && '<' !in content && '<' !in lang && HasTitle(content)
    ensures CountSub(Converted(content, format, stem, lang), pat) == 1 + BlankLines(content, Offset(content, 3))
  {
    var title := LineAt(content, 0);
    var opening := TitleBlockOpen + title + TitleBlockClose;
    var body := Body(content, format, Offset(content, 3));
    TitledConversion(content, format, stem, lang);
    ReadLineFacts(content, 0);
    SliceLacks(content, '<', 0, |title|);
    TemplateQuiet(lang, title, pat);
    TitleBlockCount(title, pat);
    ClosingTagsCount(pat);
    OneTagEach(pat, CountSub(opening, pat), CountSub(ClosingTags, pat));
    BodyCount(content, format, Offset(content, 3), pat);
    PageShapeCount(FillTemplate(lang, title), opening, body, ClosingTags, pat);
  }

  lemma UntitledCount(content: string, format: Format, stem: string, lang: string, pat: string)
    requires IsParagraphTag(pat) && '<' !in content && '<' !in stem && '<' !in lang && !HasTitle(content)
    ensures CountSub(Converted(content, format, stem, lang), pat) == 1 + BlankLines(content, 0)
  {
    var body := Body(content, format, 0);
    UntitledConversion(content, format, stem, lang);
    TemplateQuiet(lang, stem, pat);
    ParagraphOpenTagCount(pat);
    ClosingTagsCount(pat);
    OneTagEach(pat, CountSub(ParagraphOpen, pat), CountSub(ClosingTags, pat));
    BodyCount(content, format, 0, pat);
    PageShapeCount(FillTemplate(lang, stem), ParagraphOpen, body, ClosingTags, pat);
  }

  /**
    Paragraph balance: when neither the file, nor its stem, nor the language
    tag holds a `<`, the page has as many `<p>` as `</p>`, one more than the
    blank lines converted after the title.
   */
  lemma ParagraphsBalanced(content: string, extension: string, stem: string, lang: string)
    requires ConversionFilePathValid(extension)
    requires '<' !in content && '<' !in stem && '<' !in lang
    ensures Convert.Convert(content, extension, stem, lang).Some?
    ensures var page := Convert.Convert(content, extension, stem, lang).value;
            CountSub(page, "<p>") == 1 + BlankLines(content, BodyStart(content)) == CountSub(page, "</p>")
  {
    ValidIffFormat(extension);
    var format := FormatOf(extension).value;
    if HasTitle(content) {
      TitledCount(content, format, stem, lang, "<p>");
      TitledCount(content, format, stem, lang, "</p>");
    } else {
      UntitledCount(content, format, stem, lang, "<p>");
      UntitledCount(content, format, stem, lang, "</p>");
    }
  }
}
