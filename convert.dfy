/**
  Converting one input file, the body of `convert_file`. The file's text is
  `content` (one element per byte), its extension and stem are given, and the
  result is the text appended to the output file, or `None` when the file is
  not one the converter handles (nothing is written then).

  The output is the HTML template with `{{lang}}` and then `{{title}}` filled
  in, an opening paragraph (preceded by an `<h1>` block when the file has a
  title), one piece of HTML per input line after the title, and the closing
  tags.
 */
module Convert {
  import opened Wrappers
  import opened Strings
  import opened Links
  import opened Titles
  import opened Paths

  // ---------------------------------------------------------------------------
  // The page template, `HTML_TEMPLATE`
  // ---------------------------------------------------------------------------

  const TemplateHead: string := "<!DOCTYPE html>\n<html lang=\""
  const LangPlaceholder: string := "{{lang}}"
  const MetaCharset: string := "\">\n<head>\n\t<meta charset=\"UTF-8\">\n"
  const MetaOpen: string := "\t<meta "
  const MetaCompat: string := "http-equiv=\"X-UA-Compatible\" "
  const MetaCompatContent: string := "content=\"IE=edge\">\n"
  const MetaViewport: string := "name=\"viewport\" content=\""
  const MetaViewportContent: string := "width=device-width, initial-scale=1.0\">\n"
  const TitleOpen: string := "\t<title>\n\t\t"
  /** Everything between the two placeholders. */
  const TemplateMid: string :=
    MetaCharset + (MetaOpen + (MetaCompat + (MetaCompatContent
      + (MetaOpen + (MetaViewport + (MetaViewportContent + TitleOpen))))))
  const TitlePlaceholder: string := "{{title}}"
  const TemplateTail: string := "\n\t</title>\n</head>\n<body>\n"
  const HtmlTemplate: string :=
    TemplateHead + (LangPlaceholder + (TemplateMid + (TitlePlaceholder + TemplateTail)))

  /** The template with `{{lang}}` replaced first and `{{title}}` second, as `convert_file` does. */
  function FillTemplate(lang: string, title: string): string
  {
    ReplaceAll(ReplaceAll(HtmlTemplate, LangPlaceholder, lang), TitlePlaceholder, title)
  }

  // Each literal fact is proved on its own: together they are costly.

  lemma HeadHasNoBrace()
    ensures '{' !in TemplateHead
  {
  }

  lemma TailHasNoBrace()
    ensures '{' !in TemplateTail
  {
  }

  lemma PlaceholderFacts()
    ensures TemplateTail[0] !in TitlePlaceholder && TemplateTail[0] !in LangPlaceholder
    ensures MetaCharset[0] !in TitlePlaceholder && MetaCharset[0] !in LangPlaceholder
    ensures TitlePlaceholder[2] !in LangPlaceholder
  {
  }

  lemma TitleAndTailLackN()
    ensures LangPlaceholder[4] !in TitlePlaceholder + TemplateTail
  {
  }

  lemma CharsetHasNoBrace()
    ensures '{' !in MetaCharset
  {
  }

  lemma MetaOpenHasNoBrace()
    ensures '{' !in MetaOpen
  {
  }

  lemma CompatHasNoBrace()
    ensures '{' !in MetaCompat
  {
  }

  lemma CompatContentHasNoBrace()
    ensures '{' !in MetaCompatContent
  {
  }

  lemma ViewportHasNoBrace()
    ensures '{' !in MetaViewport
  {
  }

  lemma ViewportContentHasNoBrace()
    ensures '{' !in MetaViewportContent
  {
  }

  lemma TitleOpenHasNoBrace()
    ensures '{' !in TitleOpen
  {
  }

  lemma TemplateHeadFacts()
    ensures '{' !in TemplateHead && '{' !in TemplateTail
    ensures TemplateTail[0] !in TitlePlaceholder && TemplateTail[0] !in LangPlaceholder
    ensures LangPlaceholder[4] !in TitlePlaceholder + TemplateTail
    ensures TitlePlaceholder[2] !in LangPlaceholder
  {
    HeadHasNoBrace();
    TailHasNoBrace();
    PlaceholderFacts();
    TitleAndTailLackN();
  }

  lemma TemplateMidStart()
    ensures '{' !in TemplateMid
    ensures TemplateMid[0] !in TitlePlaceholder && TemplateMid[0] !in LangPlaceholder
  {
    CharsetHasNoBrace();
    MetaOpenHasNoBrace();
    CompatHasNoBrace();
    CompatContentHasNoBrace();
    ViewportHasNoBrace();
    ViewportContentHasNoBrace();
    TitleOpenHasNoBrace();
    PlaceholderFacts();
  }

  /**
    The filled template: the language in the `lang` attribute (with any
    `{{title}}` inside it replaced as well), the title inside `<title>`.
   */
  lemma TemplateFilled(lang: string, title: string)
    ensures FillTemplate(lang, title)
         == TemplateHead + (ReplaceAll(lang, TitlePlaceholder, title) + (TemplateMid + (title + TemplateTail)))
  {
    TemplateHeadFacts();
    TemplateMidStart();
    var rest := TemplateMid + (TitlePlaceholder + TemplateTail);
    ReplaceAllSkip(TemplateHead, LangPlaceholder + rest, LangPlaceholder, lang);
    ReplaceAllSplit(LangPlaceholder, rest, LangPlaceholder, lang);
    ReplaceAllWhole(LangPlaceholder, lang);
    ReplaceAllSkip(TemplateMid, TitlePlaceholder + TemplateTail, LangPlaceholder, lang);
    ReplaceAllMissing(TitlePlaceholder + TemplateTail, LangPlaceholder, lang, 4);
    var rest2 := TemplateMid + (TitlePlaceholder + TemplateTail);
    ReplaceAllSkip(TemplateHead, lang + rest2, TitlePlaceholder, title);
    ReplaceAllSplit(lang, rest2, TitlePlaceholder, title);
    ReplaceAllSkip(TemplateMid, TitlePlaceholder + TemplateTail, TitlePlaceholder, title);
    ReplaceAllSplit(TitlePlaceholder, TemplateTail, TitlePlaceholder, title);
    ReplaceAllWhole(TitlePlaceholder, title);
    ReplaceAllMissing(TemplateTail, TitlePlaceholder, title, 0);
  }

  /** The template filled in the other order, `{{title}}` first, as the source's tests write it. */
  lemma TemplateFilledTitleFirst(lang: string, title: string)
    ensures ReplaceAll(ReplaceAll(HtmlTemplate, TitlePlaceholder, title), LangPlaceholder, lang)
         == TemplateHead + (lang + (TemplateMid + (ReplaceAll(title, LangPlaceholder, lang) + TemplateTail)))
  {
    TemplateHeadFacts();
    TemplateMidStart();
    var rest := TemplateMid + (TitlePlaceholder + TemplateTail);
    ReplaceAllSkip(TemplateHead, LangPlaceholder + rest, TitlePlaceholder, title);
    ReplaceAllSplit(LangPlaceholder, rest, TitlePlaceholder, title);
    ReplaceAllMissing(LangPlaceholder, TitlePlaceholder, title, 2);
    ReplaceAllSkip(TemplateMid, TitlePlaceholder + TemplateTail, TitlePlaceholder, title);
    ReplaceAllSplit(TitlePlaceholder, TemplateTail, TitlePlaceholder, title);
    ReplaceAllWhole(TitlePlaceholder, title);
    ReplaceAllMissing(TemplateTail, TitlePlaceholder, title, 0);
    var rest2 := TemplateMid + (title + TemplateTail);
    ReplaceAllSkip(TemplateHead, LangPlaceholder + rest2, LangPlaceholder, lang);
    ReplaceAllSplit(LangPlaceholder, rest2, LangPlaceholder, lang);
    ReplaceAllWhole(LangPlaceholder, lang);
    ReplaceAllSkip(TemplateMid, title + TemplateTail, LangPlaceholder, lang);
    ReplaceAllSplit(title, TemplateTail, LangPlaceholder, lang);
    ReplaceAllMissing(TemplateTail, LangPlaceholder, lang, 0);
  }

  /**
    The order of the two replacements matters only when the language holds
    `{{title}}` or the title holds `{{lang}}`; without braces in either, both
    orders put each value in its own place.
   */
  lemma FillOrderIrrelevant(lang: string, title: string)
    requires '{' !in lang && '{' !in title
    ensures FillTemplate(lang, title) == ReplaceAll(ReplaceAll(HtmlTemplate, TitlePlaceholder, title), LangPlaceholder, lang)
    ensures FillTemplate(lang, title) == TemplateHead + (lang + (TemplateMid + (title + TemplateTail)))
  {
    TemplateFilled(lang, title);
    TemplateFilledTitleFirst(lang, title);
    ReplaceAllMissing(lang, TitlePlaceholder, title, 0);
    ReplaceAllMissing(title, LangPlaceholder, lang, 0);
  }

  // ---------------------------------------------------------------------------
  // The HTML written for each line
  // ---------------------------------------------------------------------------

  /** The paragraph opened after the template when there is no title. */
  const ParagraphOpen: string := "\t<p>\n"
  const ParagraphClose: string := "\t</p>\n"
  /** The title block, around the title line (which keeps its line break). */
  const TitleBlockOpen: string := "\t<h1>\n\t\t"
  const TitleBlockClose: string := "\t</h1>\n\t<p>\n"
  /** A blank line in a plain-text file. */
  const ParagraphBreak: string := "\t</p>\n\t<p>\n"
  /** A blank line in a Markdown file, written before the line itself is converted. */
  const MarkdownParagraphBreak: string := "\t</p>\n\t<p>"
  const Indent: string := "\t\t"
  const HeadingOpen: string := "<h1>\n"
  const HeadingClose: string := "</h1>\n"
  /** A rule line; the writing macro adds a line break after the tag's own. */
  const HorizontalRule: string := "<hr />\n\n"
  /** The closing tags written after the last line, with the line break the writing macro adds. */
  const ClosingTags: string := "\n\t</p>\n</body>\n</html>\n"

  /** A heading line: it starts with `#` and a space, which are dropped from the output. */
  predicate IsHeading(line: string)
  {
    |line| >= 2 && line[..2] == "# "
  }

  /** A thematic break line, `---` with its line break. */
  predicate IsRule(line: string)
  {
    line == "---\n" || line == "---\r\n"
  }

  /** The HTML for one Markdown line, after the paragraph break a blank line adds. */
  function MarkdownLineHtml(line: string): string
  {
    if IsHeading(line) then HeadingOpen + line[2..] + HeadingClose
    else if IsRule(line) then HorizontalRule
    else Indent + LinkMarkdown(line)
  }

  /** The HTML `convert_file` writes for one line read from a file of the given format. */
  function LineHtml(format: Format, line: string): string
  {
    match format
    case PlainText => if IsBlankLine(line) then ParagraphBreak else Indent + line
    case Markdown => (if IsBlankLine(line) then MarkdownParagraphBreak else "") + MarkdownLineHtml(line)
  }

  /** The HTML for the given lines, one after the other. */
  function LinesHtml(format: Format, lines: seq<string>): string
  {
    if lines == [] then "" else LineHtml(format, lines[0]) + LinesHtml(format, lines[1..])
  }

  lemma LinesHtmlCons(format: Format, line: string, rest: seq<string>)
    ensures LinesHtml(format, [line] + rest) == LineHtml(format, line) + LinesHtml(format, rest)
  {
    assert ([line] + rest)[1..] == rest;
  }

  /** The HTML for every line read from byte `pos` to the end of the file. */
  function Body(content: string, format: Format, pos: nat): string
    requires pos <= |content|
  {
    LinesHtml(format, Lines(content, pos))
  }

  /** One turn of the read loop: the first line's HTML, then the HTML of the lines after it, from `next` on. */
  lemma BodyStep(content: string, format: Format, pos: nat, next: nat)
    requires pos < |content| && next == pos + |ReadLine(content, pos)|
    ensures Body(content, format, pos) == LineHtml(format, ReadLine(content, pos)) + Body(content, format, next)
  {
    var line := ReadLine(content, pos);
    var rest := Lines(content, next);
    LinesCons(content, pos, line, rest);
    LinesHtmlCons(format, line, rest);
  }

  /** The whole output for a file of the given format. */
  function Converted(content: string, format: Format, stem: string, lang: string): string
  {
    if HasTitle(content) then
      var title := LineAt(content, 0);
      FillTemplate(lang, title) + (TitleBlockOpen + title + TitleBlockClose)
        + Body(content, format, Offset(content, 3)) + ClosingTags
    else
      FillTemplate(lang, stem) + ParagraphOpen + Body(content, format, 0) + ClosingTags
  }

  /** What converting a file appends to its output file; `None` for an unsupported extension. */
  function Convert(content: string, extension: string, stem: string, lang: string): Option<string>
  {
    match FormatOf(extension)
    case None => None
    case Some(format) => Some(Converted(content, format, stem, lang))
  }

  /**
    The writes of one turn of `convert_file`'s read loop, for a line read
    from a file of the given format.
   */
  method ConvertLine(format: Format, line: string) returns (html: string)
    ensures html == LineHtml(format, line)
  {
    html := "";
    match format
    case PlainText =>
      if line == "\n" || line == "\r\n" {
        html := html + ParagraphBreak;
      } else {
        html := html + (Indent + line);
      }
    case Markdown =>
      if line == "\n" || line == "\r\n" {
        html := html + MarkdownParagraphBreak;
      }
      if |line| >= 2 && line[..2] == "# " {
        html := html + (HeadingOpen + line[2..] + HeadingClose);
      } else if line == "---\n" || line == "---\r\n" {
        html := html + HorizontalRule;
      } else {
        var processed := ProcessLinkMarkdown(line);
        html := html + (Indent + processed);
      }
  }

  /**
    `convert_file`'s read loop: from byte `start`, read a line, add its
    length to the byte count and write its HTML, until the count reaches the
    length of the file.
   */
  method ConvertRest(content: string, format: Format, start: nat) returns (html: string)
    requires start <= |content|
    ensures html == Body(content, format, start)
  {
    html := "";
    var readBytes := start;
    while readBytes < |content|
      invariant start <= readBytes <= |content|
      invariant html + Body(content, format, readBytes) == Body(content, format, start)
      decreases |content| - readBytes
    {
      var line := ReadLine(content, readBytes);
      var next := readBytes + |line|;
      var piece := ConvertLine(format, line);
      ReadStep(content, format, start, readBytes, next, html, piece);
      html := html + piece;
      readBytes := next;
    }
    EmptySuffix(html, Body(content, format, readBytes));
  }

  /** One turn of the read loop keeps what was written followed by the rest of the body the whole body. */
  lemma ReadStep(content: string, format: Format, start: nat, pos: nat, next: nat, html: string, piece: string)
    requires start <= pos < |content| && next == pos + |ReadLine(content, pos)|
    requires html + Body(content, format, pos) == Body(content, format, start)
    requires piece == LineHtml(format, ReadLine(content, pos))
    ensures (html + piece) + Body(content, format, next) == Body(content, format, start)
  {
    BodyStep(content, format, pos, next);
    ConcatAssoc(html, piece, Body(content, format, next));
  }

  /**
    `convert_file`: check the extension, look for a title, write the filled
    template and the opening, then read and convert line by line until the
    byte count reaches the file's length, and close the page. With a title
    the reader seeks past the title lines; the byte count and the reader's
    position are then both the title's length, and without one both start at
    0, so `readBytes` stands for both.
   */
  method ConvertFile(content: string, extension: string, stem: string, lang: string)
    returns (written: Option<string>)
    ensures written == Convert(content, extension, stem, lang)
  {
    if !ConversionFilePathValid(extension) {
      ValidIffFormat(extension);
      return None;
    }
    var format := if extension == "txt" then PlainText else Markdown;

    var readBytes, title := ParseTitleFromFile(content, "");
    var html := ReplaceAll(ReplaceAll(HtmlTemplate, LangPlaceholder, lang), TitlePlaceholder,
                           if title == [] then stem else title);
    if title == [] {
      html := html + ParagraphOpen;
    } else {
      html := html + (TitleBlockOpen + title + TitleBlockClose);
    }

    var body := ConvertRest(content, format, readBytes);
    html := html + body;
    html := html + ClosingTags;
    written := Some(html);
  }

  // ---------------------------------------------------------------------------
  // Properties of the conversion
  // ---------------------------------------------------------------------------

  /** Nothing is written exactly when the extension is not one the converter handles. */
  lemma RejectedIffUnsupported(content: string, extension: string, stem: string, lang: string)
    ensures Convert(content, extension, stem, lang).None? <==> !ConversionFilePathValid(extension)
  {
    ValidIffFormat(extension);
  }

  /** The lines read from inside `b` of `a + b` are converted as those read from `b` alone. */
  lemma BodyShift(a: string, b: string, format: Format, pos: nat, start: nat)
    requires pos <= |b| && start == |a| + pos
    ensures Body(a + b, format, start) == Body(b, format, pos)
  {
    LinesShiftFrom(a, b, pos, start);
  }

  /** A line with its line break: the text that one `read_line` call returns. */
  predicate IsCompleteLine(line: string)
  {
    |line| > 0 && line[|line| - 1] == '\n' && '\n' !in line[..|line| - 1]
  }

  /** A file that starts with a complete line is converted that line first, then the rest. */
  lemma BodyCons(line: string, rest: string, format: Format)
    requires IsCompleteLine(line)
    ensures Body(line + rest, format, 0) == LineHtml(format, line) + Body(rest, format, 0)
  {
    LinesFront(line, rest);
    LinesHtmlCons(format, line, Lines(rest, 0));
  }

  /** A last line without a line break is converted like any other line. */
  lemma BodyLastLine(line: string, format: Format)
    requires line != [] && '\n' !in line
    ensures Body(line, format, 0) == LineHtml(format, line)
  {
    NotInSlice(line, '\n', 0, |line|);
    ReadLineNoBreak(line, 0);
    assert Body(line, format, |line|) == "";
  }

  /**
    With a title, the page carries it in `<title>` and in the `<h1>` block,
    and the title's three lines are not converted again: the body is the
    conversion of what follows them. The stem is not used.
   */
  lemma {:induction false} TitleLinesSkipped(t: string, b2: string, b3: string, rest: string,
                                             extension: string, stem: string, lang: string)
    requires t != [] && t != "\r" && '\n' !in t
    requires IsBlankLine(b2) && IsBlankLine(b3)
    requires ConversionFilePathValid(extension)
    ensures var title := t + "\n";
            Convert(t + "\n" + b2 + b3 + rest, extension, stem, lang)
              == Some(FillTemplate(lang, title) + (TitleBlockOpen + title + TitleBlockClose)
                      + Body(rest, FormatOf(extension).value, 0) + ClosingTags)
  {
    ValidIffFormat(extension);
    var format := FormatOf(extension).value;
    var head := t + "\n" + b2 + b3;
    var content := head + rest;
    TitleDetected(t, b2, b3, rest);
    BodyShift(head, rest, format, 0, Offset(content, 3));
    TitledConversion(content, format, stem, lang);
  }

  lemma TitledConversion(content: string, format: Format, stem: string, lang: string)
    requires HasTitle(content)
    ensures Converted(content, format, stem, lang)
         == FillTemplate(lang, LineAt(content, 0)) + (TitleBlockOpen + LineAt(content, 0) + TitleBlockClose)
            + Body(content, format, Offset(content, 3)) + ClosingTags
  {
  }

  lemma UntitledConversion(content: string, format: Format, stem: string, lang: string)
    requires !HasTitle(content)
    ensures Converted(content, format, stem, lang)
         == FillTemplate(lang, stem) + ParagraphOpen + Body(content, format, 0) + ClosingTags
  {
  }

  /**
    A file with fewer than three line breaks has no title: the page is
    titled with the file's stem and every line is converted.
   */
  lemma FewLinesTitledByStem(content: string, extension: string, stem: string, lang: string)
    requires LineBreaks(content) < 3
    requires ConversionFilePathValid(extension)
    ensures Convert(content, extension, stem, lang)
         == Some(FillTemplate(lang, stem) + ParagraphOpen + Body(content, FormatOf(extension).value, 0) + ClosingTags)
  {
    ValidIffFormat(extension);
    FewLineBreaksNoTitle(content);
  }

  // Lines of a plain-text file

  /** A blank line closes the paragraph and opens the next one. */
  lemma PlainTextBlankLine(line: string, rest: string)
    requires IsBlankLine(line)
    ensures Body(line + rest, PlainText, 0) == ParagraphBreak + Body(rest, PlainText, 0)
  {
    BodyCons(line, rest, PlainText);
  }

  /** Any other line is copied, indented, line break included. */
  lemma PlainTextLine(line: string, rest: string)
    requires IsCompleteLine(line) && !IsBlankLine(line)
    ensures Body(line + rest, PlainText, 0) == Indent + line + Body(rest, PlainText, 0)
  {
    BodyCons(line, rest, PlainText);
  }

  // Lines of a Markdown file

  lemma HeadingLineHtml(text: string)
    ensures LineHtml(Markdown, "# " + text) == HeadingOpen + text + HeadingClose
  {
    var line := "# " + text;
    assert line[..2] == "# " && line[2..] == text;
    assert !IsBlankLine(line) by {
      assert line[0] == '#';
    }
    EmptyPrefix("", HeadingOpen + text + HeadingClose);
  }

  /** `# text` becomes an `<h1>` heading holding the text and its line break. */
  lemma MarkdownHeading(text: string, rest: string)
    requires '\n' !in text
    ensures Body("# " + text + "\n" + rest, Markdown, 0)
         == HeadingOpen + (text + "\n") + HeadingClose + Body(rest, Markdown, 0)
  {
    var line := "# " + text + "\n";
    assert line[..|line| - 1] == "# " + text;
    BodyCons(line, rest, Markdown);
    ConcatAssoc("# ", text, "\n");
    HeadingLineHtml(text + "\n");
  }

  lemma RuleLineHtml(rule: string)
    requires IsRule(rule)
    ensures LineHtml(Markdown, rule) == HorizontalRule
  {
    assert rule[0] == '-';
    assert !IsBlankLine(rule);
    EmptyPrefix("", HorizontalRule);
  }

  /** `---` becomes a horizontal rule. */
  lemma MarkdownRule(rule: string, rest: string)
    requires IsRule(rule)
    ensures Body(rule + rest, Markdown, 0) == HorizontalRule + Body(rest, Markdown, 0)
  {
    assert rule[..|rule| - 1] == "---" || rule[..|rule| - 1] == "---\r";
    BodyCons(rule, rest, Markdown);
    RuleLineHtml(rule);
  }

  lemma BlankLineHtml(line: string)
    requires IsBlankLine(line)
    ensures LineHtml(Markdown, line) == MarkdownParagraphBreak + (Indent + line)
  {
    assert '[' !in line;
    NoLinkUnchanged(line);
  }

  /**
    A blank Markdown line writes the paragraph break and then falls through
    to the ordinary case: the line itself is written too, indented, so the
    break is followed by `\t\t` and the line break.
   */
  lemma MarkdownBlankLine(line: string, rest: string)
    requires IsBlankLine(line)
    ensures Body(line + rest, Markdown, 0)
         == MarkdownParagraphBreak + (Indent + line) + Body(rest, Markdown, 0)
  {
    BodyCons(line, rest, Markdown);
    BlankLineHtml(line);
  }

  /** A Markdown line that is neither blank, a heading nor a rule goes through the link rewriting. */
  lemma OrdinaryMarkdownLine(line: string)
    requires !IsBlankLine(line) && !IsHeading(line) && !IsRule(line)
    ensures LineHtml(Markdown, line) == Indent + LinkMarkdown(line)
  {
    EmptyPrefix("", Indent + LinkMarkdown(line));
  }

  lemma LinkLineHtml(pre: string, text: string, url: string, post: string)
    requires '[' !in pre && ']' !in text && ')' !in url
    requires |pre| < 2 || pre[..2] != "# "
    ensures var line := pre + "[" + text + "](" + url + ")" + post;
            LineHtml(Markdown, line) == Indent + (pre + RenderAnchor(text, url) + post)
  {
    var line := pre + "[" + text + "](" + url + ")" + post;
    assert line[|pre|] == '[';
    assert !IsHeading(line) by {
      if |pre| >= 2 {
        assert line[..2] == pre[..2];
      } else if |pre| == 1 {
        assert line[1] == '[';
      } else {
        assert line[0] == '[';
      }
    }
    assert !IsRule(line) && !IsBlankLine(line) by {
      assert '[' in line;
    }
    OrdinaryMarkdownLine(line);
    WellFormedLink(pre, text, url, post);
  }

  /** A line with a well-formed link is written indented, the link turned into an anchor. */
  lemma MarkdownLinkLine(pre: string, text: string, url: string, post: string, rest: string)
    requires '[' !in pre && ']' !in text && ')' !in url
    requires '\n' !in pre && '\n' !in text && '\n' !in url && '\n' !in post
    requires |pre| < 2 || pre[..2] != "# "
    ensures var line := pre + "[" + text + "](" + url + ")" + (post + "\n");
            Body(line + rest, Markdown, 0)
              == Indent + (pre + RenderAnchor(text, url) + (post + "\n")) + Body(rest, Markdown, 0)
  {
    var line := pre + "[" + text + "](" + url + ")" + (post + "\n");
    assert line[..|line| - 1] == pre + "[" + text + "](" + url + ")" + post;
    BodyCons(line, rest, Markdown);
    LinkLineHtml(pre, text, url, post + "\n");
  }

  // The source's conversion test: a plain-text file holding `test` and a line break

  const ExampleStem: string := "html_template_test"
  const ExampleLine: string := "test\n"

  lemma ExampleLineFacts()
    ensures '{' !in "en" && '{' !in ExampleStem
    ensures LineBreaks(ExampleLine) == 1
    ensures IsCompleteLine(ExampleLine) && !IsBlankLine(ExampleLine)
  {
    assert ExampleLine == ['t', 'e', 's', 't', '\n'];
    assert ExampleLine[..|ExampleLine| - 1] == "test";
  }

  lemma ExampleIndentedLine()
    ensures Indent + ExampleLine == "\t\ttest\n"
  {
  }

  lemma ExampleTail()
    ensures ParagraphOpen + (Indent + ExampleLine + ClosingTags)
         == "\t<p>\n" + ("\t\ttest\n" + "\n\t</p>\n</body>\n</html>\n")
  {
    ExampleIndentedLine();
  }

  /**
    Converting `test` and a line break from `html_template_test.txt` with
    language `en` gives the template titled with the stem, then the one
    indented line in its paragraph.
   */
  lemma PlainTextExample()
    ensures Convert(ExampleLine, "txt", ExampleStem, "en")
         == Some(ReplaceAll(ReplaceAll(HtmlTemplate, TitlePlaceholder, ExampleStem), LangPlaceholder, "en")
                 + ("\t<p>\n" + ("\t\ttest\n" + "\n\t</p>\n</body>\n</html>\n")))
  {
    ExampleLineFacts();
    FewLinesTitledByStem(ExampleLine, "txt", ExampleStem, "en");
    EmptySuffix(ExampleLine, "");
    PlainTextLine(ExampleLine, "");
    EmptySuffix(Indent + ExampleLine, Body("", PlainText, 0));
    FillOrderIrrelevant("en", ExampleStem);
    var fill := FillTemplate("en", ExampleStem);
    var line := Indent + ExampleLine;
    ConcatAssoc(fill + ParagraphOpen, line, ClosingTags);
    ConcatAssoc(fill, ParagraphOpen, line + ClosingTags);
    ExampleTail();
  }
}
