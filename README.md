# rost_gen conversion engine in Dafny

This project models the conversion engine of `rost_gen`, a static site
generator that turns `.txt` and `.md` files into HTML pages. It covers one
input file at a time:

- **Accepting a file.** A file is converted when its extension is exactly
  `txt` or `md`.
- **Title detection.** The first three `read_line` calls decide the title. A
  title is a non-blank first line followed by two blank lines (`\n` or
  `\r\n`). The title keeps its line break, and the bytes of all three lines
  are skipped.
- **The page.** `HTML_TEMPLATE` is filled in, `{{lang}}` first and
  `{{title}}` second. Next comes either an opening `<p>` or an `<h1>` title
  block. Then one piece of HTML per remaining line:
  - a plain-text blank line becomes a paragraph break;
  - any other plain-text line is copied, indented;
  - a Markdown blank line writes a break, and the line is then written too;
  - a Markdown `# ` line becomes a heading and `---` a rule;
  - any other Markdown line goes through the link rewriting.

  The page ends with the closing tags.
- **Link rewriting (`process_link_markdown`).** One left-to-right scan records:
  - the first `[`;
  - the first `]` after it;
  - the first `(` after that;
  - the first `)` after that.

  The line is then rebuilt around `<a href="URL">TEXT</a>`.

The file's content is a `string` with one element per byte. Every marker the
engine looks for is ASCII, so the source's byte offsets are indices here.

Modules, one per file:

| file | module | role |
|---|---|---|
| `wrappers.dfy` | `Wrappers` | `Option` |
| `strings.dfy` | `Strings` | byte search, `str::replace`, `read_line` over in-memory content, the sequence of lines a read loop sees, substring counting |
| `paths.dfy` | `Paths` | `conversion_file_path_valid` and the two formats |
| `titles.dfy` | `Titles` | `parse_title_from_file` (a method with its three-read loop) and the title rule |
| `links.dfy` | `Links` | the scan (a method with the source's loop and its four flags), the rebuild (a method), and the function `LinkMarkdown` that specifies both |
| `convert.dfy` | `Convert` | the template, the per-line writes, the read loop (a method), `convert_file` (a method), and the function `Convert` that specifies it |
| `balance.dfy` | `Balance` | paragraph balance of the generated page |

The methods follow the source's statements. Each is proved against a
specification function:
- `ProcessLinkMarkdown` against `LinkMarkdown`;
- `ParseTitleFromFile` against `HasTitle`, `LineAt` and `Offset`;
- `ConvertFile` against `Convert`.

The lemmas state the source's promises about those functions.

Behaviour worth noting, which the model keeps:
- **A link without an address.** The text after the anchor is `line[1..]`,
  not the text after the `]`. The end of the address stays 0 and the source
  appends from index `0 + 1` (`Links.LinkWithoutUrl`).
- **A blank Markdown line.** It writes the paragraph break and is then also
  written as an ordinary indented line (`Convert.MarkdownBlankLine`).
- **Blank lines for the title rule.** A blank line is exactly `\n` or
  `\r\n`, with no other whitespace allowed.
- **Heading lines.** A `# ` line is written inside the current paragraph. No
  paragraph is closed around it.

## Model

| member | source | states |
|---|---|---|
| Strings.LineLength | src/main.rs:181 | one `read_line` takes the bytes up to and including the first `\n`; it takes zero bytes exactly at the end of the content |
| Strings.ReadLine | src/main.rs:181 | the line read stays inside the content, and is empty exactly at its end |
| Strings.ReadLineFacts | src/main.rs:181 | the line read is the content's bytes from the position on; it has no inner `\n` and ends in `\n` unless it reaches the end |
| Strings.ReadLineUpTo | src/main.rs:181 | the first `\n` after the position ends the line read |
| Strings.ReadLineNoBreak | src/main.rs:181 | with no `\n` left, the line read is the rest of the content |
| Strings.ReadLineShift | src/main.rs:172-181 | reading from inside the second part of a concatenation reads what reading that part alone reads (the seek past the title) |
| Strings.LinesJoin | src/main.rs:179-181 | the lines a read loop sees, put back together, are exactly the content from the start position: nothing is lost or repeated |
| Strings.LinesShape | src/main.rs:179-181 | every line the loop sees is non-empty with no inner `\n`; all but the last end in `\n` |
| Strings.LinesShiftFrom | src/main.rs:172-181 | the lines read past a prefix are the lines of the rest alone |
| Strings.LinesFront | src/main.rs:179-181 | a content that starts with a complete line reads that line first, then the lines of the rest |
| Strings.LinesLack | src/main.rs:179-181 | a byte absent from the content is absent from every line read |
| Strings.ReplaceAllSplit | src/main.rs:155-162 | `str::replace` acts on the two parts of a concatenation separately when no occurrence can span the join |
| Strings.ReplaceAllAvoids | src/main.rs:155-162 | replacing with text that lacks a byte adds no occurrence of that byte |
| Strings.ReplaceAllWhole | src/main.rs:155-162 | the pattern alone becomes the replacement |
| Strings.CountSubSplit | src/main.rs:155-208 | occurrences in a concatenation are those of the parts when no occurrence spans the join |
| Paths.FormatOf | src/main.rs:184-191 | the format an extension selects maps back to that extension; an extension no format has selects none |
| Paths.ValidIffFormat | src/main.rs:241-249 | a path is accepted if and only if its extension selects a format, that is, if and only if it is `txt` or `md` |
| Paths.FormatRoundTrip | src/main.rs:241-249 | each format's extension is accepted and selects that format again |
| Paths.ExtensionExamples | src/main.rs:318-334 | `txt` and `md` are accepted, and `exe` is not; case matters, so neither `TXT`, `Md` nor the empty extension is accepted |
| Titles.Offset | src/main.rs:219-226 | the position after `n` reads never passes the end of the content |
| Titles.ParseTitleFromFile | src/main.rs:212-239 | with a title, the title is the first line and the result is the byte length of the three lines; without one, the title argument is untouched and the result is 0; the result is `BodyStart`, the byte `convert_file`'s loop starts from |
| Titles.OffsetStep | src/main.rs:221-226 | each read starts where the previous one ended and returns the bytes in between |
| Titles.TitleSpansThreeLines | src/main.rs:228-235 | with a title, the skipped bytes are exactly the three lines read, and the title ends in its line break |
| Titles.BlankLineRead | src/main.rs:230-232 | a blank line at the front is read whole |
| Titles.FirstLineRead | src/main.rs:221-226 | a first line with its line break is read whole |
| Titles.ThreeReads | src/main.rs:221-226 | three reads that return given lines give those lines and a sum of their lengths |
| Titles.TitleDetected | src/main.rs:228-238 | any first line that is neither empty nor a bare `\r`, followed by two blank lines, is a title whatever follows; the skip is the length of the three lines |
| Titles.TitleLineBreaks | src/main.rs:228-235 | the bytes a title skips hold at least three line breaks |
| Titles.FewLineBreaksNoTitle | src/main.rs:228-238 | a file with fewer than three line breaks has no title |
| Titles.TitleExamples | src/main.rs:336-402 | `test` plus three line breaks has the title `test\n` and a skip of 7; `test` plus two line breaks has no title |
| Links.FindUrl | src/main.rs:274-284 | the address part found is the first `(` after the `]` and the first `)` after it; when none is found, no `(` after the `]` is followed by a `)` |
| Links.FindLink | src/main.rs:263-285 | the span found is the first `[`, the first `]` after it, and the address part after that; when none is found, no `[` is followed by a `]` |
| Links.ScanLinkMarkers | src/main.rs:253-285 | the source's scan with its four flags and four indices finds a `[` and a `]` exactly when `FindLink` does, and then records `FindLink`'s positions; the end of the address stays 0 unless a `)` is found |
| Links.ScanFindsLink | src/main.rs:263-285 | what the scan has recorded when it found a `[` and a `]` is `FindLink`'s span |
| Links.ScanFindsNoLink | src/main.rs:263-285 | when the scan found no `[` followed by a `]`, `FindLink` finds nothing |
| Links.ProcessLinkMarkdown | src/main.rs:251-310 | the rebuilt line (prefix, filled anchor, suffix) is `LinkMarkdown` of the line |
| Links.AnchorTextFilled | src/main.rs:252-290 | filling `TEXT` puts the link text between `">` and `</a>` and leaves `URL` in the `href` |
| Links.AnchorUrlFilled | src/main.rs:296 | filling `URL` next sets the `href`, and also rewrites every `URL` inside the text |
| Links.AnchorShape | src/main.rs:252-296 | the anchor is `<a href="`, the address, `">`, the text with each `URL` replaced by the address, then `</a>` |
| Links.FindsLinkAt | src/main.rs:263-285 | a `[`, `]`, `(` and `)` in order, each the first of its kind after the previous one, are what the scan finds, whatever follows |
| Links.FindsLinkAtWithoutUrl | src/main.rs:274-285 | when no `(` after the first `]` is followed by a `)`, the span found has no address |
| Links.NoLinkUnchanged | src/main.rs:287-309 | a line with no `[` followed later by a `]` is returned unchanged |
| Links.LinkRewritten | src/main.rs:287-306 | `pre[text]between(url)post` becomes `pre`, the anchor, then `post`; `between` is dropped |
| Links.WellFormedLink | src/main.rs:287-306 | `pre[text](url)post` becomes `pre`, the anchor for `text` and `url`, then `post` |
| Links.UrlInTextReplaced | src/main.rs:290-296 | a link text ending in `URL` shows the address in place of that word |
| Links.LinkWithoutUrl | src/main.rs:289-303 | without a complete address after the `]`, the `href` is empty and the anchor is followed by the whole line from index 1 on |
| Links.UnclosedBracketUnchanged | src/main.rs:263-309 | a line whose first `[` has no `]` after it is returned unchanged |
| Links.ExampleAnchorRendered | src/main.rs:404-409 | the test's text and address render as the expected anchor |
| Links.ExampleLinkInContext | src/main.rs:411-430 | the test link keeps any text before it that has no `[`, and any text after it |
| Links.ExampleLinkTests | src/main.rs:404-430 | the four tests with a link alone, with text before it, after it and around it |
| Links.InvalidLinkTest | src/main.rs:432-437 | `[Invalid markdown[(www.example.com)` is returned unchanged |
| Links.TwoLabelsTest | src/main.rs:439-444 | `[First][Second](www.example.com)` becomes an anchor with text `First` and the address |
| Links.EmptyLineTest | src/main.rs:446-449 | the empty line is returned unchanged |
| Convert.TemplateFilled | src/main.rs:14-17 | the filled template is the fixed text with the language (whose own `{{title}}` is replaced as well) in the `lang` attribute and the title inside `<title>` |
| Convert.TemplateFilledTitleFirst | src/main.rs:510-512 | filling `{{title}}` first, as the test does, puts the title (whose own `{{lang}}` is replaced as well) in place |
| Convert.FillOrderIrrelevant | src/main.rs:155-162 | when neither value holds a `{`, both fill orders agree and put each value in its own place |
| Convert.ConvertLine | src/main.rs:184-204 | the writes of one loop turn, with the source's branches, produce `LineHtml` for the format and the line |
| Convert.ConvertRest | src/main.rs:178-205 | the read loop from a start byte, which stops when the byte count reaches the file length, writes `Body`: the HTML of every line read from that byte on |
| Convert.BodyStep | src/main.rs:179-181 | one loop turn writes the first line's HTML and continues after that line |
| Convert.ReadStep | src/main.rs:179-204 | what has been written, followed by the HTML of the lines still to read, is always the whole body |
| Convert.ConvertFile | src/main.rs:126-208 | `convert_file` writes `Convert`: nothing for an unsupported extension; otherwise the filled template, the title block or opening paragraph, the body from the skip offset, and the closing tags |
| Convert.RejectedIffUnsupported | src/main.rs:128-130 | nothing is written if and only if the path is not accepted |
| Convert.BodyShift | src/main.rs:172-181 | after the seek, the lines read past a prefix are converted exactly as the rest alone would be |
| Convert.BodyCons | src/main.rs:179-204 | a file that starts with a complete line converts that line first, then the rest |
| Convert.BodyLastLine | src/main.rs:179-181 | a last line without a line break is converted like any other line |
| Convert.TitleLinesSkipped | src/main.rs:139-176 | with a title, the page carries it in `<title>` and in the `<h1>` block, the title's three lines are not converted again, and the stem is not used |
| Convert.FewLinesTitledByStem | src/main.rs:155-169 | a file with fewer than three line breaks is titled by its stem, and every line is converted |
| Convert.PlainTextBlankLine | src/main.rs:185-186 | a blank plain-text line closes the paragraph and opens the next one |
| Convert.PlainTextLine | src/main.rs:187-188 | any other plain-text line is copied, indented, with its line break |
| Convert.HeadingLineHtml | src/main.rs:196-197 | a `# ` line becomes `<h1>`, the rest of the line, then `</h1>` |
| Convert.MarkdownHeading | src/main.rs:196-197 | in a Markdown file, `# text` becomes a heading holding the text and its line break |
| Convert.RuleLineHtml | src/main.rs:198-199 | `---` with `\n` or `\r\n` becomes a horizontal rule |
| Convert.MarkdownRule | src/main.rs:198-199 | in a Markdown file, a rule line becomes `<hr />` and an empty line |
| Convert.BlankLineHtml | src/main.rs:192-202 | a blank Markdown line writes the paragraph break, then itself, indented |
| Convert.MarkdownBlankLine | src/main.rs:192-202 | in a Markdown file, a blank line writes the break and then the indented line break |
| Convert.OrdinaryMarkdownLine | src/main.rs:200-203 | a Markdown line that is neither blank, a heading nor a rule is written indented, after link rewriting |
| Convert.LinkLineHtml | src/main.rs:200-203 | a Markdown line with a well-formed link is written indented, with its link turned into an anchor |
| Convert.MarkdownLinkLine | src/main.rs:200-203 | in a Markdown file, a line with a well-formed link converts to the indented line with the anchor |
| Convert.PlainTextExample | src/main.rs:495-525 | `test` and a line break from `html_template_test.txt`, with language `en`, give the test's expected page |
| Balance.ParagraphsBalanced | src/main.rs:155-208 | when neither the file, nor its stem, nor the language holds a `<`, a converted page has as many `<p>` as `</p>`: one more than the blank lines converted after the title |
| Balance.TitledCount | src/main.rs:155-208 | for a file and a language without `<`, a titled page holds one more of each paragraph tag than the blank lines after the title |
| Balance.UntitledCount | src/main.rs:155-208 | for a file, a stem and a language without `<`, an untitled page holds one more of each paragraph tag than the blank lines in the file |
| Balance.BodyCount | src/main.rs:178-205 | for content without `<`, the body holds one of each paragraph tag per blank line it converts |
| Balance.LinesHtmlCount | src/main.rs:179-204 | the HTML of a sequence of tag-free lines holds one of each paragraph tag per blank line |
| Balance.LineCount | src/main.rs:184-204 | for a line without `<`, the line's HTML opens and closes one paragraph when the line is blank, and none otherwise |
| Balance.PlainLineCount | src/main.rs:184-190 | as `LineCount` (a line without `<`), for plain text |
| Balance.MarkdownLineTags | src/main.rs:191-204 | as `LineCount` (a line without `<`), for Markdown |
| Balance.MarkdownLineCount | src/main.rs:196-203 | for a line without `<`, a heading, a rule or a rewritten line holds no paragraph tag |
| Balance.LinkMarkdownCount | src/main.rs:251-310 | rewriting a link in a tag-free line adds no paragraph tag |
| Balance.AnchorCount | src/main.rs:252 | for a text and an address without `<`, an anchor holds no paragraph tag |
| Balance.TitleBlockCount | src/main.rs:171 | for a title without `<`, the `<h1>` title block opens one paragraph and closes none |
| Balance.ClosingTagsCount | src/main.rs:208 | the closing tags close one paragraph and open none |
| Balance.TemplateQuiet | src/main.rs:14-17 | the filled template holds no paragraph tag when the language and the title hold no `<` |

## Left out

- I/O is not modelled: opening, reading and seeking the input file, `fs::metadata`, creating and appending to the output file, and the `println!` progress message. The file's content, its extension and its stem are parameters. The output is the text appended to the output file.
- Errors and panics are not modelled: every `expect`/`unwrap` panic and the `Err` branch of `read_line` (an I/O error, or bytes that are not valid UTF-8).
- Path handling is not modelled. The extension and the stem are given as strings. A path with no extension, where `unwrap` panics, behaves here like an empty extension, which is rejected.
- Titles.ParseTitleFromFile takes the content instead of a path. It opens no second reader.
- Links.ProcessLinkMarkdown indexes bytes as characters. The slices next to a `[`, `]`, `(` or `)` always fall on character boundaries. But with no address, the source slices `&line[1..]`, and that panics when the line starts with a multi-byte UTF-8 character. The model has one element per byte and cannot express that panic.
- The `u64` byte counters are unbounded `nat`s. Overflow would need a file of more than 2^64 bytes.
- The model assumes the input file does not change while it is converted. The source reads its length again on every loop turn.
- Links.ScanLinkMarkers and Convert.ConvertLine are extracted as methods of their own. The first is the scanning loop of `process_link_markdown`; the second is the writes of one turn of `convert_file`'s loop. Each piece of output is returned as a string instead of written to the file.
- Balance.ParagraphsBalanced is stated only for a file, a stem and a language that hold no `<`. User text may itself spell `<p>` or `</p>`, and the source does not escape it.
- Balance.TitledCount: stated only for a file and a language without `<`, for the same reason.
- Balance.UntitledCount: stated only for a file, a stem and a language without `<`, for the same reason.
- Balance.BodyCount: stated only for content without `<`. A line such as `<p>` is copied into the page as it is.
- Balance.LineCount: stated only for a line without `<`. The plain-text line `<p>` is written as `\t\t<p>`, which holds a `<p>`.
- Balance.PlainLineCount: stated only for a line without `<`, as `LineCount`.
- Balance.MarkdownLineTags: stated only for a line without `<`, as `LineCount`.
- Balance.MarkdownLineCount: stated only for a line without `<`, as `LineCount`.
- Balance.AnchorCount: stated only for a link text and an address without `<`. Both are copied into the anchor as they are.
- Balance.TitleBlockCount: stated only for a title without `<`. The title is copied into the `<h1>` block as it is.
- Strings.ReplaceAll models `str::replace` only for a non-empty pattern. These are the only patterns the engine uses.
- `main`, argument parsing, the JSON configuration, output directory creation and cleanup, and directory traversal are not part of this model.
