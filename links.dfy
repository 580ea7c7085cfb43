/**
  The inline link parser, `process_link_markdown`: a single left-to-right scan
  over the bytes of one Markdown line that rewrites the first `[text](url)`
  into an HTML anchor.

  The scan records the first `[`, the first `]` after it, the first `(` after
  that and the first `)` after that; it never backtracks. When no complete
  `(...)` follows the `]`, the anchor gets an empty `href` and, because the
  recorded end of the address stays 0, the text after the anchor is the line
  from index 1 on.
 */
module Links {
  import opened Wrappers
  import opened Strings

  /** The pieces of the anchor template around its two placeholders. */
  const AnchorHrefOpen: string := "<a href=\""
  const AnchorHrefClose: string := "\">"
  const AnchorClose: string := "</a>"

  /** The anchor template `<a href="URL">TEXT</a>`, filled in first at `TEXT`, then at `URL`. */
  const LinkHtmlTemplate: string := AnchorHrefOpen + "URL" + AnchorHrefClose + "TEXT" + AnchorClose

  /** The anchor for `text` and `url`, filled in the source's order. */
  function RenderAnchor(text: string, url: string): string
  {
    ReplaceAll(ReplaceAll(LinkHtmlTemplate, "TEXT", text), "URL", url)
  }

  /** The positions of the `(` and the `)` that delimit the address. */
  datatype UrlSpan = UrlSpan(openParen: nat, closeParen: nat)

  /**
    The positions of the first `[` and the first `]` after it, and the
    address part when a `(` and then a `)` follow.
   */
  datatype LinkSpan = LinkSpan(openBracket: nat, closeBracket: nat, url: Option<UrlSpan>)

  /** The first `(` after index `after` and the first `)` after that, when both exist. */
  function FindUrl(line: string, after: nat): (r: Option<UrlSpan>)
    ensures r.Some? ==> after < r.value.openParen < r.value.closeParen < |line|
    ensures r.Some? ==> line[r.value.openParen] == '(' && line[r.value.closeParen] == ')'
    ensures r.Some? ==> forall k :: after < k < r.value.openParen ==> line[k] != '('
    ensures r.Some? ==> forall k :: r.value.openParen < k < r.value.closeParen ==> line[k] != ')'
    ensures r.None? ==> forall i, j :: after < i < j < |line| && line[i] == '(' ==> line[j] != ')'
  {
    match IndexFrom(line, '(', after + 1)
    case None => None
    case Some(p) =>
      match IndexFrom(line, ')', p + 1)
      case None => None
      case Some(q) => Some(UrlSpan(p, q))
  }

  /** What the scan looks for: the first `[`, the first `]` after it, then the address part. */
  function FindLink(line: string): (r: Option<LinkSpan>)
    ensures r.Some? ==> r.value.openBracket < r.value.closeBracket < |line|
    ensures r.Some? ==> line[r.value.openBracket] == '[' && line[r.value.closeBracket] == ']'
    ensures r.Some? ==> forall k :: 0 <= k < r.value.openBracket ==> line[k] != '['
    ensures r.Some? ==> forall k :: r.value.openBracket < k < r.value.closeBracket ==> line[k] != ']'
    ensures r.Some? ==> r.value.url == FindUrl(line, r.value.closeBracket)
    ensures r.None? ==> forall i, j :: 0 <= i < j < |line| && line[i] == '[' ==> line[j] != ']'
  {
    match IndexFrom(line, '[', 0)
    case None => None
    case Some(o) =>
      match IndexFrom(line, ']', o + 1)
      case None => None
      case Some(c) => Some(LinkSpan(o, c, FindUrl(line, c)))
  }

  /** The positions of a span lie in order inside the line. */
  predicate SpanFits(line: string, span: LinkSpan)
  {
    span.openBracket < span.closeBracket < |line|
    && (span.url.Some? ==> span.closeBracket < span.url.value.openParen < span.url.value.closeParen < |line|)
  }

  /**
    The rebuilt line for a span found in it: the text before the `[`, the
    anchor, and the text after the `)`, or the line from index 1 on when
    the address is incomplete.
   */
  function Rewrite(line: string, span: LinkSpan): string
    requires SpanFits(line, span)
  {
    var o, c := span.openBracket, span.closeBracket;
    match span.url
    case None => line[..o] + RenderAnchor(line[o + 1..c], "") + line[1..]
    case Some(UrlSpan(p, q)) => line[..o] + RenderAnchor(line[o + 1..c], line[p + 1..q]) + line[q + 1..]
  }

  /**
    What `process_link_markdown` returns: the line unchanged when it has no
    `[` followed by a `]`, otherwise the line rebuilt around the span found.
   */
  function LinkMarkdown(line: string): string
  {
    match FindLink(line)
    case None => line
    case Some(span) => Rewrite(line, span)
  }

  /** What the scan has recorded at the end of the line, when it found a `[` and a `]`, is `FindLink`. */
  lemma ScanFindsLink(line: string, linkStart: nat, linkEnd: nat,
                      linkUrlStartFound: bool, linkUrlStart: nat, linkUrlEndFound: bool, linkUrlEnd: nat)
    requires 0 < linkStart <= linkEnd < |line| && line[linkStart - 1] == '[' && line[linkEnd] == ']'
    requires forall k :: 0 <= k < linkStart - 1 ==> line[k] != '['
    requires forall k :: linkStart <= k < linkEnd ==> line[k] != ']'
    requires !linkUrlStartFound ==> forall k :: linkEnd < k < |line| ==> line[k] != '('
    requires linkUrlStartFound ==> linkEnd + 1 < linkUrlStart <= |line| && line[linkUrlStart - 1] == '('
    requires linkUrlStartFound ==> forall k :: linkEnd < k < linkUrlStart - 1 ==> line[k] != '('
    requires linkUrlEndFound ==> linkUrlStartFound
    requires linkUrlStartFound && !linkUrlEndFound ==> forall k :: linkUrlStart <= k < |line| ==> line[k] != ')'
    requires linkUrlEndFound ==> linkUrlStart <= linkUrlEnd < |line| && line[linkUrlEnd] == ')'
    requires linkUrlEndFound ==> forall k :: linkUrlStart <= k < linkUrlEnd ==> line[k] != ')'
    ensures FindLink(line) == Some(LinkSpan(linkStart - 1, linkEnd,
                                            if linkUrlEndFound then Some(UrlSpan(linkUrlStart - 1, linkUrlEnd)) else None))
  {
    var url := if linkUrlEndFound then Some(UrlSpan(linkUrlStart - 1, linkUrlEnd)) else None;
    assert FindUrl(line, linkEnd) == url;
  }

  /** What the scan has recorded at the end of the line, when it found no `[` followed by a `]`. */
  lemma ScanFindsNoLink(line: string, linkStartFound: bool, linkStart: nat)
    requires !linkStartFound ==> forall k :: 0 <= k < |line| ==> line[k] != '['
    requires linkStartFound ==> 0 < linkStart <= |line| && line[linkStart - 1] == '['
    requires linkStartFound ==> forall k :: 0 <= k < linkStart - 1 ==> line[k] != '['
    requires linkStartFound ==> forall k :: linkStart <= k < |line| ==> line[k] != ']'
    ensures FindLink(line) == None
  {
    if linkStartFound {
      assert IndexFrom(line, '[', 0) == Some(linkStart - 1);
    }
  }

  /**
    The scanning loop of `process_link_markdown`: one pass over the line that
    keeps four flags and four indices. What it records is `FindLink`: a `[`
    and a `]` were found exactly when `FindLink` finds a span, and then the
    indices are that span's; `linkUrlEnd` stays 0 unless a `)` was found.
   */
  method ScanLinkMarkers(line: string)
    returns (linkStartFound: bool, linkEndFound: bool, linkUrlStartFound: bool, linkUrlEndFound: bool,
             linkStart: nat, linkEnd: nat, linkUrlStart: nat, linkUrlEnd: nat)
    ensures (linkStartFound && linkEndFound) == FindLink(line).Some?
    ensures linkStartFound ==> linkStart > 0
    ensures linkUrlStartFound ==> linkUrlStart > 0
    ensures linkUrlEndFound ==> linkUrlStartFound
    ensures linkStartFound && linkEndFound ==>
              FindLink(line) == Some(LinkSpan(linkStart - 1, linkEnd,
                                              if linkUrlEndFound then Some(UrlSpan(linkUrlStart - 1, linkUrlEnd)) else None))
    ensures !linkUrlEndFound ==> linkUrlEnd == 0
  {
    linkStartFound, linkEndFound, linkUrlStartFound, linkUrlEndFound := false, false, false, false;
    linkStart, linkEnd, linkUrlStart, linkUrlEnd := 0, 0, 0, 0;
    for i := 0 to |line|
      invariant !linkStartFound ==> forall k :: 0 <= k < i ==> line[k] != '['
      invariant linkStartFound ==> 0 < linkStart <= i && line[linkStart - 1] == '['
      invariant linkStartFound ==> forall k :: 0 <= k < linkStart - 1 ==> line[k] != '['
      invariant linkEndFound ==> linkStartFound
      invariant linkStartFound && !linkEndFound ==> forall k :: linkStart <= k < i ==> line[k] != ']'
      invariant linkEndFound ==> linkStart <= linkEnd < i && line[linkEnd] == ']'
      invariant linkEndFound ==> forall k :: linkStart <= k < linkEnd ==> line[k] != ']'
      invariant linkUrlStartFound ==> linkEndFound
      invariant linkEndFound && !linkUrlStartFound ==> forall k :: linkEnd < k < i ==> line[k] != '('
      invariant linkUrlStartFound ==> linkEnd + 1 < linkUrlStart <= i && line[linkUrlStart - 1] == '('
      invariant linkUrlStartFound ==> forall k :: linkEnd < k < linkUrlStart - 1 ==> line[k] != '('
      invariant linkUrlEndFound ==> linkUrlStartFound
      invariant linkUrlStartFound && !linkUrlEndFound ==> forall k :: linkUrlStart <= k < i ==> line[k] != ')'
      invariant linkUrlEndFound ==> linkUrlStart <= linkUrlEnd < i && line[linkUrlEnd] == ')'
      invariant linkUrlEndFound ==> forall k :: linkUrlStart <= k < linkUrlEnd ==> line[k] != ')'
      invariant !linkUrlEndFound ==> linkUrlEnd == 0
    {
      var ch := line[i];
      if !linkStartFound && ch == '[' {
        linkStartFound := true;
        linkStart := i + 1;
      }
      if linkStartFound && !linkEndFound && ch == ']' {
        linkEndFound := true;
        linkEnd := i;
      }
      if linkEndFound {
        if !linkUrlStartFound && ch == '(' {
          linkUrlStartFound := true;
          linkUrlStart := i + 1;
        }
        if linkUrlStartFound && !linkUrlEndFound && ch == ')' {
          linkUrlEndFound := true;
          linkUrlEnd := i;
        }
      }
    }
    if linkStartFound && linkEndFound {
      ScanFindsLink(line, linkStart, linkEnd, linkUrlStartFound, linkUrlStart, linkUrlEndFound, linkUrlEnd);
    } else {
      ScanFindsNoLink(line, linkStartFound, linkStart);
    }
  }

  /** The rewrite of a line in which the scan finds a complete link. */
  lemma LinkMarkdownWithUrl(line: string, o: nat, c: nat, p: nat, q: nat)
    requires FindLink(line) == Some(LinkSpan(o, c, Some(UrlSpan(p, q))))
    ensures o < c < p < q < |line|
    ensures LinkMarkdown(line) == line[..o] + RenderAnchor(line[o + 1..c], line[p + 1..q]) + line[q + 1..]
  {
    var span := FindLink(line).value;
    assert SpanFits(line, span);
    assert LinkMarkdown(line) == Rewrite(line, span);
  }

  /** The rewrite of a line in which the scan finds a `[` and a `]` but no complete address. */
  lemma LinkMarkdownWithoutUrl(line: string, o: nat, c: nat)
    requires FindLink(line) == Some(LinkSpan(o, c, None))
    ensures o < c < |line|
    ensures LinkMarkdown(line) == line[..o] + RenderAnchor(line[o + 1..c], "") + line[1..]
  {
    var span := FindLink(line).value;
    assert SpanFits(line, span);
    assert LinkMarkdown(line) == Rewrite(line, span);
  }

  /**
    `process_link_markdown`: scan the line, then rebuild it from the text
    before the `[`, the filled-in template and the text after the address.
   */
  method ProcessLinkMarkdown(line: string) returns (html: string)
    ensures html == LinkMarkdown(line)
  {
    var linkStartFound, linkEndFound, linkUrlStartFound, linkUrlEndFound,
        linkStart, linkEnd, linkUrlStart, linkUrlEnd := ScanLinkMarkers(line);

    if linkStartFound && linkEndFound {
      var linkText := line[linkStart..linkEnd];
      var linkUrl := "";
      html := ReplaceAll(LinkHtmlTemplate, "TEXT", linkText);
      if linkUrlStartFound && linkUrlEndFound {
        linkUrl := line[linkUrlStart..linkUrlEnd];
      }
      html := ReplaceAll(html, "URL", linkUrl);
      ghost var anchor := html;
      if linkUrlEndFound {
        LinkMarkdownWithUrl(line, linkStart - 1, linkEnd, linkUrlStart - 1, linkUrlEnd);
      } else {
        LinkMarkdownWithoutUrl(line, linkStart - 1, linkEnd);
      }
      assert LinkMarkdown(line) == line[..linkStart - 1] + anchor + line[linkUrlEnd + 1..];
      if linkStart > 1 {
        html := line[..linkStart - 1] + html;
      } else {
        EmptyPrefix(line[..linkStart - 1], anchor);
      }
      if linkUrlEnd + 1 < |line| {
        html := html + line[linkUrlEnd + 1..];
      } else {
        EmptySuffix(html, line[linkUrlEnd + 1..]);
      }
      return;
    }
    html := line;
  }

  // ---------------------------------------------------------------------------
  // Properties of the parser
  // ---------------------------------------------------------------------------

  /** Which placeholder characters the fixed pieces of the template lack. */
  lemma AnchorPiecesFacts()
    ensures 'T' !in AnchorHrefOpen && 'T' !in AnchorHrefClose && 'T' !in AnchorClose
    ensures 'U' !in AnchorHrefOpen && 'U' !in AnchorHrefClose && 'U' !in AnchorClose
    ensures AnchorHrefClose[0] !in "URL" && AnchorClose[0] !in "TEXT" && AnchorClose[0] !in "URL"
  {
  }

  /** Filling in `TEXT` puts the text where the placeholder was. */
  lemma AnchorTextFilled(text: string)
    ensures ReplaceAll(LinkHtmlTemplate, "TEXT", text) == AnchorHrefOpen + "URL" + AnchorHrefClose + (text + AnchorClose)
  {
    AnchorPiecesFacts();
    var open := AnchorHrefOpen + "URL" + AnchorHrefClose;
    ConcatAssoc(open, "TEXT", AnchorClose);
    ReplaceAllSkip(open, "TEXT" + AnchorClose, "TEXT", text);
    ReplaceAllSplit("TEXT", AnchorClose, "TEXT", text);
    ReplaceAllWhole("TEXT", text);
    ReplaceAllMissing(AnchorClose, "TEXT", text, 0);
  }

  /** Filling in `URL` afterwards sets the `href` and also rewrites every `URL` in the text. */
  lemma AnchorUrlFilled(text: string, url: string)
    ensures ReplaceAll(AnchorHrefOpen + "URL" + AnchorHrefClose + (text + AnchorClose), "URL", url)
         == AnchorHrefOpen + (url + (AnchorHrefClose + (ReplaceAll(text, "URL", url) + AnchorClose)))
  {
    AnchorPiecesFacts();
    var tail := text + AnchorClose;
    ConcatAssoc(AnchorHrefOpen, "URL", AnchorHrefClose);
    ConcatAssoc(AnchorHrefOpen, "URL" + AnchorHrefClose, tail);
    ConcatAssoc("URL", AnchorHrefClose, tail);
    ReplaceAllSkip(AnchorHrefOpen, "URL" + (AnchorHrefClose + tail), "URL", url);
    ReplaceAllSplit("URL", AnchorHrefClose + tail, "URL", url);
    ReplaceAllWhole("URL", url);
    ReplaceAllSkip(AnchorHrefClose, tail, "URL", url);
    ReplaceAllSplit(text, AnchorClose, "URL", url);
    ReplaceAllMissing(AnchorClose, "URL", url, 0);
  }

  /**
    The anchor is the `href` opening with the address, the text, then `</a>`;
    because `URL` is replaced after `TEXT`, every `URL` inside the text
    becomes the address too.
   */
  lemma AnchorShape(text: string, url: string)
    ensures RenderAnchor(text, url) == AnchorHrefOpen + url + AnchorHrefClose + ReplaceAll(text, "URL", url) + AnchorClose
  {
    AnchorTextFilled(text);
    AnchorUrlFilled(text, url);
    var r := ReplaceAll(text, "URL", url);
    ConcatAssoc(AnchorHrefClose, r, AnchorClose);
    ConcatAssoc(url, AnchorHrefClose + r, AnchorClose);
    ConcatAssoc(url, AnchorHrefClose, r);
    ConcatAssoc(AnchorHrefOpen, url + AnchorHrefClose + r, AnchorClose);
    ConcatAssoc(AnchorHrefOpen, url + AnchorHrefClose, r);
    ConcatAssoc(AnchorHrefOpen, url, AnchorHrefClose);
  }

  /**
    The first `[` (at `o`), the first `]` after it (at `c`), the first `(`
    after that (at `p`) and the first `)` after that (at `q`) are what the
    scan finds, whatever follows.
   */
  lemma FindsLinkAt(line: string, o: nat, c: nat, p: nat, q: nat)
    requires o < c < p < q < |line|
    requires line[o] == '[' && line[c] == ']' && line[p] == '(' && line[q] == ')'
    requires '[' !in line[..o] && ']' !in line[o + 1..c] && '(' !in line[c + 1..p] && ')' !in line[p + 1..q]
    ensures FindLink(line) == Some(LinkSpan(o, c, Some(UrlSpan(p, q))))
  {
    NotInSlice(line, '[', 0, o);
    NotInSlice(line, ']', o + 1, c);
    NotInSlice(line, '(', c + 1, p);
    NotInSlice(line, ')', p + 1, q);
    IndexFromFirst(line, '[', 0, o);
    IndexFromFirst(line, ']', o + 1, c);
    IndexFromFirst(line, '(', c + 1, p);
    IndexFromFirst(line, ')', p + 1, q);
    assert FindUrl(line, c) == Some(UrlSpan(p, q));
  }

  /** When no `(` after the first `]` is followed by a `)`, the scan finds no address. */
  lemma FindsLinkAtWithoutUrl(line: string, o: nat, c: nat)
    requires o < c < |line| && line[o] == '[' && line[c] == ']'
    requires '[' !in line[..o] && ']' !in line[o + 1..c]
    requires forall i, j :: c < i < j < |line| && line[i] == '(' ==> line[j] != ')'
    ensures FindLink(line) == Some(LinkSpan(o, c, None))
  {
    NotInSlice(line, '[', 0, o);
    NotInSlice(line, ']', o + 1, c);
    IndexFromFirst(line, '[', 0, o);
    IndexFromFirst(line, ']', o + 1, c);
    assert FindUrl(line, c) == None;
  }

  /** A line with no `[` followed later by a `]` is returned unchanged. */
  lemma NoLinkUnchanged(line: string)
    requires forall i, j :: 0 <= i < j < |line| && line[i] == '[' ==> line[j] != ']'
    ensures LinkMarkdown(line) == line
  {
    if IndexFrom(line, '[', 0).Some? {
      assert IndexFrom(line, ']', IndexFrom(line, '[', 0).value + 1).None?;
    }
  }

  /**
    For `pre[text]between(url)post` with no `[` in `pre`, no `]` in `text`,
    no `(` in `between` and no `)` in `url`, the brackets shown are the ones
    the scan finds: the result is `pre`, the anchor for `text` and `url`,
    then `post`; `between` is dropped.
   */
  lemma LinkRewritten(pre: string, text: string, between: string, url: string, post: string)
    requires '[' !in pre && ']' !in text && '(' !in between && ')' !in url
    ensures LinkMarkdown(pre + "[" + text + "]" + between + "(" + url + ")" + post) == pre + RenderAnchor(text, url) + post
  {
    var line := pre + "[" + text + "]" + between + "(" + url + ")" + post;
    var o := |pre|;
    var c := o + 1 + |text|;
    var p := c + 1 + |between|;
    var q := p + 1 + |url|;
    assert line[..o] == pre;
    assert line[o + 1..c] == text;
    assert line[c + 1..p] == between;
    assert line[p + 1..q] == url;
    assert line[q + 1..] == post;
    FindsLinkAt(line, o, c, p, q);
    LinkMarkdownWithUrl(line, o, c, p, q);
  }

  /** A well-formed `pre[text](url)post` becomes `pre`, the anchor for `text` and `url`, then `post`. */
  lemma WellFormedLink(pre: string, text: string, url: string, post: string)
    requires '[' !in pre && ']' !in text && ')' !in url
    ensures LinkMarkdown(pre + "[" + text + "](" + url + ")" + post) == pre + RenderAnchor(text, url) + post
  {
    LinkRewritten(pre, text, "", url, post);
    var head := pre + "[" + text;
    EmptySuffix(head + "]", "");
    ConcatAssoc(head, "]", "(");
    assert "]" + "(" == "](";
  }

  /**
    The text is searched for `URL` too, after the address is known: a link
    whose text ends in `URL` shows the address in place of that word.
   */
  lemma UrlInTextReplaced(pre: string, before: string, url: string, post: string)
    requires '[' !in pre && ']' !in before && 'U' !in before && ')' !in url
    ensures LinkMarkdown(pre + "[" + (before + "URL") + "](" + url + ")" + post)
         == pre + (AnchorHrefOpen + url + AnchorHrefClose + (before + url) + AnchorClose) + post
  {
    assert ']' !in before + "URL";
    WellFormedLink(pre, before + "URL", url, post);
    AnchorShape(before + "URL", url);
    ReplaceAllSkip(before, "URL", "URL", url);
    ReplaceAllWhole("URL", url);
  }

  /**
    Without a complete `(...)` after the `]`, the anchor's `href` is empty and
    what follows the anchor is the whole line from index 1 on, so the text
    before the `[` after its first character, the `[` (unless it is first),
    the text and the `]` appear again.
   */
  lemma LinkWithoutUrl(pre: string, text: string, rest: string)
    requires '[' !in pre && ']' !in text
    requires forall i, j :: 0 <= i < j < |rest| && rest[i] == '(' ==> rest[j] != ')'
    ensures var line := pre + "[" + text + "]" + rest;
            LinkMarkdown(line) == pre + RenderAnchor(text, "") + line[1..]
  {
    var line := pre + "[" + text + "]" + rest;
    var o := |pre|;
    var c := o + 1 + |text|;
    assert line[..o] == pre;
    assert line[o + 1..c] == text;
    assert line[c + 1..] == rest;
    assert forall i :: c < i < |line| ==> line[i] == rest[i - c - 1];
    FindsLinkAtWithoutUrl(line, o, c);
    LinkMarkdownWithoutUrl(line, o, c);
  }

  /** A line whose first `[` has no `]` after it is returned unchanged. */
  lemma UnclosedBracketUnchanged(pre: string, rest: string)
    requires '[' !in pre && ']' !in rest
    ensures LinkMarkdown(pre + "[" + rest) == pre + "[" + rest
  {
    var line := pre + "[" + rest;
    assert line[..|pre|] == pre && line[|pre| + 1..] == rest;
    NotInSlice(line, '[', 0, |pre|);
    NotInSlice(line, ']', |pre| + 1, |line|);
    IndexFromFirst(line, '[', 0, |pre|);
  }

  /** The link text and the address of the source's unit tests. */
  const ExampleText: string := "This is text for a link"
  const ExampleUrl: string := "www.example.com"

  /** The line `[This is text for a link](www.example.com)`. */
  const ExampleLink: string := "[" + ExampleText + "](" + ExampleUrl + ")"

  /** The anchor `<a href="www.example.com">This is text for a link</a>`. */
  const ExampleAnchor: string := AnchorHrefOpen + ExampleUrl + AnchorHrefClose + ExampleText + AnchorClose

  /** Which markers the example's text and address lack. */
  lemma ExamplePieces()
    ensures ']' !in ExampleText && ')' !in ExampleUrl && 'U' !in ExampleText
    ensures '[' !in "Lorem Ipsum" && '[' !in ""
  {
  }

  /** The anchor the example link becomes. */
  lemma ExampleAnchorRendered()
    ensures RenderAnchor(ExampleText, ExampleUrl) == ExampleAnchor
  {
    ExamplePieces();
    AnchorShape(ExampleText, ExampleUrl);
    ReplaceAllMissing(ExampleText, "URL", ExampleUrl, 0);
  }

  /** The example link with any text before it that has no `[`, and any text after it. */
  lemma ExampleLinkInContext(pre: string, post: string)
    requires '[' !in pre
    ensures LinkMarkdown(pre + ExampleLink + post) == pre + ExampleAnchor + post
  {
    ExamplePieces();
    ExampleAnchorRendered();
    WellFormedLink(pre, ExampleText, ExampleUrl, post);
    ConcatAssoc(pre, "[" + ExampleText + "](" + ExampleUrl, ")");
    ConcatAssoc(pre, "[" + ExampleText + "](", ExampleUrl);
    ConcatAssoc(pre, "[" + ExampleText, "](");
    ConcatAssoc(pre, "[", ExampleText);
  }

  /** The link tests of the source: one link, with text before it, after it and around it. */
  lemma ExampleLinkTests()
    ensures LinkMarkdown(ExampleLink) == ExampleAnchor
    ensures LinkMarkdown("Lorem Ipsum" + ExampleLink) == "Lorem Ipsum" + ExampleAnchor
    ensures LinkMarkdown(ExampleLink + "Lorem Ipsum") == ExampleAnchor + "Lorem Ipsum"
    ensures LinkMarkdown("Lorem Ipsum" + ExampleLink + "Dolor Sit") == "Lorem Ipsum" + ExampleAnchor + "Dolor Sit"
  {
    ExamplePieces();
    ExampleLinkInContext("", "");
    EmptyPrefix("", ExampleLink);
    EmptySuffix(ExampleLink, "");
    EmptyPrefix("", ExampleAnchor);
    EmptySuffix(ExampleAnchor, "");
    ExampleLinkInContext("Lorem Ipsum", "");
    EmptySuffix("Lorem Ipsum" + ExampleLink, "");
    EmptySuffix("Lorem Ipsum" + ExampleAnchor, "");
    ExampleLinkInContext("", "Lorem Ipsum");
    ExampleLinkInContext("Lorem Ipsum", "Dolor Sit");
  }

  /** The line `[Invalid markdown[(www.example.com)` of the source's tests. */
  const InvalidLink: string := "[" + "Invalid markdown[(www.example.com)"

  /** A `[` with no `]` after it: the line is left as it is. */
  lemma InvalidLinkTest()
    ensures LinkMarkdown(InvalidLink) == InvalidLink
  {
    UnclosedBracketUnchanged("", "Invalid markdown[(www.example.com)");
    EmptyPrefix("", "[");
  }

  /** The line `[First][Second](www.example.com)` of the source's tests. */
  const TwoLabelsLink: string := "[" + "First" + "]" + "[Second]" + "(" + ExampleUrl + ")"

  /** Only the first `[`, `]`, `(` and `)` count: `[Second]` is dropped. */
  lemma TwoLabelsTest()
    ensures LinkMarkdown(TwoLabelsLink) == AnchorHrefOpen + ExampleUrl + AnchorHrefClose + "First" + AnchorClose
  {
    ExamplePieces();
    LinkRewritten("", "First", "[Second]", ExampleUrl, "");
    EmptyPrefix("", "[");
    EmptySuffix(TwoLabelsLink, "");
    AnchorShape("First", ExampleUrl);
    ReplaceAllMissing("First", "URL", ExampleUrl, 0);
    EmptyPrefix("", RenderAnchor("First", ExampleUrl));
    EmptySuffix(RenderAnchor("First", ExampleUrl), "");
  }

  /** The empty line is returned as it is. */
  lemma EmptyLineTest()
    ensures LinkMarkdown("") == ""
  {
    NoLinkUnchanged("");
  }
}
