/**
 * Rendering of one article: the script neutralisation applied to its
 * content (`cleanHTML`), the HTML document (`buildHTML`) and the metadata
 * record (`buildMetadata`).
 */
module Render {
  import opened Strings
  import opened Html

  /** An article record as decoded from one JSON input file. */
  datatype Article = Article(
    title: string,
    content: string,
    excerpt: string,
    link: string,
    publishDate: string,
    updatedDate: string)

  const OpenTag := "<script"
  const OpenTagEscaped := "&lt;script"
  const CloseTag := "</script>"
  const CloseTagEscaped := "&lt;/script&gt;"

  /** One of the two script tags that `CleanHtml` neutralises. */
  predicate IsScriptTag(p: string) {
    p == OpenTag || p == CloseTag
  }

  /** The characters of the two tags that the proofs below rely on. */
  lemma ScriptTagFacts(p: string)
    requires IsScriptTag(p)
    ensures |p| >= 7 && p[0] == '<' && '<' !in p[1..] && '&' !in p
    ensures '>' !in p[..|p| - 1] && '\n' !in p && '"' !in p && ' ' !in p
    ensures p[1] == 's' || p[1] == '/'
  {
  }

  /**
   * `cleanHTML`: a string replacer that turns each opening script tag into
   * its escaped form (`<` written as `&lt;`) and each closing script tag into
   * its escaped form (`<` and `>` written as `&lt;` and `&gt;`). It makes one
   * left-to-right pass without overlapping matches, trying the opening tag
   * first. The two patterns differ at their second
   * character, so at most one of them matches at any position.
   */
  function CleanHtml(s: string): string
    decreases |s|
  {
    if |s| == 0 then ""
    else if HasPrefix(s, OpenTag) then OpenTagEscaped + CleanHtml(s[|OpenTag|..])
    else if HasPrefix(s, CloseTag) then CloseTagEscaped + CleanHtml(s[|CloseTag|..])
    else [s[0]] + CleanHtml(s[1..])
  }

  /**
   * A prefix of the output made of characters other than `<` and `&` was
   * copied from the input unchanged: the replacements start with `&`.
   */
  lemma {:induction false} CleanHtmlPlainPrefix(t: string, w: string)
    requires '<' !in w && '&' !in w
    ensures HasPrefix(CleanHtml(t), w) ==> HasPrefix(t, w)
    decreases |t|
  {
    if |w| > 0 && |t| > 0 {
      if HasPrefix(t, OpenTag) || HasPrefix(t, CloseTag) {
        assert CleanHtml(t)[0] == '&';
        assert w[0] != '&';
      } else {
        CleanHtmlPlainPrefix(t[1..], w[1..]);
        HasPrefixCons(t[0], CleanHtml(t[1..]), w);
        assert t == [t[0]] + t[1..];
        HasPrefixCons(t[0], t[1..], w);
      }
    }
  }

  /** The output of `CleanHtml` never contains `<script` or `</script>`. */
  lemma {:induction false} CleanHtmlSafe(s: string, p: string)
    requires IsScriptTag(p)
    ensures !Contains(CleanHtml(s), p)
    decreases |s|
  {
    ScriptTagFacts(p);
    if |s| == 0 {
    } else if HasPrefix(s, OpenTag) {
      CleanHtmlSafe(s[|OpenTag|..], p);
      PrefixFreeAvoids(OpenTagEscaped, CleanHtml(s[|OpenTag|..]), p);
    } else if HasPrefix(s, CloseTag) {
      CleanHtmlSafe(s[|CloseTag|..], p);
      PrefixFreeAvoids(CloseTagEscaped, CleanHtml(s[|CloseTag|..]), p);
    } else {
      var x := CleanHtml(s[1..]);
      var r := [s[0]] + x;
      CleanHtmlSafe(s[1..], p);
      CleanHtmlPlainPrefix(s[1..], p[1..]);
      HasPrefixCons(s[0], x, p);
      assert s == [s[0]] + s[1..];
      HasPrefixCons(s[0], s[1..], p);
      ConsAvoids(s[0], x, p);
    }
  }

  /** Input that holds neither tag is returned unchanged. */
  lemma {:induction false} CleanHtmlIdentity(s: string)
    requires !Contains(s, OpenTag) && !Contains(s, CloseTag)
    ensures CleanHtml(s) == s
    decreases |s|
  {
    if |s| > 0 {
      PrefixContains(s, OpenTag);
      PrefixContains(s, CloseTag);
      ContainsTail(s, OpenTag);
      ContainsTail(s, CloseTag);
      CleanHtmlIdentity(s[1..]);
    }
  }

  /** `CleanHtml` changes its input exactly when the input holds one of the tags. */
  lemma CleanHtmlUnchangedIff(s: string)
    ensures CleanHtml(s) == s <==> !Contains(s, OpenTag) && !Contains(s, CloseTag)
  {
    CleanHtmlSafe(s, OpenTag);
    CleanHtmlSafe(s, CloseTag);
    if !Contains(s, OpenTag) && !Contains(s, CloseTag) {
      CleanHtmlIdentity(s);
    }
  }

  /** Neutralising twice is the same as neutralising once. */
  lemma CleanHtmlIdempotent(s: string)
    ensures CleanHtml(CleanHtml(s)) == CleanHtml(s)
  {
    CleanHtmlSafe(s, OpenTag);
    CleanHtmlSafe(s, CloseTag);
    CleanHtmlIdentity(CleanHtml(s));
  }

  /** A run of characters without `<` is copied through unchanged. */
  lemma {:induction false} CleanHtmlPlain(u: string, rest: string)
    requires '<' !in u
    ensures CleanHtml(u + rest) == u + CleanHtml(rest)
    decreases |u|
  {
    if |u| > 0 {
      var s := u + rest;
      assert s == [u[0]] + (u[1..] + rest);
      HasPrefixCons(u[0], u[1..] + rest, OpenTag);
      HasPrefixCons(u[0], u[1..] + rest, CloseTag);
      assert s[1..] == u[1..] + rest;
      assert CleanHtml(s) == [u[0]] + CleanHtml(u[1..] + rest);
      CleanHtmlPlain(u[1..], rest);
      assert u == [u[0]] + u[1..];
      assert [u[0]] + (u[1..] + CleanHtml(rest)) == u + CleanHtml(rest);
    } else {
      assert u + rest == rest;
    }
  }

  /** The two tags are replaced by their escaped forms. */
  lemma CleanHtmlTags(rest: string)
    ensures CleanHtml(OpenTag + rest) == OpenTagEscaped + CleanHtml(rest)
    ensures CleanHtml(CloseTag + rest) == CloseTagEscaped + CleanHtml(rest)
  {
    var a := OpenTag + rest;
    assert a[..|OpenTag|] == OpenTag && a[|OpenTag|..] == rest;
    var b := CloseTag + rest;
    assert b[..|CloseTag|] == CloseTag && b[|CloseTag|..] == rest;
    assert b[..|OpenTag|][1] == '/';
  }

  /** A `<` that starts neither tag is copied, and the rewrite carries on after it. */
  lemma CleanHtmlOtherLt(rest: string)
    requires !HasPrefix("<" + rest, OpenTag) && !HasPrefix("<" + rest, CloseTag)
    ensures CleanHtml("<" + rest) == "<" + CleanHtml(rest)
  {
    var s := "<" + rest;
    assert s[0] == '<' && s[1..] == rest;
  }

  /**
   * A script element whose text holds no `<` (such as `<script>alert(1)</script>`)
   * comes out as its text between the two escaped tags.
   */
  lemma CleanHtmlScriptElement(text: string)
    requires '<' !in text
    ensures CleanHtml(OpenTag + text + CloseTag) == OpenTagEscaped + text + CloseTagEscaped
  {
    assert OpenTag + text + CloseTag == OpenTag + (text + CloseTag);
    CleanHtmlTags(text + CloseTag);
    CleanHtmlPlain(text, CloseTag);
    assert CloseTag + "" == CloseTag;
    CleanHtmlTags("");
  }

  /** Other markup passes through untouched. */
  lemma CleanHtmlBoldExample()
    ensures CleanHtml("<b>bold</b>") == "<b>bold</b>"
  {
    forall p | IsScriptTag(p) ensures !Contains("<b>bold</b>", p) {
      ScriptTagFacts(p);
      TagAvoids("<b>bold", p);
      ShortAvoids("</b>", p);
      ConcatAvoids("<b>bold", "</b>", p);
      assert "<b>bold</b>" == "<b>bold" + "</b>";
    }
    CleanHtmlIdentity("<b>bold</b>");
  }

  /**
   * Markup other than the two tags is copied whatever follows it: a `<`
   * that starts neither tag, and the text up to the next `<`, come out as
   * they were.
   */
  lemma CleanHtmlMarkup(v: string, rest: string)
    requires '<' !in v
    requires !HasPrefix("<" + (v + rest), OpenTag) && !HasPrefix("<" + (v + rest), CloseTag)
    ensures CleanHtml("<" + (v + rest)) == "<" + (v + CleanHtml(rest))
  {
    CleanHtmlOtherLt(v + rest);
    CleanHtmlPlain(v, rest);
  }

  // ---------------------------------------------------------------------------
  // The HTML document
  // ---------------------------------------------------------------------------

  function Heading(title: string): string {
    "<h1>" + EscapeString(title) + "</h1>\n"
  }

  function ExcerptParagraph(excerpt: string): string {
    if excerpt != "" then "<p>" + EscapeString(excerpt) + "</p>\n" else ""
  }

  function ContentDivision(content: string): string {
    "<div>\n" + CleanHtml(content) + "\n</div>\n"
  }

  const MetadataHeading := "<h3>Metadata</h3>\n"

  function SourceUrlParagraph(link: string): string {
    "<p>Source Url: <a href=\"" + link + "\">" + link + "</a></p>"
  }

  function PublishedParagraph(date: string): string {
    "<p>Published Date: " + date + "</p>"
  }

  function UpdatedParagraph(date: string): string {
    "<p>Updated Date: " + date + "</p>"
  }

  /** The link is inserted verbatim twice: as the `href` target and as the anchor text. */
  lemma SourceUrlShowsLink(link: string)
    ensures OccursAt(SourceUrlParagraph(link), link, 24)
    ensures OccursAt(SourceUrlParagraph(link), link, 24 + |link| + 2)
  {
    var opening := "<p>Source Url: <a href=\"";
    assert |opening| == 24;
    var r := SourceUrlParagraph(link);
    assert r == opening + link + ("\">" + link + "</a></p>");
    assert r[24..24 + |link|] == link;
    assert r[24 + |link| + 2..24 + |link| + 2 + |link|] == link;
  }

  /** The metadata block at the end of the document, built from verbatim fields. */
  function MetadataBlock(a: Article): string {
    MetadataHeading + SourceUrlParagraph(a.link) + PublishedParagraph(a.publishDate)
    + UpdatedParagraph(a.updatedDate)
  }

  /** `buildHTML`: the fragments written to the builder, in order. */
  function BuildHtml(a: Article): string {
    Heading(a.title) + ExcerptParagraph(a.excerpt) + ContentDivision(a.content) + MetadataBlock(a)
  }

  /**
   * The document opens with the escaped title as `<h1>`; a `<p>` follows
   * exactly when the excerpt is non-empty; then comes the `<div>` holding
   * the neutralised content, and the document closes with the metadata block.
   */
  lemma BuildHtmlLayout(a: Article)
    ensures HasPrefix(BuildHtml(a), Heading(a.title))
    ensures HasPrefix(BuildHtml(a), Heading(a.title) + "<p>") <==> a.excerpt != ""
    ensures HasPrefix(BuildHtml(a), Heading(a.title) + ExcerptParagraph(a.excerpt) + ContentDivision(a.content))
    ensures HasSuffix(BuildHtml(a), MetadataBlock(a))
  {
    var h := Heading(a.title);
    var x := ExcerptParagraph(a.excerpt);
    var c := ContentDivision(a.content);
    var m := MetadataBlock(a);
    var doc := BuildHtml(a);
    PrefixOfAppend(h + x + c, m);
    SuffixOfAppend(h + x + c, m);
    PrefixOfAppend(h, x);
    PrefixAppend(h + x, h, c);
    PrefixAppend(h + x + c, h, m);
    if a.excerpt != "" {
      var e := EscapeString(a.excerpt);
      PrefixOfAppend("<p>", e);
      PrefixAppend("<p>" + e, "<p>", "</p>\n");
      PrefixJoin(h, x, "<p>");
      PrefixAppend(h + x, h + "<p>", c);
      PrefixAppend(h + x + c, h + "<p>", m);
    } else {
      assert h + x == h;
      assert doc[..|h + c|] == h + c;
      assert doc[|h| + 1] == (h + c)[|h| + 1] == c[1] == 'd';
      assert doc[..|h| + 3][|h| + 1] == 'd' && (h + "<p>")[|h| + 1] == 'p';
    }
  }

  /** The text of the first `<h1>`, decoded. */
  function TitleOf(doc: string): string {
    if |doc| < 4 then ""
    else
      var body := doc[4..];
      UnescapeString(body[..IndexByte(body, '<')])
  }

  /** The decoded text of the `<p>` right after the heading, or "" when the `<div>` comes first. */
  function ExcerptOf(doc: string): string {
    if |doc| < 4 then ""
    else
      var body := doc[4..];
      var after := body[IndexByte(body, '<')..];
      if |after| < 6 then "" else ExcerptAfterHeading(after[6..])
  }

  /** A document that opens with the heading of `title` yields `title` back. */
  lemma TitleOfHeading(doc: string, title: string)
    requires HasPrefix(doc, Heading(title))
    ensures TitleOf(doc) == title
  {
    var et := EscapeString(title);
    assert Heading(title) == "<h1>" + (et + "</h1>\n");
    PrefixDrop(doc, "<h1>", et + "</h1>\n");
    RunBefore(doc[4..], et, "</h1>\n", '<');
    EscapeRoundTrip(title);
  }

  /** Where `ExcerptOf` continues after the heading: just past its `</h1>\n`. */
  lemma AfterHeading(doc: string, title: string, y: string)
    requires HasPrefix(doc, Heading(title) + y)
    ensures |doc| >= 4
    ensures var body := doc[4..];
            var after := body[IndexByte(body, '<')..];
            |after| >= 6 && HasPrefix(after[6..], y)
  {
    var et := EscapeString(title);
    var h := Heading(title);
    PrefixDrop(doc, h, y);
    assert h == "<h1>" + (et + "</h1>\n");
    PrefixDrop(doc, "<h1>", et + "</h1>\n");
    var body := doc[4..];
    RunBefore(body, et, "</h1>\n", '<');
    assert body[|et|..][6..] == doc[|h|..];
  }

  /** Reading the excerpt from the text that follows the heading. */
  function ExcerptAfterHeading(next: string): string {
    if !HasPrefix(next, "<p>") then ""
    else
      var text := next[3..];
      UnescapeString(text[..IndexByte(text, '<')])
  }

  lemma ExcerptPresent(next: string, excerpt: string)
    requires excerpt != ""
    requires HasPrefix(next, "<p>" + EscapeString(excerpt) + "</p>\n")
    ensures ExcerptAfterHeading(next) == excerpt
  {
    var ee := EscapeString(excerpt);
    assert "<p>" + ee + "</p>\n" == "<p>" + (ee + "</p>\n");
    PrefixDrop(next, "<p>", ee + "</p>\n");
    RunBefore(next[3..], ee, "</p>\n", '<');
    EscapeRoundTrip(excerpt);
  }

  lemma ExcerptAbsent(next: string)
    requires HasPrefix(next, "<div>\n")
    ensures ExcerptAfterHeading(next) == ""
  {
    assert next[..3][1] == 'd';
  }

  /**
   * A document that opens with the heading, the paragraph for `excerpt` (none
   * when it is empty) and the start of the `<div>` yields `excerpt` back.
   */
  lemma ExcerptOfHeading(doc: string, title: string, excerpt: string)
    requires HasPrefix(doc, Heading(title) + ExcerptParagraph(excerpt) + "<div>\n")
    ensures ExcerptOf(doc) == excerpt
  {
    var h := Heading(title);
    var x := ExcerptParagraph(excerpt);
    assert h + x + "<div>\n" == h + (x + "<div>\n");
    AfterHeading(doc, title, x + "<div>\n");
    var body := doc[4..];
    var next := body[IndexByte(body, '<')..][6..];
    if excerpt != "" {
      PrefixDrop(next, x, "<div>\n");
      ExcerptPresent(next, excerpt);
    } else {
      assert x + "<div>\n" == "<div>\n";
      ExcerptAbsent(next);
    }
  }

  /** Title and excerpt can be read back from the document: escaping keeps them intact. */
  lemma BuildHtmlRecoversTitleAndExcerpt(a: Article)
    ensures TitleOf(BuildHtml(a)) == a.title
    ensures ExcerptOf(BuildHtml(a)) == a.excerpt
  {
    var doc := BuildHtml(a);
    var hx := Heading(a.title) + ExcerptParagraph(a.excerpt);
    BuildHtmlLayout(a);
    PrefixOfAppend("<div>\n", CleanHtml(a.content));
    PrefixAppend("<div>\n" + CleanHtml(a.content), "<div>\n", "\n</div>\n");
    PrefixJoin(hx, ContentDivision(a.content), "<div>\n");
    PrefixAppend(hx + ContentDivision(a.content), hx + "<div>\n", MetadataBlock(a));
    TitleOfHeading(doc, a.title);
    ExcerptOfHeading(doc, a.title, a.excerpt);
  }

  // ---------------------------------------------------------------------------
  // Script tags in the whole document
  // ---------------------------------------------------------------------------

  lemma HeadingAvoids(title: string, p: string)
    requires IsScriptTag(p)
    ensures !Contains(Heading(title), p)
  {
    ScriptTagFacts(p);
    var e := EscapeString(title);
    ShortAvoids("<h1>", p);
    FirstCharAvoids(e, p);
    ConcatAvoids("<h1>", e, p);
    ShortAvoids("</h1>\n", p);
    ConcatAvoids("<h1>" + e, "</h1>\n", p);
  }

  lemma ExcerptAvoids(excerpt: string, p: string)
    requires IsScriptTag(p)
    ensures !Contains(ExcerptParagraph(excerpt), p)
  {
    ScriptTagFacts(p);
    if excerpt != "" {
      var e := EscapeString(excerpt);
      ShortAvoids("<p>", p);
      FirstCharAvoids(e, p);
      ConcatAvoids("<p>", e, p);
      ShortAvoids("</p>\n", p);
      ConcatAvoids("<p>" + e, "</p>\n", p);
    } else {
      ShortAvoids("", p);
    }
  }

  lemma ContentAvoids(content: string, p: string)
    requires IsScriptTag(p)
    ensures !Contains(ContentDivision(content), p)
  {
    ScriptTagFacts(p);
    var c := CleanHtml(content);
    CleanHtmlSafe(content, p);
    ShortAvoids("<div>\n", p);
    ConcatAvoids("<div>\n", c, p);
    TagAvoids("</div>\n", p);
    PrefixFreeAvoids("\n", "</div>\n", p);
    assert "\n</div>\n" == "\n" + "</div>\n";
    ConcatAvoids("<div>\n" + c, "\n</div>\n", p);
  }

  lemma MetadataHeadingAvoids(p: string)
    requires IsScriptTag(p)
    ensures !Contains(MetadataHeading, p)
  {
    ScriptTagFacts(p);
    TagAvoids("<h3>Metadata", p);
    ShortAvoids("</h3>\n", p);
    ConcatAvoids("<h3>Metadata", "</h3>\n", p);
    assert MetadataHeading == "<h3>Metadata" + "</h3>\n";
  }

  lemma SourceUrlAvoids(link: string, p: string)
    requires IsScriptTag(p) && !Contains(link, p)
    ensures !Contains(SourceUrlParagraph(link), p)
  {
    ScriptTagFacts(p);
    var open := "<p>Source Url: <a href=\"";
    TagAvoids("<p>Source Url: ", p);
    TagAvoids("<a href=\"", p);
    ConcatAvoids("<p>Source Url: ", "<a href=\"", p);
    assert open == "<p>Source Url: " + "<a href=\"";
    ConcatAvoids(open, link, p);
    ShortAvoids("\">", p);
    ConcatAvoids(open + link, "\">", p);
    ConcatAvoids(open + link + "\">", link, p);
    ShortAvoids("</a>", p);
    ShortAvoids("</p>", p);
    ConcatAvoids("</a>", "</p>", p);
    assert "</a></p>" == "</a>" + "</p>";
    ConcatAvoids(open + link + "\">" + link, "</a></p>", p);
  }

  lemma DateParagraphAvoids(opening: string, date: string, p: string)
    requires IsScriptTag(p) && !Contains(date, p)
    requires opening == "<p>Published Date: " || opening == "<p>Updated Date: "
    ensures !Contains(opening + date + "</p>", p)
  {
    ScriptTagFacts(p);
    TagAvoids(opening, p);
    ConcatAvoids(opening, date, p);
    ShortAvoids("</p>", p);
    ConcatAvoids(opening + date, "</p>", p);
  }

  lemma MetadataBlockAvoids(a: Article, p: string)
    requires IsScriptTag(p)
    requires !Contains(a.link, p) && !Contains(a.publishDate, p) && !Contains(a.updatedDate, p)
    ensures !Contains(MetadataBlock(a), p)
  {
    ScriptTagFacts(p);
    var s := SourceUrlParagraph(a.link);
    var pd := PublishedParagraph(a.publishDate);
    var ud := UpdatedParagraph(a.updatedDate);
    MetadataHeadingAvoids(p);
    SourceUrlAvoids(a.link, p);
    DateParagraphAvoids("<p>Published Date: ", a.publishDate, p);
    DateParagraphAvoids("<p>Updated Date: ", a.updatedDate, p);
    ConcatAvoids(MetadataHeading, s, p);
    ConcatAvoids(MetadataHeading + s, pd, p);
    ConcatAvoids(MetadataHeading + s + pd, ud, p);
  }

  /**
   * With the verbatim fields (link and both dates) free of a script tag, the
   * whole document is free of it, whatever title, excerpt and content hold.
   */
  lemma BuildHtmlAvoids(a: Article, p: string)
    requires IsScriptTag(p)
    requires !Contains(a.link, p) && !Contains(a.publishDate, p) && !Contains(a.updatedDate, p)
    ensures !Contains(BuildHtml(a), p)
  {
    ScriptTagFacts(p);
    var h := Heading(a.title);
    var x := ExcerptParagraph(a.excerpt);
    var c := ContentDivision(a.content);
    var m := MetadataBlock(a);
    HeadingAvoids(a.title, p);
    ExcerptAvoids(a.excerpt, p);
    ContentAvoids(a.content, p);
    MetadataBlockAvoids(a, p);
    assert h[|h| - 1] == '\n';
    ConcatAvoids(h, x, p);
    ConcatAvoids(h + x, c, p);
    ConcatAvoids(h + x + c, m, p);
  }

  /**
   * The verbatim fields are the only way a script tag reaches the document:
   * it holds one exactly when the link or one of the dates does.
   */
  lemma BuildHtmlContainsIff(a: Article, p: string)
    requires IsScriptTag(p)
    ensures Contains(BuildHtml(a), p) <==> Contains(a.link, p) || Contains(a.publishDate, p) || Contains(a.updatedDate, p)
  {
    if !Contains(a.link, p) && !Contains(a.publishDate, p) && !Contains(a.updatedDate, p) {
      BuildHtmlAvoids(a, p);
    } else {
      var pre := Heading(a.title) + ExcerptParagraph(a.excerpt) + ContentDivision(a.content);
      var s := SourceUrlParagraph(a.link);
      var pd := PublishedParagraph(a.publishDate);
      var ud := UpdatedParagraph(a.updatedDate);
      var open := "<p>Source Url: <a href=\"";
      ContainsConcat(open, a.link, p);
      ContainsConcat(open + a.link, "\">", p);
      ContainsConcat(open + a.link + "\">", a.link, p);
      ContainsConcat(open + a.link + "\">" + a.link, "</a></p>", p);
      ContainsConcat("<p>Published Date: ", a.publishDate, p);
      ContainsConcat("<p>Published Date: " + a.publishDate, "</p>", p);
      ContainsConcat("<p>Updated Date: ", a.updatedDate, p);
      ContainsConcat("<p>Updated Date: " + a.updatedDate, "</p>", p);
      ContainsConcat(MetadataHeading, s, p);
      ContainsConcat(MetadataHeading + s, pd, p);
      ContainsConcat(MetadataHeading + s + pd, ud, p);
      ContainsConcat(pre, MetadataBlock(a), p);
    }
  }

  // ---------------------------------------------------------------------------
  // Metadata
  // ---------------------------------------------------------------------------

  /** `buildMetadata`: the three fields the endpoint expects, under their fixed key names. */
  function BuildMetadata(a: Article): (m: map<string, string>)
    ensures m.Keys == {"title", "creation_date", "source_url"}
    ensures m["title"] == a.title && m["creation_date"] == a.publishDate && m["source_url"] == a.link
  {
    map["title" := a.title, "creation_date" := a.publishDate, "source_url" := a.link]
  }

  /** The metadata depends on title, publish date and link, and on nothing else. */
  lemma BuildMetadataDependsOn(a: Article, b: Article)
    ensures BuildMetadata(a) == BuildMetadata(b)
            <==> a.title == b.title && a.publishDate == b.publishDate && a.link == b.link
  {
    if BuildMetadata(a) == BuildMetadata(b) {
      assert BuildMetadata(a)["title"] == BuildMetadata(b)["title"];
      assert BuildMetadata(a)["creation_date"] == BuildMetadata(b)["creation_date"];
      assert BuildMetadata(a)["source_url"] == BuildMetadata(b)["source_url"];
    }
  }
}
