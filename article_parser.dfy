/**
 * article_parser.py: the string and list logic applied to parsed markup.
 * Parsing itself, `find_all` and the rewriting of links (BeautifulSoup) are
 * the foreign functions of `HtmlParser`; elements are abstract: a tag name
 * (none for a bare text node), attribute names, the element's text as the
 * library computes it, and its direct children.
 */
module ArticleParser {
  import opened Wrappers
  import opened Strings
  import opened DataModel
  import opened Sequences

  const NoBreakSpace: char := '\U{A0}'
  const ZeroWidthSpace: char := '\U{200B}'

  /** A parsed node: a `Tag` when `name` is present, otherwise a text node. */
  datatype Element = Element(name: Option<string>, attrs: set<string>, text: string, children: seq<Element>)

  /** The BeautifulSoup lookups the parser makes on a page. */
  datatype HtmlParser = HtmlParser(
    article: string -> Option<Element>,   // `BeautifulSoup(html).article`
    sections: string -> seq<Element>,     // `.find_all('section')`
    editorContent: string -> seq<Element>, // `.find_all('div', attrs={'class': 'editor-content'})`, links rewritten
    details: Element -> seq<Element>)     // `element.find_all('details')`

  predicate IsNamed(e: Element, name: string) {
    e.name == Some(name)
  }

  // ---------------------------------------------------------------------
  // replace_normalize

  /** `.replace(' ', ' ')` */
  function ReplaceNoBreakSpaces(s: string): (r: string)
    ensures |r| == |s| && NoBreakSpace !in r
    ensures forall i :: 0 <= i < |s| && s[i] != NoBreakSpace ==> r[i] == s[i]
    ensures forall i :: 0 <= i < |s| && s[i] == NoBreakSpace ==> r[i] == ' '
  {
    seq(|s|, i requires 0 <= i < |s| => if s[i] == NoBreakSpace then ' ' else s[i])
  }

  /** `.replace('​', '')` */
  function RemoveZeroWidthSpaces(s: string): (r: string)
    ensures ZeroWidthSpace !in r
    ensures forall c :: c in r ==> c in s
    ensures ZeroWidthSpace !in s ==> r == s
  {
    if s == [] then []
    else (if s[0] == ZeroWidthSpace then [] else [s[0]]) + RemoveZeroWidthSpaces(s[1..])
  }

  /** `replace_normalize`: no non-breaking space, no zero-width space, and
      no whitespace at either end. */
  function ReplaceNormalize(text: string): (r: string)
    ensures NoBreakSpace !in r && ZeroWidthSpace !in r
    ensures r == [] || (!IsSpace(r[0]) && !IsSpace(r[|r| - 1]))
  {
    Strip(RemoveZeroWidthSpaces(ReplaceNoBreakSpaces(text)))
  }

  /** One character is dropped exactly when it is a zero-width space. */
  lemma RemoveZeroWidthSpacesOfOne(c: char)
    ensures RemoveZeroWidthSpaces([c]) == if c == ZeroWidthSpace then [] else [c]
  {
    assert [c][1..] == [];
  }

  /** Characters are removed independently of one another, and the others
      keep their order. */
  lemma {:induction false} RemoveZeroWidthSpacesAppend(a: string, b: string)
    ensures RemoveZeroWidthSpaces(a + b) == RemoveZeroWidthSpaces(a) + RemoveZeroWidthSpaces(b)
  {
    if a != [] {
      assert (a + b)[0] == a[0] && (a + b)[1..] == a[1..] + b;
      RemoveZeroWidthSpacesAppend(a[1..], b);
    } else {
      assert a + b == b;
    }
  }

  /** `replace_normalize` keeps the cleaned text between its leading and
      trailing whitespace: everything it drops from either end of the text
      with no-break spaces replaced and zero-width spaces removed is
      whitespace. */
  lemma ReplaceNormalizeContent(text: string)
    ensures var u := RemoveZeroWidthSpaces(ReplaceNoBreakSpaces(text));
      var k := |u| - |LStrip(u)|;
      var r := ReplaceNormalize(text);
      && k + |r| <= |u| && r == u[k..][..|r|]
      && (forall i :: 0 <= i < k ==> IsSpace(u[i]))
      && (forall i :: k + |r| <= i < |u| ==> IsSpace(u[i]))
  {
    StripDropsOnlySpace(RemoveZeroWidthSpaces(ReplaceNoBreakSpaces(text)));
  }

  /** No-break spaces inside the text become spaces, zero-width spaces
      vanish, and the surrounding whitespace goes. */
  lemma ReplaceNormalizeExample()
    ensures ReplaceNormalize("a\U{A0}b\U{200B}\n") == "a b"
  {
    NoBreakExample();
    ZeroWidthExample();
    StripExample();
  }

  lemma NoBreakExample()
    ensures ReplaceNoBreakSpaces("a\U{A0}b\U{200B}\n") == "a b\U{200B}\n"
  {
    var s := "a\U{A0}b\U{200B}\n";
    var r := ReplaceNoBreakSpaces(s);
    assert s[1] == NoBreakSpace;
    assert r[0] == 'a' && r[1] == ' ' && r[2] == 'b' && r[3] == ZeroWidthSpace && r[4] == '\n';
  }

  lemma ZeroWidthExample()
    ensures RemoveZeroWidthSpaces("a b\U{200B}\n") == "a b\n"
  {
    assert "a b\U{200B}\n" == "a b" + [ZeroWidthSpace] + "\n";
    ZeroWidthSpaceBetween("a b", "\n");
  }

  /** A zero-width space between two texts without one is simply cut out. */
  lemma ZeroWidthSpaceBetween(head: string, tail: string)
    requires ZeroWidthSpace !in head && ZeroWidthSpace !in tail
    ensures RemoveZeroWidthSpaces(head + [ZeroWidthSpace] + tail) == head + tail
  {
    RemoveZeroWidthSpacesAppend(head + [ZeroWidthSpace], tail);
    RemoveZeroWidthSpacesAppend(head, [ZeroWidthSpace]);
    RemoveZeroWidthSpacesOfOne(ZeroWidthSpace);
    assert head + [] == head;
  }

  lemma StripExample()
    ensures Strip("a b\n") == "a b"
  {
    var v := "a b\n";
    assert !IsSpace(v[0]);
    assert LStrip(v) == v;
    assert IsSpace(v[3]) && v[..3] == "a b";
    assert !IsSpace('b');
    assert RStrip("a b") == "a b";
  }

  lemma NoBreakSpacesAlreadyReplaced(s: string)
    requires NoBreakSpace !in s
    ensures ReplaceNoBreakSpaces(s) == s
  {
    var r := ReplaceNoBreakSpaces(s);
    forall i | 0 <= i < |s| ensures r[i] == s[i] {
      assert s[i] in s;
    }
  }

  /** Normalising a normalised text changes nothing. */
  lemma ReplaceNormalizeIdempotent(text: string)
    ensures ReplaceNormalize(ReplaceNormalize(text)) == ReplaceNormalize(text)
  {
    var r := ReplaceNormalize(text);
    NoBreakSpacesAlreadyReplaced(r);
    assert RemoveZeroWidthSpaces(r) == r;
    StripIdempotent(RemoveZeroWidthSpaces(ReplaceNoBreakSpaces(text)));
  }

  // ---------------------------------------------------------------------
  // split_title

  /** Position of the first `c` in `s`. */
  function IndexOf(s: string, c: char): (r: Option<nat>)
    ensures r.None? <==> c !in s
    ensures r.Some? ==> r.value < |s| && s[r.value] == c && c !in s[..r.value]
  {
    if s == [] then None
    else if s[0] == c then Some(0)
    else match IndexOf(s[1..], c)
      case None => None
      case Some(k) => assert s[..k + 1] == [s[0]] + s[1..][..k]; Some(k + 1)
  }

  /** `split_title`: `text.split('\n', maxsplit=1)` unpacked into two names,
      which raises `ValueError` when there is no line break. */
  function SplitTitle(text: string): (r: Result<(string, string), Error>)
    ensures r.Err? <==> '\n' !in text
    ensures r.Err? ==> r.error == ValueError
    ensures r.Ok? ==> '\n' !in r.value.0 && r.value.0 + "\n" + r.value.1 == text
  {
    match IndexOf(text, '\n')
    case None => Err(ValueError)
    case Some(k) =>
      assert text == text[..k] + "\n" + text[k + 1..];
      Ok((text[..k], text[k + 1..]))
  }

  /** The title is the first line and the body everything after it, so the
      two are the only such pair. */
  lemma SplitTitleUnique(text: string, title: string, body: string)
    requires '\n' !in title && title + "\n" + body == text
    ensures SplitTitle(text) == Ok((title, body))
  {
    assert text[|title|] == '\n';
    assert text[..|title|] == title && text[|title| + 1..] == body;
    var k := IndexOf(text, '\n').value;
    assert forall j :: 0 <= j < |title| ==> text[j] == title[j];
    assert forall j :: 0 <= j < k ==> text[..k][j] == text[j];
  }

  // ---------------------------------------------------------------------
  // parse_article_base and _extract_section_text

  /** The texts of the sections that carry an `id` attribute, in order. */
  function SectionTexts(sections: seq<Element>): seq<string> {
    if sections == [] then []
    else
      var last := sections[|sections| - 1];
      SectionTexts(sections[..|sections| - 1]) + (if "id" in last.attrs then [last.text] else [])
  }

  /** Keeping sections distributes over concatenation: the order of the
      document is kept and no section depends on another. */
  lemma {:induction false} SectionTextsAppend(a: seq<Element>, b: seq<Element>)
    ensures SectionTexts(a + b) == SectionTexts(a) + SectionTexts(b)
    decreases |b|
  {
    if b != [] {
      var b' := b[..|b| - 1];
      assert (a + b)[..|a + b| - 1] == a + b';
      SectionTextsAppend(a, b');
    } else {
      assert a + b == a;
    }
  }

  /** A section is kept exactly when it has an `id`. */
  lemma SectionTextsOfOne(s: Element)
    ensures SectionTexts([s]) == if "id" in s.attrs then [s.text] else []
  {
    assert [s][..0] == [];
  }

  /** `_extract_section_text` */
  method ExtractSectionText(sections: seq<Element>) returns (texts: seq<string>)
    ensures texts == SectionTexts(sections)
  {
    texts := [];
    var i := 0;
    while i < |sections|
      invariant 0 <= i <= |sections|
      invariant texts == SectionTexts(sections[..i])
    {
      var s := sections[i];
      if "id" in s.attrs {
        texts := texts + [s.text];
      }
      assert sections[..i + 1][..i] == sections[..i];
      i := i + 1;
    }
    assert sections[..i] == sections;
  }

  /** `soup.article.text`, or '' when the page has no article. */
  function ArticleText(article: Option<Element>): string {
    if article.Some? then article.value.text else ""
  }

  /** `base` followed by '\n\n' and each section text, in order. */
  function WithSections(base: string, sectionTexts: seq<string>): (r: string)
    ensures |r| >= |base| && r[..|base|] == base
  {
    if sectionTexts == [] then base
    else
      var last := sectionTexts[|sectionTexts| - 1];
      WithSections(base, sectionTexts[..|sectionTexts| - 1]) + "\n\n" + last
  }

  /** What `parse_article_base` returns for a page. */
  function ArticleBaseText(parser: HtmlParser, html: string): string {
    ReplaceNormalize(WithSections(ArticleText(parser.article(html)), SectionTexts(parser.sections(html))))
  }

  /** `parse_article_base`: the normalised article text followed by the texts
      of the sections that have an `id`. */
  method ParseArticleBase(parser: HtmlParser, html: string) returns (text: string)
    ensures text == ArticleBaseText(parser, html)
    ensures NoBreakSpace !in text && ZeroWidthSpace !in text
  {
    var article := parser.article(html);
    var articleText := if article.Some? then article.value.text else "";
    var sectionTexts := ExtractSectionText(parser.sections(html));
    var i := 0;
    while i < |sectionTexts|
      invariant 0 <= i <= |sectionTexts|
      invariant articleText == WithSections(ArticleText(article), sectionTexts[..i])
    {
      articleText := articleText + "\n\n" + sectionTexts[i];
      assert sectionTexts[..i + 1][..i] == sectionTexts[..i];
      i := i + 1;
    }
    assert sectionTexts[..i] == sectionTexts;
    text := ReplaceNormalize(articleText);
  }

  // ---------------------------------------------------------------------
  // __parse_details_tags

  /** The text of the last child tag called `name`, if there is one. */
  function LastNamed(cs: seq<Element>, name: string): Option<string> {
    if cs == [] then None
    else if IsNamed(cs[|cs| - 1], name) then Some(cs[|cs| - 1].text)
    else LastNamed(cs[..|cs| - 1], name)
  }

  /** `LastNamed` is absent exactly when no child has the name, and is
      otherwise the text of the child that has it and comes last. */
  lemma {:induction false} LastNamedIsLast(cs: seq<Element>, name: string)
    ensures LastNamed(cs, name).None? <==> forall i :: 0 <= i < |cs| ==> !IsNamed(cs[i], name)
    ensures forall i :: 0 <= i < |cs| && IsNamed(cs[i], name) &&
                        (forall j :: i < j < |cs| ==> !IsNamed(cs[j], name))
                    ==> LastNamed(cs, name) == Some(cs[i].text)
  {
    if cs != [] {
      var init := cs[..|cs| - 1];
      LastNamedIsLast(init, name);
      assert forall i :: 0 <= i < |init| ==> init[i] == cs[i];
    }
  }

  /** The answer accumulator: ' ' and the text of every child that is not a
      `summary`, in order. */
  function AnswerText(cs: seq<Element>): string {
    if cs == [] then ""
    else
      var last := cs[|cs| - 1];
      AnswerText(cs[..|cs| - 1]) + (if IsNamed(last, "summary") then "" else " " + last.text)
  }

  /** The answer collects the children independently of one another. */
  lemma {:induction false} AnswerTextAppend(a: seq<Element>, b: seq<Element>)
    ensures AnswerText(a + b) == AnswerText(a) + AnswerText(b)
    decreases |b|
  {
    if b != [] {
      var b' := b[..|b| - 1];
      assert (a + b)[..|a + b| - 1] == a + b';
      AnswerTextAppend(a, b');
    } else {
      assert a + b == a;
    }
  }

  /** The question accumulator: the last `summary` text, '' when none. */
  function SummaryText(cs: seq<Element>): string {
    var q := LastNamed(cs, "summary");
    if q.Some? then q.value else ""
  }

  /** The question and answer of one `details` element. */
  function DetailsQuestion(details: Element): string {
    ReplaceNormalize(SummaryText(details.children))
  }

  function DetailsAnswer(details: Element): string {
    ReplaceNormalize(AnswerText(details.children))
  }

  /** `__parse_details_tags`: the last `summary` child gives the question
      ('' when there is none), every other child is appended to the answer. */
  method ParseDetailsTags(details: Element) returns (question: string, answer: string)
    ensures question == DetailsQuestion(details)
    ensures answer == DetailsAnswer(details)
  {
    question := "";
    answer := "";
    var cs := details.children;
    var i := 0;
    while i < |cs|
      invariant 0 <= i <= |cs|
      invariant question == SummaryText(cs[..i])
      invariant answer == AnswerText(cs[..i])
    {
      var detailTag := cs[i];
      assert cs[..i + 1][..i] == cs[..i];
      if detailTag.name == Some("summary") {
        question := detailTag.text;
      } else {
        answer := answer + " " + detailTag.text;
      }
      i := i + 1;
    }
    assert cs[..i] == cs;
    question := ReplaceNormalize(question);
    answer := ReplaceNormalize(answer);
  }

  // ---------------------------------------------------------------------
  // __parse_editor_content_div

  /** One entry per `details` element, in order, all under `category`. */
  function DetailsEntries(ds: seq<Element>, category: Option<string>): (r: seq<FaqEntry>)
    ensures |r| == |ds|
  {
    if ds == [] then []
    else
      var last := ds[|ds| - 1];
      DetailsEntries(ds[..|ds| - 1], category) + [FaqEntry(DetailsQuestion(last), DetailsAnswer(last), category)]
  }

  /** The entries of an editor-content div with children `cs`: each `div`
      child contributes its `details` under the latest `h3` before it. */
  function EditorEntries(details: Element -> seq<Element>, cs: seq<Element>): seq<FaqEntry> {
    if cs == [] then []
    else
      var init, last := cs[..|cs| - 1], cs[|cs| - 1];
      EditorEntries(details, init)
        + (if IsNamed(last, "div") then DetailsEntries(details(last), LastNamed(init, "h3")) else [])
  }

  /** Every entry built under `category` carries it. */
  lemma {:induction false} DetailsEntriesCategory(ds: seq<Element>, category: Option<string>)
    ensures forall e :: e in DetailsEntries(ds, category) ==> e.category == category
  {
    if ds != [] {
      DetailsEntriesCategory(ds[..|ds| - 1], category);
    }
  }

  /** Before the first `h3` there is no category: a div without any `h3`
      child yields only entries whose category is `None`. */
  lemma {:induction false} NoHeadingNoCategory(details: Element -> seq<Element>, cs: seq<Element>)
    requires forall i :: 0 <= i < |cs| ==> !IsNamed(cs[i], "h3")
    ensures forall e :: e in EditorEntries(details, cs) ==> e.category == None
  {
    if cs != [] {
      var init := cs[..|cs| - 1];
      NoHeadingNoCategory(details, init);
      LastNamedIsLast(init, "h3");
      if IsNamed(cs[|cs| - 1], "div") {
        DetailsEntriesCategory(details(cs[|cs| - 1]), None);
      }
    }
  }

  /** An `h3` after the last div adds no entry: a heading only labels the
      divs that follow it. */
  lemma TrailingHeadingAddsNothing(details: Element -> seq<Element>, cs: seq<Element>, heading: Element)
    requires IsNamed(heading, "h3")
    ensures EditorEntries(details, cs + [heading]) == EditorEntries(details, cs)
  {
    assert (cs + [heading])[..|cs|] == cs;
  }

  /** `__parse_editor_content_div` */
  method ParseEditorContentDiv(details: Element -> seq<Element>, div: Element) returns (qaPairs: seq<FaqEntry>)
    ensures qaPairs == EditorEntries(details, div.children)
  {
    var category: Option<string> := None;
    qaPairs := [];
    var cs := div.children;
    var i := 0;
    while i < |cs|
      invariant 0 <= i <= |cs|
      invariant category == LastNamed(cs[..i], "h3")
      invariant qaPairs == EditorEntries(details, cs[..i])
    {
      var element := cs[i];
      ghost var before := qaPairs;
      EditorEntriesStep(details, cs, i);
      if element.name.Some? {
        if element.name == Some("h3") {
          category := Some(element.text);
        }
        if element.name == Some("div") {
          var ds := details(element);
          var j := 0;
          while j < |ds|
            invariant 0 <= j <= |ds|
            invariant qaPairs == before + DetailsEntries(ds[..j], category)
          {
            var question, answer := ParseDetailsTags(ds[j]);
            var entry := FaqEntry(question, answer, category);
            DetailsEntriesStep(ds, j, category);
            AppendAssociative(before, DetailsEntries(ds[..j], category), [entry]);
            qaPairs := qaPairs + [entry];
            j := j + 1;
          }
          assert ds[..j] == ds;
        }
      }
      i := i + 1;
    }
    assert cs[..i] == cs;
  }

  lemma DetailsEntriesStep(ds: seq<Element>, j: nat, category: Option<string>)
    requires j < |ds|
    ensures DetailsEntries(ds[..j + 1], category)
         == DetailsEntries(ds[..j], category) + [FaqEntry(DetailsQuestion(ds[j]), DetailsAnswer(ds[j]), category)]
  {
    assert ds[..j + 1][..j] == ds[..j];
  }

  /** How one more child extends the category and the entries. */
  lemma EditorEntriesStep(details: Element -> seq<Element>, cs: seq<Element>, i: nat)
    requires i < |cs|
    ensures LastNamed(cs[..i + 1], "h3") ==
      if IsNamed(cs[i], "h3") then Some(cs[i].text) else LastNamed(cs[..i], "h3")
    ensures EditorEntries(details, cs[..i + 1]) == EditorEntries(details, cs[..i])
      + (if IsNamed(cs[i], "div") then DetailsEntries(details(cs[i]), LastNamed(cs[..i], "h3")) else [])
  {
    assert cs[..i + 1][..i] == cs[..i];
  }

  // ---------------------------------------------------------------------
  // parse_faq

  /** The entries of all editor-content divs, div after div. */
  function FaqEntries(details: Element -> seq<Element>, divs: seq<Element>): seq<FaqEntry> {
    if divs == [] then []
    else FaqEntries(details, divs[..|divs| - 1]) + EditorEntries(details, divs[|divs| - 1].children)
  }

  /** Divs are parsed independently: a category never carries over from one
      editor-content div to the next, and the order of the page is kept. */
  lemma {:induction false} FaqEntriesAppend(details: Element -> seq<Element>, a: seq<Element>, b: seq<Element>)
    ensures FaqEntries(details, a + b) == FaqEntries(details, a) + FaqEntries(details, b)
    decreases |b|
  {
    if b != [] {
      var b' := b[..|b| - 1];
      assert (a + b)[..|a + b| - 1] == a + b';
      FaqEntriesAppend(details, a, b');
    } else {
      assert a + b == a;
    }
  }

  /** `parse_faq` */
  method ParseFaq(parser: HtmlParser, html: string) returns (qaPairs: seq<FaqEntry>)
    ensures qaPairs == FaqEntries(parser.details, parser.editorContent(html))
  {
    var divs := parser.editorContent(html);
    qaPairs := [];
    var i := 0;
    while i < |divs|
      invariant 0 <= i <= |divs|
      invariant qaPairs == FaqEntries(parser.details, divs[..i])
    {
      var entries := ParseEditorContentDiv(parser.details, divs[i]);
      qaPairs := qaPairs + entries;
      assert divs[..i + 1][..i] == divs[..i];
      i := i + 1;
    }
    assert divs[..i] == divs;
  }
}
