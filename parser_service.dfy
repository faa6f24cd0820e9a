/** The generic page parser: the page title and meta description with their
    `|| null` defaults, the h1/h2/h3 headings, and the links whose href is
    present and does not start with `#`. Cheerio's selectors are not modelled:
    a page arrives as the elements those selectors pick, in document order. */
module ParserService {
  import opened Common
  import opened Text

  /** The element name of a heading the `h1, h2, h3` selector picks. */
  datatype HeadingTag = H1 | H2 | H3

  /** A selected heading element: its name and its text content. */
  datatype HeadingElement = HeadingElement(tag: HeadingTag, text: seq<char>)

  /** A selected `a` element: its text content and its `href` attribute, if any. */
  datatype Anchor = Anchor(text: seq<char>, href: Option<seq<char>>)

  /** What the selectors of `parse` pick from a page: the text of the `title`
      elements, the `content` attribute of the description `meta` element, and
      the headings and anchors in document order. */
  datatype Page = Page(
    titleText: seq<char>,
    description: Option<seq<char>>,
    headings: seq<HeadingElement>,
    anchors: seq<Anchor>)

  datatype Heading = Heading(level: seq<char>, text: seq<char>)

  datatype Link = Link(text: seq<char>, url: seq<char>)

  /** The object `parse` resolves to. */
  datatype PageData = PageData(
    title: Option<seq<char>>,
    description: Option<seq<char>>,
    headings: seq<Heading>,
    links: seq<Link>)

  /** `elem.name` of a heading element. */
  function LevelName(tag: HeadingTag): (r: seq<char>)
    ensures |r| == 2 && r[0] == 'h' && '1' <= r[1] <= '3'
  {
    match tag
    case H1 => "h1"
    case H2 => "h2"
    case H3 => "h3"
  }

  /** The record `extractHeadings` pushes for one element. */
  function HeadingOf(e: HeadingElement): Heading {
    Heading(LevelName(e.tag), Trim(e.text))
  }

  /** The condition `href && !href.startsWith("#")`. */
  predicate KeepsLink(a: Anchor) {
    a.href.Some? && a.href.value != [] && a.href.value[0] != '#'
  }

  /** The record `extractLinks` pushes for a kept anchor. */
  function LinkOf(a: Anchor): Link
    requires KeepsLink(a)
  {
    Link(Trim(a.text), a.href.value)
  }

  /** The links of a run of anchors: the kept ones, in order. */
  function LinksOf(anchors: seq<Anchor>): seq<Link>
  {
    if anchors == [] then []
    else
      var last := anchors[|anchors| - 1];
      LinksOf(anchors[..|anchors| - 1]) + (if KeepsLink(last) then [LinkOf(last)] else [])
  }

  /** `extractHeadings`: one heading per element, in document order, each with the
      element's name as its level and its text trimmed. */
  method ExtractHeadings(elements: seq<HeadingElement>) returns (headings: seq<Heading>)
    ensures |headings| == |elements|
    ensures forall i :: 0 <= i < |elements| ==> headings[i] == HeadingOf(elements[i])
  {
    headings := [];
    var i := 0;
    while i < |elements|
      invariant 0 <= i <= |elements|
      invariant |headings| == i
      invariant forall j :: 0 <= j < i ==> headings[j] == HeadingOf(elements[j])
    {
      headings := headings + [HeadingOf(elements[i])];
      i := i + 1;
    }
  }

  /** `extractLinks`: the anchors that pass the filter, in document order. */
  method ExtractLinks(anchors: seq<Anchor>) returns (links: seq<Link>)
    ensures links == LinksOf(anchors)
  {
    links := [];
    var i := 0;
    while i < |anchors|
      invariant 0 <= i <= |anchors|
      invariant links == LinksOf(anchors[..i])
    {
      assert anchors[..i + 1][..i] == anchors[..i];
      if KeepsLink(anchors[i]) {
        links := links + [LinkOf(anchors[i])];
      }
      i := i + 1;
    }
    assert anchors[..|anchors|] == anchors;
  }

  /** `parse`: the title text or null when it is empty, the description or null
      when it is absent or empty, and the headings and links of the page. */
  method Parse(page: Page) returns (data: PageData)
    ensures data.title == TextOrNull(page.titleText)
    ensures data.description == OrNull(page.description)
    ensures |data.headings| == |page.headings|
    ensures forall i :: 0 <= i < |page.headings| ==> data.headings[i] == HeadingOf(page.headings[i])
    ensures data.links == LinksOf(page.anchors)
  {
    var headings := ExtractHeadings(page.headings);
    var links := ExtractLinks(page.anchors);
    data := PageData(TextOrNull(page.titleText), OrNull(page.description), headings, links);
  }

  /** The link filter distributes over concatenation, so kept links keep their
      document order. */
  lemma {:induction false} LinksOfAppend(a: seq<Anchor>, b: seq<Anchor>)
    ensures LinksOf(a + b) == LinksOf(a) + LinksOf(b)
    decreases |b|
  {
    if b == [] {
      assert a + b == a;
    } else {
      var b' := b[..|b| - 1];
      assert (a + b)[..|a + b| - 1] == a + b';
      assert (a + b)[|a + b| - 1] == b[|b| - 1];
      LinksOfAppend(a, b');
    }
  }

  /** There are never more links than anchors, and exactly as many when every
      anchor passes the filter. */
  lemma {:induction false} LinksOfLength(anchors: seq<Anchor>)
    ensures |LinksOf(anchors)| <= |anchors|
    ensures (forall i :: 0 <= i < |anchors| ==> KeepsLink(anchors[i])) ==> |LinksOf(anchors)| == |anchors|
  {
    if anchors != [] {
      LinksOfLength(anchors[..|anchors| - 1]);
    }
  }

  /** Every link comes from a kept anchor: its url is that anchor's href and its
      text the anchor's trimmed text. */
  lemma {:induction false} LinksOfSound(anchors: seq<Anchor>, l: Link)
    requires l in LinksOf(anchors)
    ensures exists i :: 0 <= i < |anchors| && KeepsLink(anchors[i]) && l == LinkOf(anchors[i])
  {
    var front := anchors[..|anchors| - 1];
    if l in LinksOf(front) {
      LinksOfSound(front, l);
      var i :| 0 <= i < |front| && KeepsLink(front[i]) && l == LinkOf(front[i]);
      assert anchors[i] == front[i];
    } else {
      assert KeepsLink(anchors[|anchors| - 1]) && l == LinkOf(anchors[|anchors| - 1]);
    }
  }

  /** Every kept anchor yields its link. */
  lemma {:induction false} LinksOfComplete(anchors: seq<Anchor>, i: nat)
    requires i < |anchors| && KeepsLink(anchors[i])
    ensures LinkOf(anchors[i]) in LinksOf(anchors)
  {
    var front := anchors[..|anchors| - 1];
    if i < |front| {
      assert front[i] == anchors[i];
      LinksOfComplete(front, i);
    }
  }

  /** Every link's url is a non-empty href that does not start with `#`. */
  lemma LinkUrls(anchors: seq<Anchor>)
    ensures forall l :: l in LinksOf(anchors) ==> l.url != [] && l.url[0] != '#'
  {
    forall l | l in LinksOf(anchors) ensures l.url != [] && l.url[0] != '#' {
      LinksOfSound(anchors, l);
    }
  }

  /** Each heading's text is trimmed and its level is "h1", "h2" or "h3". */
  lemma HeadingShape(e: HeadingElement)
    ensures var h := HeadingOf(e);
      && h.level in ["h1", "h2", "h3"]
      && h.text == Trim(e.text)
      && (h.text != [] ==> !IsSpace(h.text[0]) && !IsSpace(h.text[|h.text| - 1]))
  {
  }
}
