/** `fetch_manga_links`: one listing page's anchors become title/link records. */
module Listing {
  import opened Wrappers
  import opened Text
  import opened Selection

  /** Site origin prefixed to root-relative links. */
  const Origin: String := "https://blogtruyenmoi.com"

  /** One `.tiptip a` element as the driver reports it: its `href`
      attribute (None when the attribute is absent) and its text. */
  datatype Anchor = Anchor(href: Option<String>, text: String)

  /** A harvested `{title, link}` pair. */
  datatype LinkRecord = LinkRecord(title: String, link: String)

  /** What every harvested record satisfies: an absolute link, and a title
      that does not end with a colon. */
  predicate WellFormed(r: LinkRecord) {
    StartsWith(r.link, "http") && (r.title == [] || r.title[|r.title| - 1] != ':')
  }

  predicate AllWellFormed(links: seq<LinkRecord>) {
    forall k :: 0 <= k < |links| ==> WellFormed(links[k])
  }

  /** `link if link.startswith('http') else f'https://blogtruyenmoi.com{link}'` */
  function AbsoluteLink(href: String): String {
    if StartsWith(href, "http") then href else Origin + href
  }

  /** A link that already starts with `http` is kept as it is; any other
      gets the site origin in front; either way the result starts with
      `http`, so normalising twice changes nothing more. */
  lemma AbsoluteLinkSpec(href: String)
    ensures StartsWith(AbsoluteLink(href), "http")
    ensures StartsWith(href, "http") <==> AbsoluteLink(href) == href
    ensures !StartsWith(href, "http") ==> AbsoluteLink(href) == Origin + href
    ensures AbsoluteLink(AbsoluteLink(href)) == AbsoluteLink(href)
  {
    var r := AbsoluteLink(href);
    if !StartsWith(href, "http") {
      assert r[..4] == Origin[..4];
      assert |r| > |href|;
    }
  }

  /** `text.strip().rstrip(':')` */
  function CleanTitle(text: String): String {
    TrimRight(Strip(text), IsColon)
  }

  /** The title is the stripped text with its trailing colons cut off and
      nothing else removed: a prefix of the stripped text, followed there by
      colons only, not ending with a colon and not starting with whitespace. */
  lemma CleanTitleSpec(text: String)
    ensures var r := CleanTitle(text);
            && |r| <= |Strip(text)| && r == Strip(text)[..|r|]
            && AllSatisfy(Strip(text)[|r|..], IsColon)
            && (r == [] || r[|r| - 1] != ':')
            && (r == [] || !IsSpace(r[0]))
  {
    StripSpec(text);
    TrimRightSpec(Strip(text), IsColon);
  }

  /** Stripping happens before the colons are cut, so whitespace in front
      of trailing colons stays: `"Title :"` becomes `"Title "`. */
  lemma CleanTitleKeepsInnerSpace()
    ensures CleanTitle("Title :") == "Title "
  {
    var s := "Title :";
    assert TrimRight(s, IsSpace) == s;
    assert TrimLeft(s, IsSpace) == s;
    assert TrimRight(s, IsColon) == TrimRight(s[..6], IsColon);
    assert s[..6] == "Title ";
  }

  /** `if link:` — the attribute is present and non-empty. */
  predicate Harvestable(a: Anchor) {
    a.href.Some? && a.href.value != []
  }

  function ToRecord(a: Anchor): LinkRecord
    requires Harvestable(a)
  {
    LinkRecord(CleanTitle(a.text), AbsoluteLink(a.href.value))
  }

  /** The records `fetch_manga_links` returns for the anchors of one page. */
  function LinksOf(anchors: seq<Anchor>): (r: seq<LinkRecord>)
    ensures |r| <= |anchors|
  {
    if anchors == [] then []
    else
      var last := anchors[|anchors| - 1];
      LinksOf(anchors[..|anchors| - 1]) + (if Harvestable(last) then [ToRecord(last)] else [])
  }

  /** Every record of a page has an absolute link and a colon-free end. */
  lemma {:induction false} LinksOfWellFormed(anchors: seq<Anchor>)
    ensures AllWellFormed(LinksOf(anchors))
  {
    if anchors != [] {
      var last := anchors[|anchors| - 1];
      LinksOfWellFormed(anchors[..|anchors| - 1]);
      if Harvestable(last) {
        AbsoluteLinkSpec(last.href.value);
        CleanTitleSpec(last.text);
      }
    }
  }

  /** The positions whose anchor passes `if link:`. */
  function KeepsAnchor(anchors: seq<Anchor>): nat -> bool {
    j => 0 <= j < |anchors| && Harvestable(anchors[j])
  }

  /** The output is exactly the harvestable anchors, in input order, each
      turned into its record. */
  lemma {:induction false} LinksOfSelects(anchors: seq<Anchor>, n: nat)
    requires n <= |anchors|
    ensures var idx := Selected(n, KeepsAnchor(anchors));
            |LinksOf(anchors[..n])| == |idx|
            && forall k :: 0 <= k < |idx| ==> LinksOf(anchors[..n])[k] == ToRecord(anchors[idx[k]])
  {
    if n > 0 {
      LinksOfSelects(anchors, n - 1);
      assert anchors[..n][..n - 1] == anchors[..n - 1];
      assert anchors[..n][n - 1] == anchors[n - 1];
    }
  }

  /** `fetch_manga_links`: walks the anchors once, appending a record for
      each one with a non-empty `href`. */
  method FetchMangaLinks(anchors: seq<Anchor>) returns (links: seq<LinkRecord>)
    ensures links == LinksOf(anchors)
  {
    links := [];
    var i := 0;
    while i < |anchors|
      invariant 0 <= i <= |anchors|
      invariant links == LinksOf(anchors[..i])
    {
      var a := anchors[i];
      if a.href.Some? && a.href.value != [] {
        links := links + [LinkRecord(CleanTitle(a.text), AbsoluteLink(a.href.value))];
      }
      assert anchors[..i + 1][..i] == anchors[..i];
      i := i + 1;
    }
    assert anchors[..i] == anchors;
  }
}
