/** The pure part of `get_chapter_links`: from the `href` of every anchor on a series
    page to the ordered list of chapter URLs. Fetching and parsing the page are not
    modelled; the anchors arrive as their `href` strings in document order, and
    `urljoin` is the opaque parameter `resolve(base, href)`. */
module ChapterLinks {
  import opened Text
  import opened ChapterNumber
  import opened Sequences

  /** `CHAPTER_TOKEN`: the marker of a chapter link. */
  const ChapterToken: string := "-chapter-"

  /** `CHAPTER_TOKEN in href.lower()`, for an already trimmed `href`. */
  ghost predicate IsChapterHref(href: string) {
    Contains(LowerString(href), ChapterToken)
  }

  function KeepHref(href: string): (b: bool)
    ensures b <==> IsChapterHref(href)
  {
    Find(LowerString(href), ChapterToken).Some?
  }

  /** The anchor is kept: its trimmed `href` is a chapter link. */
  predicate Kept(href: string) {
    KeepHref(Strip(href))
  }

  /** `urljoin(manga_url, href.strip().rstrip('/'))`. */
  function LinkOf(resolve: (string, string) -> string, page: string, href: string): string {
    resolve(page, RStrip(Strip(href), IsSlash))
  }

  /** The `links` list the loop builds, in document order, duplicates included:
      every kept anchor contributes its link, and nothing else does. */
  function Collect(resolve: (string, string) -> string, page: string, hrefs: seq<string>): (r: seq<string>)
    ensures |r| <= |hrefs|
    ensures forall u :: u in r <==> Produces(hrefs, Kept, h => LinkOf(resolve, page, h), u)
  {
    FilterMap(hrefs, Kept, h => LinkOf(resolve, page, h))
  }

  /** Non-decreasing in chapter number. */
  predicate SortedByChapter(xs: seq<string>) {
    SortedBy(xs, ExtractChapterNum)
  }

  /** `get_chapter_links(manga_url)`, given the page's anchors: every kept link, once,
      in non-decreasing chapter order. The order among equal numbers is not fixed
      by the source (it follows the iteration order of a `set`). */
  function GetChapterLinks(resolve: (string, string) -> string, page: string, hrefs: seq<string>): (r: seq<string>)
    ensures SortedByChapter(r)
    ensures NoDuplicates(r)
    ensures forall u :: u in r <==> Produces(hrefs, Kept, h => LinkOf(resolve, page, h), u)
  {
    SortBy(Dedupe(Collect(resolve, page, hrefs)), ExtractChapterNum)
  }

  /** When `urljoin` leaves the hrefs as they are (they are already absolute), every
      link is non-empty, still carries the chapter token, and ends in no `/`:
      `rstrip('/')` removed all trailing slashes and cannot reach the token. */
  lemma AbsoluteLinksHaveNoTrailingSlash(resolve: (string, string) -> string, page: string, hrefs: seq<string>)
    requires forall h :: resolve(page, h) == h
    ensures forall u :: u in GetChapterLinks(resolve, page, hrefs) ==>
              u != [] && u[|u| - 1] != '/' && IsChapterHref(u)
  {
    var links := GetChapterLinks(resolve, page, hrefs);
    forall u | u in links
      ensures u != [] && u[|u| - 1] != '/' && IsChapterHref(u)
    {
      assert Produces(hrefs, Kept, h => LinkOf(resolve, page, h), u);
      var k :| 0 <= k < |hrefs| && Kept(hrefs[k]) && u == LinkOf(resolve, page, hrefs[k]);
      KeptLinkShape(resolve, page, hrefs[k]);
    }
  }

  lemma KeptLinkShape(resolve: (string, string) -> string, page: string, href: string)
    requires forall h :: resolve(page, h) == h
    requires Kept(href)
    ensures var u := LinkOf(resolve, page, href); u != [] && u[|u| - 1] != '/' && IsChapterHref(u)
  {
    var t := Strip(href);
    assert LinkOf(resolve, page, href) == RStrip(t, IsSlash);
    assert IsChapterHref(t);
    StripSlashesKeepsToken(t);
  }

  /** Stripping trailing slashes never cuts into a chapter token, since the token
      ends in `-`. */
  lemma StripSlashesKeepsToken(t: string)
    requires IsChapterHref(t)
    ensures var r := RStrip(t, IsSlash); r != [] && r[|r| - 1] != '/' && IsChapterHref(r)
  {
    var r := RStrip(t, IsSlash);
    var lt := LowerString(t);
    var i :| OccursAt(lt, ChapterToken, i);
    var e := i + |ChapterToken| - 1;
    assert lt[e] == ChapterToken[|ChapterToken| - 1] == '-';
    assert t[e] == '-';
    assert |r| > e;
    var lr := LowerString(r);
    assert lr[i..i + |ChapterToken|] == lt[i..i + |ChapterToken|];
    assert OccursAt(lr, ChapterToken, i);
  }
}
