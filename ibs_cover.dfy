/** `get_cover_from_ibs` (scripts/aggiungi_copertine.py): look a book up on www.ibs.it and
    return the URL of its cover image, or `""`.

    The two HTTP GETs are the functions `search` and `detail` from a URL to the parsed page,
    `None` standing for a network error or a non-2xx status (`raise_for_status`). A parsed page
    is given as the nodes the script's CSS selectors pick. `quote` (URL percent-encoding) is
    a parameter. */
module IbsCover {
  import opened Wrappers
  import opened Text

  const Origin := "https://www.ibs.it"
  const SearchPrefix := "https://www.ibs.it/search/?ts=as&query="
  /** The path segment in front of a book's identifier in an ibs.it URL. */
  const IsbnMarker := "/e/"
  const MinIsbnLength := 10
  const CoverPrefix := "https://www.ibs.it/images/"
  const CoverSuffix := "_0_0_536_0_75.jpg"

  /** An HTML element, by its attributes (`element.get(name)`). */
  datatype Element = Element(attrs: map<string, string>)

  /** A `.search-item-book` node, by its first `.description a` descendant, if any. */
  datatype SearchItem = SearchItem(link: Option<Element>)

  /** The search result page: its `.search-item-book` nodes in document order. */
  datatype SearchPage = SearchPage(items: seq<SearchItem>)

  /** The book's detail page: its first `meta[property="og:url"]`, if any, and all of its
      `img` elements in document order. */
  datatype DetailPage = DetailPage(ogUrl: Option<Element>, images: seq<Element>)

  /** Why a lookup found nothing; the script returns `""` for all of them. `NoResults`,
      `NoLink` and `NoCover` each have their own message. `SearchFailed`, `HrefMissing` and
      `DetailFailed` all reach the one `except` message, which differs only in the
      exception's text. */
  datatype Miss =
    | SearchFailed   // the search GET raised
    | NoResults      // no `.search-item-book`
    | NoLink         // the first result has no `.description a`
    | HrefMissing    // that link has no `href`: `None.startswith` raises
    | DetailFailed   // the detail GET raised
    | NoCover        // no usable identifier and no matching image

  datatype Lookup = Found(url: string) | NotFound(reason: Miss)

  /** `element.get(name, default)`. */
  function Attr(e: Element, name: string, default: string): string {
    if name in e.attrs then e.attrs[name] else default
  }

  /** The free-text search query. */
  function Query(title: string, author: string): string {
    title + " " + author
  }

  function SearchUrl(title: string, author: string, quote: string -> string): string {
    SearchPrefix + quote(Query(title, author))
  }

  /** An href or src made absolute: anything that does not start with "http" is taken as a
      path on the site's origin. */
  function NormalizeLink(href: string): (r: string)
    ensures StartsWith(r, "http")
    ensures r == href <==> StartsWith(href, "http")
    ensures r != href ==> r == Origin + href
  {
    if StartsWith(href, "http") then href else Origin + href
  }

  /** The identifier carried by a URL: the stripped text after its first "/e/", up to
      the next one; `""` when the URL has no "/e/". */
  function IsbnIn(url: string): string {
    if Contains(url, IsbnMarker) then Strip(SplitSecond(url, IsbnMarker)) else ""
  }

  /** The identifier of the detail page at `link`: taken from `link` itself, and only when
      that gives nothing, from the `content` of the page's `og:url` meta tag. `""` means
      none was found (Python's `None` and `""` are both falsy there). */
  function ExtractIsbn(link: string, ogUrl: Option<Element>): (isbn: string)
    ensures isbn == "" || (!IsSpace(isbn[0]) && !IsSpace(isbn[|isbn| - 1]))
  {
    var fromLink := IsbnIn(link);
    if fromLink != "" then fromLink
    else match ogUrl
      case Some(meta) => IsbnIn(Attr(meta, "content", ""))
      case None => ""
  }

  /** `img[src*="/images/"][src*=".jpg"]`: an image whose `src` contains both. */
  predicate IsCoverImage(e: Element) {
    "src" in e.attrs && Contains(e.attrs["src"], "/images/") && Contains(e.attrs["src"], ".jpg")
  }

  /** `select_one` with that selector: the `src` of the first matching image. */
  function FirstCoverImage(images: seq<Element>): (r: Option<string>)
    ensures r.None? <==> forall k :: 0 <= k < |images| ==> !IsCoverImage(images[k])
    ensures r.Some? ==> exists k ::
              && 0 <= k < |images| && IsCoverImage(images[k]) && r.value == images[k].attrs["src"]
              && forall j :: 0 <= j < k ==> !IsCoverImage(images[j])
  {
    if images == [] then None
    else if IsCoverImage(images[0]) then Some(images[0].attrs["src"])
    else
      FirstCoverImage(images[1..])
  }

  /** The cover URL ibs.it serves for an identifier. */
  function CoverFromIsbn(isbn: string): string {
    CoverPrefix + isbn + CoverSuffix
  }

  /** What a cover URL returned by the resolver looks like: absolute, and pointing at an
      image under "/images/". */
  predicate CoverShaped(url: string) {
    StartsWith(url, "http") && Contains(url, "/images/") && Contains(url, ".jpg")
  }

  /** The resolver's decision procedure, with the reason for every miss. */
  function Resolve(title: string, author: string, quote: string -> string,
                   search: string -> Option<SearchPage>,
                   detail: string -> Option<DetailPage>): (r: Lookup)
    ensures r.Found? ==> CoverShaped(r.url)
  {
    match search(SearchUrl(title, author, quote))
    case None => NotFound(SearchFailed)
    case Some(page) =>
      if |page.items| == 0 then NotFound(NoResults)
      else match page.items[0].link
        case None => NotFound(NoLink)
        case Some(a) =>
          if "href" !in a.attrs then NotFound(HrefMissing)
          else
            var link := NormalizeLink(a.attrs["href"]);
            match detail(link)
            case None => NotFound(DetailFailed)
            case Some(d) =>
              var isbn := ExtractIsbn(link, d.ogUrl);
              if |isbn| >= MinIsbnLength then
                CoverFromIsbnShaped(isbn);
                Found(CoverFromIsbn(isbn))
              else match FirstCoverImage(d.images)
                case Some(src) =>
                  NormalizedImageShaped(src);
                  Found(NormalizeLink(src))
                case None => NotFound(NoCover)
  }

  /** `get_cover_from_ibs(title, author)`: every miss, including the exception raised for a
      missing href, is `""`. */
  function GetCoverFromIbs(title: string, author: string, quote: string -> string,
                           search: string -> Option<SearchPage>,
                           detail: string -> Option<DetailPage>): (r: string)
    ensures r == "" || CoverShaped(r)
    ensures r == "" <==> Resolve(title, author, quote, search, detail).NotFound?
  {
    match Resolve(title, author, quote, search, detail)
    case Found(url) => url
    case NotFound(_) => ""
  }

  lemma CoverFromIsbnShaped(isbn: string)
    ensures CoverShaped(CoverFromIsbn(isbn))
  {
    var u := CoverFromIsbn(isbn);
    assert u[..4] == "http";
    assert u[18..26] == "/images/";
    assert OccursAt(u, "/images/", 18);
    assert u[|u| - 4..] == ".jpg";
    assert OccursAt(u, ".jpg", |u| - 4);
  }

  lemma NormalizedImageShaped(src: string)
    requires Contains(src, "/images/") && Contains(src, ".jpg")
    ensures CoverShaped(NormalizeLink(src))
  {
    if !StartsWith(src, "http") {
      ContainsInSuffix(Origin, src, "/images/");
      ContainsInSuffix(Origin, src, ".jpg");
    }
  }
  /** The first search result links to `href`. */
  predicate FirstResultLinksTo(page: SearchPage, href: string) {
    && |page.items| > 0
    && page.items[0].link.Some?
    && "href" in page.items[0].link.value.attrs
    && page.items[0].link.value.attrs["href"] == href
  }

  /** Every early exit before the detail page yields `""`: a failed search, no results,
      a first result without a link, a link without an href, a failed detail fetch. */
  lemma EarlyExitsAreEmpty(title: string, author: string, quote: string -> string,
                           search: string -> Option<SearchPage>,
                           detail: string -> Option<DetailPage>)
    ensures var url := "https://www.ibs.it/search/?ts=as&query=" + quote(title + " " + author);
            var cover := GetCoverFromIbs(title, author, quote, search, detail);
            && (search(url).None? ==> cover == "")
            && (search(url).Some? && search(url).value.items == [] ==> cover == "")
            && ((search(url).Some? && search(url).value.items != [] &&
                 search(url).value.items[0].link.None?) ==> cover == "")
            && ((search(url).Some? && search(url).value.items != [] &&
                 search(url).value.items[0].link.Some? &&
                 "href" !in search(url).value.items[0].link.value.attrs) ==> cover == "")
            && (forall href ::
                  (search(url).Some? && FirstResultLinksTo(search(url).value, href) &&
                   detail(NormalizeLink(href)).None?) ==> cover == "")
  {
  }

  /** The search endpoint is fetched only at the search prefix followed by the encoded
      `title + " " + author`: two sites that agree there give the same outcome. */
  lemma SearchFetchedOnlyAtQueryUrl(title: string, author: string, quote: string -> string,
                                    search1: string -> Option<SearchPage>,
                                    search2: string -> Option<SearchPage>,
                                    detail: string -> Option<DetailPage>)
    requires var url := "https://www.ibs.it/search/?ts=as&query=" + quote(title + " " + author);
             search1(url) == search2(url)
    ensures Resolve(title, author, quote, search1, detail) == Resolve(title, author, quote, search2, detail)
  {
  }

  /** Only the first search result is consulted: result lists that share their first item
      give the same outcome. */
  lemma OnlyFirstResultConsulted(title: string, author: string, quote: string -> string,
                                 search1: string -> Option<SearchPage>,
                                 search2: string -> Option<SearchPage>,
                                 detail: string -> Option<DetailPage>)
    requires search1(SearchUrl(title, author, quote)).Some? && search2(SearchUrl(title, author, quote)).Some?
    requires var items1 := search1(SearchUrl(title, author, quote)).value.items;
             var items2 := search2(SearchUrl(title, author, quote)).value.items;
             |items1| > 0 && |items2| > 0 && items1[0] == items2[0]
    ensures Resolve(title, author, quote, search1, detail) == Resolve(title, author, quote, search2, detail)
  {
  }

  /** The detail page is fetched only at the absolute form of the first result's href,
      which starts with "http". */
  lemma DetailFetchedOnlyAtAbsoluteLink(title: string, author: string, quote: string -> string,
                                        search: string -> Option<SearchPage>,
                                        detail1: string -> Option<DetailPage>,
                                        detail2: string -> Option<DetailPage>, href: string)
    requires search(SearchUrl(title, author, quote)).Some?
    requires FirstResultLinksTo(search(SearchUrl(title, author, quote)).value, href)
    requires detail1(NormalizeLink(href)) == detail2(NormalizeLink(href))
    ensures StartsWith(NormalizeLink(href), "http")
    ensures Resolve(title, author, quote, search, detail1) == Resolve(title, author, quote, search, detail2)
  {
  }

  /** Once the detail page `d` of `link` is in hand: an identifier of at least ten
      characters gives the templated cover URL whatever images the page holds; a shorter
      (or no) identifier is ignored and the first matching image, made absolute, is taken;
      with neither the result is `""`. */
  lemma DetailPageDecision(title: string, author: string, quote: string -> string,
                           search: string -> Option<SearchPage>,
                           detail: string -> Option<DetailPage>, href: string)
    requires search(SearchUrl(title, author, quote)).Some?
    requires FirstResultLinksTo(search(SearchUrl(title, author, quote)).value, href)
    requires detail(NormalizeLink(href)).Some?
    ensures var d := detail(NormalizeLink(href)).value;
            var isbn := ExtractIsbn(NormalizeLink(href), d.ogUrl);
            var cover := GetCoverFromIbs(title, author, quote, search, detail);
            && (|isbn| >= 10 ==> cover == "https://www.ibs.it/images/" + isbn + "_0_0_536_0_75.jpg")
            && (|isbn| < 10 && FirstCoverImage(d.images).Some? ==>
                cover == NormalizeLink(FirstCoverImage(d.images).value))
            && (|isbn| < 10 && FirstCoverImage(d.images).None? ==> cover == "")
  {
  }

  /** The identifier is read from the link; the `og:url` meta tag is consulted only when
      the link gives nothing, and only a content containing "/e/" yields one. */
  lemma IsbnSourceOrder(link: string, ogUrl: Option<Element>)
    ensures IsbnIn(link) != "" ==> ExtractIsbn(link, ogUrl) == IsbnIn(link)
    ensures IsbnIn(link) == "" && ogUrl.None? ==> ExtractIsbn(link, ogUrl) == ""
    ensures IsbnIn(link) == "" && ogUrl.Some? ==>
              ExtractIsbn(link, ogUrl) == IsbnIn(Attr(ogUrl.value, "content", ""))
  {
  }

  /** The identifier a URL carries: `""` when the URL has no "/e/"; otherwise the stripped
      text between its first "/e/" and the next "/e/" (or the end of the URL). */
  lemma IsbnIsSegmentAfterMarker(url: string)
    ensures (forall j: nat :: !OccursAt(url, "/e/", j)) ==> IsbnIn(url) == ""
    ensures (exists j: nat :: OccursAt(url, "/e/", j)) ==>
              exists i: nat, piece: string | i <= |url| ::
                FirstOccurrence(url, "/e/", i) && PieceAfter(url, "/e/", i, piece) && Strip(piece) == IsbnIn(url)
  {
    ContainsIffOccurs(url, IsbnMarker);
    if !Contains(url, IsbnMarker) {
      return;
    }
    SplitSecondBetweenOccurrences(url, IsbnMarker);
    var i, piece := Find(url, IsbnMarker).value, SplitSecond(url, IsbnMarker);
    assert FirstOccurrence(url, "/e/", i) && PieceAfter(url, "/e/", i, piece) && Strip(piece) == IsbnIn(url);
  }

  /** Making a link absolute twice changes nothing more. */
  lemma NormalizeLinkIdempotent(href: string)
    ensures NormalizeLink(NormalizeLink(href)) == NormalizeLink(href)
  {
  }
}
