# IBS cover enrichment, modelled in Dafny

The repository keeps a catalog of books in `books.json` and has two small scripts that fill in cover images for it:

- `scripts/aggiungi_copertine.py` looks each book up on the Italian bookshop www.ibs.it and writes back the cover URL it finds.
  - `get_cover_from_ibs` searches for `title + " " + author` and follows the first result to its detail page.
  - It takes the book's identifier (the text after `/e/`) from the link or from the page's `og:url` meta tag.
  - An identifier of at least 10 characters gives the site's templated cover URL. Failing that, the script takes the first `img` whose `src` contains `/images/` and `.jpg`, made absolute.
  - Every failure, including an exception, gives `""`.
  - `enrich_books_with_ibs_covers` makes one pass over the catalog.
    - It skips records that already have a non-blank `cover_url` and records without a title.
    - It sets `cover_url` when the lookup answers.
    - It rewrites the whole file after each record it looked up.
- `data/aggiungi_copertine.py` downloads those covers. `process_book` picks `cover`, or else `cover_url`, as the source. It names the file `sanitize_filename(title) + "_" + sanitize_filename(author) + ".jpg"` inside the covers folder, and skips the download when that path already exists.

The Dafny modules follow that structure:

| file | module | models |
|---|---|---|
| `wrappers.dfy` | `Wrappers` | `Option` |
| `text.dfy` | `Text` | the Python `str` operations the scripts use (`in`, `strip`, `startswith`, `split(sep)[1]`, and the tests inside `os.path.join`), with the helpers they are defined by (`isspace`, `lstrip`/`rstrip`, `find`, `split(sep)[0]`, `endswith`) |
| `books.dfy` | `Books` | the catalog record (`title`, `author`, `cover_url`, `cover`) |
| `ibs_cover.dfy` | `IbsCover` | `get_cover_from_ibs` as a pure function of the fetched pages |
| `catalog.dfy` | `CatalogEnricher` | `enrich_books_with_ibs_covers` as a method that updates an `array<Book>` in place |
| `cover_download.dfy` | `CoverDownload` | `sanitize_filename` and the decisions of `process_book` |

How the outside world is modelled:

- **The two HTTP GETs** are the function parameters `search` and `detail`. Each maps a URL to `Some(page)` or to `None`; `None` stands for a network error or a status rejected by `raise_for_status`.
- **A parsed page** is given as the nodes the script's CSS selectors pick:
  - the search items, each with its first `.description a` link;
  - the detail page's first `og:url` meta tag and its `img` elements, in document order.
- **`quote`** is a function parameter.
- **The pages stay the same for the whole pass.** `search`, `detail`, and so the resolver, are fixed functions. Two records with the same title and author therefore always get the same answer. A timeout or transient error on only one of those calls cannot be expressed. `CatalogEnricher.EnrichIdempotent` and `CatalogEnricher.IbsEnrichIdempotent` rely on this ("over fixed pages").
- **The resolver** that `enrich_books_with_ibs_covers` calls is a parameter of type `(string, string) -> string`. `CatalogEnricher.IbsResolver` instantiates it with `IbsCover.GetCoverFromIbs`.
- **The method's ghost outputs** record each resolver call as a (title, author) pair and each rewrite of `books.json` as a snapshot of the catalog it writes.
- **`os.path.exists`** is a set of existing paths.
- **The covers folder** is a parameter.

`CatalogEnricher.HasCover` says "`cover_url` has a non-whitespace character" rather than going through `strip()`; `CatalogEnricher.HasCoverIsStripTest` proves the two tests agree.

`IbsCover.Resolve` keeps a reason for every miss. The script only prints these reasons, and `IbsCover.GetCoverFromIbs` collapses them all to `""`.

## Model

| member | source | states |
|---|---|---|
| Text.TrimLeft | scripts/aggiungi_copertine.py:77 | `lstrip`: the result is a suffix of the input, everything dropped is whitespace, and it does not start with whitespace |
| Text.TrimRight | scripts/aggiungi_copertine.py:77 | `rstrip`: the result is a prefix of the input, everything dropped is whitespace, and it does not end with whitespace |
| Text.StripEmptyIffAllSpace | scripts/aggiungi_copertine.py:131 | `s.strip()` is empty exactly when every character of `s` is whitespace |
| Text.Find | scripts/aggiungi_copertine.py:76 | the search behind `in` (line 76) and `split` (line 77): the index returned is the first occurrence; no result means no occurrence anywhere |
| Text.ContainsIffOccurs | scripts/aggiungi_copertine.py:76 | `p in s` holds exactly when `p` occurs at some index of `s` |
| Text.SplitSecondBetweenOccurrences | scripts/aggiungi_copertine.py:77 | `s.split(sep)[1]` starts right after the first `sep` and runs to the next `sep` or to the end, and no `sep` starts inside it |
| IbsCover.SearchFetchedOnlyAtQueryUrl | scripts/aggiungi_copertine.py:23-38 | the search endpoint is consulted only at `https://www.ibs.it/search/?ts=as&query=` + quote(`title + " " + author`): two sites that agree on that URL give the same outcome |
| IbsCover.EarlyExitsAreEmpty | scripts/aggiungi_copertine.py:35-67 | each of these gives `""`: a failed search, no search items, a first item without a link, a link without an href (the exception is caught at :105-107), a failed detail fetch |
| IbsCover.OnlyFirstResultConsulted | scripts/aggiungi_copertine.py:45-55 | result lists that share their first item give the same outcome, whatever follows it |
| IbsCover.NormalizeLink | scripts/aggiungi_copertine.py:60-62 | a link that starts with "http" is kept; any other link becomes `https://www.ibs.it` + link; the result always starts with "http" |
| IbsCover.NormalizeLinkIdempotent | scripts/aggiungi_copertine.py:60-62 | making a link absolute twice is the same as once |
| IbsCover.DetailFetchedOnlyAtAbsoluteLink | scripts/aggiungi_copertine.py:60-67 | the detail page is fetched only at the absolute form of the first result's href, which starts with "http" |
| IbsCover.ExtractIsbn | scripts/aggiungi_copertine.py:72-83 | the identifier is empty or neither starts nor ends with whitespace |
| IbsCover.IsbnSourceOrder | scripts/aggiungi_copertine.py:72-83 | the identifier comes from the link when the link gives one; otherwise it comes from the `og:url` content; with no meta tag it is empty |
| IbsCover.IsbnIsSegmentAfterMarker | scripts/aggiungi_copertine.py:76-77 | a URL without "/e/" gives `""`; a URL with "/e/" gives the stripped text between its first "/e/" and the next "/e/" or the end (for example, `…/e/9788807034664` gives `9788807034664`) |
| IbsCover.FirstCoverImage | scripts/aggiungi_copertine.py:93 | `select_one('img[src*="/images/"][src*=".jpg"]')`: no image matches exactly when the result is none; otherwise the result is the `src` of a matching image with no matching image before it |
| IbsCover.DetailPageDecision | scripts/aggiungi_copertine.py:86-103 | a result of at least 10 characters gives exactly `https://www.ibs.it/images/` + isbn + `_0_0_536_0_75.jpg`, and never the image; a shorter or missing one falls through to the first matching image, made absolute; with no image the result is `""` |
| IbsCover.CoverFromIsbnShaped | scripts/aggiungi_copertine.py:88 | the templated URL is absolute and contains "/images/" and ".jpg" |
| IbsCover.NormalizedImageShaped | scripts/aggiungi_copertine.py:93-98 | a matching image `src`, made absolute, is absolute and still contains "/images/" and ".jpg" |
| IbsCover.Resolve | scripts/aggiungi_copertine.py:35-103 | every cover found is absolute and contains "/images/" and ".jpg" |
| IbsCover.GetCoverFromIbs | scripts/aggiungi_copertine.py:11-107 | the result is `""` exactly when the lookup missed, and otherwise is an absolute URL containing "/images/" and ".jpg" |
| CatalogEnricher.HasCoverIsStripTest | scripts/aggiungi_copertine.py:131 | the skip test `cover_url and cover_url.strip()` holds exactly when `cover_url` has a non-whitespace character |
| CatalogEnricher.Refreshed | scripts/aggiungi_copertine.py:127-149 | one record's step: title, author and cover are kept; a record with a cover or without a title is unchanged; a record that needs a lookup and gets a non-empty answer has `cover_url` set to it; any change is that one |
| CatalogEnricher.EnrichBooksWithIbsCovers | scripts/aggiungi_copertine.py:109-158 | the array ends as the enriched catalog; `updated`, the resolver calls and the file rewrites are exactly those of the pass, the rewrites each holding the catalog as it then stands |
| CatalogEnricher.EnrichedKeepsRecords | scripts/aggiungi_copertine.py:125-149 | the pass keeps the length and order of the catalog and changes nothing but `cover_url`. A record with a cover, without a title, or with an empty answer stays as it was; any other gets the answer |
| CatalogEnricher.UpdatedCountBounds | scripts/aggiungi_copertine.py:121-146 | `updated` ≤ number of resolver calls ≤ number of records |
| CatalogEnricher.UpdatedCountIsCoveredRecords | scripts/aggiungi_copertine.py:144-146 | `updated` equals the number of records that received a cover |
| CatalogEnricher.LookupsAreEligibleRecords | scripts/aggiungi_copertine.py:130-142 | the resolver is asked about every record without a cover that has a title, and about no other record |
| CatalogEnricher.LookupsCountEligible | scripts/aggiungi_copertine.py:130-142 | the number of resolver calls equals the number of records without a cover that have a title, counted by index (records sharing a title and author are each looked up) |
| CatalogEnricher.OneSavePerLookup | scripts/aggiungi_copertine.py:139-153 | exactly one rewrite of the file per resolver call |
| CatalogEnricher.SavesCountEligible | scripts/aggiungi_copertine.py:130-153 | the whole pass rewrites the file exactly once per record without a cover that has a title |
| CatalogEnricher.LastSaveIsCurrent | scripts/aggiungi_copertine.py:151-153 | the latest rewrite always holds the catalog as it is in memory at that point |
| CatalogEnricher.FinalSaveIsEnriched | scripts/aggiungi_copertine.py:151-153 | once any record reached the resolver, the last rewrite is the enriched catalog |
| CatalogEnricher.NothingToLookUp | scripts/aggiungi_copertine.py:130-137 | when every record has a cover or lacks a title, the pass changes nothing and makes no resolver call, no rewrite and no update |
| CatalogEnricher.EnrichIdempotent | scripts/aggiungi_copertine.py:131-146 | with a resolver that never answers whitespace only, a second pass changes nothing |
| CatalogEnricher.IbsResolverNeverBlank | scripts/aggiungi_copertine.py:86-100 | every non-empty answer of `get_cover_from_ibs` has a non-whitespace character |
| CatalogEnricher.IbsEnrichIdempotent | scripts/aggiungi_copertine.py:109-158 | with the IBS resolver over fixed pages, running the pass twice is the same as running it once |
| CoverDownload.SanitizeFilename | data/aggiungi_copertine.py:13-14 | `sanitize_filename` is never longer than its input |
| CoverDownload.SanitizeClean | data/aggiungi_copertine.py:14 | the result contains none of `/ * ? : " < > \|` |
| CoverDownload.SanitizeKeepsOthers | data/aggiungi_copertine.py:14 | each other character, backslash included, occurs in the result as often as in the input; the eight forbidden ones do not occur at all |
| CoverDownload.SanitizeConcat | data/aggiungi_copertine.py:14 | sanitising a concatenation gives the concatenation of the sanitised parts, so the characters kept stay in order |
| CoverDownload.SanitizeFixpoint | data/aggiungi_copertine.py:14 | a string is left unchanged exactly when it has none of the eight characters |
| CoverDownload.SanitizeIdempotent | data/aggiungi_copertine.py:14 | `sanitize(sanitize(s)) == sanitize(s)` |
| CoverDownload.CoverSource | data/aggiungi_copertine.py:35-40 | the source is `cover` when non-empty, otherwise `cover_url`; with both empty nothing is downloaded |
| CoverDownload.FileName | data/aggiungi_copertine.py:42 | the file name ends in ".jpg" and contains no forbidden character |
| CoverDownload.FileNameStaysInFolder | data/aggiungi_copertine.py:42-45 | the file name holds no "/" and is neither "." nor "..", so POSIX `os.path.join` puts it directly in the covers folder |
| CoverDownload.ProcessBook | data/aggiungi_copertine.py:32-51 | with no source, nothing is downloaded. Otherwise the path is `join(folder, name)` and the step is "already present" exactly when that path exists. A download fetches the chosen source |

## Left out

- HTTP: `requests.get`, the headers, the timeouts and `raise_for_status`. A fetch is a function from URL to an optional parsed page, so the model does not distinguish a network error from an HTTP error.
- HTML parsing: BeautifulSoup and the CSS selector engine are a foreign library. Their results are inputs. `IbsCover.FirstCoverImage` models the one attribute selector whose logic matters.
- `quote`: percent-encoding is a library call and is a function parameter.
- The catalog file: `os.path.exists`, `open`, `json.load` and `json.dump`, including the missing-file early return. The catalog is an array of records, and a rewrite is a snapshot in a ghost log.
- Record fields: each is a string, and an absent key reads as `""`. JSON `null` is not modelled separately, and is read as `""` too. For a null `cover_url`, `title` or `cover` that is what the scripts do, because `None` is falsy like `""` (scripts/aggiungi_copertine.py:131 and :135, data/aggiungi_copertine.py:35). For a null `author` it is not: the script formats `None` into the query, so it searches for `title + " None"`, while the model searches for `title + " "`. In `process_book`, a null title or author makes `re.sub` raise, but only for a record that has a download source: a record without one returns at data/aggiungi_copertine.py:37-40 before `re.sub` runs.
- Other non-string JSON values are not modelled. What they do in the scripts:
  - A falsy `cover_url` (`0`, `0.0`, `false`, `[]`, `{}`) stops the test at scripts/aggiungi_copertine.py:131 before `.strip()`. The record is then looked up and its `cover_url` overwritten, as the model does for `""`.
  - A truthy non-string `cover_url` (a non-zero number, `true`, a non-empty list or object) makes `.strip()` raise there. Line 131 is outside any `try`, so the raise ends the whole pass, and `books.json` keeps the rewrites made before it.
  - In `process_book`, a non-string title or author makes `re.sub` raise, again only for a record that has a download source (data/aggiungi_copertine.py:37-42).
- Lone surrogates: a Python `str` may hold them (`json.load` produces one from a `\ud800` escape), but a Dafny `char` cannot. On such a title or author `quote` raises at scripts/aggiungi_copertine.py:24, outside the `try`. Strings in the model hold Unicode scalar values only.
- `time.sleep(2)` and all printing, including the `processed` counter, which only feeds the progress messages.
- `download_image`'s streaming loop, `os.makedirs` and the `ThreadPoolExecutor` in `main`: I/O and concurrency. The covers folder path is a parameter.
- Python exceptions other than the missing href are not modelled. They come from the I/O above or from the field values just described.
- Nothing is left out of the title test, but note its edge case: `not title` skips only an empty title, so a title made only of spaces is looked up like any other.
- `os.path.join` is modelled for POSIX only (`CoverDownload.Join`). On Windows a backslash, which `sanitize_filename` keeps, would put the file in a subfolder; `CoverDownload.FileNameStaysInFolder` does not cover that case.
