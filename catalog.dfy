/** `enrich_books_with_ibs_covers` (scripts/aggiungi_copertine.py): one pass over the loaded
    catalog that asks the resolver for the records without a cover, sets `cover_url` in place
    when it answers, and rewrites the whole catalog after every record it asked about.

    The resolver is a parameter (the script calls `get_cover_from_ibs`; `IbsResolver` below
    is that choice). A rewrite of `books.json` is recorded as the snapshot of the catalog it
    writes, a resolver call as its (title, author) pair. */
module CatalogEnricher {
  import opened Text
  import opened Books
  import opened Wrappers
  import IbsCover

  type Resolver = (string, string) -> string

  /** The record already carries a cover: its `cover_url` has a non-whitespace character.
      `HasCoverIsStripTest` shows this is the script's test
      `book.get("cover_url") and book.get("cover_url").strip()`. */
  predicate HasCover(b: Book) {
    !AllSpace(b.coverUrl)
  }

  lemma HasCoverIsStripTest(b: Book)
    ensures HasCover(b) <==> b.coverUrl != "" && Strip(b.coverUrl) != ""
  {
    StripEmptyIffAllSpace(b.coverUrl);
  }

  /** The record reaches the resolver: no cover yet, and a non-empty title. */
  predicate NeedsLookup(b: Book) {
    !HasCover(b) && b.title != ""
  }

  /** The record reaches the resolver and the resolver finds a cover. */
  predicate GetsCover(b: Book, resolve: Resolver) {
    NeedsLookup(b) && resolve(b.title, b.author) != ""
  }

  /** One iteration of the loop, on one record. Only `cover_url` can change, and only to
      the resolver's non-empty answer for a record that reached it. */
  function Refreshed(b: Book, resolve: Resolver): (r: Book)
    ensures r.title == b.title && r.author == b.author && r.cover == b.cover
    ensures r != b ==> NeedsLookup(b) && r.coverUrl == resolve(b.title, b.author) != ""
    ensures !NeedsLookup(b) ==> r == b
    ensures GetsCover(b, resolve) ==> r.coverUrl == resolve(b.title, b.author)
  {
    if GetsCover(b, resolve) then b.(coverUrl := resolve(b.title, b.author)) else b
  }

  /** The catalog once the first `n` records have been processed. */
  function Progress(s: seq<Book>, n: nat, resolve: Resolver): seq<Book>
    requires n <= |s|
  {
    seq(|s|, k requires 0 <= k < |s| => if k < n then Refreshed(s[k], resolve) else s[k])
  }

  /** Processing record `n` replaces it, still untouched, by its refreshed version. */
  lemma ProgressStep(s: seq<Book>, n: nat, resolve: Resolver)
    requires n < |s|
    ensures Progress(s, n, resolve)[n] == s[n]
    ensures Progress(s, n + 1, resolve) == Progress(s, n, resolve)[n := Refreshed(s[n], resolve)]
    ensures !GetsCover(s[n], resolve) ==> Progress(s, n + 1, resolve) == Progress(s, n, resolve)
  {
  }

  /** How processing record `n` extends the counter, the call log and the save log. */
  lemma LogsStep(s: seq<Book>, n: nat, resolve: Resolver)
    requires n < |s|
    ensures UpdatedCount(s, n + 1, resolve) == UpdatedCount(s, n, resolve) + if GetsCover(s[n], resolve) then 1 else 0
    ensures Lookups(s, n + 1) == Lookups(s, n) + if NeedsLookup(s[n]) then [(s[n].title, s[n].author)] else []
    ensures Saves(s, n + 1, resolve) == Saves(s, n, resolve) + if NeedsLookup(s[n]) then [Progress(s, n + 1, resolve)] else []
  {
  }

  /** The catalog after the whole pass. */
  function Enriched(s: seq<Book>, resolve: Resolver): seq<Book> {
    Progress(s, |s|, resolve)
  }

  /** `updated` after the first `n` records. */
  function UpdatedCount(s: seq<Book>, n: nat, resolve: Resolver): nat
    requires n <= |s|
  {
    if n == 0 then 0
    else UpdatedCount(s, n - 1, resolve) + if GetsCover(s[n - 1], resolve) then 1 else 0
  }

  /** The resolver calls made on the first `n` records, in order. */
  function Lookups(s: seq<Book>, n: nat): seq<(string, string)>
    requires n <= |s|
  {
    if n == 0 then []
    else Lookups(s, n - 1) + if NeedsLookup(s[n - 1]) then [(s[n - 1].title, s[n - 1].author)] else []
  }

  /** The rewrites of the catalog file made while processing the first `n` records: one
      after each record that reached the resolver, holding the catalog as it then is. */
  function Saves(s: seq<Book>, n: nat, resolve: Resolver): seq<seq<Book>>
    requires n <= |s|
  {
    if n == 0 then []
    else Saves(s, n - 1, resolve) + if NeedsLookup(s[n - 1]) then [Progress(s, n, resolve)] else []
  }

  /** The enrichment loop over the catalog `books`, updated in place. */
  method EnrichBooksWithIbsCovers(books: array<Book>, resolve: Resolver)
    returns (updated: nat, ghost lookups: seq<(string, string)>, ghost saves: seq<seq<Book>>)
    modifies books
    ensures books[..] == Enriched(old(books[..]), resolve)
    ensures updated == UpdatedCount(old(books[..]), books.Length, resolve)
    ensures lookups == Lookups(old(books[..]), books.Length)
    ensures saves == Saves(old(books[..]), books.Length, resolve)
  {
    ghost var s := books[..];
    updated, lookups, saves := 0, [], [];
    for i := 0 to books.Length
      invariant books[..] == Progress(s, i, resolve)
      invariant updated == UpdatedCount(s, i, resolve)
      invariant lookups == Lookups(s, i)
      invariant saves == Saves(s, i, resolve)
    {
      LogsStep(s, i, resolve);
      ProgressStep(s, i, resolve);
      var book := books[i];
      if HasCover(book) {
        continue;
      }
      if book.title == "" {
        continue;
      }
      lookups := lookups + [(book.title, book.author)];
      var coverUrl := resolve(book.title, book.author);
      if coverUrl != "" {
        books[i] := book.(coverUrl := coverUrl);
        updated := updated + 1;
      }
      saves := saves + [books[..]];
    }
  }

  /** The pass never shortens, reorders or drops records, and changes nothing in a record
      but `cover_url`: a record with a cover or without a title is left as it was, and
      any other gets the resolver's answer exactly when that answer is non-empty. */
  lemma EnrichedKeepsRecords(s: seq<Book>, resolve: Resolver)
    ensures |Enriched(s, resolve)| == |s|
    ensures forall k :: 0 <= k < |s| ==>
              var b, e := s[k], Enriched(s, resolve)[k];
              && e.title == b.title && e.author == b.author && e.cover == b.cover
              && (!NeedsLookup(b) ==> e == b)
              && (NeedsLookup(b) && resolve(b.title, b.author) == "" ==> e == b)
              && (NeedsLookup(b) && resolve(b.title, b.author) != "" ==> e.coverUrl == resolve(b.title, b.author))
  {
  }

  /** `updated` never exceeds the number of resolver calls, which never exceeds the number
      of records seen. */
  lemma {:induction false} UpdatedCountBounds(s: seq<Book>, n: nat, resolve: Resolver)
    requires n <= |s|
    ensures UpdatedCount(s, n, resolve) <= |Lookups(s, n)| <= n
  {
    if n > 0 {
      UpdatedCountBounds(s, n - 1, resolve);
    }
  }

  /** The indices, among the first `n`, of the records that receive a cover. */
  ghost function CoveredIndices(s: seq<Book>, n: nat, resolve: Resolver): set<int>
    requires n <= |s|
  {
    set k | 0 <= k < n && GetsCover(s[k], resolve)
  }

  /** Processing record `n - 1` adds its index to the covered ones exactly when it gets a
      cover. */
  lemma CoveredIndicesStep(s: seq<Book>, n: nat, resolve: Resolver)
    requires 0 < n <= |s|
    ensures CoveredIndices(s, n, resolve) ==
            CoveredIndices(s, n - 1, resolve) + if GetsCover(s[n - 1], resolve) then {n - 1} else {}
    ensures n - 1 !in CoveredIndices(s, n - 1, resolve)
  {
    var before, after := CoveredIndices(s, n - 1, resolve), CoveredIndices(s, n, resolve);
    forall k | k in after ensures k in before || k == n - 1 {}
  }

  /** `updated` at the end is the number of records that received a cover. */
  lemma {:induction false} UpdatedCountIsCoveredRecords(s: seq<Book>, n: nat, resolve: Resolver)
    requires n <= |s|
    ensures UpdatedCount(s, n, resolve) == |set k | 0 <= k < n && GetsCover(s[k], resolve)|
  {
    if n > 0 {
      UpdatedCountIsCoveredRecords(s, n - 1, resolve);
      CoveredIndicesStep(s, n, resolve);
      assert CoveredIndices(s, n - 1, resolve) == set k | 0 <= k < n - 1 && GetsCover(s[k], resolve);
    }
  }

  /** The resolver is asked about every record that needs a lookup and about nothing else. */
  lemma {:induction false} LookupsAreEligibleRecords(s: seq<Book>, n: nat)
    requires n <= |s|
    ensures forall k :: 0 <= k < n && NeedsLookup(s[k]) ==> (s[k].title, s[k].author) in Lookups(s, n)
    ensures forall p :: p in Lookups(s, n) ==>
              exists k :: 0 <= k < n && NeedsLookup(s[k]) && p == (s[k].title, s[k].author)
  {
    if n > 0 {
      LookupsAreEligibleRecords(s, n - 1);
      var step := if NeedsLookup(s[n - 1]) then [(s[n - 1].title, s[n - 1].author)] else [];
      assert Lookups(s, n) == Lookups(s, n - 1) + step;
      forall p | p in Lookups(s, n)
        ensures exists k :: 0 <= k < n && NeedsLookup(s[k]) && p == (s[k].title, s[k].author)
      {
        if p !in Lookups(s, n - 1) {
          assert p in step;
        }
      }
    }
  }

  /** The indices, among the first `n`, of the records that reach the resolver. */
  ghost function EligibleIndices(s: seq<Book>, n: nat): set<int>
    requires n <= |s|
  {
    set k | 0 <= k < n && NeedsLookup(s[k])
  }

  /** Processing record `n - 1` adds its index to the eligible ones exactly when it needs a
      lookup. */
  lemma EligibleIndicesStep(s: seq<Book>, n: nat)
    requires 0 < n <= |s|
    ensures EligibleIndices(s, n) ==
            EligibleIndices(s, n - 1) + if NeedsLookup(s[n - 1]) then {n - 1} else {}
    ensures n - 1 !in EligibleIndices(s, n - 1)
  {
    var before, after := EligibleIndices(s, n - 1), EligibleIndices(s, n);
    forall k | k in after ensures k in before || k == n - 1 {}
  }

  /** The pass calls the resolver once per record that needs a lookup, so records sharing a
      title and author are each looked up. */
  lemma {:induction false} LookupsCountEligible(s: seq<Book>, n: nat)
    requires n <= |s|
    ensures |Lookups(s, n)| == |set k | 0 <= k < n && NeedsLookup(s[k])|
  {
    if n > 0 {
      LookupsCountEligible(s, n - 1);
      EligibleIndicesStep(s, n);
      assert EligibleIndices(s, n - 1) == set k | 0 <= k < n - 1 && NeedsLookup(s[k]);
    }
  }

  /** Exactly one full rewrite of the catalog per record that reached the resolver. */
  lemma {:induction false} OneSavePerLookup(s: seq<Book>, n: nat, resolve: Resolver)
    requires n <= |s|
    ensures |Saves(s, n, resolve)| == |Lookups(s, n)|
  {
    if n > 0 {
      OneSavePerLookup(s, n - 1, resolve);
    }
  }

  /** The whole pass rewrites the file exactly once per record that needs a lookup. */
  lemma SavesCountEligible(s: seq<Book>, resolve: Resolver)
    ensures |Saves(s, |s|, resolve)| == |set k | 0 <= k < |s| && NeedsLookup(s[k])|
  {
    OneSavePerLookup(s, |s|, resolve);
    LookupsCountEligible(s, |s|);
  }

  /** The latest rewrite always holds the catalog as it stands in memory, so once the pass
      has called the resolver at all, the file ends up holding the enriched catalog. */
  lemma {:induction false} LastSaveIsCurrent(s: seq<Book>, n: nat, resolve: Resolver)
    requires n <= |s|
    ensures Saves(s, n, resolve) != [] ==> Saves(s, n, resolve)[|Saves(s, n, resolve)| - 1] == Progress(s, n, resolve)
  {
    if n > 0 && !NeedsLookup(s[n - 1]) {
      LastSaveIsCurrent(s, n - 1, resolve);
      assert Progress(s, n, resolve) == Progress(s, n - 1, resolve);
    }
  }

  /** The final rewrite is the enriched catalog. */
  lemma FinalSaveIsEnriched(s: seq<Book>, resolve: Resolver)
    requires Lookups(s, |s|) != []
    ensures Saves(s, |s|, resolve) != []
    ensures Saves(s, |s|, resolve)[|Saves(s, |s|, resolve)| - 1] == Enriched(s, resolve)
  {
    OneSavePerLookup(s, |s|, resolve);
    LastSaveIsCurrent(s, |s|, resolve);
  }

  /** A catalog in which no record needs a lookup goes through the pass untouched: no
      resolver call, no rewrite, no update. */
  lemma {:induction false} NothingToLookUp(s: seq<Book>, n: nat, resolve: Resolver)
    requires n <= |s|
    requires forall k :: 0 <= k < |s| ==> !NeedsLookup(s[k])
    ensures Progress(s, n, resolve) == s
    ensures Lookups(s, n) == [] && Saves(s, n, resolve) == [] && UpdatedCount(s, n, resolve) == 0
  {
    if n > 0 {
      NothingToLookUp(s, n - 1, resolve);
    }
  }

  /** A resolver that never answers with whitespace only. */
  ghost predicate NeverBlank(resolve: Resolver) {
    forall title, author :: resolve(title, author) == "" || !AllSpace(resolve(title, author))
  }

  /** Re-running the pass with the same resolver changes nothing more, provided the
      resolver never answers with whitespace only: every cover it set is then a cover
      the second pass skips. */
  lemma EnrichIdempotent(s: seq<Book>, resolve: Resolver)
    requires NeverBlank(resolve)
    ensures Enriched(Enriched(s, resolve), resolve) == Enriched(s, resolve)
  {
    var e := Enriched(s, resolve);
    forall k | 0 <= k < |s| ensures Refreshed(e[k], resolve) == e[k] {
      if GetsCover(s[k], resolve) {
        assert !AllSpace(e[k].coverUrl);
      }
    }
  }

  /** The resolver the script uses. */
  function IbsResolver(quote: string -> string,
                       search: string -> Option<IbsCover.SearchPage>,
                       detail: string -> Option<IbsCover.DetailPage>): Resolver
  {
    (title, author) => IbsCover.GetCoverFromIbs(title, author, quote, search, detail)
  }

  /** Every cover the script's resolver returns starts with "http", so it is never blank. */
  lemma IbsResolverNeverBlank(quote: string -> string,
                              search: string -> Option<IbsCover.SearchPage>,
                              detail: string -> Option<IbsCover.DetailPage>)
    ensures NeverBlank(IbsResolver(quote, search, detail))
  {
    forall title, author
      ensures IbsResolver(quote, search, detail)(title, author) == "" ||
              !AllSpace(IbsResolver(quote, search, detail)(title, author))
    {
      var r := IbsCover.GetCoverFromIbs(title, author, quote, search, detail);
      if r != "" {
        HttpNotBlank(r);
      }
    }
  }

  lemma HttpNotBlank(url: string)
    requires StartsWith(url, "http")
    ensures !AllSpace(url)
  {
    assert url[0] == url[..4][0] == 'h';
  }

  /** With the script's resolver, over fixed pages, a second run after a first one changes
      nothing: the pass is safe to re-run. */
  lemma IbsEnrichIdempotent(s: seq<Book>, quote: string -> string,
                            search: string -> Option<IbsCover.SearchPage>,
                            detail: string -> Option<IbsCover.DetailPage>)
    ensures var resolve := IbsResolver(quote, search, detail);
            Enriched(Enriched(s, resolve), resolve) == Enriched(s, resolve)
  {
    IbsResolverNeverBlank(quote, search, detail);
    EnrichIdempotent(s, IbsResolver(quote, search, detail));
  }
}
