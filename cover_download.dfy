/** The per-book part of the cover download script (data/aggiungi_copertine.py):
    `sanitize_filename` and the decisions of `process_book`: which URL to fetch, under which
    file name, and whether to fetch at all. The download itself is left out. */
module CoverDownload {
  import opened Wrappers
  import opened Text
  import opened Books

  // The regex character class of `sanitize_filename`: slash, star, question mark, colon,
  // double quote, less-than, greater-than and bar. Its `\/` is an escaped slash, so a
  // backslash is not in the class and is kept.
  predicate Forbidden(c: char) {
    c in "/*?:\"<>|"
  }

  /** `s` holds no forbidden character. */
  predicate Clean(s: string) {
    forall i :: 0 <= i < |s| ==> !Forbidden(s[i])
  }

  lemma CleanConcat(a: string, b: string)
    requires Clean(a) && Clean(b)
    ensures Clean(a + b)
  {
    forall i | 0 <= i < |a + b| ensures !Forbidden((a + b)[i]) {
      if i >= |a| {
        assert (a + b)[i] == b[i - |a|];
      }
    }
  }

  /** `sanitize_filename(s)`: `s` with every forbidden character deleted, so never longer
      than `s`. */
  function SanitizeFilename(s: string): (r: string)
    ensures |r| <= |s|
  {
    if s == [] then []
    else (if Forbidden(s[0]) then [] else [s[0]]) + SanitizeFilename(s[1..])
  }

  /** No forbidden character is left. */
  lemma {:induction false} SanitizeClean(s: string)
    ensures Clean(SanitizeFilename(s))
  {
    if s != [] {
      SanitizeClean(s[1..]);
      CleanConcat(if Forbidden(s[0]) then [] else [s[0]], SanitizeFilename(s[1..]));
    }
  }

  /** Only forbidden characters are deleted: every other character occurs in the result
      as often as in `s`, and no forbidden one is left. */
  lemma {:induction false} SanitizeKeepsOthers(s: string)
    ensures forall c :: !Forbidden(c) ==> multiset(SanitizeFilename(s))[c] == multiset(s)[c]
    ensures forall c :: Forbidden(c) ==> multiset(SanitizeFilename(s))[c] == 0
  {
    if s != [] {
      SanitizeKeepsOthers(s[1..]);
      assert s == [s[0]] + s[1..];
      var head := if Forbidden(s[0]) then [] else [s[0]];
      assert SanitizeFilename(s) == head + SanitizeFilename(s[1..]);
    }
  }

  /** Sanitizing works character by character, left to right: the kept characters stay in
      their order. */
  lemma {:induction false} SanitizeConcat(a: string, b: string)
    ensures SanitizeFilename(a + b) == SanitizeFilename(a) + SanitizeFilename(b)
  {
    if a == [] {
      assert a + b == b;
    } else {
      assert (a + b)[0] == a[0] && (a + b)[1..] == a[1..] + b;
      SanitizeConcat(a[1..], b);
    }
  }

  /** A string is left unchanged exactly when it holds no forbidden character. */
  lemma {:induction false} SanitizeFixpoint(s: string)
    ensures SanitizeFilename(s) == s <==> Clean(s)
  {
    SanitizeClean(s);
    if s != [] && Clean(s) {
      assert Clean(s[1..]) by {
        forall i | 0 <= i < |s[1..]| ensures !Forbidden(s[1..][i]) {
          assert s[1..][i] == s[i + 1];
        }
      }
      SanitizeFixpoint(s[1..]);
    }
  }

  /** Sanitizing twice is sanitizing once. */
  lemma SanitizeIdempotent(s: string)
    ensures SanitizeFilename(SanitizeFilename(s)) == SanitizeFilename(s)
  {
    SanitizeClean(s);
    SanitizeFixpoint(SanitizeFilename(s));
  }

  /** `book.get('cover') or book.get('cover_url')`: `cover` when it is non-empty, otherwise
      `cover_url`; `None` when both are empty and nothing is to be downloaded. */
  function CoverSource(b: Book): (r: Option<string>)
    ensures r.None? <==> b.cover == "" && b.coverUrl == ""
    ensures b.cover != "" ==> r == Some(b.cover)
    ensures b.cover == "" && b.coverUrl != "" ==> r == Some(b.coverUrl)
  {
    if b.cover != "" then Some(b.cover)
    else if b.coverUrl != "" then Some(b.coverUrl)
    else None
  }

  /** The cover's file name: the sanitized title and author joined by "_", with ".jpg". */
  function FileName(title: string, author: string): (r: string)
    ensures EndsWith(r, ".jpg")
    ensures Clean(r)
  {
    var t, a := SanitizeFilename(title), SanitizeFilename(author);
    SanitizeClean(title);
    SanitizeClean(author);
    CleanConcat(t, "_");
    CleanConcat(t + "_", a);
    CleanConcat(t + "_" + a, ".jpg");
    t + "_" + a + ".jpg"
  }

  /** `os.path.join(dir, name)` on POSIX, for two parts. */
  function Join(dir: string, name: string): string {
    if StartsWith(name, "/") then name
    else if dir == "" || EndsWith(dir, "/") then dir + name
    else dir + "/" + name
  }

  /** A cover's file name is a single path component: no separator, and neither "." nor
      "..". So the cover is written directly inside the covers folder. */
  lemma FileNameStaysInFolder(folder: string, title: string, author: string)
    ensures var name := FileName(title, author);
            && (forall i :: 0 <= i < |name| ==> name[i] != '/')
            && name != "." && name != ".."
            && Join(folder, name) == (if folder == "" || EndsWith(folder, "/") then folder + name else folder + "/" + name)
  {
    var name := FileName(title, author);
    assert Forbidden('/');
    assert |name| >= 4 && !Forbidden(name[0]);
  }

  /** What `process_book` does with one record. */
  datatype Step =
    | NothingToDownload                    // neither `cover` nor `cover_url`
    | AlreadyPresent(path: string)         // the target path exists
    | Download(url: string, path: string)  // `download_image(url, path)`

  /** `process_book(book)`, with `folder` the covers folder and `existing` the paths that
      already exist there. */
  function ProcessBook(b: Book, folder: string, existing: set<string>): (r: Step)
    ensures r.NothingToDownload? <==> b.cover == "" && b.coverUrl == ""
    ensures !r.NothingToDownload? ==> r.path == Join(folder, FileName(b.title, b.author))
    ensures r.AlreadyPresent? <==> !r.NothingToDownload? && r.path in existing
    ensures r.Download? ==> Some(r.url) == CoverSource(b)
  {
    match CoverSource(b)
    case None => NothingToDownload
    case Some(url) =>
      var path := Join(folder, FileName(b.title, b.author));
      if path in existing then AlreadyPresent(path) else Download(url, path)
  }
}
