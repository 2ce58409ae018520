/** The book record of `books.json`, shared by both scripts. */
module Books {

  /** One JSON object of the catalog. Every field is a string; a key the object lacks reads
      as `""`, which is how `book.get(key, "")` and the truthiness tests of the scripts see
      it. `cover` is read only by the download script. */
  datatype Book = Book(title: string, author: string, coverUrl: string, cover: string)
}
