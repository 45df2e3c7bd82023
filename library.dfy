/** The records of the library catalog service that the recommender reads. */
module Library {
  import opened Wrappers

  /** Book categories. The enumeration is open: constants beyond the four seeded ones are `Other`. */
  datatype Category = Science | Fantasy | Fiction | History | Other(name: string)

  /** A catalog book; its category may be absent (null). */
  datatype Book = Book(id: int, title: string, author: string, isbn: string, category: Option<Category>)

  datatype User = User(id: int, name: string, email: string)

  datatype Status = ReadingList | Read

  /**
   * One event of the append-only reading-history log: `user` marked `book`
   * with `status`. The same (user, book) pair may occur any number of times.
   */
  datatype Entry = Entry(id: int, user: int, book: Book, status: Status)
}
