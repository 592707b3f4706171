/** The records the blog application passes around. */
module BlogTypes {
  import opened Wrappers

  /** A post as the API returns it. */
  datatype Blog = Blog(userId: int, id: int, title: string, body: string)

  /** An author as the API returns it. */
  datatype User = User(id: int, name: string, email: string, username: string)

  /**
   * The instant `createdAt` names, as the store computes it: so many days
   * before the moment of the fetch. The clock and the ISO-8601 text are not
   * modelled.
   */
  datatype Timestamp = DaysBeforeNow(days: int)

  /**
   * A post with what the store adds to it; each addition may be absent
   * (`author` stays absent until the authors are attached).
   */
  datatype BlogWithAuthor = BlogWithAuthor(
    userId: int,
    id: int,
    title: string,
    body: string,
    author: Option<User>,
    tags: Option<seq<string>>,
    readTime: Option<int>,
    createdAt: Option<Timestamp>)

  /** `b` carries the four fields of the post `p` unchanged. */
  predicate Extends(b: BlogWithAuthor, p: Blog)
  {
    b.userId == p.userId && b.id == p.id && b.title == p.title && b.body == p.body
  }
}
