/** The document store: one table per collection and the identifier source. */
module Db {
  import opened Tables
  import opened Records

  datatype Store = Store(
    users: seq<Row<User>>,
    courses: seq<Row<Course>>,
    lessons: seq<Row<Lesson>>,
    assignments: seq<Row<Assignment>>,
    submissions: seq<Row<Submission>>,
    enrollments: seq<Row<Enrollment>>,
    nextId: Id)

  const EmptyStore := Store([], [], [], [], [], [], 0)

  /** A successful call's effect: the store it leaves and the body it sends. */
  datatype Reply<T> = Reply(store: Store, body: T)
}
