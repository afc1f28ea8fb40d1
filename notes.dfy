/** The record every component in this model shares: one row of the `notes` table. */
module Notes {

  /** `T | null`: None stands for null. */
  datatype Option<+T> = None | Some(value: T)

  /** A row of the `notes` table. The ISO-8601 timestamps are kept as the
      millisecond counts `new Date(..).getTime()` turns them into. */
  datatype Note = Note(
    id: string,
    title: string,
    content: string,
    summary: Option<string>,
    createdAt: int,
    updatedAt: int,
    userId: string
  )
}
