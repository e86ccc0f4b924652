/**
  Reading the sessions directory, where registry files and key files live.
 */
module Directory {
  import opened Text

  /** What reading it yields. */
  datatype Listing<+E> = NoConfigDir | Missing | Unreadable | Listed(entries: seq<E>)

  datatype ListError = ConfigDirUnknown | DirUnreadable

  /** The entries there are to look at. */
  function Entries<E>(l: Listing<E>): seq<E> { if l.Listed? then l.entries else [] }

  /** Why reading failed; a directory that is missing holds nothing, which is not an error. */
  function Failure<E>(l: Listing<E>): Option<ListError> {
    if l.NoConfigDir? then Some(ConfigDirUnknown)
    else if l.Unreadable? then Some(DirUnreadable)
    else None
  }
}
