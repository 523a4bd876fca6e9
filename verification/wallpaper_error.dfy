/** The closed set of failures of a wallpaper change, and the message each
    one is displayed with. */
module WallpaperErrors {
  import opened Types

  datatype WallpaperError =
    | CommandError(cause: IoError)
    | DirectoryNotFound
    | ImageNotFound
    | InvalidPath

  const CommandErrorPrefix := "error trying to set GNOME setting: "
  const DirectoryNotFoundMessage := "directory not found"
  const ImageNotFoundMessage := "unable to find a JPEG or PNG"
  const InvalidPathMessage := "does not appear to be valid path"

  /** `Display for WallpaperError`: a fixed text per kind, and for a command
      failure the fixed prefix followed by the cause's own text. */
  function Message(e: WallpaperError): (m: string)
    ensures e.CommandError? <==> CommandErrorPrefix <= m
    ensures e.CommandError? ==> m[|CommandErrorPrefix|..] == e.cause.detail
  {
    match e
    case CommandError(err) => CommandErrorPrefix + err.detail
    case DirectoryNotFound => DirectoryNotFoundMessage
    case ImageNotFound => ImageNotFoundMessage
    case InvalidPath => InvalidPathMessage
  }

  /** Recovers the error kind (and a command failure's cause) from a message. */
  function ParseMessage(m: string): (r: Option<WallpaperError>)
    ensures r.Some? ==> Message(r.value) == m
  {
    if m == DirectoryNotFoundMessage then Some(DirectoryNotFound)
    else if m == ImageNotFoundMessage then Some(ImageNotFound)
    else if m == InvalidPathMessage then Some(InvalidPath)
    else if CommandErrorPrefix <= m then Some(CommandError(IoError(m[|CommandErrorPrefix|..])))
    else None
  }

  /** The kind and the cause's text are recovered from every message, so
      the kind stays visible to whoever reads the message. */
  lemma MessageRoundTrip(e: WallpaperError)
    ensures ParseMessage(Message(e)) == Some(e)
  {
  }

  /** Equal messages mean the same kind and the same cause text. */
  lemma MessageInjective(e1: WallpaperError, e2: WallpaperError)
    requires Message(e1) == Message(e2)
    ensures e1 == e2
  {
    MessageRoundTrip(e1);
    MessageRoundTrip(e2);
  }
}
