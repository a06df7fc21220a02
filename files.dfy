/**
 * The state the fixer works on: the local filesystem, seen as a finite map
 * from a path to the text stored there. A path that is not a key does not
 * exist (`os.path.exists` is false).
 */
module Files {

  type Path = string

  type FileSystem = map<Path, string>

  datatype Option<T> = None | Some(value: T)

  /** The text at `p`, or `default` when `p` does not exist. */
  function ReadOr(fs: FileSystem, p: Path, default: string): (text: string)
    ensures p in fs ==> text == fs[p]
    ensures p !in fs ==> text == default
  {
    if p in fs then fs[p] else default
  }
}
