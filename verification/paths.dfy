/** File-system paths as the server builds them, and the file system itself
    as a set of predicates supplied from outside. */
module Paths {
  /** The file-system queries the handlers make (`Path::is_dir`, `is_file` and
      `exists`, here `present`), answered by the environment. */
  datatype FileSystem = FileSystem(
    isDir: string -> bool,
    isFile: string -> bool,
    present: string -> bool)

  /** `Path::join` on Unix: an absolute `p` replaces `base`; otherwise a `/`
      is inserted unless `base` is empty or already ends with one. */
  function PathJoin(base: string, p: string): (r: string)
    ensures |r| >= |p| && r[|r| - |p|..] == p
    ensures (|p| == 0 || p[0] != '/') ==> |r| >= |base| && r[..|base|] == base
  {
    if |p| > 0 && p[0] == '/' then p
    else if |base| == 0 || base[|base| - 1] == '/' then base + p
    else base + "/" + p
  }
}
