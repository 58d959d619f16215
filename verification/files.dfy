/**
 * The upload tree, as the set of web paths (`/uploads/…`) of the files that
 * currently exist, and the extension checks that guard writes to it.
 */
module Files {
  import Text

  type Disk = set<string>

  /** An uploaded form part that carries a file; its bytes are not modelled. */
  datatype Upload = Upload(filename: string)

  /** `os.path.splitext(name)[1].lower()`. */
  function LowerExt(name: string): (e: string)
    ensures e == "" || e[0] == '.'
    ensures |e| == |Text.Ext(name)|
  {
    Text.Lower(Text.Ext(name))
  }

  /**
   * `if os.path.exists(p): try: os.remove(p) except OSError: pass`. A removal
   * can fail (permissions, a locked file); `undeletable` says which would.
   */
  function RemoveBestEffort(disk: Disk, path: string, undeletable: set<string>): (d: Disk)
    ensures d <= disk
    ensures path in undeletable ==> d == disk
    ensures path !in undeletable ==> d == disk - {path}
  {
    if path in disk && path !in undeletable then disk - {path} else disk
  }

  /** Best-effort removal of every path in `paths`, in order. */
  function RemoveAllBestEffort(disk: Disk, paths: seq<string>, undeletable: set<string>): (d: Disk)
    ensures forall p :: p in d <==> p in disk && (p !in paths || p in undeletable)
    decreases |paths|
  {
    if |paths| == 0 then disk
    else RemoveAllBestEffort(RemoveBestEffort(disk, paths[0], undeletable), paths[1..], undeletable)
  }
}
