/**
 * A directory tree as the scripts see it through `readdir`: each directory
 * lists its entries in the order the listing returns them. A file carries
 * whatever the script reads from it.
 */
module FsTree {
  import opened Wrappers

  datatype Node<C> =
    | File(name: string, data: C)
    | Dir(name: string, children: seq<Node<C>>)
      /** A directory whose listing fails (permissions, a race with a deletion). */
    | LockedDir(name: string)
      /** Neither a regular file nor a directory: a symbolic link, a socket, a device. */
    | Special(name: string)

  predicate IsDirectory<C>(n: Node<C>) {
    n.Dir? || n.LockedDir?
  }

  /** The first entry called `name` in a listing. */
  function Child<C>(entries: seq<Node<C>>, name: string): (r: Option<Node<C>>)
    ensures r.Some? ==> r.value in entries && r.value.name == name
    ensures r.None? ==> forall e :: e in entries ==> e.name != name
  {
    if |entries| == 0 then None
    else if entries[0].name == name then Some(entries[0])
    else Child(entries[1..], name)
  }

  /** The entry reached from a listing by following a relative path. */
  function Lookup<C>(entries: seq<Node<C>>, path: seq<string>): (r: Option<Node<C>>)
    requires |path| > 0
    ensures r.Some? ==> r.value.name == path[|path| - 1]
    decreases |path|
  {
    match Child(entries, path[0])
    case None => None
    case Some(n) =>
      if |path| == 1 then Some(n)
      else if n.Dir? then Lookup(n.children, path[1..])
      else None
  }
}
