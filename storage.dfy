/**
 * The part of the file system the converter touches: files and directories
 * keyed by their resolved path, and the `Path.resolve()` mapping from any
 * path to that key.
 */
module Storage {
  import opened Paths

  datatype Node = File(data: seq<bv8>) | Directory

  class FileSystem {
    /** What is stored, keyed by resolved path. */
    var nodes: map<string, Node>
    /** `str(Path(p).resolve())`: absolute, with every link followed. */
    const resolve: string -> string

    constructor (nodes0: map<string, Node>, resolve: string -> string)
      ensures nodes == nodes0 && this.resolve == resolve
    {
      nodes := nodes0;
      this.resolve := resolve;
    }

    /** `Path.exists()`: something is stored where the path leads. */
    predicate Exists(path: string): (r: bool)
      reads this
      ensures r <==> IsFile(path) || IsDirectory(path)
    {
      resolve(path) in nodes
    }

    predicate IsFile(path: string)
      reads this
    {
      resolve(path) in nodes && nodes[resolve(path)].File?
    }

    predicate IsDirectory(path: string)
      reads this
    {
      resolve(path) in nodes && nodes[resolve(path)].Directory?
    }

    /** Whether `open(path, "wb")` succeeds: the parent is a directory and the path itself is not. */
    predicate Writable(path: string)
      reads this
    {
      var key := resolve(path);
      Parent(key) in nodes && nodes[Parent(key)].Directory? && !IsDirectory(path)
    }

    /** `open(path, "wb")` and copying `data` into it: the file is created or truncated and filled. */
    method WriteFile(path: string, data: seq<bv8>) returns (ok: bool)
      modifies this
      ensures ok == old(Writable(path))
      ensures ok ==> nodes == old(nodes)[resolve(path) := File(data)]
      ensures !ok ==> nodes == old(nodes)
    {
      ok := Writable(path);
      if ok {
        nodes := nodes[resolve(path) := File(data)];
      }
    }

    /** `os.remove` and `Path.unlink`: a file is removed; a missing path or a directory raises. */
    method Remove(path: string) returns (ok: bool)
      modifies this
      ensures ok == old(IsFile(path))
      ensures ok ==> nodes == old(nodes) - {resolve(path)}
      ensures !ok ==> nodes == old(nodes)
    {
      ok := IsFile(path);
      if ok {
        nodes := nodes - {resolve(path)};
      }
    }
  }
}
