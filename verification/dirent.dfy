/**
  Directory entries as scandir sees them, and the rule that settles an
  entry's type when the directory stream did not report one.
*/
module Dirent {
  import opened Wrappers

  /** The `d_type` byte: a set of flag bits. */
  type DType = bv8

  const DT_UNKNOWN: DType := 0
  const DT_DIR: DType := 4
  const DT_REG: DType := 8

  /**
    One `struct dirent2`. `ino` stands for the header fields scandir copies
    without looking at them; `namlen` is `d_namlen`; `name` is `d_name`
    without its terminating NUL. Names are byte strings: each `char` of
    `name` (and of a directory name) stands for one byte of the C string,
    and a name holds no NUL byte, as readdir2 yields NUL-terminated names.
    Under that reading `|name|` is what strlen returns. The type does not
    enforce either convention.
  */
  datatype Entry = Entry(ino: nat, dtype: DType, namlen: nat, name: string)

  /**
    The platform's opendir2/readdir2 pair: `None` when the path cannot be
    opened as a directory, otherwise the entries readdir2 yields, in order.
  */
  type FileSystem = string -> Option<seq<Entry>>

  /** The probe scandir uses: does the path open as a directory? */
  predicate IsDirectory(fs: FileSystem, path: string) {
    fs(path).Some?
  }

  /** The directory name, a slash, then the entry name. */
  function FullPath(dirname: string, name: string): string {
    dirname + "/" + name
  }

  /** Either the directory bit or the regular-file bit is set. */
  predicate HasKnownType(t: DType) {
    t & DT_DIR != 0 || t & DT_REG != 0
  }

  /**
    Type resolution: an entry whose type has neither the directory nor the
    regular-file bit gets one of them ORed in, the directory bit exactly
    when its full path opens as a directory. Other bits and fields are kept;
    an entry whose type is already known is returned as it is.
  */
  function Resolve(dirname: string, fs: FileSystem, e: Entry): (r: Entry)
    ensures r.ino == e.ino && r.namlen == e.namlen && r.name == e.name
    ensures HasKnownType(r.dtype)
    ensures r.dtype & e.dtype == e.dtype
    ensures r.dtype & !(DT_DIR | DT_REG) == e.dtype & !(DT_DIR | DT_REG)
    ensures HasKnownType(e.dtype) ==> r == e
    ensures !HasKnownType(e.dtype) ==>
      (r.dtype & DT_DIR != 0 <==> IsDirectory(fs, FullPath(dirname, e.name)))
    ensures !HasKnownType(e.dtype) ==>
      (r.dtype & DT_REG != 0 <==> !IsDirectory(fs, FullPath(dirname, e.name)))
  {
    if HasKnownType(e.dtype) then e
    else if IsDirectory(fs, FullPath(dirname, e.name)) then e.(dtype := e.dtype | DT_DIR)
    else e.(dtype := e.dtype | DT_REG)
  }

  /** The caller-owned copy of an entry, with `d_namlen` set to the name's length. */
  function Duplicate(e: Entry): Entry {
    e.(namlen := |e.name|)
  }

  /**
    Setting `d_namlen` and settling the type touch different fields and read
    only the name and the type, so the order of the two steps in the loop
    body does not matter.
  */
  lemma ResolveDuplicateCommute(dirname: string, fs: FileSystem, e: Entry)
    ensures Duplicate(Resolve(dirname, fs, e)) == Resolve(dirname, fs, Duplicate(e))
    ensures Duplicate(Resolve(dirname, fs, e)).namlen == |e.name|
  {
  }

  /** Resolving twice probes nothing new: the first result already has a known type. */
  lemma ResolveIdempotent(dirname: string, fs: FileSystem, e: Entry)
    ensures Resolve(dirname, fs, Resolve(dirname, fs, e)) == Resolve(dirname, fs, e)
  {
  }
}
