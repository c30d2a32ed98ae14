/** A log's directory. Files are byte sequences; writing one never fails. */
module Files {
  import opened Bytes

  type FileMap = map<string, Bytes>

  /** The two directories agree on every file not named in `names`. */
  ghost predicate SameExcept(a: FileMap, b: FileMap, names: set<string>) {
    forall n | n !in names :: (n in a <==> n in b) && (n in a ==> a[n] == b[n])
  }

  function FileOr(files: FileMap, name: string): Bytes {
    if name in files then files[name] else []
  }

  class Directory {
    var files: FileMap
    var present: bool

    /** Open a file, creating it when it is missing. */
    method OpenOrCreate(name: string)
      modifies this`files
      ensures files == old(files)[name := FileOr(old(files), name)]
    {
      if name !in files {
        files := files[name := []];
      }
    }

    /** The names of all files, in some order; `None` when there is no directory. */
    method ReadDir() returns (names: Option<seq<string>>)
      ensures names.Some? <==> present
      ensures names.Some? ==> multiset(names.value) == multiset(files.Keys)
    {
      if !present {
        return None;
      }
      var rest, listed := files.Keys, [];
      while rest != {}
        invariant rest <= files.Keys
        invariant multiset(listed) + multiset(rest) == multiset(files.Keys)
        decreases rest
      {
        var n :| n in rest;
        rest, listed := rest - {n}, listed + [n];
      }
      return Some(listed);
    }

    method RemoveAll()
      modifies this
      ensures files == map[] && !present
    {
      files := map[];
      present := false;
    }
  }
}
