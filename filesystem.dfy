/**
 * The part of the file system the extension touches: files with text
 * content and directories, addressed by paths that are sequences of names
 * from the root. The pure functions give each call's effect on a state;
 * the class `Disk` is the mutable file system the commands work on.
 */
module FileSystem {
  import opened Wrappers

  /** A path from the root; `[]` is the root directory. */
  type Path = seq<string>

  /** The error codes the calls of the model can fail with. */
  datatype FsError =
    | NoSuchEntry(path: Path)      // ENOENT
    | NotADirectory(path: Path)    // ENOTDIR
    | AlreadyExists(path: Path)    // EEXIST
    | IsADirectory(path: Path)     // EISDIR

  datatype State = State(files: map<Path, string>, dirs: set<Path>)

  function Parent(p: Path): Path
    requires |p| > 0
  {
    p[..|p| - 1]
  }

  /**
   * A well-formed tree: the root is a directory, every directory but the
   * root and every file sits in a directory, and no path is both.
   */
  predicate ValidState(s: State) {
    && [] in s.dirs
    && (forall d :: d in s.dirs && |d| > 0 ==> Parent(d) in s.dirs)
    && (forall p :: p in s.files ==> |p| > 0 && Parent(p) in s.dirs && p !in s.dirs)
  }

  /** `fs.existsSync`: a file or a directory is there. */
  predicate Exists(s: State, p: Path) {
    p in s.files || p in s.dirs
  }

  /** `d` itself and all its ancestors. */
  function Prefixes(d: Path): (r: set<Path>)
    ensures forall p :: p in r <==> |p| <= |d| && d[..|p|] == p
  {
    set k | 0 <= k <= |d| :: d[..k]
  }

  /** In a well-formed tree every ancestor of a directory is a directory. */
  lemma {:induction false} DirAncestors(s: State, d: Path)
    requires ValidState(s) && d in s.dirs
    ensures forall p :: p in Prefixes(d) ==> p in s.dirs
    decreases |d|
  {
    if |d| > 0 {
      DirAncestors(s, Parent(d));
      forall p | p in Prefixes(d) ensures p in s.dirs {
        if |p| < |d| {
          assert p in Prefixes(Parent(d));
        }
      }
    }
  }

  /** The names of the files directly inside `d`. */
  function FileNames(s: State, d: Path): (r: set<string>)
    ensures forall n :: n in r <==> d + [n] in s.files
  {
    var r := set p | p in s.files && |p| == |d| + 1 && p[..|d|] == d :: p[|d|];
    assert forall n :: d + [n] in s.files ==> n in r by {
      forall n | d + [n] in s.files ensures n in r {
        var p := d + [n];
        assert p[..|d|] == d && p[|d|] == n;
      }
    }
    assert forall n :: n in r ==> d + [n] in s.files by {
      forall n | n in r ensures d + [n] in s.files {
        var p :| p in s.files && |p| == |d| + 1 && p[..|d|] == d && p[|d|] == n;
        assert p == d + [n];
      }
    }
    r
  }

  /** `fs.promises.mkdir(d, { recursive: true })`. */
  function MkdirAll(s: State, d: Path): (r: Result<State, FsError>)
    ensures r.Success? <==> forall p :: p in Prefixes(d) ==> p !in s.files
    ensures r.Success? ==> r.value == State(s.files, s.dirs + Prefixes(d)) && d in r.value.dirs
    ensures r.Success? && ValidState(s) ==> ValidState(r.value)
  {
    if d in s.files then Failure(AlreadyExists(d))
    else if exists p :: p in Prefixes(d) && p in s.files then Failure(NotADirectory(d))
    else
      var r := State(s.files, s.dirs + Prefixes(d));
      assert forall q :: q in Prefixes(d) && |q| > 0 ==> Parent(q) in Prefixes(d);
      Success(r)
  }

  /**
   * `fs.promises.rename(src, dst)` for a file `src`: POSIX semantics, so a
   * file already at `dst` is replaced and renaming a file onto itself does
   * nothing.
   */
  function Rename(s: State, src: Path, dst: Path): (r: Result<State, FsError>)
    ensures r.Success? <==> src in s.files && dst !in s.dirs && |dst| > 0 && Parent(dst) in s.dirs
    ensures r.Success? ==> r.value.dirs == s.dirs
    ensures r.Success? ==> dst in r.value.files && r.value.files[dst] == s.files[src]
    ensures r.Success? && src != dst ==> src !in r.value.files
    ensures r.Success? ==> forall p :: p != src && p != dst ==>
      (p in r.value.files <==> p in s.files) && (p in s.files ==> r.value.files[p] == s.files[p])
    ensures r.Success? && ValidState(s) ==> ValidState(r.value)
  {
    if src !in s.files then Failure(if src in s.dirs then IsADirectory(src) else NoSuchEntry(src))
    else if dst in s.dirs || |dst| == 0 then Failure(IsADirectory(dst))
    else if Parent(dst) !in s.dirs then
      Failure(if Parent(dst) in s.files then NotADirectory(dst) else NoSuchEntry(dst))
    else if src == dst then Success(s)
    else Success(State((s.files - {src})[dst := s.files[src]], s.dirs))
  }

  /** `fs.promises.writeFile(p, content)`: creates the file or replaces its content. */
  function WriteFile(s: State, p: Path, content: string): (r: Result<State, FsError>)
    ensures r.Success? <==> p !in s.dirs && |p| > 0 && Parent(p) in s.dirs
    ensures r.Success? ==> r.value == State(s.files[p := content], s.dirs)
    ensures r.Success? && ValidState(s) ==> ValidState(r.value)
  {
    if p in s.dirs || |p| == 0 then Failure(IsADirectory(p))
    else if Parent(p) !in s.dirs then
      Failure(if Parent(p) in s.files then NotADirectory(p) else NoSuchEntry(p))
    else Success(State(s.files[p := content], s.dirs))
  }

  /** The file system: a map from file paths to contents and a set of directories. */
  class Disk {
    var files: map<Path, string>
    var dirs: set<Path>

    function Snapshot(): State
      reads this
    {
      State(files, dirs)
    }

    ghost predicate Valid()
      reads this
    {
      ValidState(Snapshot())
    }

    predicate ExistsSync(p: Path)
      reads this
    {
      Exists(Snapshot(), p)
    }

    method Mkdir(d: Path) returns (r: Outcome<FsError>)
      requires Valid()
      modifies this
      ensures Valid()
      ensures MkdirAll(old(Snapshot()), d).Success? ==> r == Pass && Snapshot() == MkdirAll(old(Snapshot()), d).value
      ensures MkdirAll(old(Snapshot()), d).Failure? ==> r == Fail(MkdirAll(old(Snapshot()), d).error) && Snapshot() == old(Snapshot())
    {
      var res := MkdirAll(Snapshot(), d);
      if res.Success? {
        files, dirs := res.value.files, res.value.dirs;
        r := Pass;
      } else {
        r := Fail(res.error);
      }
    }

    method Move(src: Path, dst: Path) returns (r: Outcome<FsError>)
      requires Valid()
      modifies this
      ensures Valid()
      ensures Rename(old(Snapshot()), src, dst).Success? ==> r == Pass && Snapshot() == Rename(old(Snapshot()), src, dst).value
      ensures Rename(old(Snapshot()), src, dst).Failure? ==> r == Fail(Rename(old(Snapshot()), src, dst).error) && Snapshot() == old(Snapshot())
    {
      var res := Rename(Snapshot(), src, dst);
      if res.Success? {
        files, dirs := res.value.files, res.value.dirs;
        r := Pass;
      } else {
        r := Fail(res.error);
      }
    }

    method Write(p: Path, content: string) returns (r: Outcome<FsError>)
      requires Valid()
      modifies this
      ensures Valid()
      ensures WriteFile(old(Snapshot()), p, content).Success? ==> r == Pass && Snapshot() == WriteFile(old(Snapshot()), p, content).value
      ensures WriteFile(old(Snapshot()), p, content).Failure? ==> r == Fail(WriteFile(old(Snapshot()), p, content).error) && Snapshot() == old(Snapshot())
    {
      var res := WriteFile(Snapshot(), p, content);
      if res.Success? {
        files, dirs := res.value.files, res.value.dirs;
        r := Pass;
      } else {
        r := Fail(res.error);
      }
    }

    /**
     * `fs.promises.readdir(d)`, restricted to the files of `d`: every name
     * once, in an order the model leaves open.
     */
    method ReadDir(d: Path) returns (r: Result<seq<string>, FsError>)
      ensures r.Success? <==> d in dirs
      ensures r.Failure? ==> r.error == (if d in files then NotADirectory(d) else NoSuchEntry(d))
      ensures r.Success? ==> (forall i, j :: 0 <= i < j < |r.value| ==> r.value[i] != r.value[j])
      ensures r.Success? ==> forall n :: n in r.value <==> d + [n] in files
    {
      if d !in dirs {
        return Failure(if d in files then NotADirectory(d) else NoSuchEntry(d));
      }
      var left := FileNames(Snapshot(), d);
      var names: seq<string> := [];
      while left != {}
        invariant forall n :: n in names || n in left <==> d + [n] in files
        invariant forall n :: n in names ==> n !in left
        invariant forall i, j :: 0 <= i < j < |names| ==> names[i] != names[j]
        decreases left
      {
        var n :| n in left;
        names := names + [n];
        left := left - {n};
      }
      return Success(names);
    }
  }
}
