/**
 * The archive sweep: every file of the active folder whose name starts with
 * a date older than the threshold moves to `<archive>/<YYYY>/<MM>/` under
 * the same name. `Sweep` gives the effect of a sweep over a given listing;
 * `ArchiveFiles` is the command, a loop over the listing that changes the
 * file system step by step.
 */
module Archive {
  import opened Wrappers
  import opened IsoDate
  import opened FileSystem
  import FilenameCodec

  /** The instant (ms) a file date must lie strictly before: `now - thresholdDays` days. */
  function Cutoff(now: int, thresholdDays: int): int {
    now - MsPerDay * thresholdDays
  }

  /** The largest distance from the epoch, in ms, that a JavaScript `Date` can hold. */
  const MaxTime: int := 8_640_000_000_000_000

  /** `new Date(t)` is a valid date; outside this range its `getTime()` is NaN. */
  predicate InDateRange(t: int) {
    -MaxTime <= t <= MaxTime
  }

  /**
   * The file is moved: its name has the date prefix, the prefix is a valid
   * date, and UTC midnight of that date is strictly before `cutoff`.
   */
  predicate Qualifies(name: string, cutoff: int) {
    MatchesScratchPattern(name) &&
    ParseIsoDate(name[..10]).Some? &&
    ParseIsoDate(name[..10]).value * MsPerDay < cutoff
  }

  /** `archive/<name[0..4]>/<name[5..7]>`: the year and month folder of a dated name. */
  function ArchiveFolder(archive: Path, name: string): Path
    requires |name| >= 7
  {
    archive + [name[0..4], name[5..7]]
  }

  function SourcePath(active: Path, name: string): Path {
    active + [name]
  }

  function ArchivePath(archive: Path, name: string): Path
    requires |name| >= 7
  {
    ArchiveFolder(archive, name) + [name]
  }

  /**
   * The active folder cannot be one of the archive's year and month folders:
   * it is not `archive + [y, m]` with a 4-character `y` and a 2-character `m`
   * (otherwise a file could be renamed onto itself and stay where it is).
   */
  predicate ArchiveApart(active: Path, archive: Path) {
    !(&& |active| == |archive| + 2 && active[..|archive|] == archive
      && |active[|archive|]| == 4 && |active[|archive| + 1]| == 2)
  }

  /**
   * The archive path of `name` is its own path in the active folder: the
   * active folder is `archive/<name[0..4]>/<name[5..7]>`, and the rename
   * that would archive it leaves it where it is.
   */
  predicate InPlace(active: Path, archive: Path, name: string) {
    |name| >= 7 && ArchivePath(archive, name) == SourcePath(active, name)
  }

  /** The state a sweep leaves, and the error that stopped it, if any. */
  datatype SweepResult = SweepResult(state: State, error: Option<FsError>)

  /**
   * One qualifying name: its folder is made unless something exists at that
   * path, then the file is renamed into it; the state reached, and the error
   * if a call failed.
   */
  function MoveOne(s: State, active: Path, archive: Path, name: string): (r: SweepResult)
    requires |name| >= 7
    ensures s.dirs <= r.state.dirs
    ensures ValidState(s) ==> ValidState(r.state)
  {
    var folder := ArchiveFolder(archive, name);
    if !Exists(s, folder) && MkdirAll(s, folder).Failure? then
      SweepResult(s, Some(MkdirAll(s, folder).error))
    else
      var s1 := if Exists(s, folder) then s else MkdirAll(s, folder).value;
      match Rename(s1, SourcePath(active, name), ArchivePath(archive, name))
      case Failure(e) => SweepResult(s1, Some(e))
      case Success(s2) => SweepResult(s2, None)
  }

  /** One entry of the listing: moved when it matches, parses and is older than `cutoff`. */
  function Step(s: State, active: Path, archive: Path, name: string, cutoff: int): SweepResult {
    if Qualifies(name, cutoff) then MoveOne(s, active, archive, name) else SweepResult(s, None)
  }

  /**
   * The sweep over `names` in order: every qualifying name is moved, the
   * others are skipped; the first error stops the sweep, leaving the moves
   * already done in place.
   */
  function Sweep(s: State, names: seq<string>, active: Path, archive: Path, cutoff: int): (r: SweepResult)
    ensures s.dirs <= r.state.dirs
    ensures ValidState(s) ==> ValidState(r.state)
    decreases |names|
  {
    if names == [] then SweepResult(s, None)
    else
      var step := Step(s, active, archive, names[0], cutoff);
      if step.error.Some? then step
      else Sweep(step.state, names[1..], active, archive, cutoff)
  }

  /** Handles one qualifying file of the listing. */
  method ArchiveOne(disk: Disk, active: Path, archive: Path, name: string) returns (r: Outcome<FsError>)
    requires disk.Valid() && |name| >= 7
    modifies disk
    ensures disk.Valid()
    ensures disk.Snapshot() == MoveOne(old(disk.Snapshot()), active, archive, name).state
    ensures r == match MoveOne(old(disk.Snapshot()), active, archive, name).error
                 case None => Pass
                 case Some(e) => Fail(e)
  {
    var folder := archive + [name[0..4], name[5..7]];
    if !disk.ExistsSync(folder) {
      var made := disk.Mkdir(folder);
      if made.Fail? {
        return made;
      }
    }
    r := disk.Move(active + [name], folder + [name]);
  }

  predicate Distinct(names: seq<string>) {
    forall i, j :: 0 <= i < j < |names| ==> names[i] != names[j]
  }

  /** The `scratchManager.archiveFiles` command. */
  method ArchiveFiles(disk: Disk, active: Path, archive: Path, thresholdDays: int, now: int)
    returns (r: Outcome<FsError>, ghost listing: seq<string>)
    requires disk.Valid()
    modifies disk
    ensures disk.Valid()
    ensures active !in old(disk.dirs) ==> r.Fail? && disk.Snapshot() == old(disk.Snapshot())
    ensures active in old(disk.dirs) ==>
      && Distinct(listing)
      && (forall n :: n in listing <==> SourcePath(active, n) in old(disk.files))
      && (!InDateRange(Cutoff(now, thresholdDays)) ==> r == Pass && disk.Snapshot() == old(disk.Snapshot()))
      && (InDateRange(Cutoff(now, thresholdDays)) ==>
            var res := Sweep(old(disk.Snapshot()), listing, active, archive, Cutoff(now, thresholdDays));
            disk.Snapshot() == res.state && r == (if res.error.None? then Pass else Fail(res.error.value)))
  {
    var cutoff := now - 1000 * 60 * 60 * 24 * thresholdDays;
    var dir := disk.ReadDir(active);
    if dir.Failure? {
      return Fail(dir.error), [];
    }
    listing := dir.value;
    if !InDateRange(cutoff) {
      // The threshold date is invalid: every comparison with NaN is false,
      // so the loop over the listing moves nothing.
      return Pass, listing;
    }
    r := ArchiveListed(disk, dir.value, active, archive, cutoff);
  }

  /**
   * The body of the command's loop for the first entry of what is left of
   * the listing, `rest`: after it the sweep of `rest` has either stopped
   * with its error or goes on with the entries after it.
   */
  method ArchiveEntry(disk: Disk, active: Path, archive: Path, name: string, ghost rest: seq<string>, cutoff: int)
    returns (r: Outcome<FsError>)
    requires disk.Valid() && rest != [] && rest[0] == name
    modifies disk
    ensures disk.Valid()
    ensures !Qualifies(name, cutoff) ==> r == Pass && disk.Snapshot() == old(disk.Snapshot())
    ensures disk.Snapshot() == Step(old(disk.Snapshot()), active, archive, name, cutoff).state
    ensures r == match Step(old(disk.Snapshot()), active, archive, name, cutoff).error
                 case None => Pass
                 case Some(e) => Fail(e)
    ensures r.Fail? ==> Sweep(old(disk.Snapshot()), rest, active, archive, cutoff) == SweepResult(disk.Snapshot(), Some(r.error))
    ensures r.Pass? ==> Sweep(old(disk.Snapshot()), rest, active, archive, cutoff) == Sweep(disk.Snapshot(), rest[1..], active, archive, cutoff)
  {
    r := Pass;
    if MatchesScratchPattern(name) {
      var fileDate := ParseIsoDate(name[..10]);
      if fileDate.Some? && fileDate.value * MsPerDay < cutoff {
        r := ArchiveOne(disk, active, archive, name);
      }
    }
  }

  /** The loop of the command over the listing of the active folder. */
  method ArchiveListed(disk: Disk, names: seq<string>, active: Path, archive: Path, cutoff: int)
    returns (r: Outcome<FsError>)
    requires disk.Valid()
    modifies disk
    ensures disk.Valid()
    ensures var res := Sweep(old(disk.Snapshot()), names, active, archive, cutoff);
      disk.Snapshot() == res.state && r == (if res.error.None? then Pass else Fail(res.error.value))
  {
    ghost var s0 := disk.Snapshot();
    var i := 0;
    while i < |names|
      invariant 0 <= i <= |names|
      invariant disk.Valid()
      invariant Sweep(s0, names, active, archive, cutoff) == Sweep(disk.Snapshot(), names[i..], active, archive, cutoff)
    {
      assert names[i..][1..] == names[i + 1..];
      var moved := ArchiveEntry(disk, active, archive, names[i], names[i..], cutoff);
      if moved.Fail? {
        return moved;
      }
      i := i + 1;
    }
    return Pass;
  }

  // Properties of one move.

  /** With the archive apart, no archive path is a path of the active folder. */
  lemma ArchivePathNotInActive(active: Path, archive: Path, n: string, m: string)
    requires ArchiveApart(active, archive) && |n| >= 7
    ensures ArchivePath(archive, n) != SourcePath(active, m)
  {
    var a, b := ArchivePath(archive, n), SourcePath(active, m);
    if |a| == |b| {
      assert a[..|active|] == ArchiveFolder(archive, n);
      assert b[..|active|] == active;
      assert ArchiveFolder(archive, n)[..|archive|] == archive;
    }
  }

  lemma ArchivePathLast(archive: Path, n: string)
    requires |n| >= 7
    ensures |ArchivePath(archive, n)| > 0 && ArchivePath(archive, n)[|ArchivePath(archive, n)| - 1] == n
    ensures Parent(ArchivePath(archive, n)) == ArchiveFolder(archive, n)
  {
  }

  /** One move touches the file's own path and its archive path only. */
  lemma MoveOneFrame(s: State, active: Path, archive: Path, name: string, p: Path)
    requires |name| >= 7 && p != SourcePath(active, name) && p != ArchivePath(archive, name)
    ensures var t := MoveOne(s, active, archive, name).state;
      (p in t.files <==> p in s.files) && (p in s.files ==> t.files[p] == s.files[p])
  {
  }

  /** A move that succeeds puts the file's content at its archive path, in its year and month folder. */
  lemma MoveOneEffect(s: State, active: Path, archive: Path, name: string)
    requires |name| >= 7 && MoveOne(s, active, archive, name).error.None?
    ensures var t := MoveOne(s, active, archive, name).state;
      && SourcePath(active, name) in s.files
      && ArchivePath(archive, name) in t.files
      && t.files[ArchivePath(archive, name)] == s.files[SourcePath(active, name)]
      && (SourcePath(active, name) != ArchivePath(archive, name) ==> SourcePath(active, name) !in t.files)
      && ArchiveFolder(archive, name) in t.dirs
  {
    ArchivePathLast(archive, name);
  }

  // Properties of a sweep.

  /** One step of a sweep, by the three cases of its first entry. */
  lemma SweepUnfold(s: State, names: seq<string>, active: Path, archive: Path, cutoff: int)
    requires names != []
    ensures !Qualifies(names[0], cutoff) ==> Sweep(s, names, active, archive, cutoff) == Sweep(s, names[1..], active, archive, cutoff)
    ensures Qualifies(names[0], cutoff) && MoveOne(s, active, archive, names[0]).error.Some? ==>
      Sweep(s, names, active, archive, cutoff) == MoveOne(s, active, archive, names[0])
    ensures Qualifies(names[0], cutoff) && MoveOne(s, active, archive, names[0]).error.None? ==>
      Sweep(s, names, active, archive, cutoff) == Sweep(MoveOne(s, active, archive, names[0]).state, names[1..], active, archive, cutoff)
  {
  }

  /**
   * A sweep is its parts in order: the second part runs on what the first
   * left, unless the first stopped on an error, which ends the sweep with
   * the first part's moves in place.
   */
  lemma {:induction false} SweepAppend(s: State, a: seq<string>, b: seq<string>, active: Path, archive: Path, cutoff: int)
    ensures var first := Sweep(s, a, active, archive, cutoff);
      Sweep(s, a + b, active, archive, cutoff) ==
        if first.error.None? then Sweep(first.state, b, active, archive, cutoff) else first
    decreases |a|
  {
    if a == [] {
      assert a + b == b;
    } else {
      assert (a + b)[0] == a[0] && (a + b)[1..] == a[1..] + b;
      SweepUnfold(s, a + b, active, archive, cutoff);
      SweepUnfold(s, a, active, archive, cutoff);
      if !Qualifies(a[0], cutoff) {
        SweepAppend(s, a[1..], b, active, archive, cutoff);
      } else if MoveOne(s, active, archive, a[0]).error.None? {
        SweepAppend(MoveOne(s, active, archive, a[0]).state, a[1..], b, active, archive, cutoff);
      }
    }
  }

  /** A sweep over names none of which qualifies changes nothing and succeeds. */
  lemma {:induction false} SweepNoneQualifying(s: State, names: seq<string>, active: Path, archive: Path, cutoff: int)
    requires forall i :: 0 <= i < |names| ==> !Qualifies(names[i], cutoff)
    ensures Sweep(s, names, active, archive, cutoff) == SweepResult(s, None)
    decreases |names|
  {
    if names != [] {
      SweepNoneQualifying(s, names[1..], active, archive, cutoff);
    }
  }

  /** A path that is neither the source nor the archive path of a qualifying name is left as it was. */
  lemma {:induction false} SweepKeeps(s: State, names: seq<string>, active: Path, archive: Path, cutoff: int, p: Path)
    requires forall i :: 0 <= i < |names| && Qualifies(names[i], cutoff) ==>
      p != SourcePath(active, names[i]) && p != ArchivePath(archive, names[i])
    ensures var t := Sweep(s, names, active, archive, cutoff).state;
      (p in t.files <==> p in s.files) && (p in s.files ==> t.files[p] == s.files[p])
    decreases |names|
  {
    if names != [] {
      SweepUnfold(s, names, active, archive, cutoff);
      if !Qualifies(names[0], cutoff) {
        SweepKeeps(s, names[1..], active, archive, cutoff, p);
      } else {
        MoveOneFrame(s, active, archive, names[0], p);
        if MoveOne(s, active, archive, names[0]).error.None? {
          SweepKeeps(MoveOne(s, active, archive, names[0]).state, names[1..], active, archive, cutoff, p);
        }
      }
    }
  }

  /** A move that fails leaves the files as they were (a made folder stays). */
  lemma MoveOneFailureKeepsFiles(s: State, active: Path, archive: Path, name: string)
    requires |name| >= 7 && MoveOne(s, active, archive, name).error.Some?
    ensures MoveOne(s, active, archive, name).state.files == s.files
  {
  }

  /** Every file a sweep creates is at the archive path of a qualifying name. */
  lemma {:induction false} SweepOnlyAddsArchived(s: State, names: seq<string>, active: Path, archive: Path, cutoff: int, p: Path)
    requires p in Sweep(s, names, active, archive, cutoff).state.files && p !in s.files
    ensures exists i :: 0 <= i < |names| && Qualifies(names[i], cutoff) && p == ArchivePath(archive, names[i])
    decreases |names|
  {
    SweepUnfold(s, names, active, archive, cutoff);
    if !Qualifies(names[0], cutoff) {
      SweepOnlyAddsArchived(s, names[1..], active, archive, cutoff, p);
      var i :| 0 <= i < |names[1..]| && Qualifies(names[1..][i], cutoff) && p == ArchivePath(archive, names[1..][i]);
      assert names[i + 1] == names[1..][i];
    } else {
      var step := MoveOne(s, active, archive, names[0]);
      if step.error.Some? {
        MoveOneFailureKeepsFiles(s, active, archive, names[0]);
      } else if p != ArchivePath(archive, names[0]) {
        MoveOneEffect(s, active, archive, names[0]);
        MoveOneFrame(s, active, archive, names[0], p);
        assert p !in step.state.files;
        SweepOnlyAddsArchived(step.state, names[1..], active, archive, cutoff, p);
        var i :| 0 <= i < |names[1..]| && Qualifies(names[1..][i], cutoff) && p == ArchivePath(archive, names[1..][i]);
        assert names[i + 1] == names[1..][i];
      }
    }
  }

  /** One move makes no directory other than the archive folder and its ancestors. */
  lemma MoveOneDirs(s: State, active: Path, archive: Path, name: string)
    requires |name| >= 7
    ensures MoveOne(s, active, archive, name).state.dirs <= s.dirs + Prefixes(ArchiveFolder(archive, name))
  {
  }

  /** Every directory a sweep creates is the archive folder of a qualifying name, or one of its ancestors. */
  lemma {:induction false} SweepOnlyAddsArchiveDirs(s: State, names: seq<string>, active: Path, archive: Path, cutoff: int, d: Path)
    requires d in Sweep(s, names, active, archive, cutoff).state.dirs && d !in s.dirs
    ensures exists i :: 0 <= i < |names| && Qualifies(names[i], cutoff) && d in Prefixes(ArchiveFolder(archive, names[i]))
    decreases |names|
  {
    SweepUnfold(s, names, active, archive, cutoff);
    if !Qualifies(names[0], cutoff) {
      SweepOnlyAddsArchiveDirs(s, names[1..], active, archive, cutoff, d);
      var i :| 0 <= i < |names[1..]| && Qualifies(names[1..][i], cutoff) && d in Prefixes(ArchiveFolder(archive, names[1..][i]));
      assert names[i + 1] == names[1..][i];
    } else {
      var step := MoveOne(s, active, archive, names[0]);
      MoveOneDirs(s, active, archive, names[0]);
      if step.error.None? && d !in Prefixes(ArchiveFolder(archive, names[0])) {
        SweepOnlyAddsArchiveDirs(step.state, names[1..], active, archive, cutoff, d);
        var i :| 0 <= i < |names[1..]| && Qualifies(names[1..][i], cutoff) && d in Prefixes(ArchiveFolder(archive, names[1..][i]));
        assert names[i + 1] == names[1..][i];
      }
    }
  }

  /**
   * A sweep that succeeds moves each listed qualifying file: it is gone from
   * the active folder and its content sits at its archive path, in a year and
   * month folder that now exists.
   */
  lemma {:induction false} SweepMovesQualifying(s: State, names: seq<string>, active: Path, archive: Path, cutoff: int, n: string)
    requires Distinct(names)
    requires n in names && Qualifies(n, cutoff) && !InPlace(active, archive, n)
    requires SourcePath(active, n) in s.files
    requires Sweep(s, names, active, archive, cutoff).error.None?
    ensures var t := Sweep(s, names, active, archive, cutoff).state;
      && SourcePath(active, n) !in t.files
      && ArchivePath(archive, n) in t.files
      && t.files[ArchivePath(archive, n)] == s.files[SourcePath(active, n)]
      && ArchiveFolder(archive, n) in t.dirs
    decreases |names|
  {
    var m := names[0];
    var rest := names[1..];
    SweepUnfold(s, names, active, archive, cutoff);
    assert Distinct(rest);
    if m == n {
      var step := MoveOne(s, active, archive, n);
      MoveOneEffect(s, active, archive, n);
      forall i | 0 <= i < |rest| && Qualifies(rest[i], cutoff)
        ensures SourcePath(active, n) != SourcePath(active, rest[i])
        ensures SourcePath(active, n) != ArchivePath(archive, rest[i])
        ensures ArchivePath(archive, n) != SourcePath(active, rest[i])
        ensures ArchivePath(archive, n) != ArchivePath(archive, rest[i])
      {
        assert rest[i] == names[i + 1] && names[i + 1] != n;
        assert SourcePath(active, n)[|active|] == n && SourcePath(active, rest[i])[|active|] == rest[i];
        ArchivePathLast(archive, n);
        ArchivePathLast(archive, rest[i]);
      }
      SweepKeeps(step.state, rest, active, archive, cutoff, SourcePath(active, n));
      SweepKeeps(step.state, rest, active, archive, cutoff, ArchivePath(archive, n));
    } else if !Qualifies(m, cutoff) {
      SweepMovesQualifying(s, rest, active, archive, cutoff, n);
    } else {
      var step := MoveOne(s, active, archive, m);
      assert SourcePath(active, n)[|active|] == n && SourcePath(active, m)[|active|] == m;
      ArchivePathLast(archive, m);
      MoveOneFrame(s, active, archive, m, SourcePath(active, n));
      SweepMovesQualifying(step.state, rest, active, archive, cutoff, n);
    }
  }

  /** A file whose name does not qualify stays where it is, with its content. */
  lemma SweepKeepsNonQualifying(s: State, names: seq<string>, active: Path, archive: Path, cutoff: int, n: string)
    requires !Qualifies(n, cutoff) && SourcePath(active, n) in s.files
    ensures var t := Sweep(s, names, active, archive, cutoff).state;
      SourcePath(active, n) in t.files && t.files[SourcePath(active, n)] == s.files[SourcePath(active, n)]
  {
    forall i | 0 <= i < |names| && Qualifies(names[i], cutoff)
      ensures SourcePath(active, n) != SourcePath(active, names[i])
      ensures SourcePath(active, n) != ArchivePath(archive, names[i])
    {
      assert SourcePath(active, n)[|active|] == n && SourcePath(active, names[i])[|active|] == names[i];
      ArchivePathLast(archive, names[i]);
    }
    SweepKeeps(s, names, active, archive, cutoff, SourcePath(active, n));
  }

  /** A file already at its own archive path is renamed onto itself: nothing changes. */
  lemma MoveOneInPlace(s: State, active: Path, archive: Path, n: string)
    requires ValidState(s) && InPlace(active, archive, n) && SourcePath(active, n) in s.files
    ensures MoveOne(s, active, archive, n) == SweepResult(s, None)
  {
    ArchivePathLast(archive, n);
    assert ArchiveFolder(archive, n) == Parent(SourcePath(active, n));
  }

  /** A qualifying file at its own archive path stays there, with its content, whatever the sweep does. */
  lemma {:induction false} SweepKeepsInPlace(s: State, names: seq<string>, active: Path, archive: Path, cutoff: int, n: string)
    requires ValidState(s) && InPlace(active, archive, n) && SourcePath(active, n) in s.files
    ensures var t := Sweep(s, names, active, archive, cutoff).state;
      SourcePath(active, n) in t.files && t.files[SourcePath(active, n)] == s.files[SourcePath(active, n)]
    decreases |names|
  {
    if names != [] {
      var m := names[0];
      var step := Step(s, active, archive, m, cutoff);
      if m == n {
        if Qualifies(m, cutoff) {
          MoveOneInPlace(s, active, archive, n);
        }
      } else if Qualifies(m, cutoff) {
        assert SourcePath(active, n)[|active|] == n && SourcePath(active, m)[|active|] == m;
        ArchivePathLast(archive, m);
        MoveOneFrame(s, active, archive, m, SourcePath(active, n));
      }
      if step.error.None? {
        SweepKeepsInPlace(step.state, names[1..], active, archive, cutoff, n);
      }
    }
  }

  /**
   * The sweep moves a listed file if and only if its name qualifies and it
   * is not already at its archive path, and changes no file that is neither
   * a listed qualifying file nor the archive path of one.
   */
  lemma SweepMovesExactly(s: State, names: seq<string>, active: Path, archive: Path, cutoff: int)
    requires ValidState(s) && Distinct(names)
    requires forall n :: n in names ==> SourcePath(active, n) in s.files
    requires Sweep(s, names, active, archive, cutoff).error.None?
    ensures var t := Sweep(s, names, active, archive, cutoff).state;
      forall n :: n in names ==>
        (SourcePath(active, n) in t.files <==> !Qualifies(n, cutoff) || InPlace(active, archive, n))
    ensures var t := Sweep(s, names, active, archive, cutoff).state;
      forall p :: p in t.files && p !in s.files ==>
        exists i :: 0 <= i < |names| && Qualifies(names[i], cutoff) && p == ArchivePath(archive, names[i])
  {
    var t := Sweep(s, names, active, archive, cutoff).state;
    forall n | n in names
      ensures SourcePath(active, n) in t.files <==> !Qualifies(n, cutoff) || InPlace(active, archive, n)
    {
      if !Qualifies(n, cutoff) {
        SweepKeepsNonQualifying(s, names, active, archive, cutoff, n);
      } else if InPlace(active, archive, n) {
        SweepKeepsInPlace(s, names, active, archive, cutoff, n);
      } else {
        SweepMovesQualifying(s, names, active, archive, cutoff, n);
      }
    }
    forall p | p in t.files && p !in s.files
      ensures exists i :: 0 <= i < |names| && Qualifies(names[i], cutoff) && p == ArchivePath(archive, names[i])
    {
      SweepOnlyAddsArchived(s, names, active, archive, cutoff, p);
    }
  }

  /**
   * After a sweep over a complete listing of the active folder succeeds,
   * every file left in the active folder that qualifies is at its own
   * archive path; with the archive apart, none qualifies.
   */
  lemma SweepLeavesNothingStale(s: State, names: seq<string>, active: Path, archive: Path, cutoff: int)
    requires Distinct(names)
    requires forall n :: n in names <==> SourcePath(active, n) in s.files
    requires Sweep(s, names, active, archive, cutoff).error.None?
    ensures forall n :: n in FileNames(Sweep(s, names, active, archive, cutoff).state, active) && Qualifies(n, cutoff) ==>
      InPlace(active, archive, n)
    ensures ArchiveApart(active, archive) ==>
      forall n :: n in FileNames(Sweep(s, names, active, archive, cutoff).state, active) ==> !Qualifies(n, cutoff)
  {
    var t := Sweep(s, names, active, archive, cutoff).state;
    forall n | SourcePath(active, n) in t.files && Qualifies(n, cutoff) ensures InPlace(active, archive, n) {
      if SourcePath(active, n) !in s.files {
        SweepOnlyAddsArchived(s, names, active, archive, cutoff, SourcePath(active, n));
        var i :| 0 <= i < |names| && Qualifies(names[i], cutoff) && SourcePath(active, n) == ArchivePath(archive, names[i]);
        ArchivePathLast(archive, names[i]);
        // Then `n` is `names[i]`, a listed name, whose file was there before.
        assert false;
      } else if !InPlace(active, archive, n) {
        SweepMovesQualifying(s, names, active, archive, cutoff, n);
      }
    }
    forall n | ArchiveApart(active, archive) && Qualifies(n, cutoff) ensures !InPlace(active, archive, n) {
      ArchivePathNotInActive(active, archive, n, n);
    }
  }

  /** A sweep over files that are either not qualifying or already in place changes nothing and succeeds. */
  lemma {:induction false} SweepInPlaceNoop(s: State, names: seq<string>, active: Path, archive: Path, cutoff: int)
    requires ValidState(s)
    requires forall i :: 0 <= i < |names| && Qualifies(names[i], cutoff) ==>
      InPlace(active, archive, names[i]) && SourcePath(active, names[i]) in s.files
    ensures Sweep(s, names, active, archive, cutoff) == SweepResult(s, None)
    decreases |names|
  {
    if names != [] {
      if Qualifies(names[0], cutoff) {
        MoveOneInPlace(s, active, archive, names[0]);
      }
      SweepInPlaceNoop(s, names[1..], active, archive, cutoff);
    }
  }

  /**
   * After a sweep over a complete listing succeeds, a second sweep with the
   * same cutoff, over any listing of the files then in the active folder,
   * moves nothing and succeeds.
   */
  lemma SweepIdempotent(s: State, names: seq<string>, again: seq<string>, active: Path, archive: Path, cutoff: int)
    requires ValidState(s) && Distinct(names)
    requires forall n :: n in names <==> SourcePath(active, n) in s.files
    requires Sweep(s, names, active, archive, cutoff).error.None?
    requires forall n :: n in again ==> SourcePath(active, n) in Sweep(s, names, active, archive, cutoff).state.files
    ensures var t := Sweep(s, names, active, archive, cutoff).state;
      Sweep(t, again, active, archive, cutoff) == SweepResult(t, None)
  {
    var t := Sweep(s, names, active, archive, cutoff).state;
    SweepLeavesNothingStale(s, names, active, archive, cutoff);
    forall i | 0 <= i < |again| && Qualifies(again[i], cutoff)
      ensures InPlace(active, archive, again[i]) && SourcePath(active, again[i]) in t.files
    {
      assert again[i] in again;
      assert again[i] in FileNames(t, active);
    }
    SweepInPlaceNoop(t, again, active, archive, cutoff);
  }

  // The sweep and the file name codec together.

  /**
   * A scratch file made on day `dt` is archived by a sweep at `now` exactly
   * when UTC midnight of `dt` plus `thresholdDays` days is before `now`, and
   * it goes to the folder of that year and month.
   */
  lemma ScratchFileArchived(dt: Date, title: string, extension: string, archive: Path, now: int, thresholdDays: int)
    requires IsValidDate(dt)
    ensures var name := FilenameCodec.ScratchFilename(FormatIsoDate(dt), title, extension);
      && (Qualifies(name, Cutoff(now, thresholdDays)) <==> (DaysFromCivil(dt) + thresholdDays) * MsPerDay < now)
      && ArchivePath(archive, name) == archive + [Pad4(dt.year), Pad2(dt.month), name]
  {
    var iso := FormatIsoDate(dt);
    var name := FilenameCodec.ScratchFilename(iso, title, extension);
    assert name[..10] == iso;
    assert name[0..4] == iso[0..4] == Pad4(dt.year);
    assert name[5..7] == iso[5..7] == Pad2(dt.month);
    assert MatchesScratchPattern(name);
    ParseFormatRoundTrip(dt);
  }

  /**
   * A threshold of 5 days on a sweep during 2024-01-10 (UTC): a file dated
   * 2024-01-05 is archived unless the sweep runs at exactly midnight, and a
   * file dated 2024-01-06 is not.
   */
  lemma ThresholdBoundary(title: string, extension: string, now: int)
    requires DaysFromCivil(Date(2024, 1, 10)) * MsPerDay <= now < DaysFromCivil(Date(2024, 1, 11)) * MsPerDay
    ensures Qualifies(FilenameCodec.ScratchFilename(FormatIsoDate(Date(2024, 1, 5)), title, extension), Cutoff(now, 5))
        <==> now > DaysFromCivil(Date(2024, 1, 10)) * MsPerDay
    ensures !Qualifies(FilenameCodec.ScratchFilename(FormatIsoDate(Date(2024, 1, 6)), title, extension), Cutoff(now, 5))
  {
    ScratchFileArchived(Date(2024, 1, 5), title, extension, [], now, 5);
    ScratchFileArchived(Date(2024, 1, 6), title, extension, [], now, 5);
  }

  /** An active folder two levels below the archive, but not shaped like a month folder, is apart. */
  lemma ArchiveApartNested()
    ensures ArchiveApart(["notes", "scratch"], [])
    ensures !ArchiveApart(["2024", "01"], [])
  {
  }

  /** The archive path of `2023-11-02_Notes.ps1`. */
  lemma ArchivePathExample(archive: Path)
    ensures ArchivePath(archive, "2023-11-02_Notes.ps1") == archive + ["2023", "11", "2023-11-02_Notes.ps1"]
  {
    var name := "2023-11-02_Notes.ps1";
    assert name[0..4] == "2023" && name[5..7] == "11";
  }
}
