/**
 * The `scratchManager.createFile` command once the template name and the
 * title are chosen: find the template, name the file, refuse to replace an
 * existing one, make the active folder if needed and write the rendered
 * content.
 */
module ScratchCreator {
  import opened Wrappers
  import opened FileSystem
  import opened Templates
  import opened FilenameCodec

  datatype CreateError =
    | MissingTemplate(name: string)
    | FileAlreadyExists(path: Path)
    | Io(error: FsError)

  /** The state after placing a new file, and the error that stopped it, if any. */
  datatype Placement = Placement(state: State, error: Option<CreateError>)

  /**
   * Writing `content` to the new file `folder + [name]`: refused when
   * anything is at that path, before the folder is made; the folder is
   * made (with its ancestors) only when nothing is there yet.
   */
  function Place(s: State, folder: Path, name: string, content: string): Placement {
    var path := folder + [name];
    if Exists(s, path) then Placement(s, Some(FileAlreadyExists(path)))
    else
      var made := if Exists(s, folder) then Success(s) else MkdirAll(s, folder);
      if made.Failure? then Placement(s, Some(Io(made.error)))
      else
        var written := WriteFile(made.value, path, content);
        if written.Failure? then Placement(made.value, Some(Io(written.error)))
        else Placement(written.value, None)
  }

  /** An existing file or directory at the target is never touched. */
  lemma PlaceRefusesExisting(s: State, folder: Path, name: string, content: string)
    requires Exists(s, folder + [name])
    ensures Place(s, folder, name, content) == Placement(s, Some(FileAlreadyExists(folder + [name])))
  {
  }

  /**
   * Placing succeeds exactly when the target is free and no ancestor of the
   * folder is a file; then the file holds `content`, the folder and its
   * ancestors are directories, and nothing else changes.
   */
  lemma PlaceSucceeds(s: State, folder: Path, name: string, content: string)
    requires ValidState(s)
    ensures var r := Place(s, folder, name, content);
      && (r.error.None? <==> !Exists(s, folder + [name]) && forall p :: p in Prefixes(folder) ==> p !in s.files)
      && (r.error.None? ==> r.state == State(s.files[folder + [name] := content], s.dirs + Prefixes(folder)))
  {
    var path := folder + [name];
    assert Parent(path) == folder;
    if !Exists(s, path) {
      if folder in s.dirs {
        DirAncestors(s, folder);
        assert s.dirs + Prefixes(folder) == s.dirs;
      } else if folder in s.files {
        assert folder in Prefixes(folder);
      }
    }
  }

  /** A failure after the collision guard is an I/O error and writes no file. */
  lemma PlaceFailureWritesNothing(s: State, folder: Path, name: string, content: string)
    requires !Exists(s, folder + [name])
    ensures var r := Place(s, folder, name, content);
      r.error.Some? ==> r.error.value.Io? && r.state.files == s.files
  {
  }

  /** Placing keeps the tree well formed and never removes a directory. */
  lemma PlaceValid(s: State, folder: Path, name: string, content: string)
    requires ValidState(s)
    ensures ValidState(Place(s, folder, name, content).state)
    ensures s.dirs <= Place(s, folder, name, content).state.dirs
  {
  }

  /**
   * Creates the scratch file in `folder` (the active folder) and returns its
   * path; `isoDate`, `username` and `localeDate` stand for today's ISO date,
   * the user name and today's locale date string.
   */
  method CreateFile(disk: Disk, templates: seq<Template>, templateName: string, title: string,
                    isoDate: string, username: string, localeDate: string, folder: Path)
    returns (r: Result<Path, CreateError>)
    requires disk.Valid() && |isoDate| == 10
    modifies disk
    ensures disk.Valid()
    ensures (forall i :: 0 <= i < |templates| ==> templates[i].name != templateName) ==>
      r == Failure(MissingTemplate(templateName)) && disk.Snapshot() == old(disk.Snapshot())
    ensures forall i :: IsFirstNamed(templates, templateName, i) ==>
      var name := ScratchFilename(isoDate, title, templates[i].extension);
      var placed := Place(old(disk.Snapshot()), folder, name,
                          Render(templates[i].content, TemplateData(title, username, localeDate)));
      && disk.Snapshot() == placed.state
      && (if placed.error.None? then r == Success(folder + [name]) else r == Failure(placed.error.value))
  {
    var found := GetTemplate(templates, templateName);
    if found.Failure? {
      return Failure(MissingTemplate(templateName));
    }
    var template := found.value;
    ghost var k :| IsFirstNamed(templates, templateName, k) && templates[k] == template;
    assert forall i :: IsFirstNamed(templates, templateName, i) ==> i == k;
    var fileName := ScratchFilename(isoDate, title, template.extension);
    var filePath := folder + [fileName];
    var content := Render(template.content, TemplateData(title, username, localeDate));
    ghost var placed := Place(disk.Snapshot(), folder, fileName, content);

    // The existing file is never replaced.
    if disk.ExistsSync(filePath) {
      return Failure(FileAlreadyExists(filePath));
    }

    if !disk.ExistsSync(folder) {
      var made := disk.Mkdir(folder);
      if made.Fail? {
        return Failure(Io(made.error));
      }
    }

    var written := disk.Write(filePath, content);
    if written.Fail? {
      return Failure(Io(written.error));
    }
    return Success(filePath);
  }
}
