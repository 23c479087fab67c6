# Scratch Manager, modelled in Dafny

A model of the core of the Scratch Manager editor extension
(`src/extension.ts`). The extension creates dated scratch files from named
templates and sweeps old scratch files into an archive tree by year and
month. The model covers four parts:

- **File names** (`filename.dfy`, module `FilenameCodec`): a scratch file is
  named `<YYYY-MM-DD>_<title>.<ext>`. The title loses the characters
  `/ \ : < > " | ? *`, and then each whitespace character (the full
  JavaScript `\s` class) becomes `_`.
- **Templates** (`templates.dfy`, module `Templates`):
  - Rendering fills `{{title}}`, `{{username}}` and `{{date}}`. Each is a
    single first-occurrence replacement, done in that order.
  - `getTemplate` returns the first template with exactly the given name,
    or fails.
- **Dates** (`isodate.dfy`, module `IsoDate`): the scratch-name pattern
  `^[0-9]{4}-[0-9]{2}-[0-9]{2}_`. The first ten characters are parsed as a
  UTC calendar date, counted in days since 1970-01-01, and written back.
- **File system, archiving and creation**:
  - `filesystem.dfy`, module `FileSystem`: a tree of files and directories.
    The pure functions `MkdirAll`, `Rename` and `WriteFile` give the effect
    of each call. The class `Disk` is the mutable file system the commands
    change.
  - `archive.dfy`, module `Archive`: the `scratchManager.archiveFiles`
    command, as the method `ArchiveFiles` with its loop. It is proved
    against the specification function `Sweep`.
  - `creator.dfy`, module `ScratchCreator`: the `scratchManager.createFile`
    command once its two prompts are answered, as the method `CreateFile`.
    It is proved against the function `Place`.

The model takes as parameters everything the source reads from its
surroundings:

- the current time `now`, in milliseconds since the epoch;
- today's ISO date string;
- today's locale date string (`toLocaleDateString`);
- the user name;
- the template list;
- the active and archive folders;
- the threshold in days.

Paths are sequences of names from the root.

## Model

| member | source | states |
|---|---|---|
| FilenameCodec.IsForbidden | src/extension.ts:231 | the nine characters `/ \ : < > " \| ? *` of the removal class (a definition; its use is stated by `RemoveForbidden`) |
| FilenameCodec.IsWhitespace | src/extension.ts:232 | the characters of the JavaScript `\s` class: the ASCII white space, no-break space, the Unicode space separators, line and paragraph separators and the byte-order mark (a definition; its use is stated by `ReplaceWhitespace`) |
| FilenameCodec.RemoveForbidden | src/extension.ts:231 | no character of the result is one of `/ \ : < > " \| ? *`; exactly the forbidden characters are dropped (length is the input's less their count) |
| FilenameCodec.ReplaceWhitespace | src/extension.ts:232 | same length; each whitespace character becomes `_` and every other character is kept in place |
| FilenameCodec.NormalizeTitle | src/extension.ts:229-232 | the normalised title holds no forbidden and no whitespace character, and is as long as the title minus its forbidden characters |
| FilenameCodec.ScratchFilename | src/extension.ts:224-235 | the name is the 10-character date, `_`, the normalised title, `.` and the extension, at exactly those positions, and has length 12 + normalised title + extension |
| FilenameCodec.RemoveForbiddenAppend | src/extension.ts:231 | removing the forbidden characters distributes over concatenation |
| FilenameCodec.NormalizeTitleAppend | src/extension.ts:229-232 | normalising distributes over concatenation (each character is handled on its own) |
| FilenameCodec.NormalizeTitleChar | src/extension.ts:231-232 | a one-character title normalises to nothing, to `_` or to itself, as the character is forbidden, whitespace or neither |
| FilenameCodec.NormalizeTitleClean | src/extension.ts:229-232 | a title with no forbidden or whitespace character is kept unchanged |
| FilenameCodec.NormalizeTitleIdempotent | src/extension.ts:229-232 | normalising an already normalised title changes nothing |
| FilenameCodec.RemoveForbiddenKeeps | src/extension.ts:231 | every allowed character of the title survives, in order, shifted left by the number of forbidden characters before it |
| IsoDate.MatchesScratchPattern | src/extension.ts:302 | the test `^[0-9]{4}-[0-9]{2}-[0-9]{2}_`: eleven characters at least, digits and `-` in the date positions, `_` at position 10 |
| IsoDate.PatternIsDatePrefix | src/extension.ts:302 | a name matches the pattern exactly when its first ten characters have the date shape and the eleventh is `_` |
| IsoDate.DaysFromCivil | src/extension.ts:319-322 | the day number of a calendar date counted from 1970-01-01, which times 86400000 is the `getTime()` of its UTC midnight; its properties are stated by `EpochIsDayZero`, `DaysFromCivilNext` and `DaysFromCivilOrder` |
| IsoDate.ParseFields | src/extension.ts:319 | the first ten characters split into year, month and day exactly when they are digits with `-` at positions 4 and 7 |
| IsoDate.ParseIsoDate | src/extension.ts:319 | a date is obtained exactly when the fields form a real calendar date (else the source's invalid date); the value is its day number from 1970-01-01 |
| IsoDate.FormatIsoDate | src/extension.ts:227 | the ISO date of a calendar day is ten characters of the `YYYY-MM-DD` shape |
| IsoDate.ParseFormatRoundTrip | src/extension.ts:227 | parsing the ISO string of a valid date gives back that date and its day number |
| IsoDate.FormatParseRoundTrip | src/extension.ts:319 | every string that parses to a date is itself the ISO string of that date |
| IsoDate.DigitsDetermine | src/extension.ts:302 | two strings of the date shape with the same fields are equal |
| IsoDate.DaysFromCivilOrder | src/extension.ts:319-322 | day numbers order dates as the calendar does, and two dates have the same day number only when equal |
| IsoDate.DaysFromCivilNext | src/extension.ts:319 | the next calendar day has the next day number (leap days included) |
| IsoDate.EpochIsDayZero | src/extension.ts:319 | 1970-01-01 is day 0, as `Date.getTime` counts |
| Templates.IndexOf | src/extension.ts:212-214 | the index found is the first occurrence of the pattern; none is found only when it does not occur |
| Templates.ReplaceFirst | src/extension.ts:212-214 | with no occurrence the text is unchanged; otherwise exactly the first occurrence is replaced by the value |
| Templates.Render | src/extension.ts:209-216 | `parseTemplateContent` with the fill values inserted literally: the title, then the user name, then the date, each at the first occurrence of its placeholder; its contract is stated by `RenderEachOnce`, `RenderWithoutPlaceholders` and `RenderAsWrittenAgrees` |
| Templates.RenderAsWritten | src/extension.ts:209-216 | `parseTemplateContent` as written: the same three chained `replace` calls, with the `$` patterns of each fill value expanded |
| Templates.RenderWithoutPlaceholders | src/extension.ts:209-216 | content with no placeholder is returned unchanged |
| Templates.RenderFirstOccurrenceOnly | src/extension.ts:212 | for every title without `{`, the content `{{title}}{{title}}` renders as the title followed by `{{title}}`: only the first copy is filled |
| Templates.RenderTitleBeforeUsername | src/extension.ts:212-213 | example: the content `{{title}}` with the title `{{username}}` and the user name `alice` renders as `alice`, because the title is filled first |
| Templates.ReplaceFirstAfter | src/extension.ts:212-214 | when the text before a copy of the pattern cannot start it, that copy is the one replaced, whatever follows it |
| Templates.RenderEachOnce | src/extension.ts:209-216 | content holding each placeholder once, in order, becomes title, user name and date in their places, with the text between kept, provided the title, the user name and the two separators hold no `{` (a fill value can itself contain a later placeholder, as `RenderTitleBeforeUsername` shows) |
| Templates.GetTemplate | src/extension.ts:176-186 | success returns the first template with exactly that name; failure, with that name, happens exactly when no template has it |
| Templates.ExpandReplacement | src/extension.ts:212-214 | a replacement string with no `$` is inserted as it is |
| Templates.ReplaceFirstAsWritten | src/extension.ts:212-214 | with no occurrence the text is unchanged; a value without `$` is inserted literally, as `ReplaceFirst` does |
| Templates.RenderAsWrittenAgrees | src/extension.ts:209-216 | when no fill value holds `$`, the source's rendering and the literal rendering agree |
| Templates.RenderAsWrittenDollarTitle | src/extension.ts:212 | a title `$&` puts `{{title}}` back in the source's rendering, where the literal rendering gives `$&` |
| FileSystem.Exists | src/extension.ts:278 | `fs.existsSync`: a file or a directory is at the path (the guards at :278, :283 and :330; their effect is stated by `PlaceRefusesExisting`, `PlaceSucceeds` and `MoveOne`) |
| FileSystem.Disk.ExistsSync | src/extension.ts:283 | `fs.existsSync` on the disk: `Exists` of its current state |
| FileSystem.Prefixes | src/extension.ts:331 | the prefixes are exactly the path and its ancestors |
| FileSystem.DirAncestors | src/extension.ts:284 | in a well-formed tree every ancestor of a directory is a directory |
| FileSystem.FileNames | src/extension.ts:313 | a name is listed exactly when a file of that name is directly inside the directory |
| FileSystem.MkdirAll | src/extension.ts:331 | recursive mkdir succeeds exactly when no ancestor of the path, itself included, is a file; it adds the path and its ancestors as directories, keeps the files and keeps the tree well formed |
| FileSystem.Rename | src/extension.ts:337 | rename of a file succeeds exactly when the source is a file and the target is not a directory and has a directory as parent; the target gets the content, the source is gone unless it is the target (a rename onto itself changes nothing), every other path is unchanged, and the tree stays well formed |
| FileSystem.WriteFile | src/extension.ts:288 | writing succeeds exactly when the path is not a directory and its parent is a directory; only that file changes |
| FileSystem.Disk.ReadDir | src/extension.ts:313 | the listing fails exactly when the folder is not a directory, and otherwise lists every file directly inside it once |
| FileSystem.Disk.Mkdir | src/extension.ts:331 | the disk changes as `MkdirAll` says on success and is unchanged on failure |
| FileSystem.Disk.Move | src/extension.ts:337 | the disk changes as `Rename` says on success and is unchanged on failure |
| FileSystem.Disk.Write | src/extension.ts:288 | the disk changes as `WriteFile` says on success and is unchanged on failure |
| Archive.Cutoff | src/extension.ts:305 | the threshold instant `now - 86400000 * thresholdDays` in milliseconds |
| Archive.InDateRange | src/extension.ts:305 | a `Date` made from an instant is valid only within 8.64e15 ms of the epoch |
| Archive.Qualifies | src/extension.ts:317-322 | an entry is moved when it matches the pattern, its first ten characters are a valid date, and that date's UTC midnight is strictly before the threshold instant; stated for scratch names by `ScratchFileArchived` |
| Archive.ArchiveFolder | src/extension.ts:324 | the folder `archive/<name[0..4]>/<name[5..7]>` |
| Archive.ArchivePath | src/extension.ts:324-327 | the destination `archive/<name[0..4]>/<name[5..7]>/<name>`; stated by `ArchivePathLast`, `ArchivePathNotInActive` and `ArchivePathExample` |
| Archive.MoveOne | src/extension.ts:324-337 | moving one entry (mkdir of `archive/YYYY/MM` when missing, then rename) never removes a directory and keeps the tree well formed |
| Archive.Sweep | src/extension.ts:314-340 | the sweep never removes a directory and keeps the tree well formed |
| Archive.ArchiveOne | src/extension.ts:324-337 | the disk and the outcome are those of `MoveOne` |
| Archive.SourcePath | src/extension.ts:326 | the path `active/<name>` of a listed entry |
| Archive.InPlace | src/extension.ts:324-327 | the archive path of an entry is its own path: the active folder is `archive/<name[0..4]>/<name[5..7]>` |
| Archive.Step | src/extension.ts:317-337 | one entry of the listing: moved as `MoveOne` says when it qualifies, and otherwise left alone; `Sweep` is these steps in order |
| Archive.ArchiveEntry | src/extension.ts:317-338 | the loop body: the disk and the outcome are those of `Step` for the entry (an entry that does not qualify changes nothing), and the sweep of the remaining listing has stopped with the body's error or goes on with the entries after it |
| Archive.ArchiveListed | src/extension.ts:314-340 | the loop over the listing leaves the disk and the outcome that `Sweep` gives, stopping at the first failed call |
| Archive.ArchiveFiles | src/extension.ts:300-341 | a missing active folder fails and changes nothing; otherwise it lists every file once; when the threshold instant `now - thresholdDays * 86400000` is outside the range of a `Date` nothing is moved, and otherwise the disk ends as `Sweep` of that listing with that instant |
| Archive.ArchivePathNotInActive | src/extension.ts:324-327 | an archive destination is never a path in the active folder, unless the active folder is `archive/<y>/<m>` with a 4-character `y` and a 2-character `m` |
| Archive.MoveOneFrame | src/extension.ts:324-337 | moving one entry changes no file other than its source and its destination |
| Archive.MoveOneEffect | src/extension.ts:324-337 | a successful move puts the content at `archive/YYYY/MM/name` in a folder that now exists, and removes it from the active folder whenever that path differs from the archive path |
| Archive.SweepAppend | src/extension.ts:314-340 | the sweep over two listings is the sweep of the first, then (if it did not fail) the sweep of the second: there is no rollback of earlier moves |
| Archive.SweepNoneQualifying | src/extension.ts:317-322 | when no entry qualifies, nothing changes and nothing fails |
| Archive.SweepKeeps | src/extension.ts:314-340 | a file at a path that is neither the source nor the destination of a qualifying entry is unchanged (directories are bounded by `SweepOnlyAddsArchiveDirs`) |
| Archive.MoveOneFailureKeepsFiles | src/extension.ts:330-337 | a failed move leaves every file as it was (an archive folder made on the way stays behind) |
| Archive.MoveOneDirs | src/extension.ts:330-332 | one move makes no directory other than `archive/YYYY/MM` and its ancestors |
| Archive.SweepOnlyAddsArchiveDirs | src/extension.ts:314-338 | a directory that is new after the sweep is the archive folder `archive/YYYY/MM` of a qualifying entry, or one of its ancestors |
| Archive.SweepOnlyAddsArchived | src/extension.ts:324-337 | a file that is new after the sweep is the archive path of a qualifying entry |
| Archive.SweepMovesQualifying | src/extension.ts:317-337 | after a sweep without failure over a listing without repeats, every qualifying listed file that is not already at its archive path is gone from the active folder and sits, with its content, at `archive/YYYY/MM/name` |
| Archive.MoveOneInPlace | src/extension.ts:330-337 | in a well-formed tree, moving a file that is already at its archive path makes no folder, renames it onto itself and changes nothing |
| Archive.SweepKeepsInPlace | src/extension.ts:314-338 | a qualifying file already at its archive path stays there with its content, whatever the rest of the sweep does |
| Archive.SweepKeepsNonQualifying | src/extension.ts:317-322 | in every setup, a file that does not qualify stays in the active folder with its content, whether or not the sweep fails |
| Archive.SweepMovesExactly | src/extension.ts:314-338 | after a sweep without failure over a listing without repeats of a well-formed tree, a listed file stays in the active folder if and only if it does not qualify or is already at its archive path; every new file is the archive path of a qualifying entry |
| Archive.SweepLeavesNothingStale | src/extension.ts:314-338 | after a sweep without failure over a complete listing without repeats, every qualifying file left in the active folder is at its own archive path; when the active folder is apart from the archive (`ArchiveApart`), none qualifies |
| Archive.SweepInPlaceNoop | src/extension.ts:314-338 | a sweep over entries that either do not qualify or are files already at their archive paths changes nothing and succeeds |
| Archive.SweepIdempotent | src/extension.ts:314-338 | after a sweep without failure over a complete listing without repeats of a well-formed tree, a second sweep with the same cutoff over any listing of the files then in the active folder changes nothing and succeeds |
| Archive.ScratchFileArchived | src/extension.ts:302-327 | a scratch file named on a date qualifies exactly when that date plus the threshold days is before `now`, and goes to `archive/<year>/<month>/` with the four-digit year and two-digit month |
| Archive.ThresholdBoundary | src/extension.ts:305-322 | with a 5-day threshold and `now` on 2024-01-10, the 2024-01-05 file qualifies exactly when `now` is after midnight, and the 2024-01-06 file does not |
| Archive.ArchiveApartNested | src/extension.ts:309-310 | example: an active folder `notes/scratch` with the archive at the root is apart from the archive, while `2024/01` is not |
| Archive.ArchivePathExample | src/extension.ts:324-327 | `2023-11-02_Notes.ps1` goes to `archive/2023/11/2023-11-02_Notes.ps1` |
| ScratchCreator.Place | src/extension.ts:277-288 | the collision guard, the `mkdir` when the folder is missing and the write, in that order, stopping at the first failure; its contract is stated by `PlaceRefusesExisting`, `PlaceSucceeds`, `PlaceFailureWritesNothing` and `PlaceValid` |
| ScratchCreator.PlaceRefusesExisting | src/extension.ts:277-280 | when anything is at the target path, the command fails with that path and changes nothing, before any mkdir |
| ScratchCreator.PlaceSucceeds | src/extension.ts:277-288 | creation succeeds exactly when the target is free and no ancestor of the folder is a file; then the file holds the content, the folder and its ancestors are directories, and nothing else changes |
| ScratchCreator.PlaceFailureWritesNothing | src/extension.ts:282-288 | a failure after the collision guard is an I/O error and changes no file |
| ScratchCreator.PlaceValid | src/extension.ts:282-288 | creation keeps the tree well formed and removes no directory |
| ScratchCreator.CreateFile | src/extension.ts:271-288 | an unknown template fails and changes nothing; otherwise the file name comes from the first template with that name, and the disk and result are those of `Place` with the rendered content |

## Left out

- Configuration lookups (`getConfigurationString` and related): the
  folders and the threshold are parameters. The test that the workspace
  root exists is left out too.
- The template store: reading and writing `templates.json`, the default
  template and the byte-order mark. The template list is a parameter.
- `toLocaleDateString`: depends on the locale, so the locale date string is
  a parameter.
- `os.userInfo()` and `new Date()`: the user name, the current time and
  today's ISO date are parameters.
- The prompts: the quick pick, the input box and its rule that the title
  is not blank. Opening the document in the editor is left out too.
- The automatic `executeCommand('scratchManager.archiveFiles')` call after
  creation.
- `console.log`.
- `async` and concurrency: each call is modelled as completing before the
  next begins.
- Floating point: times are whole milliseconds, and `thresholdDays` is a
  whole number of days. A `Date` made from an instant more than 8.64e15 ms
  from the epoch is invalid. The model covers this for the threshold
  instant: `Archive.ArchiveFiles` then moves nothing. A current time outside
  that range is not modelled. File dates outside years 0000-9999 cannot
  occur, because the pattern allows only four year digits.
- IsoDate.ParseIsoDate: treats an out-of-month day (such as `2023-02-30`)
  as invalid, so such a file is never archived. It does not model any
  leniency of the JavaScript engine that would roll such a date over.
- FileSystem.Disk.ReadDir: lists files only. A sub-directory of the active
  folder whose name matches the pattern would be renamed by the source;
  moving a directory tree is not modelled.
- FileSystem.Rename: overwrites an existing target file, as POSIX `rename`
  does. Another platform's behaviour is not modelled, and no lemma relies
  on the collision case.
- Case-insensitive volumes: paths are compared exactly, so `Exists`,
  `Rename` and the collision guard are case-sensitive. On a volume that
  ignores case (the default on Windows and macOS) `fs.existsSync` at
  src/extension.ts:278 also refuses a name that differs only in case; that
  is not modelled.
- `path.join` normalisation: paths are sequences of names, so `..`, `.` or
  a separator inside a title or extension are plain characters.
- UTF-16: strings are sequences of Unicode characters, not of UTF-16 code
  units.
- Error kinds: the file-system errors are `ENOENT`, `ENOTDIR`, `EEXIST`
  and `EISDIR` only (no permission or disk-full errors).
- ScratchCreator.CreateFile: writes the content `Templates.Render` gives,
  with the fill values inserted literally, which is the intended behaviour
  recorded under "## Findings". The source's `replace` would expand `$`
  patterns in a fill value (`Templates.RenderAsWritten`). The two agree
  whenever no fill value holds a `$` (`Templates.RenderAsWrittenAgrees`).
- Threshold boundary: a file dated exactly `thresholdDays` before today is
  moved only when `now` is strictly after midnight UTC. This follows the
  code's strict `<` on instants (`src/extension.ts:322`) and not a
  day-granular "at least `thresholdDays` old".

## Findings

| source | as written | input that shows it | evidently intended | confidence | as-written member | corrected member |
|---|---|---|---|---|---|---|
| src/extension.ts:212-214 | passing `data.title` (and the username and date) as the replacement string of `String.prototype.replace` expands `$$`, `$&`, `` $` `` and `$'` | the content `{{title}}` with the title `$&` renders as `{{title}}`, not `$&` | the fill value is inserted literally | not executed | Templates.RenderAsWrittenDollarTitle (on Templates.RenderAsWritten / Templates.ReplaceFirstAsWritten) | Templates.Render / Templates.ReplaceFirst, with Templates.RenderEachOnce and Templates.RenderFirstOccurrenceOnly; ScratchCreator.CreateFile uses Templates.Render |
