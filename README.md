# TF2 particle converter: a verified model of the conversion

The window of the TF2 particle tool turns a numbered image sequence into a Source-engine
particle sheet. `frames\0.png`, `frames\1.png`, ... are converted to
`frames\converted\frame_1.tga`, `frame_2.tga`, .... Then the tool:

- writes an MKS manifest naming those frames into the game's `bin` directory;
- runs `mksheet.exe` and then `vtex.exe` there;
- moves the resulting VTF back to `frames\converted\`;
- optionally writes a VMT material beside it.

Every check that fails puts an error string into the status line and ends the run. An
exception thrown by the file API ends the run with the status still empty.

This project models that conversion, `RunConversion` and its helpers `GetFileList`,
`CopyFile` and `WriteToFile`, over an abstract file system. The file system is a map from
path to content plus a set of directory paths. Both copies of the window code are modelled:
`src/TF2.ParticleTool/MainWindow.xaml.cs` and the older
`src/TF2-ParticleConverter/MainWindow.xaml.cs`. They behave the same; the first only adds
logging. The table cites the first. The corresponding lines of the second are:

| ParticleTool | ParticleConverter | what |
|---|---|---|
| 37-200 | 28-171 | `RunConversion` |
| 42-58 | 32-44 | png loop |
| 61-66 | 47-48 | ERROR_CONVERTION |
| 71-80 | 53-59 | TF2 directory |
| 83-87 | 62-65 | `materialsrc` and gameinfo.txt |
| 92-108 | 70-84 | manifest and tga loop |
| 111-121 | 87-97 | names, MKS file, ERROR_CREATE_MKS |
| 126-139 | 102-113 | mksheet.exe, ERROR_CREATE_SHT |
| 144-155 | 118-129 | moves and purge |
| 160-175 | 134-148 | vtex.exe and VTF move |
| 179-196 | 152-169 | VMT, CONVERTION_DONE |
| 226-233 | 197-204 | `CopyFile` |
| 240-249 | 211-219 | `WriteToFile` |
| 272-277 | 241-244 | `GetFileList` |

## Layout

- `wrappers.dfy`: `Option`.
- `text.dfy`: string facts the code relies on:
  - `int.Parse` on a digit string, with its 32-bit limit;
  - `Contains` and `EndsWith`;
  - `Replace`, which replaces every occurrence;
  - `IsNullOrWhiteSpace`;
  - `FileSystemInfo.Extension`.
- `listing.dfy`: the pure part of `GetFileList`. It matches the pattern, computes the sort
  key, and sorts stably (LINQ `OrderBy`).
- `selection.dfy`: the two selection loops as a function `Scan` over the sorted listing,
  and the reference definition `RunLength`, the longest gap-free run of expected names.
- `filesystem.dfy`: the file system as a class `FileSystem` whose methods are the .NET
  calls the code makes; directory listing in an order the caller cannot choose.
- `artifacts.dfy`: the text the run writes:
  - the manifest lines and the VMT lines;
  - the line-by-line file format of `WriteLine`;
  - the derived file names;
  - the gameinfo source path.
- `pipeline.dfy`: the specification. `Conversion` gives the whole run as a function from
  the starting file system to the final status, file system and escaped exception. It is a
  chain of stage functions, one per block of the source.
- `mainwindow.dfy`: class `MainWindow` with the field `status`. Its methods are the source's
  `GetFileList`, `CopyFile`, `WriteToFile` and `RunConversion`, written imperatively:
  `foreach` loops with counters, a line list that grows, and file calls on the shared
  `FileSystem`. The body of `RunConversion` is split into stage methods (`FindGame`,
  `WriteManifest`, `MakeSheet`, `PackSheet`, `MakeTexture`) and loop methods, each one a
  consecutive block of that single source method called at its end. Each method is proved
  to end in the state its `Pipeline` function gives.
- `properties.dfy`: what those functions mean: the effect of each loop, of the moves and of
  the purge, and what every final status says about the files left behind.

## Model

| member | source | states |
|---|---|---|
| Text.ParseOfNatToString | src/TF2.ParticleTool/MainWindow.xaml.cs:275-276 | `int.Parse` of a decimal numeral yields its value exactly when that fits a 32-bit `int`, and fails beyond it |
| Text.ExtensionOfSuffix | src/TF2.ParticleTool/MainWindow.xaml.cs:276 | `Extension` of a name ending in "." + ext (no dot in ext) is "." + ext |
| Text.ReplaceAllRemovesEvery | src/TF2.ParticleTool/MainWindow.xaml.cs:87 | `Replace(pat, rep)` with disjoint pattern and replacement leaves no occurrence of the pattern |
| Listing.ParsedKey | src/TF2.ParticleTool/MainWindow.xaml.cs:275-276 | the `OrderBy` key selector: skip 6 characters iff the name contains "frame_", drop the extension, and `int.Parse` the rest; None where `Substring` or `int.Parse` would throw |
| Listing.Matching | src/TF2.ParticleTool/MainWindow.xaml.cs:274 | the pattern "*." + ext selects exactly the entries whose name ends in "." + ext |
| Listing.OrderByCorrect | src/TF2.ParticleTool/MainWindow.xaml.cs:274-276 | the `OrderBy` result is sorted by key, is a permutation of its input, and keeps entries with equal keys in input order |
| Listing.FileList | src/TF2.ParticleTool/MainWindow.xaml.cs:272-277 | the pure part of `GetFileList`: the selected entries sorted stably by `Key`, or None when some selected entry has no key |
| Listing.FileListOnce | src/TF2.ParticleTool/MainWindow.xaml.cs:274 | over an enumeration that lists each entry once, the listing lists each selected entry once |
| Listing.FileListCorrect | src/TF2.ParticleTool/MainWindow.xaml.cs:272-277 | the listing fails iff some selected name has no key. Otherwise it holds exactly the selected names, sorted by key, as a permutation, stably |
| Selection.FrameNameInjective | src/TF2.ParticleTool/MainWindow.xaml.cs:103 | different counter values expect different names (as do the png names compared at line 45) |
| Selection.FrameNameKey | src/TF2.ParticleTool/MainWindow.xaml.cs:274-276 | the sort key of "{i}.png" and of "frame_{i}.tga" is i, and exists iff i fits an `int` |
| Selection.Scan | src/TF2.ParticleTool/MainWindow.xaml.cs:42-58 | one selection loop over a listing: the counter moves on exactly when the entry is the name expected for it; the final counter is at least the start |
| Selection.RunLengthIsMaximal | src/TF2.ParticleTool/MainWindow.xaml.cs:42-58 | `RunLength` is the longest gap-free run: every expected name in it is present, and the next one is not |
| Selection.ScanStopsAtGap | src/TF2.ParticleTool/MainWindow.xaml.cs:100-108 | over a key-sorted listing, the loop has seen every expected name below its final counter, and the name for the final counter is absent |
| Selection.ScanIsRunLength | src/TF2.ParticleTool/MainWindow.xaml.cs:42-58 | the final counter is start + the maximal gap-free run over the listed set, whatever the enumeration order |
| Storage.Entries | src/TF2.ParticleTool/MainWindow.xaml.cs:274 | `GetFileSystemInfos` sees exactly the names of files and directories directly inside the directory |
| Storage.TopLevelFiles | src/TF2.ParticleTool/MainWindow.xaml.cs:150 | `GetFiles(dir, "*.tga", TopDirectoryOnly)` returns exactly the files directly inside whose name ends in ".tga" |
| Storage.Enumerate | src/TF2.ParticleTool/MainWindow.xaml.cs:150 | the directory enumeration lists each element exactly once, in an order the caller cannot choose |
| Storage.FileSystem.Delete | src/TF2.ParticleTool/MainWindow.xaml.cs:144 | `File.Delete` removes one path, has no effect when it is absent, and changes nothing else |
| Storage.FileSystem.Copy | src/TF2.ParticleTool/MainWindow.xaml.cs:229 | `File.Copy(src, dst, true)` overwrites dst with src's content, or throws when src is missing |
| Storage.FileSystem.Save | src/TF2.ParticleTool/MainWindow.xaml.cs:56 | `TGA.Save` writes one file |
| Storage.FileSystem.CreateText | src/TF2.ParticleTool/MainWindow.xaml.cs:246 | `File.CreateText` leaves an empty file |
| Storage.FileSystem.Append | src/TF2.ParticleTool/MainWindow.xaml.cs:248 | a write appends to the open file |
| Storage.FileSystem.CreateDirectory | src/TF2.ParticleTool/MainWindow.xaml.cs:83-84 | `Directory.CreateDirectory` adds the directory |
| Storage.FileSystem.Replace | src/TF2.ParticleTool/MainWindow.xaml.cs:126-133 | an external process leaves the files it leaves and adds the directories it creates |
| Storage.FileSystem.ListEntries | src/TF2.ParticleTool/MainWindow.xaml.cs:274 | throws DirectoryNotFound iff the directory is missing; otherwise lists exactly its entries, each once |
| Storage.FileSystem.ListFiles | src/TF2.ParticleTool/MainWindow.xaml.cs:150 | throws iff the directory is missing; otherwise lists exactly its top-level files with the suffix, each once |
| Artifacts.JoinedSnoc | src/TF2.ParticleTool/MainWindow.xaml.cs:247-248 | writing one more line appends that line and a line break |
| Artifacts.ReadJoined | src/TF2.ParticleTool/MainWindow.xaml.cs:240-249 | a file written from lines without line breaks reads back as exactly those lines, in order |
| Artifacts.FrameLinesAt | src/TF2.ParticleTool/MainWindow.xaml.cs:102-108 | m frame lines, the (i-1)-th naming frame i |
| Artifacts.ManifestShape | src/TF2.ParticleTool/MainWindow.xaml.cs:92-108 | the manifest has 1 + (loop ? 1 : 0) + m lines. Line 0 is "sequence 0", line 1 is "loop" iff the loop option is set, then "frame frame_{i}.tga 1" for i = 1..m, ascending |
| Artifacts.ManifestReadsBack | src/TF2.ParticleTool/MainWindow.xaml.cs:92-117 | the written MKS file reads back as exactly the manifest lines |
| Artifacts.BaseNameCorrect | src/TF2.ParticleTool/MainWindow.xaml.cs:111 | the export name is kept exactly when it is not null or blank; the base name is never blank, so deriving it again changes nothing |
| Artifacts.DerivedNames | src/TF2.ParticleTool/MainWindow.xaml.cs:112-115 | the four names are "mks_" + base + .mks/.sht/.tga/.vtf, pairwise distinct, each determining its base |
| Artifacts.VmtCorrect | src/TF2.ParticleTool/MainWindow.xaml.cs:182-192 | the VMT has 8 lines, a SpriteCard block with `$basetexture` = particles/{fileName}, and `$blendframes` "1" iff blending is chosen, else "0"; distinct inputs give distinct files |
| Artifacts.GameinfoSourceHasNoBin | src/TF2.ParticleTool/MainWindow.xaml.cs:87 | every "bin" of the TF2 path is replaced in the gameinfo source directory |
| Artifacts.GameinfoOfSteamPath | src/TF2.ParticleTool/MainWindow.xaml.cs:71-87 | for the Steam library path (without "bin" in it), gameinfo.txt is copied from `Team Fortress 2\tf\` |
| Pipeline.Tf2Path | src/TF2.ParticleTool/MainWindow.xaml.cs:70-76 | the Steam path + `steamapps\common\Team Fortress 2\bin\` when that directory exists, else what `FindTf2Directory` returns |
| Pipeline.SaveFrames | src/TF2.ParticleTool/MainWindow.xaml.cs:43-58 | the png loop's file effect: `{i}.png` decoded and saved as `frame_{i+1}.tga` for i = 0..n-1, stopping at the first exception |
| Pipeline.CopyFrames | src/TF2.ParticleTool/MainWindow.xaml.cs:102-108 | the tga loop's file effect: `frame_{i}.tga` copied into the TF2 directory for i = 1..m, stopping at the first exception |
| Pipeline.Purged | src/TF2.ParticleTool/MainWindow.xaml.cs:149-155 | the purge's file effect: every top-level `.tga` of the TF2 directory and converted frames 1..K deleted |
| Pipeline.Conversion | src/TF2.ParticleTool/MainWindow.xaml.cs:37-66 | the whole run: the png listing and loop, ERROR_CONVERTION when no frame was taken, then `Locate` |
| Pipeline.Locate | src/TF2.ParticleTool/MainWindow.xaml.cs:70-80 | ERROR_DIRECTORY_TF2 when `Tf2Path` is not a directory, else `Install` |
| Pipeline.Install | src/TF2.ParticleTool/MainWindow.xaml.cs:82-87 | `materialsrc` created when missing, gameinfo.txt copied from the `tf` directory, then `Manifest` |
| Pipeline.Manifest | src/TF2.ParticleTool/MainWindow.xaml.cs:91-121 | the tga listing and loop, the MKS file written, ERROR_CREATE_MKS when it is missing, then `Sheet` |
| Pipeline.Sheet | src/TF2.ParticleTool/MainWindow.xaml.cs:124-139 | mksheet.exe run, ERROR_CREATE_SHT when the sheet or its image is missing, then `Pack` |
| Pipeline.Pack | src/TF2.ParticleTool/MainWindow.xaml.cs:142-155 | MKS deleted, sheet and image moved to `materialsrc`, the purge, then `Finish` |
| Pipeline.Finish | src/TF2.ParticleTool/MainWindow.xaml.cs:158-196 | vtex.exe run, the VTF moved to `frames\converted\`, the sheet files deleted, the VMT when chosen, CONVERTION_DONE |
| Pipeline.SaveFramesStuck | src/TF2.ParticleTool/MainWindow.xaml.cs:43-58 | once an exception escapes the png loop, no later iteration runs |
| Pipeline.CopyFramesStuck | src/TF2.ParticleTool/MainWindow.xaml.cs:102-108 | once an exception escapes the tga loop, no later iteration runs |
| ParticleTool.MainWindow.GetFileList | src/TF2.ParticleTool/MainWindow.xaml.cs:272-277 | throws iff the directory is missing or a selected name has no key. Otherwise it returns exactly the selected names, each once, sorted by key |
| ParticleTool.MainWindow.CopyFile | src/TF2.ParticleTool/MainWindow.xaml.cs:226-233 | the target gets the source's prior content and the source is deleted iff `remove`. A missing source throws and changes nothing. Nothing else changes |
| ParticleTool.MainWindow.WriteToFile | src/TF2.ParticleTool/MainWindow.xaml.cs:240-249 | afterwards the file holds exactly the given lines in order, each followed by a line break, whatever it held before; nothing else changes |
| ParticleTool.MainWindow.ConvertFrames | src/TF2.ParticleTool/MainWindow.xaml.cs:42-58 | the png loop ends with counter `Scan` (= the gap-free run) and the files `SaveFrames` gives, or with the exception it gives |
| ParticleTool.MainWindow.CopyFramesToTf2 | src/TF2.ParticleTool/MainWindow.xaml.cs:100-108 | the tga loop copies the files `CopyFrames` gives and appends exactly the frame lines 1..index-1 to the header |
| ParticleTool.MainWindow.PurgeTga | src/TF2.ParticleTool/MainWindow.xaml.cs:149-155 | throws iff the TF2 directory is missing; otherwise leaves the files `Purged` gives |
| ParticleTool.MainWindow.RunConversion | src/TF2.ParticleTool/MainWindow.xaml.cs:37-200 | the run ends in exactly the status, files, directories and exception `Conversion` gives for the starting file system |
| ParticleTool.MainWindow.FindGame | src/TF2.ParticleTool/MainWindow.xaml.cs:71-87 | from the TF2 lookup on, the run follows `Locate` |
| ParticleTool.MainWindow.WriteManifest | src/TF2.ParticleTool/MainWindow.xaml.cs:92-121 | from the manifest on, the run follows `Manifest` |
| ParticleTool.MainWindow.MakeSheet | src/TF2.ParticleTool/MainWindow.xaml.cs:126-139 | from mksheet.exe on, the run follows `Sheet` |
| ParticleTool.MainWindow.PackSheet | src/TF2.ParticleTool/MainWindow.xaml.cs:144-155 | from the moves on, the run follows `Pack` |
| ParticleTool.MainWindow.MakeTexture | src/TF2.ParticleTool/MainWindow.xaml.cs:160-196 | from vtex.exe on, the run follows `Finish` |
| Properties.SourceIsNotConverted | src/TF2.ParticleTool/MainWindow.xaml.cs:48-56 | a png source path is never a converted frame path |
| Properties.TargetIsNotOtherSource | src/TF2.ParticleTool/MainWindow.xaml.cs:106 | copying frame j into the TF2 directory never overwrites converted frame i != j, wherever the TF2 directory is |
| Properties.SaveFramesKeepsOthers | src/TF2.ParticleTool/MainWindow.xaml.cs:42-58 | the png loop over n frames changes no file outside frame_1.tga .. frame_n.tga, whether or not it throws |
| Properties.SourceUntouched | src/TF2.ParticleTool/MainWindow.xaml.cs:48 | every png is read as it was before the loop |
| Properties.SaveFramesFails | src/TF2.ParticleTool/MainWindow.xaml.cs:48-56 | the png loop throws iff one of 0.png .. (n-1).png is missing or not an image, with FileNotFound or ImageUnreadable |
| Properties.SaveFramesWrites | src/TF2.ParticleTool/MainWindow.xaml.cs:45-57 | after the png loop, frame_{i+1}.tga holds the encoding of {i}.png for every i < n |
| Properties.CopyFramesKeepsOthers | src/TF2.ParticleTool/MainWindow.xaml.cs:102-108 | the tga loop over m frames changes no file outside the TF2 directory's frame_1.tga .. frame_m.tga, whether or not it throws |
| Properties.FrameSourceUntouched | src/TF2.ParticleTool/MainWindow.xaml.cs:106 | the first m copies leave every later converted frame as it was |
| Properties.CopyFramesFails | src/TF2.ParticleTool/MainWindow.xaml.cs:106 | the tga loop throws iff one of frame_1 .. frame_m is missing, and then with FileNotFound |
| Properties.CopyFramesWrites | src/TF2.ParticleTool/MainWindow.xaml.cs:102-108 | when the tga loop completes, each of frame_1 .. frame_m is in the TF2 directory with the content of its converted original |
| Properties.ConvertedFramesListed | src/TF2.ParticleTool/MainWindow.xaml.cs:100-108 | the manifest counts at least the frames this run converted. Stale frame files that continue the run are counted too |
| Properties.PackPathsDistinct | src/TF2.ParticleTool/MainWindow.xaml.cs:144-146 | the MKS, sheet and image paths in `bin` and in `materialsrc` are pairwise distinct |
| Properties.PackedEffect | src/TF2.ParticleTool/MainWindow.xaml.cs:144-146 | the moves succeed iff sheet and image are in `bin`. Then the MKS, sheet and image are gone from `bin` and the sheet and image are in `materialsrc` with their content. Nothing else changes |
| Properties.PurgeEffect | src/TF2.ParticleTool/MainWindow.xaml.cs:149-155 | no top-level `.tga` is left in the TF2 directory, and frames\converted\frame_1..frame_K are gone (K = how many there were). Every other file is kept |
| Properties.FinishPathsDistinct | src/TF2.ParticleTool/MainWindow.xaml.cs:171-193 | the VTF source, VTF target, VMT and the two `materialsrc` files are distinct paths |
| Properties.FinishOutcome | src/TF2.ParticleTool/MainWindow.xaml.cs:160-196 | a missing VTF throws rather than setting a status. CONVERTION_DONE shows iff vtex.exe left the VTF. Then the delivered VTF is the file vtex.exe produced, it is gone from `materials`, the sheet files are deleted, the VMT is written when chosen, and every other file is as vtex.exe left it |
| Properties.PackOutcome | src/TF2.ParticleTool/MainWindow.xaml.cs:144-196 | after the moves either an exception escapes with an empty status, or the run ends in CONVERTION_DONE with the delivered files in place; no directory is removed |
| Properties.SheetOutcome | src/TF2.ParticleTool/MainWindow.xaml.cs:126-139 | ERROR_CREATE_SHT shows iff mksheet.exe started and left the sheet or its image missing from `bin`; the run then ends with the file system exactly as mksheet.exe left it (no move, purge or vtex.exe) |
| Properties.ManifestOutcome | src/TF2.ParticleTool/MainWindow.xaml.cs:100-121 | ERROR_CREATE_MKS never shows: the MKS file always exists once written. Unless an exception escapes first, the run goes on to mksheet.exe with the file system `ManifestEnd` gives |
| Properties.InstallOutcome | src/TF2.ParticleTool/MainWindow.xaml.cs:82-87 | from its creation on, `materialsrc` exists however the run ends, exception included; up to mksheet.exe it is the only directory the run adds |
| Properties.SheetStartCorrect | src/TF2.ParticleTool/MainWindow.xaml.cs:37-139 | the run reaches mksheet.exe exactly when `SheetStart` gives its file system and TF2 directory, and from there ends as `Sheet` says. Otherwise it ends with an exception, ERROR_CONVERTION or ERROR_DIRECTORY_TF2 |
| Properties.LocateOutcome | src/TF2.ParticleTool/MainWindow.xaml.cs:70-80 | ERROR_DIRECTORY_TF2 shows iff neither the Steam path nor the chosen folder is a directory, and then nothing changes |
| Properties.ConversionOutcome | src/TF2.ParticleTool/MainWindow.xaml.cs:37-200 | see below |

`Properties.ConversionOutcome` states six things about the whole run:

- An exception escapes iff the status is left empty.
- ERROR_CONVERTION shows iff `frames\` lists without error but holds no 0.png, and then
  nothing has changed; in particular nothing in the TF2 directory.
- ERROR_DIRECTORY_TF2 shows iff `frames\` lists without error, at least one frame (0.png)
  was taken, every taken frame converted, and neither the Steam path nor the chosen folder
  is a directory; then only converted frames were written.
- ERROR_CREATE_MKS never shows.
- ERROR_CREATE_SHT shows iff the run reaches mksheet.exe and mksheet.exe leaves the sheet or
  its image missing. The file system is then exactly as mksheet.exe left it.
- CONVERTION_DONE implies that the TF2 directory exists, `materialsrc` exists, and the
  delivered files are in place.

## Left out

- The WPF and WinForms user interface is not modelled:
  - the status and file-list widgets;
  - the click handlers;
  - `CheckForFiles`;
  - the `Process.Start` that opens Explorer at the end.

  The status line is the `status` field.
- The `FolderBrowserDialog` loop of `FindTf2Directory` is not modelled. What it returns, a
  folder path or null, is the parameter `browsed`.
- The Steam `InstallPath` registry value and `Directory.GetCurrentDirectory()` are
  parameters. Relative paths such as `frames\0.png` are taken to resolve as the current
  directory + "\frames\...". Other path canonicalisation is not modelled, and paths compare
  as exact strings.
- Image decoding, the 32-bit clone and the TGA conversion are one parameter `encode` from
  file content to file content. Its failure stands for any exception `new Bitmap` throws.
- `mksheet.exe` and `vtex.exe` are parameters: functions from working directory, command
  line and file system to the files they leave behind and the directories they create.
  None stands for `Process.Start` throwing.
- Storage.FileSystem.Replace: an external process may create directories but is modelled
  as never removing one. The directory clauses of the outcome lemmas rely on this.
- Properties.InstallOutcome: directories that mksheet.exe and vtex.exe create are not
  listed. The lemma says only that the starting directories and `materialsrc` are kept.
  `FinishOutcome`, and `SheetOutcome` on ERROR_CREATE_SHT, give the directories exactly: those before the tool plus those it created.
- Logging calls are not modelled. The localized resource strings are modelled as distinct
  constants that are not blank.
- `Directory.GetFileSystemInfos` and `Directory.GetFiles` are not modelled in full:
  - Matching is case-sensitive, on the name's suffix.
  - The Windows quirk that "*.tga" also matches longer extensions is not modelled.
  - The directory's own subdirectories are listed as for `GetFileSystemInfos`.
- `int.Parse` accepts only non-empty digit strings. It has no sign, no surrounding white
  space and no culture-specific digits.
- `Environment.NewLine` is modelled as "\n".
- Writes do not check that the parent directory exists, and never throw for that reason.
  `Directory.CreateDirectory` does not add missing ancestors. `File.Copy` of a file onto
  itself does not throw.
- ParticleTool.MainWindow.ConvertFrames: the counter is an unbounded integer. The source's
  `int` would overflow only after two billion frames, and a frame number that large has no
  sort key anyway.
- Concurrent changes to the file system while the run is in progress are not modelled.
- Properties.FinishOutcome: what vtex.exe writes into the VTF is not described. The lemma
  says only that the delivered VTF is the file vtex.exe left in `materials`.
