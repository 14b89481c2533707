/**
  What `RunConversion` does to the file system, as functions of the state it starts from.
  The run is a chain of stages; each check that fails sets `Status.Text` to an error and
  returns, and an exception that escapes leaves the status empty. None of these functions
  depends on the order in which a directory is enumerated.
 */
module Pipeline {
  import opened Wrappers
  import opened Text
  import opened Listing
  import opened Selection
  import opened Storage
  import opened Artifacts

  /**
    `Status.Text`: `Empty` is the empty string the run starts from; each other value stands
    for one of the localized resource strings, which are distinct and not blank.
   */
  datatype Status = Empty | ErrorConvertion | ErrorDirectoryTf2 | ErrorCreateMks | ErrorCreateSht | ConvertionDone

  /**
    An external program (mksheet.exe, vtex.exe) started in a working directory with a command
    line on the file system as it is, and waited for: the files it leaves and the directories
    it creates, or None when `Process.Start` throws.
   */
  type Tool = (Path, string, Disk) -> Option<Effect>

  /** What the run reads from outside the file system. */
  datatype Environment = Environment(
    appPath: Path,                       // `Directory.GetCurrentDirectory()`
    installPath: Option<Path>,           // the registry's Steam `InstallPath`; None for null
    browsed: Option<Path>,               // what `FindTf2Directory` returns; None for null
    encode: Content -> Option<Content>,  // decode a PNG and encode it as TGA; None when `Bitmap` throws
    mksheet: Tool,
    vtex: Tool)

  /** The window's inputs: the loop and VMT check boxes, the export name and the blend box. */
  datatype Options = Options(loopMaterial: bool, exportName: string, createVmt: bool, blendFrames: bool)

  /** The status a run ends with, the file system it leaves, and the exception that escaped, if any. */
  datatype Outcome = Outcome(status: Status, disk: Disk, thrown: Option<Exception>)

  // ---------------------------------------------------------------- paths

  /** `frames\` and `frames\converted\` are relative paths: they lie under the current directory. */
  function FramesDir(app: Path): Path { app + "\\frames\\" }
  function ConvertedDir(app: Path): Path { app + "\\frames\\converted\\" }

  /** `frames\{i}.png`. */
  function SourcePath(app: Path, i: nat): Path { FramesDir(app) + FrameName(Source, i) }

  /** `frames\converted\frame_{i}.tga`. */
  function ConvertedPath(app: Path, i: nat): Path { ConvertedDir(app) + FrameName(Converted, i) }

  function MaterialSrc(tf2: Path): Path { tf2 + "usermod\\materialsrc\\" }
  function VtfSource(tf2: Path, base: string): Path { tf2 + "materials\\" + VtfName(base) }
  function VtfTarget(app: Path, base: string): Path { ConvertedDir(app) + base + ".vtf" }
  function VmtTarget(app: Path, base: string): Path { ConvertedDir(app) + base + ".vmt" }

  /** `dir + "frame_1.tga"` .. `dir + "frame_k.tga"`. */
  function FrameRange(dir: Path, k: nat): set<Path>
  {
    if k == 0 then {} else FrameRange(dir, k - 1) + {dir + FrameName(Converted, k)}
  }

  // ---------------------------------------------------------------- listing

  /** The entries of `dir` that the pattern "*." + ext selects. */
  function Selectable(d: Disk, dir: Path, ext: string): set<string>
  {
    set n | n in Entries(d, dir) && EndsWith(n, "." + ext)
  }

  /** What `GetFileList` throws: the directory is missing, or some selected entry has no key. */
  function ListingFailure(d: Disk, dir: Path, ext: string): Option<Exception>
  {
    if !DirectoryExists(d, Some(dir)) then Some(DirectoryNotFound)
    else if forall n :: n in Selectable(d, dir, ext) ==> HasKey(n) then None
    else Some(BadFrameName)
  }

  /** How many numbered names a selection loop over `dir` takes. */
  function Taken(d: Disk, dir: Path, p: Pattern): nat
  {
    RunLength(Selectable(d, dir, PatternExtension(p)), p, PatternStart(p))
  }

  // ---------------------------------------------------------------- file steps

  /** `CopyFile(src, dst, remove)`: copy, then delete the source when asked. */
  function CopiedFile(f: map<Path, Content>, src: Path, dst: Path, remove: bool): (map<Path, Content>, Option<Exception>)
  {
    var (g, e) := Copied(f, src, dst);
    if e.Some? || !remove then (g, e) else (g - {src}, None)
  }

  /**
    The png loop after it has taken `0.png` .. `(n-1).png`: each read from the current files
    and saved as `frame_{i+1}.tga`, stopping at the first exception.
   */
  function SaveFrames(f: map<Path, Content>, app: Path, encode: Content -> Option<Content>, n: nat): (map<Path, Content>, Option<Exception>)
  {
    if n == 0 then (f, None)
    else
      var (g, e) := SaveFrames(f, app, encode, n - 1);
      var src := SourcePath(app, n - 1);
      if e.Some? then (g, e)
      else if src !in g then (g, Some(FileNotFound))
      else match encode(g[src])
        case None => (g, Some(ImageUnreadable))
        case Some(c) => (g[ConvertedPath(app, n) := c], None)
  }

  /** The tga loop after it has taken `frame_1.tga` .. `frame_m.tga`, each copied into the TF2 directory. */
  function CopyFrames(f: map<Path, Content>, app: Path, tf2: Path, m: nat): (map<Path, Content>, Option<Exception>)
  {
    if m == 0 then (f, None)
    else
      var (g, e) := CopyFrames(f, app, tf2, m - 1);
      if e.Some? then (g, e) else Copied(g, ConvertedPath(app, m), tf2 + FrameName(Converted, m))
  }

  /**
    The purge loop: every top-level `.tga` file of the TF2 directory is deleted, and for the
    k-th of them `frames\converted\frame_k.tga` too.
   */
  function Purged(f: map<Path, Content>, app: Path, tf2: Path): map<Path, Content>
  {
    var s := TopLevelFiles(f, tf2, ".tga");
    f - s - FrameRange(ConvertedDir(app), |s|)
  }

  /** The registry's Steam path when that directory exists, else what the folder dialog gave. */
  function Tf2Path(d: Disk, env: Environment): Option<Path>
  {
    var candidate := env.installPath.GetOr("") + SteamSuffix;
    if DirectoryExists(d, Some(candidate)) then Some(candidate) else env.browsed
  }

  // ---------------------------------------------------------------- the run

  /** The whole run, from `Status.Text = ""` to the end. */
  function Conversion(d: Disk, env: Environment, opts: Options): Outcome
  {
    var app := env.appPath;
    var failure := ListingFailure(d, FramesDir(app), "png");
    if failure.Some? then Outcome(Empty, d, failure)
    else
      var n := Taken(d, FramesDir(app), Source);
      var (f, e) := SaveFrames(d.files, app, env.encode, n);
      if e.Some? then Outcome(Empty, Disk(f, d.dirs), e)
      else if n == 0 then Outcome(ErrorConvertion, Disk(f, d.dirs), None)
      else Locate(Disk(f, d.dirs), env, opts)
  }

  /** Finding the TF2 `bin` directory, and the ERROR_DIRECTORY_TF2 check. */
  function Locate(d: Disk, env: Environment, opts: Options): Outcome
  {
    var tf2 := Tf2Path(d, env);
    if !DirectoryExists(d, tf2) then Outcome(ErrorDirectoryTf2, d, None)
    else Install(d, tf2.value, env, opts)
  }

  /** Creating `usermod\materialsrc` and copying gameinfo.txt into `bin`. */
  function Install(d: Disk, tf2: Path, env: Environment, opts: Options): Outcome
  {
    var matsrc := tf2 + "usermod\\materialsrc";
    var dirs := if DirectoryExists(d, Some(matsrc)) then d.dirs else d.dirs + {Norm(matsrc)};
    var (f, e) := Copied(d.files, GameinfoSource(tf2), tf2 + "gameinfo.txt");
    if e.Some? then Outcome(Empty, Disk(f, dirs), e)
    else Manifest(Disk(f, dirs), tf2, env, opts)
  }

  /** The tga loop, the MKS file, and the ERROR_CREATE_MKS check. */
  function Manifest(d: Disk, tf2: Path, env: Environment, opts: Options): Outcome
  {
    var app := env.appPath;
    var failure := ListingFailure(d, ConvertedDir(app), "tga");
    if failure.Some? then Outcome(Empty, d, failure)
    else
      var m := Taken(d, ConvertedDir(app), Converted);
      var (f, e) := CopyFrames(d.files, app, tf2, m);
      if e.Some? then Outcome(Empty, Disk(f, d.dirs), e)
      else
        var mks := tf2 + MksName(BaseName(opts.exportName));
        var f' := f[mks := Joined(ManifestLines(opts.loopMaterial, m))];
        if mks !in f' then Outcome(ErrorCreateMks, Disk(f', d.dirs), None)
        else Sheet(Disk(f', d.dirs), tf2, env, opts)
  }

  /** The command line of mksheet.exe: the MKS file, then the sheet and the image it is to write. */
  function SheetCommand(b: string): string
  {
    MksName(b) + " " + ShtName(b) + " " + TgaName(b)
  }

  /** mksheet.exe, and the ERROR_CREATE_SHT check. */
  function Sheet(d: Disk, tf2: Path, env: Environment, opts: Options): Outcome
  {
    var b := BaseName(opts.exportName);
    match env.mksheet(tf2, SheetCommand(b), d)
    case None => Outcome(Empty, d, Some(ProcessStartFailed))
    case Some(out) =>
      if tf2 + ShtName(b) !in out.files || tf2 + TgaName(b) !in out.files then Outcome(ErrorCreateSht, After(d, out), None)
      else Pack(After(d, out), tf2, env, opts)
  }

  /** Deleting the MKS file and moving the sheet and its image from `bin` to `materialsrc`. */
  function Packed(f: map<Path, Content>, tf2: Path, b: string): (map<Path, Content>, Option<Exception>)
  {
    var f0 := f - {tf2 + MksName(b)};
    var (f1, e1) := CopiedFile(f0, tf2 + ShtName(b), MaterialSrc(tf2) + ShtName(b), true);
    if e1.Some? then (f1, e1) else CopiedFile(f1, tf2 + TgaName(b), MaterialSrc(tf2) + TgaName(b), true)
  }

  /** The moves, then the purge. */
  function Pack(d: Disk, tf2: Path, env: Environment, opts: Options): Outcome
  {
    var (f, e) := Packed(d.files, tf2, BaseName(opts.exportName));
    if e.Some? then Outcome(Empty, Disk(f, d.dirs), e)
    else if !DirectoryExists(d, Some(tf2)) then Outcome(Empty, Disk(f, d.dirs), Some(DirectoryNotFound))
    else Finish(Disk(Purged(f, env.appPath, tf2), d.dirs), tf2, env, opts)
  }

  /** vtex.exe, moving the VTF out, deleting the sheet files, the optional VMT, CONVERTION_DONE. */
  function Finish(d: Disk, tf2: Path, env: Environment, opts: Options): Outcome
  {
    var app := env.appPath;
    var b := BaseName(opts.exportName);
    match env.vtex(tf2, "\"" + MaterialSrc(tf2) + ShtName(b) + "\"", d)
    case None => Outcome(Empty, d, Some(ProcessStartFailed))
    case Some(out) =>
      var dirs := After(d, out).dirs;
      var (f1, e) := CopiedFile(out.files, VtfSource(tf2, b), VtfTarget(app, b), true);
      if e.Some? then Outcome(Empty, Disk(f1, dirs), e)
      else
        var f2 := f1 - {MaterialSrc(tf2) + ShtName(b)} - {MaterialSrc(tf2) + TgaName(b)};
        var f3 := if opts.createVmt then f2[VmtTarget(app, b) := Joined(VmtLines(b, opts.blendFrames))] else f2;
        Outcome(ConvertionDone, Disk(f3, dirs), None)
  }

  // ---------------------------------------------------------------- folds

  /** Once a fold has thrown, later steps change nothing. */
  lemma {:induction false} SaveFramesStuck(f: map<Path, Content>, app: Path, encode: Content -> Option<Content>, j: nat, k: nat)
    requires j <= k && SaveFrames(f, app, encode, j).1.Some?
    ensures SaveFrames(f, app, encode, k) == SaveFrames(f, app, encode, j)
    decreases k
  {
    if j < k {
      SaveFramesStuck(f, app, encode, j, k - 1);
    }
  }

  /** One more step of the tga loop after `m` frames were copied without an exception. */
  lemma CopyFramesNext(f: map<Path, Content>, app: Path, tf2: Path, m: nat)
    requires CopyFrames(f, app, tf2, m).1.None?
    ensures CopyFrames(f, app, tf2, m + 1)
         == Copied(CopyFrames(f, app, tf2, m).0, ConvertedPath(app, m + 1), tf2 + FrameName(Converted, m + 1))
  {
  }

  lemma {:induction false} CopyFramesStuck(f: map<Path, Content>, app: Path, tf2: Path, j: nat, k: nat)
    requires j <= k && CopyFrames(f, app, tf2, j).1.Some?
    ensures CopyFrames(f, app, tf2, k) == CopyFrames(f, app, tf2, j)
    decreases k
  {
    if j < k {
      CopyFramesStuck(f, app, tf2, j, k - 1);
    }
  }
}
