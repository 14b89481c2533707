/**
  The window's conversion code, step by step over a mutable file system: `RunConversion`
  and its helpers `GetFileList`, `CopyFile` and `WriteToFile`. Each method is proved to
  leave the state the functions of `Pipeline` describe.
 */
module ParticleTool {
  import opened Wrappers
  import opened Text
  import opened Listing
  import opened Selection
  import opened Storage
  import opened Artifacts
  import opened Pipeline

  class MainWindow {
    /** `Status.Text`. */
    var status: Status

    constructor ()
      ensures status == Empty
    {
      status := Empty;
    }

    /**
      The entries of `directory` that "*." + extension selects, ordered by their number; throws
      when the directory is missing or some selected name has no number.
     */
    static method GetFileList(fs: FileSystem, directory: Path, extension: string)
      returns (list: seq<string>, thrown: Option<Exception>)
      ensures thrown == ListingFailure(fs.State(), directory, extension)
      ensures thrown.None? ==> SortedByKey(list) && (forall x :: x in list ==> HasKey(x))
      ensures thrown.None? ==> forall x :: x in list <==> x in Selectable(fs.State(), directory, extension)
      ensures thrown.None? ==> Distinct(list)
    {
      var entries, e := fs.ListEntries(directory);
      if e.Some? {
        return [], e;
      }
      FileListCorrect(entries, extension);
      FileListOnce(entries, extension);
      var sorted := FileList(entries, extension);
      if sorted.None? {
        return [], Some(BadFrameName);
      }
      list, thrown := sorted.value, None;
    }

    /** Copies `source` over `target`, then deletes `source` when `remove` is set. */
    static method CopyFile(fs: FileSystem, source: Path, target: Path, remove: bool) returns (thrown: Option<Exception>)
      modifies fs
      ensures (fs.files, thrown) == CopiedFile(old(fs.files), source, target, remove)
      ensures thrown.None? <==> source in old(fs.files)
      ensures thrown.None? ==> fs.files == old(fs.files)[target := old(fs.files)[source]] - (if remove then {source} else {})
      ensures thrown.Some? ==> fs.files == old(fs.files)
      ensures fs.dirs == old(fs.dirs)
    {
      thrown := fs.Copy(source, target);
      if thrown.Some? {
        return;
      }
      if remove {
        fs.Delete(source);
      }
    }

    /** Replaces whatever `filePath` held by the lines, each followed by a line break. */
    static method WriteToFile(fs: FileSystem, lines: seq<string>, filePath: Path)
      modifies fs
      ensures fs.files == old(fs.files)[filePath := Joined(lines)]
      ensures fs.dirs == old(fs.dirs)
    {
      if fs.FileExists(filePath) {
        fs.Delete(filePath);
      }
      fs.CreateText(filePath);
      var k := 0;
      while k < |lines|
        invariant 0 <= k <= |lines|
        invariant fs.files == old(fs.files)[filePath := Joined(lines[..k])]
        invariant fs.dirs == old(fs.dirs)
      {
        assert lines[..k + 1] == lines[..k] + [lines[k]];
        JoinedSnoc(lines[..k], lines[k]);
        assert Joined(lines[..k + 1]) == Joined(lines[..k]) + (lines[k] + NewLine);
        fs.Append(filePath, lines[k] + NewLine);
        k := k + 1;
      }
      assert lines[..k] == lines;
    }

    /**
      The png loop over a listing: converts `{index}.png` to `frame_{index+1}.tga` while the
      names keep coming in order.
     */
    static method ConvertFrames(fs: FileSystem, app: Path, encode: Content -> Option<Content>, list: seq<string>)
      returns (index: nat, thrown: Option<Exception>)
      modifies fs
      ensures (fs.files, thrown) == SaveFrames(old(fs.files), app, encode, Scan(list, Source, 0))
      ensures thrown.None? ==> index == Scan(list, Source, 0)
      ensures fs.dirs == old(fs.dirs)
    {
      index := 0;
      var k := 0;
      while k < |list|
        invariant 0 <= k <= |list|
        invariant Scan(list[k..], Source, index) == Scan(list, Source, 0)
        invariant SaveFrames(old(fs.files), app, encode, index) == (fs.files, None)
        invariant fs.dirs == old(fs.dirs)
      {
        ScanAt(list, k, Source, index);
        if list[k] == FrameName(Source, index) {
          var src := SourcePath(app, index);
          if !fs.FileExists(src) {
            SaveFramesStuck(old(fs.files), app, encode, index + 1, Scan(list, Source, 0));
            return index, Some(FileNotFound);
          }
          var converted := encode(fs.files[src]);
          if converted.None? {
            SaveFramesStuck(old(fs.files), app, encode, index + 1, Scan(list, Source, 0));
            return index, Some(ImageUnreadable);
          }
          fs.Save(ConvertedPath(app, index + 1), converted.value);
          index := index + 1;
        }
        k := k + 1;
      }
      thrown := None;
    }

    /**
      The tga loop over a listing: for each `frame_{index}.tga` in order, adds its manifest
      line and copies it into the TF2 directory.
     */
    static method CopyFramesToTf2(fs: FileSystem, app: Path, tf2: Path, list: seq<string>, header: seq<string>)
      returns (lines: seq<string>, index: nat, thrown: Option<Exception>)
      modifies fs
      ensures (fs.files, thrown) == CopyFrames(old(fs.files), app, tf2, Scan(list, Converted, 1) - 1)
      ensures thrown.None? ==> index == Scan(list, Converted, 1) && lines == header + FrameLines(index - 1)
      ensures fs.dirs == old(fs.dirs)
    {
      lines, index := header, 1;
      ghost var f0, copied := fs.files, 0;
      var k := 0;
      while k < |list|
        invariant 0 <= k <= |list| && index == copied + 1
        invariant Scan(list[k..], Converted, index) == Scan(list, Converted, 1)
        invariant CopyFrames(f0, app, tf2, copied).0 == fs.files
        invariant CopyFrames(f0, app, tf2, copied).1 == None
        invariant lines == header + FrameLines(copied)
        invariant fs.dirs == old(fs.dirs)
      {
        ghost var rest := list[k..];
        assert rest[0] == list[k] && rest[1..] == list[k + 1..];
        if list[k] == FrameName(Converted, index) {
          assert Scan(rest, Converted, index) == Scan(list[k + 1..], Converted, index + 1);
          lines := lines + [FrameLine(index)];
          assert lines == header + FrameLines(copied + 1) by {
            assert FrameLines(copied + 1) == FrameLines(copied) + [FrameLine(index)];
          }
          CopyFramesNext(f0, app, tf2, copied);
          thrown := fs.Copy(ConvertedPath(app, index), tf2 + FrameName(Converted, index));
          copied := copied + 1;
          if thrown.Some? {
            CopyFramesStuck(f0, app, tf2, copied, Scan(list, Converted, 1) - 1);
            return;
          }
          index := index + 1;
        } else {
          assert Scan(rest, Converted, index) == Scan(list[k + 1..], Converted, index);
        }
        k := k + 1;
      }
      thrown := None;
    }

    /**
      Deletes every top-level `.tga` file of the TF2 directory, and for the k-th of them
      `frames\converted\frame_k.tga`.
     */
    static method PurgeTga(fs: FileSystem, app: Path, tf2: Path) returns (thrown: Option<Exception>)
      modifies fs
      ensures thrown == if DirectoryExists(old(fs.State()), Some(tf2)) then None else Some(DirectoryNotFound)
      ensures fs.files == if thrown.None? then Purged(old(fs.files), app, tf2) else old(fs.files)
      ensures fs.dirs == old(fs.dirs)
    {
      var snapshot;
      snapshot, thrown := fs.ListFiles(tf2, ".tga");
      if thrown.Some? {
        return;
      }
      ghost var f0 := old(fs.files);
      var index := 1;
      while index <= |snapshot|
        invariant 1 <= index <= |snapshot| + 1
        invariant forall p :: p in fs.files <==>
                    p in f0 && p !in Elements(snapshot[..index - 1]) && p !in FrameRange(ConvertedDir(app), index - 1)
        invariant forall p :: p in fs.files ==> fs.files[p] == f0[p]
        invariant fs.dirs == old(fs.dirs)
      {
        fs.Delete(snapshot[index - 1]);
        fs.Delete(ConvertedPath(app, index));
        assert snapshot[..index] == snapshot[..index - 1] + [snapshot[index - 1]];
        index := index + 1;
      }
      assert snapshot[..index - 1] == snapshot;
      assert Elements(snapshot) == TopLevelFiles(f0, tf2, ".tga");
      assert fs.files.Keys == Purged(f0, app, tf2).Keys;
    }

    /**
      The whole conversion. It ends in exactly the state, status and exception that
      `Conversion` gives for the state it started from.
     */
    method RunConversion(fs: FileSystem, env: Environment, opts: Options) returns (thrown: Option<Exception>)
      modifies this, fs
      ensures Outcome(status, fs.State(), thrown) == Conversion(old(fs.State()), env, opts)
    {
      ghost var d0 := fs.State();
      var app := env.appPath;
      status := Empty;
      var pngs;
      pngs, thrown := GetFileList(fs, FramesDir(app), "png");
      if thrown.Some? {
        return;
      }
      ScanIsRunLength(pngs, Selectable(d0, FramesDir(app), "png"), Source, 0);
      ghost var n := Taken(d0, FramesDir(app), Source);
      assert Scan(pngs, Source, 0) == n;
      var index;
      index, thrown := ConvertFrames(fs, app, env.encode, pngs);
      ghost var d1 := Disk(SaveFrames(d0.files, app, env.encode, n).0, d0.dirs);
      assert fs.State() == d1;
      if thrown.Some? {
        return;
      }
      status := if index == 0 then ErrorConvertion else status;
      if status != Empty {
        return;
      }
      assert Conversion(d0, env, opts) == Locate(d1, env, opts);
      thrown := FindGame(fs, env, opts);
    }

    /** From the TF2 directory lookup on: `Locate`. */
    method FindGame(fs: FileSystem, env: Environment, opts: Options) returns (thrown: Option<Exception>)
      requires status == Empty
      modifies this, fs
      ensures Outcome(status, fs.State(), thrown) == Locate(old(fs.State()), env, opts)
    {
      var candidate := env.installPath.GetOr("") + SteamSuffix;
      var tf2Path := if Norm(candidate) in fs.dirs then Some(candidate) else env.browsed;
      status := if !DirectoryExists(fs.State(), tf2Path) then ErrorDirectoryTf2 else status;
      if status != Empty {
        return None;
      }
      var tf2 := tf2Path.value;
      if Norm(tf2 + "usermod\\materialsrc") !in fs.dirs {
        fs.CreateDirectory(tf2 + "usermod\\materialsrc");
      }
      thrown := fs.Copy(GameinfoSource(tf2), tf2 + "gameinfo.txt");
      if thrown.Some? {
        return;
      }
      thrown := WriteManifest(fs, tf2, env, opts);
    }

    /** From the tga loop on: `Manifest`. */
    method WriteManifest(fs: FileSystem, tf2: Path, env: Environment, opts: Options) returns (thrown: Option<Exception>)
      requires status == Empty
      modifies this, fs
      ensures Outcome(status, fs.State(), thrown) == Manifest(old(fs.State()), tf2, env, opts)
    {
      ghost var d := fs.State();
      var app := env.appPath;
      var header := ["sequence 0"];
      if opts.loopMaterial {
        header := header + ["loop"];
      }
      assert header == Header(opts.loopMaterial);
      var tgas;
      tgas, thrown := GetFileList(fs, ConvertedDir(app), "tga");
      if thrown.Some? {
        return;
      }
      ScanIsRunLength(tgas, Selectable(d, ConvertedDir(app), "tga"), Converted, 1);
      ghost var m := Taken(d, ConvertedDir(app), Converted);
      assert Scan(tgas, Converted, 1) - 1 == m;
      var lines, index;
      lines, index, thrown := CopyFramesToTf2(fs, app, tf2, tgas, header);
      ghost var f1 := CopyFrames(d.files, app, tf2, m).0;
      assert fs.State() == Disk(f1, d.dirs);
      if thrown.Some? {
        return;
      }
      assert lines == ManifestLines(opts.loopMaterial, m);
      var fileName := BaseName(opts.exportName);
      var mks := MksName(fileName);
      WriteToFile(fs, lines, tf2 + mks);
      assert fs.State() == Disk(f1[tf2 + mks := Joined(lines)], d.dirs);
      status := if !fs.FileExists(tf2 + mks) then ErrorCreateMks else status;
      if status != Empty {
        return;
      }
      assert Manifest(d, tf2, env, opts) == Sheet(fs.State(), tf2, env, opts);
      thrown := MakeSheet(fs, tf2, env, opts);
    }

    /** From mksheet.exe on: `Sheet`. */
    method MakeSheet(fs: FileSystem, tf2: Path, env: Environment, opts: Options) returns (thrown: Option<Exception>)
      requires status == Empty
      modifies this, fs
      ensures Outcome(status, fs.State(), thrown) == Sheet(old(fs.State()), tf2, env, opts)
    {
      var fileName := BaseName(opts.exportName);
      var mks, sht, tga := MksName(fileName), ShtName(fileName), TgaName(fileName);
      var sheet := env.mksheet(tf2, mks + " " + sht + " " + tga, fs.State());
      if sheet.None? {
        return Some(ProcessStartFailed);
      }
      fs.Replace(sheet.value);
      status := if !fs.FileExists(tf2 + sht) || !fs.FileExists(tf2 + tga) then ErrorCreateSht else status;
      if status != Empty {
        return None;
      }
      thrown := PackSheet(fs, tf2, env, opts);
    }

    /** From deleting the MKS file on: `Pack`. */
    method PackSheet(fs: FileSystem, tf2: Path, env: Environment, opts: Options) returns (thrown: Option<Exception>)
      requires status == Empty
      modifies this, fs
      ensures Outcome(status, fs.State(), thrown) == Pack(old(fs.State()), tf2, env, opts)
    {
      var fileName := BaseName(opts.exportName);
      var mks, sht, tga := MksName(fileName), ShtName(fileName), TgaName(fileName);
      fs.Delete(tf2 + mks);
      thrown := CopyFile(fs, tf2 + sht, tf2 + "usermod\\materialsrc\\" + sht, true);
      if thrown.Some? {
        return;
      }
      thrown := CopyFile(fs, tf2 + tga, tf2 + "usermod\\materialsrc\\" + tga, true);
      if thrown.Some? {
        return;
      }
      thrown := PurgeTga(fs, env.appPath, tf2);
      if thrown.Some? {
        return;
      }
      thrown := MakeTexture(fs, tf2, env, opts);
    }

    /** From vtex.exe to the end: `Finish`. */
    method MakeTexture(fs: FileSystem, tf2: Path, env: Environment, opts: Options) returns (thrown: Option<Exception>)
      requires status == Empty
      modifies this, fs
      ensures Outcome(status, fs.State(), thrown) == Finish(old(fs.State()), tf2, env, opts)
    {
      var app := env.appPath;
      var fileName := BaseName(opts.exportName);
      var sht, tga, vtf := ShtName(fileName), TgaName(fileName), VtfName(fileName);
      var args := "\"" + tf2 + "usermod\\materialsrc\\" + sht + "\"";
      assert args == "\"" + MaterialSrc(tf2) + ShtName(fileName) + "\"";
      var texture := env.vtex(tf2, args, fs.State());
      if texture.None? {
        return Some(ProcessStartFailed);
      }
      fs.Replace(texture.value);
      thrown := CopyFile(fs, tf2 + "materials\\" + vtf, app + "\\frames\\converted\\" + fileName + ".vtf", true);
      if thrown.Some? {
        return;
      }
      fs.Delete(tf2 + "usermod\\materialsrc\\" + sht);
      fs.Delete(tf2 + "usermod\\materialsrc\\" + tga);
      if opts.createVmt {
        WriteToFile(fs, VmtLines(fileName, opts.blendFrames), app + "\\frames\\converted\\" + fileName + ".vmt");
      }
      status := ConvertionDone;
    }
  }
}
