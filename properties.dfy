/**
  What a conversion run guarantees, stated over the functions of the `Pipeline` module:
  which files the loops write, which the purge removes, and what each final status tells
  about the file system the run leaves behind.
 */
module Properties {
  import opened Wrappers
  import opened Text
  import opened Listing
  import opened Selection
  import opened Storage
  import opened Artifacts
  import opened Pipeline

  // ---------------------------------------------------------------- distinct paths

  lemma DifferentPrefix(x: string, y: string, s: string)
    requires |x| == |y| && x != y
    ensures x + s != y + s
  {
    assert (x + s)[..|x|] == x && (y + s)[..|y|] == y;
  }

  /** The numbered file names of one directory are distinct. */
  lemma FrameInDirInjective(dir: Path, i: nat, j: nat)
    ensures i != j ==> dir + FrameName(Converted, i) != dir + FrameName(Converted, j)
  {
    FrameNameInjective(Converted, i, j);
    if i != j {
      assert |FrameName(Converted, i)| == |FrameName(Converted, j)| ==>
        (dir + FrameName(Converted, i))[|dir|..] == FrameName(Converted, i) &&
        (dir + FrameName(Converted, j))[|dir|..] == FrameName(Converted, j);
    }
  }

  /** `FrameRange(dir, k)` holds exactly the paths `dir + "frame_{i}.tga"` for 1 <= i <= k. */
  lemma {:induction false} FrameRangeMembers(dir: Path, k: nat)
    ensures forall i :: 1 <= i <= k ==> dir + FrameName(Converted, i) in FrameRange(dir, k)
    ensures forall p :: p in FrameRange(dir, k) ==> exists i :: 1 <= i <= k && p == dir + FrameName(Converted, i)
  {
    if k > 0 {
      FrameRangeMembers(dir, k - 1);
    }
  }

  /** Past its first character, "frame_{j}.tga" has no 'f'. */
  lemma NoInnerFrameStart(j: nat, k: nat)
    requires 0 < k < |FrameName(Converted, j)|
    ensures FrameName(Converted, j)[k] != 'f'
  {
    var digits := NatToString(j);
    var name := FrameName(Converted, j);
    if k < 6 {
      assert name[k] == "frame_"[k];
    } else if k < 6 + |digits| {
      assert name[k] == digits[k - 6];
    } else {
      assert name[k] == ".tga"[k - 6 - |digits|];
    }
  }

  /** A `.png` frame source is never a converted frame. */
  lemma SourceIsNotConverted(app: Path, i: nat, j: nat)
    ensures SourcePath(app, i) != ConvertedPath(app, j)
  {
    var k := |app| + 8;
    assert SourcePath(app, i)[k] == NatToString(i)[0];
    assert ConvertedPath(app, j)[k] == 'c';
  }

  /** Copying converted frame j into the TF2 directory never overwrites converted frame i != j. */
  lemma TargetIsNotOtherSource(app: Path, tf2: Path, i: nat, j: nat)
    ensures i != j ==> tf2 + FrameName(Converted, j) != ConvertedPath(app, i)
  {
    var a, fi, fj := ConvertedDir(app), FrameName(Converted, i), FrameName(Converted, j);
    assert ConvertedPath(app, i) == a + fi;
    if i != j && |tf2| + |fj| == |a| + |fi| {
      if |tf2| == |a| {
        FrameNameInjective(Converted, i, j);
        DifferentSuffix(tf2, a, fj, fi);
      } else if |tf2| < |a| {
        NoInnerFrameStart(j, |a| - |tf2|);
        assert (tf2 + fj)[|a|] != (a + fi)[|a|];
      } else {
        NoInnerFrameStart(i, |tf2| - |a|);
        assert (tf2 + fj)[|tf2|] != (a + fi)[|tf2|];
      }
    }
  }

  // ---------------------------------------------------------------- the png loop

  /** Whether or not the png loop over `n` frames fails, no file outside `frame_1.tga` .. `frame_n.tga` changes. */
  lemma {:induction false} SaveFramesKeepsOthers(f: map<Path, Content>, app: Path, encode: Content -> Option<Content>, n: nat)
    ensures var g := SaveFrames(f, app, encode, n).0;
      forall p :: p !in FrameRange(ConvertedDir(app), n) ==> (p in g <==> p in f) && (p in g ==> g[p] == f[p])
  {
    if n > 0 {
      SaveFramesKeepsOthers(f, app, encode, n - 1);
    }
  }

  /** The png loop reads every source as it was before the loop. */
  lemma SourceUntouched(f: map<Path, Content>, app: Path, encode: Content -> Option<Content>, n: nat, j: nat)
    ensures var g, src := SaveFrames(f, app, encode, n).0, SourcePath(app, j);
      (src in g <==> src in f) && (src in g ==> g[src] == f[src])
  {
    SaveFramesKeepsOthers(f, app, encode, n);
    FrameRangeMembers(ConvertedDir(app), n);
    forall i | 1 <= i <= n ensures SourcePath(app, j) != ConvertedDir(app) + FrameName(Converted, i) {
      SourceIsNotConverted(app, j, i);
    }
  }

  /**
    The png loop over `n` frames fails exactly when one of `0.png` .. `(n-1).png` is missing
    or is not an image, with the exception `File.Copy` or `new Bitmap` throws.
   */
  lemma {:induction false} SaveFramesFails(f: map<Path, Content>, app: Path, encode: Content -> Option<Content>, n: nat)
    ensures var e := SaveFrames(f, app, encode, n).1;
      e.None? <==> forall i :: 0 <= i < n ==> SourcePath(app, i) in f && encode(f[SourcePath(app, i)]).Some?
    ensures var e := SaveFrames(f, app, encode, n).1;
      e.Some? ==> e == Some(FileNotFound) || e == Some(ImageUnreadable)
  {
    if n > 0 {
      SaveFramesFails(f, app, encode, n - 1);
      SourceUntouched(f, app, encode, n - 1, n - 1);
    }
  }

  /** When the png loop over `n` frames succeeds, `frame_{i+1}.tga` holds the encoding of `{i}.png`. */
  lemma {:induction false} SaveFramesWrites(f: map<Path, Content>, app: Path, encode: Content -> Option<Content>, n: nat)
    ensures var r := SaveFrames(f, app, encode, n);
      r.1.None? ==> forall i :: 0 <= i < n ==>
        SourcePath(app, i) in f && ConvertedPath(app, i + 1) in r.0 && Some(r.0[ConvertedPath(app, i + 1)]) == encode(f[SourcePath(app, i)])
  {
    if n > 0 {
      SaveFramesWrites(f, app, encode, n - 1);
      var r := SaveFrames(f, app, encode, n - 1);
      var src, dst := SourcePath(app, n - 1), ConvertedPath(app, n);
      SourceUntouched(f, app, encode, n - 1, n - 1);
      if r.1.None? && src in r.0 && encode(r.0[src]).Some? {
        var g := r.0[dst := encode(r.0[src]).value];
        assert SaveFrames(f, app, encode, n).0 == g;
        forall i | 0 <= i < n ensures
          SourcePath(app, i) in f && ConvertedPath(app, i + 1) in g && Some(g[ConvertedPath(app, i + 1)]) == encode(f[SourcePath(app, i)])
        {
          if i < n - 1 {
            FrameInDirInjective(ConvertedDir(app), i + 1, n);
          }
        }
      } else {
        assert SaveFrames(f, app, encode, n).1.Some?;
      }
    }
  }

  // ---------------------------------------------------------------- the tga loop

  /** Whether or not the tga loop over `m` frames fails, no file outside the copies `frame_1.tga` .. `frame_m.tga` in the TF2 directory changes. */
  lemma {:induction false} CopyFramesKeepsOthers(f: map<Path, Content>, app: Path, tf2: Path, m: nat)
    ensures var g := CopyFrames(f, app, tf2, m).0;
      forall p :: p !in FrameRange(tf2, m) ==> (p in g <==> p in f) && (p in g ==> g[p] == f[p])
  {
    if m > 0 {
      CopyFramesKeepsOthers(f, app, tf2, m - 1);
    }
  }

  /** The tga loop reads each converted frame as it was before the loop. */
  lemma FrameSourceUntouched(f: map<Path, Content>, app: Path, tf2: Path, m: nat, j: nat)
    requires m < j
    ensures var g, src := CopyFrames(f, app, tf2, m).0, ConvertedPath(app, j);
      (src in g <==> src in f) && (src in g ==> g[src] == f[src])
  {
    CopyFramesKeepsOthers(f, app, tf2, m);
    FrameRangeMembers(tf2, m);
    forall i | 1 <= i <= m ensures ConvertedPath(app, j) != tf2 + FrameName(Converted, i) {
      TargetIsNotOtherSource(app, tf2, j, i);
    }
  }

  /** The tga loop over `m` frames throws exactly when one of `frame_1.tga` .. `frame_m.tga` is missing from `frames\converted\`. */
  lemma {:induction false} CopyFramesFails(f: map<Path, Content>, app: Path, tf2: Path, m: nat)
    ensures var e := CopyFrames(f, app, tf2, m).1;
      e.None? <==> forall i :: 1 <= i <= m ==> ConvertedPath(app, i) in f
    ensures var e := CopyFrames(f, app, tf2, m).1;
      e.Some? ==> e == Some(FileNotFound)
  {
    if m > 0 {
      CopyFramesFails(f, app, tf2, m - 1);
      FrameSourceUntouched(f, app, tf2, m - 1, m);
    }
  }

  /** When the tga loop over `m` frames succeeds, each of them is copied to the TF2 directory under its own name. */
  lemma {:induction false} CopyFramesWrites(f: map<Path, Content>, app: Path, tf2: Path, m: nat)
    ensures var r := CopyFrames(f, app, tf2, m);
      r.1.None? ==> forall i :: 1 <= i <= m ==>
        ConvertedPath(app, i) in f && tf2 + FrameName(Converted, i) in r.0 && r.0[tf2 + FrameName(Converted, i)] == f[ConvertedPath(app, i)]
  {
    if m > 0 {
      CopyFramesWrites(f, app, tf2, m - 1);
      var r := CopyFrames(f, app, tf2, m - 1);
      var src, dst := ConvertedPath(app, m), tf2 + FrameName(Converted, m);
      FrameSourceUntouched(f, app, tf2, m - 1, m);
      if r.1.None? && src in r.0 {
        var g := r.0[dst := r.0[src]];
        assert CopyFrames(f, app, tf2, m).0 == g;
        forall i | 1 <= i <= m ensures
          ConvertedPath(app, i) in f && tf2 + FrameName(Converted, i) in g && g[tf2 + FrameName(Converted, i)] == f[ConvertedPath(app, i)]
        {
          if i < m {
            FrameInDirInjective(tf2, i, m);
          }
        }
      } else {
        assert CopyFrames(f, app, tf2, m).1.Some?;
      }
    }
  }

  /**
    Every frame the png loop converted is listed again by the tga loop, so the manifest has
    at least as many frames; older `frame_{k}.tga` files that continue the run are listed too.
   */
  lemma ConvertedFramesListed(d: Disk, app: Path, n: nat)
    requires forall i :: 1 <= i <= n ==> ConvertedPath(app, i) in d.files
    requires DirectoryExists(d, Some(ConvertedDir(app)))
    ensures Taken(d, ConvertedDir(app), Converted) >= n
  {
    var dir := ConvertedDir(app);
    assert Norm(dir) + "\\" == dir;
    forall j | 1 <= j < 1 + n ensures FrameName(Converted, j) in Selectable(d, dir, "tga") {
      var name := FrameName(Converted, j);
      assert ConvertedPath(app, j) == Norm(dir) + "\\" + name;
      FrameNameMatches(Converted, j);
      assert IsName(name) by {
        forall q | 0 <= q < |name| ensures name[q] != '\\' {
          var digits := NatToString(j);
          if q < 6 {
            assert name[q] == "frame_"[q];
          } else if q < 6 + |digits| {
            assert name[q] == digits[q - 6];
          } else {
            assert name[q] == ".tga"[q - 6 - |digits|];
          }
        }
      }
    }
    RunLengthAtLeast(Selectable(d, dir, "tga"), Converted, 1, n);
  }

  // ---------------------------------------------------------------- the purge

  /**
    After the purge no `.tga` file is left directly in the TF2 directory, and neither is any
    of `frame_1.tga` .. `frame_k.tga` under `frames\converted\`, where k is the number of
    `.tga` files the TF2 directory held; every other file is kept as it was.
   */
  lemma PurgeEffect(f: map<Path, Content>, app: Path, tf2: Path)
    ensures var g := Purged(f, app, tf2);
      forall n :: IsName(n) && EndsWith(n, ".tga") ==> Norm(tf2) + "\\" + n !in g
    ensures var g, k := Purged(f, app, tf2), |TopLevelFiles(f, tf2, ".tga")|;
      forall i :: 1 <= i <= k ==> ConvertedPath(app, i) !in g
    ensures var g, s := Purged(f, app, tf2), TopLevelFiles(f, tf2, ".tga");
      forall p :: p in f && p !in s && p !in FrameRange(ConvertedDir(app), |s|) ==> p in g && g[p] == f[p]
    ensures Purged(f, app, tf2).Keys <= f.Keys
  {
    FrameRangeMembers(ConvertedDir(app), |TopLevelFiles(f, tf2, ".tga")|);
  }

  // ---------------------------------------------------------------- the moves

  /** The five files the moves name are pairwise distinct. */
  lemma PackPathsDistinct(tf2: Path, b: string)
    ensures var names := [tf2 + MksName(b), tf2 + ShtName(b), tf2 + TgaName(b), MaterialSrc(tf2) + ShtName(b), MaterialSrc(tf2) + TgaName(b)];
      forall i, j :: 0 <= i < j < 5 ==> names[i] != names[j]
  {
    var names := [tf2 + MksName(b), tf2 + ShtName(b), tf2 + TgaName(b), MaterialSrc(tf2) + ShtName(b), MaterialSrc(tf2) + TgaName(b)];
    var stems := [tf2 + "mks_" + b, tf2 + "mks_" + b, tf2 + "mks_" + b, MaterialSrc(tf2) + "mks_" + b, MaterialSrc(tf2) + "mks_" + b];
    var exts := [".mks", ".sht", ".tga", ".sht", ".tga"];
    forall k | 0 <= k < 5 ensures names[k] == stems[k] + exts[k] {}
    forall i, j | 0 <= i < j < 5 ensures names[i] != names[j] {
      if exts[i] != exts[j] {
        DifferentSuffix(stems[i], stems[j], exts[i], exts[j]);
      } else {
        assert |names[i]| != |names[j]|;
      }
    }
  }

  /**
    The moves succeed exactly when the sheet and its image are both in `bin`. Then the MKS
    file, the sheet and the image are gone from `bin`, the sheet and the image sit in
    `materialsrc` with the content they had, and every other file is kept.
   */
  lemma PackedEffect(f: map<Path, Content>, tf2: Path, b: string)
    ensures var e := Packed(f, tf2, b).1;
      e.None? <==> tf2 + ShtName(b) in f && tf2 + TgaName(b) in f
    ensures var (g, e) := Packed(f, tf2, b);
      e.None? ==>
        tf2 + MksName(b) !in g && tf2 + ShtName(b) !in g && tf2 + TgaName(b) !in g &&
        MaterialSrc(tf2) + ShtName(b) in g && g[MaterialSrc(tf2) + ShtName(b)] == f[tf2 + ShtName(b)] &&
        MaterialSrc(tf2) + TgaName(b) in g && g[MaterialSrc(tf2) + TgaName(b)] == f[tf2 + TgaName(b)]
    ensures var (g, e) := Packed(f, tf2, b);
      var named := {tf2 + MksName(b), tf2 + ShtName(b), tf2 + TgaName(b), MaterialSrc(tf2) + ShtName(b), MaterialSrc(tf2) + TgaName(b)};
      forall p :: p !in named ==> (p in g <==> p in f) && (p in g ==> g[p] == f[p])
  {
    PackPathsDistinct(tf2, b);
    var names := [tf2 + MksName(b), tf2 + ShtName(b), tf2 + TgaName(b), MaterialSrc(tf2) + ShtName(b), MaterialSrc(tf2) + TgaName(b)];
    assert names[0] != names[1] && names[0] != names[2] && names[1] != names[2];
    assert names[1] != names[3] && names[2] != names[3] && names[2] != names[4] && names[1] != names[4];
    var f0 := f - {names[0]};
    assert (names[1] in f0 <==> names[1] in f) && (names[1] in f ==> f0[names[1]] == f[names[1]]);
    if names[1] in f {
      var f1 := f0[names[3] := f0[names[1]]] - {names[1]};
      assert Packed(f, tf2, b).1.None? <==> names[2] in f1;
      assert names[2] in f1 <==> names[2] in f;
    }
  }

  // ---------------------------------------------------------------- outcomes

  /** An outcome in which an exception escaped exactly when the status was left empty. */
  predicate Consistent(r: Outcome)
  {
    r.thrown.Some? <==> r.status == Empty
  }

  /** What a run that reached CONVERTION_DONE leaves behind. */
  predicate Delivered(files: map<Path, Content>, tf2: Path, app: Path, opts: Options)
  {
    var b := BaseName(opts.exportName);
    && VtfTarget(app, b) in files
    && VtfSource(tf2, b) !in files
    && MaterialSrc(tf2) + ShtName(b) !in files
    && MaterialSrc(tf2) + TgaName(b) !in files
    && (opts.createVmt ==> VmtTarget(app, b) in files && files[VmtTarget(app, b)] == Joined(VmtLines(b, opts.blendFrames)))
  }

  /** The files `Finish` names are pairwise distinct, so none of its steps undoes another. */
  lemma FinishPathsDistinct(tf2: Path, app: Path, b: string)
    ensures VtfSource(tf2, b) != VtfTarget(app, b)
    ensures VtfTarget(app, b) != MaterialSrc(tf2) + ShtName(b) && VtfTarget(app, b) != MaterialSrc(tf2) + TgaName(b)
    ensures VmtTarget(app, b) != VtfTarget(app, b) && VmtTarget(app, b) != VtfSource(tf2, b)
    ensures VmtTarget(app, b) != MaterialSrc(tf2) + ShtName(b) && VmtTarget(app, b) != MaterialSrc(tf2) + TgaName(b)
  {
    var target, vmt := ConvertedDir(app) + b, ConvertedDir(app) + b;
    var source, sheet := tf2 + "materials\\mks_" + b, MaterialSrc(tf2) + "mks_" + b;
    assert VtfSource(tf2, b) == source + ".vtf" && VtfTarget(app, b) == target + ".vtf";
    assert MaterialSrc(tf2) + ShtName(b) == sheet + ".sht" && MaterialSrc(tf2) + TgaName(b) == sheet + ".tga";
    assert VmtTarget(app, b) == vmt + ".vmt";
    DifferentSuffix(target, sheet, ".vtf", ".sht");
    DifferentSuffix(target, sheet, ".vtf", ".tga");
    DifferentSuffix(vmt, target, ".vmt", ".vtf");
    DifferentSuffix(vmt, source, ".vmt", ".vtf");
    DifferentSuffix(vmt, sheet, ".vmt", ".sht");
    DifferentSuffix(vmt, sheet, ".vmt", ".tga");
    var x, y := tf2 + "materials\\mks_", ConvertedDir(app);
    assert VtfSource(tf2, b) == x + (b + ".vtf") && VtfTarget(app, b) == y + (b + ".vtf");
    if |x| == |y| {
      assert x[|x| - 1] != y[|y| - 1];
      DifferentPrefix(x, y, b + ".vtf");
    }
  }

  /** The paths the steps after vtex.exe write or delete; the VMT only when it is asked for. */
  function FinishNamed(tf2: Path, app: Path, opts: Options): set<Path>
  {
    var b := BaseName(opts.exportName);
    {VtfSource(tf2, b), VtfTarget(app, b), MaterialSrc(tf2) + ShtName(b), MaterialSrc(tf2) + TgaName(b)}
      + (if opts.createVmt then {VmtTarget(app, b)} else {})
  }

  /**
    From vtex.exe on. A missing VTF makes `File.Copy` throw instead of setting a status.
    On CONVERTION_DONE the delivered VTF is the one vtex.exe produced, and every file the
    later steps do not name is as vtex.exe left it.
   */
  lemma FinishOutcome(d: Disk, tf2: Path, env: Environment, opts: Options)
    ensures var r := Finish(d, tf2, env, opts);
      Consistent(r) && r.status in {Empty, ConvertionDone} && d.dirs <= r.disk.dirs
    ensures var r := Finish(d, tf2, env, opts);
      r.status == ConvertionDone ==> Delivered(r.disk.files, tf2, env.appPath, opts)
    ensures var r, b := Finish(d, tf2, env, opts), BaseName(opts.exportName);
      var out := env.vtex(tf2, "\"" + MaterialSrc(tf2) + ShtName(b) + "\"", d);
      && (out.None? ==> r == Outcome(Empty, d, Some(ProcessStartFailed)))
      && (out.Some? ==> r.disk.dirs == After(d, out.value).dirs)
      && (r.status == ConvertionDone <==> out.Some? && VtfSource(tf2, b) in out.value.files)
      && (out.Some? && VtfSource(tf2, b) !in out.value.files ==> r.thrown == Some(FileNotFound))
    ensures var r, b := Finish(d, tf2, env, opts), BaseName(opts.exportName);
      var out := env.vtex(tf2, "\"" + MaterialSrc(tf2) + ShtName(b) + "\"", d);
      r.status == ConvertionDone ==>
        && out.Some?
        && r.disk.files[VtfTarget(env.appPath, b)] == out.value.files[VtfSource(tf2, b)]
        && forall p :: p !in FinishNamed(tf2, env.appPath, opts) ==>
             (p in r.disk.files <==> p in out.value.files) && (p in r.disk.files ==> r.disk.files[p] == out.value.files[p])
  {
    FinishPathsDistinct(tf2, env.appPath, BaseName(opts.exportName));
  }

  lemma PackOutcome(d: Disk, tf2: Path, env: Environment, opts: Options)
    ensures var r := Pack(d, tf2, env, opts);
      Consistent(r) && r.status in {Empty, ConvertionDone} && d.dirs <= r.disk.dirs
    ensures var r := Pack(d, tf2, env, opts);
      r.status == ConvertionDone ==> Delivered(r.disk.files, tf2, env.appPath, opts)
  {
    var (f, e) := Packed(d.files, tf2, BaseName(opts.exportName));
    FinishOutcome(Disk(Purged(f, env.appPath, tf2), d.dirs), tf2, env, opts);
  }

  /**
    From mksheet.exe on. ERROR_CREATE_SHT shows exactly when mksheet.exe ran and left the
    sheet or its image missing from `bin`; the run then stops with the file system as
    mksheet.exe left it: no move, no purge and no vtex.exe.
   */
  lemma SheetOutcome(d: Disk, tf2: Path, env: Environment, opts: Options)
    ensures var r := Sheet(d, tf2, env, opts);
      Consistent(r) && r.status in {Empty, ErrorCreateSht, ConvertionDone} && d.dirs <= r.disk.dirs
    ensures var r := Sheet(d, tf2, env, opts);
      r.status == ConvertionDone ==> Delivered(r.disk.files, tf2, env.appPath, opts)
    ensures var r, b := Sheet(d, tf2, env, opts), BaseName(opts.exportName);
      var out := env.mksheet(tf2, SheetCommand(b), d);
      && (out.None? ==> r == Outcome(Empty, d, Some(ProcessStartFailed)))
      && (r.status == ErrorCreateSht <==>
            out.Some? && (tf2 + ShtName(b) !in out.value.files || tf2 + TgaName(b) !in out.value.files))
      && (r.status == ErrorCreateSht ==> r.disk == After(d, out.value))
  {
    var b := BaseName(opts.exportName);
    var out := env.mksheet(tf2, SheetCommand(b), d);
    if out.None? {
      assert Sheet(d, tf2, env, opts) == Outcome(Empty, d, Some(ProcessStartFailed));
    } else {
      var f := out.value.files;
      if tf2 + ShtName(b) !in f || tf2 + TgaName(b) !in f {
        assert Sheet(d, tf2, env, opts) == Outcome(ErrorCreateSht, After(d, out.value), None);
      } else {
        assert Sheet(d, tf2, env, opts) == Pack(After(d, out.value), tf2, env, opts);
        PackOutcome(After(d, out.value), tf2, env, opts);
      }
    }
  }

  // ---------------------------------------------------------------- where mksheet.exe starts

  /** The file system once the tga loop has run and the MKS file is written; None when an exception escapes first. */
  function ManifestEnd(d: Disk, tf2: Path, env: Environment, opts: Options): Option<Disk>
  {
    var app := env.appPath;
    if ListingFailure(d, ConvertedDir(app), "tga").Some? then None
    else
      var m := Taken(d, ConvertedDir(app), Converted);
      var (f, e) := CopyFrames(d.files, app, tf2, m);
      if e.Some? then None
      else Some(Disk(f[tf2 + MksName(BaseName(opts.exportName)) := Joined(ManifestLines(opts.loopMaterial, m))], d.dirs))
  }

  /** The same, from the creation of `materialsrc` and the copy of gameinfo.txt on. */
  function InstallEnd(d: Disk, tf2: Path, env: Environment, opts: Options): Option<Disk>
  {
    var matsrc := tf2 + "usermod\\materialsrc";
    var dirs := if DirectoryExists(d, Some(matsrc)) then d.dirs else d.dirs + {Norm(matsrc)};
    var (f, e) := Copied(d.files, GameinfoSource(tf2), tf2 + "gameinfo.txt");
    if e.Some? then None else ManifestEnd(Disk(f, dirs), tf2, env, opts)
  }

  /**
    The file system and TF2 directory mksheet.exe is started with, or None when the run
    ends before it: a listing or conversion failure, no frame, no TF2 directory, or an
    exception in the steps up to the MKS file.
   */
  function SheetStart(d: Disk, env: Environment, opts: Options): Option<(Disk, Path)>
  {
    var app := env.appPath;
    if ListingFailure(d, FramesDir(app), "png").Some? then None
    else
      var n := Taken(d, FramesDir(app), Source);
      var (f, e) := SaveFrames(d.files, app, env.encode, n);
      var tf2 := Tf2Path(d, env);
      if e.Some? || n == 0 || !DirectoryExists(d, tf2) then None
      else match InstallEnd(Disk(f, d.dirs), tf2.value, env, opts)
        case None => None
        case Some(s) => Some((s, tf2.value))
  }

  /** The tga loop and the MKS file. ERROR_CREATE_MKS never shows: the MKS file always exists once written. */
  lemma ManifestOutcome(d: Disk, tf2: Path, env: Environment, opts: Options)
    ensures var r := Manifest(d, tf2, env, opts);
      Consistent(r) && r.status in {Empty, ErrorCreateSht, ConvertionDone} && d.dirs <= r.disk.dirs
    ensures var r := Manifest(d, tf2, env, opts);
      r.status == ConvertionDone ==> Delivered(r.disk.files, tf2, env.appPath, opts)
    ensures var r, s := Manifest(d, tf2, env, opts), ManifestEnd(d, tf2, env, opts);
      && (s.None? ==> r.status == Empty && r.disk.dirs == d.dirs)
      && (s.Some? ==> r == Sheet(s.value, tf2, env, opts))
  {
    var app := env.appPath;
    if ListingFailure(d, ConvertedDir(app), "tga").None? {
      var m := Taken(d, ConvertedDir(app), Converted);
      var (f, e) := CopyFrames(d.files, app, tf2, m);
      var mks := tf2 + MksName(BaseName(opts.exportName));
      SheetOutcome(Disk(f[mks := Joined(ManifestLines(opts.loopMaterial, m))], d.dirs), tf2, env, opts);
    }
  }

  /**
    From `materialsrc` on. `materialsrc` exists from its creation to the end of the run,
    whether it ends with a status or an exception; the run creates no other directory
    before mksheet.exe starts.
   */
  lemma InstallOutcome(d: Disk, tf2: Path, env: Environment, opts: Options)
    ensures var r := Install(d, tf2, env, opts);
      Consistent(r) && r.status in {Empty, ErrorCreateSht, ConvertionDone}
    ensures var r := Install(d, tf2, env, opts);
      d.dirs + {Norm(tf2 + "usermod\\materialsrc")} <= r.disk.dirs
    ensures var r := Install(d, tf2, env, opts);
      r.status == ConvertionDone ==> Delivered(r.disk.files, tf2, env.appPath, opts)
    ensures var r, s := Install(d, tf2, env, opts), InstallEnd(d, tf2, env, opts);
      && (s.None? ==> r.status == Empty && r.disk.dirs == d.dirs + {Norm(tf2 + "usermod\\materialsrc")})
      && (s.Some? ==> s.value.dirs == d.dirs + {Norm(tf2 + "usermod\\materialsrc")} && r == Sheet(s.value, tf2, env, opts))
  {
    var matsrc := tf2 + "usermod\\materialsrc";
    var dirs := if DirectoryExists(d, Some(matsrc)) then d.dirs else d.dirs + {Norm(matsrc)};
    var (f, e) := Copied(d.files, GameinfoSource(tf2), tf2 + "gameinfo.txt");
    ManifestOutcome(Disk(f, dirs), tf2, env, opts);
  }

  lemma LocateOutcome(d: Disk, env: Environment, opts: Options)
    ensures var r := Locate(d, env, opts);
      Consistent(r) && r.status in {Empty, ErrorDirectoryTf2, ErrorCreateSht, ConvertionDone}
    ensures var r := Locate(d, env, opts);
      r.status == ErrorDirectoryTf2 <==> !DirectoryExists(d, Tf2Path(d, env))
    ensures var r := Locate(d, env, opts);
      r.status == ErrorDirectoryTf2 ==> r.disk == d
    ensures var r, tf2 := Locate(d, env, opts), Tf2Path(d, env);
      r.status == ConvertionDone ==>
        tf2.Some? && DirectoryExists(d, tf2) &&
        d.dirs + {Norm(tf2.value + "usermod\\materialsrc")} <= r.disk.dirs &&
        Delivered(r.disk.files, tf2.value, env.appPath, opts)
  {
    var tf2 := Tf2Path(d, env);
    if DirectoryExists(d, tf2) {
      InstallOutcome(d, tf2.value, env, opts);
    }
  }

  /** The run goes through mksheet.exe exactly when `SheetStart` says so, and from there follows `Sheet`. */
  lemma SheetStartCorrect(d: Disk, env: Environment, opts: Options)
    ensures var r, s := Conversion(d, env, opts), SheetStart(d, env, opts);
      && (s.None? ==> r.status in {Empty, ErrorConvertion, ErrorDirectoryTf2})
      && (s.Some? ==> r == Sheet(s.value.0, s.value.1, env, opts))
  {
    var app := env.appPath;
    if ListingFailure(d, FramesDir(app), "png").None? {
      var n := Taken(d, FramesDir(app), Source);
      var (f, e) := SaveFrames(d.files, app, env.encode, n);
      var d1 := Disk(f, d.dirs);
      var tf2 := Tf2Path(d, env);
      assert Tf2Path(d1, env) == tf2;
      if e.None? && n > 0 {
        assert Conversion(d, env, opts) == Locate(d1, env, opts);
        if DirectoryExists(d, tf2) {
          assert Locate(d1, env, opts) == Install(d1, tf2.value, env, opts);
          InstallOutcome(d1, tf2.value, env, opts);
        }
      }
    }
  }

  /**
    The whole run.
    - An exception escapes exactly when the status is left empty, and ERROR_CREATE_MKS never
      shows: the MKS file always exists once it has been written.
    - ERROR_CONVERTION shows exactly when `frames\` can be listed but holds no `0.png`, and
      then nothing has changed.
    - ERROR_DIRECTORY_TF2 shows exactly when `frames\` lists without error, at least one
      frame (0.png) was taken, every taken frame converted, and neither the Steam path nor
      the chosen folder is a directory; only converted frames were written.
    - ERROR_CREATE_SHT shows exactly when the run reaches mksheet.exe and it leaves the sheet
      or its image missing; the file system is then as mksheet.exe left it.
    - CONVERTION_DONE means the TF2 directory was found, `materialsrc` exists, and the
      texture, the removed intermediates and the optional material are in place.
   */
  lemma ConversionOutcome(d: Disk, env: Environment, opts: Options)
    ensures var r := Conversion(d, env, opts);
      Consistent(r) && r.status != ErrorCreateMks
    ensures var r, app := Conversion(d, env, opts), env.appPath;
      r.status == ErrorConvertion <==>
        ListingFailure(d, FramesDir(app), "png").None? && FrameName(Source, 0) !in Selectable(d, FramesDir(app), "png")
    ensures var r := Conversion(d, env, opts);
      r.status == ErrorConvertion ==> r.disk == d
    ensures var r, app := Conversion(d, env, opts), env.appPath;
      var n := Taken(d, FramesDir(app), Source);
      r.status == ErrorDirectoryTf2 <==>
        ListingFailure(d, FramesDir(app), "png").None? && n > 0 && SaveFrames(d.files, app, env.encode, n).1.None? &&
        !DirectoryExists(d, Tf2Path(d, env))
    ensures var r, app := Conversion(d, env, opts), env.appPath;
      var n := Taken(d, FramesDir(app), Source);
      r.status == ErrorDirectoryTf2 ==>
        r.disk.dirs == d.dirs &&
        forall p :: p !in FrameRange(ConvertedDir(app), n) ==> (p in r.disk.files <==> p in d.files) && (p in d.files ==> r.disk.files[p] == d.files[p])
    ensures var r, s, b := Conversion(d, env, opts), SheetStart(d, env, opts), BaseName(opts.exportName);
      r.status == ErrorCreateSht <==>
        && s.Some?
        && var out := env.mksheet(s.value.1, SheetCommand(b), s.value.0);
           out.Some? && (s.value.1 + ShtName(b) !in out.value.files || s.value.1 + TgaName(b) !in out.value.files)
    ensures var r, s, b := Conversion(d, env, opts), SheetStart(d, env, opts), BaseName(opts.exportName);
      r.status == ErrorCreateSht ==>
        && s.Some?
        && var out := env.mksheet(s.value.1, SheetCommand(b), s.value.0);
           out.Some? && r.disk == After(s.value.0, out.value)
    ensures var r, tf2 := Conversion(d, env, opts), Tf2Path(d, env);
      r.status == ConvertionDone ==>
        tf2.Some? && DirectoryExists(d, tf2) &&
        d.dirs + {Norm(tf2.value + "usermod\\materialsrc")} <= r.disk.dirs &&
        Delivered(r.disk.files, tf2.value, env.appPath, opts)
  {
    var app := env.appPath;
    SheetStartCorrect(d, env, opts);
    var s := SheetStart(d, env, opts);
    if s.Some? {
      SheetOutcome(s.value.0, s.value.1, env, opts);
    }
    if ListingFailure(d, FramesDir(app), "png").None? {
      var n := Taken(d, FramesDir(app), Source);
      var (f, e) := SaveFrames(d.files, app, env.encode, n);
      SaveFramesKeepsOthers(d.files, app, env.encode, n);
      var d1 := Disk(f, d.dirs);
      assert Tf2Path(d1, env) == Tf2Path(d, env);
      LocateOutcome(d1, env, opts);
    }
  }
}
