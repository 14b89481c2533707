/**
  The file system the conversion works on: a map from file path to content and a set of
  directory paths. Paths are plain strings joined with '\' as the source joins them; no
  canonicalisation happens beyond the one trailing separator `Directory.Exists` ignores.
 */
module Storage {
  import opened Wrappers
  import opened Text

  type Path = string
  type Content = string

  /** The exceptions that can escape `RunConversion`. */
  datatype Exception =
    | DirectoryNotFound   // `GetFileSystemInfos` on a missing directory
    | FileNotFound        // `File.Copy` or `new Bitmap` on a path that is not a file
    | BadFrameName        // the `OrderBy` key selector: `Substring` or `int.Parse` throws
    | ImageUnreadable     // `new Bitmap` on content that is not an image
    | ProcessStartFailed  // `Process.Start` of mksheet.exe or vtex.exe

  /** A snapshot of the file system. */
  datatype Disk = Disk(files: map<Path, Content>, dirs: set<Path>)

  /**
    What an external process leaves behind: the files as it left them, and the directories it
    created (each without a trailing separator, as `Disk.dirs` holds them).
   */
  datatype Effect = Effect(files: map<Path, Content>, created: set<Path>)

  /** The file system after an external process had the effect `e` on `d`. */
  function After(d: Disk, e: Effect): (r: Disk)
    ensures r.files == e.files && d.dirs <= r.dirs
  {
    Disk(e.files, d.dirs + e.created)
  }

  /** A path with one trailing separator removed. */
  function Norm(p: Path): Path
  {
    if |p| > 0 && p[|p| - 1] == '\\' then p[..|p| - 1] else p
  }

  /** `Directory.Exists`, which is false for a null path. */
  predicate DirectoryExists(d: Disk, p: Option<Path>)
  {
    p.Some? && Norm(p.value) in d.dirs
  }

  /** A name a directory can hold: not empty and without a separator. */
  predicate IsName(n: string)
  {
    n != "" && '\\' !in n
  }

  /** The name of `p` inside directory `dir` (given without a trailing separator), if `p` is directly inside it. */
  function ChildName(p: Path, dir: Path): Option<string>
  {
    var pre := dir + "\\";
    if |pre| < |p| && p[..|pre|] == pre && '\\' !in p[|pre|..] then Some(p[|pre|..]) else None
  }

  lemma ChildNameCorrect(p: Path, dir: Path, n: string)
    ensures ChildName(p, dir) == Some(n) <==> IsName(n) && p == dir + "\\" + n
  {
    var pre := dir + "\\";
    if IsName(n) && p == dir + "\\" + n {
      assert p[..|pre|] == pre && p[|pre|..] == n;
    }
    if ChildName(p, dir) == Some(n) {
      assert p == p[..|pre|] + p[|pre|..];
    }
  }

  /**
    The names of the files and directories directly inside `dir`: what
    `GetFileSystemInfos` enumerates.
   */
  function Entries(d: Disk, dir: Path): (r: set<string>)
    ensures forall n :: n in r <==> IsName(n) && Norm(dir) + "\\" + n in d.files.Keys + d.dirs
  {
    var all := d.files.Keys + d.dirs;
    var r := set p | p in all && ChildName(p, Norm(dir)).Some? :: ChildName(p, Norm(dir)).value;
    forall n ensures n in r <==> IsName(n) && Norm(dir) + "\\" + n in all {
      ChildNameCorrect(Norm(dir) + "\\" + n, Norm(dir), n);
      if n in r {
        var p :| p in all && ChildName(p, Norm(dir)) == Some(n);
        ChildNameCorrect(p, Norm(dir), n);
      }
    }
    r
  }

  /**
    The full paths of the files directly inside `dir` whose name ends in `suffix`: what
    `Directory.GetFiles(dir, "*" + suffix, SearchOption.TopDirectoryOnly)` returns.
   */
  function TopLevelFiles(f: map<Path, Content>, dir: Path, suffix: string): (r: set<Path>)
    ensures forall n :: IsName(n) ==>
              (Norm(dir) + "\\" + n in r <==> Norm(dir) + "\\" + n in f && EndsWith(n, suffix))
    ensures forall p :: p in r ==> p in f
  {
    var r := set p | p in f.Keys && ChildName(p, Norm(dir)).Some? && EndsWith(ChildName(p, Norm(dir)).value, suffix);
    forall n | IsName(n) ensures Norm(dir) + "\\" + n in r <==> Norm(dir) + "\\" + n in f && EndsWith(n, suffix) {
      ChildNameCorrect(Norm(dir) + "\\" + n, Norm(dir), n);
    }
    r
  }

  /** `File.Copy(src, dst, true)`: the new files, or the exception when `src` is not a file. */
  function Copied(f: map<Path, Content>, src: Path, dst: Path): (map<Path, Content>, Option<Exception>)
  {
    if src in f then (f[dst := f[src]], None) else (f, Some(FileNotFound))
  }

  /** The elements of a sequence, as a set. */
  function Elements<T>(s: seq<T>): set<T>
  {
    set x | x in s
  }

  /** Lists the elements of a finite set once each, in an order the caller cannot choose. */
  method Enumerate<T>(s: set<T>) returns (r: seq<T>)
    ensures forall x :: x in r <==> x in s
    ensures |r| == |s|
    ensures forall i, j :: 0 <= i < j < |r| ==> r[i] != r[j]
  {
    r := [];
    var rest := s;
    while rest != {}
      invariant forall x :: x in r <==> x in s && x !in rest
      invariant rest <= s
      invariant |r| + |rest| == |s|
      invariant forall i, j :: 0 <= i < j < |r| ==> r[i] != r[j]
      decreases |rest|
    {
      var x :| x in rest;
      r := r + [x];
      rest := rest - {x};
    }
  }

  /** The machine's file system, which the conversion changes in place. */
  class FileSystem {
    var files: map<Path, Content>
    var dirs: set<Path>

    constructor (d: Disk)
      ensures files == d.files && dirs == d.dirs
    {
      files := d.files;
      dirs := d.dirs;
    }

    function State(): Disk
      reads this
    {
      Disk(files, dirs)
    }

    /** `File.Exists`. */
    predicate FileExists(p: Path)
      reads this
    {
      p in files
    }

    /** `File.Delete`: removes the file, and does nothing when there is none. */
    method Delete(p: Path)
      modifies this
      ensures files == old(files) - {p} && dirs == old(dirs)
    {
      files := files - {p};
    }

    /** `File.Copy(src, dst, true)`: overwrites `dst`, and throws when `src` is not a file. */
    method Copy(src: Path, dst: Path) returns (thrown: Option<Exception>)
      modifies this
      ensures (files, thrown) == Copied(old(files), src, dst) && dirs == old(dirs)
    {
      if src in files {
        files := files[dst := files[src]];
        thrown := None;
      } else {
        thrown := Some(FileNotFound);
      }
    }

    /** Writes a whole file, replacing any earlier content (`TGA.Save`). */
    method Save(p: Path, c: Content)
      modifies this
      ensures files == old(files)[p := c] && dirs == old(dirs)
    {
      files := files[p := c];
    }

    /** `File.CreateText`: a new, empty file. */
    method CreateText(p: Path)
      modifies this
      ensures files == old(files)[p := ""] && dirs == old(dirs)
    {
      files := files[p := ""];
    }

    /** `StreamWriter.Write` on a file opened by `CreateText`. */
    method Append(p: Path, text: string)
      requires p in files
      modifies this
      ensures files == old(files)[p := old(files)[p] + text] && dirs == old(dirs)
    {
      files := files[p := files[p] + text];
    }

    /** `Directory.CreateDirectory`. */
    method CreateDirectory(p: Path)
      modifies this
      ensures dirs == old(dirs) + {Norm(p)} && files == old(files)
    {
      dirs := dirs + {Norm(p)};
    }

    /** The effect of an external process: its files replace ours, and its new directories are added. */
    method Replace(e: Effect)
      modifies this
      ensures files == e.files && dirs == old(dirs) + e.created
    {
      files := e.files;
      dirs := dirs + e.created;
    }

    /** `DirectoryInfo.GetFileSystemInfos`: the names directly inside `dir`, in enumeration order. */
    method ListEntries(dir: Path) returns (r: seq<string>, thrown: Option<Exception>)
      ensures thrown == if DirectoryExists(State(), Some(dir)) then None else Some(DirectoryNotFound)
      ensures thrown.None? ==> forall n :: n in r <==> n in Entries(State(), dir)
      ensures thrown.None? ==> |r| == |Entries(State(), dir)|
      ensures forall i, j :: 0 <= i < j < |r| ==> r[i] != r[j]
    {
      if Norm(dir) in dirs {
        r := Enumerate(Entries(State(), dir));
        thrown := None;
      } else {
        r, thrown := [], Some(DirectoryNotFound);
      }
    }

    /**
      `Directory.GetFiles(dir, "*" + suffix)`: full paths, each once, in enumeration order;
      throws when `dir` does not exist.
     */
    method ListFiles(dir: Path, suffix: string) returns (r: seq<Path>, thrown: Option<Exception>)
      ensures thrown == if DirectoryExists(State(), Some(dir)) then None else Some(DirectoryNotFound)
      ensures thrown.None? ==> forall p :: p in r <==> p in TopLevelFiles(files, dir, suffix)
      ensures thrown.None? ==> |r| == |TopLevelFiles(files, dir, suffix)|
      ensures forall i, j :: 0 <= i < j < |r| ==> r[i] != r[j]
    {
      if Norm(dir) in dirs {
        r := Enumerate(TopLevelFiles(files, dir, suffix));
        thrown := None;
      } else {
        r, thrown := [], Some(DirectoryNotFound);
      }
    }
  }
}
