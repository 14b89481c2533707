/**
  The text `RunConversion` builds: the lines `WriteToFile` writes, the MKS manifest that
  lists the frames for mksheet.exe, the VMT material, the names derived from the export
  name, and the path of the game's gameinfo.txt.
 */
module Artifacts {
  import opened Text
  import opened Selection

  /** `Environment.NewLine`. */
  const NewLine: string := "\n"

  // ---------------------------------------------------------------- lines

  /** What `WriteLine` writes for each line in turn: the line followed by a line break. */
  function Joined(lines: seq<string>): string
  {
    if lines == [] then "" else lines[0] + NewLine + Joined(lines[1..])
  }

  /** Writing one more line appends it, with its line break, to what was written so far. */
  lemma {:induction false} JoinedSnoc(lines: seq<string>, line: string)
    ensures Joined(lines + [line]) == Joined(lines) + line + NewLine
  {
    if lines == [] {
      assert [] + [line] == [line];
    } else {
      assert (lines + [line])[1..] == lines[1..] + [line];
      JoinedSnoc(lines[1..], line);
    }
  }

  /** The index of the first line break in `s`, or `|s|` when there is none. */
  function LineEnd(s: string): (i: nat)
    ensures i <= |s| && '\n' !in s[..i] && (i < |s| ==> s[i] == '\n')
  {
    if s == [] || s[0] == '\n' then 0
    else
      var j := LineEnd(s[1..]);
      assert s[..j + 1] == [s[0]] + s[1..][..j];
      j + 1
  }

  /** Reads a file back line by line, each line ended by a line break. */
  function ReadLines(s: string): seq<string>
    decreases |s|
  {
    if s == [] then []
    else
      var i := LineEnd(s);
      [s[..i]] + ReadLines(if i < |s| then s[i + 1..] else [])
  }

  predicate NoLineBreak(line: string) { '\n' !in line }

  /** Reading back what was written gives the lines written, when none holds a line break. */
  lemma {:induction false} ReadJoined(lines: seq<string>)
    requires forall k :: 0 <= k < |lines| ==> NoLineBreak(lines[k])
    ensures ReadLines(Joined(lines)) == lines
  {
    if lines != [] {
      var s, x := Joined(lines), lines[0];
      assert s == x + ("\n" + Joined(lines[1..]));
      LineEndOfLine(x, "\n" + Joined(lines[1..]));
      assert s[..|x|] == x && s[|x| + 1..] == Joined(lines[1..]);
      ReadJoined(lines[1..]);
    }
  }

  lemma {:induction false} LineEndOfLine(x: string, rest: string)
    requires NoLineBreak(x) && |rest| > 0 && rest[0] == '\n'
    ensures LineEnd(x + rest) == |x|
  {
    if x == [] {
      assert x + rest == rest;
    } else {
      assert x[0] in x;
      assert (x + rest)[1..] == x[1..] + rest;
      assert forall c :: c in x[1..] ==> c in x;
      LineEndOfLine(x[1..], rest);
    }
  }

  // ---------------------------------------------------------------- the manifest

  /** The manifest line naming converted frame `i`. */
  function FrameLine(i: nat): string
  {
    "frame " + FrameName(Converted, i) + " 1"
  }

  /** The manifest lines before the first frame. */
  function Header(loop: bool): seq<string>
  {
    ["sequence 0"] + (if loop then ["loop"] else [])
  }

  lemma FrameLineText(i: nat)
    ensures FrameLine(i) == "frame frame_" + NatToString(i) + ".tga 1"
  {
    var d := NatToString(i);
    assert "frame " + ("frame_" + d + ".tga") + " 1" == "frame frame_" + d + ".tga 1";
  }

  /** The frame lines for `frame_1.tga` .. `frame_m.tga`, in that order. */
  function FrameLines(m: nat): seq<string>
  {
    if m == 0 then [] else FrameLines(m - 1) + [FrameLine(m)]
  }

  /** The whole manifest for a run that listed `m` frames. */
  function ManifestLines(loop: bool, m: nat): seq<string>
  {
    Header(loop) + FrameLines(m)
  }

  lemma {:induction false} FrameLinesAt(m: nat)
    ensures |FrameLines(m)| == m
    ensures forall i :: 1 <= i <= m ==> FrameLines(m)[i - 1] == FrameLine(i)
  {
    if m > 0 {
      FrameLinesAt(m - 1);
    }
  }

  /**
    The manifest opens with "sequence 0", has "loop" as its second line exactly when the loop
    option is set, and then one line per frame, `frame frame_i.tga 1` for i = 1 .. m.
   */
  lemma ManifestShape(loop: bool, m: nat)
    ensures var r := ManifestLines(loop, m);
      var off := if loop then 2 else 1;
      && |r| == off + m
      && r[0] == "sequence 0"
      && (|r| > 1 && r[1] == "loop" <==> loop)
      && forall i :: 1 <= i <= m ==> r[off + i - 1] == "frame frame_" + NatToString(i) + ".tga 1"
  {
    var r := ManifestLines(loop, m);
    var off := if loop then 2 else 1;
    FrameLinesAt(m);
    forall i | 1 <= i <= m ensures r[off + i - 1] == "frame frame_" + NatToString(i) + ".tga 1" {
      assert r[off + i - 1] == FrameLines(m)[i - 1];
      FrameLineText(i);
    }
    if !loop && m > 0 {
      assert r[1] == FrameLine(1);
      assert r[1][0] == 'f';
    }
  }

  /** No manifest line holds a line break, so the written manifest reads back line for line. */
  lemma ManifestReadsBack(loop: bool, m: nat)
    ensures ReadLines(Joined(ManifestLines(loop, m))) == ManifestLines(loop, m)
  {
    var r := ManifestLines(loop, m);
    FrameLinesAt(m);
    forall k | 0 <= k < |r| ensures NoLineBreak(r[k]) {
      if k >= |Header(loop)| {
        var i := k - |Header(loop)| + 1;
        assert r[k] == FrameLine(i);
        assert NoLineBreak(NatToString(i)) by {
          forall q | 0 <= q < |NatToString(i)| ensures NatToString(i)[q] != '\n' {
            assert IsDigit(NatToString(i)[q]);
          }
        }
        FrameLineText(i);
      }
    }
    ReadJoined(r);
  }

  // ---------------------------------------------------------------- names

  /** The export name, or "export" when the box is empty or blank. */
  function BaseName(exportName: string): string
  {
    if !IsNullOrWhiteSpace(exportName) then exportName else "export"
  }

  function MksName(base: string): string { "mks_" + base + ".mks" }
  function ShtName(base: string): string { "mks_" + base + ".sht" }
  function TgaName(base: string): string { "mks_" + base + ".tga" }
  function VtfName(base: string): string { "mks_" + base + ".vtf" }

  /**
    The export name is kept exactly when it is not blank; the base name is never blank, so
    deriving it once more changes nothing.
   */
  lemma BaseNameCorrect(exportName: string)
    ensures BaseName(exportName) == exportName <==> !IsNullOrWhiteSpace(exportName)
    ensures !IsNullOrWhiteSpace(BaseName(exportName))
    ensures BaseName(BaseName(exportName)) == BaseName(exportName)
  {
    assert !IsWhiteSpace("export"[0]);
  }

  /**
    The four derived names share the prefix and the base and differ in their extension, so
    they are pairwise distinct; and each determines the base it came from.
   */
  lemma DerivedNames(base: string, other: string)
    ensures var names := [MksName(base), ShtName(base), TgaName(base), VtfName(base)];
      && (forall k :: 0 <= k < 4 ==> |names[k]| == |base| + 8 && names[k][..4] == "mks_")
      && (forall k :: 0 <= k < 4 ==> names[k][4..|base| + 4] == base)
      && names[0][|base| + 4..] == ".mks" && names[1][|base| + 4..] == ".sht"
      && names[2][|base| + 4..] == ".tga" && names[3][|base| + 4..] == ".vtf"
      && forall j, k :: 0 <= j < k < 4 ==> names[j] != names[k]
    ensures MksName(base) == MksName(other) ==> base == other
    ensures ShtName(base) == ShtName(other) ==> base == other
    ensures TgaName(base) == TgaName(other) ==> base == other
    ensures VtfName(base) == VtfName(other) ==> base == other
  {
    var names := [MksName(base), ShtName(base), TgaName(base), VtfName(base)];
    var exts := [".mks", ".sht", ".tga", ".vtf"];
    forall k | 0 <= k < 4 ensures names[k] == "mks_" + base + exts[k] {}
    forall j, k | 0 <= j < k < 4 ensures names[j] != names[k] {
      assert exts[j][1] != exts[k][1];
      assert names[j][|base| + 5] == exts[j][1];
      assert names[k][|base| + 5] == exts[k][1];
    }
    if MksName(base) == MksName(other) { CancelAffixes("mks_", base, other, ".mks"); }
    if ShtName(base) == ShtName(other) { CancelAffixes("mks_", base, other, ".sht"); }
    if TgaName(base) == TgaName(other) { CancelAffixes("mks_", base, other, ".tga"); }
    if VtfName(base) == VtfName(other) { CancelAffixes("mks_", base, other, ".vtf"); }
  }

  // ---------------------------------------------------------------- the material

  /** The `$blendframes` value: "1" when frame blending is chosen, else "0". */
  function BlendValue(blend: bool): string
  {
    if blend then "1" else "0"
  }

  /** The VMT lines, each but the last already ending in a line break of its own. */
  function VmtLines(fileName: string, blend: bool): seq<string>
  {
    [ "\"SpriteCard\"\n",
      "{\n",
      "\t\"$basetexture\"\t\"particles/" + fileName + "\"\n",
      "\t\"vertexcolor\"\t    \"1\"\n",
      "\t\"vertexalpha\"\t    \"1\"\n",
      "\t\"$translucent\"\t\"1\"\n",
      "\t\"$blendframes\"\t\"" + BlendValue(blend) + "\"\n",
      "}" ]
  }

  /**
    The VMT has eight lines; the first two open a SpriteCard block and the last closes it;
    `$basetexture` names `particles/{fileName}`; `$blendframes` is "1" exactly when
    blending is chosen; and different export names or blend choices give different files.
   */
  lemma VmtCorrect(fileName: string, blend: bool, fileName': string, blend': bool)
    ensures var v := VmtLines(fileName, blend);
      && |v| == 8
      && v[0] == "\"SpriteCard\"\n" && v[1] == "{\n" && v[7] == "}"
      && v[2] == "\t\"$basetexture\"\t\"" + "particles/" + fileName + "\"\n"
      && v[6] == "\t\"$blendframes\"\t\"" + (if blend then "1" else "0") + "\"\n"
      && (v[6][17] == '1' <==> blend)
    ensures VmtLines(fileName, blend) == VmtLines(fileName', blend') ==> fileName == fileName' && blend == blend'
  {
    var v, v' := VmtLines(fileName, blend), VmtLines(fileName', blend');
    assert v[6][17] == BlendValue(blend)[0];
    assert "\t\"$basetexture\"\t\"" + "particles/" + fileName + "\"\n"
      == "\t\"$basetexture\"\t\"particles/" + fileName + "\"\n";
    if v == v' {
      assert v[2] == v'[2];
      assert "\t\"$basetexture\"\t\"particles/" + fileName + "\"\n"
          == "\t\"$basetexture\"\t\"particles/" + fileName' + "\"\n";
      CancelAffixes("\t\"$basetexture\"\t\"particles/", fileName, fileName', "\"\n");
      assert v[6][17] == v'[6][17];
    }
  }

  // ---------------------------------------------------------------- gameinfo

  /** Where gameinfo.txt is copied from: every "bin" in the TF2 path becomes "tf". */
  function GameinfoSource(tf2Path: string): string
  {
    ReplaceAll(tf2Path, "bin", "tf") + "gameinfo.txt"
  }

  /** The path under the Steam library that `RunConversion` tries first. */
  const SteamSuffix: string := "\\steamapps\\common\\Team Fortress 2\\bin\\"

  /** No "bin" is left in the directory part of the gameinfo source. */
  lemma GameinfoSourceHasNoBin(tf2Path: string)
    ensures !Contains(ReplaceAll(tf2Path, "bin", "tf"), "bin")
  {
    forall i, j | 0 <= i < 3 && 0 <= j < 2 ensures "bin"[i] != "tf"[j] {}
    assert Disjoint("bin", "tf");
    ReplaceAllRemovesEvery(tf2Path, "bin", "tf");
  }

  /**
    For the path built from a Steam library without "bin" in it, the gameinfo source is
    the game's `tf` directory beside `bin`.
   */
  lemma GameinfoOfSteamPath(install: string)
    requires !Contains(install, "bin")
    ensures GameinfoSource(install + SteamSuffix)
         == install + "\\steamapps\\common\\Team Fortress 2\\tf\\gameinfo.txt"
  {
    var a, b := install + SteamLead, "bin\\";
    assert install + SteamSuffix == a + b;
    assert ReplaceAll(a + b, "bin", "tf") == a + "tf\\" by {
      forall q: nat | q < |a| ensures !OccursAt(a + b, "bin", q) {
        NoBinBeforeBin(install, q);
      }
      ReplaceAllPrefix(a, b, "bin", "tf");
      assert ReplaceAll(b, "bin", "tf") == "tf\\" by {
        assert b[..3] == "bin" && b[3..] == "\\";
      }
    }
    assert a + "tf\\" + "gameinfo.txt" == install + "\\steamapps\\common\\Team Fortress 2\\tf\\gameinfo.txt";
  }

  const SteamLead: string := "\\steamapps\\common\\Team Fortress 2\\"

  /** In the Steam path, the only "bin" is the final directory's. */
  lemma NoBinBeforeBin(install: string, q: nat)
    requires !Contains(install, "bin") && q < |install + SteamLead|
    ensures !OccursAt(install + SteamLead + "bin\\", "bin", q)
  {
    var s := install + SteamLead + "bin\\";
    if q + 3 <= |install| {
      assert s[q..q + 3] == install[q..q + 3];
      assert !OccursAt(install, "bin", q);
    } else if q < |install| {
      assert s[|install|] == '\\';
      assert s[q..q + 3][|install| - q] == '\\';
    } else {
      assert s[q] == SteamLead[q - |install|];
      LeadHasNoB(q - |install|);
      assert s[q..q + 3][0] == s[q];
    }
  }

  lemma LeadHasNoB(k: nat)
    requires k < |SteamLead|
    ensures SteamLead[k] != 'b'
  {
    assert 'b' !in SteamLead;
  }
}
