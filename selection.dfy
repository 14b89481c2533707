/**
  The two selection loops of `RunConversion`. Each walks the key-ordered listing with a
  counter and takes an entry only when its name is the one the counter expects,
  then bumps the counter: "{index}.png" from 0 in `frames\`, and "frame_{index}.tga"
  from 1 in `frames\converted\`. Over a listing sorted by key this takes exactly the
  longest gap-free run of expected names, whatever order the directory enumerated in.
 */
module Selection {
  import opened Wrappers
  import opened Text
  import opened Listing

  /** Which of the two numbered name patterns a loop expects. */
  datatype Pattern = Source | Converted

  /** The name the loop expects for counter value `i`. */
  function FrameName(p: Pattern, i: nat): string
  {
    match p
    case Source => NatToString(i) + ".png"
    case Converted => "frame_" + NatToString(i) + ".tga"
  }

  /** The extension `GetFileList` is called with for each pattern. */
  function PatternExtension(p: Pattern): string
  {
    match p
    case Source => "png"
    case Converted => "tga"
  }

  /** The counter value each loop starts from. */
  function PatternStart(p: Pattern): nat
  {
    match p
    case Source => 0
    case Converted => 1
  }

  lemma FrameNameInjective(p: Pattern, i: nat, j: nat)
    ensures i != j ==> FrameName(p, i) != FrameName(p, j)
  {
    if FrameName(p, i) == FrameName(p, j) {
      match p
      case Source =>
        assert "" + NatToString(i) == NatToString(i) && "" + NatToString(j) == NatToString(j);
        CancelAffixes("", NatToString(i), NatToString(j), ".png");
        NatToStringInjective(i, j);
      case Converted =>
        CancelAffixes("frame_", NatToString(i), NatToString(j), ".tga");
        NatToStringInjective(i, j);
    }
  }

  /** Every expected name is selected by its loop's "*." + extension pattern. */
  lemma FrameNameMatches(p: Pattern, i: nat)
    ensures EndsWith(FrameName(p, i), "." + PatternExtension(p))
  {
    var name := FrameName(p, i);
    assert name[|name| - 4..] == "." + PatternExtension(p);
  }

  /**
    The key of an expected name is its counter value, and it has one exactly when that
    value fits a C# `int`.
   */
  lemma FrameNameKey(p: Pattern, i: nat)
    ensures ParsedKey(FrameName(p, i)) == if i <= Int32Max then Some(i) else None
  {
    match p
    case Source => SourceNameKey(i);
    case Converted => ConvertedNameKey(i);
  }

  lemma SourceNameKey(i: nat)
    ensures ParsedKey(FrameName(Source, i)) == if i <= Int32Max then Some(i) else None
  {
    var digits := NatToString(i);
    var name := FrameName(Source, i);
    assert name == digits + ".png";
    assert Extension(name) == ".png" by {
      FrameNameMatches(Source, i);
      ExtensionOfSuffix(name, "png");
    }
    assert !Contains(name, "frame_") by {
      forall q | 0 <= q < |name| ensures name[q] != "frame_"[5] {
        if q < |digits| {
          assert name[q] == digits[q];
        } else {
          assert name[q] == ".png"[q - |digits|];
        }
      }
      NotContainsChar(name, "frame_", 5);
    }
    assert name[0..|digits|] == digits;
    ParseOfNatToString(i);
  }

  lemma ConvertedNameKey(i: nat)
    ensures ParsedKey(FrameName(Converted, i)) == if i <= Int32Max then Some(i) else None
  {
    var digits := NatToString(i);
    var name := FrameName(Converted, i);
    assert name == "frame_" + digits + ".tga";
    assert Extension(name) == ".tga" by {
      FrameNameMatches(Converted, i);
      ExtensionOfSuffix(name, "tga");
    }
    assert OccursAt(name, "frame_", 0);
    assert name[6..6 + |digits|] == digits;
    ParseOfNatToString(i);
  }

  // ---------------------------------------------------------------- the loop

  /**
    The counter after the loop body has run over `l` starting from `index`: the body takes
    an entry exactly when its name equals `FrameName(p, index)`, and then bumps the counter.
   */
  function Scan(l: seq<string>, p: Pattern, index: nat): (r: nat)
    ensures r >= index
  {
    if l == [] then index
    else Scan(l[1..], p, if l[0] == FrameName(p, index) then index + 1 else index)
  }

  /** One step of `Scan` at position `k` of a listing. */
  lemma ScanAt(l: seq<string>, k: nat, p: Pattern, index: nat)
    requires k < |l|
    ensures Scan(l[k..], p, index) == Scan(l[k + 1..], p, if l[k] == FrameName(p, index) then index + 1 else index)
  {
    assert l[k..][0] == l[k] && l[k..][1..] == l[k + 1..];
  }

  /**
    The number of expected names present from `i` on without a gap: the reference
    definition the loops are proved against. It depends only on the set of entries.
   */
  function RunLength(present: set<string>, p: Pattern, i: nat): nat
    decreases |present|
  {
    if FrameName(p, i) in present then 1 + RunLength(present - {FrameName(p, i)}, p, i + 1) else 0
  }

  /** `RunLength` is the longest gap-free run: every name in it is present, the next one is not. */
  lemma {:induction false} RunLengthIsMaximal(present: set<string>, p: Pattern, i: nat)
    ensures forall j :: i <= j < i + RunLength(present, p, i) ==> FrameName(p, j) in present
    ensures FrameName(p, i + RunLength(present, p, i)) !in present
    decreases |present|
  {
    var first := FrameName(p, i);
    if first in present {
      var rest := present - {first};
      var n := RunLength(rest, p, i + 1);
      RunLengthIsMaximal(rest, p, i + 1);
      FrameNameInjective(p, i + 1 + n, i);
    }
  }

  /** A gap-free run of `n` present names from `i` makes the run at least `n` long. */
  lemma RunLengthAtLeast(present: set<string>, p: Pattern, i: nat, n: nat)
    requires forall j :: i <= j < i + n ==> FrameName(p, j) in present
    ensures RunLength(present, p, i) >= n
  {
    RunLengthIsMaximal(present, p, i);
    var r := RunLength(present, p, i);
    var next: nat := i + r;
    assert r < n ==> FrameName(p, next) in present;
  }

  /**
    Over a listing sorted by key in which every entry has a key, the loop stops right at the
    first gap: it has seen every expected name before the final counter value, and the name
    for that value is not in the listing.
   */
  lemma {:induction false} ScanStopsAtGap(l: seq<string>, p: Pattern, index: nat)
    requires SortedByKey(l) && forall i :: 0 <= i < |l| ==> HasKey(l[i])
    ensures forall j :: index <= j < Scan(l, p, index) ==> FrameName(p, j) in l
    ensures FrameName(p, Scan(l, p, index)) !in l
  {
    if l != [] {
      KeyedTail(l);
      if l[0] == FrameName(p, index) {
        ScanStopsAtGap(l[1..], p, index + 1);
        GapAfterHit(l, p, index);
      } else {
        ScanStopsAtGap(l[1..], p, index);
        GapAfterMiss(l, p, index);
      }
    }
  }

  lemma KeyedTail(l: seq<string>)
    requires l != [] && SortedByKey(l) && forall i :: 0 <= i < |l| ==> HasKey(l[i])
    ensures SortedByKey(l[1..]) && forall i :: 0 <= i < |l[1..]| ==> HasKey(l[1..][i])
  {
    assert forall i :: 0 <= i < |l[1..]| ==> l[1..][i] == l[i + 1];
  }

  /** The step of `ScanStopsAtGap` where the head is the expected name. */
  lemma GapAfterHit(l: seq<string>, p: Pattern, index: nat)
    requires l != [] && l[0] == FrameName(p, index)
    requires forall j :: index + 1 <= j < Scan(l[1..], p, index + 1) ==> FrameName(p, j) in l[1..]
    requires FrameName(p, Scan(l[1..], p, index + 1)) !in l[1..]
    ensures forall j :: index <= j < Scan(l, p, index) ==> FrameName(p, j) in l
    ensures FrameName(p, Scan(l, p, index)) !in l
  {
    var t := l[1..];
    assert l == [l[0]] + t;
    var r := Scan(t, p, index + 1);
    assert Scan(l, p, index) == r;
    FrameNameInjective(p, r, index);
    forall j | index <= j < r ensures FrameName(p, j) in l {
      if j > index {
        assert FrameName(p, j) in t;
      }
    }
  }

  /** The step of `ScanStopsAtGap` where the head is not the expected name. */
  lemma GapAfterMiss(l: seq<string>, p: Pattern, index: nat)
    requires l != [] && l[0] != FrameName(p, index) && HasKey(l[0]) && SortedByKey(l)
    requires forall j :: index <= j < Scan(l[1..], p, index) ==> FrameName(p, j) in l[1..]
    requires FrameName(p, Scan(l[1..], p, index)) !in l[1..]
    ensures forall j :: index <= j < Scan(l, p, index) ==> FrameName(p, j) in l
    ensures FrameName(p, Scan(l, p, index)) !in l
  {
    var t := l[1..];
    assert l == [l[0]] + t;
    var r := Scan(t, p, index);
    assert Scan(l, p, index) == r;
    if r > index {
      SortedTail(l);
      SkippedHeadIsNotNext(l[0], t, p, index, r);
    }
  }

  lemma SortedTail(l: seq<string>)
    requires l != [] && SortedByKey(l)
    ensures SortedByKey(l[1..])
    ensures forall y :: y in l[1..] ==> Key(l[0]) <= Key(y)
    ensures forall y :: y in l[1..] ==> y in l
  {
    forall y | y in l[1..] ensures Key(l[0]) <= Key(y) {
      var q :| 0 <= q < |l[1..]| && l[1..][q] == y;
      assert l[q + 1] == y;
    }
  }

  /**
    An entry the loop skipped at counter `index`, sorted before the expected name of
    `index`, cannot be the expected name of any later counter value `r`.
   */
  lemma SkippedHeadIsNotNext(x: string, t: seq<string>, p: Pattern, index: nat, r: nat)
    requires HasKey(x) && index < r
    requires FrameName(p, index) in t && forall y :: y in t ==> Key(x) <= Key(y)
    ensures x != FrameName(p, r)
  {
    FrameNameKey(p, index);
    FrameNameKey(p, r);
    assert Key(x) <= Key(FrameName(p, index));
  }

  /**
    The loop's final counter is its start plus the longest gap-free run over the listed set,
    so the outcome does not depend on the order the directory was enumerated in.
   */
  lemma ScanIsRunLength(l: seq<string>, present: set<string>, p: Pattern, index: nat)
    requires SortedByKey(l) && forall x :: x in l ==> HasKey(x)
    requires forall x :: x in l <==> x in present
    ensures Scan(l, p, index) == index + RunLength(present, p, index)
  {
    assert forall i :: 0 <= i < |l| ==> HasKey(l[i]);
    ScanStopsAtGap(l, p, index);
    RunLengthIsMaximal(present, p, index);
    var r1: nat, r2: nat := Scan(l, p, index), index + RunLength(present, p, index);
    assert r1 < r2 ==> FrameName(p, r1) in present;
    assert r2 < r1 ==> FrameName(p, r2) in l;
  }
}
