/**
  `GetFileList`: the entries of a directory whose name ends in "." + extension, ordered
  (stably) by the number in their name. The number is `int.Parse` of the name without its
  extension, after skipping the first six characters whenever the name contains "frame_";
  a name for which that fails makes the whole listing throw.
 */
module Listing {
  import opened Wrappers
  import opened Text

  /**
    The sort key of one entry, or None where `Substring` or `int.Parse` throws. Six
    characters are skipped whenever "frame_" occurs anywhere in the name, not only at its start.
   */
  function ParsedKey(name: string): Option<int>
  {
    var hasPrefix := Contains(name, "frame_");
    var start := if hasPrefix then 6 else 0;
    var length := (if hasPrefix then |name| - 6 else |name|) - |Extension(name)|;
    if length < 0 || start + length > |name| then None
    else ParseInt32(name[start..start + length])
  }

  predicate HasKey(name: string) { ParsedKey(name).Some? }

  /** The key of a name that has one (-1 otherwise, never used). */
  function Key(name: string): int { ParsedKey(name).GetOr(-1) }

  /** The entries that the pattern "*." + ext selects, in enumeration order. */
  function Matching(entries: seq<string>, ext: string): (r: seq<string>)
    ensures forall x :: x in r <==> x in entries && EndsWith(x, "." + ext)
  {
    if entries == [] then []
    else (if EndsWith(entries[0], "." + ext) then [entries[0]] else []) + Matching(entries[1..], ext)
  }

  // ---------------------------------------------------------------- stable sort by a key

  /** `s` is ordered by `key`. */
  predicate Sorted(key: string -> int, s: seq<string>)
  {
    forall i, j :: 0 <= i < j < |s| ==> key(s[i]) <= key(s[j])
  }

  /** The entries of `s` whose key is `k`, in their order in `s`. */
  function WithKey(key: string -> int, s: seq<string>, k: int): seq<string>
  {
    if s == [] then [] else (if key(s[0]) == k then [s[0]] else []) + WithKey(key, s[1..], k)
  }

  /** Places `x` before the first entry whose key is not smaller than its own. */
  function Insert(key: string -> int, x: string, s: seq<string>): seq<string>
  {
    if s == [] || key(x) <= key(s[0]) then [x] + s else [s[0]] + Insert(key, x, s[1..])
  }

  /** LINQ's `OrderBy(key)`: a stable sort. */
  function OrderBy(key: string -> int, s: seq<string>): seq<string>
  {
    if s == [] then [] else Insert(key, s[0], OrderBy(key, s[1..]))
  }

  lemma {:induction false} InsertPermutes(key: string -> int, x: string, s: seq<string>)
    ensures multiset(Insert(key, x, s)) == multiset(s) + multiset{x}
  {
    if s != [] && key(x) > key(s[0]) {
      InsertPermutes(key, x, s[1..]);
      assert s == [s[0]] + s[1..];
    }
  }

  lemma {:induction false} InsertSorted(key: string -> int, x: string, s: seq<string>)
    requires Sorted(key, s)
    ensures Sorted(key, Insert(key, x, s))
  {
    if s != [] && key(x) > key(s[0]) {
      var t := Insert(key, x, s[1..]);
      InsertSorted(key, x, s[1..]);
      InsertPermutes(key, x, s[1..]);
      forall j | 0 <= j < |t| ensures key(s[0]) <= key(t[j]) {
        assert t[j] in multiset(t);
        assert t[j] == x || t[j] in multiset(s[1..]);
        if t[j] != x {
          var q :| 0 <= q < |s[1..]| && s[1..][q] == t[j];
          assert s[q + 1] == t[j];
        }
      }
      assert Insert(key, x, s) == [s[0]] + t;
      SortedCons(key, s[0], t);
    }
  }

  /** A sorted sequence stays sorted under a new head whose key is not above any of its keys. */
  lemma SortedCons(key: string -> int, y: string, t: seq<string>)
    requires Sorted(key, t) && forall j :: 0 <= j < |t| ==> key(y) <= key(t[j])
    ensures Sorted(key, [y] + t)
  {
    var u := [y] + t;
    forall i, j | 0 <= i < j < |u| ensures key(u[i]) <= key(u[j]) {
      assert u[j] == t[j - 1];
      if i > 0 {
        assert u[i] == t[i - 1];
      }
    }
  }

  lemma WithKeyCons(key: string -> int, y: string, t: seq<string>, k: int)
    ensures WithKey(key, [y] + t, k) == (if key(y) == k then [y] else []) + WithKey(key, t, k)
  {
    assert ([y] + t)[0] == y && ([y] + t)[1..] == t;
  }

  lemma {:induction false} InsertWithKey(key: string -> int, x: string, s: seq<string>, k: int)
    ensures WithKey(key, Insert(key, x, s), k) == (if key(x) == k then [x] else []) + WithKey(key, s, k)
  {
    if s == [] || key(x) <= key(s[0]) {
      WithKeyCons(key, x, s, k);
    } else {
      var t := Insert(key, x, s[1..]);
      InsertWithKey(key, x, s[1..], k);
      WithKeyCons(key, s[0], t, k);
      WithKeyCons(key, s[0], s[1..], k);
      assert s == [s[0]] + s[1..];
      if key(s[0]) == k {
        assert key(x) != k;
      }
    }
  }

  /** `OrderBy` sorts, permutes, and keeps entries with equal keys in their original order. */
  lemma {:induction false} OrderByCorrect(key: string -> int, s: seq<string>)
    ensures Sorted(key, OrderBy(key, s))
    ensures multiset(OrderBy(key, s)) == multiset(s)
    ensures forall k :: WithKey(key, OrderBy(key, s), k) == WithKey(key, s, k)
  {
    if s != [] {
      var t := OrderBy(key, s[1..]);
      OrderByCorrect(key, s[1..]);
      InsertSorted(key, s[0], t);
      InsertPermutes(key, s[0], t);
      assert s == [s[0]] + s[1..];
      forall k ensures WithKey(key, OrderBy(key, s), k) == WithKey(key, s, k) {
        InsertWithKey(key, s[0], t, k);
      }
    }
  }

  // ---------------------------------------------------------------- the listing

  /** Sorted by the number in the name. */
  predicate SortedByKey(s: seq<string>)
  {
    Sorted(Key, s)
  }

  /**
    The pure part of `GetFileList`: None when some selected entry has no key (the
    `OrderBy` key selector runs on every element once the listing is enumerated).
   */
  function FileList(entries: seq<string>, ext: string): Option<seq<string>>
  {
    var m := Matching(entries, ext);
    if forall x :: x in m ==> HasKey(x) then Some(OrderBy(Key, m)) else None
  }

  /**
    `GetFileList` over an enumeration of a directory: it fails exactly when some entry the
    pattern selects has no key; otherwise it returns exactly the selected entries, sorted by
    key, with equal-key entries in enumeration order.
   */
  lemma FileListCorrect(entries: seq<string>, ext: string)
    ensures FileList(entries, ext).Some? <==>
              forall x :: x in entries && EndsWith(x, "." + ext) ==> HasKey(x)
    ensures FileList(entries, ext).Some? ==>
              var r := FileList(entries, ext).value;
              && SortedByKey(r)
              && multiset(r) == multiset(Matching(entries, ext))
              && (forall x :: x in r <==> x in entries && EndsWith(x, "." + ext))
              && forall k :: WithKey(Key, r, k) == WithKey(Key, Matching(entries, ext), k)
  {
    var m := Matching(entries, ext);
    OrderByCorrect(Key, m);
    forall x ensures x in OrderBy(Key, m) <==> x in m {
      assert x in OrderBy(Key, m) <==> x in multiset(OrderBy(Key, m));
      assert x in m <==> x in multiset(m);
    }
  }

  // ---------------------------------------------------------------- each entry once

  /** No element occurs twice. */
  predicate Distinct(s: seq<string>)
  {
    forall i, j :: 0 <= i < j < |s| ==> s[i] != s[j]
  }

  lemma {:induction false} InsertDistinct(key: string -> int, x: string, s: seq<string>)
    requires Distinct(s) && x !in s
    ensures Distinct(Insert(key, x, s))
  {
    if s != [] && key(x) > key(s[0]) {
      var t := Insert(key, x, s[1..]);
      assert s == [s[0]] + s[1..];
      InsertDistinct(key, x, s[1..]);
      InsertPermutes(key, x, s[1..]);
      assert s[0] !in t by {
        assert s[0] !in multiset(s[1..]) + multiset{x};
      }
      assert Insert(key, x, s) == [s[0]] + t;
    }
  }

  lemma {:induction false} OrderByDistinct(key: string -> int, s: seq<string>)
    requires Distinct(s)
    ensures Distinct(OrderBy(key, s))
  {
    if s != [] {
      var t := OrderBy(key, s[1..]);
      assert s == [s[0]] + s[1..];
      OrderByDistinct(key, s[1..]);
      OrderByCorrect(key, s[1..]);
      assert s[0] !in t by {
        assert s[0] !in multiset(s[1..]);
      }
      InsertDistinct(key, s[0], t);
    }
  }

  lemma {:induction false} MatchingDistinct(entries: seq<string>, ext: string)
    requires Distinct(entries)
    ensures Distinct(Matching(entries, ext))
  {
    if entries != [] {
      assert entries == [entries[0]] + entries[1..];
      MatchingDistinct(entries[1..], ext);
      assert entries[0] !in Matching(entries[1..], ext);
    }
  }

  /** Over an enumeration that lists each entry once, `GetFileList` lists each selected entry once. */
  lemma FileListOnce(entries: seq<string>, ext: string)
    requires Distinct(entries)
    ensures FileList(entries, ext).Some? ==> Distinct(FileList(entries, ext).value)
  {
    MatchingDistinct(entries, ext);
    OrderByDistinct(Key, Matching(entries, ext));
  }
}
