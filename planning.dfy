/** The list operations tvsort/cli.py applies to the matched episodes before
    linking: the record of one planned link, the filter against files already
    in the library, the stable sort by destination folder, and the removal of
    the positions the user asks to skip. */
module Planning {
  import opened Wrappers
  import opened Common

  /** `MatchedEpisode`: the intent to sort `ep.file`, found in folder `root`,
      into show `dest`, sub-folder `subdest`, with the match score. */
  datatype MatchedEpisode = MatchedEpisode(root: string, ep: EpInfo, dest: Show, subdest: string, score: int)

  /** `os.path.exists(os.path.join(root, dir, subdest, file))`, given as a
      predicate over the four path components. */
  predicate AlreadyThere(r: MatchedEpisode, pathExists: (string, string, string, string) -> bool)
  {
    pathExists(r.dest.root, r.dest.dir, r.subdest, r.ep.file)
  }

  /** The `filter` keeping the entries whose destination file does not exist. */
  function KeepMissing(results: seq<MatchedEpisode>, pathExists: (string, string, string, string) -> bool): (kept: seq<MatchedEpisode>)
    ensures |kept| <= |results|
  {
    if results == [] then []
    else
      var r := results[|results| - 1];
      KeepMissing(results[..|results| - 1], pathExists) + (if AlreadyThere(r, pathExists) then [] else [r])
  }

  /** How many entries have their destination file already. */
  function CountThere(results: seq<MatchedEpisode>, pathExists: (string, string, string, string) -> bool): nat
  {
    if results == [] then 0
    else CountThere(results[..|results| - 1], pathExists) + (if AlreadyThere(results[|results| - 1], pathExists) then 1 else 0)
  }

  /** `a` is `b` with some elements left out and the others in order: the
      last element of `a` is matched to the last possible element of `b`. */
  predicate IsSubsequence<T(==)>(a: seq<T>, b: seq<T>)
    decreases |b|
  {
    if a == [] then true
    else if b == [] then false
    else if a[|a| - 1] == b[|b| - 1] then IsSubsequence(a[..|a| - 1], b[..|b| - 1])
    else IsSubsequence(a, b[..|b| - 1])
  }

  /** The filter keeps exactly the entries whose file is missing, in their
      order, and `already_there` (the number it drops) is the number of
      entries whose file exists. */
  lemma KeepMissingSpec(results: seq<MatchedEpisode>, pathExists: (string, string, string, string) -> bool)
    ensures var kept := KeepMissing(results, pathExists);
      && IsSubsequence(kept, results)
      && (forall r :: r in kept <==> r in results && !AlreadyThere(r, pathExists))
      && |results| - |kept| == CountThere(results, pathExists)
  {
    KeepMissingOrder(results, pathExists);
    KeepMissingMembers(results, pathExists);
    KeepMissingCount(results, pathExists);
  }

  lemma {:induction false} KeepMissingOrder(results: seq<MatchedEpisode>, pathExists: (string, string, string, string) -> bool)
    ensures IsSubsequence(KeepMissing(results, pathExists), results)
  {
    if results != [] {
      var init := results[..|results| - 1];
      var r := results[|results| - 1];
      KeepMissingOrder(init, pathExists);
      KeepMissingMembers(init, pathExists);
      var kept := KeepMissing(results, pathExists);
      var k0 := KeepMissing(init, pathExists);
      if AlreadyThere(r, pathExists) {
        assert kept == k0;
        if kept != [] {
          assert kept[|kept| - 1] in k0;
        }
      } else {
        assert kept == k0 + [r];
        assert kept[..|kept| - 1] == k0;
      }
    }
  }

  lemma {:induction false} KeepMissingMembers(results: seq<MatchedEpisode>, pathExists: (string, string, string, string) -> bool)
    ensures forall r :: r in KeepMissing(results, pathExists) <==> r in results && !AlreadyThere(r, pathExists)
  {
    if results != [] {
      var init := results[..|results| - 1];
      KeepMissingMembers(init, pathExists);
      assert results == init + [results[|results| - 1]];
    }
  }

  lemma {:induction false} KeepMissingCount(results: seq<MatchedEpisode>, pathExists: (string, string, string, string) -> bool)
    ensures |results| - |KeepMissing(results, pathExists)| == CountThere(results, pathExists)
  {
    if results != [] {
      KeepMissingCount(results[..|results| - 1], pathExists);
    }
  }

  /** Python's `<=` on strings: lexicographic by code point. */
  predicate StrLe(a: string, b: string)
  {
    a == [] || (b != [] && (a[0] < b[0] || (a[0] == b[0] && StrLe(a[1..], b[1..]))))
  }

  lemma {:induction false} StrLeTotal(a: string, b: string)
    ensures StrLe(a, b) || StrLe(b, a)
  {
    if a != [] && b != [] && a[0] == b[0] {
      StrLeTotal(a[1..], b[1..]);
    }
  }

  lemma {:induction false} StrLeTrans(a: string, b: string, c: string)
    requires StrLe(a, b) && StrLe(b, c)
    ensures StrLe(a, c)
  {
    if a != [] && b != [] && c != [] && a[0] == b[0] && b[0] == c[0] {
      StrLeTrans(a[1..], b[1..], c[1..]);
    }
  }

  lemma {:induction false} StrLeAntisymmetric(a: string, b: string)
    requires StrLe(a, b) && StrLe(b, a)
    ensures a == b
  {
    if a != [] && b != [] {
      StrLeAntisymmetric(a[1..], b[1..]);
      assert a == [a[0]] + a[1..];
      assert b == [b[0]] + b[1..];
    }
  }

  /** The sort key `x.dest.dir`. */
  function Dir(r: MatchedEpisode): string
  {
    r.dest.dir
  }

  predicate SortedByDir(s: seq<MatchedEpisode>)
  {
    forall i, j :: 0 <= i < j < |s| ==> StrLe(Dir(s[i]), Dir(s[j]))
  }

  /** Puts `x` in front of the first entry with a strictly greater folder
      name, after all the entries with the same one. */
  function Insert(x: MatchedEpisode, s: seq<MatchedEpisode>): (r: seq<MatchedEpisode>)
    ensures |r| == |s| + 1
  {
    if s == [] then [x]
    else if !StrLe(Dir(s[0]), Dir(x)) then [x] + s
    else [s[0]] + Insert(x, s[1..])
  }

  /** `results.sort(key=lambda x: x.dest.dir)`: Python's sort is stable, so
      its result is the one insertion sort builds, entry after entry. */
  function SortByDir(s: seq<MatchedEpisode>): (r: seq<MatchedEpisode>)
    ensures |r| == |s|
  {
    if s == [] then [] else Insert(s[|s| - 1], SortByDir(s[..|s| - 1]))
  }

  lemma {:induction false} InsertPerm(x: MatchedEpisode, s: seq<MatchedEpisode>)
    ensures multiset(Insert(x, s)) == multiset(s) + multiset{x}
  {
    if s != [] {
      assert s == [s[0]] + s[1..];
      if StrLe(Dir(s[0]), Dir(x)) {
        InsertPerm(x, s[1..]);
      }
    }
  }

  /** A sorted list with an entry in front that is at or before all of
      them is sorted. */
  lemma SortedCons(h: MatchedEpisode, t: seq<MatchedEpisode>)
    requires SortedByDir(t)
    requires forall k :: 0 <= k < |t| ==> StrLe(Dir(h), Dir(t[k]))
    ensures SortedByDir([h] + t)
  {
    var s := [h] + t;
    forall i, j | 0 <= i < j < |s| ensures StrLe(Dir(s[i]), Dir(s[j])) {
      if i > 0 {
        assert s[i] == t[i - 1] && s[j] == t[j - 1];
      } else {
        assert s[j] == t[j - 1];
      }
    }
  }

  lemma {:induction false} InsertSorted(x: MatchedEpisode, s: seq<MatchedEpisode>)
    requires SortedByDir(s)
    ensures SortedByDir(Insert(x, s))
  {
    if s != [] {
      var h := s[0];
      if !StrLe(Dir(h), Dir(x)) {
        StrLeTotal(Dir(h), Dir(x));
        forall k | 0 <= k < |s| ensures StrLe(Dir(x), Dir(s[k])) {
          if k > 0 {
            StrLeTrans(Dir(x), Dir(h), Dir(s[k]));
          }
        }
        SortedCons(x, s);
      } else {
        var t := Insert(x, s[1..]);
        InsertSorted(x, s[1..]);
        InsertPerm(x, s[1..]);
        forall k | 0 <= k < |t| ensures StrLe(Dir(h), Dir(t[k])) {
          assert t[k] in multiset(t);
          if t[k] != x {
            assert t[k] in multiset(s[1..]);
            var j :| 0 <= j < |s[1..]| && s[1..][j] == t[k];
            assert s[j + 1] == t[k];
          }
        }
        SortedCons(h, t);
      }
    }
  }

  /** The sort leaves `results` in order of folder name and holds the same
      entries. */
  lemma {:induction false} SortByDirSorted(s: seq<MatchedEpisode>)
    ensures SortedByDir(SortByDir(s))
    ensures multiset(SortByDir(s)) == multiset(s)
  {
    if s != [] {
      SortByDirSorted(s[..|s| - 1]);
      InsertSorted(s[|s| - 1], SortByDir(s[..|s| - 1]));
      InsertPerm(s[|s| - 1], SortByDir(s[..|s| - 1]));
      assert s == s[..|s| - 1] + [s[|s| - 1]];
    }
  }

  /** The entries going to folder `d`, in order. */
  function WithDir(s: seq<MatchedEpisode>, d: string): seq<MatchedEpisode>
  {
    if s == [] then []
    else WithDir(s[..|s| - 1], d) + (if Dir(s[|s| - 1]) == d then [s[|s| - 1]] else [])
  }

  lemma {:induction false} WithDirCons(x: MatchedEpisode, s: seq<MatchedEpisode>, d: string)
    ensures WithDir([x] + s, d) == (if Dir(x) == d then [x] else []) + WithDir(s, d)
    decreases |s|
  {
    if s != [] {
      var xs := [x] + s;
      assert xs[..|xs| - 1] == [x] + s[..|s| - 1];
      WithDirCons(x, s[..|s| - 1], d);
    } else {
      assert [x][..0] == [];
    }
  }

  lemma {:induction false} WithDirNone(s: seq<MatchedEpisode>, d: string)
    requires forall k :: 0 <= k < |s| ==> Dir(s[k]) != d
    ensures WithDir(s, d) == []
  {
    if s != [] {
      WithDirNone(s[..|s| - 1], d);
    }
  }

  lemma {:induction false} StrLeRefl(a: string)
    ensures StrLe(a, a)
  {
    if a != [] {
      StrLeRefl(a[1..]);
    }
  }

  /** Every entry of a sorted list is at or after its first folder name. */
  lemma SortedFromFirst(s: seq<MatchedEpisode>)
    requires SortedByDir(s) && s != []
    ensures forall k :: 0 <= k < |s| ==> StrLe(Dir(s[0]), Dir(s[k]))
  {
    StrLeRefl(Dir(s[0]));
  }

  /** Nothing in a sorted list that starts after `x`'s folder goes to that
      folder. */
  lemma AfterGreater(x: MatchedEpisode, s: seq<MatchedEpisode>)
    requires SortedByDir(s) && s != [] && !StrLe(Dir(s[0]), Dir(x))
    ensures WithDir(s, Dir(x)) == []
  {
    SortedFromFirst(s);
    forall k | 0 <= k < |s| ensures Dir(s[k]) != Dir(x) {
      assert StrLe(Dir(s[0]), Dir(s[k]));
    }
    WithDirNone(s, Dir(x));
  }

  lemma SortedTail(s: seq<MatchedEpisode>)
    requires SortedByDir(s) && s != []
    ensures SortedByDir(s[1..])
  {
    var t := s[1..];
    forall i, j | 0 <= i < j < |t| ensures StrLe(Dir(t[i]), Dir(t[j])) {
      assert t[i] == s[i + 1] && t[j] == s[j + 1];
    }
  }

  lemma {:induction false} InsertStable(x: MatchedEpisode, s: seq<MatchedEpisode>, d: string)
    requires SortedByDir(s)
    ensures WithDir(Insert(x, s), d) == WithDir(s, d) + (if Dir(x) == d then [x] else [])
  {
    if s == [] {
      assert WithDir([x], d) == WithDir([x][..0], d) + (if Dir(x) == d then [x] else []);
    } else if !StrLe(Dir(s[0]), Dir(x)) {
      WithDirCons(x, s, d);
      if Dir(x) == d {
        AfterGreater(x, s);
      }
    } else {
      var h, t := s[0], s[1..];
      assert s == [h] + t;
      assert Insert(x, s) == [h] + Insert(x, t);
      SortedTail(s);
      InsertStable(x, t, d);
      WithDirCons(h, Insert(x, t), d);
      WithDirCons(h, t, d);
      var own := if Dir(h) == d then [h] else [];
      var new1 := if Dir(x) == d then [x] else [];
      assert own + (WithDir(t, d) + new1) == (own + WithDir(t, d)) + new1;
    }
  }

  /** The sort is stable: the entries going to any one folder keep their
      order. */
  lemma {:induction false} SortByDirStable(s: seq<MatchedEpisode>, d: string)
    ensures WithDir(SortByDir(s), d) == WithDir(s, d)
  {
    if s != [] {
      SortByDirStable(s[..|s| - 1], d);
      SortByDirSorted(s[..|s| - 1]);
      InsertStable(s[|s| - 1], SortByDir(s[..|s| - 1]), d);
    }
  }

  /** Sorting a list that is in order already changes nothing, so the
      re-sort at the top of each round of the review keeps the order the
      previous round showed. */
  lemma {:induction false} SortByDirSortedId(s: seq<MatchedEpisode>)
    requires SortedByDir(s)
    ensures SortByDir(s) == s
  {
    if s != [] {
      var init := s[..|s| - 1];
      SortByDirSortedId(init);
      InsertAtEnd(s[|s| - 1], init);
      assert s == init + [s[|s| - 1]];
    }
  }

  lemma {:induction false} InsertAtEnd(x: MatchedEpisode, s: seq<MatchedEpisode>)
    requires forall k :: 0 <= k < |s| ==> StrLe(Dir(s[k]), Dir(x))
    ensures Insert(x, s) == s + [x]
  {
    if s != [] {
      InsertAtEnd(x, s[1..]);
      assert s == [s[0]] + s[1..];
    }
  }

  /** `list.pop(n)`: `n` counts from the end when negative; `Err(n)` when
      out of range. Python raises `IndexError` there, or `OverflowError` when
      `n` does not fit in a C `ssize_t`; both are `Err(n)`. */
  function Pop<T>(s: seq<T>, n: int): (r: Result<seq<T>, int>)
    ensures r.Ok? <==> -|s| <= n < |s|
    ensures r.Ok? ==> |r.value| == |s| - 1
  {
    if -|s| <= n < |s| then
      var i := if n < 0 then |s| + n else n;
      Ok(s[..i] + s[i + 1..])
    else Err(n)
  }

  /** `for number in exclude: results.pop(number)`: the first `pop` to fail
      aborts with its index. */
  function PopAll<T>(s: seq<T>, ns: seq<int>): Result<seq<T>, int>
  {
    if ns == [] then Ok(s)
    else
      match Pop(s, ns[0])
      case Err(n) => Err(n)
      case Ok(t) => PopAll(t, ns[1..])
  }

  /** `s` without the positions in `p`, in order. */
  function RemovePositions<T>(s: seq<T>, p: set<int>): (r: seq<T>)
    ensures |r| <= |s|
  {
    if s == [] then []
    else RemovePositions(s[..|s| - 1], p) + (if |s| - 1 in p then [] else [s[|s| - 1]])
  }

  lemma {:induction false} RemoveSamePositions<T>(s: seq<T>, p: set<int>, q: set<int>)
    requires forall i :: 0 <= i < |s| ==> (i in p <==> i in q)
    ensures RemovePositions(s, p) == RemovePositions(s, q)
  {
    if s != [] {
      RemoveSamePositions(s[..|s| - 1], p, q);
    }
  }

  lemma {:induction false} RemoveBefore<T>(a: seq<T>, b: seq<T>, p: set<int>)
    requires forall i :: i in p ==> i < |a|
    ensures RemovePositions(a + b, p) == RemovePositions(a, p) + b
    decreases |b|
  {
    if b != [] {
      var ab := a + b;
      assert ab[..|ab| - 1] == a + b[..|b| - 1];
      RemoveBefore(a, b[..|b| - 1], p);
      assert b == b[..|b| - 1] + [b[|b| - 1]];
    } else {
      assert a + b == a;
    }
  }

  lemma {:induction false} RemoveAt<T>(a: seq<T>, x: T, b: seq<T>, p: set<int>)
    requires forall i :: i in p ==> i < |a|
    ensures RemovePositions(a + [x] + b, p + {|a|}) == RemovePositions(a, p) + b
    decreases |b|
  {
    if b != [] {
      var ab := a + [x] + b;
      assert ab[..|ab| - 1] == a + [x] + b[..|b| - 1];
      RemoveAt(a, x, b[..|b| - 1], p);
      assert b == b[..|b| - 1] + [b[|b| - 1]];
    } else {
      var ax := a + [x];
      assert ax[..|ax| - 1] == a;
      RemoveSamePositions(a, p + {|a|}, p);
      assert a + [x] + b == ax;
    }
  }

  predicate StrictlyDecreasing(ns: seq<int>)
  {
    forall i, j :: 0 <= i < j < |ns| ==> ns[i] > ns[j]
  }

  /** Popping non-negative in-range positions from the highest down removes
      exactly those positions and keeps the rest in order. */
  lemma {:induction false} PopAllDescending<T>(s: seq<T>, ns: seq<int>)
    requires StrictlyDecreasing(ns)
    requires forall i :: 0 <= i < |ns| ==> 0 <= ns[i] < |s|
    ensures PopAll(s, ns) == Ok(RemovePositions(s, set i | i in ns))
  {
    if ns == [] {
      RemoveSamePositions(s, {}, set i | i in ns);
      if s != [] {
        RemoveBefore(s[..0], s, {});
        assert s[..0] + s == s;
      } else {
        assert RemovePositions(s, {}) == s;
      }
    } else {
      var n := ns[0];
      var rest := ns[1..];
      var a, b := s[..n], s[n + 1..];
      var t := a + b;
      assert Pop(s, n) == Ok(t);
      assert forall i :: 0 <= i < |rest| ==> rest[i] < n;
      PopAllDescending(t, rest);
      var p := set i | i in rest;
      RemoveBefore(a, b, p);
      assert s == a + [s[n]] + b;
      RemoveAt(a, s[n], b, p);
      assert (set i | i in ns) == p + {n};
    }
  }

  /** `exclude.sort(reverse=True)` */
  function SortDesc(ns: seq<int>): (r: seq<int>)
    ensures |r| == |ns|
  {
    if ns == [] then [] else InsertDesc(ns[|ns| - 1], SortDesc(ns[..|ns| - 1]))
  }

  function InsertDesc(n: int, s: seq<int>): (r: seq<int>)
    ensures |r| == |s| + 1
  {
    if s == [] || s[0] <= n then [n] + s else [s[0]] + InsertDesc(n, s[1..])
  }

  predicate NonIncreasing(ns: seq<int>)
  {
    forall i, j :: 0 <= i < j < |ns| ==> ns[i] >= ns[j]
  }

  lemma {:induction false} InsertDescPerm(n: int, s: seq<int>)
    ensures multiset(InsertDesc(n, s)) == multiset(s) + multiset{n}
  {
    if s != [] && s[0] > n {
      InsertDescPerm(n, s[1..]);
      assert s == [s[0]] + s[1..];
    }
  }

  lemma {:induction false} InsertDescSorted(n: int, s: seq<int>)
    requires NonIncreasing(s)
    ensures NonIncreasing(InsertDesc(n, s))
  {
    if s != [] && s[0] > n {
      InsertDescSorted(n, s[1..]);
      InsertDescPerm(n, s[1..]);
      var t := InsertDesc(n, s[1..]);
      forall k | 0 <= k < |t| ensures s[0] >= t[k] {
        assert t[k] in multiset(s[1..]) + multiset{n};
      }
      assert InsertDesc(n, s) == [s[0]] + t;
    }
  }

  /** The reversed sort orders the indices from the highest down and keeps
      every one of them, repeats included. */
  lemma {:induction false} SortDescSpec(ns: seq<int>)
    ensures NonIncreasing(SortDesc(ns))
    ensures multiset(SortDesc(ns)) == multiset(ns)
  {
    if ns != [] {
      SortDescSpec(ns[..|ns| - 1]);
      InsertDescSorted(ns[|ns| - 1], SortDesc(ns[..|ns| - 1]));
      InsertDescPerm(ns[|ns| - 1], SortDesc(ns[..|ns| - 1]));
      assert ns == ns[..|ns| - 1] + [ns[|ns| - 1]];
    }
  }

  /** With distinct non-negative in-range indices, the exclusion step removes
      exactly those positions of the list and keeps the rest in order. */
  lemma ExcludeDistinct<T>(s: seq<T>, ex: seq<int>)
    requires forall i, j :: 0 <= i < j < |ex| ==> ex[i] != ex[j]
    requires forall i :: 0 <= i < |ex| ==> 0 <= ex[i] < |s|
    ensures PopAll(s, SortDesc(ex)) == Ok(RemovePositions(s, set i | i in ex))
  {
    var d := SortDesc(ex);
    SortDescSpec(ex);
    forall k | 0 <= k < |d| ensures 0 <= d[k] < |s| {
      assert d[k] in multiset(ex);
    }
    forall x ensures multiset(d)[x] <= 1 {
      DistinctCount(ex, x);
    }
    DescendingDistinct(d);
    PopAllDescending(s, d);
    SameElements(d, ex);
  }

  lemma SameElements(a: seq<int>, b: seq<int>)
    requires multiset(a) == multiset(b)
    ensures (set i | i in a) == (set i | i in b)
  {
    forall x ensures x in a <==> x in b {
      assert x in a <==> x in multiset(a);
      assert x in b <==> x in multiset(b);
    }
  }

  /** A non-increasing list without repeats is strictly decreasing. */
  lemma DescendingDistinct(d: seq<int>)
    requires NonIncreasing(d)
    requires forall x :: multiset(d)[x] <= 1
    ensures StrictlyDecreasing(d)
  {
    forall i, j | 0 <= i < j < |d| ensures d[i] > d[j] {
      if d[i] == d[j] {
        EqualPairCount(d, i, j);
      }
    }
  }

  lemma EqualPairCount(d: seq<int>, i: nat, j: nat)
    requires i < j < |d| && d[i] == d[j]
    ensures multiset(d)[d[i]] >= 2
  {
    assert d == d[..i] + [d[i]] + d[i + 1..j] + [d[j]] + d[j + 1..];
  }

  lemma {:induction false} DistinctCount(ex: seq<int>, x: int)
    requires forall i, j :: 0 <= i < j < |ex| ==> ex[i] != ex[j]
    ensures multiset(ex)[x] <= 1
  {
    if ex != [] {
      var init := ex[..|ex| - 1];
      DistinctCount(init, x);
      assert ex == init + [ex[|ex| - 1]];
      if ex[|ex| - 1] == x {
        assert x !in init;
      }
    }
  }

  /** A repeated index pops two different entries: skipping "1 1" from
      [a, b, c] removes b and then c. */
  lemma RepeatedIndexRemovesTwo()
    ensures PopAll(["a", "b", "c"], SortDesc([1, 1])) == Ok(["a"])
  {
    assert SortDesc([1, 1]) == [1, 1] by {
      assert [1, 1][..1] == [1];
      assert SortDesc([1]) == [1] by {
        assert [1][..0] == [];
      }
    }
    var abc: seq<string> := ["a", "b", "c"];
    assert abc[..1] + abc[2..] == ["a", "c"];
    assert Pop(abc, 1) == Ok(["a", "c"]);
    var ac: seq<string> := ["a", "c"];
    assert ac[..1] + ac[2..] == ["a"];
    assert Pop(ac, 1) == Ok(["a"]);
    assert [1, 1][1..] == [1];
    assert [1, 1][1..][1..] == [];
  }
}
