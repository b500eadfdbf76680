/** flist.c: the merge sort of a file list, which needs scratch room for half the list only. */
module FileSort {
  import opened Basics
  import opened NameOrder
  import opened NameComponents

  /** The flags of an entry that the list code looks at. */
  datatype Flags = Flags(topDir: bool, contentDir: bool, impliedDir: bool, duplicate: bool)

  /** A list entry. In a removed entry `depth` and `len32` hold distances to other entries instead. */
  datatype Entry = Entry(name: FileName, depth: int, len32: int, flags: Flags)

  ghost predicate NamesGood(s: seq<Entry>) {
    forall i :: 0 <= i < |s| ==> WellFormed(s[i].name)
  }

  /** The order of two entries. */
  function Cmp(a: Entry, b: Entry, paths: bool): int {
    Order(a.name, b.name, paths)
  }

  /** f_name_cmp on two entries, whether or not they share a dirname string. */
  method CompareEntries(a: Entry, b: Entry, paths: bool) returns (dif: int)
    requires WellFormed(a.name) && WellFormed(b.name)
    ensures Sign(dif) == Cmp(a, b, paths)
  {
    var sharedDir: bool :| sharedDir ==> a.name.dirname == b.name.dirname;
    dif := FNameCmp(a.name, b.name, sharedDir, paths);
  }

  // ----- what the sort computes

  function Merge(a: seq<Entry>, b: seq<Entry>, paths: bool): (r: seq<Entry>)
    ensures |r| == |a| + |b|
  {
    if a == [] then b
    else if b == [] then a
    else if Cmp(a[0], b[0], paths) <= 0 then [a[0]] + Merge(a[1..], b, paths)
    else [b[0]] + Merge(a, b[1..], paths)
  }

  function MergeSort(s: seq<Entry>, paths: bool): (r: seq<Entry>)
    ensures |r| == |s|
  {
    if |s| <= 1 then s
    else Merge(MergeSort(s[..|s| / 2], paths), MergeSort(s[|s| / 2..], paths), paths)
  }

  lemma MultisetCons(e: Entry, s: seq<Entry>)
    ensures multiset([e] + s) == multiset{e} + multiset(s)
  {
  }

  lemma {:induction false} MergeKeepsAll(a: seq<Entry>, b: seq<Entry>, paths: bool)
    ensures multiset(Merge(a, b, paths)) == multiset(a) + multiset(b)
    decreases |a| + |b|
  {
    hide Cmp;
    if a != [] && b != [] {
      if Cmp(a[0], b[0], paths) <= 0 {
        MergeKeepsAll(a[1..], b, paths);
        HeadApart(a);
        MultisetCons(a[0], Merge(a[1..], b, paths));
      } else {
        MergeKeepsAll(a, b[1..], paths);
        HeadApart(b);
        MultisetCons(b[0], Merge(a, b[1..], paths));
      }
    }
  }

  lemma HeadApart(s: seq<Entry>)
    requires s != []
    ensures multiset(s) == multiset{s[0]} + multiset(s[1..])
  {
    assert s == [s[0]] + s[1..];
  }

  /** The sort is a permutation. */
  lemma {:induction false} MergeSortKeepsAll(s: seq<Entry>, paths: bool)
    ensures multiset(MergeSort(s, paths)) == multiset(s)
    decreases |s|
  {
    hide Merge;
    if |s| > 1 {
      var l, r := s[..|s| / 2], s[|s| / 2..];
      MergeSortKeepsAll(l, paths);
      MergeSortKeepsAll(r, paths);
      MergeKeepsAll(MergeSort(l, paths), MergeSort(r, paths), paths);
      assert s == l + r;
    }
  }

  lemma MergeSortGood(s: seq<Entry>, paths: bool)
    requires NamesGood(s)
    ensures NamesGood(MergeSort(s, paths))
  {
    var t := MergeSort(s, paths);
    MergeSortKeepsAll(s, paths);
    forall i | 0 <= i < |t|
      ensures WellFormed(t[i].name)
    {
      assert t[i] in multiset(t);
      assert t[i] in s;
    }
  }

  // ----- sorted, stable, and determined by that

  ghost predicate Sorted(s: seq<Entry>, paths: bool) {
    forall i, j :: 0 <= i < j < |s| ==> Cmp(s[i], s[j], paths) <= 0
  }

  /** The entries of s that satisfy p, in order. */
  function Pick(s: seq<Entry>, p: Entry -> bool): seq<Entry> {
    if s == [] then [] else (if p(s[0]) then [s[0]] else []) + Pick(s[1..], p)
  }

  function Equal(x: Entry, paths: bool): Entry -> bool {
    e => Cmp(e, x, paths) == 0
  }

  /** The entries of s that compare equal to x, in order. */
  function Class(s: seq<Entry>, x: Entry, paths: bool): seq<Entry> {
    Pick(s, Equal(x, paths))
  }

  /** The same entries, each class of equals in the same order. */
  ghost predicate Stable(s: seq<Entry>, t: seq<Entry>, paths: bool) {
    forall x :: Class(s, x, paths) == Class(t, x, paths)
  }

  lemma {:induction false} PickAppend(a: seq<Entry>, b: seq<Entry>, p: Entry -> bool)
    ensures Pick(a + b, p) == Pick(a, p) + Pick(b, p)
  {
    if a == [] {
      assert a + b == b;
    } else {
      AppendHead(a, b);
      PickAppend(a[1..], b, p);
      AppendAssoc(if p(a[0]) then [a[0]] else [], Pick(a[1..], p), Pick(b, p));
    }
  }

  lemma {:induction false} PickNone(s: seq<Entry>, p: Entry -> bool)
    requires forall i :: 0 <= i < |s| ==> !p(s[i])
    ensures Pick(s, p) == []
  {
    if s != [] {
      PickNone(s[1..], p);
    }
  }

  lemma SortedTail(s: seq<Entry>, paths: bool)
    requires Sorted(s, paths) && s != []
    ensures Sorted(s[1..], paths)
  {
  }

  lemma SortedCons(x: Entry, s: seq<Entry>, paths: bool)
    requires Sorted(s, paths) && (s != [] ==> Cmp(x, s[0], paths) <= 0)
    ensures Sorted([x] + s, paths)
  {
    forall j | 0 <= j < |s|
      ensures Cmp(x, s[j], paths) <= 0
    {
      if j > 0 {
        OrderIsTotal(x.name, s[0].name, s[j].name, paths);
      }
    }
  }

  lemma {:induction false} MergeSorted(a: seq<Entry>, b: seq<Entry>, paths: bool)
    requires Sorted(a, paths) && Sorted(b, paths)
    ensures Sorted(Merge(a, b, paths), paths)
    decreases |a| + |b|
  {
    if a != [] && b != [] {
      if Cmp(a[0], b[0], paths) <= 0 {
        SortedTail(a, paths);
        MergeSorted(a[1..], b, paths);
        SortedCons(a[0], Merge(a[1..], b, paths), paths);
      } else {
        OrderIsTotal(a[0].name, b[0].name, b[0].name, paths);
        SortedTail(b, paths);
        MergeSorted(a, b[1..], paths);
        SortedCons(b[0], Merge(a, b[1..], paths), paths);
      }
    }
  }

  lemma ClassCons(e: Entry, s: seq<Entry>, x: Entry, paths: bool)
    ensures Class([e] + s, x, paths) == (if Equal(x, paths)(e) then [e] else []) + Class(s, x, paths)
  {
    assert ([e] + s)[1..] == s;
  }

  /** Merging keeps each class of equals in order, left side first. */
  lemma {:induction false} MergeClass(a: seq<Entry>, b: seq<Entry>, x: Entry, paths: bool)
    requires Sorted(a, paths)
    ensures Class(Merge(a, b, paths), x, paths) == Class(a, x, paths) + Class(b, x, paths)
    decreases |a| + |b|
  {
    hide Order, Pick;
    if a == [] {
      ClassNone([], x, paths);
    } else if b == [] {
      ClassNone([], x, paths);
    } else if Cmp(a[0], b[0], paths) <= 0 {
      SortedTail(a, paths);
      MergeClass(a[1..], b, x, paths);
      ClassCons(a[0], Merge(a[1..], b, paths), x, paths);
      ClassCons(a[0], a[1..], x, paths);
      assert a == [a[0]] + a[1..];
      AppendAssoc(if Equal(x, paths)(a[0]) then [a[0]] else [], Class(a[1..], x, paths), Class(b, x, paths));
    } else {
      MergeClass(a, b[1..], x, paths);
      ClassCons(b[0], Merge(a, b[1..], paths), x, paths);
      ClassCons(b[0], b[1..], x, paths);
      assert b == [b[0]] + b[1..];
      if Equal(x, paths)(b[0]) {
        NoneEqual(a, b[0], x, paths);
        ClassNone(a, x, paths);
      }
    }
  }

  lemma ClassNone(s: seq<Entry>, x: Entry, paths: bool)
    requires forall i :: 0 <= i < |s| ==> Cmp(s[i], x, paths) != 0
    ensures Class(s, x, paths) == []
  {
    PickNone(s, Equal(x, paths));
  }

  /** A class of equals that an entry below all of `a` belongs to has no member in `a`. */
  lemma NoneEqual(a: seq<Entry>, e: Entry, x: Entry, paths: bool)
    requires Sorted(a, paths) && a != [] && Cmp(a[0], e, paths) > 0 && Cmp(e, x, paths) == 0
    ensures forall i :: 0 <= i < |a| ==> Cmp(a[i], x, paths) != 0
  {
    hide Order;
    forall i | 0 <= i < |a|
      ensures Cmp(a[i], x, paths) != 0
    {
      OrderIsTotal(e.name, a[0].name, a[i].name, paths);
      OrderIsTotal(e.name, a[i].name, x.name, paths);
      OrderIsTotal(x.name, e.name, a[i].name, paths);
      OrderIsTotal(a[0].name, a[0].name, a[0].name, paths);
    }
  }

  /** The sort is a stable sort. */
  lemma {:induction false} MergeSortIsStable(s: seq<Entry>, paths: bool)
    ensures Sorted(MergeSort(s, paths), paths) && Stable(MergeSort(s, paths), s, paths)
    decreases |s|
  {
    if |s| > 1 {
      var l, r := s[..|s| / 2], s[|s| / 2..];
      MergeSortIsStable(l, paths);
      MergeSortIsStable(r, paths);
      MergeSorted(MergeSort(l, paths), MergeSort(r, paths), paths);
      forall x
        ensures Class(MergeSort(s, paths), x, paths) == Class(s, x, paths)
      {
        MergeClass(MergeSort(l, paths), MergeSort(r, paths), x, paths);
        assert s == l + r;
        PickAppend(l, r, Equal(x, paths));
      }
    }
  }

  /** The first of a non-empty list heads its own class. */
  lemma ClassHead(s: seq<Entry>, paths: bool)
    requires s != []
    ensures Class(s, s[0], paths) == [s[0]] + Class(s[1..], s[0], paths)
  {
    OrderIsTotal(s[0].name, s[0].name, s[0].name, paths);
  }

  lemma {:induction false} ClassMember(s: seq<Entry>, x: Entry, paths: bool) returns (i: nat)
    requires Class(s, x, paths) != []
    ensures i < |s| && Cmp(s[i], x, paths) == 0 && s[i] == Class(s, x, paths)[0]
  {
    if Cmp(s[0], x, paths) == 0 {
      i := 0;
    } else {
      i := ClassMember(s[1..], x, paths);
      i := i + 1;
    }
  }

  /** There is only one stable sort. */
  lemma {:induction false} StableSortUnique(s: seq<Entry>, t: seq<Entry>, paths: bool)
    requires Sorted(s, paths) && Sorted(t, paths) && Stable(s, t, paths)
    ensures s == t
    decreases |s|
  {
    hide Order;
    if s != [] {
      ClassHead(s, paths);
      assert Class(t, s[0], paths) == Class(s, s[0], paths);
      assert t != [];
    }
    if t != [] {
      ClassHead(t, paths);
      assert Class(s, t[0], paths) == Class(t, t[0], paths);
      assert s != [];
      HeadsEqual(s, t, paths);
      TailsStable(s, t, paths);
      SortedTail(s, paths);
      SortedTail(t, paths);
      StableSortUnique(s[1..], t[1..], paths);
      assert s == [s[0]] + s[1..] && t == [t[0]] + t[1..];
    }
  }

  lemma HeadsEqual(s: seq<Entry>, t: seq<Entry>, paths: bool)
    requires Sorted(s, paths) && Sorted(t, paths) && Stable(s, t, paths) && s != [] && t != []
    ensures s[0] == t[0]
  {
    ClassHead(s, paths);
    ClassHead(t, paths);
    assert Class(s, s[0], paths) == Class(t, s[0], paths);
    assert Class(s, t[0], paths) == Class(t, t[0], paths);
    var i := ClassMember(t, s[0], paths);
    var j := ClassMember(s, t[0], paths);
    // t[0] <= t[i] ~ s[0] and s[0] <= s[j] ~ t[0]
    OrderIsTotal(t[0].name, t[0].name, t[0].name, paths);
    OrderIsTotal(s[0].name, s[0].name, s[0].name, paths);
    OrderIsTotal(t[0].name, t[i].name, s[0].name, paths);
    OrderIsTotal(s[0].name, s[j].name, t[0].name, paths);
    OrderIsTotal(s[0].name, t[0].name, s[0].name, paths);
    assert Cmp(t[0], s[0], paths) == 0;
    assert Class(t, s[0], paths)[0] == t[0];
  }

  lemma TailsStable(s: seq<Entry>, t: seq<Entry>, paths: bool)
    requires Stable(s, t, paths) && s != [] && t != [] && s[0] == t[0]
    ensures Stable(s[1..], t[1..], paths)
  {
    forall x
      ensures Class(s[1..], x, paths) == Class(t[1..], x, paths)
    {
      var h := if Cmp(s[0], x, paths) == 0 then [s[0]] else [];
      assert Class(s, x, paths) == Class(t, x, paths);
      assert Class(s, x, paths) == h + Class(s[1..], x, paths);
      assert Class(t, x, paths) == h + Class(t[1..], x, paths);
      assert (h + Class(s[1..], x, paths))[|h|..] == Class(s[1..], x, paths);
      assert (h + Class(t[1..], x, paths))[|h|..] == Class(t[1..], x, paths);
    }
  }

  // ----- sorting a selection

  lemma {:induction false} PickMember(s: seq<Entry>, p: Entry -> bool, e: Entry)
    ensures e in Pick(s, p) <==> e in s && p(e)
  {
    if s != [] {
      PickMember(s[1..], p, e);
    }
  }

  lemma {:induction false} PickSorted(s: seq<Entry>, p: Entry -> bool, paths: bool)
    requires Sorted(s, paths)
    ensures Sorted(Pick(s, p), paths)
  {
    if s != [] {
      SortedTail(s, paths);
      PickSorted(s[1..], p, paths);
      var rest := Pick(s[1..], p);
      if p(s[0]) && rest != [] {
        PickMember(s[1..], p, rest[0]);
        SortedCons(s[0], rest, paths);
      }
    }
  }

  lemma {:induction false} PickSwap(s: seq<Entry>, p: Entry -> bool, q: Entry -> bool)
    ensures Pick(Pick(s, p), q) == Pick(Pick(s, q), p)
  {
    if s != [] {
      PickSwap(s[1..], p, q);
      PickAppend(if p(s[0]) then [s[0]] else [], Pick(s[1..], p), q);
      PickAppend(if q(s[0]) then [s[0]] else [], Pick(s[1..], q), p);
    }
  }

  /** Sorting any selection of the entries, say the directories, gives the same order as making the
      selection from the sorted list: incremental recursion depends on this. */
  lemma SortOfSelection(s: seq<Entry>, p: Entry -> bool, paths: bool)
    ensures MergeSort(Pick(s, p), paths) == Pick(MergeSort(s, paths), p)
  {
    var whole, part := MergeSort(s, paths), MergeSort(Pick(s, p), paths);
    MergeSortIsStable(s, paths);
    MergeSortIsStable(Pick(s, p), paths);
    PickSorted(whole, p, paths);
    forall x
      ensures Class(part, x, paths) == Class(Pick(whole, p), x, paths)
    {
      var q := Equal(x, paths);
      PickSwap(whole, p, q);
      PickSwap(s, p, q);
      assert Class(whole, x, paths) == Class(s, x, paths);
      assert Class(part, x, paths) == Class(Pick(s, p), x, paths);
    }
    StableSortUnique(part, Pick(whole, p), paths);
  }

  // ----- the sort in place

  /** What is left of `a` when its first i entries have come first in the merge. */
  lemma MergeTakeLeft(done: seq<Entry>, a: seq<Entry>, b: seq<Entry>, paths: bool)
    requires a != [] && (b == [] || Cmp(a[0], b[0], paths) <= 0)
    ensures done + Merge(a, b, paths) == done + [a[0]] + Merge(a[1..], b, paths)
  {
    if b == [] {
      assert a == [a[0]] + a[1..];
    }
    AppendAssoc(done, [a[0]], Merge(a[1..], b, paths));
  }

  lemma MergeTakeRight(done: seq<Entry>, a: seq<Entry>, b: seq<Entry>, paths: bool)
    requires b != [] && (a == [] || Cmp(a[0], b[0], paths) > 0)
    ensures done + Merge(a, b, paths) == done + [b[0]] + Merge(a, b[1..], paths)
  {
    if a == [] {
      assert b == [b[0]] + b[1..];
    }
    AppendAssoc(done, [b[0]], Merge(a, b[1..], paths));
  }

  /** A run of the array loses its first entry. */
  lemma RunTail(fp: array<Entry>, from: nat, to: nat)
    requires from < to <= fp.Length
    ensures fp[from..to][0] == fp[from] && fp[from..to][1..] == fp[from + 1..to]
  {
  }

  /** Stores x at position p; the run that starts at `from`, further up, stays. */
  method Put(fp: array<Entry>, lo: nat, p: nat, from: nat, hi: nat, x: Entry)
    requires lo <= p < from <= hi <= fp.Length
    modifies fp
    ensures forall i :: 0 <= i < fp.Length && i != p ==> fp[i] == old(fp[i])
    ensures fp[lo..p + 1] == old(fp[lo..p]) + [x]
    ensures fp[from..hi] == old(fp[from..hi])
  {
    fp[p] := x;
  }

  /** Merges two adjacent sorted runs of fp in place. Only the part of the left run that does not stay
      where it is goes through the scratch array. */
  method MergeHalves(fp: array<Entry>, lo: nat, mid: nat, hi: nat, tmp: array<Entry>, paths: bool)
    requires fp != tmp && lo < mid < hi <= fp.Length && mid - lo <= tmp.Length
    requires NamesGood(fp[lo..mid]) && NamesGood(fp[mid..hi])
    modifies fp, tmp
    ensures forall i :: 0 <= i < lo || hi <= i < fp.Length ==> fp[i] == old(fp[i])
    ensures fp[lo..hi] == Merge(old(fp[lo..mid]), old(fp[mid..hi]), paths)
  {
    hide Merge, Cmp, WellFormed;
    var f1 := SkipInPlace(fp, lo, mid, hi, paths);
    if f1 == mid {
      return;
    }
    forall i | 0 <= i < mid - f1
      ensures WellFormed(fp[f1..mid][i].name)
    {
      assert fp[f1..mid][i] == fp[lo..mid][f1 - lo + i];
    }
    CopyOut(fp, f1, mid, tmp);
    assert tmp[0] == tmp[..mid - f1][0] == fp[f1..mid][0] == fp[f1];
    MergeBack(fp, lo, f1, mid, hi, tmp, paths);
  }

  /** Passes the entries of the left run that are already in place; stops at one that is greater than the
      first entry of the right run, or at the end of the left run. */
  method SkipInPlace(fp: array<Entry>, lo: nat, mid: nat, hi: nat, paths: bool) returns (f1: nat)
    requires lo < mid < hi <= fp.Length
    requires NamesGood(fp[lo..mid]) && NamesGood(fp[mid..hi])
    ensures lo <= f1 <= mid
    ensures Merge(fp[lo..mid], fp[mid..hi], paths) == fp[lo..f1] + Merge(fp[f1..mid], fp[mid..hi], paths)
    ensures f1 < mid ==> Cmp(fp[f1], fp[mid], paths) > 0
    ensures f1 == mid ==> Merge(fp[lo..mid], fp[mid..hi], paths) == fp[lo..hi]
  {
    hide Merge, Cmp, WellFormed;
    f1 := lo;
    assert fp[lo..lo] == [];
    while f1 < mid
      invariant lo <= f1 <= mid
      invariant Merge(fp[lo..mid], fp[mid..hi], paths) == fp[lo..f1] + Merge(fp[f1..mid], fp[mid..hi], paths)
    {
      assert fp[f1] == fp[lo..mid][f1 - lo];
      RunTail(fp, mid, hi);
      var dif := CompareEntries(fp[f1], fp[mid], paths);
      if dif > 0 {
        return;
      }
      RunTail(fp, f1, mid);
      MergeTakeLeft(fp[lo..f1], fp[f1..mid], fp[mid..hi], paths);
      assert fp[lo..f1 + 1] == fp[lo..f1] + [fp[f1]];
      f1 := f1 + 1;
    }
    LeftRunDone(fp, lo, mid, hi, paths);
  }

  lemma LeftRunDone(fp: array<Entry>, lo: nat, mid: nat, hi: nat, paths: bool)
    requires lo <= mid <= hi <= fp.Length
    ensures fp[lo..mid] + Merge(fp[mid..mid], fp[mid..hi], paths) == fp[lo..hi]
  {
    assert fp[mid..mid] == [];
    assert fp[lo..hi] == fp[lo..mid] + fp[mid..hi];
  }

  lemma MergeNothing(b: seq<Entry>, paths: bool)
    ensures Merge([], b, paths) == b
  {
  }

  /** Copies a run to the front of the scratch array. */
  method CopyOut(fp: array<Entry>, from: nat, to: nat, tmp: array<Entry>)
    requires fp != tmp && from <= to <= fp.Length && to - from <= tmp.Length
    modifies tmp
    ensures tmp[..to - from] == fp[from..to]
  {
    var k := 0;
    while k < to - from
      invariant 0 <= k <= to - from
      invariant forall i :: 0 <= i < k ==> tmp[i] == fp[from + i]
    {
      tmp[k] := fp[from + k];
      k := k + 1;
    }
  }

  /** Merges the scratch copy of the left run with the right run, into the room in front of the latter. */
  method MergeBack(fp: array<Entry>, lo: nat, start: nat, mid: nat, hi: nat, tmp: array<Entry>, paths: bool)
    requires fp != tmp && lo <= start < mid < hi <= fp.Length && mid - start <= tmp.Length
    requires NamesGood(fp[mid..hi]) && NamesGood(tmp[..mid - start])
    requires Cmp(tmp[0], fp[mid], paths) > 0
    modifies fp
    ensures forall i :: 0 <= i < lo || hi <= i < fp.Length ==> fp[i] == old(fp[i])
    ensures fp[lo..hi] == old(fp[lo..start]) + Merge(tmp[..mid - start], old(fp[mid..hi]), paths)
  {
    hide Merge, Cmp, WellFormed;
    var n, t, f1, f2 := mid - start, 0, start, mid;
    ghost var goal := fp[lo..start] + Merge(tmp[..n], fp[mid..hi], paths);
    assert tmp[0..n] == tmp[..n];
    while t < n && f2 < hi
      invariant 0 <= t <= n && mid <= f2 <= hi && f1 + (n - t) == f2 && start <= f1
      invariant NamesGood(fp[f2..hi]) && NamesGood(tmp[t..n])
      invariant fp[lo..f1] + Merge(tmp[t..n], fp[f2..hi], paths) == goal
      invariant forall i :: 0 <= i < lo || hi <= i < fp.Length ==> fp[i] == old(fp[i])
      decreases hi - f1
    {
      f1, t, f2 := MergeStep(fp, lo, f1, f2, hi, tmp, t, n, paths);
    }
    FlushScratch(fp, lo, f1, f2, hi, tmp, t, n, paths);
  }

  /** One run is used up; what is left of the scratch copy goes into the room that is left. */
  method FlushScratch(fp: array<Entry>, lo: nat, from: nat, f2: nat, hi: nat, tmp: array<Entry>, done: nat,
                      n: nat, paths: bool)
    requires fp != tmp && lo <= from && done <= n <= tmp.Length
    requires from + (n - done) == f2 <= hi <= fp.Length && (done < n ==> f2 == hi)
    modifies fp
    ensures forall i :: 0 <= i < lo || hi <= i < fp.Length ==> fp[i] == old(fp[i])
    ensures fp[lo..hi] == old(fp[lo..from] + Merge(tmp[done..n], fp[f2..hi], paths))
  {
    hide Merge, Cmp;
    var t, f1 := done, from;
    ghost var goal := fp[lo..from] + Merge(tmp[done..n], fp[f2..hi], paths);
    while t < n
      invariant done <= t <= n && from <= f1 <= f2 && f1 + (n - t) == f2
      invariant fp[lo..f1] + Merge(tmp[t..n], fp[f2..hi], paths) == goal
      invariant forall i :: 0 <= i < lo || hi <= i < fp.Length ==> fp[i] == old(fp[i])
    {
      RunTail(tmp, t, n);
      if f2 == hi {
        assert fp[f2..hi] == [];
      }
      MergeTakeLeft(fp[lo..f1], tmp[t..n], fp[f2..hi], paths);
      Put(fp, lo, f1, f2, hi, tmp[t]);
      f1, t := f1 + 1, t + 1;
    }
    assert tmp[t..n] == [];
    MergeNothing(fp[f2..hi], paths);
    assert fp[lo..hi] == fp[lo..f1] + fp[f2..hi];
  }

  /** Takes one entry from whichever run has the smaller first one; equal entries come from the left. */
  method MergeStep(fp: array<Entry>, lo: nat, f1: nat, f2: nat, hi: nat, tmp: array<Entry>, t: nat, n: nat,
                   paths: bool)
    returns (f1': nat, t': nat, f2': nat)
    requires fp != tmp && lo <= f1 < f2 < hi <= fp.Length && t < n <= tmp.Length
    requires NamesGood(fp[f2..hi]) && NamesGood(tmp[t..n])
    modifies fp
    ensures f1' == f1 + 1 && (t', f2') in {(t + 1, f2), (t, f2 + 1)}
    ensures NamesGood(fp[f2'..hi]) && NamesGood(tmp[t'..n])
    ensures fp[lo..f1'] + Merge(tmp[t'..n], fp[f2'..hi], paths)
         == old(fp[lo..f1] + Merge(tmp[t..n], fp[f2..hi], paths))
    ensures forall i :: 0 <= i < lo || hi <= i < fp.Length ==> fp[i] == old(fp[i])
  {
    hide Merge, Cmp, WellFormed;
    ghost var done, a, b := fp[lo..f1], tmp[t..n], fp[f2..hi];
    RunTail(tmp, t, n);
    RunTail(fp, f2, hi);
    GoodTail(a);
    GoodTail(b);
    assert WellFormed(a[0].name) && WellFormed(b[0].name);
    var dif := CompareEntries(tmp[t], fp[f2], paths);
    if dif <= 0 {
      MergeTakeLeft(done, a, b, paths);
      Put(fp, lo, f1, f2, hi, tmp[t]);
      f1', t', f2' := f1 + 1, t + 1, f2;
    } else {
      MergeTakeRight(done, a, b, paths);
      Put(fp, lo, f1, f2 + 1, hi, fp[f2]);
      f1', t', f2' := f1 + 1, t, f2 + 1;
    }
  }

  lemma GoodTail(s: seq<Entry>)
    requires NamesGood(s) && s != []
    ensures NamesGood(s[1..])
  {
  }

  /** Sorts fp[lo..lo + num] in place, with a scratch array of half that size. */
  method FsortTmp(fp: array<Entry>, lo: nat, num: nat, tmp: array<Entry>, paths: bool)
    requires fp != tmp && 2 <= num && lo + num <= fp.Length && num / 2 <= tmp.Length
    requires NamesGood(fp[lo..lo + num])
    modifies fp, tmp
    ensures forall i :: 0 <= i < lo || lo + num <= i < fp.Length ==> fp[i] == old(fp[i])
    ensures fp[lo..lo + num] == MergeSort(old(fp[lo..lo + num]), paths)
    decreases num, 0
  {
    hide Merge, MergeSort, WellFormed;
    var n1 := num / 2;
    var n2 := num - n1;
    var mid, hi := lo + n1, lo + num;
    ghost var s, l, r := fp[lo..hi], fp[lo..mid], fp[mid..hi];
    MergeSortHalves(s, l, r, paths);
    SortRun(fp, lo, n1, tmp, paths);
    assert fp[mid..hi] == r;
    label Left:
    SortRun(fp, mid, n2, tmp, paths);
    assert fp[lo..mid] == old@Left(fp[lo..mid]);
    MergeHalves(fp, lo, mid, hi, tmp, paths);
  }

  /** Sorts one half, unless it is a single entry. */
  method SortRun(fp: array<Entry>, lo: nat, num: nat, tmp: array<Entry>, paths: bool)
    requires fp != tmp && 1 <= num && lo + num <= fp.Length && num / 2 <= tmp.Length
    requires NamesGood(fp[lo..lo + num])
    modifies fp, tmp
    ensures forall i :: 0 <= i < lo || lo + num <= i < fp.Length ==> fp[i] == old(fp[i])
    ensures fp[lo..lo + num] == MergeSort(old(fp[lo..lo + num]), paths)
    decreases num, 1
  {
    if num > 1 {
      FsortTmp(fp, lo, num, tmp, paths);
    }
  }

  lemma MergeSortHalves(s: seq<Entry>, l: seq<Entry>, r: seq<Entry>, paths: bool)
    requires 2 <= |s| && NamesGood(s) && s == l + r && |l| == |s| / 2
    ensures MergeSort(s, paths) == Merge(MergeSort(l, paths), MergeSort(r, paths), paths)
    ensures NamesGood(l) && NamesGood(r)
    ensures NamesGood(MergeSort(l, paths)) && NamesGood(MergeSort(r, paths))
  {
    assert l == s[..|s| / 2] && r == s[|s| / 2..];
    MergeSortGood(l, paths);
    MergeSortGood(r, paths);
  }

  /** Sorts a whole list: the result is the stable sort of its entries. */
  method Fsort(fp: array<Entry>, paths: bool)
    requires NamesGood(fp[..])
    modifies fp
    ensures fp[..] == MergeSort(old(fp[..]), paths)
  {
    hide Cmp, WellFormed, Merge;
    if fp.Length <= 1 {
      return;
    }
    var tmp := new Entry[(fp.Length + 1) / 2](_ => EMPTY_ENTRY);
    assert fp[0..fp.Length] == fp[..];
    FsortTmp(fp, 0, fp.Length, tmp, paths);
    assert fp[0..fp.Length] == fp[..];
  }

  const EMPTY_ENTRY := Entry(FileName(None, [], false), 0, 0, Flags(false, false, false, false))
}
