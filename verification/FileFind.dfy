/** flist.c: binary search in a sorted list with holes, over distances that may be out of date. */
module FileFind {
  import opened Basics
  import opened NameOrder
  import opened NameComponents
  import opened FileSort
  import opened Lexicographic

  predicate Active(e: Entry) {
    IsActive(e.name)
  }

  /** The entry at i is removed, and so are all entries its two distances pass over. */
  ghost predicate SkipsHoles(s: seq<Entry>, i: nat, low: nat, high: nat)
    requires low <= i <= high < |s|
  {
    && 1 <= s[i].depth <= high - i && 1 <= s[i].len32 <= i - low
    && (forall k :: i < k < i + s[i].depth ==> !Active(s[k]))
    && (forall k :: i - s[i].len32 < k < i ==> !Active(s[k]))
  }

  /** The list between two active end points: sorted, with holes whose distances may be too short but
      never pass over an active entry. */
  ghost predicate Searchable(s: seq<Entry>, low: nat, high: nat, paths: bool) {
    && low <= high < |s|
    && Active(s[low]) && Active(s[high])
    && (forall i :: low <= i <= high ==> WellFormed(s[i].name))
    && (forall i, j :: low <= i < j <= high && Active(s[i]) && Active(s[j]) ==> Cmp(s[i], s[j], paths) <= 0)
    && (forall i :: low <= i <= high && !Active(s[i]) ==> SkipsHoles(s, i, low, high))
  }

  /** Two lists that differ only in the distances of holes between low and high. */
  ghost predicate SameBut(s: seq<Entry>, t: seq<Entry>, low: nat, high: nat) {
    && |s| == |t|
    && forall i :: 0 <= i < |s| ==>
         t[i] == s[i]
         || (low <= i <= high && !Active(s[i]) && t[i].name == s[i].name && t[i].flags == s[i].flags)
  }

  lemma SameButTrans(s: seq<Entry>, t: seq<Entry>, u: seq<Entry>, low: nat, high: nat)
    requires SameBut(s, t, low, high) && SameBut(t, u, low, high)
    ensures SameBut(s, u, low, high)
  {
  }

  /** Making a hole's distance longer, up to the next active entry, keeps the list searchable. */
  lemma BetterSkip(s: seq<Entry>, i: nat, e: Entry, low: nat, high: nat, paths: bool)
    requires Searchable(s, low, high, paths) && low <= i <= high && !Active(s[i])
    requires e.name == s[i].name && e.flags == s[i].flags
    requires 1 <= e.depth <= high - i && 1 <= e.len32 <= i - low
    requires forall k :: i < k < i + e.depth ==> !Active(s[k])
    requires forall k :: i - e.len32 < k < i ==> !Active(s[k])
    ensures Searchable(s[i := e], low, high, paths) && SameBut(s, s[i := e], low, high)
  {
    var t := s[i := e];
    forall j | low <= j <= high && !Active(t[j])
      ensures SkipsHoles(t, j, low, high)
    {
      assert SkipsHoles(s, j, low, high);
    }
    forall j, k | low <= j < k <= high && Active(t[j]) && Active(t[k])
      ensures Cmp(t[j], t[k], paths) <= 0
    {
      assert Cmp(s[j], s[k], paths) <= 0;
    }
  }

  /** The next active entry above a hole, by way of the cached distances; refreshes the hole's own. */
  method NextActive(sorted: array<Entry>, mid: nat, low: nat, high: nat, paths: bool) returns (up: nat)
    requires Searchable(sorted[..], low, high, paths) && low <= mid <= high && !Active(sorted[mid])
    modifies sorted
    ensures Searchable(sorted[..], low, high, paths) && SameBut(old(sorted[..]), sorted[..], low, high)
    ensures mid < up <= high && Active(sorted[up])
    ensures forall k :: mid <= k < up ==> !Active(sorted[k])
  {
    ghost var s := sorted[..];
    assert SkipsHoles(s, mid, low, high);
    up := mid + sorted[mid].depth;
    if Active(sorted[up]) {
      return;
    }
    while !Active(sorted[up])
      invariant mid < up <= high
      invariant forall k :: mid <= k < up ==> !Active(sorted[k])
      decreases high - up
    {
      assert SkipsHoles(s, up, low, high);
      assert s[high].name == sorted[high].name;
      up := up + sorted[up].depth;
    }
    BetterSkip(s, mid, sorted[mid].(depth := up - mid), low, high, paths);
    sorted[mid] := sorted[mid].(depth := up - mid);
    assert sorted[..] == s[mid := sorted[mid]];
  }

  /** The next active entry below a hole, likewise. */
  method PreviousActive(sorted: array<Entry>, mid: nat, low: nat, high: nat, paths: bool) returns (down: nat)
    requires Searchable(sorted[..], low, high, paths) && low <= mid <= high && !Active(sorted[mid])
    modifies sorted
    ensures Searchable(sorted[..], low, high, paths) && SameBut(old(sorted[..]), sorted[..], low, high)
    ensures low <= down < mid && Active(sorted[down])
    ensures forall k :: down < k <= mid ==> !Active(sorted[k])
  {
    ghost var s := sorted[..];
    assert SkipsHoles(s, mid, low, high);
    down := mid - sorted[mid].len32;
    if Active(sorted[down]) {
      return;
    }
    while !Active(sorted[down])
      invariant low <= down < mid
      invariant forall k :: down < k <= mid ==> !Active(sorted[k])
      decreases down
    {
      assert SkipsHoles(s, down, low, high);
      down := down - sorted[down].len32;
    }
    BetterSkip(s, mid, sorted[mid].(len32 := mid - down), low, high, paths);
    sorted[mid] := sorted[mid].(len32 := mid - down);
    assert sorted[..] == s[mid := sorted[mid]];
  }

  /** No active entry outside [lo, hi] compares equal to f. */
  ghost predicate OnlyWithin(s: seq<Entry>, f: FileName, lo: int, hi: int, low: nat, high: nat, paths: bool)
    requires high < |s|
  {
    forall k :: low <= k <= high && Active(s[k]) && Order(s[k].name, f, paths) == 0 ==> lo <= k <= hi
  }

  /** Everything above an entry that is greater than f is greater too; likewise below. */
  lemma CutRange(s: seq<Entry>, f: FileName, m: nat, low: nat, high: nat, paths: bool)
    requires Searchable(s, low, high, paths) && low <= m <= high && Active(s[m])
    ensures Order(s[m].name, f, paths) < 0 ==>
      forall k :: low <= k <= m && Active(s[k]) ==> Order(s[k].name, f, paths) != 0
    ensures Order(s[m].name, f, paths) > 0 ==>
      forall k :: m <= k <= high && Active(s[k]) ==> Order(s[k].name, f, paths) != 0
  {
    hide Order;
    forall k | low <= k <= high && Active(s[k]) && (k <= m || m <= k)
      ensures k <= m && Order(s[m].name, f, paths) < 0 ==> Order(s[k].name, f, paths) != 0
      ensures m <= k && Order(s[m].name, f, paths) > 0 ==> Order(s[k].name, f, paths) != 0
    {
      if k < m {
        assert Cmp(s[k], s[m], paths) <= 0;
      } else if m < k {
        assert Cmp(s[m], s[k], paths) <= 0;
      }
      OrderIsTotal(s[k].name, s[m].name, f, paths);
      OrderIsTotal(s[m].name, s[k].name, f, paths);
      OrderIsTotal(f, s[m].name, s[k].name, paths);
      OrderIsTotal(s[k].name, f, f, paths);
    }
  }

  /** What the search reads off the list. */
  lemma ListFacts(s: seq<Entry>, low: nat, high: nat, paths: bool)
    requires Searchable(s, low, high, paths)
    ensures low <= high < |s|
    ensures forall i :: low <= i <= high ==> WellFormed(s[i].name)
  {
  }

  /** Changes of distances do not matter to what is still possible. */
  lemma WithinSame(s: seq<Entry>, t: seq<Entry>, f: FileName, lo: int, hi: int, low: nat, high: nat, paths: bool)
    requires high < |s| && OnlyWithin(s, f, lo, hi, low, high, paths) && SameBut(s, t, low, high)
    ensures high < |t| && OnlyWithin(t, f, lo, hi, low, high, paths)
  {
    hide Order;
  }

  /** There is nothing active from `from` up to the end of the range. */
  lemma DropTop(s: seq<Entry>, f: FileName, lo: int, hi: int, down: int, low: nat, high: nat, paths: bool)
    requires high < |s| && OnlyWithin(s, f, lo, hi, low, high, paths)
    requires forall k :: low <= k <= high && down < k <= hi ==> !Active(s[k])
    ensures OnlyWithin(s, f, lo, down, low, high, paths)
  {
    hide Order;
  }

  /** The entry at midUp, the first active one from mid on, does not compare equal: half of the range is
      out. */
  lemma Narrow(s: seq<Entry>, f: FileName, lo: int, hi: int, mid: nat, midUp: nat, low: nat, high: nat,
               paths: bool)
    requires Searchable(s, low, high, paths) && OnlyWithin(s, f, lo, hi, low, high, paths)
    requires low <= mid <= midUp <= high && Active(s[midUp])
    requires forall k :: mid <= k < midUp ==> !Active(s[k])
    ensures Order(s[midUp].name, f, paths) < 0 ==> OnlyWithin(s, f, midUp + 1, hi, low, high, paths)
    ensures Order(s[midUp].name, f, paths) > 0 ==> OnlyWithin(s, f, lo, mid - 1, low, high, paths)
  {
    hide Order;
    CutRange(s, f, midUp, low, high, paths);
  }

  /** No two active entries compare equal. */
  ghost predicate Distinct(s: seq<Entry>, low: nat, high: nat, paths: bool)
    requires high < |s|
  {
    forall i, j :: low <= i < j <= high && Active(s[i]) && Active(s[j]) ==> Cmp(s[i], s[j], paths) != 0
  }

  /** Then at most one of them compares equal to f. */
  lemma OneEqual(s: seq<Entry>, f: FileName, m: nat, low: nat, high: nat, paths: bool)
    requires low <= m <= high < |s| && Active(s[m]) && Order(s[m].name, f, paths) == 0
    requires Distinct(s, low, high, paths)
    ensures forall k :: low <= k <= high && Active(s[k]) && Order(s[k].name, f, paths) == 0 ==> k == m
  {
    hide Order;
    forall k | low <= k <= high && Active(s[k]) && Order(s[k].name, f, paths) == 0
      ensures k == m
    {
      OrderIsTotal(s[m].name, f, s[k].name, paths);
      OrderIsTotal(f, s[k].name, s[m].name, paths);
      OrderIsTotal(s[k].name, f, s[m].name, paths);
      OrderIsTotal(s[m].name, s[k].name, f, paths);
      assert k < m ==> Cmp(s[k], s[m], paths) != 0;
      assert m < k ==> Cmp(s[m], s[k], paths) != 0;
    }
  }

  /** From protocol 29 on, entries that compare equal agree in whether they are directories. */
  lemma EqualsAgree(e: FileName, f: FileName)
    requires WellFormed(e) && WellFormed(f) && IsActive(e) && Order(e, f, true) == 0
    ensures e.isDir == f.isDir
  {
    LexEqual(SortKey(e, true), SortKey(f, true));
    forall g | g == e || g == f
      ensures 0 in SortKey(g, true) <==> !g.isDir
    {
      if !g.isDir {
        var at := if g.dirname.Some? then |g.dirname.value| + 1 else 0;
        assert SortKey(g, true)[at] == 0;
      }
    }
  }

  /** Searches for an entry that compares equal to f and agrees with it in whether it is a directory; gives up
      at the first one that compares equal. Only distances of holes are written, and they stay good. */
  method FlistFind(sorted: array<Entry>, low: nat, high: nat, f: FileName, paths: bool) returns (r: int)
    requires Searchable(sorted[..], low, high, paths) && WellFormed(f)
    modifies sorted
    ensures Searchable(sorted[..], low, high, paths) && SameBut(old(sorted[..]), sorted[..], low, high)
    ensures r == -1 || low <= r <= high < sorted.Length
    ensures r >= 0 ==>
      Active(sorted[r]) && Order(sorted[r].name, f, paths) == 0 && sorted[r].name.isDir == f.isDir
    ensures r == -1 && paths ==>
      forall k :: low <= k <= high < sorted.Length && Active(sorted[k]) ==>
        Order(sorted[k].name, f, paths) != 0
    ensures r == -1 && high < sorted.Length && Distinct(sorted[..], low, high, paths) ==>
      forall k :: low <= k <= high && Active(sorted[k]) && Order(sorted[k].name, f, paths) == 0 ==>
        sorted[k].name.isDir != f.isDir
  {
    hide Order, Searchable, SameBut;
    var lo: int, hi: int := low, high;
    ListFacts(sorted[..], low, high, paths);
    SameButRefl(sorted[..], low, high);
    while lo <= hi
      invariant low <= lo <= high + 1 && low - 1 <= hi <= high < sorted.Length
      invariant Searchable(sorted[..], low, high, paths) && SameBut(old(sorted[..]), sorted[..], low, high)
      invariant OnlyWithin(sorted[..], f, lo, hi, low, high, paths)
      decreases hi - lo
    {
      var mid := (lo + hi) / 2;
      var midUp := mid;
      if !Active(sorted[mid]) {
        var down;
        midUp, down := Resolve(sorted, mid, hi, low, high, f, paths, lo, old(sorted[..]));
        if midUp > hi {
          DropTop(sorted[..], f, lo, hi, down, low, high, paths);
          hi := down;
          continue;
        }
      }
      ListFacts(sorted[..], low, high, paths);
      assert sorted[..][midUp] == sorted[midUp];
      var sharedDir: bool :| sharedDir ==> sorted[midUp].name.dirname == f.dirname;
      var diff := FNameCmp(sorted[midUp].name, f, sharedDir, paths);
      if diff == 0 {
        if !paths && sorted[midUp].name.isDir != f.isDir {
          if Distinct(sorted[..], low, high, paths) {
            OneEqual(sorted[..], f, midUp, low, high, paths);
          }
          return -1;
        }
        if paths {
          EqualsAgree(sorted[midUp].name, f);
        }
        return midUp;
      }
      Narrow(sorted[..], f, lo, hi, mid, midUp, low, high, paths);
      if diff < 0 {
        lo := midUp + 1;
      } else {
        hi := mid - 1;
      }
    }
    return -1;
  }

  lemma SameButRefl(s: seq<Entry>, low: nat, high: nat)
    ensures SameBut(s, s, low, high)
  {
  }

  /** A hole in the middle of the range: finds the next active entry above, and if that is beyond the
      range also the next one below. */
  method Resolve(sorted: array<Entry>, mid: nat, hi: nat, low: nat, high: nat, ghost f: FileName, paths: bool,
                 ghost lo: int, ghost first: seq<Entry>)
    returns (midUp: nat, down: int)
    requires Searchable(sorted[..], low, high, paths) && low <= mid <= hi <= high && !Active(sorted[mid])
    requires SameBut(first, sorted[..], low, high) && OnlyWithin(sorted[..], f, lo, hi, low, high, paths)
    modifies sorted
    ensures Searchable(sorted[..], low, high, paths) && SameBut(first, sorted[..], low, high)
    ensures OnlyWithin(sorted[..], f, lo, hi, low, high, paths)
    ensures mid < midUp <= high && Active(sorted[midUp])
    ensures forall k :: mid <= k < midUp ==> !Active(sorted[k])
    ensures midUp > hi ==> low <= down < mid && forall k :: down < k <= hi ==> !Active(sorted[k])
  {
    hide Order, Searchable, SkipsHoles;
    ListFacts(sorted[..], low, high, paths);
    ghost var s := sorted[..];
    midUp := NextActive(sorted, mid, low, high, paths);
    ghost var t := sorted[..];
    SameButTrans(first, s, t, low, high);
    WithinSame(s, t, f, lo, hi, low, high, paths);
    down := -1;
    if midUp > hi {
      down := PreviousActive(sorted, mid, low, high, paths);
      SameButTrans(first, t, sorted[..], low, high);
      WithinSame(t, sorted[..], f, lo, hi, low, high, paths);
    }
  }
}
