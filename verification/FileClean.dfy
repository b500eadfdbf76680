/** flist.c: the receiver's removal of duplicate names from a sorted list, from protocol 29 on. */
module FileClean {
  import opened Basics
  import opened NameOrder
  import opened NameComponents
  import opened FileSort
  import opened FileFind
  import Lexicographic

  /** A removed entry: no name, and the shortest distances to its neighbours. */
  const CLEARED: Entry := Entry(FileName(None, [], false), 1, 1, Flags(false, false, false, false))

  /** The same path as a directory, and as something else. */
  function AsDir(f: FileName): FileName { f.(isDir := true) }

  function AsItem(f: FileName): FileName { f.(isDir := false) }

  /** A list entry as it is received: a good name, and "." only ever as a directory. */
  ghost predicate GoodEntry(e: Entry) {
    WellFormed(e.name) && (Active(e) ==> GoodName(e.name) && (e.name.basename == [DOT] ==> e.name.isDir))
  }

  // ----- what is kept

  /** The vital flags of two entries for one directory: top and content marks add up, and the directory is
      an implied one only if both entries say so. */
  function MergeFlags(kept: Flags, other: Flags): Flags {
    kept.(topDir := kept.topDir || other.topDir,
          contentDir := kept.contentDir || other.contentDir,
          impliedDir := kept.impliedDir && other.impliedDir)
  }

  /** The entry that stands for two of the same name. */
  function KeptWith(kept: Entry, e: Entry): Entry {
    if kept.name.isDir then kept.(flags := MergeFlags(kept.flags, e.flags)) else kept
  }

  /** The entry that stands for a name after a list: the first one with that name, which for a directory
      has the vital flags of all of them. */
  function Kept(s: seq<Entry>, name: FileName): Option<Entry> {
    if s == [] then None
    else
      var before, e := Kept(s[..|s| - 1], name), s[|s| - 1];
      if e.name != name then before
      else if before.None? then Some(e)
      else Some(KeptWith(before.value, e))
  }

  /** Whether the name is in the list. */
  ghost predicate Listed(s: seq<Entry>, n: FileName) {
    exists i :: 0 <= i < |s| && Active(s[i]) && s[i].name == n
  }

  /** Which names are left: everything but what is also there as a directory. */
  ghost predicate Survives(s: seq<Entry>, n: FileName) {
    Listed(s, n) && (n.isDir || !Listed(s, AsDir(n)))
  }

  /** Active entries stand in strictly rising order, so no name occurs twice. */
  ghost predicate StrictlySorted(s: seq<Entry>) {
    forall i, j :: 0 <= i < j < |s| && Active(s[i]) && Active(s[j]) ==> Cmp(s[i], s[j], true) < 0
  }

  /** What cleaning makes of a list: every name that survives stands exactly once, in order, between the
      first and the last active entry, with what is kept of all its duplicates; and the list can be
      searched. */
  ghost predicate CleanOf(t: seq<Entry>, s: seq<Entry>, low: nat, high: int) {
    && |t| == |s|
    && StrictlySorted(t)
    && (forall n :: Listed(t, n) <==> Survives(s, n))
    && (forall i :: 0 <= i < |t| && Active(t[i]) ==> low <= i <= high && Kept(s, t[i].name) == Some(t[i]))
    && ((exists i :: 0 <= i < |s| && Active(s[i])) ==> 0 <= high && Searchable(t, low, high, true))
  }

  // ----- facts about names

  lemma CmpZero(f: FileName, g: FileName)
    requires GoodName(f) && GoodName(g)
    ensures Order(f, g, true) == 0 <==> f == g
  {
    OrderIsTotal(f, f, f, true);
    if Order(f, g, true) == 0 {
      Lexicographic.LexEqual(SortKey(f, true), SortKey(g, true));
      KeyIsName(f, g);
    }
  }

  /** Something that is not a directory sorts before a directory of the same path. */
  lemma ItemBeforeDir(f: FileName)
    requires GoodName(f) && f.basename != [DOT]
    ensures Order(AsItem(f), AsDir(f), true) < 0
  {
    var head: seq<int> := Head(f);
    var base: seq<int> := f.basename;
    KeySplit(AsItem(f));
    KeySplit(AsDir(f));
    assert SortKey(AsItem(f), true) == head + ([0] + base);
    assert SortKey(AsDir(f), true) == head + (base + [SLASH]);
    Lexicographic.LexCommon(head, [0] + base, base + [SLASH]);
    assert base[0] > 0;
  }

  /** A name that is above f is neither f nor f as a directory. */
  lemma NotAbove(f: FileName, g: FileName)
    requires GoodName(f) && (f.basename == [DOT] ==> f.isDir) && Order(g, f, true) < 0
    ensures g != f && g != AsDir(f)
  {
    hide Order;
    OrderIsTotal(f, f, f, true);
    if !f.isDir {
      ItemBeforeDir(f);
      assert AsItem(f) == f;
      OrderIsTotal(f, AsDir(f), f, true);
    }
  }

  // ----- what is kept of a longer prefix

  lemma KeptNext(s: seq<Entry>, i: nat, name: FileName)
    requires i < |s|
    ensures s[i].name != name ==> Kept(s[..i + 1], name) == Kept(s[..i], name)
    ensures s[i].name == name && Kept(s[..i], name).None? ==> Kept(s[..i + 1], name) == Some(s[i])
    ensures s[i].name == name && Kept(s[..i], name).Some? ==>
      Kept(s[..i + 1], name) == Some(KeptWith(Kept(s[..i], name).value, s[i]))
  {
    assert s[..i + 1][..i] == s[..i];
  }

  lemma {:induction false} KeptNone(s: seq<Entry>, name: FileName)
    requires forall k :: 0 <= k < |s| ==> s[k].name != name
    ensures Kept(s, name).None?
  {
    if s != [] {
      KeptNone(s[..|s| - 1], name);
    }
  }

  // ----- what the cleaning loop keeps

  /** A list as it comes in: good entries, and removed ones that have just been removed. */
  ghost predicate Incoming(s: seq<Entry>) {
    forall i :: 0 <= i < |s| ==> GoodEntry(s[i]) && (!Active(s[i]) ==> s[i] == CLEARED)
  }

  /** The list that is cleaned. */
  ghost predicate Input(s0: seq<Entry>) {
    Sorted(s0, true) && Incoming(s0)
  }

  /** Where things are: the active entries before i stand between `low` and `prev`; what follows `prev` is
      removed, and the rest has not been looked at. */
  ghost predicate Shape(s0: seq<Entry>, s: seq<Entry>, i: nat, low: nat, prev: nat) {
    && |s| == |s0| && low <= prev < i <= |s|
    && Searchable(s, low, prev, true)
    && (forall k :: 0 <= k < low ==> !Active(s[k]))
    && (forall k :: prev < k < i ==> s[k] == CLEARED)
    && (forall k :: i <= k < |s| ==> s[k] == s0[k])
  }

  /** A name, or the directory of that path, stands between `low` and `prev`. */
  ghost predicate Stands(s: seq<Entry>, low: nat, prev: nat, n: FileName)
    requires prev < |s|
  {
    exists j :: low <= j <= prev && Active(s[j]) && (s[j].name == n || s[j].name == AsDir(n))
  }

  /** Each entry is what is kept of its name so far. */
  ghost predicate KeptSoFar(s0: seq<Entry>, s: seq<Entry>, i: nat, low: nat, prev: nat)
    requires |s| == |s0| && low <= prev < |s| && i <= |s|
  {
    forall k :: low <= k <= prev && Active(s[k]) ==>
      s[k].name == s0[k].name && Kept(s0[..i], s[k].name) == Some(s[k])
  }

  ghost predicate StrictWithin(s: seq<Entry>, low: nat, prev: nat)
    requires prev < |s|
  {
    forall j, k :: low <= j < k <= prev && Active(s[j]) && Active(s[k]) ==> Cmp(s[j], s[k], true) < 0
  }

  /** All names so far are represented. */
  ghost predicate AllStand(s0: seq<Entry>, s: seq<Entry>, i: nat, low: nat, prev: nat)
    requires |s| == |s0| && low <= prev < |s| && i <= |s|
  {
    forall k :: 0 <= k < i && Active(s0[k]) ==> Stands(s, low, prev, s0[k].name)
  }

  /** No plain item has a directory of its path among the names so far. */
  ghost predicate NoTwins(s0: seq<Entry>, s: seq<Entry>, i: nat, low: nat, prev: nat)
    requires |s| == |s0| && low <= prev < |s| && i <= |s|
  {
    forall k, m :: low <= k <= prev && Active(s[k]) && !s[k].name.isDir && 0 <= m < i && Active(s0[m]) ==>
      s0[m].name != AsDir(s[k].name)
  }

  ghost predicate Content(s0: seq<Entry>, s: seq<Entry>, i: nat, low: nat, prev: nat)
    requires |s| == |s0| && low <= prev < |s| && i <= |s|
  {
    && KeptSoFar(s0, s, i, low, prev) && StrictWithin(s, low, prev)
    && AllStand(s0, s, i, low, prev) && NoTwins(s0, s, i, low, prev)
  }

  ghost predicate Cleaning(s0: seq<Entry>, s: seq<Entry>, i: nat, low: nat, prev: nat) {
    Shape(s0, s, i, low, prev) && Content(s0, s, i, low, prev)
  }

  /** Every entry kept so far is strictly below the next one, unless the last one has its name. */
  lemma AllBelow(s0: seq<Entry>, s: seq<Entry>, i: nat, low: nat, prev: nat)
    requires Input(s0) && Cleaning(s0, s, i, low, prev) && i < |s0| && Active(s0[i])
    requires s[prev].name != s0[i].name
    ensures forall k :: low <= k <= prev && Active(s[k]) ==> Cmp(s[k], s0[i], true) < 0
  {
    hide Order, Kept, SkipsHoles, Stands;
    assert GoodEntry(s0[prev]) && GoodEntry(s0[i]);
    assert Cmp(s0[prev], s0[i], true) <= 0;
    CmpZero(s0[prev].name, s0[i].name);
    forall k | low <= k <= prev && Active(s[k])
      ensures Cmp(s[k], s0[i], true) < 0
    {
      OrderIsTotal(s[k].name, s[prev].name, s0[i].name, true);
    }
  }

  /** A name above all that is kept is new, and so is a directory of its path. */
  lemma NotSeen(s0: seq<Entry>, s: seq<Entry>, i: nat, low: nat, prev: nat, f: FileName)
    requires |s| == |s0| && low <= prev < i <= |s| && Content(s0, s, i, low, prev)
    requires GoodName(f) && (f.basename == [DOT] ==> f.isDir)
    requires forall k :: low <= k <= prev && Active(s[k]) ==> Order(s[k].name, f, true) < 0
    ensures forall k :: 0 <= k < i && Active(s0[k]) ==> s0[k].name != f && s0[k].name != AsDir(f)
  {
    hide Order, Kept;
    forall k | low <= k <= prev && Active(s[k])
      ensures s[k].name != f && s[k].name != AsDir(f)
    {
      NotAbove(f, s[k].name);
    }
    assert !Stands(s, low, prev, f) && !Stands(s, low, prev, AsDir(f));
  }

  /** What is kept of other names does not change. */
  lemma KeptOthers(s0: seq<Entry>, s: seq<Entry>, t: seq<Entry>, i: nat, low: nat, prev: nat, k: nat)
    requires |s| == |s0| == |t| && low <= prev < i < |s| && KeptSoFar(s0, s, i, low, prev)
    requires low <= k <= prev && Active(t[k]) && t[k] == s[k] && s[k].name != s0[i].name
    ensures t[k].name == s0[k].name && Kept(s0[..i + 1], t[k].name) == Some(t[k])
  {
    hide Kept;
    KeptNext(s0, i, s[k].name);
  }

  /** A removed entry is passed. */
  lemma StepRemoved(s0: seq<Entry>, s: seq<Entry>, i: nat, low: nat, prev: nat)
    requires Cleaning(s0, s, i, low, prev) && i < |s0| && s0[i] == CLEARED
    ensures Cleaning(s0, s, i + 1, low, prev)
  {
    hide Order, Searchable;
    forall k | low <= k <= prev && Active(s[k])
      ensures Kept(s0[..i + 1], s[k].name) == Some(s[k])
    {
      KeptNext(s0, i, s[k].name);
    }
  }

  lemma ShapeFacts(s0: seq<Entry>, s: seq<Entry>, i: nat, low: nat, prev: nat)
    requires Shape(s0, s, i, low, prev) && Input(s0)
    ensures Active(s[low]) && Active(s[prev])
    ensures forall k :: low <= k <= prev ==> WellFormed(s[k].name)
    ensures forall k :: i <= k < |s| ==> GoodEntry(s[k])
  {
  }

  /** The next entry is new and above all others: what the step needs to know of it. */
  lemma Above(s0: seq<Entry>, s: seq<Entry>, i: nat, low: nat, prev: nat)
    requires Input(s0) && Cleaning(s0, s, i, low, prev) && i < |s0| && Active(s0[i])
    requires s[prev].name != s0[i].name
    ensures GoodEntry(s[i]) && s[i] == s0[i]
    ensures forall k :: low <= k <= prev && Active(s[k]) ==>
      Cmp(s[k], s0[i], true) < 0 && s[k].name != s0[i].name
    ensures forall k :: 0 <= k < i && Active(s0[k]) ==> s0[k].name != AsDir(s0[i].name)
    ensures Kept(s0[..i + 1], s0[i].name) == Some(s0[i])
    ensures Shape(s0, s, i + 1, low, i)
  {
    hide Order, Kept, Sorted, SkipsHoles, KeptSoFar, AllStand, NoTwins, StrictWithin, Searchable;
    AllBelow(s0, s, i, low, prev);
    ShapeFacts(s0, s, i, low, prev);
    NotSeen(s0, s, i, low, prev, s0[i].name);
    KeptNone(s0[..i], s0[i].name);
    KeptNext(s0, i, s0[i].name);
    OrderIsTotal(s0[i].name, s0[i].name, s0[i].name, true);
    ExtendSearchable(s, i, low, prev);
  }

  /** A new name is kept where it stands. */
  lemma StepNew(s0: seq<Entry>, s: seq<Entry>, i: nat, low: nat, prev: nat)
    requires Input(s0) && Cleaning(s0, s, i, low, prev) && i < |s0| && Active(s0[i])
    requires s[prev].name != s0[i].name
    requires s0[i].name.isDir ==>
      forall k :: low <= k <= prev && Active(s[k]) ==> s[k].name != AsItem(s0[i].name)
    ensures Cleaning(s0, s, i + 1, low, i)
  {
    hide Order, Kept, Searchable, Sorted, GoodEntry, Stands;
    Above(s0, s, i, low, prev);
    forall k | low <= k <= prev && Active(s[k])
      ensures s[k].name == s0[k].name && Kept(s0[..i + 1], s[k].name) == Some(s[k])
    {
      KeptOthers(s0, s, s, i, low, prev, k);
    }
    NewStands(s0, s, i, low, prev);
    NewAlone(s0, s, i, low, prev);
  }

  lemma NewStands(s0: seq<Entry>, s: seq<Entry>, i: nat, low: nat, prev: nat)
    requires |s| == |s0| && low <= prev < i < |s| && AllStand(s0, s, i, low, prev) && s[i] == s0[i]
    ensures AllStand(s0, s, i + 1, low, i)
  {
    forall k | 0 <= k <= i && Active(s0[k])
      ensures Stands(s, low, i, s0[k].name)
    {
      if k < i {
        assert Stands(s, low, prev, s0[k].name);
      }
    }
  }

  lemma NewAlone(s0: seq<Entry>, s: seq<Entry>, i: nat, low: nat, prev: nat)
    requires |s| == |s0| && low <= prev < i < |s| && NoTwins(s0, s, i, low, prev) && s[i] == s0[i]
    requires forall k :: prev < k < i ==> s[k] == CLEARED
    requires s0[i].name.isDir ==>
      forall k :: low <= k <= prev && Active(s[k]) ==> s[k].name != AsItem(s0[i].name)
    requires forall k :: 0 <= k < i && Active(s0[k]) ==> s0[k].name != AsDir(s0[i].name)
    ensures NoTwins(s0, s, i + 1, low, i)
  {
    forall k, m | low <= k <= i && Active(s[k]) && !s[k].name.isDir && 0 <= m <= i && Active(s0[m])
      ensures s0[m].name != AsDir(s[k].name)
    {
      assert AsItem(AsDir(s[k].name)) == s[k].name;
    }
  }

  /** With the next entry active and above all that is kept, the searchable part extends to it. */
  lemma ExtendSearchable(s: seq<Entry>, i: nat, low: nat, prev: nat)
    requires low <= prev < i < |s| && Searchable(s, low, prev, true)
    requires forall k :: prev < k < i ==> s[k] == CLEARED
    requires Active(s[i]) && WellFormed(s[i].name)
    requires forall k :: low <= k <= prev && Active(s[k]) ==> Cmp(s[k], s[i], true) < 0
    ensures Searchable(s, low, i, true)
  {
    hide Order;
    forall k | low <= k <= i && !Active(s[k])
      ensures SkipsHoles(s, k, low, i)
    {
      assert k <= prev ==> SkipsHoles(s, k, low, prev);
    }
  }

  /** A second entry of the same name is removed; a directory passes its vital flags on. */
  lemma StepDup(s0: seq<Entry>, s: seq<Entry>, t: seq<Entry>, i: nat, low: nat, prev: nat)
    requires Cleaning(s0, s, i, low, prev) && i < |s0| && Active(s0[i])
    requires s[prev].name == s0[i].name
    requires t == s[prev := KeptWith(s[prev], s0[i])][i := CLEARED]
    ensures Cleaning(s0, t, i + 1, low, prev)
  {
    hide Order, Kept, Searchable, KeptSoFar, StrictWithin, AllStand, NoTwins, MergeFlags;
    ActiveEnds(s, low, prev);
    DupKept(s0, s, t, i, low, prev);
    SameNames(s, t, low, prev);
    DupStrict(s, t, low, prev);
    DupStands(s0, s, t, i, low, prev);
    DupAlone(s0, s, t, i, low, prev);
  }

  lemma DupKept(s0: seq<Entry>, s: seq<Entry>, t: seq<Entry>, i: nat, low: nat, prev: nat)
    requires |s| == |s0| && low <= prev < i < |s| && KeptSoFar(s0, s, i, low, prev) && StrictWithin(s, low, prev)
    requires Active(s[prev]) && s[prev].name == s0[i].name
    requires t == s[prev := KeptWith(s[prev], s0[i])][i := CLEARED]
    ensures KeptSoFar(s0, t, i + 1, low, prev)
  {
    hide Order, Kept, MergeFlags;
    var f := s0[i].name;
    OrderIsTotal(f, f, f, true);
    forall k | low <= k < prev && Active(t[k])
      ensures t[k].name == s0[k].name && Kept(s0[..i + 1], t[k].name) == Some(t[k])
    {
      assert Cmp(s[k], s[prev], true) < 0;
      KeptOthers(s0, s, t, i, low, prev, k);
    }
    KeptNext(s0, i, f);
  }

  lemma DupStrict(s: seq<Entry>, t: seq<Entry>, low: nat, prev: nat)
    requires |s| == |t| && prev < |s| && StrictWithin(s, low, prev)
    requires forall k :: low <= k <= prev ==> t[k].name == s[k].name
    ensures StrictWithin(t, low, prev)
  {
    hide Order;
    forall j, k | low <= j < k <= prev && Active(t[j]) && Active(t[k])
      ensures Cmp(t[j], t[k], true) < 0
    {
      assert Cmp(s[j], s[k], true) < 0;
    }
  }

  lemma DupAlone(s0: seq<Entry>, s: seq<Entry>, t: seq<Entry>, i: nat, low: nat, prev: nat)
    requires |s| == |s0| == |t| && low <= prev < i < |s|
    requires NoTwins(s0, s, i, low, prev) && StrictWithin(s, low, prev) && KeptSoFar(s0, s, i, low, prev)
    requires Active(s[prev]) && s[prev].name == s0[i].name
    requires forall k :: low <= k <= prev ==> t[k].name == s[k].name
    ensures NoTwins(s0, t, i + 1, low, prev)
  {
    hide Order, Kept;
    forall k, m | low <= k <= prev && Active(t[k]) && !t[k].name.isDir && 0 <= m <= i && Active(s0[m])
      ensures s0[m].name != AsDir(t[k].name)
    {
      assert s0[prev].name == s0[i].name;
    }
  }

  lemma DupStands(s0: seq<Entry>, s: seq<Entry>, t: seq<Entry>, i: nat, low: nat, prev: nat)
    requires |s| == |s0| == |t| && low <= prev < i < |s| && AllStand(s0, s, i, low, prev)
    requires Active(s[prev]) && s[prev].name == s0[i].name
    requires forall k :: low <= k <= prev ==> t[k].name == s[k].name
    ensures AllStand(s0, t, i + 1, low, prev)
  {
    forall k | 0 <= k < i + 1 && Active(s0[k])
      ensures Stands(t, low, prev, s0[k].name)
    {
      if k < i {
        assert Stands(s, low, prev, s0[k].name);
        var j :| low <= j <= prev && Active(s[j]) && (s[j].name == s0[k].name || s[j].name == AsDir(s0[k].name));
        assert t[j].name == s[j].name;
      } else {
        assert t[prev].name == s0[k].name;
      }
    }
  }

  /** The search looks at names and distances only. */
  lemma SameNames(s: seq<Entry>, t: seq<Entry>, low: nat, prev: nat)
    requires Searchable(s, low, prev, true) && |t| == |s|
    requires forall k :: low <= k <= prev ==>
      t[k].name == s[k].name && t[k].depth == s[k].depth && t[k].len32 == s[k].len32
    ensures Searchable(t, low, prev, true)
  {
    hide Order;
    forall k | low <= k <= prev && !Active(t[k])
      ensures SkipsHoles(t, k, low, prev)
    {
      assert SkipsHoles(s, k, low, prev);
    }
  }

  /** Where the first active entry is once the entry at j is gone and the one at i is there. */
  ghost predicate NewLow(s: seq<Entry>, i: nat, j: nat, low: nat, low': nat)
    requires i < |s|
  {
    if j != low then low' == low
    else j < low' <= i && Active(s[low']) && forall k :: j < k < low' ==> !Active(s[k])
  }

  /** A directory takes the place of the plain item of its path. */
  lemma StepTwin(s0: seq<Entry>, s: seq<Entry>, t: seq<Entry>, i: nat, low: nat, prev: nat, j: nat, low': nat)
    requires Input(s0) && Cleaning(s0, s, i, low, prev) && i < |s0| && Active(s0[i])
    requires s[prev].name != s0[i].name && s0[i].name.isDir
    requires low <= j <= prev && Active(s[j]) && s[j].name == AsItem(s0[i].name)
    requires t == s[j := CLEARED] && NewLow(s, i, j, low, low')
    ensures Cleaning(s0, t, i + 1, low', i)
  {
    hide Order, Kept, Searchable, Sorted, GoodEntry, Stands;
    Above(s0, s, i, low, prev);
    RemoveSearchable(s, j, low, i, low');
    forall k | low' <= k <= prev && Active(t[k])
      ensures t[k].name == s0[k].name && Kept(s0[..i + 1], t[k].name) == Some(t[k])
    {
      KeptOthers(s0, s, t, i, low, prev, k);
    }
    TwinStands(s0, s, t, i, low, prev, j, low');
    TwinAlone(s0, s, t, i, low, prev, j, low');
  }

  /** Every name is still represented. */
  lemma TwinStands(s0: seq<Entry>, s: seq<Entry>, t: seq<Entry>, i: nat, low: nat, prev: nat, j: nat, low': nat)
    requires |s| == |s0| && low <= prev < i < |s| && AllStand(s0, s, i, low, prev)
    requires low <= j <= prev && s[i] == s0[i] && Active(s[i]) && s[i].name.isDir
    requires s[j].name == AsItem(s0[i].name)
    requires t == s[j := CLEARED] && NewLow(s, i, j, low, low')
    ensures AllStand(s0, t, i + 1, low', i)
  {
    var f := s0[i].name;
    assert t[i].name == f;
    forall k | 0 <= k <= i && Active(s0[k])
      ensures Stands(t, low', i, s0[k].name)
    {
      var n := s0[k].name;
      if k < i {
        assert Stands(s, low, prev, n);
        var m :| low <= m <= prev && Active(s[m]) && (s[m].name == n || s[m].name == AsDir(n));
        if m == j {
          assert AsDir(n) == f;
        } else {
          assert low' <= m && t[m] == s[m];
        }
      }
    }
  }

  /** No plain item that is left has a directory of its path. */
  lemma TwinAlone(s0: seq<Entry>, s: seq<Entry>, t: seq<Entry>, i: nat, low: nat, prev: nat, j: nat, low': nat)
    requires |s| == |s0| && low <= prev < i < |s|
    requires NoTwins(s0, s, i, low, prev) && StrictWithin(s, low, prev)
    requires forall k :: prev < k < i ==> s[k] == CLEARED
    requires low <= j <= prev && s[i] == s0[i] && Active(s[i]) && s[i].name.isDir && Active(s[j])
    requires s[j].name == AsItem(s0[i].name)
    requires t == s[j := CLEARED] && NewLow(s, i, j, low, low')
    ensures NoTwins(s0, t, i + 1, low', i)
  {
    hide Order;
    forall k, m | low' <= k <= i && Active(t[k]) && !t[k].name.isDir && 0 <= m <= i && Active(s0[m])
      ensures s0[m].name != AsDir(t[k].name)
    {
      assert k <= prev && t[k] == s[k];
      if m == i {
        OrderIsTotal(s[j].name, s[j].name, s[j].name, true);
        assert k < j ==> Cmp(s[k], s[j], true) < 0;
        assert j < k ==> Cmp(s[j], s[k], true) < 0;
        assert s[k].name != s[j].name;
        assert AsItem(AsDir(s[k].name)) == s[k].name;
      }
    }
  }

  /** Removing an entry that is not the last keeps the list searchable from its new first entry on. */
  lemma RemoveSearchable(s: seq<Entry>, j: nat, low: nat, high: nat, low': nat)
    requires Searchable(s, low, high, true) && low <= j < high && Active(s[j])
    requires NewLow(s, high, j, low, low')
    ensures Searchable(s[j := CLEARED], low', high, true)
  {
    hide Order;
    var t := s[j := CLEARED];
    forall k | low' <= k <= high && !Active(t[k])
      ensures SkipsHoles(t, k, low', high)
    {
      assert k != j ==> SkipsHoles(s, k, low, high);
    }
  }

  /** What a search writes does not matter. */
  lemma StepSearch(s0: seq<Entry>, s: seq<Entry>, t: seq<Entry>, i: nat, low: nat, prev: nat)
    requires Cleaning(s0, s, i, low, prev) && SameBut(s, t, low, prev) && Searchable(t, low, prev, true)
    ensures Cleaning(s0, t, i, low, prev)
    ensures forall k :: 0 <= k < |s| && Active(t[k]) ==> t[k] == s[k]
    ensures t[prev] == s[prev]
  {
    hide Order, Kept, SkipsHoles, Stands, Searchable;
    assert Active(s[prev]) by { ActiveEnds(s, low, prev); }
    SearchStands(s0, s, t, i, low, prev);
  }

  lemma ActiveEnds(s: seq<Entry>, low: nat, prev: nat)
    requires Searchable(s, low, prev, true)
    ensures Active(s[low]) && Active(s[prev])
  {
  }

  lemma SearchStands(s0: seq<Entry>, s: seq<Entry>, t: seq<Entry>, i: nat, low: nat, prev: nat)
    requires |s| == |s0| == |t| && low <= prev < i <= |s| && AllStand(s0, s, i, low, prev)
    requires forall k :: low <= k <= prev ==> t[k].name == s[k].name
    ensures AllStand(s0, t, i, low, prev)
  {
    forall k | 0 <= k < i && Active(s0[k])
      ensures Stands(t, low, prev, s0[k].name)
    {
      assert Stands(s, low, prev, s0[k].name);
      var j :| low <= j <= prev && Active(s[j]) && (s[j].name == s0[k].name || s[j].name == AsDir(s0[k].name));
      assert t[j].name == s[j].name;
    }
  }

  // ----- from the loop to the list as a whole

  /** The loop starts at the first active entry. */
  lemma StartClean(s0: seq<Entry>, i: nat)
    requires Input(s0) && i < |s0| && Active(s0[i])
    requires forall k :: 0 <= k < i ==> !Active(s0[k])
    ensures Cleaning(s0, s0, i + 1, i, i)
  {
    hide Order;
    assert GoodEntry(s0[i]);
    KeptNone(s0[..i], s0[i].name);
    KeptNext(s0, i, s0[i].name);
  }

  /** At the end the list is clean. */
  lemma EndClean(s0: seq<Entry>, s: seq<Entry>, low: nat, prev: nat)
    requires Cleaning(s0, s, |s0|, low, prev)
    ensures CleanOf(s, s0, low, prev)
  {
    hide Order, Kept, Searchable, Stands;
    assert s0[..|s0|] == s0;
    ActiveEnds(s, low, prev);
    forall n
      ensures Listed(s, n) <==> Survives(s0, n)
    {
      EndListed(s0, s, low, prev, n);
    }
  }

  lemma EndListed(s0: seq<Entry>, s: seq<Entry>, low: nat, prev: nat, n: FileName)
    requires Cleaning(s0, s, |s0|, low, prev)
    ensures Listed(s, n) <==> Survives(s0, n)
  {
    hide Order, Kept, Searchable;
    if Listed(s, n) {
      var k :| 0 <= k < |s| && Active(s[k]) && s[k].name == n;
      assert s0[k].name == n;
    }
    if Survives(s0, n) {
      var k :| 0 <= k < |s0| && Active(s0[k]) && s0[k].name == n;
      assert Stands(s, low, prev, n);
      var j :| low <= j <= prev && Active(s[j]) && (s[j].name == n || s[j].name == AsDir(n));
      assert s0[j].name == s[j].name;
      assert n.isDir ==> AsDir(n) == n;
    }
  }

  /** A list without active entries is clean. */
  lemma NoneClean(s: seq<Entry>, low: nat, high: int)
    requires forall i :: 0 <= i < |s| ==> !Active(s[i])
    ensures CleanOf(s, s, low, high)
  {
  }

  // ----- sorting does not change what is kept

  /** Among good entries, comparing equal means having the same name. */
  lemma EqualIsSameName(e: Entry, x: Entry)
    requires GoodEntry(e) && GoodEntry(x) && Active(x)
    ensures Equal(x, true)(e) <==> e.name == x.name
  {
    if Active(e) {
      CmpZero(e.name, x.name);
    }
  }

  lemma {:induction false} KeptOfClass(s: seq<Entry>, x: Entry)
    requires Incoming(s) && GoodEntry(x) && Active(x)
    ensures Kept(s, x.name) == Kept(Class(s, x, true), x.name)
  {
    hide Order, GoodEntry;
    if s != [] {
      var init, e := s[..|s| - 1], s[|s| - 1];
      KeptOfClass(init, x);
      assert s == init + [e];
      PickAppend(init, [e], Equal(x, true));
      EqualIsSameName(e, x);
      var c := Class(init, x, true);
      assert (c + [e])[..|c|] == c && c + [] == c;
    }
  }

  ghost predicate OneAtTop(s: seq<Entry>, name: FileName) {
    exists i :: 0 <= i < |s| && s[i].name == name && s[i].flags.topDir
  }

  ghost predicate OneWithContent(s: seq<Entry>, name: FileName) {
    exists i :: 0 <= i < |s| && s[i].name == name && s[i].flags.contentDir
  }

  ghost predicate AllImplied(s: seq<Entry>, name: FileName) {
    forall i :: 0 <= i < |s| && s[i].name == name ==> s[i].flags.impliedDir
  }

  /** The entry k is the first one of its name, but for the vital flags of a directory. */
  ghost predicate IsFirst(k: Entry, s: seq<Entry>, f: nat) {
    && f < |s| && s[f].name == k.name && (forall j :: 0 <= j < f ==> s[j].name != k.name)
    && if k.name.isDir
       then k == s[f].(flags := Flags(k.flags.topDir, k.flags.contentDir, k.flags.impliedDir, s[f].flags.duplicate))
       else k == s[f]
  }

  /** It stands for all entries of its name in a list as received: a directory is at the top of the transfer, or
      has content, if one of them says so, and is an implied one if all of them say so. */
  ghost predicate StandsForAll(k: Entry, s: seq<Entry>) {
    && (exists f: nat :: IsFirst(k, s, f))
    && (k.name.isDir ==>
          && (k.flags.topDir <==> OneAtTop(s, k.name))
          && (k.flags.contentDir <==> OneWithContent(s, k.name))
          && (k.flags.impliedDir <==> AllImplied(s, k.name)))
  }

  /** What is kept is just that. */
  lemma {:induction false} KeptStands(s: seq<Entry>, name: FileName)
    ensures Kept(s, name).None? <==> forall i :: 0 <= i < |s| ==> s[i].name != name
    ensures Kept(s, name).Some? ==> Kept(s, name).value.name == name && StandsForAll(Kept(s, name).value, s)
  {
    hide StandsForAll, KeptWith;
    if s != [] {
      var init, e := s[..|s| - 1], s[|s| - 1];
      KeptStands(init, name);
      assert s == init + [e];
      assert forall i :: 0 <= i < |init| ==> s[i] == init[i];
      if Kept(init, name).Some? {
        StandsNext(Kept(init, name).value, init, e);
      } else if e.name == name {
        StandsFirst(init, e);
      }
    }
  }

  lemma StandsFirst(s: seq<Entry>, e: Entry)
    requires forall i :: 0 <= i < |s| ==> s[i].name != e.name
    ensures StandsForAll(e, s + [e])
  {
    var t := s + [e];
    assert forall i :: 0 <= i < |s| ==> t[i] == s[i];
    assert t[|s|] == e;
    assert IsFirst(e, t, |s|);
  }

  lemma SeenNext(s: seq<Entry>, e: Entry, name: FileName)
    ensures OneAtTop(s + [e], name) <==> OneAtTop(s, name) || (e.name == name && e.flags.topDir)
    ensures OneWithContent(s + [e], name) <==> OneWithContent(s, name) || (e.name == name && e.flags.contentDir)
    ensures AllImplied(s + [e], name) <==> AllImplied(s, name) && (e.name == name ==> e.flags.impliedDir)
  {
    var t := s + [e];
    assert t[|s|] == e && forall i :: 0 <= i < |s| ==> t[i] == s[i];
  }

  lemma StandsNext(k: Entry, s: seq<Entry>, e: Entry)
    requires StandsForAll(k, s)
    ensures var k' := if e.name == k.name then KeptWith(k, e) else k;
      k'.name == k.name && StandsForAll(k', s + [e])
  {
    hide OneAtTop, OneWithContent, AllImplied;
    var f: nat :| IsFirst(k, s, f);
    var k' := if e.name == k.name then KeptWith(k, e) else k;
    assert forall i :: 0 <= i < |s| ==> (s + [e])[i] == s[i];
    assert IsFirst(k', s + [e], f);
    SeenNext(s, e, k.name);
  }

  lemma SameEntries(s: seq<Entry>, t: seq<Entry>, e: Entry)
    requires multiset(s) == multiset(t)
    ensures e in s <==> e in t
  {
    assert e in multiset(s) <==> e in multiset(t);
  }

  lemma SortedListed(s: seq<Entry>, t: seq<Entry>, n: FileName)
    requires multiset(s) == multiset(t) && Listed(s, n)
    ensures Listed(t, n)
  {
    var i :| 0 <= i < |s| && Active(s[i]) && s[i].name == n;
    SameEntries(s, t, s[i]);
  }

  lemma SortedIncoming(s: seq<Entry>, t: seq<Entry>)
    requires multiset(s) == multiset(t) && Incoming(s)
    ensures Incoming(t)
  {
    hide GoodEntry;
    forall i | 0 <= i < |t|
      ensures GoodEntry(t[i]) && (!Active(t[i]) ==> t[i] == CLEARED)
    {
      SameEntries(s, t, t[i]);
    }
  }

  /** The clean form of the sorted list is the clean form of the list. */
  lemma CleanOfUnsorted(t: seq<Entry>, sorted: seq<Entry>, s: seq<Entry>, low: nat, high: int)
    requires Incoming(s) && sorted == MergeSort(s, true) && CleanOf(t, sorted, low, high)
    ensures CleanOf(t, s, low, high)
  {
    hide Order, Kept, MergeSort, GoodEntry, Searchable, StrictlySorted;
    MergeSortKeepsAll(s, true);
    forall n
      ensures Listed(s, n) <==> Listed(sorted, n)
    {
      if Listed(s, n) { SortedListed(s, sorted, n); }
      if Listed(sorted, n) { SortedListed(sorted, s, n); }
    }
    SortedIncoming(s, sorted);
    forall i | 0 <= i < |t| && Active(t[i])
      ensures Kept(s, t[i].name) == Kept(sorted, t[i].name)
    {
      assert Listed(t, t[i].name);
      assert Survives(sorted, t[i].name);
      KeptUnsorted(s, sorted, t[i].name);
    }
    if exists i :: 0 <= i < |s| && Active(s[i]) {
      var i :| 0 <= i < |s| && Active(s[i]);
      assert Listed(s, s[i].name);
    }
  }

  lemma KeptUnsorted(s: seq<Entry>, sorted: seq<Entry>, n: FileName)
    requires Incoming(s) && Incoming(sorted) && sorted == MergeSort(s, true) && Listed(sorted, n)
    ensures Kept(s, n) == Kept(sorted, n)
  {
    hide Order, Kept, MergeSort;
    var x :| 0 <= x < |sorted| && Active(sorted[x]) && sorted[x].name == n;
    MergeSortIsStable(s, true);
    KeptOfClass(s, sorted[x]);
    KeptOfClass(sorted, sorted[x]);
    assert Class(s, sorted[x], true) == Class(sorted, sorted[x], true);
  }

  // ----- the cleaning itself

  /** What the loop body reads off the list. */
  lemma LoopFacts(s0: seq<Entry>, s: seq<Entry>, i: nat, low: nat, prev: nat)
    requires Input(s0) && Cleaning(s0, s, i, low, prev) && i < |s0|
    ensures low <= prev < i < |s| == |s0| && s[i] == s0[i] && GoodEntry(s[i])
    ensures Searchable(s, low, prev, true) && Active(s[low])
    ensures forall k :: low <= k <= prev ==> WellFormed(s[k].name)
    ensures forall k :: low <= k <= prev && Active(s[k]) ==> GoodEntry(s[k])
    ensures Active(s[prev])
  {
    hide Order, Kept;
    forall k | low <= k <= prev && Active(s[k])
      ensures GoodEntry(s[k])
    {
      assert GoodEntry(s0[k]);
    }
  }

  lemma HoleIsCleared(s0: seq<Entry>, e: Entry)
    requires Incoming(s0) && e in s0
    ensures Active(e) || e == CLEARED
  {
  }

  /** A new entry that is a directory and compares, as a plain item, equal to none has no twin. */
  lemma NoTwinFound(s: seq<Entry>, low: nat, prev: nat, f: FileName)
    requires prev < |s| && GoodName(f)
    requires forall k :: low <= k <= prev && Active(s[k]) ==> Order(s[k].name, f, true) != 0
    ensures forall k :: low <= k <= prev && Active(s[k]) ==> s[k].name != f
  {
    hide Order;
    OrderIsTotal(f, f, f, true);
  }

  /** One turn of the cleaning loop. */
  method CleanNext(sorted: array<Entry>, ghost s0: seq<Entry>, i: nat, low: nat, prev: nat)
    returns (low': nat, prev': nat)
    requires Input(s0) && Cleaning(s0, sorted[..], i, low, prev) && i < |s0|
    modifies sorted
    ensures Cleaning(s0, sorted[..], i + 1, low', prev')
  {
    hide Order, Sorted, Incoming, Cleaning, GoodEntry, Searchable, SameBut, NewLow, KeptWith, MergeFlags;
    LoopFacts(s0, sorted[..], i, low, prev);
    low', prev' := low, prev;
    if !Active(sorted[i]) {
      HoleIsCleared(s0, sorted[..][i]);
      StepRemoved(s0, sorted[..], i, low, prev);
      return;
    }
    var file := sorted[i];
    assert GoodEntry(file) && GoodEntry(sorted[..][prev]);
    GoodIsWellFormed(file);
    GoodIsWellFormed(sorted[prev]);
    var dif := CompareEntries(file, sorted[prev], true);
    CmpZero(file.name, sorted[prev].name);
    var j := -1;
    if dif == 0 {
      j := prev;
    } else if file.name.isDir {
      j := FindTwin(sorted, s0, i, low, prev);
    }
    if j < 0 {
      StepNew(s0, sorted[..], i, low, prev);
      prev' := i;
      return;
    }
    var keepNew := file.name.isDir && !sorted[j].name.isDir;
    ghost var s := sorted[..];
    if keepNew {
      sorted[j] := CLEARED;
      low' := low;
      if low == j {
        low' := j + 1;
        while low' < i && !Active(sorted[low'])
          invariant j < low' <= i
          invariant forall k :: j < k < low' ==> !Active(s[k])
        {
          low' := low' + 1;
        }
      }
      prev' := i;
      NewLowIs(s, i, j, low, low');
      StepTwin(s0, s, sorted[..], i, low, prev, j, low');
    } else {
      if file.name.isDir {
        sorted[j] := sorted[j].(flags := MergeFlags(sorted[j].flags, file.flags));
      }
      sorted[i] := CLEARED;
      MergedIs(s[j], file);
      assert sorted[..] == s[prev := KeptWith(s[prev], s0[i])][i := CLEARED];
      StepDup(s0, s, sorted[..], i, low, prev);
    }
  }

  lemma GoodIsWellFormed(e: Entry)
    requires GoodEntry(e)
    ensures WellFormed(e.name)
    ensures Active(e) ==> GoodName(e.name) && GoodName(AsItem(e.name))
  {
  }

  lemma NewLowIs(s: seq<Entry>, i: nat, j: nat, low: nat, low': nat)
    requires i < |s| && low <= j < i
    requires if j != low then low' == low
             else j < low' <= i && Active(s[low']) && forall k :: j < k < low' ==> !Active(s[k])
    ensures NewLow(s, i, j, low, low')
  {
  }

  lemma MergedIs(kept: Entry, e: Entry)
    ensures KeptWith(kept, e) ==
      if kept.name.isDir then kept.(flags := MergeFlags(kept.flags, e.flags)) else kept
  {
  }

  /** Looks for a plain item with the path of the directory at i. */
  method FindTwin(sorted: array<Entry>, ghost s0: seq<Entry>, i: nat, low: nat, prev: nat) returns (j: int)
    requires Input(s0) && Cleaning(s0, sorted[..], i, low, prev) && i < |s0|
    requires Active(sorted[i]) && sorted[i].name.isDir && sorted[prev].name != sorted[i].name
    modifies sorted
    ensures Cleaning(s0, sorted[..], i, low, prev)
    ensures sorted[i] == old(sorted[i]) && sorted[prev] == old(sorted[prev])
    ensures j == -1 || (low <= j <= prev && Active(sorted[j]) && sorted[j].name == AsItem(sorted[i].name))
    ensures j == -1 ==>
      forall k :: low <= k <= prev && Active(sorted[k]) ==> sorted[k].name != AsItem(sorted[i].name)
  {
    hide Order, Input, Cleaning, GoodEntry, Searchable, SameBut;
    ghost var s := sorted[..];
    LoopFacts(s0, s, i, low, prev);
    assert s[i] == sorted[i] && s[prev] == sorted[prev];
    GoodIsWellFormed(sorted[i]);
    var f := AsItem(sorted[i].name);
    j := FlistFind(sorted, low, prev, f, true);
    StepSearch(s0, s, sorted[..], i, low, prev);
    LoopFacts(s0, sorted[..], i, low, prev);
    if j >= 0 {
      assert sorted[..][j] == sorted[j];
      GoodIsWellFormed(sorted[j]);
      CmpZero(sorted[j].name, f);
    } else {
      NoTwinFound(sorted[..], low, prev, f);
    }
  }

  /** Sorts a list as received and removes its duplicates. */
  method SortAndClean(sorted: array<Entry>) returns (low: nat, high: int)
    requires Incoming(sorted[..])
    modifies sorted
    ensures CleanOf(sorted[..], old(sorted[..]), low, high)
    ensures forall i :: 0 <= i < sorted.Length && Active(sorted[i]) ==> StandsForAll(sorted[i], old(sorted[..]))
  {
    hide Order, GoodEntry, CleanOf, Cleaning, MergeSort, Kept, StandsForAll;
    low, high := 0, -1;
    if sorted.Length == 0 {
      NoneClean(sorted[..], low, high);
      return;
    }
    ghost var s := sorted[..];
    IncomingIsGood(s);
    Fsort(sorted, true);
    ghost var s0 := sorted[..];
    SortedInput(s);
    var i, prev := 0, 0;
    while i < sorted.Length && !Active(sorted[i])
      invariant 0 <= i <= sorted.Length
      invariant forall k :: 0 <= k < i ==> !Active(s0[k])
    {
      i := i + 1;
    }
    if i == sorted.Length {
      high := 0;
      NoneClean(s0, low, high);
      CleanOfUnsorted(s0, s0, s, low, high);
      return;
    }
    low, prev := i, i;
    StartClean(s0, i);
    i := i + 1;
    while i < sorted.Length
      invariant low <= prev < i <= sorted.Length
      invariant Cleaning(s0, sorted[..], i, low, prev)
    {
      low, prev := CleanNext(sorted, s0, i, low, prev);
      i := i + 1;
      CleaningBounds(s0, sorted[..], i, low, prev);
    }
    high := prev;
    EndClean(s0, sorted[..], low, prev);
    CleanOfUnsorted(sorted[..], s0, s, low, high);
    CleanStands(sorted[..], s, low, high);
  }

  lemma CleanStands(t: seq<Entry>, s: seq<Entry>, low: nat, high: int)
    requires CleanOf(t, s, low, high)
    ensures forall i :: 0 <= i < |t| && Active(t[i]) ==> StandsForAll(t[i], s)
  {
    hide Order, Kept, StandsForAll, Searchable;
    forall i | 0 <= i < |t| && Active(t[i])
      ensures StandsForAll(t[i], s)
    {
      KeptStands(s, t[i].name);
    }
  }

  lemma CleaningBounds(s0: seq<Entry>, s: seq<Entry>, i: nat, low: nat, prev: nat)
    requires Cleaning(s0, s, i, low, prev)
    ensures low <= prev < i <= |s|
  {
  }

  lemma IncomingIsGood(s: seq<Entry>)
    requires Incoming(s)
    ensures NamesGood(s)
  {
  }

  lemma SortedInput(s: seq<Entry>)
    requires Incoming(s)
    ensures Input(MergeSort(s, true))
  {
    hide MergeSort, GoodEntry, Order;
    MergeSortKeepsAll(s, true);
    MergeSortIsStable(s, true);
    SortedIncoming(s, MergeSort(s, true));
  }
}
