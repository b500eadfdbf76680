/** flist.c: what the order of names means in terms of path components, and that it is a total order
    which keeps every directory right in front of its contents. */
module NameComponents {
  import opened Basics
  import opened Lexicographic
  import opened NameOrder

  /** A path: directory components, a last component, and whether that is a directory. */
  datatype PathName = PathName(dirs: seq<bytes>, base: bytes, isDir: bool)

  datatype Component = DirPart(text: bytes) | ItemPart(text: bytes)

  predicate SlashFree(s: bytes) {
    forall i :: 0 <= i < |s| ==> s[i] != SLASH
  }

  predicate GoodText(s: bytes) {
    NulFree(s) && SlashFree(s)
  }

  /** The dirname string of a list of directory components. */
  function Join(dirs: seq<bytes>): bytes
    requires dirs != []
  {
    if |dirs| == 1 then dirs[0] else dirs[0] + [SLASH] + Join(dirs[1..])
  }

  function ToFileName(p: PathName): FileName {
    FileName(if p.dirs == [] then None else Some(Join(p.dirs)), p.base, p.isDir)
  }

  function DirParts(dirs: seq<bytes>): (parts: seq<Component>)
    ensures |parts| == |dirs|
  {
    if dirs == [] then [] else [DirPart(dirs[0])] + DirParts(dirs[1..])
  }

  /** A name's components; "." as a directory is the root, which has none. */
  function Components(p: PathName): seq<Component> {
    DirParts(p.dirs)
    + (if !p.isDir then [ItemPart(p.base)] else if p.base == [DOT] then [] else [DirPart(p.base)])
  }

  /** The documented order: a finished name comes first, an item precedes any directory at the same depth,
      and directory components compare as if a slash followed. */
  function CompareComponents(a: seq<Component>, b: seq<Component>): int {
    if a == [] then if b == [] then 0 else -1
    else if b == [] then 1
    else if a[0].ItemPart? != b[0].ItemPart? then if a[0].ItemPart? then -1 else 1
    else
      var tail: seq<int> := if a[0].ItemPart? then [] else [SLASH];
      var sign := LexSign(a[0].text + tail, b[0].text + tail);
      if sign != 0 then sign else CompareComponents(a[1..], b[1..])
  }

  /** Good texts throughout, and nothing after an item. */
  ghost predicate GoodParts(a: seq<Component>) {
    forall i :: 0 <= i < |a| ==> GoodText(a[i].text) && (a[i].ItemPart? ==> i == |a| - 1)
  }

  function PartKey(c: Component): seq<int> {
    if c.ItemPart? then [0] + c.text else c.text + [SLASH]
  }

  function PartsKey(a: seq<Component>): seq<int> {
    if a == [] then [] else PartKey(a[0]) + PartsKey(a[1..])
  }

  lemma {:induction false} PartsKeyAppend(a: seq<Component>, b: seq<Component>)
    ensures PartsKey(a + b) == PartsKey(a) + PartsKey(b)
  {
    if a == [] {
      assert a + b == b;
    } else {
      assert (a + b)[1..] == a[1..] + b;
      PartsKeyAppend(a[1..], b);
    }
  }

  lemma {:induction false} JoinKey(dirs: seq<bytes>)
    requires dirs != []
    ensures Join(dirs) + [SLASH] == PartsKey(DirParts(dirs))
  {
    if |dirs| == 1 {
      assert DirParts(dirs[1..]) == [];
    } else {
      JoinKey(dirs[1..]);
      assert DirParts(dirs)[1..] == DirParts(dirs[1..]);
      assert Join(dirs) + [SLASH] == (dirs[0] + [SLASH]) + (Join(dirs[1..]) + [SLASH]);
    }
  }

  lemma KeyOfComponents(p: PathName)
    ensures SortKey(ToFileName(p), true) == PartsKey(Components(p))
  {
    var last := Components(p)[|p.dirs|..];
    assert Components(p) == DirParts(p.dirs) + last;
    PartsKeyAppend(DirParts(p.dirs), last);
    assert PartsKey(last) == Leaf(ToFileName(p), true) by {
      if last != [] {
        assert last[1..] == [];
      }
    }
    if p.dirs != [] {
      JoinKey(p.dirs);
    }
  }

  /** Slash-free texts followed by a slash are never proper prefixes of one another. */
  lemma SlashEnds(s: bytes, t: bytes)
    requires SlashFree(s) && SlashFree(t)
    requires (s + [SLASH]) <= (t + [SLASH])
    ensures s == t
  {
    assert (t + [SLASH])[|s|] == (s + [SLASH])[|s|] == SLASH;
    assert forall i :: 0 <= i < |t| ==> (t + [SLASH])[i] == t[i] != SLASH;
    assert s == (t + [SLASH])[..|s|] == t[..|s|];
  }

  /** The flat comparison of keys is the comparison of component lists. */
  lemma {:induction false} PartsOrder(a: seq<Component>, b: seq<Component>)
    requires GoodParts(a) && GoodParts(b)
    ensures LexSign(PartsKey(a), PartsKey(b)) == CompareComponents(a, b)
  {
    if a == [] || b == [] {
      assert a != [] ==> PartKey(a[0]) != [];
      assert b != [] ==> PartKey(b[0]) != [];
    } else if a[0].ItemPart? != b[0].ItemPart? {
      assert PartsKey(a)[0] == PartKey(a[0])[0] && PartsKey(b)[0] == PartKey(b[0])[0];
    } else if a[0].ItemPart? {
      var s: seq<int>, t: seq<int> := a[0].text, b[0].text;
      assert a[1..] == [] && b[1..] == [];
      assert s + [] == s && t + [] == t;
      assert PartsKey(a) == [0] + s && PartsKey(b) == [0] + t;
      LexCommon([0], s, t);
    } else {
      var x, y := PartKey(a[0]), PartKey(b[0]);
      LexEqual(x, y);
      if x == y {
        LexCommon(x, PartsKey(a[1..]), PartsKey(b[1..]));
        PartsOrder(a[1..], b[1..]);
      } else {
        PrefixFree(a[0].text, b[0].text);
        LexPart(x, y, PartsKey(a[1..]), PartsKey(b[1..]));
      }
    }
  }

  lemma PrefixFree(s: bytes, t: bytes)
    requires SlashFree(s) && SlashFree(t) && s + [SLASH] != t + [SLASH]
    ensures !(s + [SLASH] <= t + [SLASH]) && !(t + [SLASH] <= s + [SLASH])
  {
    if s + [SLASH] <= t + [SLASH] {
      SlashEnds(s, t);
    }
    if t + [SLASH] <= s + [SLASH] {
      SlashEnds(t, s);
    }
  }

  ghost predicate GoodPath(p: PathName) {
    && p.base != [] && GoodText(p.base)
    && (forall i :: 0 <= i < |p.dirs| ==> GoodText(p.dirs[i]))
    && (p.isDir && p.base == [DOT] ==> p.dirs == [])
  }

  lemma {:induction false} DirPartsGood(dirs: seq<bytes>, i: nat)
    requires i < |dirs|
    ensures DirParts(dirs)[i] == DirPart(dirs[i])
  {
    if i > 0 {
      DirPartsGood(dirs[1..], i - 1);
    }
  }

  /** From protocol 29 on, entries compare as their component lists do. */
  lemma OrderIsByComponents(p: PathName, q: PathName)
    requires GoodPath(p) && GoodPath(q)
    ensures Order(ToFileName(p), ToFileName(q), true) == CompareComponents(Components(p), Components(q))
  {
    KeyOfComponents(p);
    KeyOfComponents(q);
    forall i | 0 <= i < |p.dirs| ensures DirParts(p.dirs)[i] == DirPart(p.dirs[i]) { DirPartsGood(p.dirs, i); }
    forall i | 0 <= i < |q.dirs| ensures DirParts(q.dirs)[i] == DirPart(q.dirs[i]) { DirPartsGood(q.dirs, i); }
    PartsOrder(Components(p), Components(q));
  }

  // ----- a total order

  /** What sorting needs: a total preorder, in which only entries with the same key compare equal. */
  lemma OrderIsTotal(f: FileName, g: FileName, h: FileName, paths: bool)
    ensures Order(f, g, paths) == -Order(g, f, paths)
    ensures Order(f, g, paths) <= 0 && Order(g, h, paths) <= 0 ==> Order(f, h, paths) <= 0
    ensures Order(f, g, paths) < 0 && Order(g, h, paths) <= 0 ==> Order(f, h, paths) < 0
    ensures Order(f, g, paths) <= 0 && Order(g, h, paths) < 0 ==> Order(f, h, paths) < 0
  {
    LexFlip(SortKey(f, paths), SortKey(g, paths));
    if Order(f, g, paths) <= 0 && Order(g, h, paths) <= 0 && IsActive(f) {
      LexTransitive(SortKey(f, paths), SortKey(g, paths), SortKey(h, paths));
    }
  }

  /** A name as lists hold it: well-formed, active, with no slash in the last component. */
  ghost predicate GoodName(f: FileName) {
    WellFormed(f) && IsActive(f) && SlashFree(f.basename)
  }

  /** The whole path of a name. */
  function FullPath(f: FileName): bytes {
    if f.dirname.Some? then f.dirname.value + [SLASH] + f.basename else f.basename
  }

  /** Everything in front of the last component, slash included. */
  function Head(f: FileName): bytes {
    if f.dirname.Some? then f.dirname.value + [SLASH] else []
  }

  /** Before protocol 29, full names compare byte by byte. */
  lemma OldOrderIsByBytes(f: FileName, g: FileName)
    requires IsActive(f) && IsActive(g)
    ensures Order(f, g, false) == LexSign(FullPath(f), FullPath(g))
  {
    var p: seq<int>, q: seq<int> := FullPath(f), FullPath(g);
    assert SortKey(f, false) == p && SortKey(g, false) == q;
  }

  /** A removed entry comes before any other. */
  lemma RemovedFirst(f: FileName, g: FileName, paths: bool)
    requires f.basename == []
    ensures Order(f, g, paths) == if g.basename == [] then 0 else -1
    ensures Order(g, f, paths) == if g.basename == [] then 0 else 1
  {
  }

  lemma KeySplit(f: FileName)
    ensures SortKey(f, true) == Head(f) + Leaf(f, true)
  {
  }

  /** A slash-free last component can be split off in one way only. */
  lemma SplitLast(h1: bytes, b1: bytes, h2: bytes, b2: bytes)
    requires SlashFree(b1) && SlashFree(b2)
    requires h1 == [] || h1[|h1| - 1] == SLASH
    requires h2 == [] || h2[|h2| - 1] == SLASH
    requires h1 + b1 == h2 + b2
    ensures h1 == h2 && b1 == b2
  {
    var s := h1 + b1;
    LastSlash(h1, b1);
    LastSlash(h2, b2);
    assert |h1| == |h2|;
    assert h1 == s[..|h1|] && h2 == s[..|h2|] && b1 == s[|h1|..] && b2 == s[|h2|..];
  }

  lemma LastSlash(h: bytes, b: bytes)
    requires SlashFree(b)
    requires h == [] || h[|h| - 1] == SLASH
    ensures forall i :: |h| <= i < |h + b| ==> (h + b)[i] != SLASH
    ensures h != [] ==> (h + b)[|h| - 1] == SLASH
  {
  }

  lemma SlashPlace(f: FileName, g: FileName)
    requires f.isDir && g.isDir && !IsDotDir(f) && !IsDotDir(g) && SortKey(f, true) == SortKey(g, true)
    ensures Head(f) + f.basename == Head(g) + g.basename
  {
    var k := SortKey(f, true);
    var p, q := FullPath(f), FullPath(g);
    assert k == p + [SLASH] && k == q + [SLASH];
    assert p == k[..|k| - 1] == q;
  }

  /** Equal keys mean the same name and the same kind of entry. */
  lemma KeyIsName(f: FileName, g: FileName)
    requires GoodName(f) && GoodName(g) && SortKey(f, true) == SortKey(g, true)
    ensures f == g
  {
    KeySplit(f);
    KeySplit(g);
    var k := SortKey(f, true);
    if IsDotDir(f) || IsDotDir(g) {
      if !IsDotDir(f) { NonEmptyKey(f); }
      if !IsDotDir(g) { NonEmptyKey(g); }
    } else {
      ItemHasMark(f);
      ItemHasMark(g);
      assert f.isDir == g.isDir;
      if f.isDir {
        SlashPlace(f, g);
      } else {
        MarkPlace(f, g);
      }
      SplitLast(Head(f), f.basename, Head(g), g.basename);
      assert f.dirname.Some? ==> f.dirname.value == Head(f)[..|Head(f)| - 1];
      assert g.dirname.Some? ==> g.dirname.value == Head(g)[..|Head(g)| - 1];
    }
  }

  lemma NonEmptyKey(f: FileName)
    requires GoodName(f) && !IsDotDir(f)
    ensures SortKey(f, true) != []
  {
  }

  /** The key of an item has its mark right behind the head; the key of a directory has none. */
  lemma ItemHasMark(f: FileName)
    requires GoodName(f) && !IsDotDir(f)
    ensures forall i :: 0 <= i < |SortKey(f, true)| ==>
      (SortKey(f, true)[i] == 0 <==> !f.isDir && i == |Head(f)|)
    ensures f.isDir <==> 0 !in SortKey(f, true)
  {
    KeySplit(f);
    assert !f.isDir ==> SortKey(f, true)[|Head(f)|] == 0;
  }

  lemma MarkPlace(f: FileName, g: FileName)
    requires GoodName(f) && GoodName(g) && !f.isDir && !g.isDir && SortKey(f, true) == SortKey(g, true)
    ensures Head(f) + f.basename == Head(g) + g.basename
  {
    KeySplit(f);
    KeySplit(g);
    ItemHasMark(f);
    ItemHasMark(g);
    hide SortKey, Head;
    var k := SortKey(f, true);
    assert k == Head(f) + ([0] + f.basename) == Head(g) + ([0] + g.basename);
    assert k[|Head(f)|] == 0;
    assert |Head(f)| == |Head(g)|;
    SameHeads(Head(f), f.basename, Head(g), g.basename);
  }

  lemma SameHeads(h1: seq<int>, b1: seq<int>, h2: seq<int>, b2: seq<int>)
    requires h1 + ([0] + b1) == h2 + ([0] + b2) && |h1| == |h2|
    ensures h1 == h2 && b1 == b2
  {
    var k := h1 + ([0] + b1);
    assert k[..|h1|] == h1 && k[..|h2|] == h2;
    assert k[|h1|..] == [0] + b1 && k[|h2|..] == [0] + b2;
    assert ([0] + b1)[1..] == b1 && ([0] + b2)[1..] == b2;
  }

  /** x lies beneath directory d. */
  ghost predicate Beneath(x: FileName, d: FileName) {
    && d.isDir
    && if d.basename == [DOT] then x != d
       else x.dirname.Some? && FullPath(d) + [SLASH] <= Head(x)
  }

  /** What lies beneath a directory is exactly what has the directory's key as a proper prefix. */
  lemma BeneathIsPrefix(x: FileName, d: FileName)
    requires GoodName(x) && GoodName(d) && d.isDir
    ensures Beneath(x, d) <==> SortKey(d, true) < SortKey(x, true)
  {
    KeySplit(x);
    KeySplit(d);
    if IsDotDir(d) {
      if !IsDotDir(x) { NonEmptyKey(x); }
    } else {
      var p := FullPath(d) + [SLASH];
      assert SortKey(d, true) == p;
      var k := SortKey(x, true);
      if Beneath(x, d) {
        assert Leaf(x, true) != [];
        assert p <= k;
      } else if p < k {
        PrefixWithinHead(x, d);
      }
    }
  }

  /** A directory's key that is a proper prefix of a name's key ends within the name's head. */
  lemma PrefixWithinHead(x: FileName, d: FileName)
    requires GoodName(x) && GoodName(d) && d.isDir && !IsDotDir(d)
    requires FullPath(d) + [SLASH] < SortKey(x, true)
    ensures x.dirname.Some? && FullPath(d) + [SLASH] <= Head(x)
  {
    KeySplit(x);
    var p: seq<int> := FullPath(d) + [SLASH];
    var k := SortKey(x, true);
    LeafSlashes(x);
    assert k[|p| - 1] == p[|p| - 1] == SLASH;
    assert p == k[..|p|] == Head(x)[..|p|];
  }

  /** The only slash in a name's leaf is the closing one of a directory. */
  lemma LeafSlashes(x: FileName)
    requires GoodName(x)
    ensures forall i :: |Head(x)| <= i < |SortKey(x, true)| - 1 ==> SortKey(x, true)[i] != SLASH
  {
    KeySplit(x);
  }

  /** A directory sorts before all of its contents, and nothing else comes between them: whatever lies
      between a directory and something beneath it is the directory itself or lies beneath it too. */
  lemma DirectoryBeforeContents(d: FileName, y: FileName, x: FileName)
    requires GoodName(d) && GoodName(y) && GoodName(x) && Beneath(x, d)
    ensures Order(d, x, true) < 0
    ensures Order(d, y, true) <= 0 && Order(y, x, true) <= 0 ==> y == d || Beneath(y, d)
  {
    BeneathIsPrefix(x, d);
    LexPrefix(SortKey(d, true), SortKey(x, true));
    if Order(d, y, true) <= 0 && Order(y, x, true) <= 0 {
      LexBetween(SortKey(d, true), SortKey(y, true), SortKey(x, true));
      BeneathIsPrefix(y, d);
      if SortKey(d, true) == SortKey(y, true) {
        KeyIsName(d, y);
      }
    }
  }
}
