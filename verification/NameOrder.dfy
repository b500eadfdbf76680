/** flist.c: the order of names in a file list. */
module NameOrder {
  import opened Basics
  import opened Lexicographic

  const SLASH: byte := 0x2f
  const DOT: byte := 0x2e

  /** The name of a list entry: a removed entry has an empty basename. */
  datatype FileName = FileName(dirname: Option<bytes>, basename: bytes, isDir: bool)

  predicate IsActive(f: FileName) {
    f.basename != []
  }

  predicate IsDotDir(f: FileName) {
    f.isDir && f.basename == [DOT]
  }

  /** What every name in a list satisfies: no NUL bytes, and "." as a directory only as a whole name. */
  predicate WellFormed(f: FileName) {
    && NulFree(f.basename)
    && (f.dirname.Some? ==> NulFree(f.dirname.value))
    && (IsDotDir(f) ==> f.dirname.None?)
  }

  /** What the names are compared by. From protocol 29 on (`paths`), a directory ends in a slash, "." is
      empty, and a non-directory leaf is marked by a symbol below every byte. */
  function Leaf(f: FileName, paths: bool): seq<int> {
    if !paths then f.basename
    else if !f.isDir then [0] + f.basename
    else if f.basename == [DOT] then []
    else f.basename + [SLASH]
  }

  function SortKey(f: FileName, paths: bool): seq<int> {
    if f.dirname.Some? then f.dirname.value + [SLASH] + Leaf(f, paths) else Leaf(f, paths)
  }

  /** The order of two list entries; removed entries come first. */
  function Order(f1: FileName, f2: FileName, paths: bool): (sign: int)
    ensures -1 <= sign <= 1
  {
    if !IsActive(f1) then if !IsActive(f2) then 0 else -1
    else if !IsActive(f2) then 1
    else LexSign(SortKey(f1, paths), SortKey(f2, paths))
  }

  // ----- the comparison itself

  datatype State = InDir | InSlash | InBase | InTrailing

  datatype Kind = Path | Item

  /** One side of the comparison: what is being read, and the read position in it. */
  datatype Cursor = Cursor(state: State, kind: Kind, str: bytes, at: nat)
  {
    /** The byte under the cursor, 0 at the end of the string. */
    function Cur(): byte
      requires at <= |str|
    {
      if at < |str| then str[at] else 0
    }

    function Skip(): Cursor {
      this.(at := at + 1)
    }
  }

  function LeafKind(f: FileName, paths: bool): Kind {
    if f.isDir && paths then Path else Item
  }

  function EnterBase(f: FileName, paths: bool): Cursor {
    var kind := LeafKind(f, paths);
    if kind == Path && f.basename == [DOT] then Cursor(InTrailing, Item, [], 0)
    else Cursor(InBase, kind, f.basename, 0)
  }

  function Start(f: FileName, skipDir: bool, paths: bool): Cursor {
    if f.dirname.None? || skipDir then EnterBase(f, paths)
    else Cursor(InDir, if paths then Path else Item, f.dirname.value, 0)
  }

  /** At the end of one part of a name: on to the next part. */
  function Advance(c: Cursor, f: FileName, paths: bool): Cursor {
    match c.state
    case InDir => Cursor(InSlash, c.kind, [SLASH], 0)
    case InSlash => EnterBase(f, paths)
    case InBase => if c.kind == Path then Cursor(InTrailing, Path, [SLASH], 0)
                   else Cursor(InTrailing, Item, c.str, c.at)
    case InTrailing => Cursor(InTrailing, Item, c.str, c.at)
  }

  /** No part follows. */
  predicate AtLastPart(c: Cursor) {
    c.state == InTrailing || (c.state == InBase && c.kind == Item)
  }

  ghost predicate Valid(c: Cursor, f: FileName, paths: bool) {
    && c.at <= |c.str| && NulFree(c.str)
    && (c.state == InDir || c.state == InSlash ==> c.kind == if paths then Path else Item)
    && (c.state == InBase ==> c.kind == LeafKind(f, paths))
    && (c.kind == Path ==> paths)
  }

  /** What is still to be compared. */
  ghost function Rest(c: Cursor, f: FileName, paths: bool): seq<int>
    requires c.at <= |c.str|
  {
    var tail: seq<int> := c.str[c.at..];
    match c.state
    case InDir => tail + [SLASH] + Leaf(f, paths)
    case InSlash => tail + Leaf(f, paths)
    case InBase => if c.kind == Path then tail + [SLASH] else tail
    case InTrailing => tail
  }

  /** Whether the next part is a non-directory leaf whose mark has still to be compared. */
  ghost predicate MarkNext(c: Cursor, f: FileName, paths: bool) {
    c.state == InSlash && paths && !f.isDir
  }

  lemma AdvanceRest(c: Cursor, f: FileName, paths: bool)
    requires WellFormed(f) && IsActive(f) && Valid(c, f, paths) && c.at == |c.str|
    requires c.state == InDir || c.state == InSlash ==> f.dirname.Some?
    ensures var c' := Advance(c, f, paths);
      && Valid(c', f, paths)
      && Rest(c, f, paths) == (if MarkNext(c, f, paths) then [0] + Rest(c', f, paths) else Rest(c', f, paths))
      && (AtLastPart(c) <==> Rest(c, f, paths) == [])
      && (AtLastPart(c) ==> c'.at == |c'.str| && c'.kind == Item)
      && (!AtLastPart(c) ==> c'.at == 0 < |c'.str|)
      && (c'.kind != c.kind ==> c.kind == Path && c'.kind == Item)
  {
  }

  function Sign(n: int): int {
    if n < 0 then -1 else if n > 0 then 1 else 0
  }

  /** Kinds that differ: the path side is the greater one. */
  function KindSign(kind1: Kind): int {
    if kind1 == Path then 1 else -1
  }

  /** Both cursors are in step: same kind, and what is left compares as the whole names do. */
  ghost predicate InStep(c1: Cursor, c2: Cursor, f1: FileName, f2: FileName, paths: bool, sign: int) {
    && Valid(c1, f1, paths) && Valid(c2, f2, paths)
    && c1.kind == c2.kind
    && (c1.state == InDir || c1.state == InSlash ==> f1.dirname.Some?)
    && (c2.state == InDir || c2.state == InSlash ==> f2.dirname.Some?)
    && LexSign(Rest(c1, f1, paths), Rest(c2, f2, paths)) == sign
  }

  /** Whether a cursor is at the end of its part. */
  predicate AtEnd(c: Cursor)
    requires c.at <= |c.str|
  {
    c.Cur() == 0
  }

  lemma AtEndMeans(c: Cursor)
    requires c.at <= |c.str| && NulFree(c.str)
    ensures AtEnd(c) <==> c.at == |c.str|
  {
  }

  /** What is left begins with the byte under the cursor, if there is one. */
  lemma RestHead(c: Cursor, f: FileName, paths: bool)
    requires Valid(c, f, paths) && !AtEnd(c)
    ensures Rest(c, f, paths) != [] && Rest(c, f, paths)[0] == c.Cur() > 0
    ensures Valid(c.Skip(), f, paths) && Rest(c.Skip(), f, paths) == Rest(c, f, paths)[1..]
  {
    var tail: seq<int> := c.str[c.at..];
    assert c.str[c.at + 1..] == c.str[c.at..][1..];
    assert (tail + [SLASH] + Leaf(f, paths))[1..] == tail[1..] + [SLASH] + Leaf(f, paths);
    assert (tail + Leaf(f, paths))[1..] == tail[1..] + Leaf(f, paths);
    assert (tail + [SLASH])[1..] == tail[1..] + [SLASH];
  }

  /** Two equal bytes are passed together. */
  lemma SkipBoth(c1: Cursor, c2: Cursor, f1: FileName, f2: FileName, paths: bool, sign: int)
    requires InStep(c1, c2, f1, f2, paths, sign)
    requires !AtEnd(c1) && !AtEnd(c2)
    ensures c1.Cur() == c2.Cur() ==> InStep(c1.Skip(), c2.Skip(), f1, f2, paths, sign)
    ensures c1.at < |c1.str| && c2.at < |c2.str|
    ensures |Rest(c1.Skip(), f1, paths)| < |Rest(c1, f1, paths)|
    ensures c1.Cur() != c2.Cur() ==> sign == Sign(c1.Cur() - c2.Cur())
  {
    RestHead(c1, f1, paths);
    RestHead(c2, f2, paths);
  }

  /** One name is finished and the other is not. */
  lemma OneFinished(c1: Cursor, c2: Cursor, f1: FileName, f2: FileName, paths: bool, sign: int)
    requires WellFormed(f1) && WellFormed(f2) && IsActive(f1) && IsActive(f2)
    requires InStep(c1, c2, f1, f2, paths, sign)
    requires AtEnd(c1) != AtEnd(c2)
    requires AtEnd(c1) ==> AtLastPart(c1)
    requires AtEnd(c2) ==> AtLastPart(c2)
    ensures sign == Sign(c1.Cur() - c2.Cur())
  {
    AtEndMeans(c1);
    AtEndMeans(c2);
    if AtEnd(c1) {
      RestHead(c2, f2, paths);
    } else {
      RestHead(c1, f1, paths);
    }
  }

  /** One side after it has moved on to its next part, if it had to. */
  function MoveOn(c: Cursor, f: FileName, paths: bool): Cursor
    requires c.at <= |c.str|
  {
    if AtEnd(c) then Advance(c, f, paths) else c
  }

  /** Whether moving on passes the mark of an item. */
  ghost predicate PassesMark(c: Cursor, f: FileName, paths: bool)
    requires c.at <= |c.str|
  {
    AtEnd(c) && MarkNext(c, f, paths)
  }

  lemma SideMoved(c: Cursor, f: FileName, paths: bool)
    requires WellFormed(f) && IsActive(f) && Valid(c, f, paths)
    requires c.state == InDir || c.state == InSlash ==> f.dirname.Some?
    ensures var d := MoveOn(c, f, paths);
      && Valid(d, f, paths) && d.at <= |d.str|
      && (d.state == InDir || d.state == InSlash ==> f.dirname.Some?)
      && Rest(c, f, paths) == (if PassesMark(c, f, paths) then [0] else []) + Rest(d, f, paths)
      && (AtEnd(c) && AtLastPart(c) <==> Rest(c, f, paths) == [])
      && (AtEnd(d) ==> AtEnd(c) && AtLastPart(c) && AtLastPart(d))
      && (!AtEnd(d) ==> Rest(d, f, paths) != [] && Rest(d, f, paths)[0] > 0)
  {
    AtEndMeans(c);
    if AtEnd(c) {
      AdvanceRest(c, f, paths);
    } else {
      RestHead(c, f, paths);
    }
    var d := MoveOn(c, f, paths);
    AtEndMeans(d);
    if !AtEnd(d) {
      RestHead(d, f, paths);
    }
  }

  /** How the kind of a side can change: a path becomes an item when the item's mark is passed, or when the
      name is finished. */
  lemma KindMoved(c: Cursor, f: FileName, paths: bool)
    requires WellFormed(f) && IsActive(f) && Valid(c, f, paths)
    requires c.state == InDir || c.state == InSlash ==> f.dirname.Some?
    ensures var d := MoveOn(c, f, paths);
      && (d.kind == c.kind || (c.kind == Path && d.kind == Item))
      && (!AtEnd(c) ==> d == c)
      && (d.kind == Path ==> !PassesMark(c, f, paths) && !AtEnd(d))
      && (d.kind == Item && c.kind == Path ==> PassesMark(c, f, paths) || Rest(c, f, paths) == [])
      && (c.kind == Item && paths ==> !PassesMark(c, f, paths))
      && (!paths ==> !PassesMark(c, f, paths))
  {
    AtEndMeans(c);
    if AtEnd(c) {
      AdvanceRest(c, f, paths);
    }
    AtEndMeans(MoveOn(c, f, paths));
  }

  /** What marks do to the comparison. */
  lemma MarksCompare(m1: bool, m2: bool, a: seq<int>, b: seq<int>)
    ensures var x, y := (if m1 then [0] else []) + a, (if m2 then [0] else []) + b;
      && (m1 == m2 ==> LexSign(x, y) == LexSign(a, b))
      && (!m1 && a != [] && a[0] > 0 && (m2 || y == []) ==> LexSign(x, y) == 1)
      && (!m2 && b != [] && b[0] > 0 && (m1 || x == []) ==> LexSign(x, y) == -1)
      && (m1 && !m2 && a != [] && b == [] ==> LexSign(x, y) == LexSign(a, b))
      && (!m1 && m2 && a == [] && b != [] ==> LexSign(x, y) == LexSign(a, b))
      && (x == [] && y == [] ==> LexSign(x, y) == 0)
  {
    assert [] + a == a && [] + b == b;
    assert ([0] + a)[1..] == a && ([0] + b)[1..] == b;
  }

  /** The cursors after both sides have moved on to their next part where they had to: either the kinds
      now differ, or both names are finished, or the cursors are in step again and on a byte, unless
      one of the names is finished. */
  lemma BothAdvanced(c1: Cursor, c2: Cursor, d1: Cursor, d2: Cursor,
                     f1: FileName, f2: FileName, paths: bool, sign: int)
    requires WellFormed(f1) && WellFormed(f2) && IsActive(f1) && IsActive(f2)
    requires InStep(c1, c2, f1, f2, paths, sign)
    requires d1 == if AtEnd(c1) then Advance(c1, f1, paths) else c1
    requires d2 == if AtEnd(c2) then Advance(c2, f2, paths) else c2
    ensures d1.at <= |d1.str| && d2.at <= |d2.str|
    ensures !AtEnd(c1) && !AtEnd(c2) ==> d1.kind == d2.kind
    ensures d1.kind != d2.kind ==> sign == KindSign(d1.kind)
    ensures AtEnd(d1) ==> AtEnd(c1) && AtLastPart(c1) && AtLastPart(d1)
    ensures AtEnd(c1) && AtLastPart(c1) && AtEnd(c2) && AtLastPart(c2) ==> sign == 0
    ensures d1.kind == d2.kind && !(AtEnd(d1) && AtEnd(d2)) ==> InStep(d1, d2, f1, f2, paths, sign)
    ensures AtEnd(d2) ==> AtEnd(c2) && AtLastPart(c2) && AtLastPart(d2)
    ensures |Rest(d1, f1, paths)| <= |Rest(c1, f1, paths)|
  {
    hide Advance, Rest, LexSign, WellFormed, NulFree, PassesMark, AtLastPart;
    assert d1 == MoveOn(c1, f1, paths) && d2 == MoveOn(c2, f2, paths);
    SideMoved(c1, f1, paths);
    SideMoved(c2, f2, paths);
    KindMoved(c1, f1, paths);
    KindMoved(c2, f2, paths);
    MarksCompare(PassesMark(c1, f1, paths), PassesMark(c2, f2, paths), Rest(d1, f1, paths), Rest(d2, f2, paths));
  }

  /** Compares two names the way strcmp would compare the joined strings, part by part. `sharedDir` says
      that both entries point to the very same dirname. */
  method FNameCmp(f1: FileName, f2: FileName, sharedDir: bool, paths: bool) returns (dif: int)
    requires WellFormed(f1) && WellFormed(f2)
    requires sharedDir ==> f1.dirname == f2.dirname
    ensures Sign(dif) == Order(f1, f2, paths)
  {
    if !IsActive(f1) {
      return if !IsActive(f2) then 0 else -1;
    }
    if !IsActive(f2) {
      return 1;
    }
    dif := CompareActive(f1, f2, sharedDir, paths);
  }

  /** The comparison of two active entries. */
  method CompareActive(f1: FileName, f2: FileName, sharedDir: bool, paths: bool) returns (dif: int)
    requires WellFormed(f1) && WellFormed(f2) && IsActive(f1) && IsActive(f2)
    requires sharedDir ==> f1.dirname == f2.dirname
    ensures Sign(dif) == Order(f1, f2, paths)
  {
    hide InStep, Valid, Advance, Rest, LexSign, SortKey, Order, Leaf, Start, EnterBase, WellFormed, NulFree;
    var c1, c2 := Start(f1, sharedDir, paths), Start(f2, sharedDir, paths);
    StartInStep(f1, f2, sharedDir, paths);
    if c1.kind != c2.kind {
      return if c1.kind == Path then 1 else -1;
    }
    ghost var sign := Order(f1, f2, paths);
    while true
      invariant c1.at <= |c1.str| && c2.at <= |c2.str|
      invariant InStep(c1, c2, f1, f2, paths, sign)
      decreases |Rest(c1, f1, paths)|
    {
      ghost var d1 := if AtEnd(c1) then Advance(c1, f1, paths) else c1;
      ghost var d2 := if AtEnd(c2) then Advance(c2, f2, paths) else c2;
      BothAdvanced(c1, c2, d1, d2, f1, f2, paths, sign);
      if AtEnd(c1) {
        c1 := Advance(c1, f1, paths);
        if c2.Cur() != 0 && c1.kind != c2.kind {
          return if c1.kind == Path then 1 else -1;
        }
      }
      if AtEnd(c2) {
        if AtLastPart(c2) && c1.Cur() == 0 {
          return 0;
        }
        c2 := Advance(c2, f2, paths);
        if c1.kind != c2.kind {
          return if c1.kind == Path then 1 else -1;
        }
      }
      assert c1 == d1 && c2 == d2;
      dif := c1.Cur() - c2.Cur();
      if !AtEnd(d1) && !AtEnd(d2) {
        SkipBoth(d1, d2, f1, f2, paths, sign);
      } else {
        OneFinished(d1, d2, f1, f2, paths, sign);
      }
      if dif != 0 {
        return;
      }
      c1, c2 := c1.Skip(), c2.Skip();
    }
  }

  lemma StartInStep(f1: FileName, f2: FileName, sharedDir: bool, paths: bool)
    requires WellFormed(f1) && WellFormed(f2) && IsActive(f1) && IsActive(f2)
    requires sharedDir ==> f1.dirname == f2.dirname
    ensures var c1, c2 := Start(f1, sharedDir, paths), Start(f2, sharedDir, paths);
      && c1.at <= |c1.str| && c2.at <= |c2.str|
      && if c1.kind == c2.kind then InStep(c1, c2, f1, f2, paths, Order(f1, f2, paths))
         else Order(f1, f2, paths) == KindSign(c1.kind)
  {
    if sharedDir && f1.dirname.Some? {
      LexCommon(f1.dirname.value + [SLASH], Leaf(f1, paths), Leaf(f2, paths));
    }
    StartRest(f1, sharedDir, paths);
    StartRest(f2, sharedDir, paths);
  }

  /** What a cursor starts with: the whole key, or just the leaf, less the mark of an item. */
  lemma StartRest(f: FileName, skipDir: bool, paths: bool)
    requires WellFormed(f) && IsActive(f)
    ensures var c := Start(f, skipDir, paths);
      && Valid(c, f, paths)
      && (f.dirname.Some? && !skipDir ==>
            Rest(c, f, paths) == SortKey(f, paths) && SortKey(f, paths)[0] > 0)
      && (f.dirname.None? || skipDir ==>
            Leaf(f, paths) == if paths && !f.isDir then [0] + Rest(c, f, paths) else Rest(c, f, paths))
      && (Leaf(f, paths) != [] && (f.isDir || !paths) ==> Leaf(f, paths)[0] > 0)
  {
    if f.dirname.Some? {
      var d: seq<int> := f.dirname.value;
      assert d[0..] == d;
    }
    assert f.basename[0..] == f.basename;
  }
}
