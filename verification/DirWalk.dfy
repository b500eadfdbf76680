/** flist.c: incremental recursion. The sender walks a tree of directories that it finds as it goes, without
    a stack, over links to parent, first child and next sibling. */
module DirWalk {
  import opened Basics

  /** A directory in a sorted file list; a second one of the same name is marked as a duplicate. */
  datatype DirEntry = DirEntry(id: nat, dot: bool, duplicate: bool)

  /** What comes of scanning some directories for one file list: how many files, and the directories. */
  datatype Scanned = Scanned(files: nat, listing: seq<DirEntry>)

  /** A part of the tree: the directories of one name, the files they hold, and what is below them. */
  datatype Group = Group(ids: seq<nat>, files: nat, children: seq<Group>)

  function EntriesFrom(ids: seq<nat>, duplicate: bool): (es: seq<DirEntry>)
    ensures |es| == |ids|
  {
    if ids == [] then [] else [DirEntry(ids[0], false, duplicate)] + EntriesFrom(ids[1..], true)
  }

  /** The directories of some groups, in list order. */
  function Flat(gs: seq<Group>): seq<DirEntry> {
    if gs == [] then [] else EntriesFrom(gs[0].ids, false) + Flat(gs[1..])
  }

  function NoDots(es: seq<DirEntry>): seq<DirEntry> {
    if es == [] then [] else (if es[0].dot then [] else [es[0]]) + NoDots(es[1..])
  }

  /** Scanning the disk gives this part of the tree. */
  ghost predicate Fits(scan: seq<nat> -> Scanned, gs: seq<Group>) {
    gs == [] ||
    (&& gs[0].ids != [] && scan(gs[0].ids).files == gs[0].files
     && NoDots(scan(gs[0].ids).listing) == Flat(gs[0].children)
     && Fits(scan, gs[0].children) && Fits(scan, gs[1..]))
  }

  /** One file list: the directories it is for, and how deep they are. */
  datatype Sent = Sent(ids: seq<nat>, depth: int)

  /** Every group once, each before what is below it, and that before its next sibling. */
  function PreOrder(gs: seq<Group>, depth: int): seq<Sent> {
    if gs == [] then []
    else [Sent(gs[0].ids, depth)] + (PreOrder(gs[0].children, depth + 1) + PreOrder(gs[1..], depth))
  }

  /** How many files are in some lists. */
  function FilesIn(scan: seq<nat> -> Scanned, lists: seq<Sent>): int {
    if lists == [] then 0
    else FilesIn(scan, lists[..|lists| - 1]) + scan(lists[|lists| - 1].ids).files
  }

  lemma FilesInNext(scan: seq<nat> -> Scanned, before: seq<Sent>, more: seq<Sent>, list: Sent)
    ensures (before + more + [list])[|before|..] == more + [list]
    ensures FilesIn(scan, more + [list]) == FilesIn(scan, more) + scan(list.ids).files
  {
    assert (more + [list])[..|more|] == more;
  }

  function Size(gs: seq<Group>): nat {
    if gs == [] then 0 else 1 + Size(gs[0].children) + Size(gs[1..])
  }

  // ----- where a list stands in the pre-order

  /** A way down the tree: the place among its siblings of a group, and of each group on the way to it. */
  ghost predicate IsPath(gs: seq<Group>, path: seq<nat>) {
    path != [] && path[0] < |gs| && (|path| > 1 ==> IsPath(gs[path[0]].children, path[1..]))
  }

  ghost function GroupAt(gs: seq<Group>, path: seq<nat>): Group
    requires IsPath(gs, path)
  {
    if |path| == 1 then gs[path[0]] else GroupAt(gs[path[0]].children, path[1..])
  }

  /** How many lists come before that of a group. */
  ghost function Place(gs: seq<Group>, path: seq<nat>): nat
    requires IsPath(gs, path)
  {
    Size(gs[..path[0]]) + if |path| == 1 then 0 else 1 + Place(gs[path[0]].children, path[1..])
  }

  /** What is above another group, or branches off to the left of the way to it. */
  predicate Earlier(p: seq<nat>, q: seq<nat>) {
    q != [] && (p == [] || p[0] < q[0] || (p[0] == q[0] && Earlier(p[1..], q[1..])))
  }

  lemma OneGroup(gs: seq<Group>, depth: int)
    requires gs != []
    ensures PreOrder(gs, depth)
      == ([Sent(gs[0].ids, depth)] + PreOrder(gs[0].children, depth + 1)) + PreOrder(gs[1..], depth)
    ensures Size(gs) == 1 + Size(gs[0].children) + Size(gs[1..])
    ensures Size(gs[..0]) == 0
  {
    AppendAssoc([Sent(gs[0].ids, depth)], PreOrder(gs[0].children, depth + 1), PreOrder(gs[1..], depth));
  }

  /** The lists of one group and of what is beneath it stand together, behind those of the groups before it. */
  lemma {:induction false} PreOrderSplit(gs: seq<Group>, n: nat, depth: int)
    requires n < |gs|
    ensures Size(gs[..n + 1]) == Size(gs[..n]) + 1 + Size(gs[n].children) <= Size(gs)
    ensures |PreOrder(gs, depth)| == Size(gs) && |PreOrder(gs[n].children, depth + 1)| == Size(gs[n].children)
    ensures var at := Size(gs[..n]);
      PreOrder(gs, depth)[at..at + 1 + Size(gs[n].children)]
        == [Sent(gs[n].ids, depth)] + PreOrder(gs[n].children, depth + 1)
    decreases gs
  {
    hide PreOrder, Size;
    OneGroup(gs, depth);
    SizeIs(gs, depth);
    SizeIs(gs[n].children, depth + 1);
    SizeIs(gs[0].children, depth + 1);
    SizeIs(gs[1..], depth);
    OneGroup(gs[..n + 1], depth);
    var head, rest := [Sent(gs[0].ids, depth)] + PreOrder(gs[0].children, depth + 1), PreOrder(gs[1..], depth);
    if n == 0 {
      assert gs[..1][1..] == gs[..0];
      OneGroup(gs, depth);
      assert (head + rest)[0..|head|] == head;
    } else {
      PreOrderSplit(gs[1..], n - 1, depth);
      OneGroup(gs[..n], depth);
      assert gs[..n][1..] == gs[1..][..n - 1] && gs[..n + 1][1..] == gs[1..][..n];
      var at, k := Size(gs[1..][..n - 1]), 1 + Size(gs[n].children);
      SliceRight(head, rest, |head| + at, |head| + at + k);
    }
  }

  lemma {:induction false} SizeIs(gs: seq<Group>, depth: int)
    ensures |PreOrder(gs, depth)| == Size(gs)
    decreases gs
  {
    if gs != [] {
      SizeIs(gs[0].children, depth + 1);
      SizeIs(gs[1..], depth);
    }
  }

  /** There is one list for every group, and its depth is how far down the tree the group is. */
  lemma {:induction false} ListOfGroup(gs: seq<Group>, path: seq<nat>, depth: int)
    requires IsPath(gs, path)
    ensures Place(gs, path) < |PreOrder(gs, depth)| == Size(gs)
    ensures PreOrder(gs, depth)[Place(gs, path)] == Sent(GroupAt(gs, path).ids, depth + |path| - 1)
    decreases |path|
  {
    hide PreOrder, Size;
    var n := path[0];
    PreOrderSplit(gs, n, depth);
    var at, k := Size(gs[..n]), 1 + Size(gs[n].children);
    var i := 0;
    if |path| > 1 {
      ListOfGroup(gs[n].children, path[1..], depth + 1);
      i := 1 + Place(gs[n].children, path[1..]);
    }
    InPart(PreOrder(gs, depth), at, k, Sent(gs[n].ids, depth), PreOrder(gs[n].children, depth + 1), i);
  }

  lemma InPart(all: seq<Sent>, at: nat, k: nat, first: Sent, more: seq<Sent>, i: nat)
    requires at + k <= |all| && k == 1 + |more| && i < k && all[at..at + k] == [first] + more
    ensures all[at + i] == if i == 0 then first else more[i - 1]
  {
    assert all[at..at + k][i] == all[at + i];
  }

  /** A group's list comes before those of what is beneath it, and these before those of the groups behind it. */
  lemma {:induction false} ListsInOrder(gs: seq<Group>, p: seq<nat>, q: seq<nat>)
    requires IsPath(gs, p) && IsPath(gs, q) && Earlier(p, q)
    ensures Place(gs, p) < Place(gs, q)
    decreases |p|
  {
    hide PreOrder, Size;
    var n := p[0];
    PreOrderSplit(gs, n, 0);
    if n < q[0] {
      if |p| > 1 {
        ListOfGroup(gs[n].children, p[1..], 0);
      }
      SizeGrows(gs[..q[0]], n + 1);
      assert gs[..q[0]][..n + 1] == gs[..n + 1];
    } else if |p| > 1 {
      assert |q| > 1;
      ListsInOrder(gs[n].children, p[1..], q[1..]);
    }
  }

  lemma {:induction false} SizeGrows(gs: seq<Group>, n: nat)
    requires n <= |gs|
    ensures Size(gs[..n]) <= Size(gs)
    decreases gs
  {
    if n > 0 {
      SizeGrows(gs[1..], n - 1);
      assert gs[..n][1..] == gs[1..][..n - 1];
    }
  }

  // ----- the linked directories

  datatype Node = Node(entry: DirEntry, parent: int, firstChild: int, nextSibling: int)

  /** From `at` on, siblings that have not been visited: just these directories, at rising places from lo
      up to hi. */
  ghost predicate Linked(nodes: seq<Node>, at: int, es: seq<DirEntry>, parent: int, lo: int, hi: int)
    decreases |es|
  {
    if es == [] then at == -1
    else
      && 0 <= lo <= at < hi <= |nodes|
      && nodes[at].entry == es[0] && nodes[at].parent == parent && nodes[at].firstChild == -1
      && Linked(nodes, nodes[at].nextSibling, es[1..], parent, at + 1, hi)
  }

  /** Places outside do not matter. */
  lemma {:induction false} LinkedFrame(nodes: seq<Node>, nodes': seq<Node>, at: int, es: seq<DirEntry>,
                                      parent: int, lo: int, hi: int)
    requires Linked(nodes, at, es, parent, lo, hi) && |nodes'| >= |nodes|
    requires forall i :: 0 <= i < |nodes| && lo <= i < hi ==> nodes'[i] == nodes[i]
    ensures Linked(nodes', at, es, parent, lo, hi)
    decreases |es|
  {
    if es != [] {
      LinkedFrame(nodes, nodes', nodes[at].nextSibling, es[1..], parent, at + 1, hi);
    }
  }

  lemma {:induction false} LinkedHigher(nodes: seq<Node>, at: int, es: seq<DirEntry>, parent: int, lo: int,
                                       hi: int, hi': int)
    requires Linked(nodes, at, es, parent, lo, hi) && hi <= hi' <= |nodes|
    ensures Linked(nodes, at, es, parent, lo, hi')
    decreases |es|
  {
    if es != [] {
      LinkedHigher(nodes, nodes[at].nextSibling, es[1..], parent, at + 1, hi, hi');
    }
  }

  /** The last of linked siblings is at `last`. */
  ghost predicate EndsAt(nodes: seq<Node>, at: int, es: seq<DirEntry>, last: int)
    decreases |es|
  {
    es != [] && 0 <= at < |nodes| &&
    if |es| == 1 then at == last else at < last && EndsAt(nodes, nodes[at].nextSibling, es[1..], last)
  }

  lemma {:induction false} EndsFrame(nodes: seq<Node>, nodes': seq<Node>, at: int, es: seq<DirEntry>,
                                    parent: int, lo: int, hi: int, last: int)
    requires Linked(nodes, at, es, parent, lo, hi) && EndsAt(nodes, at, es, last) && |nodes'| >= |nodes|
    requires forall i :: 0 <= i < |nodes| && lo <= i < hi ==> nodes'[i] == nodes[i]
    ensures EndsAt(nodes', at, es, last)
    decreases |es|
  {
    if |es| > 1 {
      EndsFrame(nodes, nodes', nodes[at].nextSibling, es[1..], parent, at + 1, hi, last);
    }
  }

  /** The nodes after a new sibling has been added behind the last one. */
  function Joined(nodes: seq<Node>, last: int, e: DirEntry, parent: int): seq<Node>
    requires 0 <= last < |nodes|
  {
    nodes[last := nodes[last].(nextSibling := |nodes|)] + [Node(e, parent, -1, -1)]
  }

  /** One more sibling at the end. */
  lemma {:induction false} LinkMore(nodes: seq<Node>, at: int, es: seq<DirEntry>, parent: int, lo: int, e: DirEntry,
                                   last: int)
    requires Linked(nodes, at, es, parent, lo, |nodes|) && EndsAt(nodes, at, es, last) && last < |nodes|
    ensures Linked(Joined(nodes, last, e, parent), at, es + [e], parent, lo, |nodes| + 1)
    ensures EndsAt(Joined(nodes, last, e, parent), at, es + [e], |nodes|)
    decreases |es|
  {
    var nodes' := Joined(nodes, last, e, parent);
    assert (es + [e])[1..] == es[1..] + [e];
    if |es| == 1 {
      assert (es + [e])[1..] == [e];
      assert [e][1..] == [];
      assert Linked(nodes', |nodes|, [e], parent, at + 1, |nodes'|);
    } else {
      LinkMore(nodes, nodes[at].nextSibling, es[1..], parent, at + 1, e, last);
    }
  }

  /** The first sibling. */
  lemma LinkFirst(nodes: seq<Node>, parent: int, lo: int, e: DirEntry)
    requires 0 <= lo <= |nodes|
    ensures Linked(nodes + [Node(e, parent, -1, -1)], |nodes|, [e], parent, lo, |nodes| + 1)
    ensures EndsAt(nodes + [Node(e, parent, -1, -1)], |nodes|, [e], |nodes|)
  {
  }

  lemma {:induction false} NoDotsNext(es: seq<DirEntry>, e: DirEntry)
    ensures NoDots(es + [e]) == NoDots(es) + if e.dot then [] else [e]
  {
    if es == [] {
      assert es + [e] == [e];
      assert NoDots([e]) == (if e.dot then [] else [e]) + NoDots([]);
    } else {
      assert (es + [e])[1..] == es[1..] + [e];
      NoDotsNext(es[1..], e);
      AppendAssoc(if es[0].dot then [] else [es[0]], NoDots(es[1..]), if e.dot then [] else [e]);
    }
  }

  /** The nodes with the chain closed behind its last node so far. */
  function Closed(nodes: seq<Node>, dp: int): seq<Node> {
    if 0 <= dp < |nodes| then nodes[dp := nodes[dp].(nextSibling := -1)] else nodes
  }

  /** The chain that is being built: these siblings, of which dp is the last one. */
  ghost predicate Building(nodes: seq<Node>, first: int, es: seq<DirEntry>, parent: int, lo: int, dp: int) {
    && 0 <= lo <= |nodes| && dp < |nodes|
    && if es == [] then first == -1 && dp == -1
       else dp >= lo && Linked(Closed(nodes, dp), first, es, parent, lo, |nodes|)
            && EndsAt(Closed(nodes, dp), first, es, dp)
  }

  /** A "." is listed but not linked. */
  lemma BuildDot(nodes: seq<Node>, first: int, es: seq<DirEntry>, parent: int, lo: int, dp: int, x: Node)
    requires Building(nodes, first, es, parent, lo, dp)
    ensures Building(nodes + [x], first, es, parent, lo, dp)
  {
    if es != [] {
      var v := Closed(nodes, dp);
      assert Closed(nodes + [x], dp) == v + [x];
      LinkedFrame(v, v + [x], first, es, parent, lo, |nodes|);
      EndsFrame(v, v + [x], first, es, parent, lo, |nodes|, dp);
      LinkedHigher(v + [x], first, es, parent, lo, |nodes|, |nodes| + 1);
    }
  }

  /** The next directory is linked behind the last one. */
  lemma BuildNext(nodes: seq<Node>, first: int, es: seq<DirEntry>, parent: int, lo: int, dp: int, e: DirEntry,
                  nodes': seq<Node>, next: int)
    requires Building(nodes, first, es, parent, lo, dp)
    requires |nodes'| == |nodes| + 1 && nodes'[|nodes|] == Node(e, parent, -1, next)
    requires forall i :: lo <= i < |nodes| && i != dp ==> nodes'[i] == nodes[i]
    requires dp >= 0 ==> nodes'[dp] == nodes[dp].(nextSibling := |nodes|)
    ensures Building(nodes', if es == [] then |nodes| else first, es + [e], parent, lo, |nodes|)
  {
    var k := |nodes|;
    var v, v' := Closed(nodes, dp), Closed(nodes', k);
    var first' := if es == [] then k else first;
    var j: seq<Node>;
    if es == [] {
      assert es + [e] == [e];
      LinkFirst(nodes, parent, lo, e);
      j := nodes + [Node(e, parent, -1, -1)];
    } else {
      LinkMore(v, first, es, parent, lo, e, dp);
      j := Joined(v, dp, e, parent);
    }
    assert forall i :: lo <= i < k + 1 ==> v'[i] == j[i];
    LinkedFrame(j, v', first', es + [e], parent, lo, k + 1);
    EndsFrame(j, v', first', es + [e], parent, lo, k + 1, k);
  }

  // ----- the way back

  /** Where the walk has come down: the last directory of the group on the way, the groups that follow it,
      and a place above which nothing of its level lies. */
  datatype Trail = Bottom | Above(node: int, rest: seq<Group>, hi: int, below: Trail)
  {
    function Top(): int {
      if Bottom? then -1 else node
    }

    function Height(): nat {
      if Bottom? then 0 else 1 + below.Height()
    }

    function Rest(depth: int): seq<Sent> {
      if Bottom? then [] else PreOrder(rest, depth) + below.Rest(depth - 1)
    }

    function RestSize(): nat {
      if Bottom? then 0 else Size(rest) + below.RestSize()
    }
  }

  /** The trail is where the links say, below place lo. */
  ghost predicate TrailOk(nodes: seq<Node>, scan: seq<nat> -> Scanned, trail: Trail, lo: int) {
    trail.Bottom? ||
    (&& 0 <= trail.node < trail.hi <= lo <= |nodes|
     && nodes[trail.node].parent == trail.below.Top()
     && Linked(nodes, nodes[trail.node].nextSibling, Flat(trail.rest), trail.below.Top(), trail.node + 1, trail.hi)
     && Fits(scan, trail.rest)
     && TrailOk(nodes, scan, trail.below, trail.node))
  }

  lemma {:induction false} TrailFrame(nodes: seq<Node>, nodes': seq<Node>, scan: seq<nat> -> Scanned, trail: Trail,
                                     lo: int)
    requires TrailOk(nodes, scan, trail, lo) && |nodes'| >= |nodes|
    requires forall i :: 0 <= i < |nodes| && i < lo ==> nodes'[i] == nodes[i]
    ensures TrailOk(nodes', scan, trail, lo)
    decreases trail
  {
    if trail.Above? {
      LinkedFrame(nodes, nodes', nodes[trail.node].nextSibling, Flat(trail.rest), trail.below.Top(),
                  trail.node + 1, trail.hi);
      TrailFrame(nodes, nodes', scan, trail.below, trail.node);
    }
  }

  lemma TrailHigher(nodes: seq<Node>, scan: seq<nat> -> Scanned, trail: Trail, lo: int, lo': int)
    requires TrailOk(nodes, scan, trail, lo) && lo <= lo' <= |nodes|
    ensures TrailOk(nodes, scan, trail, lo')
  {
  }

  // ----- the walk

  class Walker {
    const scan: seq<nat> -> Scanned
    /** The list of all directories found, with their links. */
    var nodes: seq<Node>
    var sendDirNdx: int
    var sendDirDepth: int
    var fileTotal: nat
    var flistEof: bool
    /** The file lists sent so far. */
    var sent: seq<Sent>

    /** The groups that follow at this level, the current one first, and the trail to them. */
    ghost var gs: seq<Group>
    ghost var trail: Trail
    /** All file lists of the whole tree. */
    ghost const all: seq<Sent>

    /** add_dirs_to_tree: puts the directories of a new list behind all others, and links them to each other
        and to their parent. */
    method AddDirs(parent: int, listing: seq<DirEntry>) returns (ghost first: int)
      requires -1 <= parent < |nodes| && (parent >= 0 ==> nodes[parent].firstChild == -1)
      modifies this`nodes, this`sendDirNdx
      ensures |nodes| >= old(|nodes|)
      ensures Linked(nodes, first, NoDots(listing), parent, old(|nodes|), |nodes|)
      ensures forall i :: 0 <= i < old(|nodes|) && i != parent ==> nodes[i] == old(nodes[i])
      ensures parent >= 0 ==> nodes[parent] == old(nodes[parent]).(firstChild := first) && sendDirNdx == old(sendDirNdx)
      ensures parent < 0 && first >= 0 ==> sendDirNdx == first
      ensures parent < 0 && first < 0 ==> sendDirNdx == old(sendDirNdx)
    {
      hide Linked, EndsAt, NoDots;
      ghost var n0 := |nodes|;
      var dp, i := -1, 0;
      first := -1;
      assert listing[..0] == [];
      NoneListed();
      while i < |listing|
        invariant 0 <= i <= |listing| && -1 <= dp < |nodes| && n0 <= |nodes| && parent < n0
        invariant dp >= 0 ==> dp >= n0
        invariant Building(nodes, first, NoDots(listing[..i]), parent, n0, dp)
        invariant forall j :: 0 <= j < n0 && j != parent ==> nodes[j] == old(nodes[j])
        invariant parent >= 0 ==> nodes[parent] == old(nodes[parent]).(firstChild := first)
        invariant parent >= 0 ==> sendDirNdx == old(sendDirNdx)
        invariant parent < 0 ==> sendDirNdx == if first >= 0 then first else old(sendDirNdx)
        invariant dp == -1 <==> NoDots(listing[..i]) == []
        invariant first >= 0 <==> dp >= 0
      {
        var file := listing[i];
        ghost var es := NoDots(listing[..i]);
        assert listing[..i + 1] == listing[..i] + [file];
        NoDotsNext(listing[..i], file);
        ghost var was := nodes;
        var k := |nodes|;
        nodes := nodes + [Node(file, 0, 0, 0)];
        i := i + 1;
        if file.dot {
          BuildDot(was, first, es, parent, n0, dp, Node(file, 0, 0, 0));
          assert es + [] == es;
          continue;
        }
        if dp >= 0 {
          nodes := nodes[dp := nodes[dp].(nextSibling := k)];
        } else if parent >= 0 {
          nodes := nodes[parent := nodes[parent].(firstChild := k)];
        } else {
          sendDirNdx := k;
        }
        nodes := nodes[k := nodes[k].(parent := parent, firstChild := -1)];
        BuildNext(was, first, es, parent, n0, dp, file, nodes, 0);
        if dp < 0 {
          first := k;
        }
        dp := k;
      }
      assert listing[..|listing|] == listing;
      if dp >= 0 {
        nodes := nodes[dp := nodes[dp].(nextSibling := -1)];
      } else {
        NoneLinked(nodes, parent, n0);
      }
    }

    /** Between calls: unless the end has been announced, the walk stands at the first of some sibling groups,
        the trail says where it has come down, and what has been sent and what is to come make up the
        whole. */
    ghost predicate Valid()
      reads this
    {
      if flistEof then sent == all
      else
        && gs != [] && Fits(scan, gs)
        && Linked(nodes, sendDirNdx, Flat(gs), trail.Top(), sendDirNdx, |nodes|)
        && TrailOk(nodes, scan, trail, sendDirNdx)
        && sendDirDepth == 1 + trail.Height()
        && all == sent + (PreOrder(gs, sendDirDepth) + trail.Rest(sendDirDepth - 1))
    }

    /** How many file lists are still to be sent. */
    ghost function Work(): nat
      reads this
    {
      if flistEof then 0 else Size(gs) + trail.RestSize()
    }

    /** The end of send_file_list: the directories of the first list are the top of the tree. */
    constructor (scan: seq<nat> -> Scanned, listing: seq<DirEntry>, ghost top: seq<Group>)
      requires Fits(scan, top) && NoDots(listing) == Flat(top)
      ensures Valid() && all == PreOrder(top, 1) && this.scan == scan && sent == []
    {
      this.scan := scan;
      all := PreOrder(top, 1);
      nodes, sendDirNdx, sendDirDepth, fileTotal, flistEof, sent := [], -1, 1, 0, false, [];
      gs, trail := top, Bottom;
      new;
      ghost var first := AddDirs(-1, listing);
      assert [] + (PreOrder(gs, 1) + []) == PreOrder(gs, 1);
      StartOf(nodes, first, gs, -1, 0);
      if sendDirNdx < 0 {
        flistEof := true;
      } else {
        LinkedHere(nodes, first, Flat(gs), -1, 0);
      }
    }

    /** The directories of one name, which are sent in one list; stops at the last of them. */
    method CollectGroup() returns (ids: seq<nat>, last: nat)
      requires Valid() && !flistEof
      ensures ids == gs[0].ids && sendDirNdx <= last < |nodes|
      ensures nodes[last].parent == trail.Top() && nodes[last].firstChild == -1
      ensures Linked(nodes, nodes[last].nextSibling, Flat(gs[1..]), trail.Top(), last + 1, |nodes|)
    {
      hide TrailOk, Fits, Flat, EntriesFrom, PreOrder, Linked;
      FitsFacts(scan, gs);
      GroupStart(nodes, sendDirNdx, gs, trail.Top());
      var dp: nat := sendDirNdx;
      ids := [nodes[dp].entry.id];
      ghost var more := gs[0].ids[1..];
      while nodes[dp].nextSibling >= 0 && NextIsDuplicate(dp)
        invariant sendDirNdx <= dp < |nodes| && nodes[dp].parent == trail.Top() && nodes[dp].firstChild == -1
        invariant ids + more == gs[0].ids
        invariant Linked(nodes, nodes[dp].nextSibling, EntriesFrom(more, true) + Flat(gs[1..]), trail.Top(),
                         dp + 1, |nodes|)
        decreases |nodes| - dp
      {
        DuplicateNext(nodes, nodes[dp].nextSibling, more, gs[1..], scan, trail.Top(), dp + 1);
        dp := nodes[dp].nextSibling;
        ids := ids + [nodes[dp].entry.id];
        more := more[1..];
      }
      DuplicateNext(nodes, nodes[dp].nextSibling, more, gs[1..], scan, trail.Top(), dp + 1);
      NoMore(gs[1..]);
      assert ids + [] == ids;
      last := dp;
    }

    predicate NextIsDuplicate(dp: nat)
      requires dp < |nodes|
      reads this
    {
      0 <= nodes[dp].nextSibling < |nodes| && nodes[nodes[dp].nextSibling].entry.duplicate
    }

    /** Goes back up to the next directory with a sibling that has not been visited, or to the end. */
    method Climb(last: nat, ghost rest: seq<Group>, ghost hi: int)
      requires !flistEof && last < |nodes| && nodes[last].parent == trail.Top() && Fits(scan, rest)
      requires Linked(nodes, nodes[last].nextSibling, Flat(rest), trail.Top(), last + 1, hi) && last < hi <= |nodes|
      requires TrailOk(nodes, scan, trail, last) && sendDirDepth == 1 + trail.Height()
      requires all == sent + (PreOrder(rest, sendDirDepth) + trail.Rest(sendDirDepth - 1))
      modifies this
      ensures Valid() && sent == old(sent) && fileTotal == old(fileTotal)
      ensures Work() == Size(rest) + old(trail).RestSize()
    {
      hide Fits, Flat, PreOrder, Size, Linked, TrailOk;
      var dp: nat := last;
      ghost var rs, top := rest, hi;
      while nodes[dp].nextSibling < 0
        invariant !flistEof && nodes == old(nodes) && sent == old(sent) && fileTotal == old(fileTotal)
        invariant dp < |nodes| && nodes[dp].parent == trail.Top() && Fits(scan, rs)
        invariant Linked(nodes, nodes[dp].nextSibling, Flat(rs), trail.Top(), dp + 1, top) && dp < top <= |nodes|
        invariant TrailOk(nodes, scan, trail, dp) && sendDirDepth == 1 + trail.Height()
        invariant all == sent + (PreOrder(rs, sendDirDepth) + trail.Rest(sendDirDepth - 1))
        invariant Size(rs) + trail.RestSize() == Size(rest) + old(trail).RestSize()
        decreases trail
      {
        FitsHead(scan, rs);
        StartOf(nodes, nodes[dp].nextSibling, rs, trail.Top(), dp + 1);
        NoChildren(rs, sendDirDepth, []);
        sendDirNdx := nodes[dp].parent;
        TrailTop(nodes, scan, trail, dp);
        if sendDirNdx < 0 {
          assert sent + [] == sent;
          flistEof := true;
          return;
        }
        sendDirDepth := sendDirDepth - 1;
        dp := sendDirNdx;
        rs, top, trail := trail.rest, trail.hi, trail.below;
      }
      sendDirNdx := nodes[dp].nextSibling;
      gs := rs;
      FitsHead(scan, rs);
      StartOf(nodes, sendDirNdx, rs, trail.Top(), dp + 1);
      ClimbEnd(nodes, scan, trail, rs, dp, top);
    }

    /** One turn of send_extra_file_list: sends a list for the current group, adds the directories it finds to
        the tree, and goes on to the next group. */
    method SendOne()
      requires Valid() && !flistEof
      modifies this
      ensures Valid() && Work() == old(Work()) - 1
      ensures sent == old(sent) + [Sent(old(gs)[0].ids, old(sendDirDepth))]
      ensures fileTotal == old(fileTotal) + scan(sent[|sent| - 1].ids).files
    {
      hide Flat, NoDots, PreOrder, Size, Linked, Fits;
      ghost var g, more, n0, was := gs[0], gs[1..], |nodes|, nodes;
      FitsFacts(scan, gs);
      PreOrderStep(gs, sendDirDepth, sent, trail.Rest(sendDirDepth - 1));
      SizeStep(gs);
      var ids, last := CollectGroup();
      ghost var below := sendDirNdx;
      sent := sent + [Sent(ids, sendDirDepth)];
      var found := scan(ids);
      ghost var first := AddDirs(last, found.listing);
      fileTotal := fileTotal + found.files;
      LinkedFrame(was, nodes, nodes[last].nextSibling, Flat(more), trail.Top(), last + 1, n0);
      TrailFrame(was, nodes, scan, trail, below);
      TrailHigher(nodes, scan, trail, below, last);
      StartOf(nodes, first, g.children, last, n0);
      if nodes[last].firstChild >= 0 {
        sendDirNdx := nodes[last].firstChild;
        sendDirDepth := sendDirDepth + 1;
        trail := Above(last, more, n0, trail);
        gs := g.children;
        LinkedHere(nodes, first, Flat(gs), last, n0);
        TrailHigher(nodes, scan, trail, n0, sendDirNdx);
        AppendAssoc(PreOrder(g.children, sendDirDepth), PreOrder(more, sendDirDepth - 1),
                    trail.below.Rest(sendDirDepth - 2));
      } else {
        NoChildren(g.children, sendDirDepth + 1, PreOrder(more, sendDirDepth));
        Climb(last, more, n0);
      }
    }

    /** The lists sent since then, and the files in them; before the last one they were fewer than asked for. */
    ghost predicate Since(sent0: seq<Sent>, total0: int, goal: int)
      reads this
    {
      && sent0 <= sent && fileTotal == total0 + FilesIn(scan, sent[|sent0|..])
      && (sent != sent0 ==> total0 + FilesIn(scan, sent[|sent0|..|sent| - 1]) < goal)
    }

    /** One more of them. */
    method SendCounted(ghost sent0: seq<Sent>, ghost total0: int, ghost goal: int)
      requires Valid() && !flistEof && Since(sent0, total0, goal) && fileTotal < goal
      modifies this
      ensures Valid() && Since(sent0, total0, goal) && sent != sent0 && Work() == old(Work()) - 1
    {
      hide Linked, TrailOk, Fits, Flat, PreOrder, Size, FilesIn;
      ghost var before, more := sent, sent[|sent0|..];
      assert before == sent0 + more;
      SendOne();
      FilesInNext(scan, sent0, more, sent[|sent| - 1]);
      assert sent[|sent0|..|sent| - 1] == more;
    }

    lemma NothingSince()
      ensures Since(sent, fileTotal, 0)
    {
      assert sent[|sent|..] == [];
    }

    lemma SinceGoal(sent0: seq<Sent>, total0: int, goal: int)
      requires Since(sent0, total0, 0) && sent == sent0
      ensures Since(sent0, total0, goal)
    {
    }

    /** What is left is not nothing, so not all has been sent. */
    lemma NotAll()
      requires Valid() && !flistEof
      ensures sent != all
    {
      hide Linked, TrailOk, Fits, Flat;
      SomeLeft(gs, sendDirDepth);
    }

    lemma EndIsAll()
      requires Valid() && flistEof
      ensures sent == all
    {
      hide Linked, TrailOk, Fits, Flat;
    }

    /** send_extra_file_list: sends lists until so many files are in them, or all have been sent, and no more; the
        end is announced exactly then. A negative number asks for one file more than there are. */
    method SendExtraFileList(fileOldTotal: int, atLeast0: int)
      requires Valid()
      modifies this
      ensures Valid() && old(sent) <= sent
      ensures flistEof <==> sent == all
      ensures fileTotal == old(fileTotal) + FilesIn(scan, sent[|old(sent)|..])
      ensures var atLeast := if atLeast0 < 0 then old(fileTotal) - fileOldTotal + 1 else atLeast0;
        && (flistEof || fileTotal - fileOldTotal >= atLeast)
        && (old(flistEof) || old(fileTotal) - fileOldTotal >= atLeast ==>
              sent == old(sent) && flistEof == old(flistEof))
        && (sent != old(sent) ==>
              old(fileTotal) + FilesIn(scan, sent[|old(sent)|..|sent| - 1]) - fileOldTotal < atLeast)
    {
      hide Valid, FilesIn, PreOrder, Size;
      NothingSince();
      if flistEof {
        EndIsAll();
        return;
      }
      var atLeast := atLeast0;
      if atLeast < 0 {
        atLeast := fileTotal - fileOldTotal + 1;
      }
      SinceGoal(sent, fileTotal, fileOldTotal + atLeast);
      while fileTotal - fileOldTotal < atLeast
        invariant Valid() && !flistEof && Since(old(sent), old(fileTotal), fileOldTotal + atLeast)
        invariant sent != old(sent) ==> old(fileTotal) - fileOldTotal < atLeast
        invariant sent == old(sent) ==> fileTotal == old(fileTotal)
        decreases Work()
      {
        SendCounted(old(sent), old(fileTotal), fileOldTotal + atLeast);
        if flistEof {
          EndIsAll();
          return;
        }
      }
      NotAll();
    }
  }

  /** A chain of linked directories begins where there is one. */
  lemma StartOf(nodes: seq<Node>, at: int, gs: seq<Group>, parent: int, lo: int)
    requires exists hi :: Linked(nodes, at, Flat(gs), parent, lo, hi)
    requires gs != [] ==> gs[0].ids != []
    ensures at < 0 <==> gs == []
    ensures at >= 0 ==> lo <= at
  {
    if gs != [] {
      assert Flat(gs) != [];
    }
  }

  lemma LinkedHere(nodes: seq<Node>, at: int, es: seq<DirEntry>, parent: int, lo: int)
    requires Linked(nodes, at, es, parent, lo, |nodes|)
    ensures at >= 0 ==> Linked(nodes, at, es, parent, at, |nodes|)
  {
  }

  lemma FlatHead(gs: seq<Group>)
    requires gs != [] && gs[0].ids != []
    ensures Flat(gs) != [] && Flat(gs)[0] == DirEntry(gs[0].ids[0], false, false)
    ensures Flat(gs)[1..] == EntriesFrom(gs[0].ids[1..], true) + Flat(gs[1..])
  {
  }

  /** A duplicate follows exactly if the group goes on. */
  lemma DuplicateNext(nodes: seq<Node>, at: int, more: seq<nat>, rest: seq<Group>, scan: seq<nat> -> Scanned,
                      parent: int, lo: int)
    requires Linked(nodes, at, EntriesFrom(more, true) + Flat(rest), parent, lo, |nodes|) && Fits(scan, rest)
    ensures (0 <= at < |nodes| && nodes[at].entry.duplicate) <==> more != []
    ensures more != [] ==>
      && nodes[at].entry.id == more[0] && lo <= at < |nodes| && nodes[at].parent == parent && nodes[at].firstChild == -1
      && Linked(nodes, nodes[at].nextSibling, EntriesFrom(more[1..], true) + Flat(rest), parent, at + 1, |nodes|)
  {
    hide EntriesFrom, Flat, Fits;
    EntriesHead(more, rest);
    if rest != [] {
      FitsFacts(scan, rest);
    }
  }

  /** What comes first: another directory of the group, or the next group's first one. */
  lemma EntriesHead(more: seq<nat>, rest: seq<Group>)
    ensures var es := EntriesFrom(more, true) + Flat(rest);
      if more != [] then
        es != [] && es[0] == DirEntry(more[0], false, true) && es[1..] == EntriesFrom(more[1..], true) + Flat(rest)
      else if rest != [] && rest[0].ids != [] then es != [] && !es[0].duplicate
      else rest == [] ==> es == []
  {
    hide EntriesFrom, Flat;
    OneEntry(more);
    if more != [] {
      AppendHead(EntriesFrom(more, true), Flat(rest));
      var e := DirEntry(more[0], false, true);
      assert ([e] + EntriesFrom(more[1..], true))[1..] == EntriesFrom(more[1..], true);
    } else {
      assert EntriesFrom(more, true) + Flat(rest) == Flat(rest);
      if rest != [] && rest[0].ids != [] {
        FlatHead(rest);
      }
      NoEntries(rest);
    }
  }

  lemma OneEntry(ids: seq<nat>)
    ensures EntriesFrom(ids, true) ==
      if ids == [] then [] else [DirEntry(ids[0], false, true)] + EntriesFrom(ids[1..], true)
  {
  }

  lemma NoEntries(gs: seq<Group>)
    ensures gs == [] ==> Flat(gs) == []
  {
  }

  lemma TrailTop(nodes: seq<Node>, scan: seq<nat> -> Scanned, trail: Trail, lo: int)
    requires TrailOk(nodes, scan, trail, lo)
    ensures trail.Top() < 0 <==> trail.Bottom?
    ensures trail.Above? ==>
      && 0 <= trail.node < trail.hi <= |nodes| && nodes[trail.node].parent == trail.below.Top()
      && Linked(nodes, nodes[trail.node].nextSibling, Flat(trail.rest), trail.below.Top(), trail.node + 1, trail.hi)
      && Fits(scan, trail.rest) && TrailOk(nodes, scan, trail.below, trail.node)
  {
  }

  lemma ClimbEnd(nodes: seq<Node>, scan: seq<nat> -> Scanned, trail: Trail, rs: seq<Group>, dp: nat, hi: int)
    requires dp < |nodes| && nodes[dp].nextSibling >= 0 && hi <= |nodes|
    requires Linked(nodes, nodes[dp].nextSibling, Flat(rs), trail.Top(), dp + 1, hi) && TrailOk(nodes, scan, trail, dp)
    ensures Linked(nodes, nodes[dp].nextSibling, Flat(rs), trail.Top(), nodes[dp].nextSibling, |nodes|)
    ensures TrailOk(nodes, scan, trail, nodes[dp].nextSibling)
  {
    LinkedHigher(nodes, nodes[dp].nextSibling, Flat(rs), trail.Top(), dp + 1, hi, |nodes|);
    LinkedHere(nodes, nodes[dp].nextSibling, Flat(rs), trail.Top(), dp + 1);
    TrailHigher(nodes, scan, trail, dp, nodes[dp].nextSibling);
  }

  lemma FitsFacts(scan: seq<nat> -> Scanned, gs: seq<Group>)
    requires gs != [] && Fits(scan, gs)
    ensures gs[0].ids != [] && scan(gs[0].ids).files == gs[0].files
    ensures NoDots(scan(gs[0].ids).listing) == Flat(gs[0].children)
    ensures Fits(scan, gs[0].children) && Fits(scan, gs[1..])
    ensures gs[0].children != [] ==> gs[0].children[0].ids != []
    ensures |gs| > 1 ==> gs[1].ids != []
  {
  }

  /** What is to come begins with the current group, then what is below it, then its siblings. */
  lemma PreOrderStep(gs: seq<Group>, depth: int, sent: seq<Sent>, rest: seq<Sent>)
    requires gs != []
    ensures sent + (PreOrder(gs, depth) + rest) ==
      (sent + [Sent(gs[0].ids, depth)]) + (PreOrder(gs[0].children, depth + 1) + (PreOrder(gs[1..], depth) + rest))
  {
    var a, b, c := [Sent(gs[0].ids, depth)], PreOrder(gs[0].children, depth + 1), PreOrder(gs[1..], depth);
    assert PreOrder(gs, depth) == a + (b + c);
    AppendAssoc(a, b + c, rest);
    AppendAssoc(b, c, rest);
    AppendAssoc(sent, a, b + (c + rest));
  }

  lemma SizeStep(gs: seq<Group>)
    requires gs != []
    ensures Size(gs) == 1 + Size(gs[0].children) + Size(gs[1..])
  {
  }

  lemma FitsHead(scan: seq<nat> -> Scanned, gs: seq<Group>)
    requires Fits(scan, gs)
    ensures gs != [] ==> gs[0].ids != []
  {
  }

  lemma GroupStart(nodes: seq<Node>, at: int, gs: seq<Group>, parent: int)
    requires gs != [] && gs[0].ids != [] && Linked(nodes, at, Flat(gs), parent, at, |nodes|)
    ensures 0 <= at < |nodes| && nodes[at].entry.id == gs[0].ids[0]
    ensures nodes[at].parent == parent && nodes[at].firstChild == -1
    ensures Linked(nodes, nodes[at].nextSibling, EntriesFrom(gs[0].ids[1..], true) + Flat(gs[1..]), parent,
                   at + 1, |nodes|)
  {
    hide Flat, EntriesFrom;
    FlatHead(gs);
  }

  lemma NoMore(gs: seq<Group>)
    ensures EntriesFrom([], true) + Flat(gs) == Flat(gs)
  {
  }

  lemma NoChildren(children: seq<Group>, depth: int, rest: seq<Sent>)
    requires children == []
    ensures Size(children) == 0 && PreOrder(children, depth) == []
    ensures forall more: seq<Sent> :: PreOrder(children, depth) + more == more
  {
  }

  lemma SomeLeft(gs: seq<Group>, depth: int)
    requires gs != []
    ensures PreOrder(gs, depth) != []
  {
  }

  lemma NoneListed()
    ensures NoDots([]) == []
  {
  }

  lemma NoneLinked(nodes: seq<Node>, parent: int, lo: int)
    ensures Linked(nodes, -1, [], parent, lo, |nodes|)
  {
  }
}
