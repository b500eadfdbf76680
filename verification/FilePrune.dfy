/** flist.c: pruning of empty directories from a clean list, over a chain of negative depths. */
module FilePrune {
  import opened Basics
  import opened NameOrder
  import opened NameComponents
  import opened FileSort
  import opened FileFind
  import opened FileClean

  /** Which directories the filters exclude. */
  type Filters = FileName -> bool

  // ----- what is pruned

  /** A directory below the top of the transfer: "." has depth 0, and a removed entry is no directory. */
  predicate Dir(e: Entry) {
    Active(e) && e.name.isDir && e.depth != 0
  }

  /** What keeps the directories it is in: whatever is not a directory, and an excluded directory. */
  predicate Anchor(e: Entry, excluded: Filters) {
    !Dir(e) || excluded(e.name)
  }

  /** No directory between k and i is as high up as k: position i is still inside of k. */
  ghost predicate Open(s: seq<Entry>, k: nat, i: nat)
    requires k < |s| && i <= |s|
  {
    forall j :: k < j < i && Dir(s[j]) ==> s[j].depth > s[k].depth
  }

  /** The entry at k or one inside of it, before position i, is an anchor. */
  ghost predicate Needed(s: seq<Entry>, excluded: Filters, k: nat, i: nat)
    requires k < |s| && i <= |s|
  {
    exists m :: k <= m < i && Open(s, k, m + 1) && Anchor(s[m], excluded)
  }

  /** What pruning makes of a list: entries that nothing needs are removed, all others are as before. */
  ghost predicate PrunedTo(s: seq<Entry>, t: seq<Entry>, excluded: Filters, low: nat, high: nat)
    requires high < |s|
  {
    && |t| == |s|
    && forall k :: 0 <= k < |s| ==>
         t[k] == if low <= k <= high && !Needed(s, excluded, k, high + 1) then CLEARED else s[k]
  }

  lemma NeedNext(s: seq<Entry>, excluded: Filters, k: nat, i: nat)
    requires k <= i < |s|
    ensures Needed(s, excluded, k, i + 1) <==>
      Needed(s, excluded, k, i) || (Open(s, k, i + 1) && Anchor(s[i], excluded))
  {
  }

  // ----- the chain

  /** The directories that may yet be pruned, the last one first. The chain ends in an entry that is not
      one of them, or in its own last directory. */
  datatype Chain = End(at: nat) | On(dir: nat, up: Chain)
  {
    function Top(): nat {
      if End? then at else dir
    }

    function Bottom(): nat {
      if End? then at else up.Bottom()
    }

    function Members(): set<nat> {
      if End? then {} else {dir} + up.Members()
    }

    /** The chain without its last n directories. */
    function Popped(n: int): Chain {
      if n <= 0 || End? then this else up.Popped(n - 1)
    }

    /** Those of the last n directories that are above a level. */
    function Above(s: seq<Entry>, n: int, level: int): set<nat> {
      if n <= 0 || End? then {}
      else up.Above(s, n - 1, level) + if dir < |s| && s[dir].depth < level then {dir} else {}
    }

    /** The directories that get a wrong depth when depths are counted down along the chain, and which. */
    function Off(s: seq<Entry>, depth: int): map<nat, int> {
      if End? then map[]
      else
        var off := up.Off(s, depth - 1);
        if dir < |s| && s[dir].depth == depth then off else off[dir := depth]
    }
  }

  /** A directory as a link of the chain: its depth is replaced by where the chain leads. */
  function Linked(e: Entry, to: int): Entry {
    e.(depth := -to - 1)
  }

  /** The directories of the chain stand below each other, the last one at `depth` or above. */
  ghost predicate Chained(s: seq<Entry>, t: seq<Entry>, chain: Chain, depth: int) {
    && |s| == |t|
    && match chain
       case End(at) => at < |t|
       case On(dir, up) =>
         && dir < |s| && 0 < s[dir].depth <= depth && t[dir] == Linked(s[dir], up.Top())
         && dir !in up.Members()
         && Chained(s, t, up, s[dir].depth - 1)
  }

  ghost predicate Ended(t: seq<Entry>, chain: Chain) {
    chain.Bottom() < |t| && (t[chain.Bottom()].depth >= 0 || chain.Bottom() in chain.Members())
  }

  /** Whether the chain has ended can be seen from the sign of the depth. */
  lemma ChainEnd(s: seq<Entry>, t: seq<Entry>, chain: Chain, depth: int)
    requires Chained(s, t, chain, depth) && Ended(t, chain)
    ensures |s| == |t| && chain.Top() < |t| && (t[chain.Top()].depth < 0 <==> chain.On?)
    ensures chain.On? ==> -t[chain.Top()].depth - 1 == chain.up.Top() && 0 < s[chain.Top()].depth <= depth
    ensures chain.End? ==> chain.Top() == chain.Bottom()
  {
  }

  lemma {:induction false} ChainFrame(s: seq<Entry>, t: seq<Entry>, u: seq<Entry>, chain: Chain, depth: int)
    requires Chained(s, t, chain, depth) && |u| == |t|
    requires forall k :: k in chain.Members() && k < |t| ==> u[k] == t[k]
    ensures Chained(s, u, chain, depth)
    decreases chain
  {
    if chain.On? {
      ChainFrame(s, t, u, chain.up, s[chain.dir].depth - 1);
    }
  }

  /** A chain may be looked at from further down. */
  lemma Lower(s: seq<Entry>, t: seq<Entry>, chain: Chain, depth: int, level: int)
    requires Chained(s, t, chain, depth) && (chain.On? ==> s[chain.dir].depth <= level)
    ensures Chained(s, t, chain, level)
  {
  }

  lemma {:induction false} MembersInList(s: seq<Entry>, t: seq<Entry>, chain: Chain, depth: int)
    requires Chained(s, t, chain, depth)
    ensures forall k :: k in chain.Members() ==> k < |s| && s[k].depth <= depth && t[k].depth < 0
    decreases chain
  {
    if chain.On? {
      MembersInList(s, t, chain.up, s[chain.dir].depth - 1);
    }
  }

  /** The last directory leaves the chain. */
  lemma Pop(s: seq<Entry>, t: seq<Entry>, chain: Chain, depth: int, e: Entry)
    requires Chained(s, t, chain, depth) && Ended(t, chain) && chain.On? && e.depth >= 0
    ensures Chained(s, t[chain.dir := e], chain.up, depth - 1) && Ended(t[chain.dir := e], chain.up)
  {
    ChainFrame(s, t, t[chain.dir := e], chain.up, s[chain.dir].depth - 1);
    Lower(s, t[chain.dir := e], chain.up, s[chain.dir].depth - 1, depth - 1);
  }

  /** Two lists that differ only at some positions. */
  ghost predicate Except(t: seq<Entry>, u: seq<Entry>, touched: set<nat>) {
    |t| == |u| && forall k :: 0 <= k < |t| && k !in touched ==> u[k] == t[k]
  }

  /** Entries that are as before, but for the depth of some. */
  ghost predicate Back(s: seq<Entry>, u: seq<Entry>, kept: set<nat>, off: map<nat, int>) {
    && |u| == |s|
    && forall k :: k in kept ==> k < |s| && u[k] == if k in off then s[k].(depth := off[k]) else s[k]
  }

  ghost predicate Gone(s: seq<Entry>, u: seq<Entry>, dropped: set<nat>) {
    |u| == |s| && forall k :: k in dropped ==> k < |s| && u[k] == CLEARED
  }

  /** Only members of a chain can get a wrong depth. */
  lemma {:induction false} OffMembers(s: seq<Entry>, chain: Chain, depth: int)
    ensures chain.Off(s, depth).Keys <= chain.Members()
    ensures forall k :: k in chain.Off(s, depth) && k < |s| ==> chain.Off(s, depth)[k] != s[k].depth
    decreases chain
  {
    if chain.On? {
      OffMembers(s, chain.up, depth - 1);
    }
  }

  /** Keeps all directories in the chain: their depths are set again, counting down. */
  method Reprieve(sorted: array<Entry>, prev0: nat, depth: int, ghost s: seq<Entry>, ghost chain: Chain)
    returns (prev: nat)
    requires Chained(s, sorted[..], chain, depth) && Ended(sorted[..], chain) && prev0 == chain.Top()
    modifies sorted
    ensures prev == chain.Bottom() < sorted.Length && sorted[prev].depth >= 0
    ensures Except(old(sorted[..]), sorted[..], chain.Members())
    ensures Back(s, sorted[..], chain.Members(), chain.Off(s, depth))
  {
    hide Chained, Ended, Chain.Members, Chain.Off, Chain.Bottom;
    var j := depth;
    prev := prev0;
    ghost var c := chain;
    ChainEnd(s, sorted[..], c, j);
    OffDone(s, chain, depth, c, j, sorted[..]);
    while sorted[prev].depth < 0
      invariant Chained(s, sorted[..], c, j) && Ended(sorted[..], c)
      invariant prev == c.Top() < sorted.Length == |s| && (sorted[prev].depth < 0 <==> c.On?)
      invariant c.End? ==> prev == c.Bottom()
      invariant Except(old(sorted[..]), sorted[..], chain.Members())
      invariant Passed(s, sorted[..], chain, depth, c, j)
      decreases c
    {
      ghost var t := sorted[..];
      ChainEnd(s, t, c, j);
      TopEntry(s, t, c, j);
      Pop(s, t, c, j, sorted[prev].(depth := j));
      PassOne(s, t, chain, depth, c, j);
      var up := -sorted[prev].depth - 1;
      sorted[prev] := sorted[prev].(depth := j);
      assert sorted[..] == t[c.dir := sorted[prev]];
      prev, j := up, j - 1;
      c := c.up;
      ChainEnd(s, sorted[..], c, j);
    }
    AllPassed(s, sorted[..], chain, depth, c, j);
  }

  /** Depths have been counted down along the chain as far as c. */
  ghost predicate Passed(s: seq<Entry>, t: seq<Entry>, chain: Chain, depth: int, c: Chain, j: int) {
    && |t| == |s| && c.Bottom() == chain.Bottom() && c.Members() <= chain.Members()
    && (forall k :: k in chain.Members() && k !in c.Members() ==>
          k < |s| && t[k] == if k in chain.Off(s, depth) then s[k].(depth := chain.Off(s, depth)[k]) else s[k])
    && (forall k :: k in c.Members() ==>
          && (k in c.Off(s, j) <==> k in chain.Off(s, depth))
          && (k in c.Off(s, j) ==> c.Off(s, j)[k] == chain.Off(s, depth)[k]))
  }

  lemma OffDone(s: seq<Entry>, chain: Chain, depth: int, c: Chain, j: int, t: seq<Entry>)
    requires c == chain && j == depth && |t| == |s|
    ensures Passed(s, t, chain, depth, c, j)
  {
  }

  lemma AllPassed(s: seq<Entry>, t: seq<Entry>, chain: Chain, depth: int, c: Chain, j: int)
    requires Passed(s, t, chain, depth, c, j) && c.End?
    ensures Back(s, t, chain.Members(), chain.Off(s, depth)) && c.Bottom() == chain.Bottom()
  {
  }

  lemma PassOne(s: seq<Entry>, t: seq<Entry>, chain: Chain, depth: int, c: Chain, j: int)
    requires Passed(s, t, chain, depth, c, j) && Chained(s, t, c, j) && c.On?
    ensures Passed(s, t[c.dir := t[c.dir].(depth := j)], chain, depth, c.up, j - 1)
  {
    hide Chain.Bottom;
    OffMembers(s, c.up, j - 1);
    BottomUp(c);
    assert t[c.dir].(depth := s[c.dir].depth) == s[c.dir];
    assert t[c.dir].(depth := j) == s[c.dir].(depth := j);
    assert s[c.dir].(depth := s[c.dir].depth) == s[c.dir];
  }

  lemma BottomUp(c: Chain)
    requires c.On?
    ensures c.up.Bottom() == c.Bottom()
  {
  }

  /** What has left the chain once its last directory has. */
  lemma LeftChain(chain: Chain, c: Chain)
    requires c.On? && c.Members() <= chain.Members() && c.dir !in c.up.Members()
    ensures chain.Members() - c.up.Members() == (chain.Members() - c.Members()) + {c.dir}
    ensures c.up.Members() <= chain.Members() && c.dir in chain.Members()
  {
  }

  /** With its depth set again a directory is as before. */
  lemma TopEntry(s: seq<Entry>, t: seq<Entry>, chain: Chain, depth: int)
    requires Chained(s, t, chain, depth) && chain.On?
    ensures chain.dir < |s| == |t| && 0 < s[chain.dir].depth <= depth
    ensures chain.Members() == {chain.dir} + chain.up.Members() && chain.dir !in chain.up.Members()
  {
  }

  /** Removes the last directories in the chain, one for each level from `from` up to `to`. */
  method Dump(sorted: array<Entry>, prev0: nat, from: int, to: int, ghost s: seq<Entry>, ghost chain: Chain)
    returns (prev: nat, ghost rest: Chain)
    requires Chained(s, sorted[..], chain, from) && Ended(sorted[..], chain) && prev0 == chain.Top()
    modifies sorted
    ensures rest == chain.Popped(from - to + 1) && Chained(s, sorted[..], rest, if from < to then from else to - 1)
    ensures Ended(sorted[..], rest) && prev == rest.Top()
    ensures rest.Members() <= chain.Members()
    ensures Except(old(sorted[..]), sorted[..], chain.Members() - rest.Members())
    ensures Gone(s, sorted[..], chain.Members() - rest.Members())
  {
    hide Chained, Ended, Chain.Members;
    var j := from;
    prev := prev0;
    rest := chain;
    ChainEnd(s, sorted[..], rest, j);
    while j >= to
      invariant Chained(s, sorted[..], rest, j) && Ended(sorted[..], rest)
      invariant prev == rest.Top() < sorted.Length == |s| && (sorted[prev].depth < 0 <==> rest.On?)
      invariant rest.Members() <= chain.Members() && j <= from && (j < to - 1 ==> j == from)
      invariant rest.Popped(j - to + 1) == chain.Popped(from - to + 1)
      invariant Except(old(sorted[..]), sorted[..], chain.Members() - rest.Members())
      invariant Gone(s, sorted[..], chain.Members() - rest.Members())
      decreases j - to
    {
      if sorted[prev].depth >= 0 {
        Lower(s, sorted[..], rest, j, to - 1);
        return;
      }
      ghost var t := sorted[..];
      ChainEnd(s, t, rest, j);
      TopEntry(s, t, rest, j);
      LeftChain(chain, rest);
      Pop(s, t, rest, j, CLEARED);
      var up := -sorted[prev].depth - 1;
      sorted[prev] := CLEARED;
      assert sorted[..] == t[rest.dir := CLEARED];
      prev, j := up, j - 1;
      rest := rest.up;
      ChainEnd(s, sorted[..], rest, j);
    }
  }

  /** Which of the directories removed are above the level: the others, and only they, are to go. */
  lemma {:induction false} PoppedAre(s: seq<Entry>, t: seq<Entry>, chain: Chain, from: int, to: int)
    requires Chained(s, t, chain, from)
    ensures var rest := chain.Popped(from - to + 1);
      && rest.Members() <= chain.Members()
      && (forall k :: k in chain.Members() && k !in rest.Members() ==>
            k < |s| && (k in chain.Above(s, from - to + 1, to) <==> s[k].depth < to))
      && chain.Above(s, from - to + 1, to) <= chain.Members() - rest.Members()
      && forall k :: k in rest.Members() ==> k < |s| && s[k].depth < to
    decreases chain
  {
    MembersInList(s, t, chain, from);
    if chain.On? && from >= to {
      Lower(s, t, chain.up, s[chain.dir].depth - 1, from - 1);
      PoppedAre(s, t, chain.up, from - 1, to);
    }
  }

  // ----- the scan

  /** What the loop does with the chain and the level of the last directory, on the depths alone. `early` are the
      directories that are removed while the scan is still inside of them, `off` are those that are kept with a
      wrong depth. */
  datatype Track = Track(chain: Chain, depth: int, early: set<nat>, off: map<nat, int>)

  function Turn(s: seq<Entry>, excluded: Filters, i: nat, tr: Track): Track
    requires i < |s|
  {
    if Dir(s[i]) then
      var d, n := s[i].depth, tr.depth - s[i].depth + 1;
      var rest, early := tr.chain.Popped(n), tr.early + tr.chain.Above(s, n, d);
      if excluded(s[i].name) then Track(End(i), d, early, tr.off + rest.Off(s, d - 1))
      else Track(On(i, rest), d, early, tr.off)
    else Track(End(tr.chain.Bottom()), tr.depth, tr.early, tr.off + tr.chain.Off(s, tr.depth))
  }

  /** Where that has got to in front of entry i. */
  function Course(s: seq<Entry>, excluded: Filters, low: nat, i: nat): Track
    requires low <= i <= |s|
    decreases i
  {
    if i == low then Track(End(0), 0, {}, map[]) else Turn(s, excluded, i - 1, Course(s, excluded, low, i - 1))
  }

  /** What becomes of any list. */
  ghost predicate Outcome(s: seq<Entry>, t: seq<Entry>, excluded: Filters, low: nat, high: nat)
    requires low <= high < |s|
  {
    var tr := Course(s, excluded, low, high + 1);
    && |t| == |s|
    && (forall k :: k in tr.off || k in tr.early ==> low <= k <= high && Dir(s[k]))
    && (forall k :: k in tr.off ==> tr.off[k] != s[k].depth && Needed(s, excluded, k, high + 1))
    && forall k :: 0 <= k < |s| ==>
         t[k] == if k in tr.off then s[k].(depth := tr.off[k])
                 else if k in tr.early || (low <= k <= high && !Needed(s, excluded, k, high + 1)) then CLEARED
                 else s[k]
  }

  /** The state of the scan in front of entry i: what is in the chain is open and has no anchor yet; of the
      other entries, those seen are kept because something needs them, or are closed and removed, or something
      has gone wrong with them. */
  ghost predicate Scan(s: seq<Entry>, t: seq<Entry>, excluded: Filters, low: nat, i: nat, chain: set<nat>,
                       early: set<nat>, off: map<nat, int>)
  {
    && |t| == |s| && low <= i <= |s|
    && (forall k :: k in chain ==>
          low <= k < i && Dir(s[k]) && Open(s, k, i) && !Needed(s, excluded, k, i) && k !in early && k !in off)
    && (forall k :: k in early || k in off ==> low <= k < i && Dir(s[k]))
    && (forall k :: k in off ==>
          k !in early && off[k] != s[k].depth && t[k] == s[k].(depth := off[k]) && Needed(s, excluded, k, i))
    && (forall k :: k in early ==> t[k] == CLEARED)
    && (forall k :: 0 <= k < |s| && k !in chain && k !in early && k !in off ==>
          || (t[k] == s[k] && (low <= k < i ==> Needed(s, excluded, k, i)))
          || (t[k] == CLEARED && low <= k < i && !Open(s, k, i) && !Needed(s, excluded, k, i)))
  }

  /** What entry i changes for the entries before it. */
  lemma Step(s: seq<Entry>, excluded: Filters, low: nat, i: nat)
    requires low <= i < |s|
    ensures forall k :: low <= k < i ==>
      (Open(s, k, i + 1) <==> Open(s, k, i) && (Dir(s[i]) ==> s[i].depth > s[k].depth))
    ensures forall k :: low <= k < i ==>
      (Needed(s, excluded, k, i + 1) <==>
       Needed(s, excluded, k, i) || (Open(s, k, i + 1) && Anchor(s[i], excluded)))
    ensures Needed(s, excluded, i, i + 1) <==> Anchor(s[i], excluded)
    ensures Open(s, i, i + 1)
  {
    hide Anchor;
    forall k | low <= k < i
      ensures Needed(s, excluded, k, i + 1) <==>
        Needed(s, excluded, k, i) || (Open(s, k, i + 1) && Anchor(s[i], excluded))
    {
      NeedNext(s, excluded, k, i);
    }
    assert Open(s, i, i + 1);
  }

  /** Wrong depths are those of chain members. */
  ghost predicate OffIn(s: seq<Entry>, off: map<nat, int>, chain: set<nat>) {
    off.Keys <= chain && forall k :: k in off && k < |s| ==> off[k] != s[k].depth
  }

  /** An anchor that is no directory keeps the whole chain. */
  lemma StepAnchor(s: seq<Entry>, t: seq<Entry>, u: seq<Entry>, excluded: Filters, low: nat, i: nat,
                   chain: set<nat>, early: set<nat>, off: map<nat, int>, off': map<nat, int>)
    requires Scan(s, t, excluded, low, i, chain, early, off) && i < |s| && !Dir(s[i])
    requires Except(t, u, chain) && Back(s, u, chain, off') && OffIn(s, off', chain)
    ensures Scan(s, u, excluded, low, i + 1, {}, early, off + off')
  {
    hide Needed, Open, Dir;
    Step(s, excluded, low, i);
  }

  /** A directory closes what is not above it; of what is, some may be removed too early. */
  lemma StepDump(s: seq<Entry>, t: seq<Entry>, u: seq<Entry>, excluded: Filters, low: nat, i: nat,
                 chain: set<nat>, rest: set<nat>, early: set<nat>, above: set<nat>, off: map<nat, int>)
    requires Scan(s, t, excluded, low, i, chain, early, off) && i < |s| && Dir(s[i])
    requires rest <= chain && Except(t, u, chain - rest) && Gone(s, u, chain - rest)
    requires above <= chain - rest
    requires forall k :: k in chain && k !in rest ==> k < |s| && (k in above <==> s[k].depth < s[i].depth)
    requires forall k :: k in rest ==> k < |s| && s[k].depth < s[i].depth
    ensures Dumped(s, u, excluded, low, i, rest, early + above, off)
  {
    hide Needed, Open, Dir;
    Step(s, excluded, low, i);
  }

  /** The state between removing and what comes next: directory i itself is not yet dealt with. */
  ghost predicate Dumped(s: seq<Entry>, t: seq<Entry>, excluded: Filters, low: nat, i: nat, chain: set<nat>,
                         early: set<nat>, off: map<nat, int>)
  {
    && |t| == |s| && low <= i < |s| && Dir(s[i]) && t[i] == s[i]
    && (forall k :: k in chain ==>
          low <= k < i && Dir(s[k]) && Open(s, k, i + 1) && !Needed(s, excluded, k, i) && k !in early && k !in off)
    && (forall k :: k in early || k in off ==> low <= k < i && Dir(s[k]))
    && (forall k :: k in off ==>
          k !in early && off[k] != s[k].depth && t[k] == s[k].(depth := off[k]) && Needed(s, excluded, k, i))
    && (forall k :: k in early ==> t[k] == CLEARED)
    && (forall k :: 0 <= k < |s| && k !in chain && k !in early && k !in off ==>
          || (t[k] == s[k] && (low <= k < i ==> Needed(s, excluded, k, i)))
          || (t[k] == CLEARED && low <= k < i && !Open(s, k, i + 1) && !Needed(s, excluded, k, i)))
  }

  /** If the directory is excluded, it keeps what is above it. */
  lemma StepExcluded(s: seq<Entry>, t: seq<Entry>, u: seq<Entry>, excluded: Filters, low: nat, i: nat,
                     rest: set<nat>, early: set<nat>, off: map<nat, int>, off': map<nat, int>)
    requires Dumped(s, t, excluded, low, i, rest, early, off) && excluded(s[i].name)
    requires Except(t, u, rest) && Back(s, u, rest, off') && OffIn(s, off', rest)
    ensures Scan(s, u, excluded, low, i + 1, {}, early, off + off')
  {
    hide Needed, Open, Dir;
    Step(s, excluded, low, i);
  }

  /** Otherwise it joins the chain. */
  lemma StepJoin(s: seq<Entry>, t: seq<Entry>, excluded: Filters, low: nat, i: nat, rest: set<nat>,
                 early: set<nat>, off: map<nat, int>, e: Entry)
    requires Dumped(s, t, excluded, low, i, rest, early, off) && !excluded(s[i].name)
    ensures Scan(s, t[i := e], excluded, low, i + 1, {i} + rest, early, off)
  {
    hide Needed, Open, Dir;
    Step(s, excluded, low, i);
  }

  /** Everything the scan knows in front of entry i. */
  ghost predicate Pruning(s: seq<Entry>, t: seq<Entry>, excluded: Filters, low: nat, i: nat, tr: Track) {
    && Scan(s, t, excluded, low, i, tr.chain.Members(), tr.early, tr.off)
    && Chained(s, t, tr.chain, tr.depth) && Ended(t, tr.chain)
  }

  ghost predicate DepthsGood(s: seq<Entry>, high: nat)
    requires high < |s|
  {
    forall k :: 0 <= k <= high ==> s[k].depth >= 0
  }

  /** The next entry has not been touched. */
  lemma NextIs(s: seq<Entry>, t: seq<Entry>, excluded: Filters, low: nat, i: nat, chain: set<nat>,
               early: set<nat>, off: map<nat, int>)
    requires Scan(s, t, excluded, low, i, chain, early, off)
    ensures |s| == |t| && low <= i <= |s|
    ensures forall k :: k in chain ==> k < i
    ensures forall k :: i <= k < |t| ==> t[k] == s[k]
  {
  }

  /** Joining keeps the chain a chain. */
  lemma JoinChain(s: seq<Entry>, u: seq<Entry>, rest: Chain, i: nat)
    requires i < |s| && Chained(s, u, rest, s[i].depth - 1) && Ended(u, rest) && s[i].depth > 0
    requires forall k :: k in rest.Members() ==> k < i
    ensures var v := u[i := Linked(s[i], rest.Top())];
      Chained(s, v, On(i, rest), s[i].depth) && Ended(v, On(i, rest))
  {
    ChainFrame(s, u, u[i := Linked(s[i], rest.Top())], rest, s[i].depth - 1);
  }

  /** One turn of the pruning loop. */
  method PruneNext(sorted: array<Entry>, excluded: Filters, i: nat, prev: nat, depth: int,
                   ghost s: seq<Entry>, ghost low: nat, ghost high: nat, ghost tr: Track)
    returns (prev': nat, depth': int)
    requires low <= i <= high < |s| && DepthsGood(s, high)
    requires Pruning(s, sorted[..], excluded, low, i, tr) && prev == tr.chain.Top() && depth == tr.depth
    modifies sorted
    ensures var tr' := Turn(s, excluded, i, tr);
      Pruning(s, sorted[..], excluded, low, i + 1, tr') && prev' == tr'.chain.Top() && depth' == tr'.depth
  {
    hide Scan, Dumped, Chained, Ended, Except, Back, Gone, Linked, OffIn, Chain.Popped, Chain.Above, Chain.Off;
    ghost var t, chain := sorted[..], tr.chain;
    NextIs(s, t, excluded, low, i, chain.Members(), tr.early, tr.off);
    var file := sorted[i];
    if Dir(file) {
      ghost var rest, n := chain, depth - file.depth + 1;
      depth' := file.depth;
      prev', rest := Dump(sorted, prev, depth, depth', s, chain);
      ghost var u := sorted[..];
      PoppedAre(s, t, chain, depth, depth');
      StepDump(s, t, u, excluded, low, i, chain.Members(), rest.Members(), tr.early, chain.Above(s, n, depth'),
               tr.off);
      RestChained(s, u, rest, depth, depth');
      if excluded(file.name) {
        prev' := Reprieve(sorted, prev', depth' - 1, s, rest);
        OffMembers(s, rest, depth' - 1);
        OffIs(s, rest.Off(s, depth' - 1), rest.Members());
        StepExcluded(s, u, sorted[..], excluded, low, i, rest.Members(), tr.early + chain.Above(s, n, depth'),
                     tr.off, rest.Off(s, depth' - 1));
        NextKept(s, u, excluded, low, i, rest.Members(), tr.early + chain.Above(s, n, depth'), tr.off);
        ExceptIs(u, sorted[..], rest.Members(), i);
        prev' := i;
        EndIsChain(s, sorted[..], i, depth');
      } else {
        LinkedIs(s[i], prev');
        sorted[i] := sorted[i].(depth := -(prev' as int) - 1);
        NextKept(s, u, excluded, low, i, rest.Members(), tr.early + chain.Above(s, n, depth'), tr.off);
        assert sorted[..] == u[i := Linked(s[i], prev')];
        StepJoin(s, u, excluded, low, i, rest.Members(), tr.early + chain.Above(s, n, depth'), tr.off, sorted[i]);
        JoinChain(s, u, rest, i);
        prev' := i;
      }
    } else {
      depth' := depth;
      prev' := Reprieve(sorted, prev, depth, s, chain);
      OffMembers(s, chain, depth);
      OffIs(s, chain.Off(s, depth), chain.Members());
      StepAnchor(s, t, sorted[..], excluded, low, i, chain.Members(), tr.early, tr.off, chain.Off(s, depth));
      EndIsChain(s, sorted[..], prev', depth');
    }
  }

  lemma OffIs(s: seq<Entry>, off: map<nat, int>, chain: set<nat>)
    requires off.Keys <= chain && forall k :: k in off && k < |s| ==> off[k] != s[k].depth
    ensures OffIn(s, off, chain)
  {
  }

  lemma NextKept(s: seq<Entry>, t: seq<Entry>, excluded: Filters, low: nat, i: nat, chain: set<nat>,
                 early: set<nat>, off: map<nat, int>)
    requires Dumped(s, t, excluded, low, i, chain, early, off)
    ensures |s| == |t| && i < |s| && t[i] == s[i] && forall k :: k in chain ==> k < i
  {
  }

  /** What is left of the chain stands above the directory. */
  lemma RestChained(s: seq<Entry>, u: seq<Entry>, rest: Chain, from: int, to: int)
    requires Chained(s, u, rest, if from < to then from else to - 1)
    ensures Chained(s, u, rest, to - 1)
  {
  }

  lemma LinkedIs(e: Entry, to: nat)
    ensures Linked(e, to) == e.(depth := -(to as int) - 1)
  {
  }

  lemma ExceptIs(t: seq<Entry>, u: seq<Entry>, touched: set<nat>, i: nat)
    requires Except(t, u, touched) && i < |t| && i !in touched
    ensures |u| == |t| && u[i] == t[i]
  {
  }

  lemma EndIsChain(s: seq<Entry>, t: seq<Entry>, at: nat, depth: int)
    requires |s| == |t| && at < |t| && t[at].depth >= 0
    ensures Chained(s, t, End(at), depth) && Ended(t, End(at))
  {
  }

  /** Removes all directories that are left in the chain. */
  method DumpAll(sorted: array<Entry>, prev0: nat, ghost depth: int, ghost s: seq<Entry>, ghost chain: Chain)
    requires Chained(s, sorted[..], chain, depth) && Ended(sorted[..], chain) && prev0 == chain.Top()
    modifies sorted
    ensures Except(old(sorted[..]), sorted[..], chain.Members())
    ensures Gone(s, sorted[..], chain.Members())
  {
    hide Chained, Ended, Chain.Members;
    var prev := prev0;
    ghost var rest, j := chain, depth;
    ChainEnd(s, sorted[..], rest, j);
    while sorted[prev].depth < 0
      invariant Chained(s, sorted[..], rest, j) && Ended(sorted[..], rest)
      invariant prev == rest.Top() < sorted.Length && (sorted[prev].depth < 0 <==> rest.On?)
      invariant rest.Members() <= chain.Members()
      invariant Except(old(sorted[..]), sorted[..], chain.Members())
      invariant Gone(s, sorted[..], chain.Members() - rest.Members())
      decreases rest
    {
      ghost var t := sorted[..];
      ChainEnd(s, t, rest, j);
      TopEntry(s, t, rest, j);
      LeftChain(chain, rest);
      Pop(s, t, rest, j, CLEARED);
      var up := -sorted[prev].depth - 1;
      sorted[prev] := CLEARED;
      assert sorted[..] == t[rest.dir := CLEARED];
      prev := up;
      rest, j := rest.up, j - 1;
      ChainEnd(s, sorted[..], rest, j);
    }
    NoMembers(chain, rest);
  }

  lemma NoMembers(chain: Chain, c: Chain)
    requires c.End?
    ensures chain.Members() - c.Members() == chain.Members()
  {
  }

  /** At the end the rest of the chain is gone too. */
  lemma ScanEnd(s: seq<Entry>, t: seq<Entry>, u: seq<Entry>, excluded: Filters, low: nat, high: nat)
    requires low <= high < |s| && Pruning(s, t, excluded, low, high + 1, Course(s, excluded, low, high + 1))
    requires var chain := Course(s, excluded, low, high + 1).chain;
      Except(t, u, chain.Members()) && Gone(s, u, chain.Members())
    ensures Outcome(s, u, excluded, low, high)
  {
    hide Needed, Open, Course, Dir, Chained, Ended;
  }

  /** A list that could be searched can be searched when it has been pruned: the distances of its holes pass over
      nothing that is left, also between the new end points. */
  lemma PrunedSearchable(s: seq<Entry>, t: seq<Entry>, excluded: Filters, low0: nat, high0: nat, low: nat, high: nat)
    requires low0 <= high0 < |s|
    requires Searchable(s, low0, high0, true) && Outcome(s, t, excluded, low0, high0)
    requires low0 <= low <= high <= high0 && Active(t[low]) && Active(t[high])
    ensures Searchable(t, low, high, true)
  {
    hide Needed, Order, SkipsHoles, Outcome, Descends, WellFormed, IsActive;
    Survivors(s, t, excluded, low0, high0);
    forall i, j | low <= i < j <= high && Active(t[i]) && Active(t[j])
      ensures Cmp(t[i], t[j], true) <= 0
    {
      SameName(t[i], s[i]);
      SameName(t[j], s[j]);
      assert Cmp(s[i], s[j], true) <= 0;
    }
    forall i | low <= i <= high
      ensures WellFormed(t[i].name) && (!Active(t[i]) ==> SkipsHoles(t, i, low, high))
    {
      SameName(t[i], s[i]);
      if !Active(t[i]) {
        PrunedHole(s, t, low0, high0, low, high, i);
      }
    }
  }

  /** What becomes of an entry, if not everything goes well. */
  ghost predicate Descends(e: Entry, was: Entry) {
    e == CLEARED || e == was || (Active(was) && e.name == was.name)
  }

  lemma SameName(e: Entry, was: Entry)
    requires Descends(e, was) && WellFormed(was.name)
    ensures WellFormed(e.name) && (Active(e) ==> e.name == was.name && Active(was))
  {
  }

  lemma Survivors(s: seq<Entry>, t: seq<Entry>, excluded: Filters, low: nat, high: nat)
    requires low <= high < |s| && Outcome(s, t, excluded, low, high)
    ensures |t| == |s| && forall k :: 0 <= k < |s| ==> Descends(t[k], s[k])
  {
    hide Needed, Course;
  }

  lemma PrunedHole(s: seq<Entry>, t: seq<Entry>, low0: nat, high0: nat, low: nat, high: nat, i: nat)
    requires low0 <= low <= i <= high <= high0 < |s| == |t| && Active(t[low]) && Active(t[high]) && !Active(t[i])
    requires forall k :: 0 <= k < |s| ==> Descends(t[k], s[k])
    requires !Active(s[i]) ==> SkipsHoles(s, i, low0, high0)
    ensures SkipsHoles(t, i, low, high)
  {
    assert low < i < high;
  }

  /** Removes the directories that nothing needs, and finds the first and the last entry that is left. */
  method PruneEmptyDirs(sorted: array<Entry>, low0: nat, high0: nat, excluded: Filters)
    returns (low: nat, high: int)
    requires low0 <= high0 < sorted.Length
    requires DepthsGood(sorted[..], high0)
    modifies sorted
    ensures Outcome(old(sorted[..]), sorted[..], excluded, low0, high0)
    ensures PrunedTo(old(sorted[..]), sorted[..], excluded, low0, high0) <==>
      GoesWell(old(sorted[..]), excluded, low0, high0)
    ensures low0 <= low && high <= high0
    ensures forall k :: low0 <= k <= high0 && Active(sorted[k]) ==> low <= k <= high
    ensures low <= high ==> Active(sorted[low]) && Active(sorted[high])
    ensures low <= high && old(Searchable(sorted[..], low0, high0, true)) ==>
      Searchable(sorted[..], low, high, true)
  {
    hide Scan, Chained, Ended, Except, Outcome, Searchable, Needed, Turn, PrunedTo, GoesWell;
    ghost var s := sorted[..];
    var i, prev, depth := low0, 0, 0;
    StartPrune(s, excluded, low0, high0);
    while i <= high0
      invariant low0 <= i <= high0 + 1
      invariant |s| == sorted.Length
      invariant Pruning(s, sorted[..], excluded, low0, i, Course(s, excluded, low0, i))
      invariant prev == Course(s, excluded, low0, i).chain.Top() && depth == Course(s, excluded, low0, i).depth
    {
      prev, depth := PruneNext(sorted, excluded, i, prev, depth, s, low0, high0, Course(s, excluded, low0, i));
      i := i + 1;
    }
    ghost var t := sorted[..];
    DumpAll(sorted, prev, depth, s, Course(s, excluded, low0, high0 + 1).chain);
    ScanEnd(s, t, sorted[..], excluded, low0, high0);
    WellIff(s, sorted[..], excluded, low0, high0);
    low := low0;
    while low <= high0 && !Active(sorted[low])
      invariant low0 <= low <= high0 + 1
      invariant forall k :: low0 <= k < low ==> !Active(sorted[k])
    {
      low := low + 1;
    }
    high := high0;
    while high >= low && !Active(sorted[high])
      invariant low - 1 <= high <= high0
      invariant forall k :: high < k <= high0 ==> !Active(sorted[k])
      invariant low <= high0 ==> Active(sorted[low])
    {
      high := high - 1;
    }
    if low <= high && Searchable(s, low0, high0, true) {
      PrunedSearchable(s, sorted[..], excluded, low0, high0, low, high);
    }
  }

  lemma StartPrune(s: seq<Entry>, excluded: Filters, low: nat, high: nat)
    requires low <= high < |s| && DepthsGood(s, high)
    ensures Pruning(s, s, excluded, low, low, Course(s, excluded, low, low))
    ensures Course(s, excluded, low, low) == Track(End(0), 0, {}, map[])
  {
  }

  // ----- when pruning is right

  /** No depth is counted wrong, and nothing is removed early that is needed. */
  ghost predicate GoesWell(s: seq<Entry>, excluded: Filters, low: nat, high: nat)
    requires low <= high < |s|
  {
    var tr := Course(s, excluded, low, high + 1);
    tr.off == map[] && forall k :: k in tr.early && k < |s| ==> !Needed(s, excluded, k, high + 1)
  }

  /** Of any list, exactly the entries that nothing needs are removed, and all others are as before, if and only if
      this is so. */
  lemma WellIff(s: seq<Entry>, t: seq<Entry>, excluded: Filters, low: nat, high: nat)
    requires low <= high < |s| && Outcome(s, t, excluded, low, high)
    ensures PrunedTo(s, t, excluded, low, high) <==> GoesWell(s, excluded, low, high)
  {
    hide Needed, Course;
    var tr := Course(s, excluded, low, high + 1);
    if tr.off != map[] {
      var k :| k in tr.off;
      assert t[k] != s[k] && t[k] != CLEARED;
    } else if k :| k in tr.early && k < |s| && Needed(s, excluded, k, high + 1) {
      assert t[k] == CLEARED != s[k];
    }
  }

  /** No directory that may be pruned has right behind it one more than one level below. */
  ghost predicate NoJumps(s: seq<Entry>, excluded: Filters, low: nat, high: nat)
    requires high < |s|
  {
    forall i {:trigger s[i]} :: low <= i < high && Dir(s[i]) && !excluded(s[i].name) && Dir(s[i + 1]) ==>
      s[i + 1].depth <= s[i].depth + 1
  }

  /** The directories of the chain stand one level below each other, the last one at `depth`. */
  ghost predicate Dense(s: seq<Entry>, chain: Chain, depth: int) {
    chain.On? ==> chain.dir < |s| && s[chain.dir].depth == depth && Dense(s, chain.up, depth - 1)
  }

  lemma {:induction false} DenseOff(s: seq<Entry>, chain: Chain, depth: int)
    requires Dense(s, chain, depth)
    ensures chain.Off(s, depth) == map[]
    decreases chain
  {
    if chain.On? {
      DenseOff(s, chain.up, depth - 1);
    }
  }

  lemma {:induction false} DensePopped(s: seq<Entry>, chain: Chain, from: int, to: int)
    requires Dense(s, chain, from) && from >= to - 1
    ensures Dense(s, chain.Popped(from - to + 1), to - 1) && chain.Above(s, from - to + 1, to) == {}
    decreases chain
  {
    if chain.On? && from >= to {
      DensePopped(s, chain.up, from - 1, to);
    }
  }

  /** Without such jumps dumping and counting down are right all along. */
  lemma {:induction false} NoJumpsCourse(s: seq<Entry>, excluded: Filters, low: nat, high: nat, i: nat)
    requires low <= i <= high + 1 <= |s| && NoJumps(s, excluded, low, high)
    ensures var tr := Course(s, excluded, low, i);
      && Dense(s, tr.chain, tr.depth) && tr.early == {} && tr.off == map[]
      && (tr.chain.On? ==> low < i && tr.chain.dir == i - 1 && Dir(s[i - 1]) && !excluded(s[i - 1].name))
    decreases i
  {
    if i > low {
      NoJumpsCourse(s, excluded, low, high, i - 1);
      var tr := Course(s, excluded, low, i - 1);
      if tr.chain.On? && Dir(s[i - 1]) {
        assert s[i - 2 + 1].depth <= s[i - 2].depth + 1;
      }
      hide Course;
      DenseTurn(s, excluded, i - 1, tr);
      CourseNext(s, excluded, low, i);
    }
  }

  lemma CourseNext(s: seq<Entry>, excluded: Filters, low: nat, i: nat)
    requires low < i <= |s|
    ensures Course(s, excluded, low, i) == Turn(s, excluded, i - 1, Course(s, excluded, low, i - 1))
  {
  }

  lemma DenseTurn(s: seq<Entry>, excluded: Filters, i: nat, tr: Track)
    requires i < |s| && Dense(s, tr.chain, tr.depth)
    requires Dir(s[i]) && tr.chain.On? ==> s[i].depth <= tr.depth + 1
    ensures var tr' := Turn(s, excluded, i, tr);
      && Dense(s, tr'.chain, tr'.depth) && tr'.early == tr.early && tr'.off == tr.off
      && (tr'.chain.On? ==> tr'.chain.dir == i && Dir(s[i]) && !excluded(s[i].name))
  {
    hide Dir;
    if Dir(s[i]) {
      var d := s[i].depth;
      if tr.chain.On? {
        DensePopped(s, tr.chain, tr.depth, d);
      }
      DenseOff(s, tr.chain.Popped(tr.depth - d + 1), d - 1);
    } else {
      DenseOff(s, tr.chain, tr.depth);
    }
  }

  lemma NoJumpsGoesWell(s: seq<Entry>, excluded: Filters, low: nat, high: nat)
    requires low <= high < |s| && NoJumps(s, excluded, low, high)
    ensures GoesWell(s, excluded, low, high)
  {
    hide Course;
    NoJumpsCourse(s, excluded, low, high, high + 1);
  }

  lemma {:induction false} OffStays(s: seq<Entry>, excluded: Filters, low: nat, i: nat, j: nat)
    requires low <= i <= j <= |s|
    ensures Course(s, excluded, low, i).off.Keys <= Course(s, excluded, low, j).off.Keys
    decreases j
  {
    if i < j {
      OffStays(s, excluded, low, i, j - 1);
    }
  }

  /** A directory whose own successor is the only one excluded, and more than one level below, gets a wrong
      depth. */
  lemma JumpIsOff(s: seq<Entry>, excluded: Filters, low: nat, high: nat, i: nat)
    requires low <= i < high < |s| && Dir(s[i]) && Dir(s[i + 1]) && s[i + 1].depth > s[i].depth + 1
    requires !excluded(s[i].name) && excluded(s[i + 1].name)
    ensures !GoesWell(s, excluded, low, high)
  {
    var a, b := Course(s, excluded, low, i + 1), Course(s, excluded, low, i + 2);
    assert a.chain.On? && a.chain.dir == i && a.depth == s[i].depth;
    assert b == Turn(s, excluded, i + 1, a);
    assert i in b.off;
    OffStays(s, excluded, low, i + 2, high + 1);
  }

  /** For a list without duplicates pruning is right whatever the filters exclude, if and only if no directory has
      right behind it one more than one level below. */
  lemma RightForAllFilters(s: seq<Entry>, low: nat, high: nat)
    requires low <= high < |s|
    requires forall i, j :: low <= i < j <= high ==> s[i].name != s[j].name
    ensures (forall excluded: Filters :: GoesWell(s, excluded, low, high)) <==>
            (forall i {:trigger s[i]} :: low <= i < high && Dir(s[i]) && Dir(s[i + 1]) ==>
               s[i + 1].depth <= s[i].depth + 1)
  {
    hide GoesWell, Dir;
    if i :| low <= i < high && Dir(s[i]) && Dir(s[i + 1]) && s[i + 1].depth > s[i].depth + 1 {
      var name := s[i + 1].name;
      var excluded: Filters := n => n == name;
      JumpIsOff(s, excluded, low, high, i);
    } else {
      forall excluded: Filters
        ensures GoesWell(s, excluded, low, high)
      {
        NoJumpsGoesWell(s, excluded, low, high);
      }
    }
  }

  /** The directories a, a/b/c and a/d, with a file in the last one, but not a/b: a is removed, though a/d and the
      file are kept. */
  lemma MissingParentLosesDir(a: byte, b: byte, c: byte, d: byte, f: byte, flags: Flags, t: seq<Entry>,
                              excluded: Filters)
    requires forall n :: !excluded(n)
    requires var s := [Entry(FileName(None, [a], true), 1, 0, flags),
                       Entry(FileName(Some([a, SLASH, b]), [c], true), 3, 0, flags),
                       Entry(FileName(Some([a]), [d], true), 2, 0, flags),
                       Entry(FileName(Some([a, SLASH, d]), [f], false), 3, 0, flags)];
      Outcome(s, t, excluded, 0, 3)
    ensures |t| == 4 && t[0] == CLEARED == t[1]
    ensures t[2].name == FileName(Some([a]), [d], true) && t[3].name == FileName(Some([a, SLASH, d]), [f], false)
  {
    var s := [Entry(FileName(None, [a], true), 1, 0, flags),
              Entry(FileName(Some([a, SLASH, b]), [c], true), 3, 0, flags),
              Entry(FileName(Some([a]), [d], true), 2, 0, flags),
              Entry(FileName(Some([a, SLASH, d]), [f], false), 3, 0, flags)];
    MissingParentCourse(s, excluded);
    assert Open(s, 2, 4) && Anchor(s[3], excluded) && Needed(s, excluded, 2, 4);
    assert Open(s, 3, 4) && Needed(s, excluded, 3, 4);
    assert !Open(s, 1, 3);
    assert !Needed(s, excluded, 1, 4);
  }

  lemma MissingParentCourse(s: seq<Entry>, excluded: Filters)
    requires |s| == 4 && Dir(s[0]) && Dir(s[1]) && Dir(s[2]) && !Dir(s[3])
    requires s[0].depth == 1 && s[1].depth == 3 && s[2].depth == 2 && forall n :: !excluded(n)
    ensures Course(s, excluded, 0, 4).early == {0} && Course(s, excluded, 0, 4).off == map[]
  {
    var c1 := Course(s, excluded, 0, 1);
    assert c1 == Track(On(0, End(0)), 1, {}, map[]);
    var c2 := Course(s, excluded, 0, 2);
    assert c2 == Track(On(1, On(0, End(0))), 3, {}, map[]);
    var c3 := Course(s, excluded, 0, 3);
    assert On(0, End(0)).Popped(1) == End(0) && On(0, End(0)).Above(s, 1, 2) == {0};
    assert c2.chain.Popped(2) == End(0) && c2.chain.Above(s, 2, 2) == {0};
    assert c3 == Track(On(2, End(0)), 2, {0}, map[]);
    assert End(0).Off(s, 1) == map[] && c3.chain.Off(s, 2) == map[];
  }

  // ----- what that means for names

  /** p is the directory that x is in. */
  ghost predicate IsParent(p: Entry, x: Entry) {
    && p.name.isDir && !IsDotDir(p.name)
    && x.name.dirname == Some(FullPath(p.name)) && x.depth == p.depth + 1
  }

  /** A clean list without holes in which the directory of every entry is listed too. */
  ghost predicate Parented(s: seq<Entry>, low: nat, high: nat)
    requires high < |s|
  {
    && (forall k :: low <= k <= high ==> GoodName(s[k].name))
    && (forall j, k :: low <= j < k <= high ==> Cmp(s[j], s[k], true) < 0)
    && (forall k :: low <= k <= high && s[k].name.dirname.None? ==> s[k].depth == if IsDotDir(s[k].name) then 0 else 1)
    && (forall k :: low <= k <= high && s[k].name.dirname.Some? ==>
         exists p :: low <= p <= high && IsParent(s[p], s[k]))
  }

  lemma InOrder(s: seq<Entry>, low: nat, high: nat, j: nat, k: nat)
    requires high < |s| && Parented(s, low, high) && low <= j < k <= high
    ensures Cmp(s[j], s[k], true) < 0
    ensures Order(s[j].name, s[k].name, true) < 0 && Order(s[k].name, s[j].name, true) > 0
    ensures s[j].name != s[k].name
  {
    hide Order;
    OrderIsTotal(s[j].name, s[k].name, s[j].name, true);
    OrderIsTotal(s[j].name, s[j].name, s[j].name, true);
  }

  /** In a sorted list an entry that is below another one stands in front of it. */
  lemma BelowIsBefore(s: seq<Entry>, low: nat, high: nat, j: nat, k: nat)
    requires high < |s| && Parented(s, low, high) && low <= j <= high && low <= k <= high
    requires Cmp(s[j], s[k], true) < 0
    ensures j < k
  {
    hide Order, GoodName;
    OrderIsTotal(s[j].name, s[k].name, s[j].name, true);
  }

  lemma ParentKey(p: Entry, x: Entry)
    requires GoodName(p.name) && GoodName(x.name) && IsParent(p, x)
    ensures Beneath(x.name, p.name) && SortKey(p.name, true) == Head(x.name)
    ensures Cmp(p, x, true) < 0
  {
    KeySplit(p.name);
    DirectoryBeforeContents(p.name, p.name, x.name);
  }

  /** The directory an entry is in stands in front of it. */
  lemma ParentBefore(s: seq<Entry>, low: nat, high: nat, k: nat) returns (p: nat)
    requires high < |s| && Parented(s, low, high) && low <= k <= high && s[k].name.dirname.Some?
    ensures low <= p < k && IsParent(s[p], s[k])
    ensures Beneath(s[k].name, s[p].name) && SortKey(s[p].name, true) == Head(s[k].name)
  {
    hide Order, GoodName, IsParent;
    p :| low <= p <= high && IsParent(s[p], s[k]);
    ParentKey(s[p], s[k]);
    BelowIsBefore(s, low, high, p, k);
  }

  /** Only "." is at level 0. */
  lemma {:induction false} Levels(s: seq<Entry>, low: nat, high: nat, k: nat)
    requires high < |s| && Parented(s, low, high) && low <= k <= high
    ensures s[k].depth >= 0 && (s[k].depth == 0 <==> IsDotDir(s[k].name))
    decreases k
  {
    hide Order;
    if s[k].name.dirname.Some? {
      var p := ParentBefore(s, low, high, k);
      Levels(s, low, high, p);
      assert GoodName(s[k].name);
    }
  }

  /** Whatever lies beneath a directory has a greater depth. */
  lemma {:induction false} DeeperBeneath(s: seq<Entry>, low: nat, high: nat, d: nat, x: nat)
    requires high < |s| && Parented(s, low, high) && low <= d <= high && low <= x <= high
    requires !IsDotDir(s[d].name) && Beneath(s[x].name, s[d].name)
    ensures s[x].depth > s[d].depth
    decreases x
  {
    hide Order, Parented, GoodName;
    NamesAreGood(s, low, high, d);
    NamesAreGood(s, low, high, x);
    BeneathHasDir(s[x].name, s[d].name);
    var p := ParentBefore(s, low, high, x);
    NamesAreGood(s, low, high, p);
    ParentOrBeneath(s[p].name, s[x].name, s[d].name);
    if s[p].name == s[d].name {
      SameNameSameEntry(s, low, high, p, d);
    } else {
      DeeperBeneath(s, low, high, d, p);
    }
  }

  lemma NamesAreGood(s: seq<Entry>, low: nat, high: nat, k: nat)
    requires high < |s| && Parented(s, low, high) && low <= k <= high
    ensures GoodName(s[k].name) && Active(s[k])
  {
  }

  lemma BeneathHasDir(x: FileName, d: FileName)
    requires Beneath(x, d) && !IsDotDir(d)
    ensures d.isDir && x.dirname.Some?
  {
  }

  lemma SameNameSameEntry(s: seq<Entry>, low: nat, high: nat, j: nat, k: nat)
    requires high < |s| && Parented(s, low, high) && low <= j <= high && low <= k <= high
    requires s[j].name == s[k].name
    ensures j == k
  {
    hide Order, GoodName;
    OrderIsTotal(s[j].name, s[k].name, s[j].name, true);
    assert j < k ==> Cmp(s[j], s[k], true) < 0;
    assert k < j ==> Cmp(s[k], s[j], true) < 0;
  }

  /** What is beneath d is in d, or in a directory beneath d. */
  lemma ParentOrBeneath(p: FileName, x: FileName, d: FileName)
    requires GoodName(p) && GoodName(x) && GoodName(d) && d.isDir && p.isDir && !IsDotDir(d)
    requires SortKey(p, true) == Head(x) && Beneath(x, d)
    ensures p == d || Beneath(p, d)
  {
    KeySplit(d);
    BeneathIsPrefix(p, d);
    if SortKey(d, true) == SortKey(p, true) {
      KeyIsName(p, d);
    }
  }

  /** What is in a directory beneath d is beneath d. */
  lemma BeneathParent(p: FileName, x: FileName, d: FileName)
    requires GoodName(p) && GoodName(x) && GoodName(d) && d.isDir
    requires SortKey(p, true) == Head(x) && Beneath(p, d)
    ensures Beneath(x, d)
  {
    KeySplit(x);
    BeneathIsPrefix(p, d);
    BeneathIsPrefix(x, d);
    assert Leaf(x, true) != [] || Head(x) == SortKey(x, true);
    assert Head(x) <= SortKey(x, true);
  }

  /** What stands between a directory and something beneath it is beneath it as well. */
  lemma BetweenIsBeneath(s: seq<Entry>, low: nat, high: nat, d: nat, y: nat, x: nat)
    requires high < |s| && Parented(s, low, high) && low <= d < y <= x <= high
    requires Beneath(s[x].name, s[d].name)
    ensures Beneath(s[y].name, s[d].name)
  {
    hide Order, GoodName, Parented, Beneath;
    NamesAreGood(s, low, high, d);
    NamesAreGood(s, low, high, y);
    NamesAreGood(s, low, high, x);
    InOrder(s, low, high, d, y);
    if y < x {
      InOrder(s, low, high, y, x);
      DirectoryBeforeContents(s[d].name, s[y].name, s[x].name);
    }
  }

  /** An item sorts before every directory further down in the directory it is in. */
  lemma ItemFirst(x: FileName, d: FileName)
    requires GoodName(x) && GoodName(d) && d.isDir && !IsDotDir(d)
    requires !x.isDir && Head(x) < SortKey(d, true)
    ensures Order(x, d, true) < 0
  {
    KeySplit(x);
    ItemHasMark(d);
    var head: seq<int> := Head(x);
    var k := SortKey(d, true);
    var rest := k[|head|..];
    assert k == head + rest && rest[0] == k[|head|] != 0;
    KeyIsBytes(d);
    LexCommonHead(head, [0] + x.basename, rest);
  }

  lemma LexCommonHead(head: seq<int>, a: seq<int>, b: seq<int>)
    requires a != [] && b != [] && a[0] < b[0]
    ensures Lexicographic.LexSign(head + a, head + b) == -1
  {
    Lexicographic.LexCommon(head, a, b);
  }

  lemma KeyIsBytes(d: FileName)
    ensures forall i :: 0 <= i < |SortKey(d, true)| ==> SortKey(d, true)[i] >= 0
  {
  }

  /** Nothing at the top that is not a directory stands behind a directory. */
  lemma TopIsDeeper(s: seq<Entry>, low: nat, high: nat, d: nat, k: nat)
    requires high < |s| && Parented(s, low, high) && low <= d < k <= high
    requires Dir(s[d]) && s[k].name.dirname.None?
    ensures Dir(s[k]) && s[k].depth <= s[d].depth
  {
    hide Order;
    Levels(s, low, high, d);
    Levels(s, low, high, k);
    assert Cmp(s[d], s[k], true) < 0;
    NonEmptyKey(s[d].name);
    KeySplit(s[k].name);
    if !s[k].name.isDir {
      ItemFirst(s[k].name, s[d].name);
    }
    OrderIsTotal(s[d].name, s[k].name, s[d].name, true);
    DotIsFirst(s[k].name, s[d].name);
  }

  lemma DotIsFirst(x: FileName, d: FileName)
    requires GoodName(x) && GoodName(d) && !IsDotDir(d)
    ensures IsDotDir(x) ==> Order(x, d, true) < 0
  {
    NonEmptyKey(d);
    KeySplit(x);
  }

  /** The entries inside of a directory, by position, are those that lie beneath it by name. */
  lemma {:induction false} OpenIsBeneath(s: seq<Entry>, low: nat, high: nat, d: nat, k: nat)
    requires high < |s| && Parented(s, low, high) && low <= d < k <= high && Dir(s[d])
    ensures Open(s, d, k + 1) <==> Beneath(s[k].name, s[d].name)
    decreases k
  {
    hide Order, Parented, GoodName, Beneath;
    Levels(s, low, high, d);
    if Beneath(s[k].name, s[d].name) {
      forall j | d < j < k + 1 && Dir(s[j])
        ensures s[j].depth > s[d].depth
      {
        BetweenIsBeneath(s, low, high, d, j, k);
        DeeperBeneath(s, low, high, d, j);
      }
    } else if s[k].name.dirname.None? {
      TopIsDeeper(s, low, high, d, k);
    } else {
      var p := ParentBefore(s, low, high, k);
      NamesAreGood(s, low, high, d);
      NamesAreGood(s, low, high, p);
      NamesAreGood(s, low, high, k);
      if p > d {
        OpenIsBeneath(s, low, high, d, p);
        NotInside(s, low, high, d, p, k);
      } else {
        NextToDir(s, low, high, d, p, k);
      }
    }
  }

  /** What is in a directory that is not beneath d is not inside of d. */
  lemma NotInside(s: seq<Entry>, low: nat, high: nat, d: nat, p: nat, k: nat)
    requires high < |s| && Parented(s, low, high) && low <= d < p < k <= high && Dir(s[d])
    requires SortKey(s[p].name, true) == Head(s[k].name) && !Beneath(s[k].name, s[d].name)
    requires Open(s, d, p + 1) <==> Beneath(s[p].name, s[d].name)
    ensures !Open(s, d, k + 1)
  {
    hide Order, GoodName, Beneath;
    if Beneath(s[p].name, s[d].name) {
      BeneathParent(s[p].name, s[k].name, s[d].name);
    }
  }

  lemma ParentIs(p: Entry, x: Entry)
    requires IsParent(p, x)
    ensures p.name.isDir && !IsDotDir(p.name) && x.depth == p.depth + 1
  {
  }

  /** A directory that is next to d, or further up, closes it; an item cannot stand there. */
  lemma NextToDir(s: seq<Entry>, low: nat, high: nat, d: nat, p: nat, k: nat)
    requires high < |s| && Parented(s, low, high) && low <= p <= d < k <= high && Dir(s[d])
    requires IsParent(s[p], s[k]) && Beneath(s[k].name, s[p].name)
    requires SortKey(s[p].name, true) == Head(s[k].name) && !Beneath(s[k].name, s[d].name)
    ensures !Open(s, d, k + 1)
  {
    hide Order, Beneath, Parented, GoodName, IsDotDir;
    assert p < d;
    ParentIs(s[p], s[k]);
    NamesAreGood(s, low, high, d);
    NamesAreGood(s, low, high, p);
    NamesAreGood(s, low, high, k);
    BetweenIsBeneath(s, low, high, p, d, k);
    DeeperBeneath(s, low, high, p, d);
    Levels(s, low, high, p);
    Levels(s, low, high, d);
    Levels(s, low, high, k);
    BeneathIsPrefix(s[d].name, s[p].name);
    InOrder(s, low, high, d, k);
    if !s[k].name.isDir {
      ItemFirst(s[k].name, s[d].name);
    }
  }

  /** Listing every parent rules out jumps in depth. */
  lemma ParentedNoJumps(s: seq<Entry>, excluded: Filters, low: nat, high: nat)
    requires high < |s| && Parented(s, low, high)
    ensures NoJumps(s, excluded, low, high)
  {
    hide Order, Parented, Dir;
    forall i {:trigger s[i]} | low <= i < high && Dir(s[i]) && Dir(s[i + 1])
      ensures s[i + 1].depth <= s[i].depth + 1
    {
      NextLevel(s, low, high, i, i + 1);
    }
  }

  lemma NextLevel(s: seq<Entry>, low: nat, high: nat, i: nat, j: nat)
    requires high < |s| && Parented(s, low, high) && low <= i < j == i + 1 <= high && Dir(s[i]) && Dir(s[j])
    ensures s[j].depth <= s[i].depth + 1
  {
    hide Order, Parented, GoodName, Beneath, IsParent, IsDotDir;
    Levels(s, low, high, i);
    if s[j].name.dirname.None? {
      TopIsDeeper(s, low, high, i, j);
    } else {
      var p := ParentBefore(s, low, high, j);
      Levels(s, low, high, p);
      ParentIs(s[p], s[j]);
      if p < i {
        BetweenIsBeneath(s, low, high, p, i, j);
        DeeperBeneath(s, low, high, p, i);
      }
    }
  }

  /** x is d itself or lies beneath it, and is no directory, or an excluded one. */
  ghost predicate KeepsDir(x: Entry, d: Entry, excluded: Filters) {
    && (x == d || Beneath(x.name, d.name))
    && (!x.name.isDir || x.depth == 0 || excluded(x.name))
  }

  /** In a list that names all parents, pruning keeps a directory exactly if it, or something beneath it,
      is no directory or is an excluded one; and what is kept is as it was, depth included. */
  lemma PruneByNames(s: seq<Entry>, t: seq<Entry>, excluded: Filters, low: nat, high: nat, d: nat)
    requires high < |s| && Parented(s, low, high) && PrunedTo(s, t, excluded, low, high)
    requires low <= d <= high && Dir(s[d])
    ensures Active(t[d]) <==> exists m :: low <= m <= high && KeepsDir(s[m], s[d], excluded)
    ensures Active(t[d]) ==> t[d] == s[d]
  {
    hide Order, Parented, Anchor, Beneath, Open;
    NamesAreGood(s, low, high, d);
    if Needed(s, excluded, d, high + 1) {
      var m :| d <= m < high + 1 && Open(s, d, m + 1) && Anchor(s[m], excluded);
      if m > d {
        OpenIsBeneath(s, low, high, d, m);
      }
      NamesAreGood(s, low, high, m);
      AnchorIs(s[m], excluded);
      assert KeepsDir(s[m], s[d], excluded);
    }
    if m :| low <= m <= high && KeepsDir(s[m], s[d], excluded) {
      NamesAreGood(s, low, high, m);
      AnchorIs(s[m], excluded);
      InsideIsOpen(s, low, high, d, m);
    }
  }

  lemma AnchorIs(x: Entry, excluded: Filters)
    requires GoodName(x.name)
    ensures Anchor(x, excluded) <==> !x.name.isDir || x.depth == 0 || excluded(x.name)
  {
  }

  lemma InsideIsOpen(s: seq<Entry>, low: nat, high: nat, d: nat, m: nat)
    requires high < |s| && Parented(s, low, high) && low <= d <= high && low <= m <= high && Dir(s[d])
    requires s[m] == s[d] || Beneath(s[m].name, s[d].name)
    ensures d <= m && Open(s, d, m + 1)
  {
    hide Order, Parented, Beneath, GoodName;
    NamesAreGood(s, low, high, d);
    NamesAreGood(s, low, high, m);
    if s[m] == s[d] {
      SameNameSameEntry(s, low, high, m, d);
    } else {
      assert s[d].name.isDir;
      DirectoryBeforeContents(s[d].name, s[d].name, s[m].name);
      BelowIsBefore(s, low, high, d, m);
      OpenIsBeneath(s, low, high, d, m);
    }
  }

  // ----- holes

  /** Something real inside of k is an anchor; a removed entry is inside of k. */
  ghost predicate ReallyNeeded(s: seq<Entry>, excluded: Filters, k: nat, i: nat)
    requires k < |s| && i <= |s|
  {
    exists m :: k <= m < i && Open(s, k, m + 1) && Active(s[m]) && Anchor(s[m], excluded)
  }

  ghost predicate HoleInside(s: seq<Entry>, k: nat, i: nat)
    requires k < |s| && i <= |s|
  {
    exists m :: k <= m < i && Open(s, k, m + 1) && !Active(s[m])
  }

  /** An entry that was removed before, as a duplicate, counts as something that is no directory: so the
      pruning keeps just the directories that are really needed exactly if no directory has such a hole
      inside of it without being needed anyway. */
  lemma HolesKeepDirs(s: seq<Entry>, t: seq<Entry>, excluded: Filters, low: nat, high: nat)
    requires low <= high < |s| && PrunedTo(s, t, excluded, low, high)
    ensures
      (forall d :: low <= d <= high && Active(s[d]) ==>
         (Active(t[d]) <==> ReallyNeeded(s, excluded, d, high + 1)))
      <==>
      (forall d :: low <= d <= high && Active(s[d]) && HoleInside(s, d, high + 1) ==>
         ReallyNeeded(s, excluded, d, high + 1))
  {
    hide Open;
    forall d | low <= d <= high && Active(s[d])
      ensures Active(t[d]) <==>
        ReallyNeeded(s, excluded, d, high + 1) || HoleInside(s, d, high + 1)
    {
      assert Active(t[d]) <==> Needed(s, excluded, d, high + 1);
      if Needed(s, excluded, d, high + 1) {
        var m :| d <= m < high + 1 && Open(s, d, m + 1) && Anchor(s[m], excluded);
        assert Active(s[m]) || !Active(s[m]);
      }
    }
  }

  /** Two empty directories at the top of a transfer, the first one listed twice: its removed duplicate
      keeps it, while the other one is pruned. */
  lemma DuplicateKeepsEmptyDir(x: byte, y: byte, flags: Flags, excluded: Filters)
    requires !excluded(FileName(None, [x], true)) && !excluded(FileName(None, [y], true))
    ensures var a, b := Entry(FileName(None, [x], true), 1, 0, flags), Entry(FileName(None, [y], true), 1, 0, flags);
      PrunedTo([a, CLEARED, b], [a, CLEARED, CLEARED], excluded, 0, 2)
  {
    var a, b := Entry(FileName(None, [x], true), 1, 0, flags), Entry(FileName(None, [y], true), 1, 0, flags);
    var s := [a, CLEARED, b];
    assert Open(s, 0, 2) && Anchor(s[1], excluded);
    assert Needed(s, excluded, 0, 3);
    assert Open(s, 1, 2) && Needed(s, excluded, 1, 3);
    assert !Needed(s, excluded, 2, 3);
  }
}
