/** io.c: file-list indices, written as differences against state that both ends keep. */
module Indices {
  import opened Basics
  import opened Wire
  import opened Varint

  const NDX_DONE: int := -1
  const INT32_MAX: int := 0x7FFF_FFFF

  /** The last positive index, and the last negative one with its sign turned. */
  datatype Previous = Previous(positive: int, negative: int)

  const START: Previous := Previous(-1, 1)

  ghost predicate Reached(prev: Previous) {
    -1 <= prev.positive <= INT32_MAX && 1 <= prev.negative <= INT32_MAX
  }

  /** The state after an index; NDX_DONE has no effect. */
  function After(prev: Previous, ndx: int): Previous {
    if ndx >= 0 then prev.(positive := ndx) else if ndx == NDX_DONE then prev else prev.(negative := -ndx)
  }

  /** Index and difference in one, two or five bytes. */
  function Difference(num: int, diff: int): bytes
    requires 0 <= num <= INT32_MAX
  {
    if 0 < diff < 0xFE then [diff]
    else if diff < 0 || diff > 0x7FFF then
      [0xFE, num / 0x100_0000 + 0x80, num % 0x100, num / 0x100 % 0x100, num / 0x1_0000 % 0x100]
    else [0xFE, diff / 0x100, diff % 0x100]
  }

  function Encode(prev: Previous, ndx: int): bytes
    requires -INT32_MAX <= ndx <= INT32_MAX
  {
    if ndx >= 0 then Difference(ndx, ndx - prev.positive)
    else if ndx == NDX_DONE then [0]
    else [0xFF] + Difference(-ndx, -ndx - prev.negative)
  }

  /** The number behind a difference that starts with byte b0. */
  function Resolve(b0: byte, s: bytes, prev: int): Read<int> {
    if b0 != 0xFE then Got(b0 + prev, s)
    else if |s| < 2 then Fail
    else if s[0] < 0x80 then Got(s[0] * 0x100 + s[1] + prev, s[2..])
    else if |s| < 4 then Fail
    else Got(Number([s[1], s[2], s[3], s[0] - 0x80]), s[4..])
  }

  function Decode(prev: Previous, s: bytes): Read<int> {
    if |s| < 1 then Fail
    else if s[0] == 0xFF then
      if |s| < 2 then Fail
      else
        match Resolve(s[1], s[2..], prev.negative)
        case Fail => Fail
        case Got(num, rest) => Got(-num, rest)
    else if s[0] == 0 then Got(NDX_DONE, s[1..])
    else Resolve(s[0], s[1..], prev.positive)
  }

  /** The state after reading: the first byte tells which number is replaced. */
  function ReadState(prev: Previous, s: bytes, value: int): Previous {
    if s == [] || s[0] == 0 then prev
    else if s[0] == 0xFF then prev.(negative := -value)
    else prev.(positive := value)
  }

  lemma DifferenceBack(num: int, prev: int, rest: bytes)
    requires 0 <= num <= INT32_MAX && prev >= -1
    ensures var d := Difference(num, num - prev);
      d != [] && d[0] != 0 && d[0] != 0xFF && Resolve(d[0], d[1..] + rest, prev) == Got(num, rest)
  {
    var d := Difference(num, num - prev);
    var s := d[1..] + rest;
    if |d| == 5 {
      assert s[0] == d[1] && s[1] == d[2] && s[2] == d[3] && s[3] == d[4] && s[4..] == rest;
      FourBytes(num);
    } else if |d| == 3 {
      assert s[0] == d[1] && s[1] == d[2] && s[2..] == rest;
    } else {
      assert s == rest;
    }
  }

  lemma FourBytes(num: int)
    requires 0 <= num <= INT32_MAX
    ensures Number([num % 0x100, num / 0x100 % 0x100, num / 0x1_0000 % 0x100, num / 0x100_0000]) == num
  {
    var q1, q2, q3 := num / 0x100, num / 0x1_0000, num / 0x100_0000;
    assert num == num % 0x100 + 0x100 * q1 && q1 == q1 % 0x100 + 0x100 * q2 && q2 == q2 % 0x100 + 0x100 * q3;
    NumberOfFour(num % 0x100, q1 % 0x100, q2 % 0x100, q3);
  }

  lemma NumberOfFour(a: byte, b: byte, c: byte, d: byte)
    ensures Number([a, b, c, d]) == a + 0x100 * (b + 0x100 * (c + 0x100 * d))
  {
    assert [a, b, c, d][1..] == [b, c, d] && [b, c, d][1..] == [c, d] && [c, d][1..] == [d] && [d][1..] == [];
    assert Number([d]) == d;
    assert Number([c, d]) == c + 0x100 * d;
    assert Number([b, c, d]) == b + 0x100 * (c + 0x100 * d);
  }

  /** Every index is read back, with exactly its own bytes consumed, by a reader whose state agrees. */
  lemma DecodeEncode(prev: Previous, ndx: int, rest: bytes)
    requires Reached(prev) && -INT32_MAX <= ndx <= INT32_MAX
    ensures Decode(prev, Encode(prev, ndx) + rest) == Got(ndx, rest)
    ensures ReadState(prev, Encode(prev, ndx) + rest, ndx) == After(prev, ndx)
    ensures Reached(After(prev, ndx))
  {
    hide Number, Resolve, Difference;
    var s := Encode(prev, ndx) + rest;
    if ndx >= 0 {
      DifferenceBack(ndx, prev.positive, rest);
      var d := Difference(ndx, ndx - prev.positive);
      assert s[1..] == d[1..] + rest;
    } else if ndx == NDX_DONE {
      assert s[1..] == rest;
    } else {
      DifferenceBack(-ndx, prev.negative, rest);
      var d := Difference(-ndx, -ndx - prev.negative);
      assert s[1] == d[0] && s[2..] == d[1..] + rest;
    }
  }

  /** How many bytes an index takes: the next one a single byte, which is 1. */
  lemma IndexBytes(prev: Previous, ndx: int)
    requires Reached(prev) && -INT32_MAX <= ndx <= INT32_MAX
    ensures ndx == -1 ==> Encode(prev, ndx) == [0]
    ensures ndx == prev.positive + 1 ==> Encode(prev, ndx) == [1]
    ensures ndx >= 0 && prev.positive < ndx < prev.positive + 254 ==> Encode(prev, ndx) == [ndx - prev.positive]
    ensures ndx >= 0 && (ndx == prev.positive || prev.positive + 254 <= ndx <= prev.positive + 0x7FFF) ==>
      |Encode(prev, ndx)| == 3
    ensures ndx >= 0 && (ndx < prev.positive || ndx > prev.positive + 0x7FFF) ==> |Encode(prev, ndx)| == 5
    ensures ndx < -1 ==> Encode(prev, ndx)[0] == 0xFF && |Encode(prev, ndx)| in {2, 4, 6}
  {
  }

  // ----- whole streams of integers

  /** What the two ends write and read in turn: a 32-bit number, a 64-bit number with at least so many
      bytes, or an index. */
  datatype Kind = Int | Long(least: nat) | Index

  datatype Item = Item(kind: Kind, value: int)

  ghost predicate GoodKind(kind: Kind) {
    kind.Long? ==> 3 <= kind.least <= 8
  }

  ghost predicate GoodItem(item: Item) {
    && GoodKind(item.kind)
    && match item.kind
       case Int => Signed(item.value, 4)
       case Long(_) => Signed(item.value, 8)
       case Index => -INT32_MAX <= item.value <= INT32_MAX
  }

  ghost predicate GoodItems(items: seq<Item>) {
    forall i :: 0 <= i < |items| ==> GoodItem(items[i])
  }

  function WriteItem(prev: Previous, item: Item): bytes
    requires GoodItem(item)
  {
    match item.kind
    case Int => WriteNum(item.value, 4, 1)
    case Long(least) => WriteNum(item.value, 8, least)
    case Index => Encode(prev, item.value)
  }

  function Next(prev: Previous, item: Item): Previous {
    if item.kind.Index? then After(prev, item.value) else prev
  }

  function ReadItem(prev: Previous, kind: Kind, s: bytes): Read<int>
    requires GoodKind(kind)
  {
    match kind
    case Int => ReadNum(s, 4, 1)
    case Long(least) => ReadNum(s, 8, least)
    case Index => Decode(prev, s)
  }

  function WriteItems(prev: Previous, items: seq<Item>): bytes
    requires GoodItems(items)
    decreases |items|
  {
    if items == [] then [] else WriteItem(prev, items[0]) + WriteItems(Next(prev, items[0]), items[1..])
  }

  /** What the other end reads, knowing only the kinds. */
  function ReadItems(prev: Previous, kinds: seq<Kind>, s: bytes): Read<(seq<Item>, Previous)>
    requires forall i :: 0 <= i < |kinds| ==> GoodKind(kinds[i])
    decreases |kinds|
  {
    if kinds == [] then Got(([], prev), s)
    else
      match ReadItem(prev, kinds[0], s)
      case Fail => Fail
      case Got(value, rest) =>
        var item := Item(kinds[0], value);
        match ReadItems(Next(prev, item), kinds[1..], rest)
        case Fail => Fail
        case Got((items, last), rest') => Got(([item] + items, last), rest')
  }

  function KindsOf(items: seq<Item>): (kinds: seq<Kind>)
    requires GoodItems(items)
    ensures |kinds| == |items| && forall i :: 0 <= i < |kinds| ==> kinds[i] == items[i].kind && GoodKind(kinds[i])
  {
    if items == [] then [] else [items[0].kind] + KindsOf(items[1..])
  }

  function Last(prev: Previous, items: seq<Item>): Previous
    decreases |items|
  {
    if items == [] then prev else Last(Next(prev, items[0]), items[1..])
  }

  /** Any mix of numbers and indices is read back unchanged, exactly the written bytes are consumed, and the
      index state is the same at both ends all the way. */
  lemma {:induction false} ReadWriteItems(prev: Previous, items: seq<Item>, rest: bytes)
    requires Reached(prev) && GoodItems(items)
    ensures ReadItems(prev, KindsOf(items), WriteItems(prev, items) + rest) == Got((items, Last(prev, items)), rest)
    ensures Reached(Last(prev, items))
    decreases |items|
  {
    if items == [] {
      assert WriteItems(prev, items) + rest == rest;
    } else {
      var item, more := items[0], WriteItems(Next(prev, items[0]), items[1..]);
      AppendAssoc(WriteItem(prev, item), more, rest);
      ReadItemBack(prev, item, more + rest);
      ReadWriteItems(Next(prev, item), items[1..], rest);
      assert KindsOf(items)[1..] == KindsOf(items[1..]);
      assert [item] + items[1..] == items;
    }
  }

  lemma ReadItemBack(prev: Previous, item: Item, rest: bytes)
    requires Reached(prev) && GoodItem(item)
    ensures ReadItem(prev, item.kind, WriteItem(prev, item) + rest) == Got(item.value, rest)
    ensures Reached(Next(prev, item))
  {
    match item.kind
    case Int => ReadWriteNum(item.value, 4, 1, rest);
    case Long(least) => ReadWriteNum(item.value, 8, least, rest);
    case Index => DecodeEncode(prev, item.value, rest);
  }

  // ----- the code

  /** One end's state. */
  class NdxEnd {
    var prevPositive: int
    var prevNegative: int

    function State(): Previous
      reads this
    {
      Previous(prevPositive, prevNegative)
    }

    constructor ()
      ensures State() == START && Reached(State())
    {
      prevPositive, prevNegative := -1, 1;
    }

    /** write_ndx, from protocol 30 on. */
    method WriteNdx(index: int) returns (b: bytes)
      requires Reached(State()) && -INT32_MAX <= index <= INT32_MAX
      modifies this
      ensures b == Encode(old(State()), index)
      ensures State() == After(old(State()), index) && Reached(State())
    {
      var ndx, diff := index, 0;
      b := [];
      if ndx >= 0 {
        diff := ndx - prevPositive;
        prevPositive := ndx;
      } else if ndx == NDX_DONE {
        return [0];
      } else {
        b := [0xFF];
        ndx := -ndx;
        diff := ndx - prevNegative;
        prevNegative := ndx;
      }
      if diff < 0xFE && diff > 0 {
        b := b + [diff];
      } else if diff < 0 || diff > 0x7FFF {
        b := b + [0xFE];
        b := b + [ndx / 0x100_0000 + 0x80];
        b := b + [ndx % 0x100];
        b := b + [ndx / 0x100 % 0x100];
        b := b + [ndx / 0x1_0000 % 0x100];
      } else {
        b := b + [0xFE];
        b := b + [diff / 0x100];
        b := b + [diff % 0x100];
      }
    }

    /** read_ndx, from protocol 30 on. */
    method ReadNdx(s: bytes) returns (r: Read<int>)
      modifies this
      ensures r == Decode(old(State()), s)
      ensures r.Got? ==> State() == ReadState(old(State()), s, r.value)
    {
      if |s| < 1 {
        return Fail;
      }
      var negative, at, prev := false, 0, prevPositive;
      if s[0] == 0xFF {
        if |s| < 2 {
          return Fail;
        }
        negative, at, prev := true, 1, prevNegative;
      } else if s[0] == 0 {
        return Got(NDX_DONE, s[1..]);
      }
      var num;
      var rest := s[at + 1..];
      if s[at] == 0xFE {
        if |rest| < 2 {
          return Fail;
        }
        if rest[0] >= 0x80 {
          if |rest| < 4 {
            return Fail;
          }
          num := Number([rest[1], rest[2], rest[3], rest[0] - 0x80]);
          rest := rest[4..];
        } else {
          num := rest[0] * 0x100 + rest[1] + prev;
          rest := rest[2..];
        }
      } else {
        num := s[at] + prev;
      }
      if negative {
        prevNegative := num;
        num := -num;
      } else {
        prevPositive := num;
      }
      r := Got(num, rest);
    }
  }
}
