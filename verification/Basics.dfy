/** Vocabulary shared by every part of the model: bytes, C integer widths and small sequence facts. */
module Basics {

  /** A C `unsigned char`. */
  type byte = x: int | 0 <= x < 256

  type bytes = seq<byte>

  const TWO_TO_THE_16: int := 0x1_0000
  const TWO_TO_THE_32: int := 0x1_0000_0000

  /** The longest path name, its NUL included. */
  const MAXPATHLEN: nat := 4096

  datatype Option<+T> = None | Some(value: T)

  /** Whether bytes can be a C string. */
  predicate NulFree(s: bytes) {
    forall i :: 0 <= i < |s| ==> s[i] != 0
  }

  function Power2(n: nat): (p: nat)
    ensures p > 0
  {
    if n == 0 then 1 else 2 * Power2(n - 1)
  }

  predicate PowerOfTwo(n: nat) {
    n == 1 || (n > 1 && n % 2 == 0 && PowerOfTwo(n / 2))
  }

  function Min(a: int, b: int): int {
    if a < b then a else b
  }

  function Max(a: int, b: int): int {
    if a > b then a else b
  }

  /** The concatenation of a sequence of sequences. */
  function Flatten<T>(parts: seq<seq<T>>): seq<T> {
    if parts == [] then [] else Flatten(parts[..|parts| - 1]) + parts[|parts| - 1]
  }

  /** What the items of a sequence stand for, one after the other. */
  function Concat<T, U>(f: T -> seq<U>, items: seq<T>): seq<U> {
    if items == [] then [] else f(items[0]) + Concat(f, items[1..])
  }

  lemma {:induction false} ConcatAppend<T, U>(f: T -> seq<U>, items: seq<T>, last: T)
    ensures Concat(f, items + [last]) == Concat(f, items) + f(last)
  {
    if items == [] {
      assert items + [last] == [last];
      assert Concat(f, [last]) == f(last) + Concat(f, []);
    } else {
      assert (items + [last])[1..] == items[1..] + [last];
      ConcatAppend(f, items[1..], last);
      AppendAssoc(f(items[0]), Concat(f, items[1..]), f(last));
    }
  }

  lemma AppendAssoc<T>(a: seq<T>, b: seq<T>, c: seq<T>)
    ensures a + b + c == a + (b + c)
  {
  }

  lemma AppendHead<T>(a: seq<T>, b: seq<T>)
    requires a != []
    ensures (a + b)[0] == a[0] && (a + b)[1..] == a[1..] + b
  {
  }

  lemma SplitSlice<T>(s: seq<T>, a: nat, b: nat, c: nat)
    requires a <= b <= c <= |s|
    ensures s[a..c] == s[a..b] + s[b..c]
  {
  }

  lemma AppendTwoSlices<T>(prefix: seq<T>, s: seq<T>, a: nat, b: nat, c: nat)
    requires a <= b <= c <= |s|
    ensures prefix + s[a..c] == prefix + s[a..b] + s[b..c]
  {
    SplitSlice(s, a, b, c);
    AppendAssoc(prefix, s[a..b], s[b..c]);
  }

  lemma SliceLeft<T>(a: seq<T>, b: seq<T>, i: nat, j: nat)
    requires i <= j <= |a|
    ensures (a + b)[i..j] == a[i..j]
  {
  }

  lemma SliceRight<T>(a: seq<T>, b: seq<T>, i: nat, j: nat)
    requires |a| <= i <= j <= |a| + |b|
    ensures (a + b)[i..j] == b[i - |a|..j - |a|]
  {
  }

  lemma SliceSlice<T>(s: seq<T>, a: nat, i: nat, j: nat)
    requires a <= i <= j <= |s|
    ensures s[a..][i - a..j - a] == s[i..j]
  {
  }

  lemma FlattenAppend<T>(parts: seq<seq<T>>, part: seq<T>)
    ensures Flatten(parts + [part]) == Flatten(parts) + part
  {
    assert (parts + [part])[..|parts|] == parts;
  }
}
