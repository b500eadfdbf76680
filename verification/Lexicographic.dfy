/** Lexicographic order on sequences of numbers, a proper prefix being smaller. */
module Lexicographic {

  function LexSign(a: seq<int>, b: seq<int>): (sign: int)
    ensures -1 <= sign <= 1
  {
    if a == [] then if b == [] then 0 else -1
    else if b == [] then 1
    else if a[0] != b[0] then if a[0] < b[0] then -1 else 1
    else LexSign(a[1..], b[1..])
  }

  lemma {:induction false} LexEqual(a: seq<int>, b: seq<int>)
    ensures LexSign(a, b) == 0 <==> a == b
  {
    if a != [] && b != [] {
      LexEqual(a[1..], b[1..]);
      assert a == [a[0]] + a[1..] && b == [b[0]] + b[1..];
    }
  }

  lemma {:induction false} LexFlip(a: seq<int>, b: seq<int>)
    ensures LexSign(a, b) == -LexSign(b, a)
  {
    if a != [] && b != [] {
      LexFlip(a[1..], b[1..]);
    }
  }

  lemma {:induction false} LexTransitive(a: seq<int>, b: seq<int>, c: seq<int>)
    requires LexSign(a, b) <= 0 && LexSign(b, c) <= 0
    ensures LexSign(a, c) <= 0
    ensures LexSign(a, b) < 0 || LexSign(b, c) < 0 ==> LexSign(a, c) < 0
  {
    if a != [] && b != [] && c != [] && a[0] == b[0] == c[0] {
      LexTransitive(a[1..], b[1..], c[1..]);
    }
  }

  /** A common prefix does not matter. */
  lemma {:induction false} LexCommon(p: seq<int>, a: seq<int>, b: seq<int>)
    ensures LexSign(p + a, p + b) == LexSign(a, b)
  {
    if p == [] {
      assert p + a == a && p + b == b;
    } else {
      assert (p + a)[1..] == p[1..] + a && (p + b)[1..] == p[1..] + b;
      LexCommon(p[1..], a, b);
    }
  }

  /** The first place at which two sequences differ decides: the smaller number comes first. */
  lemma LexFirstDifference(a: seq<int>, b: seq<int>, k: nat)
    requires k < |a| && k < |b| && a[..k] == b[..k] && a[k] < b[k]
    ensures LexSign(a, b) == -1
  {
    assert a == a[..k] + a[k..] && b == b[..k] + b[k..];
    LexCommon(a[..k], a[k..], b[k..]);
  }

  /** Where two sequences part decides, whatever follows. */
  lemma {:induction false} LexPart(x: seq<int>, y: seq<int>, a: seq<int>, b: seq<int>)
    requires !(x <= y) && !(y <= x)
    ensures LexSign(x + a, y + b) == LexSign(x, y)
  {
    assert (x + a)[0] == x[0] && (y + b)[0] == y[0];
    if x[0] == y[0] {
      assert (x + a)[1..] == x[1..] + a && (y + b)[1..] == y[1..] + b;
      assert x == [x[0]] + x[1..] && y == [y[0]] + y[1..];
      LexPart(x[1..], y[1..], a, b);
    }
  }

  /** Whatever lies between a sequence and an extension of it is itself an extension. */
  lemma {:induction false} LexBetween(p: seq<int>, y: seq<int>, x: seq<int>)
    requires p <= x && LexSign(p, y) <= 0 && LexSign(y, x) <= 0
    ensures p <= y
  {
    if p != [] {
      LexBetween(p[1..], y[1..], x[1..]);
      assert p[0] == y[0] == x[0];
    }
  }

  /** A prefix is not greater. */
  lemma {:induction false} LexPrefix(p: seq<int>, x: seq<int>)
    requires p <= x
    ensures LexSign(p, x) == if p == x then 0 else -1
  {
    if p != [] {
      LexPrefix(p[1..], x[1..]);
    }
  }
}
