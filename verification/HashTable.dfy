/** hashtable.c: an open-addressing table with linear probing, which grows by moving its entries. */
module HashTable {
  import opened Basics

  /** HASH_LOAD_LIMIT */
  function LoadLimit(size: nat): nat {
    size * 3 / 4
  }

  /** How many steps of probing lead from slot h to slot i. */
  function Dist(h: nat, i: nat, size: nat): int {
    if i >= h then i - h else i + size - h
  }

  /** Every slot that probing passes from h to i is in use. */
  ghost predicate NoGap(keys: seq<int>, h: nat, i: nat) {
    forall m :: 0 <= m < |keys| && Dist(h, m, |keys|) < Dist(h, i, |keys|) ==> keys[m] != 0
  }

  /** How many slots are in use. */
  function NumUsed(keys: seq<int>): (n: nat)
    ensures n <= |keys|
  {
    if keys == [] then 0 else NumUsed(keys[..|keys| - 1]) + if keys[|keys| - 1] != 0 then 1 else 0
  }

  /** The keys and data of a table that stands for a map: every key stands once, is reached from its hash
      slot without a gap, and has its datum beside it. */
  ghost predicate Holds<V>(keys: seq<int>, data: seq<V>, hash: int -> nat, contents: map<int, V>) {
    && |keys| == |data| > 0
    && 0 !in contents
    && (forall i :: 0 <= i < |keys| && keys[i] != 0 ==> keys[i] in contents && contents[keys[i]] == data[i])
    && (forall k :: k in contents ==> k in keys)
    && (forall i, j :: 0 <= i < j < |keys| && keys[i] != 0 ==> keys[i] != keys[j])
    && (forall i :: 0 <= i < |keys| && keys[i] != 0 ==> NoGap(keys, hash(keys[i]) % |keys|, i))
  }

  lemma {:induction false} AllUsed(keys: seq<int>)
    ensures NumUsed(keys) == |keys| <==> forall i :: 0 <= i < |keys| ==> keys[i] != 0
  {
    if keys != [] {
      var init := keys[..|keys| - 1];
      AllUsed(init);
      assert forall i :: 0 <= i < |init| ==> init[i] == keys[i];
    }
  }

  lemma {:induction false} OneMoreUsed(keys: seq<int>, at: nat, key: int)
    requires at < |keys| && keys[at] == 0 && key != 0
    ensures NumUsed(keys[at := key]) == NumUsed(keys) + 1
  {
    var last := |keys| - 1;
    if at < last {
      OneMoreUsed(keys[..last], at, key);
      assert keys[at := key][..last] == keys[..last][at := key];
    } else {
      assert keys[at := key][..last] == keys[..last];
    }
  }

  lemma {:induction false} NoneUsed(keys: seq<int>)
    requires forall i :: 0 <= i < |keys| ==> keys[i] == 0
    ensures NumUsed(keys) == 0
  {
    if keys != [] {
      NoneUsed(keys[..|keys| - 1]);
    }
  }

  /** With fewer entries than slots there is a free slot. */
  lemma FreeSlot(keys: seq<int>)
    requires NumUsed(keys) < |keys|
    ensures exists z :: 0 <= z < |keys| && keys[z] == 0
  {
    AllUsed(keys);
  }

  /** A key that probing has not met in front of a free slot is not in the table. */
  lemma NotThere<V>(keys: seq<int>, data: seq<V>, hash: int -> nat, contents: map<int, V>, key: int, at: nat)
    requires Holds(keys, data, hash, contents) && key != 0 && at < |keys| && keys[at] == 0
    requires forall m ::
      0 <= m < |keys| && Dist(hash(key) % |keys|, m, |keys|) < Dist(hash(key) % |keys|, at, |keys|) ==>
      keys[m] != key
    ensures key !in contents
  {
    var h := hash(key) % |keys|;
    forall i | 0 <= i < |keys|
      ensures keys[i] != key
    {
      assert i != at ==> Dist(h, i, |keys|) != Dist(h, at, |keys|);
      assert keys[i] == key ==> NoGap(keys, h, i);
    }
  }

  /** Storing a new key in the first free slot on its way. */
  lemma Stored<V>(keys: seq<int>, data: seq<V>, hash: int -> nat, contents: map<int, V>, key: int, at: nat, zero: V)
    requires Holds(keys, data, hash, contents) && key != 0 && at < |keys| && keys[at] == 0
    requires NoGap(keys, hash(key) % |keys|, at) && key !in contents
    ensures Holds(keys[at := key], data[at := zero], hash, contents[key := zero])
    ensures NumUsed(keys[at := key]) == NumUsed(keys) + 1
  {
    var keys' := keys[at := key];
    forall i | 0 <= i < |keys'| && keys'[i] != 0
      ensures NoGap(keys', hash(keys'[i]) % |keys'|, i)
    {
      assert i != at ==> NoGap(keys, hash(keys[i]) % |keys|, i);
    }
    assert forall i :: 0 <= i < |keys| && keys[i] != 0 ==> keys[i] != key;
    forall k | k in contents[key := zero]
      ensures k in keys'
    {
      if k == key {
        assert keys'[at] == key;
      } else {
        var i :| 0 <= i < |keys| && keys[i] == k;
        assert keys'[i] == k;
      }
    }
    OneMoreUsed(keys, at, key);
  }

  /** The keys that a node can hold. */
  predicate Fits(key: int, key64: bool) {
    if key64 then -0x8000_0000_0000_0000 <= key < 0x8000_0000_0000_0000 else -0x8000_0000 <= key < 0x8000_0000
  }

  lemma LimitFits(size: nat)
    requires size >= 16
    ensures LoadLimit(size) + 1 < size
  {
  }

  lemma HoldsSome<V>(keys: seq<int>, data: seq<V>, hash: int -> nat, contents: map<int, V>)
    requires Holds(keys, data, hash, contents)
    ensures |keys| == |data| > 0
  {
  }

  lemma KeyThere<V>(keys: seq<int>, data: seq<V>, hash: int -> nat, contents: map<int, V>, at: nat)
    requires Holds(keys, data, hash, contents) && at < |keys| && keys[at] != 0
    ensures keys[at] in contents
  {
  }

  ghost predicate Apart(a: object, b: object) {
    a != b
  }

  class HashTable<V> {
    const hash: int -> nat
    const zero: V
    const key64: bool
    var keys: array<int>
    var data: array<V>
    var entries: nat
    ghost var contents: map<int, V>

    ghost predicate Valid()
      reads this, keys, data
    {
      && keys.Length == data.Length >= 16 && PowerOfTwo(keys.Length) && Apart(keys, data)
      && Holds(keys[..], data[..], hash, contents)
      && (forall k :: k in contents ==> Fits(k, key64))
      && entries == NumUsed(keys[..]) <= LoadLimit(keys.Length) + 1
    }

    /** hashtable_create: the smallest power of 2 that is at least 16 and holds what is asked for. */
    constructor (size: int, key64: bool, hash: int -> nat, zero: V)
      ensures Valid() && contents == map[] && fresh(keys) && fresh(data)
      ensures keys.Length >= size && (keys.Length > 16 ==> keys.Length / 2 < size)
    {
      var n := 16;
      assert PowerOfTwo(2) && PowerOfTwo(4) && PowerOfTwo(8) && PowerOfTwo(16);
      while n < size
        invariant n >= 16 && PowerOfTwo(n) && (n > 16 ==> n / 2 < size)
      {
        n := n * 2;
      }
      this.hash, this.zero, this.key64 := hash, zero, key64;
      keys := new int[n](i => 0);
      data := new V[n](i => zero);
      entries := 0;
      contents := map[];
      new;
      NoneUsed(keys[..]);
    }

    /** Looks for a key along its way; adds it in the first free slot if it is missing and that is wanted. Key
        0 is refused. The table grows first if it is too full. */
    method Find(key: int, allocateIfMissing: bool) returns (ok: bool, at: int)
      requires Valid() && Fits(key, key64)
      modifies this, keys, data
      ensures Valid() && (keys == old(keys) || fresh(keys)) && (data == old(data) || fresh(data))
      ensures ok <==> key != 0
      ensures at == -1 <==> !ok || (!allocateIfMissing && key !in old(contents))
      ensures at != -1 ==> 0 <= at < keys.Length && keys[at] == key
      ensures contents == if ok && allocateIfMissing && key !in old(contents) then old(contents)[key := zero]
                          else old(contents)
      ensures keys.Length == if ok && allocateIfMissing && old(entries) > old(keys.Length) * 3 / 4
                             then 2 * old(keys.Length) else old(keys.Length)
      ensures old(entries) <= LoadLimit(old(keys.Length)) ==>
        keys == old(keys) && data == old(data) && entries <= old(entries) + 1
      decreases if allocateIfMissing && entries > LoadLimit(keys.Length) then 1 else 0, 1
    {
      hide PowerOfTwo, Holds, NumUsed, Fits;
      if key == 0 {
        return false, -1;
      }
      if allocateIfMissing && entries > LoadLimit(keys.Length) {
        Grow();
      }
      var found;
      LimitFits(keys.Length);
      HoldsSome(keys[..], data[..], hash, contents);
      at, found := Probe(key);
      ok := true;
      if found {
        return;
      }
      if !allocateIfMissing {
        at := -1;
        return;
      }
      Stored(keys[..], data[..], hash, contents, key, at, zero);
      ghost var ks, ds := keys[..], data[..];
      keys[at] := key;
      data[at] := zero;
      assert keys[..] == ks[at := key] && data[..] == ds[at := zero];
      entries := entries + 1;
      contents := contents[key := zero];
    }

    /** Follows a key's way up to the key or to a free slot. There always is one. */
    method Probe(key: int) returns (at: nat, found: bool)
      requires keys.Length == data.Length && Holds(keys[..], data[..], hash, contents) && key != 0
      requires NumUsed(keys[..]) < keys.Length
      ensures at < keys.Length && found == (key in contents)
      ensures found ==> keys[at] == key
      ensures !found ==> keys[at] == 0 && NoGap(keys[..], hash(key) % keys.Length, at)
    {
      hide NumUsed, Holds;
      ghost var ks := keys[..];
      HoldsSome(ks, data[..], hash, contents);
      FreeSlot(ks);
      ghost var z :| 0 <= z < |ks| && ks[z] == 0;
      ghost var h := hash(key) % keys.Length;
      at := hash(key) % keys.Length;
      while true
        invariant at < keys.Length
        invariant forall m :: 0 <= m < |ks| && Dist(h, m, |ks|) < Dist(h, at, |ks|) ==> ks[m] != 0 && ks[m] != key
        decreases Dist(h, z, |ks|) - Dist(h, at, |ks|)
      {
        if keys[at] == key {
          KeyThere(ks, data[..], hash, contents, at);
          return at, true;
        }
        if keys[at] == 0 {
          NotThere(ks, data[..], hash, contents, key, at);
          return at, false;
        }
        assert Dist(h, z, |ks|) != Dist(h, at, |ks|);
        at := if at + 1 == keys.Length then 0 else at + 1;
      }
    }

    /** The caller's store through a node. */
    method SetData(at: nat, v: V)
      requires Valid() && at < keys.Length && keys[at] != 0
      modifies data, this`contents
      ensures Valid() && contents == old(contents)[keys[at] := v]
    {
      ghost var ds := data[..];
      data[at] := v;
      contents := contents[keys[at] := v];
      assert data[..] == ds[at := v];
      forall i | 0 <= i < keys.Length && keys[i] != 0
        ensures keys[i] in contents && contents[keys[i]] == data[i]
      {
        assert keys[..][i] != 0;
        assert i != at ==> keys[i] != keys[at];
      }
    }

    /** Twice the size, with all entries moved over, the last slot first. */
    method Grow()
      requires Valid() && entries > LoadLimit(keys.Length)
      modifies this
      ensures Valid() && contents == old(contents) && fresh(keys) && fresh(data)
      ensures keys.Length == 2 * old(keys.Length) && entries <= LoadLimit(keys.Length)
      decreases 1, 0
    {
      hide PowerOfTwo, Holds, NumUsed, Moved, Fits;
      var oldKeys, oldData, n := keys, data, keys.Length;
      SlotsBound(keys[..]);
      ghost var all, ks, ds := contents, keys[..], data[..];
      DoublePower(n);
      keys := new int[2 * n](i => 0);
      data := new V[2 * n](i => zero);
      entries := 0;
      contents := map[];
      NoneUsed(keys[..]);
      EmptyHolds(keys[..], data[..], hash);
      var i := n;
      NoneMoved(ks, ds);
      while i > 0
        invariant 0 <= i <= n && Valid() && fresh(keys) && fresh(data) && keys.Length == 2 * n
        invariant oldKeys[..] == ks && oldData[..] == ds
        invariant entries <= n - i
        invariant Moved(ks, ds, i, contents)
        decreases i
      {
        i := i - 1;
        var moveKey := oldKeys[i];
        MoveOne(ks, ds, hash, all, i, contents);
        if moveKey == 0 {
          continue;
        }
        ghost var had := contents;
        var ok, at := Find(moveKey, true);
        SetData(at, oldData[i]);
        assert contents == had[moveKey := oldData[i]];
      }
      AllMoved(ks, ds, hash, all, contents);
    }
  }

  lemma DoublePower(n: nat)
    requires PowerOfTwo(n)
    ensures PowerOfTwo(2 * n)
  {
    assert 2 * n / 2 == n;
  }

  lemma SlotsBound(keys: seq<int>)
    ensures NumUsed(keys) <= |keys|
  {
  }

  lemma EmptyHolds<V>(keys: seq<int>, data: seq<V>, hash: int -> nat)
    requires |keys| == |data| > 0 && forall i :: 0 <= i < |keys| ==> keys[i] == 0
    ensures Holds(keys, data, hash, map[])
  {
  }

  /** The entries from slot `from` on have been moved over. */
  ghost predicate Moved<V>(keys: seq<int>, data: seq<V>, from: nat, after: map<int, V>)
    requires |keys| == |data|
  {
    && (forall k :: k in after ==> exists j :: from <= j < |keys| && keys[j] == k && k != 0)
    && (forall j :: from <= j < |keys| && keys[j] != 0 ==> keys[j] in after && after[keys[j]] == data[j])
  }

  lemma NoneMoved<V>(keys: seq<int>, data: seq<V>)
    requires |keys| == |data|
    ensures Moved(keys, data, |keys|, map[])
  {
  }

  lemma MoveOne<V>(keys: seq<int>, data: seq<V>, hash: int -> nat, before: map<int, V>, i: nat, after: map<int, V>)
    requires Holds(keys, data, hash, before) && i < |keys| && Moved(keys, data, i + 1, after)
    ensures keys[i] != 0 ==> keys[i] in before
    ensures keys[i] == 0 ==> Moved(keys, data, i, after)
    ensures keys[i] != 0 ==> Moved(keys, data, i, after[keys[i] := data[i]])
  {
    forall k | k in after
      ensures exists j :: i <= j < |keys| && keys[j] == k && k != 0
    {
      var j :| i + 1 <= j < |keys| && keys[j] == k && k != 0;
    }
  }

  /** With every entry moved over, the contents are the same. */
  lemma AllMoved<V>(keys: seq<int>, data: seq<V>, hash: int -> nat, before: map<int, V>, after: map<int, V>)
    requires Holds(keys, data, hash, before) && Moved(keys, data, 0, after)
    ensures after == before
  {
    forall k
      ensures k in after <==> k in before
      ensures k in after ==> after[k] == before[k]
    {
      if k in before {
        var i :| 0 <= i < |keys| && keys[i] == k;
      }
    }
  }
}
