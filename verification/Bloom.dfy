/** The Bloom filter: bits set by adding keys, asked for by lookups, carried through its byte form. */
module Bloom {
  import opened Types
  import opened ByteCodec

  /** The two base hashes of a key: any function will do. */
  type Hashing = Key -> (nat, nat)

  // ----- bits in bytes -----

  function Mask(i: nat): byte
    requires i < 8
  {
    (1 as byte) << i
  }

  predicate BitOf(b: byte, i: nat)
    requires i < 8
  {
    (b >> i) & 1 == 1
  }

  lemma Masks()
    ensures Mask(0) == 1 && Mask(1) == 2 && Mask(2) == 4 && Mask(3) == 8
    ensures Mask(4) == 16 && Mask(5) == 32 && Mask(6) == 64 && Mask(7) == 128
  {
  }

  lemma BitIsMask(b: byte, i: nat)
    requires i < 8
    ensures BitOf(b, i) <==> b & Mask(i) != 0
  {
    Masks();
    if i < 4 {
      assert i == 0 || i == 1 || i == 2 || i == 3;
    } else {
      assert i == 4 || i == 5 || i == 6 || i == 7;
    }
  }

  lemma MasksApart(i: nat, j: nat)
    requires i < 8 && j < 8
    ensures Mask(i) & Mask(j) != 0 <==> i == j
  {
    Masks();
    assert i == 0 || i == 1 || i == 2 || i == 3 || i == 4 || i == 5 || i == 6 || i == 7;
    assert j == 0 || j == 1 || j == 2 || j == 3 || j == 4 || j == 5 || j == 6 || j == 7;
  }

  lemma OrAnd(b: byte, m: byte, n: byte)
    ensures (b | m) & n != 0 <==> b & n != 0 || m & n != 0
  {
  }

  /** Setting bit `i` changes bit `i` and no other. */
  lemma OrBit(b: byte, i: nat, j: nat)
    requires i < 8 && j < 8
    ensures BitOf(b | Mask(i), j) <==> i == j || BitOf(b, j)
  {
    hide Mask;
    hide BitOf;
    BitIsMask(b | Mask(i), j);
    BitIsMask(b, j);
    OrAnd(b, Mask(i), Mask(j));
    MasksApart(i, j);
  }

  // ----- the filter as a value -----

  predicate Bit(bits: seq<byte>, pos: nat)
    requires pos < 8 * |bits|
  {
    BitOf(bits[pos / 8], pos % 8)
  }

  function SetBit(bits: seq<byte>, pos: nat): (r: seq<byte>)
    requires pos < 8 * |bits|
    ensures |r| == |bits|
  {
    bits[pos / 8 := bits[pos / 8] | Mask(pos % 8)]
  }

  lemma SetBitExact(bits: seq<byte>, pos: nat, q: nat)
    requires pos < 8 * |bits| && q < 8 * |bits|
    ensures Bit(SetBit(bits, pos), q) <==> q == pos || Bit(bits, q)
  {
    hide Mask;
    hide BitOf;
    if pos / 8 == q / 8 { OrBit(bits[q / 8], pos % 8, q % 8); }
  }

  /** `nth_hash`, in 64-bit arithmetic. */
  function Nth(h: (nat, nat), i: nat, m: nat): (r: nat)
    requires m > 0
    ensures r < m
  {
    ((h.0 + i * h.1) % TWO64) % m
  }

  /**
   * Double hashing: the first position is the first hash, and each next one is a step of the second
   * hash further round, as long as the 64-bit sum does not wrap.
   */
  lemma NthSteps(h: (nat, nat), i: nat, m: nat)
    requires m > 0
    ensures h.0 < TWO64 ==> Nth(h, 0, m) == h.0 % m
    ensures h.0 + (i + 1) * h.1 < TWO64 ==> Nth(h, i + 1, m) == (Nth(h, i, m) + h.1) % m
  {
    hide Nth;
    var v := h.0 + i * h.1;
    NextSum(i, h.1);
    NthAt(h, 0, m);
    NthAt(h, i, m);
    NthAt(h, i + 1, m);
    ModStep(v, h.1, m);
  }

  lemma NextSum(i: nat, d: nat)
    ensures (i + 1) * d == i * d + d && 0 * d == 0 && i * d >= 0
  {
  }

  lemma NthAt(h: (nat, nat), i: nat, m: nat)
    requires m > 0
    ensures var v := h.0 + i * h.1; v < TWO64 ==> Nth(h, i, m) == v % m
  {
  }

  lemma Distribute(a: nat, b: nat, m: nat)
    ensures (a + b) * m == a * m + b * m
  {
  }

  lemma ModStep(v: nat, d: nat, m: nat)
    requires m > 0
    ensures (v % m + d) % m == (v + d) % m
  {
    var x, q := v % m + d, v / m;
    assert v == q * m + v % m;
    assert x == (x / m) * m + x % m;
    Distribute(q, x / m, m);
    QuotientIs(m, q + x / m, x % m);
  }

  /** The first `n` hash positions of the key are all set. */
  predicate Has(bits: seq<byte>, h: (nat, nat), n: nat)
    requires |bits| > 0
  {
    forall i :: 0 <= i < n ==> Bit(bits, Nth(h, i, 8 * |bits|))
  }

  /** The bits after adding one key. */
  function Added(bits: seq<byte>, h: (nat, nat), n: nat): (r: seq<byte>)
    requires |bits| > 0
    ensures |r| == |bits|
    decreases n
  {
    if n == 0 then bits else SetBit(Added(bits, h, n - 1), Nth(h, n - 1, 8 * |bits|))
  }

  ghost predicate Hits(h: (nat, nat), n: nat, m: nat, q: nat)
    requires m > 0
  {
    exists i :: 0 <= i < n && Nth(h, i, m) == q
  }

  /** Adding a key sets its hash positions and changes no other bit. */
  lemma {:induction false} AddedExact(bits: seq<byte>, h: (nat, nat), n: nat, q: nat)
    requires |bits| > 0 && q < 8 * |bits|
    ensures Bit(Added(bits, h, n), q) <==> Bit(bits, q) || Hits(h, n, 8 * |bits|, q)
    decreases n
  {
    hide Nth;
    hide Bit;
    hide SetBit;
    if n > 0 {
      AddedExact(bits, h, n - 1, q);
      SetBitExact(Added(bits, h, n - 1), Nth(h, n - 1, 8 * |bits|), q);
      if Hits(h, n, 8 * |bits|, q) {
        var i :| 0 <= i < n && Nth(h, i, 8 * |bits|) == q;
        assert i == n - 1 || Hits(h, n - 1, 8 * |bits|, q);
      }
    }
  }

  /** The bits after adding keys in order. */
  function AddAll(bits: seq<byte>, hash: Hashing, n: nat, keys: seq<Key>): (r: seq<byte>)
    requires |bits| > 0
    ensures |r| == |bits|
  {
    if keys == [] then bits else Added(AddAll(bits, hash, n, keys[..|keys| - 1]), hash(keys[|keys| - 1]), n)
  }

  lemma AddedHas(bits: seq<byte>, h: (nat, nat), g: (nat, nat), n: nat)
    requires |bits| > 0
    ensures Has(Added(bits, h, n), h, n)
    ensures Has(bits, g, n) ==> Has(Added(bits, h, n), g, n)
  {
    hide Nth;
    hide Bit;
    var m := 8 * |bits|;
    forall i | 0 <= i < n
      ensures Bit(Added(bits, h, n), Nth(h, i, m)) && (Bit(bits, Nth(g, i, m)) ==> Bit(Added(bits, h, n), Nth(g, i, m)))
    {
      AddedExact(bits, h, n, Nth(h, i, m));
      AddedExact(bits, h, n, Nth(g, i, m));
      assert Hits(h, n, m, Nth(h, i, m));
    }
  }

  /** No false negatives: every key ever added is still reported, whatever was added before or after. */
  lemma {:induction false} NeverHides(bits: seq<byte>, hash: Hashing, n: nat, keys: seq<Key>, k: Key)
    requires |bits| > 0 && k in keys
    ensures Has(AddAll(bits, hash, n, keys), hash(k), n)
  {
    hide Has;
    var before, x := keys[..|keys| - 1], keys[|keys| - 1];
    assert keys == before + [x];
    AddedHas(AddAll(bits, hash, n, before), hash(x), hash(k), n);
    if k != x { NeverHides(bits, hash, n, before, k); }
  }

  // ----- the object -----

  class BloomFilter {
    const bits: array<byte>
    const hashes: nat

    ghost predicate Valid()
      reads this
    {
      bits.Length > 0
    }

    /** An empty filter; its sizes come from floating-point arithmetic that is not modelled. */
    constructor (bytes: nat, hashes: nat)
      requires bytes > 0
      ensures Valid() && fresh(bits) && bits.Length == bytes && this.hashes == hashes && forall i :: 0 <= i < bytes ==> bits[i] == 0
    {
      bits := new byte[bytes](_ => 0);
      this.hashes := hashes;
    }

    method Add(h: (nat, nat))
      requires Valid()
      modifies bits
      ensures bits[..] == Added(old(bits[..]), h, hashes)
    {
      hide Nth;
      for i := 0 to hashes
        invariant bits[..] == Added(old(bits[..]), h, i)
      {
        var pos := Nth(h, i, 8 * bits.Length);
        bits[pos / 8] := bits[pos / 8] | Mask(pos % 8);
      }
    }

    method MightContain(h: (nat, nat)) returns (r: bool)
      requires Valid()
      ensures r == Has(bits[..], h, hashes)
    {
      for i := 0 to hashes
        invariant Has(bits[..], h, i)
      {
        var pos := Nth(h, i, 8 * bits.Length);
        if !BitOf(bits[pos / 8], pos % 8) {
          assert !Bit(bits[..], Nth(h, i, 8 * |bits[..]|));
          return false;
        }
      }
      return true;
    }

    /** `build_bloom`: one add per entry. */
    method AddKeys(hash: Hashing, keys: seq<Key>)
      requires Valid()
      modifies bits
      ensures bits[..] == AddAll(old(bits[..]), hash, hashes, keys)
    {
      hide Added;
      for i := 0 to |keys|
        invariant bits[..] == AddAll(old(bits[..]), hash, hashes, keys[..i])
      {
        assert keys[..i + 1][..i] == keys[..i];
        Add(hash(keys[i]));
      }
      assert keys[..|keys|] == keys;
    }
  }

  // ----- byte form -----

  datatype Filter = Filter(hashes: nat, bits: seq<byte>)

  predicate FilterFits(f: Filter) {
    f.hashes < TWO32 && 8 * |f.bits| < TWO64
  }

  /** `serialize`: hash count, bit count, bits. */
  function Serialize(f: Filter): (r: seq<byte>)
    ensures |r| == 12 + |f.bits|
  {
    U32(f.hashes) + U64(8 * |f.bits|) + f.bits
  }

  function Deserialize(data: seq<byte>): Result<Filter> {
    if |data| < 12 then Err(BadFilter)
    else
      var n := FromLe(data[4..12]) / 8;
      if |data| < 12 + n then Err(BadFilter) else Ok(Filter(FromLe(data[..4]), data[12..12 + n]))
  }

  lemma FilterRoundTrip(f: Filter)
    requires FilterFits(f)
    ensures Deserialize(Serialize(f)) == Ok(f)
  {
    hide U32;
    hide U64;
    hide FromLe;
    var d := Serialize(f);
    assert At(d, 0, U32(f.hashes) + U64(8 * |f.bits|)) && d[12..] == f.bits;
    AtParts(d, 0, U32(f.hashes), U64(8 * |f.bits|));
    ReadU32(d, 0, f.hashes);
    ReadU64(d, 4, 8 * |f.bits|);
    assert d[0..4] == d[..4] && d[12..12 + |f.bits|] == d[12..];
  }

  /** A filter written to a file, read back or copied still reports every key it was built from. */
  lemma CopyNeverHides(f: Filter, hash: Hashing, keys: seq<Key>, k: Key)
    requires FilterFits(f) && |f.bits| > 0 && k in keys
    ensures var g := Filter(f.hashes, AddAll(f.bits, hash, f.hashes, keys));
            Deserialize(Serialize(g)) == Ok(g) && Has(g.bits, hash(k), g.hashes)
  {
    hide Has;
    hide Serialize;
    hide Deserialize;
    var g := Filter(f.hashes, AddAll(f.bits, hash, f.hashes, keys));
    FilterRoundTrip(g);
    NeverHides(f.bits, hash, f.hashes, keys, k);
  }
}
