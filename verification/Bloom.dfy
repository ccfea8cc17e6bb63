/** Bit fields over bytes, and the Bloom filters built on them. */
module Bloom {
  import opened Texts

  /** `1 << i % 8` */
  function Mask(i: nat): bv8
  {
    match i % 8
    case 0 => 1
    case 1 => 2
    case 2 => 4
    case 3 => 8
    case 4 => 16
    case 5 => 32
    case 6 => 64
    case _ => 128
  }

  predicate Bit(bytes: seq<bv8>, i: nat)
    requires i < 8 * |bytes|
  {
    bytes[i / 8] & Mask(i) != 0
  }

  /** Writing one bit of a byte leaves the other seven alone. */
  lemma MaskSet(b: bv8, i: nat, j: nat)
    requires i < 8 && j < 8
    ensures (b | Mask(i)) & Mask(j) != 0 <==> i == j || b & Mask(j) != 0
    ensures (b & !Mask(i)) & Mask(j) != 0 <==> i != j && b & Mask(j) != 0
  {
  }

  /** The bytes after writing one bit. */
  function WithBit(bytes: seq<bv8>, i: nat, value: bool): (r: seq<bv8>)
    requires i < 8 * |bytes|
    ensures |r| == |bytes|
  {
    bytes[i / 8 := if value then bytes[i / 8] | Mask(i) else bytes[i / 8] & !Mask(i)]
  }

  /** Exactly the bit written changes. */
  lemma WithBitAt(bytes: seq<bv8>, i: nat, value: bool, j: nat)
    requires i < 8 * |bytes| && j < 8 * |bytes|
    ensures Bit(WithBit(bytes, i, value), j) <==> if i == j then value else Bit(bytes, j)
  {
    if i / 8 == j / 8 {
      MaskSet(bytes[i / 8], i % 8, j % 8);
      MaskMod(i);
      MaskMod(j);
      SameByte(i, j);
    }
  }

  lemma SameByte(i: nat, j: nat)
    requires i / 8 == j / 8
    ensures i == j <==> i % 8 == j % 8
  {
  }

  lemma MaskMod(i: nat)
    ensures Mask(i) == Mask(i % 8)
  {
  }

  class BitField {
    var byteSize: nat
    var buffer: array<bv8>

    ghost predicate Valid()
      reads this
    {
      byteSize == buffer.Length
    }

    constructor (size: nat)
      ensures Valid() && fresh(buffer) && buffer.Length == (size + 7) / 8
      ensures forall i :: 0 <= i < 8 * buffer.Length ==> !Bit(buffer[..], i)
    {
      byteSize := (size + 7) / 8;
      buffer := new bv8[(size + 7) / 8](_ => 0);
      new;
      forall i | 0 <= i < 8 * buffer.Length ensures !Bit(buffer[..], i) {
        ZeroBits(0, i);
      }
    }

    function BitSize(): nat
      reads this
    {
      byteSize * 8
    }

    method SetBuffer(bytes: array<bv8>)
      modifies this
      ensures Valid() && buffer == bytes
    {
      buffer := bytes;
      byteSize := bytes.Length;
    }

    method Get(idx: nat) returns (value: bool)
      requires Valid() && idx < BitSize()
      ensures value <==> Bit(buffer[..], idx)
    {
      var byteOffset := idx / 8;
      var bitMask := Mask(idx);
      return buffer[byteOffset] & bitMask != 0;
    }

    method Set(idx: nat, value: bool)
      requires Valid() && idx < BitSize()
      modifies buffer
      ensures Valid() && buffer[..] == WithBit(old(buffer[..]), idx, value)
      ensures forall j :: 0 <= j < BitSize() ==>
              (Bit(buffer[..], j) <==> if j == idx then value else old(Bit(buffer[..], j)))
    {
      hide Bit, Mask, WithBit;
      ghost var was := buffer[..];
      OnlyThatBit(was, idx, value);
      WithBitIs(was, idx, value);
      var byteOffset := idx / 8;
      var bitMask := Mask(idx);
      if value {
        buffer[byteOffset] := buffer[byteOffset] | bitMask;
      } else {
        buffer[byteOffset] := buffer[byteOffset] & !bitMask;
      }
      assert buffer[..] == was[byteOffset := buffer[byteOffset]];
    }
  }

  lemma WithBitIs(bytes: seq<bv8>, i: nat, value: bool)
    requires i < 8 * |bytes|
    ensures WithBit(bytes, i, value) ==
            bytes[i / 8 := if value then bytes[i / 8] | Mask(i) else bytes[i / 8] & !Mask(i)]
  {
    hide Mask;
  }

  lemma OnlyThatBit(bytes: seq<bv8>, i: nat, value: bool)
    requires i < 8 * |bytes|
    ensures forall j :: 0 <= j < 8 * |bytes| ==>
            (Bit(WithBit(bytes, i, value), j) <==> if j == i then value else Bit(bytes, j))
  {
    hide Bit, WithBit;
    forall j | 0 <= j < 8 * |bytes|
      ensures Bit(WithBit(bytes, i, value), j) <==> if j == i then value else Bit(bytes, j)
    {
      WithBitAt(bytes, i, value, j);
    }
  }

  lemma ZeroBits(b: bv8, i: nat)
    requires b == 0
    ensures b & Mask(i) == 0
  {
  }

  // ---------------------------------------------------------------------------------------

  /** What a hash with a seed makes of the strings fed to it since its last reset. */
  type Digest = (nat, seq<Text>) -> nat

  class Hash {
    const digest: Digest
    const seed: nat
    var fed: seq<Text>

    constructor (digest: Digest, seed: nat)
      ensures this.digest == digest && this.seed == seed && fed == []
    {
      this.digest, this.seed, fed := digest, seed, [];
    }

    method Feed(key: Text)
      modifies this
      ensures fed == old(fed) + [key]
    {
      fed := fed + [key];
    }

    method Reset()
      modifies this
      ensures fed == []
    {
      fed := [];
    }

    function Result(): nat
      reads this
    {
      digest(seed, fed)
    }
  }

  /** The bit that one hash assigns to a string. */
  function Slot(digest: Digest, seed: nat, value: Text, size: nat): (i: nat)
    requires size > 0
    ensures i < size
  {
    digest(seed, [value]) % size
  }

  /** The filter answers yes for `value`: all its bits are set. */
  ghost predicate HasIn(digest: Digest, bytes: seq<bv8>, seeds: seq<nat>, value: Text)
    requires |bytes| > 0
  {
    forall i {:trigger seeds[i]} :: 0 <= i < |seeds| ==> Bit(bytes, Slot(digest, seeds[i], value, 8 * |bytes|))
  }

  /** The bytes after the first `n` hashes have set their bit for `value`. */
  ghost function AddBits(digest: Digest, bytes: seq<bv8>, seeds: seq<nat>, value: Text, n: nat): (r: seq<bv8>)
    requires |bytes| > 0 && n <= |seeds|
    ensures |r| == |bytes|
  {
    if n == 0 then bytes
    else WithBit(AddBits(digest, bytes, seeds, value, n - 1), Slot(digest, seeds[n - 1], value, 8 * |bytes|), true)
  }

  ghost function AddAll(digest: Digest, bytes: seq<bv8>, seeds: seq<nat>, values: seq<Text>): (r: seq<bv8>)
    requires |bytes| > 0
    ensures |r| == |bytes|
  {
    if values == [] then bytes
    else AddBits(digest, AddAll(digest, bytes, seeds, values[..|values| - 1]), seeds, values[|values| - 1], |seeds|)
  }

  /** Adding sets the bits of the value and clears none. */
  lemma {:induction false} AddBitsAt(digest: Digest, bytes: seq<bv8>, seeds: seq<nat>, value: Text, n: nat, j: nat)
    requires |bytes| > 0 && n <= |seeds| && j < 8 * |bytes|
    ensures Bit(AddBits(digest, bytes, seeds, value, n), j) <==>
            Bit(bytes, j) || exists i :: 0 <= i < n && Slot(digest, seeds[i], value, 8 * |bytes|) == j
  {
    hide Bit, WithBit;
    if n > 0 {
      AddBitsAt(digest, bytes, seeds, value, n - 1, j);
      WithBitAt(AddBits(digest, bytes, seeds, value, n - 1), Slot(digest, seeds[n - 1], value, 8 * |bytes|), true, j);
    }
  }

  /** Adding one value sets the bits that the hashes assign to it, and no others. */
  lemma AddAllOne(digest: Digest, bytes: seq<bv8>, seeds: seq<nat>, value: Text)
    requires |bytes| > 0
    ensures forall j :: 0 <= j < 8 * |bytes| ==>
              (Bit(AddAll(digest, bytes, seeds, [value]), j) <==>
                 Bit(bytes, j)
                 || exists i :: 0 <= i < |seeds| && digest(seeds[i], [value]) % (8 * |bytes|) == j)
  {
    hide Bit, AddBits;
    assert [value][..0] == [];
    assert AddAll(digest, bytes, seeds, [value]) == AddBits(digest, bytes, seeds, value, |seeds|);
    forall j | 0 <= j < 8 * |bytes|
      ensures Bit(AddAll(digest, bytes, seeds, [value]), j) <==>
                Bit(bytes, j) || exists i :: 0 <= i < |seeds| && digest(seeds[i], [value]) % (8 * |bytes|) == j
    {
      AddBitsAt(digest, bytes, seeds, value, |seeds|, j);
    }
  }

  lemma AddedIsIn(digest: Digest, bytes: seq<bv8>, seeds: seq<nat>, value: Text, other: Text)
    requires |bytes| > 0
    ensures HasIn(digest, AddBits(digest, bytes, seeds, value, |seeds|), seeds, value)
    ensures HasIn(digest, bytes, seeds, other) ==>
            HasIn(digest, AddBits(digest, bytes, seeds, value, |seeds|), seeds, other)
  {
    hide Bit, AddBits;
    forall i | 0 <= i < |seeds|
      ensures Bit(AddBits(digest, bytes, seeds, value, |seeds|), Slot(digest, seeds[i], value, 8 * |bytes|))
    {
      AddBitsAt(digest, bytes, seeds, value, |seeds|, Slot(digest, seeds[i], value, 8 * |bytes|));
    }
    if HasIn(digest, bytes, seeds, other) {
      forall i | 0 <= i < |seeds|
        ensures Bit(AddBits(digest, bytes, seeds, value, |seeds|), Slot(digest, seeds[i], other, 8 * |bytes|))
      {
        AddBitsAt(digest, bytes, seeds, value, |seeds|, Slot(digest, seeds[i], other, 8 * |bytes|));
      }
    }
  }

  /** No false negatives: whatever was ever added is still reported. */
  lemma {:induction false} NoFalseNegatives(digest: Digest, bytes: seq<bv8>, seeds: seq<nat>, values: seq<Text>)
    requires |bytes| > 0
    ensures forall v :: v in values || HasIn(digest, bytes, seeds, v) ==>
              HasIn(digest, AddAll(digest, bytes, seeds, values), seeds, v)
  {
    hide HasIn, AddBits;
    if values != [] {
      var n := |values| - 1;
      assert values == values[..n] + [values[n]];
      NoFalseNegatives(digest, bytes, seeds, values[..n]);
      forall v | v in values || HasIn(digest, bytes, seeds, v)
        ensures HasIn(digest, AddAll(digest, bytes, seeds, values), seeds, v)
      {
        AddedIsIn(digest, AddAll(digest, bytes, seeds, values[..n]), seeds, values[n], v);
      }
    }
  }

  class BloomFilter {
    var filter: BitField
    var hashes: seq<Hash>
    const digest: Digest

    ghost predicate Valid()
      reads this, filter, hashes
    {
      filter.Valid() && filter.byteSize > 0 && forall h :: h in hashes ==> h.fed == [] && h.digest == digest
    }

    ghost function Seeds(): seq<nat>
      reads this
    {
      var hs := hashes;
      seq(|hs|, i requires 0 <= i < |hs| => hs[i].seed)
    }

    /** What `Has` answers. */
    ghost predicate Holds(value: Text)
      requires Valid()
      reads this, filter, filter.buffer, hashes
    {
      HasIn(digest, filter.buffer[..], Seeds(), value)
    }

    constructor (digest: Digest, m: nat, seeds: seq<nat>)
      requires m > 0
      ensures Valid() && this.digest == digest && Seeds() == seeds
      ensures fresh(filter) && fresh(filter.buffer) && fresh(hashes) && filter.buffer.Length == (m + 7) / 8
      ensures forall i :: 0 <= i < 8 * filter.buffer.Length ==> !Bit(filter.buffer[..], i)
    {
      this.digest := digest;
      filter := new BitField(m);
      hashes := [];
      new;
      for i := 0 to |seeds|
        invariant |hashes| == i && fresh(hashes) && fresh(filter) && fresh(filter.buffer)
        invariant filter.buffer.Length == (m + 7) / 8
        invariant Valid() && (forall j :: 0 <= j < i ==> hashes[j].seed == seeds[j])
        invariant forall i :: 0 <= i < 8 * filter.buffer.Length ==> !Bit(filter.buffer[..], i)
      {
        var h := new Hash(digest, seeds[i]);
        hashes := hashes + [h];
      }
    }

    method Add(values: seq<Text>)
      requires Valid()
      modifies filter.buffer, hashes
      ensures Valid() && filter.buffer[..] == AddAll(digest, old(filter.buffer[..]), Seeds(), values)
      ensures forall v :: v in values || old(Holds(v)) ==> Holds(v)
    {
      ghost var start := filter.buffer[..];
      for x := 0 to |values|
        invariant Valid() && filter.buffer[..] == AddAll(digest, start, Seeds(), values[..x])
      {
        assert values[..x + 1][..x] == values[..x];
        AddOne(values[x]);
      }
      assert values[..|values|] == values;
      NoFalseNegatives(digest, start, Seeds(), values);
    }

    /** The inner loop: every hash sets its bit for one value. */
    method AddOne(val: Text)
      requires Valid()
      modifies filter.buffer, hashes
      ensures Valid() && filter.buffer[..] == AddBits(digest, old(filter.buffer[..]), Seeds(), val, |Seeds()|)
    {
      hide Bit;
      var buf := filter;
      var size := buf.BitSize();
      ghost var start := buf.buffer[..];
      for i := 0 to |hashes|
        invariant Valid() && buf.buffer[..] == AddBits(digest, start, Seeds(), val, i)
      {
        var h := hashes[i];
        h.Feed(val);
        assert h.fed == [val];
        var v := h.Result();
        assert v % size == Slot(digest, Seeds()[i], val, size);
        buf.Set(v % size, true);
        h.Reset();
      }
    }

    method Has(value: Text) returns (found: bool)
      requires Valid()
      modifies hashes
      ensures Valid() && (found <==> Holds(value))
    {
      hide Bit;
      var buf := filter;
      var size := buf.BitSize();
      for i := 0 to |hashes|
        invariant Valid()
        invariant forall j {:trigger Seeds()[j]} ::
                  0 <= j < i ==> Bit(buf.buffer[..], Slot(digest, Seeds()[j], value, size))
      {
        var h := hashes[i];
        h.Feed(value);
        assert h.fed == [value];
        var v := h.Result();
        h.Reset();
        assert v % size == Slot(digest, Seeds()[i], value, size);
        var present := buf.Get(v % size);
        if !present {
          return false;
        }
      }
      return true;
    }

    /** The bytes and the seeds; both are sent as they are. */
    method Serialize() returns (data: seq<bv8>, seeds: seq<nat>)
      requires Valid()
      ensures data == filter.buffer[..] && seeds == Seeds()
    {
      data := filter.buffer[..];
      seeds := [];
      for i := 0 to |hashes|
        invariant |seeds| == i && forall j :: 0 <= j < i ==> seeds[j] == hashes[j].seed
      {
        seeds := seeds + [hashes[i].seed];
      }
    }

    method Deserialize(data: seq<bv8>, seeds: seq<nat>)
      requires filter.Valid() && |data| > 0
      modifies this, filter
      ensures Valid() && fresh(filter.buffer) && fresh(hashes) && filter == old(filter)
      ensures filter.buffer[..] == data && Seeds() == seeds
    {
      var bytes := new bv8[|data|](i requires 0 <= i < |data| => data[i]);
      filter.SetBuffer(bytes);
      hashes := [];
      for i := 0 to |seeds|
        invariant |hashes| == i && fresh(hashes) && filter == old(filter) && filter.buffer == bytes && filter.Valid()
        invariant bytes[..] == data
        invariant forall h :: h in hashes ==> h.fed == [] && h.digest == digest
        invariant forall j :: 0 <= j < i ==> hashes[j].seed == seeds[j]
      {
        var h := new Hash(digest, seeds[i]);
        hashes := hashes + [h];
      }
      assert Seeds() == seeds;
    }
  }

  /** A filter sent to another peer answers there exactly as it does here. */
  method Transfer(sender: BloomFilter, receiver: BloomFilter)
    requires sender.Valid() && receiver.Valid() && sender.digest == receiver.digest
    requires sender != receiver && sender.filter != receiver.filter
    modifies receiver, receiver.filter
    ensures sender.Valid() && receiver.Valid()
    ensures forall value :: receiver.Holds(value) <==> old(sender.Holds(value))
  {
    hide HasIn;
    var data, seeds := sender.Serialize();
    receiver.Deserialize(data, seeds);
  }
}
