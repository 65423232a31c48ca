/** The batch codec between 64-bit integers and little-endian bytes. */
module U64Codec {
  import opened MachineInts
  import opened SimdCopy

  /** The `n` least significant bytes, lowest first. */
  function ToLeBytes(x: nat, n: nat): (r: seq<byte>)
    ensures |r| == n
  {
    if n == 0 then [] else [x % 256] + ToLeBytes(x / 256, n - 1)
  }

  function FromLeBytes(bytes: seq<byte>): nat {
    if bytes == [] then 0 else bytes[0] + 256 * FromLeBytes(bytes[1..])
  }

  function Pow256(n: nat): (r: nat)
    ensures r > 0
  {
    if n == 0 then 1 else 256 * Pow256(n - 1)
  }

  lemma EightBytes()
    ensures Pow256(8) == TWO_64
  {
    assert Pow256(4) == 0x1_0000_0000;
    assert Pow256(6) == 0x1_0000_0000_0000;
  }

  lemma {:induction false} BytesRoundTrip(x: nat, n: nat)
    requires x < Pow256(n)
    ensures FromLeBytes(ToLeBytes(x, n)) == x
  {
    if n > 0 {
      BytesRoundTrip(x / 256, n - 1);
      assert ToLeBytes(x, n)[1..] == ToLeBytes(x / 256, n - 1);
    }
  }

  lemma {:induction false} IntRoundTrip(bytes: seq<byte>)
    ensures FromLeBytes(bytes) < Pow256(|bytes|)
    ensures ToLeBytes(FromLeBytes(bytes), |bytes|) == bytes
  {
    if bytes != [] {
      IntRoundTrip(bytes[1..]);
      var x := FromLeBytes(bytes);
      assert x % 256 == bytes[0] && x / 256 == FromLeBytes(bytes[1..]);
    }
  }

  /** The integer in the eight bytes of group `i`. */
  function Group(data: seq<byte>, i: nat): u64
    requires i < |data| / 8
  {
    IntRoundTrip(data[8 * i..8 * i + 8]);
    EightBytes();
    FromLeBytes(data[8 * i..8 * i + 8])
  }

  function Serialized(data: seq<u64>): (r: seq<byte>)
    ensures |r| == 8 * |data|
  {
    if data == [] then []
    else Serialized(data[..|data| - 1]) + ToLeBytes(data[|data| - 1], 8)
  }

  function Deserialized(data: seq<byte>): (r: seq<u64>)
    ensures |r| == |data| / 8
  {
    seq(|data| / 8, i requires 0 <= i < |data| / 8 => Group(data, i))
  }

  method SerializeU64Batch(data: seq<u64>) returns (result: seq<byte>)
    ensures result == Serialized(data)
  {
    result := [];
    for i := 0 to |data|
      invariant result == Serialized(data[..i])
    {
      assert data[..i + 1][..i] == data[..i];
      result := result + ToLeBytes(data[i], 8);
    }
    assert data[..|data|] == data;
  }

  method DeserializeU64Batch(data: seq<byte>) returns (result: seq<u64>)
    ensures result == Deserialized(data)
  {
    var count := |data| / 8;
    result := [];
    for i := 0 to count
      invariant |result| == i
      invariant forall k :: 0 <= k < i ==> result[k] == Group(data, k)
    {
      var offset := i * 8;
      var bytes := [data[offset], data[offset + 1], data[offset + 2], data[offset + 3],
                    data[offset + 4], data[offset + 5], data[offset + 6], data[offset + 7]];
      assert bytes == data[8 * i..8 * i + 8];
      IntRoundTrip(bytes);
      EightBytes();
      result := result + [FromLeBytes(bytes)];
    }
  }

  /** Byte `k` of element `i` is the element's digit of weight 256^k: the bytes are little-endian. */
  lemma {:induction false} BytesAreLittleEndian(data: seq<u64>, i: nat, k: nat)
    requires i < |data| && k < 8
    ensures Serialized(data)[8 * i + k] == data[i] / Pow256(k) % 256
  {
    var n := |data| - 1;
    if i < n {
      BytesAreLittleEndian(data[..n], i, k);
    } else {
      DigitOf(data[n], 8, k);
      assert Serialized(data)[8 * n + k] == ToLeBytes(data[n], 8)[k];
    }
    hide ToLeBytes, Pow256;
  }

  lemma {:induction false} DigitOf(x: nat, n: nat, k: nat)
    requires k < n
    ensures ToLeBytes(x, n)[k] == x / Pow256(k) % 256
  {
    if k > 0 {
      DigitOf(x / 256, n - 1, k - 1);
      DropsByteFirst(x, Pow256(k - 1));
    }
  }

  lemma DropsByteFirst(x: nat, b: nat)
    requires b > 0
    ensures x / 256 / b == x / (256 * b)
  {
    var q := x / 256 / b;
    BetweenMultiples(x / 256, b);
    TimesByte(q, b);
    FloorUnique(q, x, 256 * b);
  }

  lemma BetweenMultiples(y: nat, b: nat)
    requires b > 0
    ensures y / b * b <= y < y / b * b + b
  {
  }

  lemma TimesByte(q: nat, b: nat)
    ensures q * (256 * b) == 256 * (q * b)
  {
  }

  /** Reading back what was written gives the integers. */
  lemma {:induction false} DeserializeSerialized(data: seq<u64>)
    ensures Deserialized(Serialized(data)) == data
  {
    if data != [] {
      var n := |data| - 1;
      var front, bytes := data[..n], Serialized(data);
      DeserializeSerialized(front);
      forall i | 0 <= i < |data| ensures Group(bytes, i) == data[i] {
        if i < n {
          assert bytes[8 * i..8 * i + 8] == Serialized(front)[8 * i..8 * i + 8];
          assert Group(Serialized(front), i) == Deserialized(Serialized(front))[i] == front[i];
        } else {
          assert bytes[8 * i..8 * i + 8] == ToLeBytes(data[n], 8);
          EightBytes();
          BytesRoundTrip(data[n], 8);
        }
      }
    }
  }

  lemma GroupBytes(data: seq<byte>, i: nat)
    requires i < |data| / 8
    ensures ToLeBytes(Group(data, i), 8) == data[8 * i..8 * i + 8]
  {
    hide ToLeBytes, FromLeBytes;
    IntRoundTrip(data[8 * i..8 * i + 8]);
  }

  /** Writing back what was read gives the longest prefix that is whole groups of eight bytes. */
  lemma SerializeDeserialized(data: seq<byte>)
    ensures Serialized(Deserialized(data)) == data[..|data| / 8 * 8]
  {
    hide ToLeBytes, FromLeBytes;
    SerializeGroups(data, |data| / 8);
    assert Deserialized(data)[..|data| / 8] == Deserialized(data);
  }

  lemma {:induction false} SerializeGroups(data: seq<byte>, n: nat)
    requires n <= |data| / 8
    ensures Serialized(Deserialized(data)[..n]) == data[..8 * n]
  {
    hide ToLeBytes, Group;
    if n > 0 {
      var read := Deserialized(data);
      SerializeGroups(data, n - 1);
      GroupBytes(data, n - 1);
      assert read[..n][..n - 1] == read[..n - 1] && read[..n][n - 1] == Group(data, n - 1);
      assert data[..8 * n] == data[..8 * (n - 1)] + data[8 * (n - 1)..8 * (n - 1) + 8];
    }
  }
}
