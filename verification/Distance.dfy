/**
 The distance computations on 32-byte digests: the byte loops of the code agree with
 exclusive or, bit length and order on 256-bit integers.
 */
module Distance {
  import opened Prelude
  import BigEndian
  import opened XorMetric

  const KEY_BYTES := 32
  const KEY_BITS := 256

  type Key = s: seq<byte> | |s| == KEY_BYTES witness seq(KEY_BYTES, _ => 0)

  datatype Ordering = Less | Equal | Greater

  function XorBytes(a: seq<byte>, b: seq<byte>): (r: seq<byte>)
    requires |a| == |b|
    ensures |r| == |a|
  {
    seq(|a|, i requires 0 <= i < |a| => XorByte(a[i], b[i]))
  }

  /** `^` on two bytes. */
  function XorByte(x: byte, y: byte): byte {
    assert Xor(x, y) < 256 by {
      BytePow();
      XorBounded(x, y, 8);
    }
    Xor(x, y)
  }

  lemma BytePow()
    ensures Pow2(8) == 256
  {
    assert Pow2(4) == 16;
  }

  lemma ValueSnoc(s: seq<byte>)
    requires s != []
    ensures BigEndian.Value(s) == Join(8, BigEndian.Value(s[..|s| - 1]), s[|s| - 1])
  {
    BytePow();
  }

  lemma {:induction false} ValueFits(s: seq<byte>)
    ensures BigEndian.Value(s) < Pow2(8 * |s|)
  {
    if s != [] {
      var n := |s| - 1;
      ValueFits(s[..n]);
      var base := Pow2(8 * n);
      assert Pow2(8 * n + 2) == 4 * base;
      assert Pow2(8 * n + 4) == 16 * base;
      assert Pow2(8 * n + 6) == 64 * base;
    }
  }

  /** The point of the key space that a 32-byte digest stands for. */
  function PointOf(key: Key): (point: nat)
    ensures point < Pow2(KEY_BITS)
  {
    ValueFits(key);
    BigEndian.Value(key)
  }

  /** Exclusive or byte by byte is exclusive or of the integers. */
  lemma {:induction false} ValueOfXorBytes(a: seq<byte>, b: seq<byte>)
    requires |a| == |b|
    ensures BigEndian.Value(XorBytes(a, b)) == Xor(BigEndian.Value(a), BigEndian.Value(b))
  {
    if a != [] {
      var n := |a| - 1;
      ValueOfXorBytes(a[..n], b[..n]);
      assert XorBytes(a, b)[..n] == XorBytes(a[..n], b[..n]);
      ValueSnoc(a);
      ValueSnoc(b);
      ValueSnoc(XorBytes(a, b));
      BytePow();
      XorOfJoined(8, BigEndian.Value(a[..n]), BigEndian.Value(b[..n]), a[n], b[n]);
    }
  }

  method XorDistance(a: Key, b: Key) returns (distance: Key)
    ensures distance == XorBytes(a, b)
    ensures BigEndian.Value(distance) == Xor(BigEndian.Value(a), BigEndian.Value(b))
  {
    var result := new byte[KEY_BYTES](_ => 0);
    for i := 0 to KEY_BYTES
      invariant forall j | 0 <= j < i :: result[j] == XorByte(a[j], b[j])
    {
      result[i] := XorByte(a[i], b[i]);
    }
    distance := result[..];
    assert distance == XorBytes(a, b);
    ValueOfXorBytes(a, b);
  }

  /** A leading run of zero bytes adds nothing to the bit length. */
  lemma {:induction false} BitLengthAfterZeros(s: seq<byte>, i: nat)
    requires i < |s| && s[i] != 0 && forall j | 0 <= j < i :: s[j] == 0
    ensures BitLength(BigEndian.Value(s)) == 8 * (|s| - 1 - i) + BitLength(s[i])
  {
    var n := |s| - 1;
    if i == n {
      ZerosAreZero(s[..n]);
    } else {
      BitLengthAfterZeros(s[..n], i);
      ValueSnoc(s);
      BytePow();
      BitLengthOfJoined(8, BigEndian.Value(s[..n]), s[n]);
    }
  }

  lemma {:induction false} ZerosAreZero(s: seq<byte>)
    requires forall j | 0 <= j < |s| :: s[j] == 0
    ensures BigEndian.Value(s) == 0
  {
    if s != [] {
      ZerosAreZero(s[..|s| - 1]);
    }
  }

  /** `u8::leading_zeros`. */
  function LeadingZerosOfByte(x: byte): nat
  {
    assert BitLength(x) <= 8 by {
      BytePow();
      BitLengthBounded(x, 8);
    }
    8 - BitLength(x)
  }

  method LeadingZeros(distance: Key) returns (zeros: nat)
    ensures zeros == KEY_BITS - BitLength(BigEndian.Value(distance))
  {
    zeros := 0;
    for i := 0 to KEY_BYTES
      invariant zeros == 8 * i && forall j | 0 <= j < i :: distance[j] == 0
    {
      if distance[i] == 0 {
        zeros := zeros + 8;
      } else {
        BitLengthAfterZeros(distance, i);
        zeros := zeros + LeadingZerosOfByte(distance[i]);
        return;
      }
    }
    ZerosAreZero(distance);
  }

  /** Index i stands exactly for the distances from 2^i to 2^(i+1) - 1; distance zero has none. */
  function TopBit(distance: nat): (index: Option<nat>)
    ensures index.None? <==> distance == 0
    ensures forall i: nat :: index == Some(i) <==> Pow2(i) <= distance < Pow2(i + 1)
  {
    BitLengthDecides(distance);
    hide BitLength, Pow2;
    if BitLength(distance) == 0 then None else Some(BitLength(distance) - 1)
  }

  lemma BitLengthDecides(distance: nat)
    ensures BitLength(distance) == 0 <==> distance == 0
    ensures forall i: nat :: BitLength(distance) == i + 1 <==> Pow2(i) <= distance < Pow2(i + 1)
  {
    forall i: nat ensures BitLength(distance) == i + 1 <==> Pow2(i) <= distance < Pow2(i + 1) {
      BitLengthExact(distance, i);
    }
  }

  method BucketIndex(distance: Key) returns (index: Option<nat>)
    ensures index == TopBit(BigEndian.Value(distance))
    ensures index.Some? ==> index.value < KEY_BITS
  {
    var lz := LeadingZeros(distance);
    if lz >= KEY_BITS {
      return None;
    } else {
      return Some(255 - lz);
    }
  }

  lemma {:induction false} FirstDifferenceDecides(a: seq<byte>, b: seq<byte>, i: nat)
    requires |a| == |b| && i < |a| && a[..i] == b[..i] && a[i] < b[i]
    ensures BigEndian.Value(a) < BigEndian.Value(b)
  {
    var n := |a| - 1;
    if i < n {
      assert a[..n][..i] == a[..i] && b[..n][..i] == b[..i];
      FirstDifferenceDecides(a[..n], b[..n], i);
    }
  }

  /** Compares as big-endian unsigned integers, first difference first. */
  method DistanceCmp(target: Key, a: Key, b: Key) returns (order: Ordering)
    ensures var t, x, y := BigEndian.Value(target), BigEndian.Value(a), BigEndian.Value(b);
            && (order.Less? <==> Xor(t, x) < Xor(t, y))
            && (order.Greater? <==> Xor(t, x) > Xor(t, y))
            && (order.Equal? <==> x == y)
  {
    var distA := XorDistance(target, a);
    var distB := XorDistance(target, b);
    XorCancels(BigEndian.Value(target), BigEndian.Value(a), BigEndian.Value(b));
    hide Xor, XorBytes;
    for i := 0 to KEY_BYTES
      invariant distA[..i] == distB[..i]
    {
      if distA[i] < distB[i] {
        FirstDifferenceDecides(distA, distB, i);
        return Less;
      } else if distA[i] > distB[i] {
        FirstDifferenceDecides(distB, distA, i);
        return Greater;
      }
    }
    assert distA == distB;
    return Equal;
  }
}
