/**
 The deterministic CBOR subset that the content hash is computed over (RFC 8949,
 sections 3 and 4.2.1): unsigned integers, byte and text strings, arrays and maps,
 all with definite lengths and shortest heads. `Decode` is a strict parser, and the
 lemmas show that it and `Encode` are inverse to each other.
 */
module Cbor {
  import opened Prelude
  import BigEndian

  datatype Value =
    | UInt(n: u64)
    | ByteString(bytes: Bytes)
    | Text(utf8: Bytes)
    | Array(items: seq<Value>)
    | Map(entries: seq<Value>) // keys and values alternating, as they follow the head

  /** A length of every array and map in `v` fits a machine word, and maps hold whole pairs. */
  predicate Sized(v: Value) {
    match v
    case Array(items) => |items| < U64_LIMIT && AllSized(items)
    case Map(entries) => |entries| < U64_LIMIT && |entries| % 2 == 0 && AllSized(entries)
    case _ => true
  }

  predicate AllSized(items: seq<Value>) {
    forall i | 0 <= i < |items| :: Sized(items[i])
  }

  const UNSIGNED: nat := 0
  const BYTE_STRING: nat := 2
  const TEXT_STRING: nat := 3
  const ARRAY: nat := 4
  const MAP: nat := 5

  // ----- encoding

  /** The additional-information bits of the shortest head that can carry `n`. */
  function Info(n: nat): (info: nat)
    ensures info < 28
  {
    if n < 24 then n
    else if n < 0x100 then 24
    else if n < 0x1_0000 then 25
    else if n < U32_LIMIT then 26
    else 27
  }

  function ArgumentWidth(info: nat): nat {
    if info == 24 then 1
    else if info == 25 then 2
    else if info == 26 then 4
    else if info == 27 then 8
    else 0
  }

  function Head(major: nat, n: nat): (b: seq<byte>)
    requires major < 8
    ensures b != []
  {
    [32 * major + Info(n)] + BigEndian.Write(n, ArgumentWidth(Info(n)))
  }

  function Major(v: Value): nat {
    match v
    case UInt(_) => UNSIGNED
    case ByteString(_) => BYTE_STRING
    case Text(_) => TEXT_STRING
    case Array(_) => ARRAY
    case Map(_) => MAP
  }

  function Argument(v: Value): nat {
    match v
    case UInt(n) => n
    case ByteString(bytes) => |bytes|
    case Text(utf8) => |utf8|
    case Array(items) => |items|
    case Map(entries) => |entries| / 2
  }

  /** What follows the head of `v`. */
  function Body(v: Value): seq<byte>
    decreases v, 0
  {
    match v
    case UInt(_) => []
    case ByteString(bytes) => bytes
    case Text(utf8) => utf8
    case Array(items) => EncodeItems(items)
    case Map(entries) => EncodeItems(entries)
  }

  function Encode(v: Value): (b: seq<byte>)
    ensures b != []
    decreases v, 1
  {
    Head(Major(v), Argument(v)) + Body(v)
  }

  function EncodeItems(items: seq<Value>): seq<byte>
    decreases items, 0
  {
    if items == [] then [] else Encode(items[0]) + EncodeItems(items[1..])
  }

  // ----- decoding

  datatype Parsed<+T> = Malformed | Parsed(item: T, rest: seq<byte>)

  datatype HeadItem = HeadItem(major: nat, n: u64)

  function DecodeHead(b: seq<byte>): (p: Parsed<HeadItem>)
    ensures p.Parsed? ==> |p.rest| < |b| && p.item.major < 8
  {
    if b == [] then Malformed
    else
      var major, info := b[0] / 32, b[0] % 32;
      var width := ArgumentWidth(info);
      if info >= 28 || |b| <= width then Malformed
      else
        var n := if width == 0 then info else BigEndian.Value(b[1..1 + width]);
        if n < U64_LIMIT && Info(n) == info then Parsed(HeadItem(major, n), b[1 + width..])
        else Malformed
  }

  function Decode(b: seq<byte>): (p: Parsed<Value>)
    ensures p.Parsed? ==> |p.rest| < |b|
    decreases |b|, 0
  {
    match DecodeHead(b)
    case Malformed => Malformed
    case Parsed(HeadItem(major, n), rest) =>
      if major == UNSIGNED then Parsed(UInt(n), rest)
      else if major == BYTE_STRING && n <= |rest| then Parsed(ByteString(rest[..n]), rest[n..])
      else if major == TEXT_STRING && n <= |rest| then Parsed(Text(rest[..n]), rest[n..])
      else if major == ARRAY then
        (match DecodeItems(n, rest)
         case Malformed => Malformed
         case Parsed(items, after) => Parsed(Array(items), after))
      else if major == MAP then
        (match DecodeItems(2 * n, rest)
         case Malformed => Malformed
         case Parsed(entries, after) => Parsed(Map(entries), after))
      else Malformed
  }

  function DecodeItems(count: nat, b: seq<byte>): (p: Parsed<seq<Value>>)
    ensures p.Parsed? ==> |p.rest| <= |b| && |p.item| == count
    decreases |b|, 1
  {
    if count == 0 then Parsed([], b)
    else
      match Decode(b)
      case Malformed => Malformed
      case Parsed(first, rest) =>
        match DecodeItems(count - 1, rest)
        case Malformed => Malformed
        case Parsed(others, after) => Parsed([first] + others, after)
  }

  // ----- heads are the shortest ones

  /** `b` is a head of this major type for `n`, by the widths of RFC 8949, section 3. */
  predicate Carries(b: seq<byte>, major: nat, n: nat) {
    && b != [] && b[0] / 32 == major
    && var info := b[0] % 32;
       || (info < 24 && |b| == 1 && n == info)
       || (info == 24 && |b| == 2 && BigEndian.Value(b[1..]) == n)
       || (info == 25 && |b| == 3 && BigEndian.Value(b[1..]) == n)
       || (info == 26 && |b| == 5 && BigEndian.Value(b[1..]) == n)
       || (info == 27 && |b| == 9 && BigEndian.Value(b[1..]) == n)
  }

  lemma HeadCarries(major: nat, n: u64)
    requires major < 8
    ensures Carries(Head(major, n), major, n)
  {
    var width := ArgumentWidth(Info(n));
    assert Head(major, n)[0] / 32 == major && Head(major, n)[0] % 32 == Info(n);
    BigEndian.HeadWidths();
    if width != 0 {
      assert Head(major, n)[1..] == BigEndian.Write(n, width);
      BigEndian.ValueOfWrite(n, width);
    }
  }

  /** As section 4.2.1 asks, no head that carries the same argument is shorter, and none as short is another one. */
  lemma HeadIsShortest(b: seq<byte>, major: nat, n: u64)
    requires major < 8 && Carries(b, major, n)
    ensures |Head(major, n)| <= |b|
    ensures |Head(major, n)| == |b| ==> Head(major, n) == b
  {
    BigEndian.HeadWidths();
    if |b| > 1 {
      BigEndian.ValueBounded(b[1..]);
    }
    HeadCarries(major, n);
    if |Head(major, n)| == |b| {
      SameWidthSameHead(Head(major, n), b, major, n);
    }
  }

  lemma SameWidthSameHead(a: seq<byte>, b: seq<byte>, major: nat, n: nat)
    requires Carries(a, major, n) && Carries(b, major, n) && |a| == |b|
    ensures a == b
  {
    assert a[0] == b[0];
    BigEndian.WriteOfValue(a[1..]);
    BigEndian.WriteOfValue(b[1..]);
    assert a == [a[0]] + a[1..] && b == [b[0]] + b[1..];
  }

  /** The major types of the encoding, in the numbers of section 3.1. */
  lemma MajorTypes(v: Value)
    requires Sized(v)
    ensures Encode(v)[0] / 32 ==
      match v { case UInt(_) => 0 case ByteString(_) => 2 case Text(_) => 3 case Array(_) => 4 case Map(_) => 5 }
  {
  }

  // ----- decoding undoes encoding

  lemma DecodeHeadOfHead(major: nat, n: u64, rest: seq<byte>)
    requires major < 8
    ensures DecodeHead(Head(major, n) + rest) == Parsed(HeadItem(major, n), rest)
  {
    var width := ArgumentWidth(Info(n));
    var b := Head(major, n) + rest;
    assert b[0] / 32 == major && b[0] % 32 == Info(n);
    BigEndian.HeadWidths();
    if width != 0 {
      assert b[1..1 + width] == BigEndian.Write(n, width);
      BigEndian.ValueOfWrite(n, width);
    }
    assert b[1 + width..] == rest;
  }

  lemma DecodeHeadOfEncode(v: Value, rest: seq<byte>)
    requires Sized(v)
    ensures DecodeHead(Encode(v) + rest) == Parsed(HeadItem(Major(v), Argument(v)), Body(v) + rest)
  {
    Reassociate(Head(Major(v), Argument(v)), Body(v), rest);
    DecodeHeadOfHead(Major(v), Argument(v), Body(v) + rest);
    hide Head, DecodeHead, Body;
  }

  /** Decoding what was encoded, with anything after it, gives back the value and the rest. */
  lemma {:induction false} DecodeOfEncode(v: Value, rest: seq<byte>)
    requires Sized(v)
    ensures Decode(Encode(v) + rest) == Parsed(v, rest)
    decreases v, 1
  {
    DecodeHeadOfEncode(v, rest);
    hide Encode, Head, DecodeHead, EncodeItems, DecodeItems;
    match v
    case UInt(n) => assert Body(v) + rest == rest;
    case ByteString(bytes) => CutBack(bytes, rest);
    case Text(utf8) => CutBack(utf8, rest);
    case Array(items) => DecodeItemsOfEncode(items, rest);
    case Map(entries) => DecodeItemsOfEncode(entries, rest);
  }

  lemma CutBack(s: seq<byte>, rest: seq<byte>)
    ensures (s + rest)[..|s|] == s && (s + rest)[|s|..] == rest
  {
  }

  lemma DecodeItemsCons(first: Value, others: seq<Value>, b: seq<byte>, tail: seq<byte>, rest: seq<byte>)
    requires Decode(b) == Parsed(first, tail)
    requires DecodeItems(|others|, tail) == Parsed(others, rest)
    ensures DecodeItems(1 + |others|, b) == Parsed([first] + others, rest)
  {
  }

  lemma {:induction false} DecodeItemsOfEncode(items: seq<Value>, rest: seq<byte>)
    requires AllSized(items)
    ensures DecodeItems(|items|, EncodeItems(items) + rest) == Parsed(items, rest)
    decreases items, 0
  {
    hide Decode, Encode;
    if items == [] {
      assert EncodeItems(items) + rest == rest;
    } else {
      var first, others := items[0], items[1..];
      var tail := EncodeItems(others) + rest;
      hide DecodeItems;
      DecodeOfEncode(first, tail);
      DecodeItemsOfEncode(others, rest);
      DecodeItemsCons(first, others, Encode(first) + tail, tail, rest);
      Reassociate(Encode(first), EncodeItems(others), rest);
      assert items == [first] + others;
    }
  }

  /** No encoding is a proper prefix of another, and different values encode differently. */
  lemma EncodeInjective(v: Value, w: Value, restV: seq<byte>, restW: seq<byte>)
    requires Sized(v) && Sized(w)
    requires Encode(v) + restV == Encode(w) + restW
    ensures v == w && restV == restW
  {
    DecodeOfEncode(v, restV);
    DecodeOfEncode(w, restW);
  }

  // ----- encoding undoes decoding: only shortest heads and definite lengths are accepted

  lemma HeadOfDecodeHead(b: seq<byte>)
    requires DecodeHead(b).Parsed?
    ensures b == Head(DecodeHead(b).item.major, DecodeHead(b).item.n) + DecodeHead(b).rest
  {
    var info, n := b[0] % 32, DecodeHead(b).item.n;
    var width := ArgumentWidth(info);
    assert Info(n) == info && 32 * DecodeHead(b).item.major + info == b[0];
    var argument := b[1..1 + width];
    assert BigEndian.Write(n, width) == argument by {
      if width != 0 {
        BigEndian.WriteOfValue(argument);
      }
    }
    assert b == [b[0]] + argument + b[1 + width..];
  }

  /** Whatever the decoder accepts is exactly the encoding of the value it returns. */
  lemma {:induction false} EncodeOfDecode(b: seq<byte>)
    requires Decode(b).Parsed?
    ensures b == Encode(Decode(b).item) + Decode(b).rest
    decreases |b|, 1
  {
    var Parsed(v, after) := Decode(b);
    BodyOfDecode(b);
    HeadOfDecodeHead(b);
    Reassociate(Head(Major(v), Argument(v)), Body(v), after);
  }

  lemma TakeAndDrop(s: seq<byte>, n: nat)
    requires n <= |s|
    ensures s == s[..n] + s[n..]
  {
  }

  lemma {:induction false} BodyOfDecode(b: seq<byte>)
    requires Decode(b).Parsed?
    ensures var Parsed(v, after) := Decode(b);
            DecodeHead(b) == Parsed(HeadItem(Major(v), Argument(v)), Body(v) + after)
    decreases |b|, 0
  {
    var Parsed(HeadItem(major, n), rest) := DecodeHead(b);
    match Decode(b).item
    case UInt(_) =>
    case ByteString(_) => TakeAndDrop(rest, n);
    case Text(_) => TakeAndDrop(rest, n);
    case Array(_) => EncodeOfDecodeItems(n, rest);
    case Map(_) => EncodeOfDecodeItems(2 * n, rest);
  }

  lemma EncodeItemsCons(first: Value, others: seq<Value>)
    ensures EncodeItems([first] + others) == Encode(first) + EncodeItems(others)
  {
    assert ([first] + others)[1..] == others;
  }

  lemma {:induction false} EncodeOfDecodeItems(count: nat, b: seq<byte>)
    requires DecodeItems(count, b).Parsed?
    ensures b == EncodeItems(DecodeItems(count, b).item) + DecodeItems(count, b).rest
    decreases |b|, 2
  {
    hide Encode, Decode;
    if count != 0 {
      var Parsed(first, rest) := Decode(b);
      var Parsed(others, after) := DecodeItems(count - 1, rest);
      EncodeOfDecode(b);
      EncodeOfDecodeItems(count - 1, rest);
      EncodeItemsCons(first, others);
      Reassociate(Encode(first), EncodeItems(others), after);
    }
  }
}
