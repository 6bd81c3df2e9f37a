/**
 The descriptor envelope: what is hashed into its id, when it is valid, and how
 long it lives. BLAKE3 and Ed25519 appear as functions of which only what a
 statement says is assumed.
 */
module Descriptors {
  import opened Prelude
  import Cbor

  const ALG_ED25519: byte := 0x01
  const ALG_BLAKE3: byte := 0x03
  const ED25519_KEY_BYTES := 32
  const ED25519_SIGNATURE_BYTES := 64

  const MAX_PAYLOAD_SIZE := 65_536
  const MAX_TOPIC_SIZE := 255
  const MAX_ROUTING_KEYS := 8
  const MICROS_PER_SEC := 1_000_000
  const MAX_CLOCK_SKEW_MICROS := 120 * MICROS_PER_SEC
  const MIN_TTL_SECS := 60
  const MAX_TTL_SECS := 86_400

  /** The last clock value at which no expiry computation can leave the 64-bit range. */
  const MAX_CLOCK: int := U64_LIMIT - 1 - (U32_LIMIT - 1) * MICROS_PER_SEC

  type Clock = t: u64 | t <= MAX_CLOCK

  datatype Hash = Hash(algorithm: byte, digest: seq<byte>)

  datatype Identity = Identity(algorithm: byte, publicKey: seq<byte>)

  /** The fields that the content hash covers. */
  datatype Content = Content(
    schemaHash: Hash,
    topic: seq<byte>,
    payload: seq<byte>,
    publisher: Identity,
    timestamp: u64,
    sequence: u64,
    ttl: u32,
    routingKeys: seq<Hash>)

  datatype Envelope = Envelope(
    schemaHash: Hash,
    topic: seq<byte>,
    payload: seq<byte>,
    publisher: Identity,
    timestamp: u64,
    sequence: u64,
    ttl: u32,
    routingKeys: seq<Hash>,
    id: Hash,
    signature: seq<byte>)

  function ContentOf(d: Envelope): Content {
    Content(d.schemaHash, d.topic, d.payload, d.publisher, d.timestamp, d.sequence, d.ttl, d.routingKeys)
  }

  /** Every vector has a length that a machine word can hold. */
  predicate MachineSized(c: Content) {
    && |c.schemaHash.digest| < U64_LIMIT
    && |c.topic| < U64_LIMIT
    && |c.payload| < U64_LIMIT
    && |c.publisher.publicKey| < U64_LIMIT
    && |c.routingKeys| < U64_LIMIT
    && forall i | 0 <= i < |c.routingKeys| :: |c.routingKeys[i].digest| < U64_LIMIT
  }

  type Descriptor = d: Envelope | MachineSized(ContentOf(d))
    witness Envelope(Hash(0, []), [], [], Identity(0, []), 0, 0, 0, [], Hash(0, []), [])

  /** The deduplication slot: a newer descriptor replaces an older one of the same slot. */
  datatype Slot = Slot(publisher: Identity, schemaHash: Hash, topic: seq<byte>)

  function SlotOf(d: Envelope): Slot {
    Slot(d.publisher, d.schemaHash, d.topic)
  }

  datatype FilterSet = FilterSet(
    schemaHash: Option<Hash>,
    minTimestamp: Option<u64>,
    publisher: Option<Identity>)

  predicate Matches(filters: Option<FilterSet>, d: Envelope) {
    match filters
    case None => true
    case Some(f) =>
      && (f.schemaHash.Some? ==> d.schemaHash == f.schemaHash.value)
      && (f.minTimestamp.Some? ==> d.timestamp >= f.minTimestamp.value)
      && (f.publisher.Some? ==> d.publisher == f.publisher.value)
  }

  /** What a key-rotation payload says. */
  datatype Rotation = Rotation(oldIdentity: seq<byte>, newIdentity: Identity, sequence: u64)

  /** The foreign code: hashing, signature verification and payload parsing. */
  datatype Primitives = Primitives(
    blake3: seq<byte> -> seq<byte>,
    ed25519: (seq<byte>, seq<byte>, seq<byte>) -> bool,
    revocationTarget: seq<byte> -> Option<Hash>,
    rotation: seq<byte> -> Option<Rotation>)

  ghost predicate CollisionFree(p: Primitives) {
    forall a, b :: p.blake3(a) == p.blake3(b) ==> a == b
  }

  function Blake3(p: Primitives, data: seq<byte>): Hash {
    Hash(ALG_BLAKE3, p.blake3(data))
  }

  // ----- tagged byte strings

  function HashBytes(h: Hash): (b: seq<byte>) {
    [h.algorithm] + h.digest
  }

  function IdentityBytes(i: Identity): (b: seq<byte>) {
    [i.algorithm] + i.publicKey
  }

  lemma HashBytesInjective(a: Hash, b: Hash)
    ensures HashBytes(a) == HashBytes(b) ==> a == b
  {
    assert HashBytes(a)[1..] == a.digest && HashBytes(b)[1..] == b.digest;
    assert HashBytes(a)[0] == a.algorithm && HashBytes(b)[0] == b.algorithm;
  }

  lemma IdentityBytesInjective(a: Identity, b: Identity)
    ensures IdentityBytes(a) == IdentityBytes(b) ==> a == b
  {
    assert IdentityBytes(a)[1..] == a.publicKey && IdentityBytes(b)[1..] == b.publicKey;
    assert IdentityBytes(a)[0] == a.algorithm && IdentityBytes(b)[0] == b.algorithm;
  }

  // ----- the content hash

  function TaggedBytes(algorithm: byte, bytes: Bytes): Cbor.Value {
    Cbor.Array([Cbor.UInt(algorithm), Cbor.ByteString(bytes)])
  }

  function KeyValues(keys: seq<Hash>): (values: seq<Cbor.Value>)
    requires forall i | 0 <= i < |keys| :: |keys[i].digest| < U64_LIMIT
    ensures |values| == |keys|
    ensures forall i | 0 <= i < |keys| :: values[i] == TaggedBytes(keys[i].algorithm, keys[i].digest)
  {
    if keys == [] then [] else [TaggedBytes(keys[0].algorithm, keys[0].digest)] + KeyValues(keys[1..])
  }

  function FieldNames(): (names: seq<seq<byte>>) {
    [Ascii("ttl"), Ascii("topic"), Ascii("payload"), Ascii("sequence"),
     Ascii("publisher"), Ascii("timestamp"), Ascii("schema_hash"), Ascii("routing_keys")]
  }

  function FieldValues(c: Content): (values: seq<Cbor.Value>)
    requires MachineSized(c)
    ensures |values| == 8
  {
    [Cbor.UInt(c.ttl),
     Cbor.Text(c.topic),
     Cbor.ByteString(c.payload),
     Cbor.UInt(c.sequence),
     TaggedBytes(c.publisher.algorithm, c.publisher.publicKey),
     Cbor.UInt(c.timestamp),
     TaggedBytes(c.schemaHash.algorithm, c.schemaHash.digest),
     Cbor.Array(KeyValues(c.routingKeys))]
  }

  function EntryAt(names: seq<seq<byte>>, values: seq<Cbor.Value>, j: nat): Cbor.Value
    requires |names| == |values| && j < 2 * |names|
    requires forall i | 0 <= i < |names| :: |names[i]| < U64_LIMIT
  {
    if j % 2 == 0 then Cbor.Text(names[j / 2]) else values[j / 2]
  }

  /** Keys and values alternating. */
  function Interleave(names: seq<seq<byte>>, values: seq<Cbor.Value>): (entries: seq<Cbor.Value>)
    requires |names| == |values| && forall i | 0 <= i < |names| :: |names[i]| < U64_LIMIT
    ensures |entries| == 2 * |names|
    ensures forall j | 0 <= j < |entries| :: entries[j] == EntryAt(names, values, j)
  {
    seq(2 * |names|, j requires 0 <= j < 2 * |names| => EntryAt(names, values, j))
  }

  function CanonicalValue(c: Content): Cbor.Value
    requires MachineSized(c)
  {
    Cbor.Map(Interleave(FieldNames(), FieldValues(c)))
  }

  function CanonicalBytes(c: Content): seq<byte>
    requires MachineSized(c)
  {
    Cbor.Encode(CanonicalValue(c))
  }

  function IdOf(p: Primitives, d: Descriptor): Hash {
    Blake3(p, CanonicalBytes(ContentOf(d)))
  }

  // A reader for the canonical form, partial on everything else.

  function ReadTagged(v: Cbor.Value): Option<Hash> {
    if v.Array? && |v.items| == 2 && v.items[0].UInt? && v.items[0].n < 256 && v.items[1].ByteString?
    then Some(Hash(v.items[0].n, v.items[1].bytes))
    else None
  }

  function ReadKeys(values: seq<Cbor.Value>): (r: Option<seq<Hash>>)
    ensures r.Some? ==> |r.value| == |values|
  {
    if values == [] then Some([])
    else
      match (ReadTagged(values[0]), ReadKeys(values[1..]))
      case (Some(first), Some(others)) => Some([first] + others)
      case _ => None
  }

  function ReadContent(v: Cbor.Value): Option<Content> {
    if v.Map? && |v.entries| == 16 then
      var e := v.entries;
      if (forall j | 0 <= j < 16 && j % 2 == 0 :: e[j] == Cbor.Text(FieldNames()[j / 2]))
         && e[1].UInt? && e[1].n < U32_LIMIT && e[3].Text? && e[5].ByteString? && e[7].UInt?
         && e[11].UInt? && e[15].Array? && |e[15].items| < U64_LIMIT
      then
        match (ReadTagged(e[9]), ReadTagged(e[13]), ReadKeys(e[15].items))
        case (Some(publisher), Some(schema), Some(keys)) =>
          Some(Content(schema, e[3].utf8, e[5].bytes, Identity(publisher.algorithm, publisher.digest),
                       e[11].n, e[7].n, e[1].n, keys))
        case _ => None
      else None
    else None
  }

  function DecodeContent(b: seq<byte>): Option<Content> {
    match Cbor.Decode(b)
    case Malformed => None
    case Parsed(v, rest) => if rest == [] then ReadContent(v) else None
  }

  lemma ReadKeysCons(first: Hash, others: seq<Hash>, values: seq<Cbor.Value>)
    requires |first.digest| < U64_LIMIT && ReadKeys(values) == Some(others)
    ensures ReadKeys([TaggedBytes(first.algorithm, first.digest)] + values) == Some([first] + others)
  {
    var all := [TaggedBytes(first.algorithm, first.digest)] + values;
    assert all[0] == TaggedBytes(first.algorithm, first.digest) && all[1..] == values;
  }

  lemma {:induction false} ReadKeysOfKeyValues(keys: seq<Hash>)
    requires forall i | 0 <= i < |keys| :: |keys[i].digest| < U64_LIMIT
    ensures ReadKeys(KeyValues(keys)) == Some(keys)
  {
    if keys != [] {
      ReadKeysOfKeyValues(keys[1..]);
      ReadKeysCons(keys[0], keys[1..], KeyValues(keys[1..]));
      hide ReadKeys, TaggedBytes;
      assert keys == [keys[0]] + keys[1..];
    }
  }

  lemma {:induction false} KeyValuesOfReadKeys(values: seq<Cbor.Value>)
    requires ReadKeys(values).Some?
    ensures forall i | 0 <= i < |values| :: |ReadKeys(values).value[i].digest| < U64_LIMIT
    ensures KeyValues(ReadKeys(values).value) == values
  {
    if values != [] {
      var keys, others := ReadKeys(values).value, ReadKeys(values[1..]).value;
      KeyValuesOfReadKeys(values[1..]);
      TaggedOfReadTagged(values[0]);
      assert keys == [ReadTagged(values[0]).value] + others;
      assert KeyValues(keys) == [values[0]] + KeyValues(others);
    }
  }

  lemma TaggedOfReadTagged(v: Cbor.Value)
    requires ReadTagged(v).Some?
    ensures var h := ReadTagged(v).value;
            |h.digest| < U64_LIMIT && v == TaggedBytes(h.algorithm, h.digest)
  {
    assert v.items == [v.items[0], v.items[1]];
  }

  lemma CanonicalValueSized(c: Content)
    requires MachineSized(c)
    ensures Cbor.Sized(CanonicalValue(c))
  {
    var keys := KeyValues(c.routingKeys);
    forall i | 0 <= i < |keys| ensures Cbor.Sized(keys[i]) {
      TaggedSized(c.routingKeys[i].algorithm, c.routingKeys[i].digest);
    }
    TaggedSized(c.publisher.algorithm, c.publisher.publicKey);
    TaggedSized(c.schemaHash.algorithm, c.schemaHash.digest);
    var values := FieldValues(c);
    forall i | 0 <= i < 8 ensures Cbor.Sized(values[i]) {
    }
    var entries := Interleave(FieldNames(), values);
    forall j | 0 <= j < |entries| ensures Cbor.Sized(entries[j]) {
      assert entries[j] == EntryAt(FieldNames(), values, j);
    }
  }

  lemma TaggedSized(algorithm: byte, bytes: Bytes)
    ensures Cbor.Sized(TaggedBytes(algorithm, bytes))
  {
  }

  lemma ReadOfCanonical(c: Content)
    requires MachineSized(c)
    ensures ReadContent(CanonicalValue(c)) == Some(c)
  {
    hide KeyValues, ReadKeys, Ascii;
    var e := CanonicalValue(c).entries;
    var values := FieldValues(c);
    assert e[1] == values[0] && e[3] == values[1] && e[5] == values[2] && e[7] == values[3];
    assert e[9] == values[4] && e[11] == values[5] && e[13] == values[6] && e[15] == values[7];
    ReadKeysOfKeyValues(c.routingKeys);
  }

  lemma ReadValues(v: Cbor.Value)
    requires ReadContent(v).Some?
    ensures MachineSized(ReadContent(v).value)
    ensures var e, values := v.entries, FieldValues(ReadContent(v).value);
            && e[1] == values[0] && e[3] == values[1] && e[5] == values[2] && e[7] == values[3]
            && e[9] == values[4] && e[11] == values[5] && e[13] == values[6] && e[15] == values[7]
  {
    var e := v.entries;
    TaggedOfReadTagged(e[9]);
    TaggedOfReadTagged(e[13]);
    KeyValuesOfReadKeys(e[15].items);
  }

  lemma CanonicalOfRead(v: Cbor.Value)
    requires ReadContent(v).Some?
    ensures MachineSized(ReadContent(v).value) && v == CanonicalValue(ReadContent(v).value)
  {
    ReadValues(v);
    var e, values := v.entries, FieldValues(ReadContent(v).value);
    forall j | 0 <= j < 16 ensures e[j] == EntryAt(FieldNames(), values, j) {
    }
    assert e == Interleave(FieldNames(), values);
  }

  /** The reader accepts exactly the canonical strings, and returns the content each stands for. */
  lemma DecodeContentExact(b: seq<byte>, c: Content)
    ensures DecodeContent(b) == Some(c) <==> MachineSized(c) && b == CanonicalBytes(c)
  {
    if DecodeContent(b) == Some(c) {
      Cbor.EncodeOfDecode(b);
      CanonicalOfRead(Cbor.Decode(b).item);
      assert b == Cbor.Encode(Cbor.Decode(b).item) + [];
    }
    if MachineSized(c) && b == CanonicalBytes(c) {
      CanonicalValueSized(c);
      Cbor.DecodeOfEncode(CanonicalValue(c), []);
      assert b + [] == b;
      ReadOfCanonical(c);
    }
  }

  /** Descriptors whose ids agree agree on every hashed field. */
  lemma IdDeterminesContent(p: Primitives, d: Descriptor, e: Descriptor)
    requires CollisionFree(p)
    requires IdOf(p, d) == IdOf(p, e)
    ensures ContentOf(d) == ContentOf(e)
  {
    DecodeContentExact(CanonicalBytes(ContentOf(d)), ContentOf(d));
    DecodeContentExact(CanonicalBytes(ContentOf(d)), ContentOf(e));
  }

  lemma ConsecutiveNames(i: nat)
    requires i < 7
    ensures var a, b := FieldNames()[i], FieldNames()[i + 1];
            0 < |a| <= |b| < 24 && (|a| == |b| ==> a[0] < b[0])
  {
    assert Ascii("publisher")[0] == 'p' as int && Ascii("timestamp")[0] == 't' as int;
  }

  lemma TextOrder(a: seq<byte>, b: seq<byte>)
    requires 0 < |a| <= |b| < 24 && (|a| == |b| ==> a[0] < b[0])
    ensures LexLess(Cbor.Encode(Cbor.Text(a)), Cbor.Encode(Cbor.Text(b)))
  {
    var ea, eb := Cbor.Encode(Cbor.Text(a)), Cbor.Encode(Cbor.Text(b));
    assert Cbor.Head(3, |a|) == [96 + |a|] && Cbor.Head(3, |b|) == [96 + |b|];
    assert Cbor.Body(Cbor.Text(a)) == a && Cbor.Body(Cbor.Text(b)) == b;
    assert ea == [96 + |a|] + a && eb == [96 + |b|] + b;
    assert ea[1..] == a && eb[1..] == b;
  }

  /** The map keys are in the order of RFC 8949, section 4.2.1: ascending as encoded bytes. */
  lemma FieldNamesAscend(i: nat)
    requires i < 7
    ensures LexLess(Cbor.Encode(Cbor.Text(FieldNames()[i])), Cbor.Encode(Cbor.Text(FieldNames()[i + 1])))
  {
    ConsecutiveNames(i);
    TextOrder(FieldNames()[i], FieldNames()[i + 1]);
  }

  // ----- the bytes under the hash

  function Concat(parts: seq<seq<byte>>): seq<byte> {
    if parts == [] then [] else parts[0] + Concat(parts[1..])
  }

  /** A text key of less than 24 letters, and the bytes of its value. */
  function Named(name: string, value: seq<byte>): seq<byte>
    requires |name| < 24
  {
    [0x60 + |name|] + Ascii(name) + value
  }

  /** An array of two: the algorithm number and the byte string. */
  function Tagged(algorithm: byte, bytes: Bytes): seq<byte> {
    [0x82] + Cbor.Head(0, algorithm) + (Cbor.Head(2, |bytes|) + bytes)
  }

  function TaggedKeys(keys: seq<Hash>): (parts: seq<seq<byte>>)
    requires forall i | 0 <= i < |keys| :: |keys[i].digest| < U64_LIMIT
  {
    seq(|keys|, i requires 0 <= i < |keys| => Tagged(keys[i].algorithm, keys[i].digest))
  }

  lemma {:induction false} ItemsConcat(items: seq<Cbor.Value>, parts: seq<seq<byte>>)
    requires |items| == |parts| && forall i | 0 <= i < |items| :: Cbor.Encode(items[i]) == parts[i]
    ensures Cbor.EncodeItems(items) == Concat(parts)
  {
    if items != [] {
      ItemsConcat(items[1..], parts[1..]);
    }
  }

  lemma InterleaveCons(names: seq<seq<byte>>, values: seq<Cbor.Value>)
    requires |names| == |values| > 0 && forall i | 0 <= i < |names| :: |names[i]| < U64_LIMIT
    ensures Interleave(names, values) == [Cbor.Text(names[0])] + ([values[0]] + Interleave(names[1..], values[1..]))
  {
    var entries, others := Interleave(names, values), Interleave(names[1..], values[1..]);
    forall j | 0 <= j < |others| ensures entries[j + 2] == others[j] {
      assert entries[j + 2] == EntryAt(names, values, j + 2) == EntryAt(names[1..], values[1..], j);
    }
  }

  lemma {:induction false} EntriesConcat(names: seq<seq<byte>>, values: seq<Cbor.Value>, parts: seq<seq<byte>>)
    requires |names| == |values| == |parts| && forall i | 0 <= i < |names| :: |names[i]| < U64_LIMIT
    requires forall i | 0 <= i < |names| ::
               Cbor.Encode(Cbor.Text(names[i])) + Cbor.Encode(values[i]) == parts[i]
    ensures Cbor.EncodeItems(Interleave(names, values)) == Concat(parts)
  {
    hide Cbor.Encode, Interleave, EntryAt;
    if names != [] {
      EntriesConcat(names[1..], values[1..], parts[1..]);
      InterleaveCons(names, values);
      var first, others := Cbor.Text(names[0]), Interleave(names[1..], values[1..]);
      hide Cbor.EncodeItems;
      Cbor.EncodeItemsCons(first, [values[0]] + others);
      Cbor.EncodeItemsCons(values[0], others);
      Reassociate(Cbor.Encode(first), Cbor.Encode(values[0]), Cbor.EncodeItems(others));
    }
  }

  lemma TaggedIsEncoded(algorithm: byte, bytes: Bytes)
    ensures Cbor.Encode(TaggedBytes(algorithm, bytes)) == Tagged(algorithm, bytes)
  {
    var number, vector := Cbor.UInt(algorithm), Cbor.ByteString(bytes);
    var none: seq<Cbor.Value> := [];
    Cbor.EncodeItemsCons(number, [vector]);
    Cbor.EncodeItemsCons(vector, none);
    assert [number] + [vector] == [number, vector] && [vector] + none == [vector];
    assert Cbor.Encode(vector) + [] == Cbor.Encode(vector);
    assert Cbor.Head(4, 2) == [0x82];
    Reassociate([0x82], Cbor.Head(0, algorithm), Cbor.Encode(vector));
  }

  lemma NameIsEncoded(name: string, v: Cbor.Value)
    requires |name| < 24
    ensures Cbor.Encode(Cbor.Text(Ascii(name))) + Cbor.Encode(v) == Named(name, Cbor.Encode(v))
  {
    hide Ascii;
    assert Cbor.Head(3, |name|) == [0x60 + |name|];
  }

  /** The entries under the hash, each under its own name, in the order of the encoded names. */
  function EntryBytes(d: Descriptor): (parts: seq<seq<byte>>) {
    [Named("ttl", Cbor.Head(0, d.ttl)),
     Named("topic", Cbor.Head(3, |d.topic|) + d.topic),
     Named("payload", Cbor.Head(2, |d.payload|) + d.payload),
     Named("sequence", Cbor.Head(0, d.sequence)),
     Named("publisher", Tagged(d.publisher.algorithm, d.publisher.publicKey)),
     Named("timestamp", Cbor.Head(0, d.timestamp)),
     Named("schema_hash", Tagged(d.schemaHash.algorithm, d.schemaHash.digest)),
     Named("routing_keys", Cbor.Head(4, |d.routingKeys|) + Concat(TaggedKeys(d.routingKeys)))]
  }

  lemma KeysAreEncoded(keys: seq<Hash>)
    requires |keys| < U64_LIMIT && forall i | 0 <= i < |keys| :: |keys[i].digest| < U64_LIMIT
    ensures Cbor.Encode(Cbor.Array(KeyValues(keys))) == Cbor.Head(4, |keys|) + Concat(TaggedKeys(keys))
  {
    forall i | 0 <= i < |keys| ensures Cbor.Encode(KeyValues(keys)[i]) == TaggedKeys(keys)[i] {
      TaggedIsEncoded(keys[i].algorithm, keys[i].digest);
    }
    ItemsConcat(KeyValues(keys), TaggedKeys(keys));
    hide TaggedKeys, Concat, Cbor.Head, Cbor.EncodeItems;
  }

  lemma EntriesAreEncoded(d: Descriptor, i: nat)
    requires i < 8
    ensures Cbor.Encode(Cbor.Text(FieldNames()[i])) + Cbor.Encode(FieldValues(ContentOf(d))[i]) == EntryBytes(d)[i]
  {
    hide Named, Tagged, Ascii, Cbor.Head, Cbor.Encode, Concat, TaggedKeys, KeyValues, TaggedBytes;
    TaggedIsEncoded(d.publisher.algorithm, d.publisher.publicKey);
    TaggedIsEncoded(d.schemaHash.algorithm, d.schemaHash.digest);
    KeysAreEncoded(d.routingKeys);
    var names := ["ttl", "topic", "payload", "sequence", "publisher", "timestamp", "schema_hash", "routing_keys"];
    NameIsEncoded(names[i], FieldValues(ContentOf(d))[i]);
    PlainFieldsAreEncoded(ContentOf(d));
  }

  lemma PlainFieldsAreEncoded(c: Content)
    requires MachineSized(c)
    ensures Cbor.Encode(Cbor.UInt(c.ttl)) == Cbor.Head(0, c.ttl)
    ensures Cbor.Encode(Cbor.UInt(c.sequence)) == Cbor.Head(0, c.sequence)
    ensures Cbor.Encode(Cbor.UInt(c.timestamp)) == Cbor.Head(0, c.timestamp)
    ensures Cbor.Encode(Cbor.Text(c.topic)) == Cbor.Head(3, |c.topic|) + c.topic
    ensures Cbor.Encode(Cbor.ByteString(c.payload)) == Cbor.Head(2, |c.payload|) + c.payload
  {
    hide Cbor.Head;
  }

  lemma MapOfEight(entries: seq<Cbor.Value>)
    requires |entries| == 16
    ensures Cbor.Encode(Cbor.Map(entries)) == [0xA8] + Cbor.EncodeItems(entries)
  {
    assert Cbor.Head(5, 8) == [0xA8];
    hide Cbor.Head, Cbor.EncodeItems;
  }

  /** What is hashed is a map of these eight entries. */
  lemma CanonicalLayout(p: Primitives, d: Descriptor)
    ensures IdOf(p, d) == Hash(3, p.blake3([0xA8] + Concat(EntryBytes(d))))
  {
    hide FieldValues, FieldNames, Concat, Cbor.Encode, Cbor.EncodeItems;
    NamesFit();
    var values := FieldValues(ContentOf(d));
    forall i | 0 <= i < 8
      ensures Cbor.Encode(Cbor.Text(FieldNames()[i])) + Cbor.Encode(values[i]) == EntryBytes(d)[i]
    {
      EntriesAreEncoded(d, i);
    }
    MapOfEight(Interleave(FieldNames(), values));
    EntriesConcat(FieldNames(), values, EntryBytes(d));
    hide EntryBytes;
  }

  lemma NamesFit()
    ensures |FieldNames()| == 8 && forall i | 0 <= i < 8 :: |FieldNames()[i]| < 24
  {
    hide Ascii;
  }

  /** One slot for each publisher, schema and topic. */
  lemma SameSlotExactly(d: Envelope, e: Envelope)
    ensures SlotOf(d) == SlotOf(e)
       <==> d.publisher == e.publisher && d.schemaHash == e.schemaHash && d.topic == e.topic
  {
  }

  // ----- validity and lifetime

  datatype ValidationError =
    | IdMismatch
    | UnknownAlgorithm
    | InvalidSignature
    | Expired
    | TimestampFuture
    | InvalidTtl
    | InvalidRoutingKeys
    | PayloadTooLarge
    | TopicTooLong
    | MalformedPayload

  function Verify(p: Primitives, i: Identity, message: seq<byte>, signature: seq<byte>): (r: Outcome<ValidationError>)
  {
    if i.algorithm != ALG_ED25519 then Err(UnknownAlgorithm)
    else if |i.publicKey| != ED25519_KEY_BYTES || |signature| != ED25519_SIGNATURE_BYTES then Err(InvalidSignature)
    else if p.ed25519(i.publicKey, message, signature) then Ok
    else Err(InvalidSignature)
  }

  function Min(a: nat, b: nat): nat {
    if a <= b then a else b
  }

  /** The effective start is the earlier of the timestamp and now: no bonus for a future date. */
  function ExpiryTime(timestamp: nat, ttl: nat, now: nat): nat {
    Min(timestamp, now) + ttl * MICROS_PER_SEC
  }

  predicate Live(d: Envelope, now: nat) {
    ExpiryTime(d.timestamp, d.ttl, now) > now
  }

  function Validate(p: Primitives, d: Descriptor, now: Clock): (r: Outcome<ValidationError>)
  {
    if IdOf(p, d) != d.id then Err(IdMismatch)
    else if Verify(p, d.publisher, d.id.digest, d.signature).Err? then Verify(p, d.publisher, d.id.digest, d.signature)
    else if !Live(d, now) then Err(Expired)
    else if d.timestamp > now + MAX_CLOCK_SKEW_MICROS then Err(TimestampFuture)
    else if d.ttl < MIN_TTL_SECS || d.ttl > MAX_TTL_SECS then Err(InvalidTtl)
    else if d.routingKeys == [] || |d.routingKeys| > MAX_ROUTING_KEYS then Err(InvalidRoutingKeys)
    else if |d.payload| > MAX_PAYLOAD_SIZE then Err(PayloadTooLarge)
    else if |d.topic| > MAX_TOPIC_SIZE then Err(TopicTooLong)
    else Ok
  }

  predicate Signed(p: Primitives, d: Descriptor) {
    && d.id == IdOf(p, d) && d.publisher.algorithm == 1
    && |d.publisher.publicKey| == 32 && |d.signature| == 64
    && p.ed25519(d.publisher.publicKey, d.id.digest, d.signature)
  }

  /** The start of its life is no later than now, and its ttl, in seconds, is not over. */
  predicate Alive(d: Descriptor, now: nat) {
    d.ttl > 0 && (d.timestamp <= now ==> now < d.timestamp + d.ttl * 1_000_000)
  }

  predicate Timely(d: Descriptor, now: nat) {
    Alive(d, now) && d.timestamp <= now + 120_000_000 && 60 <= d.ttl <= 86_400
  }

  /** A refusal names the first check that failed. */
  lemma ValidationSaysWhy(p: Primitives, d: Descriptor, now: Clock)
    requires Validate(p, d, now).Err?
    ensures match Validate(p, d, now).error
            case IdMismatch => d.id != IdOf(p, d)
            case UnknownAlgorithm => d.id == IdOf(p, d) && d.publisher.algorithm != 1
            case InvalidSignature => d.id == IdOf(p, d) && d.publisher.algorithm == 1 && !Signed(p, d)
            case Expired => Signed(p, d) && !Alive(d, now)
            case TimestampFuture => Signed(p, d) && Alive(d, now) && d.timestamp > now + 120_000_000
            case InvalidTtl =>
              Signed(p, d) && Alive(d, now) && d.timestamp <= now + 120_000_000 && !(60 <= d.ttl <= 86_400)
            case InvalidRoutingKeys => Signed(p, d) && Timely(d, now) && !(1 <= |d.routingKeys| <= 8)
            case PayloadTooLarge =>
              Signed(p, d) && Timely(d, now) && 1 <= |d.routingKeys| <= 8 && |d.payload| > 65_536
            case TopicTooLong =>
              && Signed(p, d) && Timely(d, now) && 1 <= |d.routingKeys| <= 8
              && |d.payload| <= 65_536 && |d.topic| > 255
            case MalformedPayload => false
  {
    hide IdOf;
  }

  /** What acceptance says once and for all, whatever the time. */
  predicate Authentic(p: Primitives, d: Descriptor) {
    && d.id == IdOf(p, d)
    && d.publisher.algorithm == ALG_ED25519
    && |d.publisher.publicKey| == ED25519_KEY_BYTES
    && d.routingKeys != []
  }

  lemma ValidIsAuthentic(p: Primitives, d: Descriptor, now: Clock)
    requires Validate(p, d, now).Ok?
    ensures Authentic(p, d)
  {
  }

  lemma AuthenticIdsIdentify(p: Primitives, d: Descriptor, e: Descriptor)
    requires CollisionFree(p) && Authentic(p, d) && Authentic(p, e) && d.id == e.id
    ensures ContentOf(d) == ContentOf(e) && SlotOf(d) == SlotOf(e)
  {
    IdDeterminesContent(p, d, e);
  }

  /** The checks of `validate` that no clock can change. */
  predicate WellFormed(p: Primitives, d: Descriptor) {
    && d.id == IdOf(p, d)
    && d.publisher.algorithm == ALG_ED25519
    && |d.publisher.publicKey| == ED25519_KEY_BYTES && |d.signature| == ED25519_SIGNATURE_BYTES
    && p.ed25519(d.publisher.publicKey, d.id.digest, d.signature)
    && MIN_TTL_SECS <= d.ttl <= MAX_TTL_SECS
    && 1 <= |d.routingKeys| <= MAX_ROUTING_KEYS
    && |d.payload| <= MAX_PAYLOAD_SIZE && |d.topic| <= MAX_TOPIC_SIZE
  }

  /** A well-formed descriptor is accepted in one interval: from the skew before its timestamp until its ttl is over. */
  lemma AcceptedExactlyWhile(p: Primitives, d: Descriptor, now: Clock)
    ensures Validate(p, d, now).Ok? <==>
      WellFormed(p, d) && d.timestamp <= now + MAX_CLOCK_SKEW_MICROS && now < d.timestamp + d.ttl * MICROS_PER_SEC
  {
    hide IdOf;
    if d.ttl >= MIN_TTL_SECS {
      assert Live(d, now) <==> now < d.timestamp + d.ttl * MICROS_PER_SEC;
    }
  }

  /** No sum in `validate`, `get` or `evict` leaves the 64-bit range, exactly up to MAX_CLOCK. */
  lemma ClockRangeExact(now: u64)
    ensures now <= MAX_CLOCK <==>
      && now + MAX_CLOCK_SKEW_MICROS < U64_LIMIT
      && forall timestamp: u64, ttl: u32 :: ExpiryTime(timestamp, ttl, now) < U64_LIMIT
  {
    if now > MAX_CLOCK {
      var timestamp: u64, ttl: u32 := now, U32_LIMIT - 1;
      assert ExpiryTime(timestamp, ttl, now) >= U64_LIMIT;
    }
  }

  /** A dead descriptor stays dead. */
  lemma ExpiryIsFinal(d: Envelope, t: nat, t': nat)
    requires t <= t' && !Live(d, t)
    ensures !Live(d, t')
  {
  }

  /** A descriptor accepted at `a` is dead once its ttl and the tolerated clock skew are over. */
  lemma LifetimeBounded(p: Primitives, d: Descriptor, a: Clock, t: nat)
    requires Validate(p, d, a).Ok?
    requires t >= a + MAX_CLOCK_SKEW_MICROS + d.ttl * MICROS_PER_SEC
    ensures !Live(d, t)
  {
  }
}
