/** Machine integers, byte strings and the small containers every module shares. */
module Prelude {

  const U32_LIMIT: int := 0x1_0000_0000
  const U64_LIMIT: int := 0x1_0000_0000_0000_0000

  type byte = x: int | 0 <= x < 256
  type u32 = x: int | 0 <= x < U32_LIMIT
  type u64 = x: int | 0 <= x < U64_LIMIT

  /** A byte vector; no Rust vector is as long as 2^64 elements. */
  type Bytes = s: seq<byte> | |s| < U64_LIMIT

  datatype Option<+T> = None | Some(value: T)

  datatype Outcome<+E> = Ok | Err(error: E)

  /** The bytes of a string literal whose characters are all ASCII. */
  function Ascii(s: string): (r: seq<byte>)
    ensures |r| == |s|
  {
    seq(|s|, i requires 0 <= i < |s| => s[i] as int % 256)
  }

  /** Bytewise lexicographic order, a proper prefix coming first. */
  predicate LexLess(a: seq<byte>, b: seq<byte>) {
    if b == [] then false
    else if a == [] then true
    else a[0] < b[0] || (a[0] == b[0] && LexLess(a[1..], b[1..]))
  }

  lemma Reassociate<T>(a: seq<T>, b: seq<T>, c: seq<T>)
    ensures a + b + c == a + (b + c)
  {
  }

  lemma ConsEqual<T>(a: T, x: seq<T>, b: T, y: seq<T>)
    ensures [a] + x == [b] + y <==> a == b && x == y
  {
    assert ([a] + x)[1..] == x && ([b] + y)[1..] == y;
    assert ([a] + x)[0] == a && ([b] + y)[0] == b;
  }
}
