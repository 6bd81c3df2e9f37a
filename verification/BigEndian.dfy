/** Byte strings read as big-endian unsigned integers. */
module BigEndian {
  import opened Prelude

  function Pow256(width: nat): (p: nat)
    ensures p > 0
  {
    if width == 0 then 1 else 256 * Pow256(width - 1)
  }

  function Value(s: seq<byte>): nat {
    if s == [] then 0 else Value(s[..|s| - 1]) * 256 + s[|s| - 1]
  }

  function Write(n: nat, width: nat): (s: seq<byte>)
    ensures |s| == width
  {
    if width == 0 then [] else Write(n / 256, width - 1) + [n % 256]
  }

  lemma {:induction false} ValueBounded(s: seq<byte>)
    ensures Value(s) < Pow256(|s|)
  {
    if s != [] {
      ValueBounded(s[..|s| - 1]);
    }
  }

  lemma ValueSnoc(s: seq<byte>, b: byte)
    ensures Value(s + [b]) == Value(s) * 256 + b
  {
    assert (s + [b])[..|s|] == s;
  }

  lemma {:induction false} ValueOfWrite(n: nat, width: nat)
    requires n < Pow256(width)
    ensures Value(Write(n, width)) == n
  {
    if width != 0 {
      var init := Write(n / 256, width - 1);
      assert n / 256 < Pow256(width - 1);
      ValueOfWrite(n / 256, width - 1);
      assert Write(n, width) == init + [n % 256];
      hide Write, Pow256;
      ValueSnoc(init, n % 256);
    }
  }

  lemma {:induction false} WriteOfValue(s: seq<byte>)
    ensures Write(Value(s), |s|) == s
  {
    if s != [] {
      var init := s[..|s| - 1];
      WriteOfValue(init);
      assert s == init + [s[|s| - 1]];
    }
  }

  /** The widths that a length head uses. */
  lemma HeadWidths()
    ensures Pow256(1) == 0x100 && Pow256(2) == 0x1_0000
    ensures Pow256(4) == U32_LIMIT && Pow256(8) == U64_LIMIT
  {
    assert Pow256(3) == 0x100_0000;
    assert Pow256(5) == 0x100_0000_0000;
    assert Pow256(6) == 0x1_0000_0000_0000;
    assert Pow256(7) == 0x100_0000_0000_0000;
  }
}
