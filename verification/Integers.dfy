/** DER integers (pki/parse_values.cc; CBS_is_valid_asn1_integer of crypto/bytestring/cbs.c). */
module Integers {
  import opened Bits
  import opened Bytes
  import opened InputOrder
  import Der

  const UINT64_LIMIT := 0x1_0000_0000_0000_0000

  function Pow256(n: nat): (p: nat)
    ensures p >= 1
  {
    if n == 0 then 1 else Pow256(n - 1) * 256
  }

  /** The fewest octets that write v in base 256, most significant first; one octet for zero. */
  function BaseOctets(v: nat): (s: Input)
    ensures |s| >= 1
  {
    if v < 256 then [v] else BaseOctets(v / 256) + [v % 256]
  }

  /** The DER contents octets of a non-negative integer: a zero octet in front when the top bit is set. */
  function DerOctets(v: nat): (s: Input)
    ensures |s| >= 1
  {
    var s := BaseOctets(v);
    if s[0] >= 128 then [0] + s else s
  }

  lemma {:induction false} BaseOctetsValue(v: nat)
    ensures Der.BigEndian(BaseOctets(v)) == v
    ensures v > 0 ==> BaseOctets(v)[0] != 0
  {
    if v < 256 {
      assert [v][..0] == [];
      assert Der.BigEndian([v]) == Der.BigEndian([v][..0]) * 256 + v;
    } else {
      BaseOctetsValue(v / 256);
      assert BaseOctets(v)[..|BaseOctets(v)| - 1] == BaseOctets(v / 256);
    }
  }

  lemma {:induction false} LeadingZero(s: Input)
    ensures Der.BigEndian([0] + s) == Der.BigEndian(s)
    decreases |s|
  {
    if s == [] {
      assert [0] + s == [0] && [0][..0] == [];
      assert Der.BigEndian([0]) == Der.BigEndian([0][..0]) * 256 + 0;
    } else {
      LeadingZero(s[..|s| - 1]);
      assert ([0] + s)[..|s|] == [0] + s[..|s| - 1];
    }
  }

  /** Writing then reading big-endian gives the value back, so no two values share their octets. */
  lemma DerOctetsValue(v: nat)
    ensures Der.BigEndian(DerOctets(v)) == v
  {
    BaseOctetsValue(v);
    LeadingZero(BaseOctets(v));
  }

  /** Octets without a leading zero are the octets of their value. */
  lemma {:induction false} BaseOctetsOfValue(s: Input)
    requires |s| == 1 || (|s| > 1 && s[0] != 0)
    ensures BaseOctets(Der.BigEndian(s)) == s
    ensures |s| > 1 ==> Der.BigEndian(s) >= 256
    decreases |s|
  {
    var head := s[..|s| - 1];
    if |s| == 1 {
      assert head == [];
    } else {
      BaseOctetsOfValue(head);
      if |s| == 2 {
        assert head == [s[0]] && head[..0] == [];
        assert Der.BigEndian(head) == Der.BigEndian(head[..0]) * 256 + s[0];
      }
      var v := Der.BigEndian(s);
      assert v / 256 == Der.BigEndian(head) && v % 256 == s[|s| - 1];
      assert s == head + [s[|s| - 1]];
    }
  }

  lemma {:induction false} BaseOctetsLength(v: nat, n: nat)
    requires n >= 1
    ensures v < Pow256(n) <==> |BaseOctets(v)| <= n
    decreases n
  {
    assert n == 1 ==> Pow256(1) == Pow256(0) * 256;
    if n > 1 {
      assert v < Pow256(n) <==> v / 256 < Pow256(n - 1);
      BaseOctetsLength(v / 256, n - 1);
    }
  }

  lemma Pow256Eight()
    ensures Pow256(8) == UINT64_LIMIT
  {
    assert Pow256(2) == 0x1_0000 by { assert Pow256(1) == 256; }
    assert Pow256(4) == 0x1_0000_0000 by { assert Pow256(3) == 0x100_0000; }
    assert Pow256(6) == 0x1_0000_0000_0000 by { assert Pow256(5) == 0x100_0000_0000; }
    assert Pow256(7) == 0x100_0000_0000_0000;
  }

  /** IsValidInteger: minimal when the first nine bits are not all equal; negative when the top bit is set. */
  method IsValidInteger(input: Input) returns (valid: bool, negative: bool)
    ensures valid && !negative <==> exists v: nat :: input == DerOctets(v)
    ensures valid <==> |input| == 1 || (|input| > 1 && !(input[0] == 0 && input[1] < 128) && !(input[0] == 255 && input[1] >= 128))
    ensures valid ==> (negative <==> input[0] >= 128)
  {
    var copy := new ByteReader(input);
    var ok, first := copy.ReadByte();
    if !ok { return false, false; }
    negative := first >= 128;
    ghost var rest := copy.data;
    var second;
    ok, second := copy.ReadByte();
    NonNegativeMinimal(input);
    if !ok {
      assert input == [first];
      return true, negative;
    }
    assert input[0] == first && input[1] == second;
    valid := !((first == 0 && second < 128) || (first == 255 && second >= 128));
  }

  /** The minimal non-negative encodings are exactly the DER octets of some value. */
  lemma NonNegativeMinimal(s: Input)
    ensures (exists v: nat :: s == DerOctets(v)) <==>
            |s| >= 1 && s[0] < 128 && (|s| > 1 ==> s[0] != 0 || s[1] >= 128)
  {
    if |s| >= 1 && s[0] < 128 && (|s| > 1 ==> s[0] != 0 || s[1] >= 128) {
      if |s| > 1 && s[0] == 0 {
        BaseOctetsOfValue(s[1..]);
        assert s == [0] + s[1..];
        assert s == DerOctets(Der.BigEndian(s[1..]));
      } else {
        BaseOctetsOfValue(s);
        assert s == DerOctets(Der.BigEndian(s));
      }
    }
    forall v: nat | s == DerOctets(v)
      ensures |s| >= 1 && s[0] < 128 && (|s| > 1 ==> s[0] != 0 || s[1] >= 128)
    {
      BaseOctetsValue(v);
      if |s| > 1 && s[0] == 0 && BaseOctets(v)[0] < 128 { assert v > 0 || BaseOctets(v) == [0]; }
    }
  }

  /** GetUnsignedIntegerLength: the octets without one leading zero, which keep the value; for DER the fewest that do. */
  method GetUnsignedIntegerLength(input: Input) returns (n: nat)
    ensures n <= |input| <= n + 1 && (n == 0 <==> input == [])
    ensures n < |input| <==> |input| > 1 && input[0] == 0
    ensures Der.BigEndian(input[|input| - n..]) == Der.BigEndian(input)
    ensures forall v: nat :: input == DerOctets(v) ==> n == |BaseOctets(v)|
  {
    var reader := new ByteReader(input);
    var ok, first := reader.ReadByte();
    if !ok { return 0; }
    assert input[0] == first;
    if first == 0 && |input| > 1 {
      n := |input| - 1;
      LeadingZero(input[1..]);
      assert input == [0] + input[1..];
    } else {
      n := |input|;
    }
    forall v: nat | input == DerOctets(v) ensures n == |BaseOctets(v)| {
      BaseOctetsValue(v);
      assert v < 256 ==> |BaseOctets(v)| == 1;
    }
  }

  /** ParseUint64 accepts exactly the DER octets of the values below 2^64, each as its value. */
  method ParseUint64(input: Input) returns (ok: bool, out: nat)
    ensures ok ==> out < UINT64_LIMIT && input == DerOctets(out)
    ensures !ok ==> forall v: nat :: v < UINT64_LIMIT ==> input != DerOctets(v)
  {
    assert input[..0] == [] && Der.BigEndian([]) == 0;
    hide DerOctets, Pow256, Or, Der.BigEndian;
    out := 0;
    var valid, negative := IsValidInteger(input);
    if !valid || negative {
      return false, 0;
    }
    ghost var v: nat :| input == DerOctets(v);
    Pow256Eight();
    var n := GetUnsignedIntegerLength(input);
    BaseOctetsLength(v, 8);
    if n > 8 {
      forall w: nat | w < UINT64_LIMIT ensures input != DerOctets(w) {
        DerOctetsValue(v);
        DerOctetsValue(w);
      }
      return false, 0;
    }
    var reader := new ByteReader(input);
    ghost var i := 0;
    var more, data := reader.ReadByte();
    var value := 0;
    while more
      invariant i <= |input| && value == Der.BigEndian(input[..i])
      invariant more ==> i < |input| && [data] + reader.data == input[i..]
      invariant !more ==> i == |input|
      decreases |input| - i
    {
      assert data == input[i] && reader.data == input[i..][1..] == input[i + 1..];
      ShiftInOctet(input, v, i);
      value := (value * 256) % UINT64_LIMIT;  // value <<= 8
      value := Or(value, data);  // value |= data
      i := i + 1;
      more, data := reader.ReadByte();
    }
    assert input[..|input|] == input;
    DerOctetsValue(v);
    return true, value;
  }

  /** Shifting a 64-bit value left and ORing the next octet in appends that octet. */
  lemma ShiftInOctet(s: Input, v: nat, i: nat)
    requires s == DerOctets(v) && v < UINT64_LIMIT && i < |s|
    ensures Or((Der.BigEndian(s[..i]) * 256) % UINT64_LIMIT, s[i]) == Der.BigEndian(s[..i + 1])
  {
    Pow2Eight();
    hide Or, Pow2, DerOctets;
    PrefixFits(s, v, i);
    OrIntoClearedBits(Der.BigEndian(s[..i]), s[i], 8);
    assert s[..i + 1][..i] == s[..i];
  }

  lemma Pow2Eight()
    ensures Pow2(8) == 256
  {
    assert Pow2(4) == 16 && Pow2(6) == 64;
  }

  /** Before the last octet there is always room to shift: no bit is lost, not even in nine octets. */
  lemma PrefixFits(s: Input, v: nat, i: nat)
    requires s == DerOctets(v) && v < UINT64_LIMIT && i < |s|
    ensures Der.BigEndian(s[..i]) * 256 < UINT64_LIMIT
  {
    Pow256Eight();
    BaseOctetsLength(v, 8);
    ShorterPrefix(s, i);
    DerOctetsValue(v);
    PrefixScaled(s, i + 1);
  }

  lemma ShorterPrefix(s: Input, i: nat)
    requires i < |s|
    ensures Der.BigEndian(s[..i + 1]) >= Der.BigEndian(s[..i]) * 256
  {
    assert s[..i + 1][..i] == s[..i];
  }

  lemma {:induction false} PrefixScaled(s: Input, i: nat)
    requires i <= |s|
    ensures Der.BigEndian(s[..i]) <= Der.BigEndian(s)
    decreases |s| - i
  {
    if i == |s| {
      assert s[..i] == s;
    } else {
      PrefixScaled(s, i + 1);
      ShorterPrefix(s, i);
    }
  }

  /** No two values have the same octets, so a parsed value comes from one octet string only. */
  lemma DerOctetsInjective(v: nat, w: nat)
    ensures DerOctets(v) == DerOctets(w) <==> v == w
  {
    DerOctetsValue(v);
    DerOctetsValue(w);
  }

  /** ParseUint8: the same, limited to one octet's values. */
  method ParseUint8(input: Input) returns (ok: bool, out: byte)
    ensures ok ==> input == DerOctets(out)
    ensures !ok ==> forall v: nat :: v < 256 ==> input != DerOctets(v)
  {
    var value;
    ok, value := ParseUint64(input);
    if !ok { return false, 0; }
    if value > 0xff {
      forall v: nat | v < 256 ensures input != DerOctets(v) {
        DerOctetsValue(v);
        DerOctetsValue(value);
      }
      return false, 0;
    }
    out := value;
  }
}
