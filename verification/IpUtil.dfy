/** Netmasks and masked address comparison (pki/ip_util.cc). */
module IpUtil {
  import opened Bits
  import opened Bytes

  const IPV4_ADDRESS_SIZE := 4
  const IPV6_ADDRESS_SIZE := 16

  /** Bit n of an address in network order: the first bit is the top bit of the first octet. */
  predicate NetBit(a: Input, n: nat)
    requires n < 8 * |a|
  {
    Bit(a[n / 8], 7 - n % 8)
  }

  /** The mask consists of k ones followed by zeros only. */
  ghost predicate PrefixBits(mask: Input, k: nat) {
    && k <= 8 * |mask|
    && forall n :: 0 <= n < 8 * |mask| ==> (NetBit(mask, n) <==> n < k)
  }

  ghost predicate ValidNetmask(mask: Input) {
    && (|mask| == IPV4_ADDRESS_SIZE || |mask| == IPV6_ADDRESS_SIZE)
    && exists k: nat :: PrefixBits(mask, k)
  }

  /** Same size, and the same value in every position that the mask selects. */
  ghost predicate AgreeUnder(a: Input, b: Input, mask: Input) {
    && |a| == |b| == |mask|
    && forall n :: 0 <= n < 8 * |mask| && NetBit(mask, n) ==> NetBit(a, n) == NetBit(b, n)
  }

  /** The two addresses share their first k bits. */
  ghost predicate SharePrefix(a: Input, b: Input, k: nat)
    requires |a| == |b| && k <= 8 * |a|
  {
    forall n :: 0 <= n < k ==> NetBit(a, n) == NetBit(b, n)
  }

  /** The source's uint8_t complement, promoted to int as its use in arithmetic is. */
  function Complement(b: byte): nat {
    255 - b
  }

  /** Within an octet: zeros below position j and ones from it on. */
  ghost predicate OnesFrom(b: byte, j: nat) {
    forall i :: 0 <= i < 8 ==> (Bit(b, i) <==> i >= j)
  }

  lemma OctetBound(b: byte)
    ensures b < Pow2(8) && Pow2(8) == 256
  {
    assert Pow2(1) == 2 && Pow2(2) == 4 && Pow2(3) == 8 && Pow2(4) == 16;
    assert Pow2(5) == 32 && Pow2(6) == 64 && Pow2(7) == 128 && Pow2(8) == 256;
  }

  lemma NetBitAt(a: Input, i: nat, m: nat)
    requires i < |a| && m < 8
    ensures NetBit(a, 8 * i + m) == Bit(a[i], 7 - m)
  {
    assert (8 * i + m) / 8 == i && (8 * i + m) % 8 == m;
  }

  /** The octet test of IsValidNetmask holds exactly for octets made of ones followed by zeros. */
  lemma OctetTest(b: byte)
    ensures And(Complement(b), Complement(b) + 1) == 0 <==> exists j: nat :: j <= 8 && OnesFrom(b, j)
  {
    OctetBound(b);
    var inv := Complement(b);
    AndSuccessorZero(inv, 8);
    hide And, Pow2, OnesFrom;
    if And(inv, inv + 1) == 0 {
      var j: nat :| 0 <= j <= 8 && inv == Pow2(j) - 1;
      ComplementOnes(b, j);
      assert OnesFrom(b, j);
    }
    if j: nat :| j <= 8 && OnesFrom(b, j) {
      ComplementOnes(b, j);
    }
  }

  lemma ComplementOnes(b: byte, j: nat)
    requires j <= 8
    ensures OnesFrom(b, j) <==> Complement(b) == Pow2(j) - 1
  {
    var inv := Complement(b);
    OctetBound(b);
    OnesBelow(j);
    hide Bit, Pow2;
    forall i | 0 <= i < 8 ensures (Bit(inv, i) <==> !Bit(b, i)) && (Bit(Pow2(j) - 1, i) <==> i < j) {
      ComplementBit(b, 8, i);
      LowOnesBit(j, i);
    }
    if OnesFrom(b, j) { BitsDetermine(inv, Pow2(j) - 1, 8); }
  }

  lemma OnesBelow(j: nat)
    requires j <= 8
    ensures Pow2(j) - 1 < Pow2(8)
  {
    if j < 8 { Pow2Monotone(j, 8); }
  }

  lemma {:induction false} Pow2Monotone(i: nat, j: nat)
    requires i <= j
    ensures Pow2(i) <= Pow2(j)
  {
    if i < j { Pow2Monotone(i, j - 1); }
  }

  lemma AllOnesOctet(i: nat)
    requires i < 8
    ensures Bit(255, i)
  {
    OctetBound(0);
    LowOnesBit(8, i);
  }

  lemma NonZeroOctet(b: byte)
    requires b != 0
    ensures exists i :: 0 <= i < 8 && Bit(b, i)
  {
    OctetBound(b);
    if forall i :: 0 <= i < 8 ==> !Bit(b, i) {
      forall i | 0 <= i < 8 ensures Bit(b, i) == Bit(0, i) { BitZero(i); }
      BitsDetermine(b, 0, 8);
    }
  }

  method IsValidNetmask(mask: Input) returns (r: bool)
    ensures r <==> ValidNetmask(mask)
  {
    if |mask| != IPV4_ADDRESS_SIZE && |mask| != IPV6_ADDRESS_SIZE {
      return false;
    }
    for i := 0 to |mask|
      invariant forall k :: 0 <= k < i ==> mask[k] == 255
    {
      var b := mask[i];
      if b != 255 {
        var inv := Complement(b);
        OctetTest(b);
        if And(inv, inv + 1) != 0 {
          RaggedOctet(mask, i);
          return false;
        }
        for j := i + 1 to |mask|
          invariant forall k :: i < k < j ==> mask[k] == 0
        {
          if mask[j] != 0 {
            OneAfterZero(mask, i, j);
            return false;
          }
        }
        OnesThenZeros(mask, i);
        return true;
      }
    }
    FullMask(mask);
    return true;
  }

  lemma OnesPrefix(mask: Input, i: nat)
    requires i <= |mask| && forall k :: 0 <= k < i ==> mask[k] == 255
    ensures forall n :: 0 <= n < 8 * i ==> NetBit(mask, n)
  {
    forall n | 0 <= n < 8 * i ensures NetBit(mask, n) {
      AllOnesOctet(7 - n % 8);
    }
  }

  lemma FullMask(mask: Input)
    requires forall k :: 0 <= k < |mask| ==> mask[k] == 255
    ensures PrefixBits(mask, 8 * |mask|)
  {
    OnesPrefix(mask, |mask|);
  }

  lemma OnesThenZeros(mask: Input, i: nat)
    requires i < |mask| && And(Complement(mask[i]), Complement(mask[i]) + 1) == 0
    requires forall k :: 0 <= k < i ==> mask[k] == 255
    requires forall k :: i < k < |mask| ==> mask[k] == 0
    ensures exists k: nat :: PrefixBits(mask, k)
  {
    OctetTest(mask[i]);
    var j: nat :| j <= 8 && OnesFrom(mask[i], j);
    OnesPrefix(mask, i);
    var k := 8 * i + 8 - j;
    forall n | 0 <= n < 8 * |mask| ensures NetBit(mask, n) <==> n < k {
      if n / 8 == i {
        assert 0 <= 7 - n % 8 < 8;
      } else if n / 8 > i {
        BitZero(7 - n % 8);
      }
    }
    assert PrefixBits(mask, k);
  }

  lemma RaggedOctet(mask: Input, i: nat)
    requires i < |mask| && And(Complement(mask[i]), Complement(mask[i]) + 1) != 0
    ensures !exists k: nat :: PrefixBits(mask, k)
  {
    OctetTest(mask[i]);
    if k: nat :| PrefixBits(mask, k) {
      var j: nat := if k <= 8 * i then 8 else if k >= 8 * i + 8 then 0 else 8 * i + 8 - k;
      forall m | 0 <= m < 8 ensures Bit(mask[i], m) <==> m >= j {
        NetBitAt(mask, i, 7 - m);
      }
      assert OnesFrom(mask[i], j);
    }
  }

  lemma OneAfterZero(mask: Input, i: nat, j: nat)
    requires i < j < |mask| && mask[i] != 255 && mask[j] != 0
    ensures !exists k: nat :: PrefixBits(mask, k)
  {
    NonZeroOctet(mask[j]);
    var m :| 0 <= m < 8 && Bit(mask[j], m);
    NetBitAt(mask, j, 7 - m);
    NonZeroOctet(255 - mask[i]);
    var p :| 0 <= p < 8 && Bit(255 - mask[i], p);
    OctetBound(mask[i]);
    ComplementBit(mask[i], 8, p);
    NetBitAt(mask, i, 7 - p);
  }

  /** Agreement within one octet, in the positions that the mask octet selects. */
  ghost predicate OctetsAgree(a: byte, b: byte, m: byte) {
    forall i :: 0 <= i < 8 && Bit(m, i) ==> Bit(a, i) == Bit(b, i)
  }

  lemma AgreeUpTo(a: Input, b: Input, mask: Input, i: nat)
    requires |a| == |b| == |mask| && i < |mask| && OctetsAgree(a[i], b[i], mask[i])
    ensures forall n :: 8 * i <= n < 8 * i + 8 && NetBit(mask, n) ==> NetBit(a, n) == NetBit(b, n)
  {
    forall n | 8 * i <= n < 8 * i + 8 && NetBit(mask, n) ensures NetBit(a, n) == NetBit(b, n) {
      assert n / 8 == i && 0 <= 7 - n % 8 < 8;
    }
  }

  method IPAddressMatchesWithNetmask(addr1: Input, addr2: Input, mask: Input) returns (r: bool)
    ensures r <==> AgreeUnder(addr1, addr2, mask)
  {
    if |addr1| != |addr2| || |addr1| != |mask| {
      return false;
    }
    for i := 0 to |addr1|
      invariant forall n :: 0 <= n < 8 * i && NetBit(mask, n) ==> NetBit(addr1, n) == NetBit(addr2, n)
    {
      MaskedOctets(addr1[i], addr2[i], mask[i]);
      if And(addr1[i], mask[i]) != And(addr2[i], mask[i]) {
        var m :| 0 <= m < 8 && Bit(mask[i], m) && Bit(addr1[i], m) != Bit(addr2[i], m);
        NetBitAt(mask, i, 7 - m);
        NetBitAt(addr1, i, 7 - m);
        NetBitAt(addr2, i, 7 - m);
        return false;
      }
      AgreeUpTo(addr1, addr2, mask, i);
    }
    return true;
  }

  lemma {:induction false} AndBelow(x: nat, y: nat)
    ensures And(x, y) <= x
  {
    if x != 0 && y != 0 { AndBelow(x / 2, y / 2); }
  }

  /** Masked octets are equal exactly when the selected bits are. */
  lemma MaskedOctets(a: byte, b: byte, m: byte)
    ensures And(a, m) == And(b, m) <==> OctetsAgree(a, b, m)
  {
    OctetBound(a);
    OctetBound(b);
    AndBelow(a, m);
    AndBelow(b, m);
    forall i | 0 <= i < 8
      ensures Bit(And(a, m), i) == (Bit(a, i) && Bit(m, i))
      ensures Bit(And(b, m), i) == (Bit(b, i) && Bit(m, i))
    {
      AndBit(a, m, i);
      AndBit(b, m, i);
    }
    if OctetsAgree(a, b, m) {
      BitsDetermine(And(a, m), And(b, m), 8);
    }
    if And(a, m) == And(b, m) {
      forall i | 0 <= i < 8 && Bit(m, i) ensures Bit(a, i) == Bit(b, i) {
        assert Bit(And(a, m), i) == (Bit(a, i) && Bit(m, i));
        assert Bit(And(b, m), i) == (Bit(b, i) && Bit(m, i));
      }
    }
  }

  // ----- what a validated range means

  /** A mask has only one prefix length. */
  lemma PrefixLengthUnique(mask: Input, j: nat, k: nat)
    requires PrefixBits(mask, j) && PrefixBits(mask, k)
    ensures j == k
  {
    var m := if j < k then j else k;
    if m < 8 * |mask| {
      assert NetBit(mask, m) <==> m < j;
      assert NetBit(mask, m) <==> m < k;
    }
  }

  /** Under a mask of k ones, matching is agreement on the first k bits. */
  lemma MatchIsSharedPrefix(a: Input, b: Input, mask: Input, k: nat)
    requires |a| == |b| == |mask| && PrefixBits(mask, k)
    ensures AgreeUnder(a, b, mask) <==> SharePrefix(a, b, k)
  {
    if AgreeUnder(a, b, mask) {
      forall n | 0 <= n < k ensures NetBit(a, n) == NetBit(b, n) {
        assert NetBit(mask, n);
      }
    }
  }

  /** The host part of a constraint's address does not matter. */
  lemma HostBitsIrrelevant(a: Input, net: Input, net': Input, mask: Input, k: nat)
    requires |net| == |net'| == |mask| && PrefixBits(mask, k) && SharePrefix(net, net', k)
    ensures AgreeUnder(a, net, mask) <==> AgreeUnder(a, net', mask)
  {
    if |a| == |mask| {
      MatchIsSharedPrefix(a, net, mask, k);
      MatchIsSharedPrefix(a, net', mask, k);
    }
  }

  /** Every address of the first range is in the second. */
  ghost predicate RangeWithin(net1: Input, mask1: Input, net2: Input, mask2: Input) {
    forall a :: AgreeUnder(a, net1, mask1) ==> AgreeUnder(a, net2, mask2)
  }

  ghost predicate RangesDisjoint(net1: Input, mask1: Input, net2: Input, mask2: Input) {
    forall a :: !(AgreeUnder(a, net1, mask1) && AgreeUnder(a, net2, mask2))
  }

  /** Two ranges of one address family are nested or have no address in common. */
  lemma RangesNestedOrDisjoint(net1: Input, mask1: Input, net2: Input, mask2: Input)
    requires ValidNetmask(mask1) && ValidNetmask(mask2)
    requires |net1| == |mask1| == |net2| == |mask2|
    ensures RangeWithin(net1, mask1, net2, mask2) || RangeWithin(net2, mask2, net1, mask1)
            || RangesDisjoint(net1, mask1, net2, mask2)
  {
    var k1 :| PrefixBits(mask1, k1);
    var k2 :| PrefixBits(mask2, k2);
    if k1 >= k2 {
      LongerWithinOrDisjoint(net1, mask1, k1, net2, mask2, k2);
    } else {
      LongerWithinOrDisjoint(net2, mask2, k2, net1, mask1, k1);
    }
  }

  lemma LongerWithinOrDisjoint(net1: Input, mask1: Input, k1: nat, net2: Input, mask2: Input, k2: nat)
    requires |net1| == |mask1| == |net2| == |mask2|
    requires PrefixBits(mask1, k1) && PrefixBits(mask2, k2) && k1 >= k2
    ensures SharePrefix(net1, net2, k2) ==> RangeWithin(net1, mask1, net2, mask2)
    ensures !SharePrefix(net1, net2, k2) ==> RangesDisjoint(net1, mask1, net2, mask2)
  {
    forall a | AgreeUnder(a, net1, mask1)
      ensures AgreeUnder(a, net2, mask2) <==> SharePrefix(net1, net2, k2)
    {
      MatchIsSharedPrefix(a, net1, mask1, k1);
      MatchIsSharedPrefix(a, net2, mask2, k2);
      if SharePrefix(a, net2, k2) {
        forall n | 0 <= n < k2 ensures NetBit(net1, n) == NetBit(net2, n) {
          assert NetBit(a, n) == NetBit(net1, n);
        }
      }
    }
  }
}
