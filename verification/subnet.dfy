/**
 * Subnet containment as `NetworkAddressFactoryImpl.isInSubnet` computes it, next to
 * a bit-level reference: the CIDR reading of section 3.1 of RFC 4632, where an
 * address lies in network/prefix when the two agree on their first `prefix` bits.
 */
module Subnet {
  import opened Text

  /** Java's `short`, the type of a network prefix length. */
  type Short = x: int | -0x8000 <= x < 0x8000

  /** Java's integer division, which truncates toward zero. */
  function JavaDiv(a: int, b: int): (r: int)
    requires b > 0
    ensures a >= 0 ==> r == a / b
    ensures a < 0 ==> r <= 0
  {
    if a >= 0 then a / b else -((-a) / b)
  }

  /**
   * The byte `(byte) -(1 << 8 - prefix)`: Java keeps only the low five bits of the
   * shift count, negates in 32-bit two's complement and the cast keeps the low byte.
   * Only prefixes below 8 reach this expression; for 0 to 7 the result has exactly
   * the top `prefix` bits set.
   */
  function JavaMask(prefix: int): (r: bv8)
    requires prefix < 8
    ensures prefix == 0 ==> r == 0x00
    ensures prefix == 1 ==> r == 0x80
    ensures prefix == 2 ==> r == 0xC0
    ensures prefix == 3 ==> r == 0xE0
    ensures prefix == 4 ==> r == 0xF0
    ensures prefix == 5 ==> r == 0xF8
    ensures prefix == 6 ==> r == 0xFC
    ensures prefix == 7 ==> r == 0xFE
  {
    var shifted: bv32 := 1 << ((8 - prefix) % 32);
    ((-shifted) & 0xFF) as bv8
  }

  /**
   * The loop at byte `i` with `prefix` bits still to compare: whole bytes while at
   * least eight bits remain, then the masked final byte.
   */
  function MatchFrom(ip: seq<bv8>, network: seq<bv8>, i: nat, prefix: int): (r: bool)
    requires |ip| == |network| && i <= |ip|
    ensures prefix >= 8 * (|ip| - i) ==> (r <==> ip[i..] == network[i..])
    decreases |ip| - i
  {
    if prefix >= 8 && i < |ip| then
      ip[i] == network[i] && MatchFrom(ip, network, i + 1, prefix - 8)
    else if i == |ip| then
      true
    else
      ip[i] & JavaMask(prefix) == network[i] & JavaMask(prefix)
  }

  // ---------------------------------------------------------------------------
  // The bit-level reference
  // ---------------------------------------------------------------------------

  /** Bit `t` of a byte, counting from the most significant bit. */
  predicate ByteBit(x: bv8, t: nat)
    requires t < 8
  {
    (x >> (7 - t)) & 1 == 1
  }

  /** Bit `j` of an address, counting from the most significant bit of its first byte. */
  predicate BitAt(s: seq<bv8>, j: nat)
    requires j < 8 * |s|
  {
    ByteBit(s[j / 8], j % 8)
  }

  /** The two addresses agree on bits `lo` up to (not including) `hi`. */
  predicate AgreeOnBits(ip: seq<bv8>, network: seq<bv8>, lo: nat, hi: nat)
    requires |ip| == |network| && lo <= hi <= 8 * |ip|
  {
    forall j :: lo <= j < hi ==> BitAt(ip, j) == BitAt(network, j)
  }

  /**
   * CIDR containment: same address family (byte length), a prefix that does not
   * reach past the last byte, and agreement on the first `prefix` bits (all of them
   * when the prefix covers the whole address).
   */
  predicate CidrContains(ip: seq<bv8>, network: seq<bv8>, prefix: nat) {
    && |ip| == |network|
    && prefix / 8 <= |ip|
    && AgreeOnBits(ip, network, 0, Min(prefix, 8 * |ip|))
  }

  /** The top `b` bits of the two bytes agree. */
  predicate TopBitsAgree(x: bv8, y: bv8, b: nat)
    requires b <= 8
  {
    b == 0 || (TopBitsAgree(x, y, b - 1) && ByteBit(x, b - 1) == ByteBit(y, b - 1))
  }

  lemma TopBitsAgreeAll(x: bv8, y: bv8, b: nat)
    requires b <= 8
    ensures TopBitsAgree(x, y, b) <==> forall t :: 0 <= t < b ==> ByteBit(x, t) == ByteBit(y, t)
  {
    if b > 0 {
      TopBitsAgreeAll(x, y, b - 1);
    }
  }

  /** `TopBitsAgree` unfolded down to single bits. */
  lemma TopBitsChain(x: bv8, y: bv8)
    ensures TopBitsAgree(x, y, 1) <==> TopBitsAgree(x, y, 0) && (x >> 7) & 1 == (y >> 7) & 1
    ensures TopBitsAgree(x, y, 2) <==> TopBitsAgree(x, y, 1) && (x >> 6) & 1 == (y >> 6) & 1
    ensures TopBitsAgree(x, y, 3) <==> TopBitsAgree(x, y, 2) && (x >> 5) & 1 == (y >> 5) & 1
    ensures TopBitsAgree(x, y, 4) <==> TopBitsAgree(x, y, 3) && (x >> 4) & 1 == (y >> 4) & 1
    ensures TopBitsAgree(x, y, 5) <==> TopBitsAgree(x, y, 4) && (x >> 3) & 1 == (y >> 3) & 1
    ensures TopBitsAgree(x, y, 6) <==> TopBitsAgree(x, y, 5) && (x >> 2) & 1 == (y >> 2) & 1
    ensures TopBitsAgree(x, y, 7) <==> TopBitsAgree(x, y, 6) && (x >> 1) & 1 == (y >> 1) & 1
    ensures TopBitsAgree(x, y, 8) <==> TopBitsAgree(x, y, 7) && (x >> 0) & 1 == (y >> 0) & 1
  {
  }

  // One lemma per prefix value below 8: each compares under a single literal mask.

  lemma MaskedEqualAt0(x: bv8, y: bv8, b: nat)
    requires b == 0
    ensures x & JavaMask(b) == y & JavaMask(b) <==> TopBitsAgree(x, y, b)
  {
    assert JavaMask(b) == 0x00;
  }

  lemma MaskedEqualAt1(x: bv8, y: bv8, b: nat)
    requires b == 1
    ensures x & JavaMask(b) == y & JavaMask(b) <==> TopBitsAgree(x, y, b)
  {
    assert JavaMask(b) == 0x80;
    TopBitsChain(x, y);
  }

  lemma MaskedEqualAt2(x: bv8, y: bv8, b: nat)
    requires b == 2
    ensures x & JavaMask(b) == y & JavaMask(b) <==> TopBitsAgree(x, y, b)
  {
    assert JavaMask(b) == 0xC0;
    TopBitsChain(x, y);
  }

  lemma MaskedEqualAt3(x: bv8, y: bv8, b: nat)
    requires b == 3
    ensures x & JavaMask(b) == y & JavaMask(b) <==> TopBitsAgree(x, y, b)
  {
    assert JavaMask(b) == 0xE0;
    TopBitsChain(x, y);
  }

  lemma MaskedEqualAt4(x: bv8, y: bv8, b: nat)
    requires b == 4
    ensures x & JavaMask(b) == y & JavaMask(b) <==> TopBitsAgree(x, y, b)
  {
    assert JavaMask(b) == 0xF0;
    TopBitsChain(x, y);
  }

  lemma MaskedEqualAt5(x: bv8, y: bv8, b: nat)
    requires b == 5
    ensures x & JavaMask(b) == y & JavaMask(b) <==> TopBitsAgree(x, y, b)
  {
    assert JavaMask(b) == 0xF8;
    TopBitsChain(x, y);
  }

  lemma MaskedEqualAt6(x: bv8, y: bv8, b: nat)
    requires b == 6
    ensures x & JavaMask(b) == y & JavaMask(b) <==> TopBitsAgree(x, y, b)
  {
    assert JavaMask(b) == 0xFC;
    TopBitsChain(x, y);
  }

  lemma MaskedEqualAt7(x: bv8, y: bv8, b: nat)
    requires b == 7
    ensures x & JavaMask(b) == y & JavaMask(b) <==> TopBitsAgree(x, y, b)
  {
    assert JavaMask(b) == 0xFE;
    TopBitsChain(x, y);
  }

  /** Comparing under the mask for `b` bits is comparing the top `b` bits. */
  lemma MaskedEqualIffTopBitsAgree(x: bv8, y: bv8, b: nat)
    requires b < 8
    ensures x & JavaMask(b) == y & JavaMask(b) <==> TopBitsAgree(x, y, b)
  {
    if b == 0 {
      MaskedEqualAt0(x, y, b);
    } else if b == 1 {
      MaskedEqualAt1(x, y, b);
    } else if b == 2 {
      MaskedEqualAt2(x, y, b);
    } else if b == 3 {
      MaskedEqualAt3(x, y, b);
    } else if b == 4 {
      MaskedEqualAt4(x, y, b);
    } else if b == 5 {
      MaskedEqualAt5(x, y, b);
    } else if b == 6 {
      MaskedEqualAt6(x, y, b);
    } else {
      MaskedEqualAt7(x, y, b);
    }
  }

  /** Whole-byte equality is agreement on all eight bits. */
  lemma ByteEqualIffAllBitsAgree(x: bv8, y: bv8)
    ensures x == y <==> TopBitsAgree(x, y, 8)
  {
    TopBitsChain(x, y);
  }

  lemma BitInByte(s: seq<bv8>, i: nat, j: nat)
    requires i < |s| && 8 * i <= j < 8 * i + 8
    ensures BitAt(s, j) == ByteBit(s[i], j - 8 * i)
  {
    assert j / 8 == i;
  }

  lemma AgreeOnBitsSplit(ip: seq<bv8>, network: seq<bv8>, lo: nat, mid: nat, hi: nat)
    requires |ip| == |network| && lo <= mid <= hi <= 8 * |ip|
    ensures AgreeOnBits(ip, network, lo, hi) <==> AgreeOnBits(ip, network, lo, mid) && AgreeOnBits(ip, network, mid, hi)
  {
  }

  /** The top `b` bits of byte `i` are address bits `8*i` up to `8*i + b`. */
  lemma TopBitsAgreeIsAgreeOnBits(ip: seq<bv8>, network: seq<bv8>, i: nat, b: nat)
    requires |ip| == |network| && i < |ip| && b <= 8
    ensures TopBitsAgree(ip[i], network[i], b) <==> AgreeOnBits(ip, network, 8 * i, 8 * i + b)
  {
    var lo := 8 * i;
    TopBitsAgreeAll(ip[i], network[i], b);
    forall j | lo <= j < lo + b
      ensures (BitAt(ip, j) == BitAt(network, j)) == (ByteBit(ip[i], j - lo) == ByteBit(network[i], j - lo))
    {
      BitInByte(ip, i, j);
      BitInByte(network, i, j);
    }
    if TopBitsAgree(ip[i], network[i], b) {
      forall j | lo <= j < lo + b ensures BitAt(ip, j) == BitAt(network, j) {
        assert ByteBit(ip[i], j - lo) == ByteBit(network[i], j - lo);
      }
    }
    if AgreeOnBits(ip, network, lo, lo + b) {
      forall t | 0 <= t < b ensures ByteBit(ip[i], t) == ByteBit(network[i], t) {
        assert BitAt(ip, lo + t) == BitAt(network, lo + t);
      }
    }
  }

  /** From byte `i` on, the loop compares exactly the next `prefix` bits (or up to the end). */
  lemma {:induction false} MatchFromAgrees(ip: seq<bv8>, network: seq<bv8>, i: nat, prefix: nat)
    requires |ip| == |network| && i <= |ip| && i + prefix / 8 <= |ip|
    ensures MatchFrom(ip, network, i, prefix) <==> AgreeOnBits(ip, network, 8 * i, Min(8 * i + prefix, 8 * |ip|))
    decreases |ip| - i
  {
    if prefix >= 8 && i < |ip| {
      MatchFromAgrees(ip, network, i + 1, prefix - 8);
      ByteEqualIffAllBitsAgree(ip[i], network[i]);
      TopBitsAgreeIsAgreeOnBits(ip, network, i, 8);
      AgreeOnBitsSplit(ip, network, 8 * i, 8 * i + 8, Min(8 * i + prefix, 8 * |ip|));
    } else if i < |ip| {
      MaskedEqualIffTopBitsAgree(ip[i], network[i], prefix);
      TopBitsAgreeIsAgreeOnBits(ip, network, i, prefix);
    }
  }

  // ---------------------------------------------------------------------------
  // isInSubnet and its properties
  // ---------------------------------------------------------------------------

  /**
   * `isInSubnet(ip, network, prefix)`: different byte lengths, or a prefix whose
   * byte index lies past the end, mean "not contained"; otherwise whole bytes are
   * compared while eight or more prefix bits remain, then the last byte under a mask.
   * For every non-negative prefix this is CIDR containment.
   */
  function IsInSubnet(ip: seq<bv8>, network: seq<bv8>, prefix: Short): (r: bool)
    ensures |ip| != |network| ==> !r
    ensures JavaDiv(prefix, 8) > |ip| ==> !r
    ensures prefix >= 0 ==> (r <==> CidrContains(ip, network, prefix))
  {
    if |ip| != |network| then false
    else if JavaDiv(prefix, 8) > |ip| then false
    else
      var r := MatchFrom(ip, network, 0, prefix);
      assert prefix >= 0 ==> (r <==> AgreeOnBits(ip, network, 0, Min(prefix, 8 * |ip|))) by {
        if prefix >= 0 {
          MatchFromAgrees(ip, network, 0, prefix);
        }
      }
      r
  }

  /** Agreement on every bit of two equally long addresses is equality. */
  lemma {:induction false} AllBitsAgreeIffEqual(ip: seq<bv8>, network: seq<bv8>, n: nat)
    requires |ip| == |network| && n <= |ip|
    ensures AgreeOnBits(ip, network, 0, 8 * n) <==> ip[..n] == network[..n]
  {
    if n > 0 {
      AllBitsAgreeIffEqual(ip, network, n - 1);
      AgreeOnBitsSplit(ip, network, 0, 8 * (n - 1), 8 * n);
      TopBitsAgreeIsAgreeOnBits(ip, network, n - 1, 8);
      ByteEqualIffAllBitsAgree(ip[n - 1], network[n - 1]);
      assert ip[..n] == ip[..n - 1] + [ip[n - 1]];
      assert network[..n] == network[..n - 1] + [network[n - 1]];
    }
  }

  /** A zero prefix contains every address of the same length. */
  lemma PrefixZeroContainsAll(ip: seq<bv8>, network: seq<bv8>)
    requires |ip| == |network|
    ensures IsInSubnet(ip, network, 0)
  {
  }

  /**
   * A prefix that covers the whole address (up to seven bits more, which the
   * byte-index check still lets through) contains exactly the network address itself.
   */
  lemma WholeAddressPrefixMeansEquality(ip: seq<bv8>, network: seq<bv8>, prefix: Short)
    requires |ip| == |network| && 8 * |ip| <= prefix < 8 * |ip| + 8
    ensures IsInSubnet(ip, network, prefix) <==> ip == network
  {
    AllBitsAgreeIffEqual(ip, network, |ip|);
    assert ip[..|ip|] == ip && network[..|network|] == network;
  }

  /** Every address is in its own subnet, for each prefix the byte-index check admits. */
  lemma InSubnetReflexive(ip: seq<bv8>, prefix: Short)
    requires 0 <= prefix < 8 * (|ip| + 1)
    ensures IsInSubnet(ip, ip, prefix)
  {
  }

  /** Shortening the prefix can only widen the subnet. */
  lemma InSubnetMonotone(ip: seq<bv8>, network: seq<bv8>, prefix: Short, shorter: Short)
    requires 0 <= shorter <= prefix
    requires IsInSubnet(ip, network, prefix)
    ensures IsInSubnet(ip, network, shorter)
  {
  }

  /**
   * A negative prefix such as the -1 some platforms report: from -1 down to -23 the
   * shift count is 9 to 31, the mask byte is zero, and every address of the right
   * length counts as contained.
   */
  lemma NegativePrefixContainsAll(ip: seq<bv8>, network: seq<bv8>, prefix: Short)
    requires |ip| == |network| && -23 <= prefix < 0
    ensures IsInSubnet(ip, network, prefix)
  {
  }

  /** 192.168.1.50 lies in 192.168.1.0/24, /25 and /26, but not in /27. */
  lemma ExampleSubnets()
    ensures IsInSubnet([192, 168, 1, 50], [192, 168, 1, 0], 24)
    ensures IsInSubnet([192, 168, 1, 50], [192, 168, 1, 0], 25)
    ensures IsInSubnet([192, 168, 1, 50], [192, 168, 1, 0], 26)
    ensures !IsInSubnet([192, 168, 1, 50], [192, 168, 1, 0], 27)
  {
  }
}
