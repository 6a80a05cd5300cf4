/** Turning an IP network into a range of addresses (section 3.1 of RFC 4632).  The program
    works on bytes; the theorems are proved on their bits, most significant first. */
module AddressRange {

  // ----------------------------------------------------------------- bits

  type Bits = seq<bool>

  /** Order of binary numbers of one length. */
  predicate BitsAtMost(a: Bits, b: Bits)
    requires |a| == |b|
  {
    a == [] || (!a[0] && b[0]) || (a[0] == b[0] && BitsAtMost(a[1..], b[1..]))
  }

  predicate BitsContain(ip: Bits, mask: Bits, addr: Bits)
    requires |ip| == |mask| == |addr|
  {
    forall i :: 0 <= i < |ip| && mask[i] ==> addr[i] == ip[i]
  }

  predicate BitsMasked(ip: Bits, mask: Bits)
    requires |ip| == |mask|
  {
    forall i :: 0 <= i < |ip| && ip[i] ==> mask[i]
  }

  function LastBits(ip: Bits, mask: Bits): (last: Bits)
    requires |ip| == |mask|
    ensures |last| == |ip|
  {
    seq(|ip|, i requires 0 <= i < |ip| => !mask[i] || ip[i])
  }

  /** Ones and then zeros. */
  ghost predicate IsPrefix(mask: Bits) {
    forall i, j :: 0 <= i < j < |mask| && mask[j] ==> mask[i]
  }

  predicate BitsInRange(ip: Bits, mask: Bits, addr: Bits)
    requires |ip| == |mask| == |addr|
  {
    BitsAtMost(ip, addr) && BitsAtMost(addr, LastBits(ip, mask))
  }

  lemma {:induction false} PointwiseAtMost(a: Bits, b: Bits)
    requires |a| == |b| && forall i :: 0 <= i < |a| && a[i] ==> b[i]
    ensures BitsAtMost(a, b)
  {
    if a != [] {
      PointwiseAtMost(a[1..], b[1..]);
    }
  }

  lemma {:induction false} AtMostAntisymmetric(a: Bits, b: Bits)
    requires |a| == |b| && BitsAtMost(a, b) && BitsAtMost(b, a)
    ensures a == b
  {
    if a != [] {
      AtMostAntisymmetric(a[1..], b[1..]);
      assert a == [a[0]] + a[1..] && b == [b[0]] + b[1..];
    }
  }

  /** The first place where two numbers differ decides. */
  lemma {:induction false} FirstDifference(a: Bits, b: Bits, k: nat)
    requires |a| == |b| && k < |a| && a[..k] == b[..k] && !a[k] && b[k]
    ensures BitsAtMost(a, b)
  {
    if k > 0 {
      assert a[0] == a[..k][0] && b[0] == b[..k][0];
      assert a[1..][..k-1] == a[..k][1..] && b[1..][..k-1] == b[..k][1..];
      FirstDifference(a[1..], b[1..], k - 1);
    }
  }

  /** Below a run of zeros in the mask everything is in range; where the mask is set, the range
      leaves no choice. */
  lemma {:induction false} PrefixRange(ip: Bits, mask: Bits, addr: Bits)
    requires |ip| == |mask| == |addr| && IsPrefix(mask) && BitsMasked(ip, mask)
    ensures BitsContain(ip, mask, addr) <==> BitsInRange(ip, mask, addr)
  {
    if ip != [] {
      var last := LastBits(ip, mask);
      if mask[0] {
        PrefixRange(ip[1..], mask[1..], addr[1..]);
        assert last[1..] == LastBits(ip[1..], mask[1..]);
        assert BitsContain(ip, mask, addr) <==> addr[0] == ip[0] && BitsContain(ip[1..], mask[1..], addr[1..]) by {
          ContainHead(ip, mask, addr);
        }
      } else {
        forall i | 0 <= i < |mask| ensures !mask[i] {
          assert i == 0 || !mask[i];
        }
        PointwiseAtMost(ip, addr);
        PointwiseAtMost(addr, last);
      }
    }
  }

  lemma ContainHead(ip: Bits, mask: Bits, addr: Bits)
    requires |ip| == |mask| == |addr| > 0 && mask[0]
    ensures BitsContain(ip, mask, addr) <==> addr[0] == ip[0] && BitsContain(ip[1..], mask[1..], addr[1..])
  {
    if addr[0] == ip[0] && BitsContain(ip[1..], mask[1..], addr[1..]) {
      forall i | 0 <= i < |ip| && mask[i] ensures addr[i] == ip[i] {
        if i > 0 {
          assert addr[1..][i-1] == ip[1..][i-1];
        }
      }
    }
  }

  /** With a hole at i below which bit j is still set: an address in the range, outside the network. */
  lemma Stray(ip: Bits, mask: Bits, i: nat, j: nat) returns (addr: Bits)
    requires |ip| == |mask| && i < j < |mask| && !mask[i] && mask[j] && BitsMasked(ip, mask)
    ensures |addr| == |ip| && BitsInRange(ip, mask, addr) && !BitsContain(ip, mask, addr)
  {
    var last := LastBits(ip, mask);
    if ip[j] {
      addr := ip[i := true][j := false];
      assert ip[..i] == addr[..i];
      FirstDifference(ip, addr, i);
      PointwiseAtMost(addr, last);
    } else {
      addr := ip[j := true];
      PointwiseAtMost(ip, addr);
      StrayBelow(ip, mask, i, j);
    }
    assert addr[j] != ip[j];
  }

  lemma {:induction false} StrayBelow(ip: Bits, mask: Bits, i: nat, j: nat)
    requires |ip| == |mask| && i < j < |mask| && !mask[i] && BitsMasked(ip, mask)
    ensures BitsAtMost(ip[j := true], LastBits(ip, mask))
  {
    var addr, last := ip[j := true], LastBits(ip, mask);
    if mask[0] {
      assert addr[1..] == ip[1..][j-1 := true] && last[1..] == LastBits(ip[1..], mask[1..]);
      StrayBelow(ip[1..], mask[1..], i - 1, j - 1);
    }
  }

  /** On bits: the range and the network have the same members exactly for a prefix mask and a
      base without bits outside it. */
  lemma BitsRangeIsNetwork(ip: Bits, mask: Bits) returns (odd: Bits)
    requires |ip| == |mask|
    ensures |odd| == |ip|
    ensures IsPrefix(mask) && BitsMasked(ip, mask) ==>
      forall addr: Bits :: |addr| == |ip| ==> (BitsContain(ip, mask, addr) <==> BitsInRange(ip, mask, addr))
    ensures !(IsPrefix(mask) && BitsMasked(ip, mask)) ==> BitsContain(ip, mask, odd) != BitsInRange(ip, mask, odd)
  {
    odd := ip;
    if IsPrefix(mask) && BitsMasked(ip, mask) {
      forall addr: Bits | |addr| == |ip| ensures BitsContain(ip, mask, addr) <==> BitsInRange(ip, mask, addr) {
        PrefixRange(ip, mask, addr);
      }
    } else if BitsMasked(ip, mask) {
      var i, j :| 0 <= i < j < |mask| && mask[j] && !mask[i];
      odd := Stray(ip, mask, i, j);
    } else {
      odd := seq(|ip|, i requires 0 <= i < |ip| => ip[i] && mask[i]);
      PointwiseAtMost(odd, ip);
      if BitsAtMost(ip, odd) {
        AtMostAntisymmetric(ip, odd);
      }
    }
  }

  // ---------------------------------------------------------------- bytes

  /** An address or a mask, most significant byte first. */
  type Bytes = seq<bv8>

  /** The bits of a byte, most significant first. */
  function ByteBits(b: bv8): (r: Bits)
    ensures |r| == 8
  {
    seq(8, k requires 0 <= k < 8 => Bit(b, PlaceValue(k)))
  }

  function PlaceValue(k: nat): (w: bv8)
    requires k < 8
    ensures IsWeight(w)
  {
    if k == 0 then 0x80 else if k == 1 then 0x40 else if k == 2 then 0x20 else if k == 3 then 0x10
    else if k == 4 then 8 else if k == 5 then 4 else if k == 6 then 2 else 1
  }

  predicate Bit(b: bv8, w: bv8) {
    b & w != 0
  }

  function BitsOf(s: Bytes): (r: Bits)
    ensures |r| == 8 * |s|
  {
    if s == [] then [] else ByteBits(s[0]) + BitsOf(s[1..])
  }

  function Weight(bit: bool, w: bv8): bv8 {
    if bit then w else 0
  }

  function ByteOf(r: Bits): bv8
    requires |r| == 8
  {
    Weight(r[0], 0x80) | Weight(r[1], 0x40) | Weight(r[2], 0x20) | Weight(r[3], 0x10) |
    Weight(r[4], 8) | Weight(r[5], 4) | Weight(r[6], 2) | Weight(r[7], 1)
  }

  function BytesOf(r: Bits, n: nat): (s: Bytes)
    requires |r| == 8 * n
    ensures |s| == n
  {
    if n == 0 then [] else [ByteOf(r[..8])] + BytesOf(r[8..], n - 1)
  }

  /** Big-endian order of addresses of one length. */
  predicate AtMost(a: Bytes, b: Bytes)
    requires |a| == |b|
  {
    a == [] || a[0] < b[0] || (a[0] == b[0] && AtMost(a[1..], b[1..]))
  }

  /** net.IPNet.Contains, byte by byte. */
  predicate Contains(ip: Bytes, mask: Bytes, addr: Bytes)
    requires |ip| == |mask| == |addr|
  {
    ip == [] || (addr[0] & mask[0] == ip[0] & mask[0] && Contains(ip[1..], mask[1..], addr[1..]))
  }

  predicate Masked(ip: Bytes, mask: Bytes)
    requires |ip| == |mask|
  {
    ip == [] || (ip[0] & mask[0] == ip[0] && Masked(ip[1..], mask[1..]))
  }

  ghost predicate PrefixMask(mask: Bytes) {
    IsPrefix(BitsOf(mask))
  }

  function LastByte(ip: bv8, mask: bv8): bv8 {
    !mask | ip
  }

  /** lastIP: the zero bits of the mask set to ones; bytes beyond the mask stay zero. */
  function LastIP(ip: Bytes, mask: Bytes): (last: Bytes)
    requires |mask| <= |ip|
    ensures |last| == |ip|
  {
    seq(|ip|, i requires 0 <= i < |ip| => if i < |mask| then LastByte(ip[i], mask[i]) else 0)
  }

  /** A mask longer than the address is outside its domain: the source would index past the end. */
  method ComputeLastIP(ip: Bytes, mask: Bytes) returns (lastip: array<bv8>)
    requires |mask| <= |ip|
    ensures fresh(lastip) && lastip[..] == LastIP(ip, mask)
  {
    lastip := new bv8[|ip|](_ => 0);
    for i := 0 to |mask|
      invariant forall k :: 0 <= k < i ==> lastip[k] == LastByte(ip[k], mask[k])
      invariant forall k :: i <= k < |ip| ==> lastip[k] == 0
    {
      lastip[i] := !mask[i] | ip[i];
    }
  }

  // --------------------------------------------------- from bytes to bits

  predicate Agree(a: bv8, b: bv8, w: bv8) {
    Bit(a, w) == Bit(b, w)
  }

  lemma BytesAgree(a: bv8, b: bv8)
    ensures a == b <==> Agree(a, b, 0x80) && Agree(a, b, 0x40) && Agree(a, b, 0x20) && Agree(a, b, 0x10) &&
                        Agree(a, b, 8) && Agree(a, b, 4) && Agree(a, b, 2) && Agree(a, b, 1)
  {
  }

  lemma ByteEqual(a: bv8, b: bv8)
    ensures a == b <==> ByteBits(a) == ByteBits(b)
  {
    BytesAgree(a, b);
    var x, y := ByteBits(a), ByteBits(b);
    if x == y {
      assert x[0] == y[0] && x[1] == y[1] && x[2] == y[2] && x[3] == y[3];
      assert x[4] == y[4] && x[5] == y[5] && x[6] == y[6] && x[7] == y[7];
    }
  }

  predicate IsWeight(w: bv8) {
    w == 0x80 || w == 0x40 || w == 0x20 || w == 0x10 || w == 8 || w == 4 || w == 2 || w == 1
  }

  lemma BitAnd(a: bv8, m: bv8, w: bv8)
    requires IsWeight(w)
    ensures Bit(a & m, w) <==> Bit(a, w) && Bit(m, w)
  {
  }

  lemma BitLast(ip: bv8, m: bv8, w: bv8)
    requires IsWeight(w)
    ensures Bit(LastByte(ip, m), w) <==> !Bit(m, w) || Bit(ip, w)
  {
  }

  lemma AndBits(a: bv8, m: bv8)
    ensures forall k :: 0 <= k < 8 ==> (ByteBits(a & m)[k] <==> ByteBits(a)[k] && ByteBits(m)[k])
  {
    forall k | 0 <= k < 8 ensures ByteBits(a & m)[k] <==> ByteBits(a)[k] && ByteBits(m)[k] {
      BitAnd(a, m, PlaceValue(k));
    }
  }

  lemma ByteContains(ip: bv8, m: bv8, a: bv8)
    ensures a & m == ip & m <==> BitsContain(ByteBits(ip), ByteBits(m), ByteBits(a))
  {
    ByteEqual(a & m, ip & m);
    AndBits(a, m);
    AndBits(ip, m);
    SameMeets(ByteBits(ip), ByteBits(m), ByteBits(a), ByteBits(ip & m), ByteBits(a & m));
  }

  lemma SameMeets(x: Bits, w: Bits, y: Bits, xw: Bits, yw: Bits)
    requires |x| == |w| == |y| == |xw| == |yw| == 8
    requires forall k :: 0 <= k < 8 ==> (xw[k] <==> x[k] && w[k]) && (yw[k] <==> y[k] && w[k])
    ensures yw == xw <==> BitsContain(x, w, y)
  {
    if yw == xw {
      forall k | 0 <= k < 8 && w[k] ensures y[k] == x[k] {
        assert yw[k] == xw[k];
      }
    }
  }

  lemma ByteMasked(ip: bv8, m: bv8)
    ensures ip & m == ip <==> BitsMasked(ByteBits(ip), ByteBits(m))
  {
    ByteEqual(ip & m, ip);
    AndBits(ip, m);
    SameMeet(ByteBits(ip), ByteBits(m), ByteBits(ip & m));
  }

  lemma SameMeet(x: Bits, w: Bits, xw: Bits)
    requires |x| == |w| == |xw| == 8 && forall k :: 0 <= k < 8 ==> (xw[k] <==> x[k] && w[k])
    ensures xw == x <==> BitsMasked(x, w)
  {
    if xw == x {
      forall k | 0 <= k < 8 && x[k] ensures w[k] {
        assert xw[k] == x[k];
      }
    }
  }

  lemma ByteLast(ip: bv8, m: bv8)
    ensures ByteBits(LastByte(ip, m)) == LastBits(ByteBits(ip), ByteBits(m))
  {
    forall k | 0 <= k < 8 ensures ByteBits(LastByte(ip, m))[k] == LastBits(ByteBits(ip), ByteBits(m))[k] {
      BitLast(ip, m, PlaceValue(k));
    }
  }

  lemma ByteRoundTrip(r: Bits)
    requires |r| == 8
    ensures ByteBits(ByteOf(r)) == r
  {
  }

  /** The order of two bytes, from the most significant bit down. */
  predicate Less(x: Bits, y: Bits)
    requires |x| == |y|
  {
    x != [] && ((!x[0] && y[0]) || (x[0] == y[0] && Less(x[1..], y[1..])))
  }

  lemma {:induction false} LessIs(x: Bits, y: Bits)
    requires |x| == |y|
    ensures Less(x, y) <==> BitsAtMost(x, y) && x != y
  {
    if x != [] {
      LessIs(x[1..], y[1..]);
      assert x == [x[0]] + x[1..] && y == [y[0]] + y[1..];
    }
  }

  predicate First(x: bool, y: bool, rest: bool) {
    (!x && y) || (x == y && rest)
  }

  lemma LessHead(x: Bits, y: Bits, k: nat)
    requires |x| == |y| && k < |x|
    ensures Less(x[k..], y[k..]) == First(x[k], y[k], Less(x[k+1..], y[k+1..]))
  {
    assert x[k..][1..] == x[k+1..] && y[k..][1..] == y[k+1..];
  }

  lemma LessEight(x: Bits, y: Bits)
    requires |x| == |y| == 8
    ensures Less(x, y) == First(x[0], y[0], First(x[1], y[1], First(x[2], y[2], First(x[3], y[3],
      First(x[4], y[4], First(x[5], y[5], First(x[6], y[6], First(x[7], y[7], false))))))))
  {
    LessHead(x, y, 7);
    LessHead(x, y, 6);
    LessHead(x, y, 5);
    LessHead(x, y, 4);
    LessHead(x, y, 3);
    LessHead(x, y, 2);
    LessHead(x, y, 1);
    LessHead(x, y, 0);
    assert x[0..] == x && y[0..] == y && x[8..] == [] && y[8..] == [];
  }

  lemma WeighedOrder(a: bv8, b: bv8)
    ensures a < b <==> First(Bit(a, 0x80), Bit(b, 0x80), First(Bit(a, 0x40), Bit(b, 0x40),
      First(Bit(a, 0x20), Bit(b, 0x20), First(Bit(a, 0x10), Bit(b, 0x10), First(Bit(a, 8), Bit(b, 8),
      First(Bit(a, 4), Bit(b, 4), First(Bit(a, 2), Bit(b, 2), First(Bit(a, 1), Bit(b, 1), false))))))))
  {
  }

  lemma ByteOrder(a: bv8, b: bv8)
    ensures a < b <==> Less(ByteBits(a), ByteBits(b))
  {
    WeighedOrder(a, b);
    LessEight(ByteBits(a), ByteBits(b));
  }

  lemma {:induction false} AtMostConcat(x: Bits, y: Bits, xs: Bits, ys: Bits)
    requires |x| == |y| && |xs| == |ys|
    ensures BitsAtMost(x + xs, y + ys) <==> Less(x, y) || (x == y && BitsAtMost(xs, ys))
  {
    if x == [] {
      assert x + xs == xs && y + ys == ys;
    } else {
      assert (x + xs)[1..] == x[1..] + xs && (y + ys)[1..] == y[1..] + ys;
      AtMostConcat(x[1..], y[1..], xs, ys);
      assert x == [x[0]] + x[1..] && y == [y[0]] + y[1..];
    }
  }

  lemma {:induction false} AtMostBits(a: Bytes, b: Bytes)
    requires |a| == |b|
    ensures AtMost(a, b) <==> BitsAtMost(BitsOf(a), BitsOf(b))
  {
    if a != [] {
      AtMostBits(a[1..], b[1..]);
      ByteOrder(a[0], b[0]);
      ByteEqual(a[0], b[0]);
      AtMostConcat(ByteBits(a[0]), ByteBits(b[0]), BitsOf(a[1..]), BitsOf(b[1..]));
    }
  }

  lemma ContainConcat(x: Bits, w: Bits, y: Bits, xs: Bits, ws: Bits, ys: Bits)
    requires |x| == |w| == |y| && |xs| == |ws| == |ys|
    ensures BitsContain(x + xs, w + ws, y + ys) <==> BitsContain(x, w, y) && BitsContain(xs, ws, ys)
  {
    if BitsContain(x + xs, w + ws, y + ys) {
      forall i | 0 <= i < |x| && w[i] ensures y[i] == x[i] {
        assert (w + ws)[i] && (y + ys)[i] == (x + xs)[i];
      }
      forall i | 0 <= i < |xs| && ws[i] ensures ys[i] == xs[i] {
        assert (w + ws)[|x|+i] && (y + ys)[|x|+i] == (x + xs)[|x|+i];
      }
    }
  }

  lemma {:induction false} ContainsBits(ip: Bytes, mask: Bytes, addr: Bytes)
    requires |ip| == |mask| == |addr|
    ensures Contains(ip, mask, addr) <==> BitsContain(BitsOf(ip), BitsOf(mask), BitsOf(addr))
  {
    if ip != [] {
      ContainsBits(ip[1..], mask[1..], addr[1..]);
      ByteContains(ip[0], mask[0], addr[0]);
      ContainConcat(ByteBits(ip[0]), ByteBits(mask[0]), ByteBits(addr[0]),
                    BitsOf(ip[1..]), BitsOf(mask[1..]), BitsOf(addr[1..]));
    }
  }

  lemma MaskedConcat(x: Bits, w: Bits, xs: Bits, ws: Bits)
    requires |x| == |w| && |xs| == |ws|
    ensures BitsMasked(x + xs, w + ws) <==> BitsMasked(x, w) && BitsMasked(xs, ws)
  {
    if BitsMasked(x + xs, w + ws) {
      forall i | 0 <= i < |x| && x[i] ensures w[i] {
        assert (x + xs)[i] && (w + ws)[i];
      }
      forall i | 0 <= i < |xs| && xs[i] ensures ws[i] {
        assert (x + xs)[|x|+i] && (w + ws)[|x|+i];
      }
    }
  }

  lemma {:induction false} MaskedBits(ip: Bytes, mask: Bytes)
    requires |ip| == |mask|
    ensures Masked(ip, mask) <==> BitsMasked(BitsOf(ip), BitsOf(mask))
  {
    if ip != [] {
      MaskedBits(ip[1..], mask[1..]);
      ByteMasked(ip[0], mask[0]);
      MaskedConcat(ByteBits(ip[0]), ByteBits(mask[0]), BitsOf(ip[1..]), BitsOf(mask[1..]));
    }
  }

  lemma LastIPCons(ip: Bytes, mask: Bytes)
    requires |ip| == |mask| > 0
    ensures LastIP(ip, mask) == [LastByte(ip[0], mask[0])] + LastIP(ip[1..], mask[1..])
  {
  }

  lemma LastConcat(x: Bits, w: Bits, xs: Bits, ws: Bits)
    requires |x| == |w| && |xs| == |ws|
    ensures LastBits(x + xs, w + ws) == LastBits(x, w) + LastBits(xs, ws)
  {
  }

  lemma {:induction false} LastIPBits(ip: Bytes, mask: Bytes)
    requires |ip| == |mask|
    ensures BitsOf(LastIP(ip, mask)) == LastBits(BitsOf(ip), BitsOf(mask))
  {
    if ip != [] {
      LastIPBits(ip[1..], mask[1..]);
      ByteLast(ip[0], mask[0]);
      LastIPCons(ip, mask);
      LastConcat(ByteBits(ip[0]), ByteBits(mask[0]), BitsOf(ip[1..]), BitsOf(mask[1..]));
    }
  }

  lemma {:induction false} BytesRoundTrip(r: Bits, n: nat)
    requires |r| == 8 * n
    ensures BitsOf(BytesOf(r, n)) == r
  {
    if n > 0 {
      ByteRoundTrip(r[..8]);
      BytesRoundTrip(r[8..], n - 1);
      assert BytesOf(r, n)[1..] == BytesOf(r[8..], n - 1);
      assert r == r[..8] + r[8..];
    }
  }

  // -------------------------------------------------------------- theorem

  predicate InRange(ip: Bytes, mask: Bytes, addr: Bytes)
    requires |mask| <= |ip| == |addr|
  {
    AtMost(ip, addr) && AtMost(addr, LastIP(ip, mask))
  }

  lemma InRangeBits(ip: Bytes, mask: Bytes, addr: Bytes)
    requires |ip| == |mask| == |addr|
    ensures InRange(ip, mask, addr) <==> BitsInRange(BitsOf(ip), BitsOf(mask), BitsOf(addr))
  {
    AtMostBits(ip, addr);
    AtMostBits(addr, LastIP(ip, mask));
    LastIPBits(ip, mask);
  }

  /** The range and the network have the same addresses. */
  ghost predicate SameAddresses(ip: Bytes, mask: Bytes)
    requires |ip| == |mask|
  {
    forall addr: Bytes :: |addr| == |ip| ==> (Contains(ip, mask, addr) <==> InRange(ip, mask, addr))
  }

  /** IPRangeFromIPNet holds the same IPs as the network exactly when the mask is a prefix mask
      and the base address has no bits outside it. */
  lemma RangeIsNetwork(ip: Bytes, mask: Bytes)
    requires |ip| == |mask|
    ensures SameAddresses(ip, mask) <==> PrefixMask(mask) && Masked(ip, mask)
  {
    var odd := BitsRangeIsNetwork(BitsOf(ip), BitsOf(mask));
    MaskedBits(ip, mask);
    if PrefixMask(mask) && Masked(ip, mask) {
      forall addr: Bytes | |addr| == |ip| ensures Contains(ip, mask, addr) <==> InRange(ip, mask, addr) {
        ContainsBits(ip, mask, addr);
        InRangeBits(ip, mask, addr);
      }
    } else {
      var addr := BytesOf(odd, |ip|);
      BytesRoundTrip(odd, |ip|);
      ContainsBits(ip, mask, addr);
      InRangeBits(ip, mask, addr);
    }
  }

  // ------------------------------------ an IPv4 address in its 16-byte form

  const MAPPED_PREFIX: Bytes := [0, 0, 0, 0, 0, 0, 0, 0, 0, 0, 0xff, 0xff]

  predicate Mapped(addr: Bytes) {
    |addr| == 16 && addr[..12] == MAPPED_PREFIX
  }

  /** net.IPNet.Contains when the network is an IPv4 address in 16 bytes with a mask of 4. */
  predicate ContainsMapped(ip: Bytes, mask: Bytes, addr: Bytes)
    requires Mapped(ip) && |mask| == 4
  {
    Mapped(addr) && Contains(ip[12..], mask, addr[12..])
  }

  /** The first difference decides. */
  lemma {:induction false} Decides(a: Bytes, b: Bytes, k: nat)
    requires |a| == |b| && k < |a| && a[..k] == b[..k] && a[k] != b[k]
    ensures AtMost(a, b) <==> a[k] < b[k]
  {
    if k > 0 {
      assert a[0] == a[..k][0] == b[..k][0] == b[0];
      assert a[1..][..k-1] == a[..k][1..] && b[1..][..k-1] == b[..k][1..];
      Decides(a[1..], b[1..], k - 1);
    }
  }

  lemma {:induction false} Reflexive(a: Bytes)
    ensures AtMost(a, a)
  {
    if a != [] {
      Reflexive(a[1..]);
    }
  }

  lemma {:induction false} ContainsItself(ip: Bytes, mask: Bytes)
    requires |ip| == |mask|
    ensures Contains(ip, mask, ip)
  {
    if ip != [] {
      ContainsItself(ip[1..], mask[1..]);
    }
  }

  function Zeros(n: nat): (r: Bytes)
    ensures |r| == n && forall k :: 0 <= k < n ==> r[k] == 0
  {
    seq(n, _ => 0)
  }

  lemma MappedZeros(ip: Bytes)
    requires Mapped(ip)
    ensures ip[..10] == Zeros(10) && ip[10] == 0xff
  {
    assert forall k :: 0 <= k < 12 ==> ip[k] == ip[..12][k];
  }

  lemma Complement(m: bv8)
    ensures LastByte(0, m) == !m && (!m == 0 <==> m == 0xff) && (m != 0xff ==> 0 < !m)
  {
  }

  /** There the mask lands on the leading zeros: the range ends at the complement of the mask followed by
      zeros, and never holds the addresses of the network, whatever the network is. */
  lemma MappedRangeIsWrong(ip: Bytes, mask: Bytes) returns (addr: Bytes)
    requires Mapped(ip) && |mask| == 4
    ensures forall i :: 0 <= i < 16 ==> LastIP(ip, mask)[i] == if i < 4 then !mask[i] else 0
    ensures |addr| == 16 && ContainsMapped(ip, mask, addr) != InRange(ip, mask, addr)
  {
    var last := LastIP(ip, mask);
    MappedZeros(ip);
    forall i | 0 <= i < 4 ensures last[i] == !mask[i] {
      assert ip[i] == ip[..10][i];
      Complement(mask[i]);
    }
    if i :| 0 <= i < 4 && mask[i] != 0xff {
      var k := FirstGap(mask);
      Complement(mask[k]);
      assert ip[k] == ip[..10][k];
      assert ip[..k] == last[..k] by { ZeroUpTo(ip, mask, k); }
      Decides(ip, last, k);
      Reflexive(last);
      addr := last;
      assert last[..12][10] == last[10] != MAPPED_PREFIX[10];
    } else {
      addr := ip;
      ContainsItself(ip[12..], mask);
      assert ip[..10] == last[..10] by { ZeroUpTo(ip, mask, 10); }
      Decides(ip, last, 10);
    }
  }

  lemma FirstGap(mask: Bytes) returns (k: nat)
    requires |mask| == 4 && exists i :: 0 <= i < 4 && mask[i] != 0xff
    ensures k < 4 && mask[k] != 0xff && forall i :: 0 <= i < k ==> mask[i] == 0xff
  {
    k := if mask[0] != 0xff then 0 else if mask[1] != 0xff then 1 else if mask[2] != 0xff then 2 else 3;
  }

  /** Before the first gap in the mask the end of the range is zero, like the base. */
  lemma ZeroUpTo(ip: Bytes, mask: Bytes, k: nat)
    requires Mapped(ip) && |mask| == 4 && k <= 10 && forall i :: 0 <= i < k && i < 4 ==> mask[i] == 0xff
    ensures ip[..k] == LastIP(ip, mask)[..k]
  {
    MappedZeros(ip);
    forall i | 0 <= i < k ensures ip[i] == LastIP(ip, mask)[i] {
      assert ip[i] == ip[..10][i];
      if i < 4 {
        Complement(mask[i]);
      }
    }
  }
}
