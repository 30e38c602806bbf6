/** Node ids, the XOR metric and shared bit prefixes. */
module Metric {
  import opened Keys

  datatype Ordering = Less | Equal | Greater

  function Xor(a: Bytes, b: Bytes): (d: Bytes)
    requires |a| == |b|
    ensures |d| == |a|
  {
    seq(|a|, i requires 0 <= i < |a| => a[i] ^ b[i])
  }

  /** The distance of two ids, byte by byte. */
  function XorDistance(id: NodeId, target: NodeId): NodeId {
    Xor(id, target)
  }

  /** Lexicographic comparison, as `Iterator::cmp` does it. */
  function LexCmp(d: Bytes, e: Bytes): Ordering
    requires |d| == |e|
  {
    if d == [] then Equal
    else if d[0] < e[0] then Less
    else if d[0] > e[0] then Greater
    else LexCmp(d[1..], e[1..])
  }

  /** Orders `a` and `b` by their distance to `target`. */
  function XorDistanceCmp(a: NodeId, b: NodeId, target: NodeId): Ordering {
    LexCmp(Xor(a, target), Xor(b, target))
  }

  /* ---- bits ---- */

  function Mask(i: nat): Byte
    requires i < 8
  {
    if i == 0 then 0x80 else if i == 1 then 0x40 else if i == 2 then 0x20 else if i == 3 then 0x10
    else if i == 4 then 0x08 else if i == 5 then 0x04 else if i == 6 then 0x02 else 0x01
  }

  predicate ByteBit(b: Byte, i: nat)
    requires i < 8
  {
    b & Mask(i) != 0
  }

  /** Bit `i` of `a`, counting from the most significant bit of byte 0. */
  predicate Bit(a: Bytes, i: nat)
    requires i < 8 * |a|
  {
    ByteBit(a[i / 8], i % 8)
  }

  function ByteLeadingZeros(b: Byte): (n: nat)
    ensures n <= 8
    ensures forall i: nat :: i < n ==> !ByteBit(b, i)
    ensures n < 8 ==> ByteBit(b, n)
    ensures n < 8 <==> b != 0
  {
    if b & 0x80 != 0 then 0 else if b & 0x40 != 0 then 1 else if b & 0x20 != 0 then 2
    else if b & 0x10 != 0 then 3 else if b & 0x08 != 0 then 4 else if b & 0x04 != 0 then 5
    else if b & 0x02 != 0 then 6 else if b & 0x01 != 0 then 7 else 8
  }

  function LeadingZeroBits(d: Bytes): (n: nat)
    ensures n <= 8 * |d|
  {
    if d == [] then 0
    else if d[0] != 0 then ByteLeadingZeros(d[0])
    else 8 + LeadingZeroBits(d[1..])
  }

  /** Mentioning this brings in the definitions of `Shared` and `Dist` for one pair of ids. */
  predicate Unfold(a: NodeId, b: NodeId) { true }

  ghost predicate CountsSharedBits(f: (NodeId, NodeId) -> nat) {
    forall a, b {:trigger Unfold(a, b)} :: Unfold(a, b) ==> f(a, b) == LeadingZeroBits(XorDistance(a, b))
  }

  lemma SharedBitsCounted()
    ensures exists f: (NodeId, NodeId) -> nat :: CountsSharedBits(f)
  {
    var f: (NodeId, NodeId) -> nat := (a: NodeId, b: NodeId) => LeadingZeroBits(XorDistance(a, b));
    assert CountsSharedBits(f);
  }

  /** How many leading bits `a` and `b` share. Proofs elsewhere use only the lemmas about it. */
  ghost function Shared(a: NodeId, b: NodeId): (n: nat)
    ensures n <= ID_BITS
  {
    SharedBitsCounted();
    var f: (NodeId, NodeId) -> nat :| CountsSharedBits(f);
    assert Unfold(a, b);
    f(a, b)
  }

  lemma SharedIsLeadingZeros(a: NodeId, b: NodeId)
    ensures Shared(a, b) == LeadingZeroBits(XorDistance(a, b))
  {
    assert Unfold(a, b);
  }

  lemma BitTail(a: Bytes, i: nat)
    requires a != [] && 8 <= i < 8 * |a|
    ensures Bit(a, i) == Bit(a[1..], i - 8)
  {
    assert (i - 8) / 8 == i / 8 - 1 && (i - 8) % 8 == i % 8;
  }

  lemma BitAt(a: Bytes, j: nat, k: nat)
    requires j < |a| && k < 8
    ensures Bit(a, 8 * j + k) == ByteBit(a[j], k)
  {
    assert (8 * j + k) / 8 == j && (8 * j + k) % 8 == k;
  }

  lemma ByteXorBit(x: Byte, y: Byte, i: nat)
    requires i < 8
    ensures ByteBit(x ^ y, i) == (ByteBit(x, i) != ByteBit(y, i))
  {
    MaskXor(x, y, Mask(i));
  }

  predicate OneBit(m: Byte) {
    m == 0x80 || m == 0x40 || m == 0x20 || m == 0x10 || m == 0x08 || m == 0x04 || m == 0x02 || m == 0x01
  }

  lemma MaskXor(x: Byte, y: Byte, m: Byte)
    requires OneBit(m)
    ensures (x ^ y) & m != 0 <==> ((x & m != 0) != (y & m != 0))
  {
  }

  /** When `m` is the top bit in which `x` and `y` differ, it decides their order after xor. */
  lemma TopBitDecides(x: Byte, y: Byte, t: Byte, m: Byte)
    requires OneBit(m)
    requires (x ^ y) & m != 0 && (x ^ y) & !(m | (m - 1)) == 0
    ensures (x ^ t) < (y ^ t) <==> (x & m != 0) == (t & m != 0)
  {
  }

  /** Nothing above the first set bit is set. */
  lemma ClearAbove(b: Byte)
    requires b != 0
    ensures var m := Mask(ByteLeadingZeros(b)); b & m != 0 && b & !(m | (m - 1)) == 0
  {
  }

  /** The loop's answer is the position of the first set bit. */
  lemma {:induction false} LeadingZeroBitsSpec(d: Bytes)
    ensures forall i: nat :: i < LeadingZeroBits(d) ==> !Bit(d, i)
    ensures LeadingZeroBits(d) < 8 * |d| ==> Bit(d, LeadingZeroBits(d))
  {
    if d != [] && d[0] == 0 {
      LeadingZeroBitsSpec(d[1..]);
      var n := LeadingZeroBits(d);
      forall i: nat | i < n
        ensures !Bit(d, i)
      {
        if i >= 8 { BitTail(d, i); }
      }
      if n < 8 * |d| { BitTail(d, n); }
    }
  }

  /** `leading_zeros`: whole zero bytes first, then inside the first other byte. */
  method LeadingZeros(id: NodeId) returns (zeros: nat)
    ensures zeros <= ID_BITS
    ensures forall i: nat :: i < zeros ==> !Bit(id, i)
    ensures zeros < ID_BITS ==> Bit(id, zeros)
    ensures zeros == LeadingZeroBits(id)
  {
    LeadingZeroBitsSpec(id);
    zeros := 0;
    for i := 0 to |id|
      invariant zeros == 8 * i
      invariant LeadingZeroBits(id) == zeros + LeadingZeroBits(id[i..])
    {
      if id[i] != 0 {
        zeros := zeros + ByteLeadingZeros(id[i]);
        return;
      }
      assert id[i..][1..] == id[i + 1..];
      zeros := zeros + 8;
    }
  }

  /** `Shared` is the length of the common bit prefix. */
  lemma SharedSpec(a: NodeId, b: NodeId)
    ensures forall i: nat :: i < Shared(a, b) ==> Bit(a, i) == Bit(b, i)
    ensures Shared(a, b) < ID_BITS ==> Bit(a, Shared(a, b)) != Bit(b, Shared(a, b))
    ensures Shared(a, b) == ID_BITS <==> a == b
  {
    var d := Xor(a, b);
    SharedIsLeadingZeros(a, b);
    LeadingZeroBitsSpec(d);
    forall i: nat | i < 8 * |a|
      ensures Bit(d, i) == (Bit(a, i) != Bit(b, i))
    {
      ByteXorBit(a[i / 8], b[i / 8], i % 8);
    }
    if Shared(a, b) == 8 * |a| {
      forall j | 0 <= j < |a|
        ensures a[j] == b[j]
      {
        SameByte(a, b, j);
      }
    } else {
      assert Bit(a, Shared(a, b)) != Bit(b, Shared(a, b));
    }
  }

  lemma SameByte(a: Bytes, b: Bytes, j: nat)
    requires |a| == |b| && j < |a|
    requires forall i: nat :: i < 8 * |a| ==> Bit(a, i) == Bit(b, i)
    ensures a[j] == b[j]
  {
    forall k: nat | k < 8
      ensures ByteBit(a[j], k) == ByteBit(b[j], k)
    {
      BitAt(a, j, k);
      BitAt(b, j, k);
    }
    ByteFromBits(a[j], b[j]);
  }

  lemma ByteFromBits(x: Byte, y: Byte)
    requires forall k: nat :: k < 8 ==> ByteBit(x, k) == ByteBit(y, k)
    ensures x == y
  {
    assert ByteBit(x, 0) == ByteBit(y, 0);
    assert ByteBit(x, 1) == ByteBit(y, 1);
    assert ByteBit(x, 2) == ByteBit(y, 2);
    assert ByteBit(x, 3) == ByteBit(y, 3);
    assert ByteBit(x, 4) == ByteBit(y, 4);
    assert ByteBit(x, 5) == ByteBit(y, 5);
    assert ByteBit(x, 6) == ByteBit(y, 6);
    assert ByteBit(x, 7) == ByteBit(y, 7);
  }

  /** Shared prefixes are determined by any `n` that behaves like one. */
  lemma SharedUnique(a: NodeId, b: NodeId, n: nat)
    requires n <= ID_BITS
    requires forall i: nat :: i < n ==> Bit(a, i) == Bit(b, i)
    requires n < ID_BITS ==> Bit(a, n) != Bit(b, n)
    ensures Shared(a, b) == n
  {
    SharedSpec(a, b);
  }

  lemma SharedSymmetric(a: NodeId, b: NodeId)
    ensures Shared(a, b) == Shared(b, a)
  {
    SharedSpec(b, a);
    SharedUnique(a, b, Shared(b, a));
  }

  /** Two ids that leave `c` at different bits first differ at the earlier one. */
  lemma SharedMin(a: NodeId, b: NodeId, c: NodeId)
    requires Shared(a, c) < Shared(b, c)
    ensures Shared(a, b) == Shared(a, c)
  {
    SharedSpec(a, c);
    SharedSpec(b, c);
    SharedUnique(a, b, Shared(a, c));
  }

  /** Two ids that leave `c` at the same bit agree at least one bit longer. */
  lemma SharedTogether(a: NodeId, b: NodeId, c: NodeId)
    requires Shared(a, c) == Shared(b, c)
    ensures Shared(a, b) >= Shared(a, c)
    ensures Shared(a, c) < ID_BITS ==> Shared(a, b) > Shared(a, c)
  {
    SharedSpec(a, b);
    SharedSpec(a, c);
    SharedSpec(b, c);
  }

  /* ---- distances as numbers ---- */

  /** The big-endian number the first `n` bytes of `d` denote. */
  function Number(d: Bytes, n: nat): nat
    requires n <= |d|
  {
    if n == 0 then 0 else 256 * Number(d, n - 1) + d[n - 1] as nat
  }

  ghost predicate MeasuresXor(f: (NodeId, NodeId) -> nat) {
    forall a, b {:trigger Unfold(a, b)} :: Unfold(a, b) ==> f(a, b) == Number(XorDistance(a, b), ID_BYTES)
  }

  lemma XorIsMeasured()
    ensures exists f: (NodeId, NodeId) -> nat :: MeasuresXor(f)
  {
    var f: (NodeId, NodeId) -> nat := (a: NodeId, b: NodeId) => Number(XorDistance(a, b), ID_BYTES);
    assert MeasuresXor(f);
  }

  /** How far `id` is from `target`, as a number. Proofs elsewhere use only the lemmas about it. */
  ghost function Dist(id: NodeId, target: NodeId): nat {
    XorIsMeasured();
    var f: (NodeId, NodeId) -> nat :| MeasuresXor(f);
    f(id, target)
  }

  lemma DistIsNumber(id: NodeId, target: NodeId)
    ensures Dist(id, target) == Number(XorDistance(id, target), ID_BYTES)
  {
    assert Unfold(id, target);
  }

  lemma ByteLess(x: Byte, y: Byte)
    ensures x < y <==> x as nat < y as nat
  {
  }

  lemma ConsEqual(a: Bytes, b: Bytes)
    requires |a| == |b| != 0
    ensures a == b <==> a[0] == b[0] && a[1..] == b[1..]
  {
    assert a == [a[0]] + a[1..] && b == [b[0]] + b[1..];
  }

  /** `j` is the first byte in which `d` and `e` differ. */
  predicate DifferFirstAt(d: Bytes, e: Bytes, j: nat)
    requires |d| == |e|
  {
    j < |d| && d[j] != e[j] && forall i :: 0 <= i < j ==> d[i] == e[i]
  }

  lemma {:induction false} FirstByte(a: Bytes, b: Bytes) returns (j: nat)
    requires |a| == |b| && a != b
    ensures DifferFirstAt(a, b, j)
  {
    if a[0] != b[0] {
      j := 0;
    } else {
      ConsEqual(a, b);
      var k := FirstByte(a[1..], b[1..]);
      j := k + 1;
    }
  }

  lemma {:induction false} LexAt(d: Bytes, e: Bytes, j: nat)
    requires |d| == |e| && DifferFirstAt(d, e, j)
    ensures LexCmp(d, e) == if d[j] < e[j] then Less else Greater
  {
    if j > 0 {
      LexAt(d[1..], e[1..], j - 1);
    }
  }

  lemma {:induction false} NumberAgree(d: Bytes, e: Bytes, n: nat)
    requires |d| == |e| && n <= |d|
    requires forall i :: 0 <= i < n ==> d[i] == e[i]
    ensures Number(d, n) == Number(e, n)
  {
    if n > 0 { NumberAgree(d, e, n - 1); }
  }

  /** The first differing byte decides between the numbers, whatever follows. */
  lemma {:induction false} NumberAt(d: Bytes, e: Bytes, j: nat, n: nat)
    requires |d| == |e| && DifferFirstAt(d, e, j) && d[j] < e[j]
    requires j < n <= |d|
    ensures Number(d, n) < Number(e, n)
  {
    if n == j + 1 {
      NumberAgree(d, e, j);
      ByteLess(d[j], e[j]);
    } else {
      NumberAt(d, e, j, n - 1);
    }
  }

  lemma {:induction false} LexReflexive(d: Bytes)
    ensures LexCmp(d, d) == Equal
  {
    if d != [] { LexReflexive(d[1..]); }
  }

  /** Lexicographic comparison of the bytes is numeric comparison. */
  lemma LexIsNumeric(d: Bytes, e: Bytes)
    requires |d| == |e|
    ensures LexCmp(d, e) == Less <==> Number(d, |d|) < Number(e, |e|)
    ensures LexCmp(d, e) == Greater <==> Number(d, |d|) > Number(e, |e|)
    ensures LexCmp(d, e) == Equal <==> d == e
  {
    if d == e {
      LexReflexive(d);
    } else {
      var j := FirstByte(d, e);
      LexAt(d, e, j);
      if d[j] < e[j] {
        NumberAt(d, e, j, |d|);
      } else {
        ByteTrichotomy(d[j], e[j]);
        NumberAt(e, d, j, |d|);
      }
    }
  }

  lemma ByteTrichotomy(x: Byte, y: Byte)
    ensures x < y || x > y || x == y
  {
  }

  lemma XorCancel(x: Byte, y: Byte, t: Byte)
    ensures x ^ t == y ^ t <==> x == y
  {
  }

  lemma XorInjective(a: Bytes, b: Bytes, target: Bytes)
    requires |a| == |b| == |target|
    requires Xor(a, target) == Xor(b, target)
    ensures a == b
  {
    forall i | 0 <= i < |a|
      ensures a[i] == b[i]
    {
      assert Xor(a, target)[i] == Xor(b, target)[i];
      XorCancel(a[i], b[i], target[i]);
    }
  }

  /** `xor_distance_cmp` is the numeric order of distances, and only equal ids tie. */
  lemma CmpIsDist(a: NodeId, b: NodeId, target: NodeId)
    ensures XorDistanceCmp(a, b, target) == Less <==> Dist(a, target) < Dist(b, target)
    ensures XorDistanceCmp(a, b, target) == Greater <==> Dist(a, target) > Dist(b, target)
    ensures XorDistanceCmp(a, b, target) == Equal <==> a == b
  {
    DistIsNumber(a, target);
    DistIsNumber(b, target);
    LexIsNumeric(Xor(a, target), Xor(b, target));
    if Xor(a, target) == Xor(b, target) {
      XorInjective(a, b, target);
    }
  }

  lemma DistInjective(a: NodeId, b: NodeId, target: NodeId)
    requires Dist(a, target) == Dist(b, target)
    ensures a == b
  {
    CmpIsDist(a, b, target);
  }

  lemma ByteOrder(x: Byte, y: Byte, t: Byte)
    requires x != y
    ensures x ^ y != 0
    ensures (x ^ t) < (y ^ t) <==> ByteBit(x, ByteLeadingZeros(x ^ y)) == ByteBit(t, ByteLeadingZeros(x ^ y))
  {
    XorCancel(x, y, y);
    ClearAbove(x ^ y);
    TopBitDecides(x, y, t, Mask(ByteLeadingZeros(x ^ y)));
  }

  lemma {:induction false} LeadingZerosAt(d: Bytes, j: nat)
    requires j < |d| && d[j] != 0
    requires forall i :: 0 <= i < j ==> d[i] == 0
    ensures LeadingZeroBits(d) == 8 * j + ByteLeadingZeros(d[j])
  {
    if j > 0 {
      LeadingZerosAt(d[1..], j - 1);
    }
  }

  lemma SharedAt(a: NodeId, b: NodeId, j: nat)
    requires DifferFirstAt(a, b, j)
    ensures a[j] ^ b[j] != 0
    ensures Shared(a, b) == 8 * j + ByteLeadingZeros(a[j] ^ b[j])
  {
    forall i | 0 <= i < j
      ensures Xor(a, b)[i] == 0
    {
      XorCancel(a[i], b[i], b[i]);
    }
    XorCancel(a[j], b[j], b[j]);
    LeadingZerosAt(Xor(a, b), j);
    SharedIsLeadingZeros(a, b);
  }

  lemma DifferAfterXor(a: Bytes, b: Bytes, target: Bytes, j: nat)
    requires |a| == |b| == |target| && DifferFirstAt(a, b, j)
    ensures DifferFirstAt(Xor(a, target), Xor(b, target), j)
  {
    XorCancel(a[j], b[j], target[j]);
  }

  lemma NearerAt(a: NodeId, b: NodeId, target: NodeId, j: nat)
    requires DifferFirstAt(a, b, j)
    ensures Dist(a, target) < Dist(b, target) <==> a[j] ^ target[j] < b[j] ^ target[j]
  {
    DifferAfterXor(a, b, target, j);
    LexAt(Xor(a, target), Xor(b, target), j);
    CmpIsDist(a, b, target);
  }

  /** The same, of the bytes where the ids first differ. */
  lemma NearerAtBytes(a: NodeId, b: NodeId, target: NodeId, j: nat, x: Byte, y: Byte, t: Byte)
    requires DifferFirstAt(a, b, j) && x == a[j] && y == b[j] && t == target[j]
    ensures Dist(a, target) < Dist(b, target) <==> XorLess(x, y, t)
  {
    NearerAt(a, b, target, j);
  }

  predicate XorLess(x: Byte, y: Byte, t: Byte) {
    x ^ t < y ^ t
  }

  lemma NearerAtByteBit(a: NodeId, b: NodeId, target: NodeId, j: nat, k: nat)
    requires DifferFirstAt(a, b, j) && k == ByteLeadingZeros(a[j] ^ b[j]) < 8
    ensures Dist(a, target) < Dist(b, target) <==> ByteBit(a[j], k) == ByteBit(target[j], k)
  {
    NearerAtBytes(a, b, target, j, a[j], b[j], target[j]);
    ByteOrderAt(a[j], b[j], target[j], k);
  }

  lemma ByteOrderAt(x: Byte, y: Byte, t: Byte, k: nat)
    requires x != y && k == ByteLeadingZeros(x ^ y) < 8
    ensures XorLess(x, y, t) <==> ByteBit(x, k) == ByteBit(t, k)
  {
    ByteOrder(x, y, t);
  }

  /** The nearer of two ids is the one that agrees with the target where they first differ. */
  lemma NearerByBit(a: NodeId, b: NodeId, target: NodeId)
    requires a != b
    ensures Shared(a, b) < ID_BITS
    ensures Dist(a, target) < Dist(b, target) <==> Bit(a, Shared(a, b)) == Bit(target, Shared(a, b))
  {
    var j := FirstByte(a, b);
    SharedAt(a, b, j);
    var k := Shared(a, b) - 8 * j;
    NearerAtByteBit(a, b, target, j, k);
    BitAt(a, j, k);
    BitAt(target, j, k);
  }

  /** Sharing more bits with the target means being nearer to it. */
  lemma LongerPrefixIsNearer(a: NodeId, b: NodeId, target: NodeId)
    requires Shared(a, target) > Shared(b, target)
    ensures Dist(a, target) < Dist(b, target)
  {
    SharedMin(b, a, target);
    SharedSymmetric(a, b);
    SharedSpec(a, target);
    SharedSpec(b, target);
    NearerByBit(a, b, target);
  }
}
