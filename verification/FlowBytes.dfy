/** Bytes, and the multi-byte numbers the flow rules are made of.  A number is the sequence of its
bytes, most significant first, so that shifts by whole bytes are slices and concatenations and
bitwise operations go byte by byte.  The host is little-endian.
*/
module FlowBytes {

  type Octet = bv8

  type Num = seq<Octet>

  function Reversed(s: seq<Octet>): (r: seq<Octet>)
    ensures |r| == |s|
  {
    seq(|s|, i requires 0 <= i < |s| => s[|s| - 1 - i])
  }

  // ----- Numbers in the memory of a little-endian host

  function Store(v: Num): (r: seq<Octet>)
    ensures |r| == |v|
  {
    Reversed(v)
  }

  function Load(p: seq<Octet>, o: nat, n: nat): (r: Num)
    requires o + n <= |p|
    ensures |r| == n
  {
    Reversed(p[o..o + n])
  }

  // ----- Byte order: `cpu_to_be16`, `cpu_to_be32`, `cpu_to_be64` (and `ntohs`, `ntohl`)

  function Swap16(v: Num): (r: Num)
    requires |v| == 2
    ensures |r| == 2
  {
    [v[1]] + [v[0]]
  }

  function Swap32(v: Num): (r: Num)
    requires |v| == 4
    ensures |r| == 4
  {
    Swap16(v[2..]) + Swap16(v[..2])
  }

  function Swap64(v: Num): (r: Num)
    requires |v| == 8
    ensures |r| == 8
  {
    Swap32(v[4..]) + Swap32(v[..4])
  }

  // ----- Bitwise operations

  function Complement(v: seq<Octet>): (r: seq<Octet>)
    ensures |r| == |v|
  {
    seq(|v|, i requires 0 <= i < |v| => !v[i])
  }

  function Ones(n: nat): (r: seq<Octet>)
    ensures |r| == n
  {
    seq(n, _ => 0xff)
  }

  predicate IsZero(v: seq<Octet>) {
    forall i :: 0 <= i < |v| ==> v[i] == 0
  }

  // ----- What swapping is for

  lemma {:induction false} SwapIsReversed(v: Num)
    ensures |v| == 2 ==> Swap16(v) == Reversed(v)
    ensures |v| == 4 ==> Swap32(v) == Reversed(v)
    ensures |v| == 8 ==> Swap64(v) == Reversed(v)
  {}

  lemma {:induction false} SliceOfSlice(p: seq<Octet>, a: nat, b: nat, i: nat, j: nat)
    requires i <= j && a + j <= b <= |p|
    ensures p[a..b][i..j] == p[a + i..a + j]
  {
    assert forall k {:trigger p[a..b][i..j][k]} :: 0 <= k < j - i ==> p[a..b][i..j][k] == p[a + i + k];
  }

  lemma {:induction false} ReversedTwice(s: seq<Octet>)
    ensures Reversed(Reversed(s)) == s
  {}

  /** A swapped number lies in memory in network order, and loading and swapping reads it back. */
  lemma {:induction false} NetworkOrder(v: Num)
    ensures |v| == 2 ==> Store(Swap16(v)) == v
    ensures |v| == 4 ==> Store(Swap32(v)) == v
    ensures |v| == 8 ==> Store(Swap64(v)) == v
  {}

  lemma {:induction false} NetworkLoad(p: seq<Octet>, o: nat, n: nat)
    requires o + n <= |p|
    ensures n == 2 ==> Swap16(Load(p, o, n)) == p[o..o + n]
    ensures n == 4 ==> Swap32(Load(p, o, n)) == p[o..o + n]
    ensures n == 8 ==> Swap64(Load(p, o, n)) == p[o..o + n]
  {}

  // ----- The integer a number stands for

  function OctetValue(b: Octet): (r: nat)
    ensures r < 256 && (r == 0 <==> b == 0) && (r == 255 <==> b == 0xff)
  {
    b as nat
  }

  function IntOf(v: Num): nat {
    if v == [] then 0 else 256 * IntOf(v[..|v| - 1]) + OctetValue(v[|v| - 1])
  }

  function Power256(n: nat): (r: nat)
    ensures 0 < r
  {
    if n == 0 then 1 else 256 * Power256(n - 1)
  }

  lemma {:induction false} IntOfZero(v: Num)
    ensures IntOf(v) == 0 <==> IsZero(v)
  {
    if v != [] {
      var init := v[..|v| - 1];
      IntOfZero(init);
      assert forall i :: 0 <= i < |init| ==> init[i] == v[i];
    }
  }

  lemma {:induction false} Powers()
    ensures Power256(1) == 0x100 && Power256(2) == 0x10000 && Power256(3) == 0x100_0000
    ensures Power256(4) == 0x1_0000_0000 && Power256(8) == 0x1_0000_0000_0000_0000
  {
    assert Power256(3) == 256 * Power256(2);
    assert Power256(5) == 256 * Power256(4);
    assert Power256(6) == 256 * Power256(5);
    assert Power256(7) == 256 * Power256(6);
  }

  /** The first `k` bytes are zero exactly when the number is that much smaller. */
  lemma {:induction false} HighZero(v: Num, k: nat)
    requires k <= |v|
    ensures IsZero(v[..k]) <==> IntOf(v) < Power256(|v| - k)
    ensures IsZero(v[..k]) ==> IntOf(v[k..]) == IntOf(v)
    decreases |v|
  {
    if k == |v| {
      IntOfZero(v);
      assert v[..k] == v && v[k..] == [];
    } else {
      var init := v[..|v| - 1];
      HighZero(init, k);
      assert v[..k] == init[..k];
      assert v[k..][..|v[k..]| - 1] == init[k..];
    }
  }

  lemma {:induction false} LastDigit(x: nat, a: nat, y: nat, b: nat)
    requires a < 256 && b < 256 && 256 * x + a == 256 * y + b
    ensures x == y && a == b
  {}

  /** Numbers of the same length are equal exactly if the integers are. */
  lemma {:induction false} IntOfInjective(a: Num, b: Num)
    requires |a| == |b|
    ensures IntOf(a) == IntOf(b) <==> a == b
  {
    if a != [] && IntOf(a) == IntOf(b) {
      var x, y, m, n := a[..|a| - 1], b[..|b| - 1], a[|a| - 1], b[|b| - 1];
      LastDigit(IntOf(x), OctetValue(m), IntOf(y), OctetValue(n));
      IntOfInjective(x, y);
      OctetInjective(m, n);
      assert a == x + [m] && b == y + [n];
    }
  }

  lemma {:induction false} OctetInjective(a: Octet, b: Octet)
    ensures OctetValue(a) == OctetValue(b) <==> a == b
  {}

  /** The top bit of a number. */
  lemma {:induction false} TopBitOf(v: Num)
    requires v != []
    ensures v[0] < 0x80 <==> IntOf(v) < 128 * Power256(|v| - 1)
  {
    if |v| == 1 {
      OctetTopBit(v[0]);
    } else {
      TopBitOf(v[..|v| - 1]);
    }
  }

  lemma {:induction false} OctetTopBit(b: Octet)
    ensures b < 0x80 <==> OctetValue(b) < 128
  {}

  lemma {:induction false} OctetComplement(b: Octet)
    ensures OctetValue(!b) == 255 - OctetValue(b)
  {}

  /** Inverting all bits counts down from the highest number. */
  lemma {:induction false} IntOfComplement(v: Num)
    ensures IntOf(Complement(v)) == Power256(|v|) - 1 - IntOf(v)
  {
    if v != [] {
      var init, c := v[..|v| - 1], Complement(v);
      IntOfComplement(init);
      OctetComplement(v[|v| - 1]);
      assert c[..|v| - 1] == Complement(init);
    }
  }

  lemma {:induction false} IntOfOnes(n: nat)
    ensures IntOf(Ones(n)) == Power256(n) - 1
  {
    IntOfComplement(Ones(n));
    IntOfZero(Complement(Ones(n)));
  }
}
