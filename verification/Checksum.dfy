/** The Internet checksum as ping computes it, against section 2 of RFC 1071.
The buffer is read as 16-bit words in the byte order of the host.
*/
module Checksum {
  import opened Machine

  newtype Int32 = x: int | -0x8000_0000 <= x < 0x8000_0000

  datatype Host = Little | Big

  /** The 16-bit word stored at two consecutive bytes. */
  function LoadWord(h: Host, b0: Byte, b1: Byte): (r: nat)
    ensures r < 0x10000
  {
    if h.Little? then b0 + 256 * b1 else 256 * b0 + b1
  }

  /** The two bytes of a stored 16-bit word. */
  function StoreWord(h: Host, v: nat): (r: seq<Byte>)
    requires v < 0x10000
    ensures |r| == 2 && LoadWord(h, r[0], r[1]) == v
  {
    if h.Little? then [v % 256, v / 256] else [v / 256, v % 256]
  }

  /** Plain sum of the words of a buffer; an odd last byte is followed by a zero byte. */
  function WordSum(h: Host, buf: seq<Byte>): nat {
    if buf == [] then 0
    else if |buf| == 1 then LoadWord(h, buf[0], 0)
    else LoadWord(h, buf[0], buf[1]) + WordSum(h, buf[2..])
  }

  /** One's-complement addition of 16-bit words: the carry goes back in at the bottom. */
  function OnesAdd(a: nat, b: nat): (r: nat)
    requires a < 0x10000 && b < 0x10000
    ensures r < 0x10000
  {
    if a + b < 0x10000 then a + b else a + b - 0xffff
  }

  /** The one's-complement sum of section 2 of RFC 1071. */
  function OnesSum(h: Host, buf: seq<Byte>): (r: nat)
    ensures r < 0x10000
  {
    if buf == [] then 0
    else if |buf| == 1 then LoadWord(h, buf[0], 0)
    else OnesAdd(LoadWord(h, buf[0], buf[1]), OnesSum(h, buf[2..]))
  }

  function Cksum(h: Host, buf: seq<Byte>): (r: nat)
    ensures r < 0x10000
  {
    0xffff - OnesSum(h, buf)
  }

  // ----- The accumulator and its folding

  /** The 16-bit value a sum folds to: congruent modulo 65535, and zero only for zero. */
  function Folded(s: nat): (r: nat)
    ensures r < 0x10000
  {
    if s == 0 then 0 else (s - 1) % 0xffff + 1
  }

  lemma {:induction false} FoldedAdd(a: nat, s: nat)
    requires a < 0x10000
    ensures Folded(a + s) == OnesAdd(a, Folded(s))
  {}

  /** Carrying at every addition or only at the end is the same. */
  lemma {:induction false} OnesSumIsFolded(h: Host, buf: seq<Byte>)
    ensures OnesSum(h, buf) == Folded(WordSum(h, buf))
  {
    if |buf| >= 2 {
      OnesSumIsFolded(h, buf[2..]);
      FoldedAdd(LoadWord(h, buf[0], buf[1]), WordSum(h, buf[2..]));
    }
  }

  /** Two folds are enough for any sum a signed 32-bit accumulator can hold. */
  lemma {:induction false} TwoFolds(s: nat)
    requires s < 0x8000_0000
    ensures var t := s / 0x10000 + s % 0x10000;
      (t + t / 0x10000) % 0x10000 == Folded(s)
  {
    var hi, lo := s / 0x10000, s % 0x10000;
    assert s == 0xffff * hi + (hi + lo);
    if 0 < s {
      assert hi + lo < 2 * 0xffff + 1;
      if hi + lo <= 0xffff {
        assert (s - 1) % 0xffff == hi + lo - 1;
      } else {
        assert s - 1 == 0xffff * (hi + 1) + (hi + lo - 1 - 0xffff);
      }
    }
  }

  // ----- How long a buffer the accumulator can take

  function LargestSum(h: Host, n: nat): nat {
    n / 2 * 0xffff + if n % 2 == 0 then 0 else LoadWord(h, 255, 0)
  }

  lemma {:induction false} LargestStep(h: Host, n: nat)
    requires 2 <= n
    ensures LargestSum(h, n) == 0xffff + LargestSum(h, n - 2)
  {
    assert n / 2 == (n - 2) / 2 + 1 && n % 2 == (n - 2) % 2;
  }

  lemma {:induction false} WordSumAtMost(h: Host, buf: seq<Byte>)
    ensures WordSum(h, buf) <= LargestSum(h, |buf|)
  {
    if |buf| >= 2 {
      WordSumAtMost(h, buf[2..]);
      LargestStep(h, |buf|);
    }
  }

  lemma {:induction false} WordSumOfOnes(h: Host, n: nat)
    ensures WordSum(h, seq(n, _ => 255)) == LargestSum(h, n)
  {
    if n >= 2 {
      WordSumOfOnes(h, n - 2);
      LargestStep(h, n);
      assert seq<Byte>(n, _ => 255)[2..] == seq(n - 2, _ => 255);
    }
  }

  /** The accumulator cannot overflow exactly on lengths up to 65537 bytes (65536 on a big-endian
      host, where an odd byte counts 256 times as much). */
  lemma {:induction false} OverflowFreeLengths(h: Host, n: nat)
    ensures (forall buf: seq<Byte> :: |buf| == n ==> WordSum(h, buf) < 0x8000_0000) <==>
            n <= if h.Little? then 0x10001 else 0x10000
  {
    var longest := if h.Little? then 0x10001 else 0x10000;
    if n <= longest {
      forall buf: seq<Byte> | |buf| == n ensures WordSum(h, buf) < 0x8000_0000 {
        WordSumAtMost(h, buf);
      }
    } else {
      WordSumOfOnes(h, n);
      var ones: seq<Byte> := seq(n, _ => 255);
      assert |ones| == n && WordSum(h, ones) >= 0x8000_0000;
    }
  }

  /** `in_cksum`.  `Int32` makes every addition to `sum` an overflow check. */
  method InCksum(h: Host, buf: seq<Byte>) returns (answer: nat)
    requires |buf| <= 0x10000
    ensures answer == Cksum(h, buf)
  {
    var nleft, w := |buf|, 0;
    var sum: Int32 := 0;
    while nleft > 1
      invariant 0 <= w && w + nleft == |buf| && w % 2 == 0 && 0 <= nleft
      invariant 0 <= sum as int <= w / 2 * 0xffff
      invariant sum as int + WordSum(h, buf[w..]) == WordSum(h, buf)
    {
      assert buf[w..][2..] == buf[w + 2..];
      sum := sum + LoadWord(h, buf[w], buf[w + 1]) as Int32;
      w, nleft := w + 2, nleft - 2;
    }
    if nleft == 1 {
      sum := sum + LoadWord(h, buf[w], 0) as Int32;
    }
    assert sum as int == WordSum(h, buf);
    TwoFolds(sum as int);
    OnesSumIsFolded(h, buf);
    sum := sum / 0x10000 + sum % 0x10000;
    sum := sum + sum / 0x10000;
    answer := 0xffff - sum as int % 0x10000;  // the complement, truncated to 16 bits
  }

  // ----- What the checksum is for

  lemma {:induction false} WordSumUpdate(h: Host, buf: seq<Byte>, k: nat, v: nat)
    requires k % 2 == 0 && k + 2 <= |buf| && buf[k] == buf[k + 1] == 0 && v < 0x10000
    ensures var b := StoreWord(h, v);
      WordSum(h, buf[k := b[0]][k + 1 := b[1]]) == WordSum(h, buf) + v
  {
    var b := StoreWord(h, v);
    var updated := buf[k := b[0]][k + 1 := b[1]];
    if k == 0 {
      assert updated[2..] == buf[2..];
    } else {
      assert updated[2..] == buf[2..][k - 2 := b[0]][k - 1 := b[1]];
      WordSumUpdate(h, buf[2..], k - 2, v);
    }
  }

  /** A buffer whose zeroed checksum field receives its checksum has checksum zero. */
  lemma {:induction false} ChecksumVerifies(h: Host, buf: seq<Byte>, k: nat)
    requires k % 2 == 0 && k + 2 <= |buf| && buf[k] == buf[k + 1] == 0
    ensures var b := StoreWord(h, Cksum(h, buf));
      Cksum(h, buf[k := b[0]][k + 1 := b[1]]) == 0
  {
    var c := Cksum(h, buf);
    var b := StoreWord(h, c);
    var sent := buf[k := b[0]][k + 1 := b[1]];
    WordSumUpdate(h, buf, k, c);
    OnesSumIsFolded(h, buf);
    OnesSumIsFolded(h, sent);
    FoldedAdd(c, WordSum(h, buf));
  }

  function Swapped(v: nat): (r: nat)
    requires v < 0x10000
    ensures r < 0x10000
  {
    v % 256 * 256 + v / 256
  }

  lemma {:induction false} SwappedParts(hi: nat, lo: nat)
    requires hi < 256 && lo < 256
    ensures Swapped(256 * hi + lo) == 256 * lo + hi
  {}

  lemma {:induction false} ComplementsSwapped(s: nat, t: nat, c: nat, d: nat)
    requires s < 0x10000 && t == Swapped(s) && c == 0xffff - s && d == 0xffff - t
    ensures d == Swapped(c)
  {
    SwappedParts(255 - s / 256, 255 - s % 256);
  }

  /** One's-complement addition does not care which byte of a word comes first. */
  lemma {:induction false} OnesAddParts(a1: Byte, a0: Byte, b1: Byte, b0: Byte) returns (r1: Byte, r0: Byte)
    ensures OnesAdd(256 * a1 + a0, 256 * b1 + b0) == 256 * r1 + r0
    ensures OnesAdd(256 * a0 + a1, 256 * b0 + b1) == 256 * r0 + r1
  {
    var hi, lo := a1 + b1, a0 + b0;
    if hi < 256 && lo < 256 {
      r1, r0 := hi, lo;
    } else if hi < 255 {
      r1, r0 := hi + 1, lo - 256;
    } else if lo < 255 {
      r1, r0 := hi - 256, lo + 1;
    } else {
      r1, r0 := hi - 255, lo - 255;
    }
  }

  lemma {:induction false} OnesAddSwapped(a: nat, b: nat)
    requires a < 0x10000 && b < 0x10000
    ensures OnesAdd(Swapped(a), Swapped(b)) == Swapped(OnesAdd(a, b))
  {
    var r1, r0 := OnesAddParts(a / 256, a % 256, b / 256, b % 256);
    SwappedParts(r1, r0);
  }

  lemma {:induction false} OnesSumSwapped(buf: seq<Byte>)
    ensures OnesSum(Big, buf) == Swapped(OnesSum(Little, buf))
  {
    if |buf| == 1 {
      SwappedParts(0, buf[0]);
    } else if |buf| >= 2 {
      OnesSumSwapped(buf[2..]);
      SwappedParts(buf[1], buf[0]);
      OnesAddSwapped(LoadWord(Little, buf[0], buf[1]), OnesSum(Little, buf[2..]));
    }
  }

  /** Byte-order independence: both kinds of host put the same two bytes on the wire. */
  lemma {:induction false} SameBytesOnEveryHost(buf: seq<Byte>)
    ensures StoreWord(Big, Cksum(Big, buf)) == StoreWord(Little, Cksum(Little, buf))
  {
    var c := Cksum(Little, buf);
    OnesSumSwapped(buf);
    ComplementsSwapped(OnesSum(Little, buf), OnesSum(Big, buf), c, Cksum(Big, buf));
    StoredSwapped(c);
  }

  lemma {:induction false} StoredSwapped(c: nat)
    requires c < 0x10000
    ensures StoreWord(Big, Swapped(c)) == StoreWord(Little, c)
  {
    BytePair(c % 256, c / 256);
  }

  lemma {:induction false} BytePair(hi: nat, lo: nat)
    requires lo < 256
    ensures (hi * 256 + lo) / 256 == hi && (hi * 256 + lo) % 256 == lo
  {}

  function SwapWords(buf: seq<Byte>): (r: seq<Byte>)
    requires |buf| % 2 == 0
    ensures |r| == |buf|
  {
    if buf == [] then [] else [buf[1], buf[0]] + SwapWords(buf[2..])
  }

  lemma {:induction false} LoadSwapped(h: Host, b0: Byte, b1: Byte)
    ensures LoadWord(h, b1, b0) == Swapped(LoadWord(h, b0, b1))
  {
    SwappedParts(b1, b0);
    SwappedParts(b0, b1);
  }

  lemma {:induction false} OnesSumOfSwapped(h: Host, buf: seq<Byte>)
    requires |buf| % 2 == 0
    ensures OnesSum(h, SwapWords(buf)) == Swapped(OnesSum(h, buf))
  {
    if buf != [] {
      OnesSumOfSwapped(h, buf[2..]);
      assert SwapWords(buf)[2..] == SwapWords(buf[2..]);
      LoadSwapped(h, buf[0], buf[1]);
      OnesAddSwapped(LoadWord(h, buf[0], buf[1]), OnesSum(h, buf[2..]));
    }
  }

  /** Swapping the bytes of every word swaps the bytes of the checksum. */
  lemma {:induction false} SwappingCommutes(h: Host, buf: seq<Byte>)
    requires |buf| % 2 == 0
    ensures Cksum(h, SwapWords(buf)) == Swapped(Cksum(h, buf))
  {
    OnesSumOfSwapped(h, buf);
    ComplementsSwapped(OnesSum(h, buf), OnesSum(h, SwapWords(buf)), Cksum(h, buf), Cksum(h, SwapWords(buf)));
  }
}
