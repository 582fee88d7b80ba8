/** Hexadecimal printing of bit fields that need not be aligned, as the Solarflare register
dump does it: `width` bits starting at bit `lbn` of a little-endian buffer.
*/
module FieldPrinter {
  import opened Arithmetic
  import opened Machine

  function Pow2(n: nat): (r: nat)
    ensures 0 < r
  {
    if n == 0 then 1 else 2 * Pow2(n - 1)
  }

  /** The buffer as one little-endian number. */
  function Value(buf: seq<Byte>): nat {
    if buf == [] then 0 else buf[0] + 256 * Value(buf[1..])
  }

  /** The field: `width` bits of the buffer from bit `lbn` up. */
  function Field(buf: seq<Byte>, lbn: nat, width: nat): nat {
    Value(buf) / Pow2(lbn) % Pow2(width)
  }

  /** What a string of hexadecimal digits denotes, most significant first. */
  function HexValue(digits: seq<nat>): nat {
    if digits == [] then 0
    else 16 * HexValue(digits[..|digits| - 1]) + digits[|digits| - 1]
  }

  lemma {:induction false} Pow2Add(a: nat, b: nat)
    ensures Pow2(a + b) == Pow2(a) * Pow2(b)
  {
    if a != 0 {
      Pow2Add(a - 1, b);
    }
  }

  lemma {:induction false} Pow2Values()
    ensures Pow2(4) == 16 && Pow2(8) == 256 && Pow2(16) == 65536
  {}

  /** Bits at `a` and above do not reach a window that ends at or below `a`. */
  lemma {:induction false} WindowBelow(x: nat, y: nat, a: nat, s: nat, sig: nat)
    requires s + sig <= a
    ensures (x + Pow2(a) * y) / Pow2(s) % Pow2(sig) == x / Pow2(s) % Pow2(sig)
  {
    PowSplit(s, sig, a - s - sig);
    MultipleBelow(x, Pow2(a), Pow2(s), Pow2(sig), Pow2(a - s - sig), y);
  }

  lemma {:induction false} PowSplit(a: nat, b: nat, c: nat)
    ensures Pow2(a + b + c) == Pow2(a) * (Pow2(b) * Pow2(c))
  {
    Pow2Add(a, b + c);
    Pow2Add(b, c);
  }

  lemma {:induction false} MultipleBelow(x: nat, p: nat, c: nat, d: nat, e: nat, y: nat)
    requires 0 < c && 0 < d && p == c * (d * e)
    ensures (x + p * y) / c % d == x / c % d
  {
    var z := e * y;
    assert p * y == c * (d * z);
    DivMulAdd(x, c, d * z);
    DivMulAdd(x / c, d, z);
  }

  lemma {:induction false} DropBytes(buf: seq<Byte>, k: nat)
    requires k <= |buf|
    ensures Value(buf) / Pow2(8 * k) == Value(buf[k..])
  {
    if k == 0 {
      assert buf[0..] == buf;
    } else {
      DropBytes(buf[1..], k - 1);
      assert buf[1..][k - 1..] == buf[k..];
      Pow2Add(8, 8 * (k - 1));
      Pow2Values();
      DropByte(buf[0], Value(buf[1..]), Pow2(8 * (k - 1)));
    }
  }

  lemma {:induction false} DropByte(b: Byte, v: nat, p: nat)
    requires 0 < p
    ensures (b + 256 * v) / (256 * p) == v / p
  {
    DivModTwice(b + 256 * v, 256, p);
  }

  lemma {:induction false} HexSnoc(digits: seq<nat>, d: nat)
    ensures HexValue(digits + [d]) == 16 * HexValue(digits) + d
  {}

  /** The one or two bytes the code combines before it shifts. */
  function Fetched(buf: seq<Byte>, left: nat, sig: nat): nat
    requires 1 <= sig <= 4 && left + sig <= 8 * |buf|
  {
    var low: nat := buf[left / 8];
    if left % 8 + sig > 8 then low + 256 * (buf[left / 8 + 1] as nat) else low
  }

  /** A digit cut from the fetched bytes is a digit of the whole buffer. */
  lemma {:induction false} DigitOfBuffer(buf: seq<Byte>, left: nat, sig: nat)
    requires 1 <= sig <= 4 && left + sig <= 8 * |buf|
    ensures Fetched(buf, left, sig) / Pow2(left % 8) % Pow2(sig) == Field(buf, left, sig)
  {
    var k, s := left / 8, left % 8;
    var tail := buf[k..];
    Pow2Add(8 * k, s);
    DivModTwice(Value(buf), Pow2(8 * k), Pow2(s));
    DropBytes(buf, k);
    Pow2Values();
    assert tail[1..] == buf[k + 1..];
    if s + sig > 8 {
      assert Value(tail) == Fetched(buf, left, sig) + 65536 * Value(tail[1..][1..]);
      WindowBelow(Fetched(buf, left, sig), Value(tail[1..][1..]), 16, s, sig);
    } else {
      WindowBelow(buf[k], Value(tail[1..]), 8, s, sig);
    }
  }

  /** Appending the next four bits as a hexadecimal digit. */
  lemma {:induction false} NextDigit(buf: seq<Byte>, left: nat, e: nat)
    ensures Field(buf, left, e + 4) == 16 * Field(buf, left + 4, e) + Field(buf, left, 4)
  {
    Pow2Values();
    Pow2Add(left, 4);
    Pow2Add(4, e);
    SplitSixteen(Value(buf), Pow2(left), Pow2(e));
  }

  lemma {:induction false} SplitSixteen(v: nat, d: nat, p: nat)
    requires 0 < d && 0 < p
    ensures v / d % (16 * p) == 16 * (v / (d * 16) % p) + v / d % 16
  {
    DivModTwice(v, d, 16);
    DivModTwice(v / d, 16, p);
  }

  // ----- The same field without division by powers

  function Shift(v: nat, k: nat): nat {
    if k == 0 then v else Shift(v / 2, k - 1)
  }

  function Low(v: nat, k: nat): nat {
    if k == 0 then 0 else v % 2 + 2 * Low(v / 2, k - 1)
  }

  function Cut(buf: seq<Byte>, lbn: nat, width: nat): nat {
    Low(Shift(Value(buf), lbn), width)
  }

  lemma {:induction false} ShiftIsDiv(v: nat, k: nat)
    ensures Shift(v, k) == v / Pow2(k)
    decreases k
  {
    if k != 0 {
      ShiftIsDiv(v / 2, k - 1);
      DivModTwice(v, 2, Pow2(k - 1));
    }
  }

  lemma {:induction false} LowIsMod(v: nat, k: nat)
    ensures Low(v, k) == v % Pow2(k)
    decreases k
  {
    if k != 0 {
      LowIsMod(v / 2, k - 1);
      DivModTwice(v, 2, Pow2(k - 1));
    }
  }

  lemma {:induction false} CutIsField(buf: seq<Byte>, lbn: nat, width: nat)
    ensures Cut(buf, lbn, width) == Field(buf, lbn, width)
  {
    ShiftIsDiv(Value(buf), lbn);
    LowIsMod(Shift(Value(buf), lbn), width);
  }

  // ----- The printer

  /** The byte holds a bit of the field. */
  ghost predicate HoldsFieldBit(lbn: nat, width: nat, k: nat) {
    exists b :: lbn <= b < lbn + width && b / 8 == k
  }

  /** Every read of the buffer: only a byte that holds a bit of the field may be read. */
  method ReadByte(buf: seq<Byte>, k: nat, ghost lbn: nat, ghost width: nat) returns (b: Byte)
    requires k < |buf| && HoldsFieldBit(lbn, width, k)
    ensures b == buf[k]
  {
    b := buf[k];
  }

  /** The body of the loop: one digit of `sigBits` bits from bit `left` up, all of them in the field. */
  method Digit(buf: seq<Byte>, left: nat, sigBits: nat, ghost lbn: nat, ghost width: nat) returns (digit: nat)
    requires 1 <= sigBits <= 4 && lbn <= left && left + sigBits <= lbn + width <= 8 * |buf|
    ensures digit == Cut(buf, left, sigBits) && digit < 16
  {
    assert lbn <= left < lbn + width;
    var low := ReadByte(buf, left / 8, lbn, width);
    digit := low;
    if left % 8 + sigBits > 8 {
      assert (left + sigBits - 1) / 8 == left / 8 + 1;
      var high := ReadByte(buf, left / 8 + 1, lbn, width);
      digit := digit + high as nat * 256;  // the operands of | share no bits
    }
    assert digit == Fetched(buf, left, sigBits);
    digit := digit / Pow2(left % 8) % Pow2(sigBits);
    DigitOfBuffer(buf, left, sigBits);
    CutIsField(buf, left, sigBits);
    DigitSmall(digit, sigBits);
  }

  /** The digits denote the `e` bits from bit `left` up. */
  ghost predicate Denotes(digits: seq<nat>, buf: seq<Byte>, left: nat, e: nat) {
    HexValue(digits) == Cut(buf, left, e) && forall k :: 0 <= k < |digits| ==> digits[k] < 16
  }

  /** `print_field_value` */
  method PrintFieldValue(lbn: nat, width: nat, buf: seq<Byte>) returns (digits: seq<nat>)
    requires lbn + width <= 8 * |buf|
    ensures |digits| == (width + 3) / 4 && forall k :: 0 <= k < |digits| ==> digits[k] < 16
    ensures HexValue(digits) == Field(buf, lbn, width)
  {
    digits := [];
    var right := lbn;
    var left: nat := right + (width + 3) / 4 * 4;
    var sigBits := if width % 4 != 0 then width % 4 else 4;
    ghost var n, e := (width + 3) / 4, 0;  // digits to print, field bits printed
    TopDigit(width, n, sigBits);
    NoDigits(buf, left);
    while left > right
      invariant |digits| <= n && left == right + 4 * (n - |digits|)
      invariant if digits == [] then e == 0 && (0 < n ==> left - 4 + sigBits == lbn + width)
                else sigBits == 4 && left + e == lbn + width
      invariant 1 <= sigBits <= 4
      invariant Denotes(digits, buf, left, e)
      decreases left
    {
      left := left - 4;
      var digit := Digit(buf, left, sigBits, lbn, width);
      Appended(buf, digits, digit, left, e, sigBits);
      digits, e := digits + [digit], e + sigBits;
      sigBits := 4;
    }
    CutIsField(buf, lbn, width);
  }

  lemma {:induction false} TopDigit(width: nat, n: nat, sigBits: nat)
    requires n == (width + 3) / 4 && sigBits == if width % 4 != 0 then width % 4 else 4
    ensures (n == 0 <==> width == 0) && (0 < n ==> 4 * n - 4 + sigBits == width)
  {}

  lemma {:induction false} NoDigits(buf: seq<Byte>, left: nat)
    ensures Denotes([], buf, left, 0)
  {}

  /** One more digit of the field. */
  lemma {:induction false} Appended(buf: seq<Byte>, digits: seq<nat>, digit: nat, left: nat, e: nat, sigBits: nat)
    requires digit == Cut(buf, left, sigBits) && digit < 16 && Denotes(digits, buf, left + 4, e)
    requires if digits == [] then e == 0 else sigBits == 4
    ensures Denotes(digits + [digit], buf, left, e + sigBits)
  {
    HexSnoc(digits, digit);
    if digits != [] {
      NextDigit(buf, left, e);
      CutIsField(buf, left, e + 4);
      CutIsField(buf, left + 4, e);
      CutIsField(buf, left, 4);
    }
  }

  /** Buffers that agree on the bytes that hold bits of a field have the same field, so the digits
      depend on no other byte. */
  lemma {:induction false} FieldDepends(a: seq<Byte>, b: seq<Byte>, lbn: nat, width: nat)
    requires lbn + width <= 8 * |a| && lbn + width <= 8 * |b|
    requires forall k: nat :: k < |a| && k < |b| && HoldsFieldBit(lbn, width, k) ==> a[k] == b[k]
    ensures Field(a, lbn, width) == Field(b, lbn, width)
    decreases width
  {
    if 0 < width {
      var sig := if width < 4 then width else 4;
      FirstDigitDepends(a, b, lbn, width, sig);
      if 4 < width {
        forall k: nat | k < |a| && k < |b| && HoldsFieldBit(lbn + 4, width - 4, k) ensures a[k] == b[k] {
          var t :| lbn + 4 <= t < lbn + width && t / 8 == k;
          assert HoldsFieldBit(lbn, width, k);
        }
        FieldDepends(a, b, lbn + 4, width - 4);
        NextDigit(a, lbn, width - 4);
        NextDigit(b, lbn, width - 4);
      }
    }
  }

  lemma {:induction false} FirstDigitDepends(a: seq<Byte>, b: seq<Byte>, lbn: nat, width: nat, sig: nat)
    requires 1 <= sig <= 4 && sig <= width && lbn + width <= 8 * |a| && lbn + width <= 8 * |b|
    requires forall k: nat :: k < |a| && k < |b| && HoldsFieldBit(lbn, width, k) ==> a[k] == b[k]
    ensures Field(a, lbn, sig) == Field(b, lbn, sig)
  {
    DigitOfBuffer(a, lbn, sig);
    DigitOfBuffer(b, lbn, sig);
    assert HoldsFieldBit(lbn, width, lbn / 8);
    if lbn % 8 + sig > 8 {
      assert (lbn + sig - 1) / 8 == lbn / 8 + 1;
      assert HoldsFieldBit(lbn, width, lbn / 8 + 1);
    }
  }

  lemma {:induction false} DigitSmall(digit: nat, sig: nat)
    requires 1 <= sig <= 4 && digit < Pow2(sig)
    ensures digit < 16
  {}
}
