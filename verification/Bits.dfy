/** Machine words and bitmaps.

A word is the sequence of its bits, least significant bit first, so that one set of
definitions serves every word width the program uses: `unsigned long` (32 or 64 bits),
the 32-bit feature blocks and the 8-bit cells of ping's duplicate table.
*/
module Bits {

  type Word = seq<bool>

  function Zero(w: nat): Word {
    seq(w, _ => false)
  }

  function One(w: nat): Word {
    seq(w, i => i == 0)
  }

  function Not(a: Word): Word {
    seq(|a|, i requires 0 <= i < |a| => !a[i])
  }

  function Or(a: Word, b: Word): Word
    requires |a| == |b|
  {
    seq(|a|, i requires 0 <= i < |a| => a[i] || b[i])
  }

  function And(a: Word, b: Word): Word
    requires |a| == |b|
  {
    seq(|a|, i requires 0 <= i < |a| => a[i] && b[i])
  }

  /** Left shift; bits shifted past the top are lost. */
  function Shl(a: Word, k: nat): Word {
    seq(|a|, i requires 0 <= i < |a| => k <= i && a[i - k])
  }

  predicate IsZero(a: Word) {
    forall i :: 0 <= i < |a| ==> !a[i]
  }

  /** The word widths in use. */
  predicate Width(w: nat) {
    w == 8 || w == 32 || w == 64
  }

  /** `nr / w`, for a constant width. */
  function Quot(nr: nat, w: nat): nat
    requires Width(w)
  {
    if w == 8 then nr / 8 else if w == 32 then nr / 32 else nr / 64
  }

  /** `nr % w`, for a constant width. */
  function Rem(nr: nat, w: nat): (r: nat)
    requires Width(w)
    ensures r < w
  {
    if w == 8 then nr % 8 else if w == 32 then nr % 32 else nr % 64
  }

  /** `addr` is an array of words that are all `w` bits wide. */
  predicate WellFormed(addr: seq<Word>, w: nat) {
    Width(w) && forall k :: 0 <= k < |addr| ==> |addr[k]| == w
  }

  /** Location `nr` lies in the bitmap. */
  predicate InRange(addr: seq<Word>, w: nat, nr: nat)
    requires Width(w)
  {
    Quot(nr, w) < |addr|
  }

  /** What a bitmap means: the set of locations whose bit is set. */
  predicate Has(addr: seq<Word>, w: nat, nr: nat)
    requires WellFormed(addr, w)
  {
    InRange(addr, w, nr) && addr[Quot(nr, w)][Rem(nr, w)]
  }

  /** The word `1 << (Rem(nr, w))`. */
  function BitMask(w: nat, nr: nat): Word
    requires Width(w)
  {
    Shl(One(w), Rem(nr, w))
  }

  function SetIn(addr: seq<Word>, w: nat, nr: nat): (r: seq<Word>)
    requires WellFormed(addr, w) && InRange(addr, w, nr)
    ensures WellFormed(r, w) && |r| == |addr|
  {
    addr[Quot(nr, w) := Or(addr[Quot(nr, w)], BitMask(w, nr))]
  }

  function ClearIn(addr: seq<Word>, w: nat, nr: nat): (r: seq<Word>)
    requires WellFormed(addr, w) && InRange(addr, w, nr)
    ensures WellFormed(r, w) && |r| == |addr|
  {
    addr[Quot(nr, w) := And(addr[Quot(nr, w)], Not(BitMask(w, nr)))]
  }

  predicate TestIn(addr: seq<Word>, w: nat, nr: nat)
    requires WellFormed(addr, w) && InRange(addr, w, nr)
  {
    !IsZero(And(BitMask(w, nr), addr[Quot(nr, w)]))
  }

  method SetBit(nr: nat, addr: array<Word>, w: nat)
    requires WellFormed(addr[..], w) && InRange(addr[..], w, nr)
    modifies addr
    ensures WellFormed(addr[..], w)
    ensures forall i: nat :: Has(addr[..], w, i) <==> i == nr || Has(old(addr[..]), w, i)
  {
    addr[Quot(nr, w)] := Or(addr[Quot(nr, w)], BitMask(w, nr));
    assert addr[..] == SetIn(old(addr[..]), w, nr);
    SetInMeaning(old(addr[..]), w, nr);
  }

  method ClearBit(nr: nat, addr: array<Word>, w: nat)
    requires WellFormed(addr[..], w) && InRange(addr[..], w, nr)
    modifies addr
    ensures WellFormed(addr[..], w)
    ensures forall i: nat :: Has(addr[..], w, i) <==> i != nr && Has(old(addr[..]), w, i)
  {
    addr[Quot(nr, w)] := And(addr[Quot(nr, w)], Not(BitMask(w, nr)));
    assert addr[..] == ClearIn(old(addr[..]), w, nr);
    ClearInMeaning(old(addr[..]), w, nr);
  }

  method TestBit(nr: nat, addr: array<Word>, w: nat) returns (isSet: bool)
    requires WellFormed(addr[..], w) && InRange(addr[..], w, nr)
    ensures isSet <==> Has(addr[..], w, nr)
  {
    isSet := !IsZero(And(BitMask(w, nr), addr[Quot(nr, w)]));
    TestInMeaning(addr[..], w, nr);
  }

  /** `set_bit` adds exactly its location to the set the bitmap stands for. */
  lemma {:induction false} SetInMeaning(addr: seq<Word>, w: nat, nr: nat)
    requires WellFormed(addr, w) && InRange(addr, w, nr)
    ensures forall i: nat :: Has(SetIn(addr, w, nr), w, i) <==> i == nr || Has(addr, w, i)
  {}

  /** `clear_bit` removes exactly its location. */
  lemma {:induction false} ClearInMeaning(addr: seq<Word>, w: nat, nr: nat)
    requires WellFormed(addr, w) && InRange(addr, w, nr)
    ensures forall i: nat :: Has(ClearIn(addr, w, nr), w, i) <==> i != nr && Has(addr, w, i)
  {}

  /** `test_bit` is membership. */
  lemma {:induction false} TestInMeaning(addr: seq<Word>, w: nat, nr: nat)
    requires WellFormed(addr, w) && InRange(addr, w, nr)
    ensures TestIn(addr, w, nr) <==> Has(addr, w, nr)
  {
    assert And(BitMask(w, nr), addr[Quot(nr, w)])[Rem(nr, w)] == addr[Quot(nr, w)][Rem(nr, w)];
  }
}
