/** The rule-slot allocator that `ethtool -N` uses when the driver cannot pick a location
itself: a bitmap of taken locations, searched from the end of the table for a free one.
Locations are `__u32` and wrap below zero; the bitmap is made of `unsigned long` words of
`w` bits, with `w` 32 or 64.
*/
module RuleManager {
  import opened Bits
  import opened Machine
  import opened Wrappers

  /** Reply to ETHTOOL_GRXCLSRLCNT. */
  datatype CountReply = CountReply(err: int, ruleCount: nat, data: nat)

  /** Reply to ETHTOOL_GRXCLSRLALL. */
  datatype ListReply = ListReply(err: int, data: nat, ruleLocs: seq<nat>)

  /** `data & RX_CLS_LOC_SPECIAL` is not zero. */
  predicate DriverSelects(info: CountReply) {
    info.data / 0x8000_0000 % 2 == 1
  }

  lemma {:induction false} SelectsByTopBit(info: CountReply)
    ensures DriverSelects(info) <==> 0x8000_0000 <= info.data % U32
  {}

  /** The replies make sense: the requests succeeded and every rule lies inside the table. */
  predicate RepliesUsable(info: CountReply, list: ListReply) {
    && 0 <= info.err
    && (DriverSelects(info) || (
          && 0 <= list.err
          && 0 < list.data % U32
          && info.ruleCount <= list.data % U32
          && forall k :: 0 <= k < |list.ruleLocs| ==> list.ruleLocs[k] < list.data % U32))
  }

  /** The replies lead to a bitmap. */
  predicate UsesBitmap(info: CountReply, list: ListReply) {
    0 <= info.err && !DriverSelects(info) && 0 <= list.err && 0 < list.data % U32 && info.ruleCount <= list.data % U32
  }

  // ----- The reference: a plain scan for the highest free location

  /** The highest location below `n` whose bit is clear. */
  function HighestFree(addr: seq<Word>, w: nat, n: nat): (r: Option<nat>)
    requires WellFormed(addr, w)
    ensures r.Some? ==> r.value < n
  {
    if n == 0 then None
    else if !Has(addr, w, n - 1) then Some(n - 1)
    else HighestFree(addr, w, n - 1)
  }

  /** The scan finds a free location with nothing free above it, and fails only on a full table. */
  lemma {:induction false} HighestFreeIsHighest(addr: seq<Word>, w: nat, n: nat)
    requires WellFormed(addr, w)
    ensures var r := HighestFree(addr, w, n);
      && (r.Some? ==> r.value < n && !Has(addr, w, r.value))
      && (forall i: nat :: i < n && (r.Some? ==> r.value < i) ==> Has(addr, w, i))
  {
    if n != 0 {
      HighestFreeIsHighest(addr, w, n - 1);
    }
  }

  /** Locations `n..m` that are all taken do not matter to the scan. */
  lemma {:induction false} SkipTaken(addr: seq<Word>, w: nat, n: nat, m: nat)
    requires WellFormed(addr, w) && n <= m
    requires forall i :: n <= i < m ==> Has(addr, w, i)
    ensures HighestFree(addr, w, m) == HighestFree(addr, w, n)
    decreases m
  {
    if n < m {
      SkipTaken(addr, w, n, m - 1);
    }
  }

  /** The table ends on a word boundary and the lowest location of its last word is taken. */
  predicate SkipsLastWord(addr: seq<Word>, w: nat, size: nat)
    requires WellFormed(addr, w)
  {
    w <= size && Rem(size, w) == 0 && Has(addr, w, size - w)
  }

  /** What `rmgr_find_empty_slot` computes. */
  function Search(addr: seq<Word>, w: nat, size: nat): Option<nat>
    requires WellFormed(addr, w)
  {
    HighestFree(addr, w, if SkipsLastWord(addr, w, size) then size - w else size)
  }

  /** The search agrees with the plain scan except when it skips a last word that has room. */
  lemma {:induction false} SearchIsScan(addr: seq<Word>, w: nat, size: nat)
    requires WellFormed(addr, w)
    ensures Search(addr, w, size) == HighestFree(addr, w, size) <==>
      !(SkipsLastWord(addr, w, size) && exists i :: size - w <= i < size && !Has(addr, w, i))
  {
    if SkipsLastWord(addr, w, size) {
      if i :| size - w <= i < size && !Has(addr, w, i) {
        HighestFreeIsHighest(addr, w, size);
      } else {
        SkipTaken(addr, w, size - w, size);
      }
    }
  }

  /** The smallest table that shows the difference: one word, only location 0 taken.  The search
      reports a full table while every other location is free. */
  lemma {:induction false} SearchMissesFreeSlots(w: nat)
    requires w == 32 || w == 64
    ensures var addr := SetIn([Zero(w)], w, 0);
      Search(addr, w, w) == None && HighestFree(addr, w, w) == Some(w - 1)
  {}

  // ----- Rules that the search placed itself

  /** The scan and the search in terms of the set of taken locations. */
  function HighestOutside(taken: set<nat>, n: nat): Option<nat> {
    if n == 0 then None else if n - 1 !in taken then Some(n - 1) else HighestOutside(taken, n - 1)
  }

  function SearchOutside(taken: set<nat>, w: nat, size: nat): Option<nat>
    requires Width(w)
  {
    HighestOutside(taken, if w <= size && Rem(size, w) == 0 && size - w in taken then size - w else size)
  }

  lemma {:induction false} ScanOfSet(addr: seq<Word>, w: nat, n: nat, taken: set<nat>)
    requires WellFormed(addr, w) && forall i: nat :: Has(addr, w, i) <==> i in taken
    ensures HighestFree(addr, w, n) == HighestOutside(taken, n)
  {
    if n != 0 {
      ScanOfSet(addr, w, n - 1, taken);
    }
  }

  lemma {:induction false} SearchOfSet(addr: seq<Word>, w: nat, size: nat, taken: set<nat>)
    requires WellFormed(addr, w) && forall i: nat :: Has(addr, w, i) <==> i in taken
    ensures Search(addr, w, size) == SearchOutside(taken, w, size)
  {
    ScanOfSet(addr, w, if SkipsLastWord(addr, w, size) then size - w else size, taken);
  }

  /** The taken locations after `n` insertions into an empty table, each where the search finds room. */
  function Inserted(w: nat, size: nat, n: nat): set<nat>
    requires Width(w)
  {
    if n == 0 then {}
    else
      var before := Inserted(w, size, n - 1);
      var found := SearchOutside(before, w, size);
      if found.None? then before else before + {found.value}
  }

  lemma {:induction false} ScanFromTop(taken: set<nat>, m: nat, n: nat)
    requires m <= n && (forall i :: m <= i < n ==> i in taken) && (0 < m ==> m - 1 !in taken)
    ensures HighestOutside(taken, n) == if m == 0 then None else Some(m - 1)
    decreases n
  {
    if m < n {
      ScanFromTop(taken, m, n - 1);
    }
  }

  /** Exactly the locations from `m` on are taken. */
  ghost predicate TakenFrom(taken: set<nat>, size: nat, m: nat) {
    m <= size && forall i: nat :: i in taken <==> m <= i < size
  }

  /** Then nothing is missed: a last word that is skipped is full. */
  lemma {:induction false} SearchFromTop(taken: set<nat>, w: nat, size: nat, m: nat)
    requires Width(w) && TakenFrom(taken, size, m)
    ensures SearchOutside(taken, w, size) == HighestOutside(taken, size) == if m == 0 then None else Some(m - 1)
  {
    ScanFromTop(taken, m, size);
    if w <= size && Rem(size, w) == 0 && size - w in taken {
      ScanFromTop(taken, m, size - w);
    }
  }

  /** From an empty table on, the search never misses a free location: the insertions fill the table
      from its end, and only a full table is reported as full. */
  lemma {:induction false} InsertionsFill(w: nat, size: nat, n: nat)
    requires Width(w)
    ensures TakenFrom(Inserted(w, size, n), size, if n < size then size - n else 0)
    ensures SearchOutside(Inserted(w, size, n), w, size) == if n < size then Some(size - 1 - n) else None
  {
    if n != 0 {
      InsertionsFill(w, size, n - 1);
      SearchFromTop(Inserted(w, size, n - 1), w, size, if n - 1 < size then size - (n - 1) else 0);
    }
    SearchFromTop(Inserted(w, size, n), w, size, if n < size then size - n else 0);
  }

  // ----- Words against locations

  /** `~1UL << k` selects the bits above `k`, so the guard asks for bits 0..k to be set. */
  lemma {:induction false} MaskedWordFull(word: Word, k: nat)
    requires k < |word|
    ensures IsZero(Not(Or(word, Shl(Not(One(|word|)), k)))) <==> forall b :: 0 <= b <= k ==> word[b]
  {
    var masked := Or(word, Shl(Not(One(|word|)), k));
    assert forall b :: 0 <= b < |word| ==> (Not(masked)[b] <==> b <= k && !word[b]);
  }

  lemma {:induction false} WordFull(word: Word)
    ensures IsZero(Not(word)) <==> forall b :: 0 <= b < |word| ==> word[b]
  {
    assert forall b :: 0 <= b < |word| ==> Not(word)[b] == !word[b];
  }

  /** Bit `b` of word `q` is location `q * w + b`. */
  lemma {:induction false} LocationOf(addr: seq<Word>, w: nat, q: nat, b: nat)
    requires (w == 32 || w == 64) && WellFormed(addr, w) && q < |addr| && b < w
    ensures Has(addr, w, q * w + b) <==> addr[q][b]
  {}

  lemma {:induction false} FullWordTaken(addr: seq<Word>, w: nat, q: nat)
    requires (w == 32 || w == 64) && WellFormed(addr, w) && q < |addr|
    requires forall b :: 0 <= b < w ==> addr[q][b]
    ensures forall i :: q * w <= i < q * w + w ==> Has(addr, w, i)
  {}

  /** Where the last word of a table of `size` locations starts. */
  lemma {:induction false} LastWord(size: nat, w: nat, words: nat)
    requires (w == 32 || w == 64) && 0 < size <= words * w && size < U32
    ensures Quot(size - 1, w) < words && Quot(size - 1, w) < U32
    ensures Rem(size, w) == 0 ==> w <= size && Quot(size - 1, w) * w == size - w
    ensures Rem(size, w) != 0 ==> Quot(size - 1, w) * w + Rem(size, w) == size
    ensures size - 1 - (1 + Rem(size - 1, w)) == Quot(size - 1, w) * w - 1
  {
    if w == 32 {
    } else {
    }
  }

  /** The word before the last of a table that ends on a word boundary. */
  lemma {:induction false} WordBefore(n: nat, w: nat)
    requires (w == 32 || w == 64) && 0 < n && Rem(n, w) == 0
    ensures w <= n && Rem(n - w, w) == 0 && Quot(n - 1, w) * w == n - w
    ensures w < n ==> Quot(n - w - 1, w) == Quot(n - 1, w) - 1
  {
    if w == 32 {
      WordBefore32(n);
    } else {
      WordBefore64(n);
    }
  }

  lemma {:induction false} WordBefore32(n: nat)
    requires 0 < n && n % 32 == 0
    ensures 32 <= n && (n - 32) % 32 == 0 && (n - 1) / 32 * 32 == n - 32
    ensures 32 < n ==> (n - 33) / 32 == (n - 1) / 32 - 1
  {}

  lemma {:induction false} WordBefore64(n: nat)
    requires 0 < n && n % 64 == 0
    ensures 64 <= n && (n - 64) % 64 == 0 && (n - 1) / 64 * 64 == n - 64
    ensures 64 < n ==> (n - 65) / 64 == (n - 1) / 64 - 1
  {}

  lemma {:induction false} LastOffset(size: nat, w: nat)
    requires (w == 32 || w == 64) && 0 < size && Rem(size, w) == 0
    ensures Rem(size - 1, w) == w - 1
  {}

  /** Stepping one word back, with the wrap-around of `loc` and `slot_num`. */
  lemma {:induction false} StepBack(n: nat, w: nat)
    requires (w == 32 || w == 64) && 0 < n < U32 && Rem(n, w) == 0
    ensures w <= n
    ensures (n - 1 - w) % U32 == if n == w then U32 - 1 else n - w - 1
    ensures w < n ==> (Quot(n - 1, w) - 1) % U32 == Quot(n - w - 1, w) < Quot(n - 1, w)
  {}

  lemma {:induction false} Down(loc: nat)
    requires loc < U32
    ensures (loc - 1) % U32 == if loc == 0 then U32 - 1 else loc - 1
  {}

  /** The first test: it skips the last word exactly when `SkipsLastWord` says so, and the
      last word is not full otherwise. */
  lemma {:induction false} FirstGuard(addr: seq<Word>, w: nat, size: nat)
    requires (w == 32 || w == 64) && WellFormed(addr, w) && 0 < size <= |addr| * w && size < U32
    requires forall i: nat :: Has(addr, w, i) ==> i < size
    ensures Quot(size - 1, w) < |addr|
    ensures var last := addr[Quot(size - 1, w)];
      && (IsZero(Not(Or(last, Shl(Not(One(w)), Rem(size, w))))) <==> SkipsLastWord(addr, w, size))
      && (IsZero(Not(last)) ==> SkipsLastWord(addr, w, size))
  {
    LastWord(size, w, |addr|);
    var q := Quot(size - 1, w);
    MaskedWordFull(addr[q], Rem(size, w));
    WordFull(addr[q]);
    if Rem(size, w) == 0 {
      LocationOf(addr, w, q, 0);
    } else {
      LocationOf(addr, w, q, Rem(size, w));
    }
  }

  /** The word-skipping loop steps over a full word. */
  lemma {:induction false} SkipWord(addr: seq<Word>, w: nat, n: nat)
    requires (w == 32 || w == 64) && WellFormed(addr, w) && 0 < n && Rem(n, w) == 0
    requires Quot(n - 1, w) < |addr| && IsZero(Not(addr[Quot(n - 1, w)]))
    ensures w <= n && Rem(n - w, w) == 0 && HighestFree(addr, w, n) == HighestFree(addr, w, n - w)
    ensures w < n ==> Quot(n - w - 1, w) == Quot(n - 1, w) - 1
  {
    WordBefore(n, w);
    var q := Quot(n - 1, w);
    WordFull(addr[q]);
    FullWordTaken(addr, w, q);
    SkipTaken(addr, w, n - w, n);
  }

  // ----- The size of the bitmap

  /** `BITS_TO_LONGS(nr)`, computed in `unsigned long` arithmetic. */
  function BitsToLongs(nr: nat, w: nat): nat
    requires w == 32 || w == 64
  {
    (nr + w - 1) % (if w == 32 then U32 else U64) / w
  }

  /** The bitmap has a word for every location, except where rounding up wraps a 32-bit long. */
  lemma {:induction false} BitmapCovers(size: nat, w: nat)
    requires (w == 32 || w == 64) && size < U32
    ensures size <= BitsToLongs(size, w) * w <==> w == 64 || size <= U32 - 32
  {}

  class Manager {
    const w: nat
    var driverSelect: bool
    var slot: array<Word>  // the empty array stands for NULL
    var nRules: nat
    var size: nat

    /** The bitmap has a bit for every location. */
    ghost predicate Covers()
      reads this, slot
    {
      (w == 32 || w == 64) && size < U32 && WellFormed(slot[..], w) && size <= slot.Length * w
    }

    /** No bit at or beyond `size` is ever set. */
    ghost predicate Valid()
      reads this, slot
    {
      Covers() && forall i: nat :: Has(slot[..], w, i) ==> i < size
    }

    constructor (w: nat)
      requires w == 32 || w == 64
      ensures Valid() && fresh(slot)
      ensures this.w == w && !driverSelect && nRules == 0 && size == 0
    {
      this.w := w;
      driverSelect, nRules, size := false, 0, 0;
      slot := new Word[0];
    }

    /** `rmgr_ins` */
    method Ins(loc: nat) returns (err: int)
      requires Valid()
      modifies slot
      ensures Valid()
      ensures err == if loc < size then 0 else -1
      ensures forall i: nat ::
        Has(slot[..], w, i) <==> (i == loc && loc < size) || Has(old(slot[..]), w, i)
    {
      if loc >= size {
        return -1;
      }
      InTable(loc);
      SetBit(loc, slot, w);
      return 0;
    }

    /** `loc` and `slotNum` as they are when the locations below `n` are left to look at. */
    ghost predicate At(loc: nat, slotNum: nat, n: nat)
      reads this, slot
      requires Width(w)
    {
      && n <= size
      && loc == (if n == 0 then U32 - 1 else n - 1)
      && (0 < n ==> slotNum == Quot(n - 1, w) && slotNum < slot.Length)
    }

    /** One word back. */
    lemma {:induction false} StepAt(loc: nat, slotNum: nat, n: nat)
      requires Covers() && 0 < n && At(loc, slotNum, n) && Rem(n, w) == 0
      ensures w <= n && Rem(n - w, w) == 0 && At((loc - w) % U32, (slotNum - 1) % U32, n - w)
    {
      WordBefore(n, w);
      StepBack(n, w);
    }

    /** The start of the search: the test of the last word. */
    method FirstWord() returns (loc: nat, slotNum: nat, ghost n: nat)
      requires Valid() && 0 < size
      ensures At(loc, slotNum, n)
      ensures n == if SkipsLastWord(slot[..], w, size) then size - w else size
      ensures Rem(n, w) == 0 || !IsZero(Not(slot[slotNum]))
    {
      loc, n := size - 1, size;
      slotNum := Quot(loc, w);
      FirstGuard(slot[..], w, size);
      LastWord(size, w, slot.Length);
      if IsZero(Not(Or(slot[slotNum], Shl(Not(One(w)), Rem(size, w))))) {
        LastOffset(size, w);
        StepAt(loc, slotNum, n);
        n := size - w;
        loc := (loc - (1 + Rem(loc, w))) % U32;
        slotNum := (slotNum - 1) % U32;
      }
    }

    /** The word-by-word middle of the search. */
    method SkipFullWords(startLoc: nat, startSlot: nat, ghost start: nat) returns (loc: nat, ghost n: nat)
      requires Covers() && At(startLoc, startSlot, start)
      requires Rem(start, w) == 0 || !IsZero(Not(slot[startSlot]))
      ensures n <= size && loc == if n == 0 then U32 - 1 else n - 1
      ensures HighestFree(slot[..], w, start) == HighestFree(slot[..], w, n)
    {
      var slotNum: nat := startSlot;
      loc, n := startLoc, start;
      while loc < size && IsZero(Not(slot[slotNum]))
        invariant At(loc, slotNum, n)
        invariant Rem(n, w) == 0 || !IsZero(Not(slot[slotNum]))
        invariant HighestFree(slot[..], w, start) == HighestFree(slot[..], w, n)
        decreases n
      {
        SkipWord(slot[..], w, n);
        StepAt(loc, slotNum, n);
        n := n - w;
        loc := (loc - w) % U32;
        slotNum := (slotNum - 1) % U32;
      }
    }

    /** The bit-by-bit end of the search; `n` is the number of locations left to look at. */
    method ScanBits(start: nat, ghost n: nat) returns (loc: nat)
      requires Covers() && n <= size && start == if n == 0 then U32 - 1 else n - 1
      ensures HighestFree(slot[..], w, n) == if loc < size then Some(loc) else None
    {
      loc := start;
      ghost var m := n;
      while loc < size
        invariant m <= n && loc == if m == 0 then U32 - 1 else m - 1
        invariant HighestFree(slot[..], w, n) == HighestFree(slot[..], w, m)
        decreases m
      {
        InTable(loc);
        var taken := TestBit(loc, slot, w);
        if !taken {
          break;
        }
        Down(loc);
        loc, m := (loc - 1) % U32, m - 1;
      }
    }

    lemma {:induction false} InTable(loc: nat)
      requires Covers() && loc < size
      ensures InRange(slot[..], w, loc)
    {
      LastWord(loc + 1, w, slot.Length);
    }

    /** `rmgr_find_empty_slot`; `location` is the rule's location field before and after. */
    method FindEmptySlot(location: nat) returns (err: int, newLocation: nat)
      requires Valid() && (driverSelect || 0 < size)
      modifies slot
      ensures Valid()
      ensures driverSelect ==> err == 0 && newLocation == location && slot[..] == old(slot[..])
      ensures !driverSelect ==>
        var found := Search(old(slot[..]), w, size);
        && err == (if found.Some? then 0 else -1)
        && newLocation == (if found.Some? then found.value else location)
        && forall i: nat :: Has(slot[..], w, i) <==>
             (found == Some(i)) || Has(old(slot[..]), w, i)
    {
      if driverSelect {
        return 0, location;
      }
      var loc, slotNum, n := FirstWord();
      loc, n := SkipFullWords(loc, slotNum, n);
      loc := ScanBits(loc, n);
      if loc < size {
        newLocation := loc;
        err := Ins(loc);
        return err, newLocation;
      }
      return -1, location;
    }

    /** `rmgr_init`, on the replies of the device. */
    method Init(info: CountReply, list: ListReply) returns (err: int)
      requires w == 32 || w == 64
      requires info.ruleCount < U32 && |list.ruleLocs| == info.ruleCount
      requires UsesBitmap(info, list) ==> w == 64 || list.data % U32 <= U32 - 32
      modifies this
      ensures Valid() && fresh(slot)
      ensures 0 <= err ==> driverSelect == DriverSelects(info) && (driverSelect || 0 < size)
      ensures 0 <= err && !driverSelect ==>
        && size == list.data % U32
        && forall i: nat :: Has(slot[..], w, i) <==> i in list.ruleLocs
      ensures err < 0 <==> !RepliesUsable(info, list)
    {
      driverSelect, nRules, size := false, 0, 0;
      slot := new Word[0];
      if info.err < 0 {
        return info.err;
      }
      nRules, driverSelect := info.ruleCount, DriverSelects(info);
      if driverSelect {
        return 0;
      }
      if list.err < 0 {
        return list.err;
      }
      var tableSize := list.data % U32;
      if tableSize == 0 || tableSize < nRules {
        return -1;
      }
      BitmapCovers(tableSize, w);
      size := tableSize;
      slot := new Word[BitsToLongs(size, w)](_ => Zero(w));
      forall i: nat ensures !Has(slot[..], w, i) {
      }
      err := InsAll(list.ruleLocs, list.err);
    }

    /** The loop of `rmgr_init`: insert the rules of the device, stopping at the first error. */
    method InsAll(ruleLocs: seq<nat>, replyErr: int) returns (err: int)
      requires Valid() && 0 <= replyErr && forall i: nat :: !Has(slot[..], w, i)
      modifies slot
      ensures Valid()
      ensures err < 0 <==> exists k :: 0 <= k < |ruleLocs| && size <= ruleLocs[k]
      ensures 0 <= err ==> forall i: nat :: Has(slot[..], w, i) <==> i in ruleLocs
    {
      err := replyErr;
      var i := 0;
      while i < |ruleLocs|
        invariant 0 <= i <= |ruleLocs| && 0 <= err && Valid()
        invariant forall k: nat :: Has(slot[..], w, k) <==> k in ruleLocs[..i]
        invariant forall k :: 0 <= k < i ==> ruleLocs[k] < size
      {
        err := Ins(ruleLocs[i]);
        if err < 0 {
          return;
        }
        assert ruleLocs[..i + 1] == ruleLocs[..i] + [ruleLocs[i]];
        i := i + 1;
      }
      assert ruleLocs[..i] == ruleLocs;
    }
  }

  /** The locations the search considers, in terms of the device's replies. */
  function Considered(w: nat, list: ListReply): nat
    requires Width(w)
  {
    var size := list.data % U32;
    if w <= size && Rem(size, w) == 0 && size - w in list.ruleLocs then size - w else size
  }

  /** The search on a bitmap that holds exactly the device's rules. */
  lemma {:induction false} SearchInReplies(addr: seq<Word>, w: nat, list: ListReply)
    requires WellFormed(addr, w) && forall i: nat :: Has(addr, w, i) <==> i in list.ruleLocs
    ensures var found, n := Search(addr, w, list.data % U32), Considered(w, list);
      && (found.None? <==> forall i :: 0 <= i < n ==> i in list.ruleLocs)
      && (found.Some? ==>
            && found.value < n
            && found.value !in list.ruleLocs
            && forall i :: found.value < i < n ==> i in list.ruleLocs)
  {
    var n := Considered(w, list);
    assert Search(addr, w, list.data % U32) == HighestFree(addr, w, n);
    HighestFreeIsHighest(addr, w, n);
  }

  /** `rmgr_set_location`: a chosen location replaces no existing rule and is the highest free one
      among those considered; the call fails exactly when the replies are unusable or none is free. */
  method SetLocation(w: nat, info: CountReply, list: ListReply, location: nat)
    returns (err: int, newLocation: nat)
    requires w == 32 || w == 64
    requires info.ruleCount < U32 && |list.ruleLocs| == info.ruleCount
    requires UsesBitmap(info, list) ==> w == 64 || list.data % U32 <= U32 - 32
    ensures err < 0 <==>
      || !RepliesUsable(info, list)
      || (info.data % U32 < 0x8000_0000 && forall i :: 0 <= i < Considered(w, list) ==> i in list.ruleLocs)
    ensures err < 0 || 0x8000_0000 <= info.data % U32 ==> newLocation == location
    ensures 0 <= err && info.data % U32 < 0x8000_0000 ==>
      && newLocation < Considered(w, list)
      && newLocation !in list.ruleLocs
      && forall i :: newLocation < i < Considered(w, list) ==> i in list.ruleLocs
  {
    SelectsByTopBit(info);
    var rmgr := new Manager(w);
    err := rmgr.Init(info, list);
    if err < 0 {
      return err, location;
    }
    if !rmgr.driverSelect {
      SearchInReplies(rmgr.slot[..], w, list);
    }
    err, newLocation := rmgr.FindEmptySlot(location);
  }
}
