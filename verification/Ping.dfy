/** The ping engine: echo requests, the table that recognises duplicate replies, and the
statistics printed at the end.  Sending a request and accepting a packet are atomic steps;
the clock and the socket are inputs.
*/
module Ping {
  import opened Arithmetic
  import opened Bits
  import opened Checksum
  import opened Machine

  const MAXPACKET: nat := 65536 - 60 - 8
  const MAX_DUP_CHK: nat := 8 * 128
  const ICMP_ECHOREPLY: nat := 0
  const ICMP_ECHO: nat := 8
  const ICMP_MINLEN: nat := 8
  const LONG_MAX: int := 0x7fff_ffff_ffff_ffff

  // ----- Times

  datatype Timeval = Timeval(sec: int, usec: int)

  predicate Normal(t: Timeval) {
    0 <= t.usec < 1_000_000
  }

  function Micros(t: Timeval): int {
    t.sec * 1_000_000 + t.usec
  }

  /** `tvsub`: subtraction with one borrow, which is enough for normalised times. */
  method TvSub(later: Timeval, earlier: Timeval) returns (r: Timeval)
    ensures Micros(r) == Micros(later) - Micros(earlier)
    ensures r.usec < 0 <==> later.usec - earlier.usec < -1_000_000
    ensures Normal(later) && Normal(earlier) ==> Normal(r)
  {
    var sec, usec := later.sec, later.usec - earlier.usec;
    if usec < 0 {
      sec, usec := sec - 1, usec + 1_000_000;
    }
    r := Timeval(sec - earlier.sec, usec);
  }

  /** Division in C rounds towards zero. */
  function Truncated(a: int, d: nat): int
    requires 0 < d
  {
    if 0 <= a then a / d else -(-a / d)
  }

  /** The time between two times in units of 100 microseconds: rounded down, except that it is
      rounded up if the echoed time is not normalised and one borrow was not enough. */
  function Trip(now: Timeval, sent: Timeval): int {
    var d := Micros(now) - Micros(sent);
    if now.usec - sent.usec < -1_000_000 then -(-d / 100) else d / 100
  }

  /** The trip time of `pr_pack`. */
  method TripTime(now: Timeval, sent: Timeval) returns (triptime: int)
    ensures triptime == Trip(now, sent)
    ensures Normal(now) && Normal(sent) ==> triptime == (Micros(now) - Micros(sent)) / 100
  {
    var tv := TvSub(now, sent);
    triptime := tv.sec * 10_000 + Truncated(tv.usec, 100);
  }

  // ----- The state and its two steps

  /** Counters, the set of slots whose bit is set in `rcvd_tbl`, and the round-trip times: the sum is an unsigned
      64-bit number, so it wraps. */
  datatype State = State(
    ntransmitted: nat, nreceived: nat, nrepeats: nat, table: set<nat>,
    tsum: nat, tmin: int, tmax: int)

  const Initial := State(0, 0, 0, {}, 0, LONG_MAX, 0)

  /** The slot of request number `n`, whose 16-bit sequence number is `n` modulo 65536. */
  function Slot(n: nat): nat {
    n % 0x10000 % MAX_DUP_CHK
  }

  /** The slots whose bit is set. */
  function SlotsIn(table: seq<Word>): set<nat>
    requires WellFormed(table, 8)
  {
    set i | 0 <= i < MAX_DUP_CHK && Has(table, 8, i)
  }

  function Sent(s: State): State {
    s.(ntransmitted := s.ntransmitted + 1, table := s.table - {Slot(s.ntransmitted)})
  }

  /** A trip time is added to the sum, which wraps, and compared with the extremes. */
  function Timed(s: State, trip: int): State {
    s.(tsum := (s.tsum + trip) % U64,
       tmin := if trip < s.tmin then trip else s.tmin,
       tmax := if trip > s.tmax then trip else s.tmax)
  }

  function Noted(s: State, n: nat): State {
    if Slot(n) in s.table then s.(nrepeats := s.nrepeats + 1)
    else s.(nreceived := s.nreceived + 1, table := s.table + {Slot(n)})
  }

  /** The reply carries the sequence number of request `n`; its trip time is known if timing. */
  function Replied(s: State, n: nat, trip: int, timing: bool): State {
    Noted(if timing then Timed(s, trip) else s, n)
  }

  /** A packet handed to `pr_pack`, with the time of the request it echoes. */
  datatype Packet = Packet(cc: nat, icmpType: nat, id: nat, seqNo: nat, sent: Timeval)

  /** The `datalen + 8` bytes from the start of the send buffer on, which are summed up and sent. */
  function OnWire(outpack: seq<Byte>, beyond: seq<Byte>, datalen: nat): (r: seq<Byte>)
    requires |outpack| == MAXPACKET && |beyond| == 8 && datalen <= MAXPACKET
    ensures |r| == datalen + 8
  {
    (outpack + beyond)[..datalen + 8]
  }

  /** The option parser accepts every length up to MAXPACKET.  What is sent depends on nothing but the
      send buffer if and only if the length is at most MAXPACKET - 8; the checksum's accumulator is
      large enough for all of them. */
  lemma {:induction false} SendsBufferOnly(datalen: nat)
    requires datalen <= MAXPACKET
    ensures datalen + 8 <= 0x10000
    ensures (forall outpack: seq<Byte>, a: seq<Byte>, b: seq<Byte> ::
               |outpack| == MAXPACKET && |a| == |b| == 8 ==>
                 OnWire(outpack, a, datalen) == OnWire(outpack, b, datalen)) <==>
      datalen <= MAXPACKET - 8
  {
    if datalen <= MAXPACKET - 8 {
      forall outpack: seq<Byte>, a: seq<Byte>, b: seq<Byte> | |outpack| == MAXPACKET && |a| == |b| == 8
        ensures OnWire(outpack, a, datalen) == OnWire(outpack, b, datalen)
      {
        assert OnWire(outpack, a, datalen) == outpack[..datalen + 8] == OnWire(outpack, b, datalen);
      }
    } else {
      var outpack: seq<Byte>, a: seq<Byte>, b: seq<Byte> := seq(MAXPACKET, _ => 0), seq(8, _ => 0), seq(8, _ => 1);
      assert OnWire(outpack, a, datalen)[MAXPACKET] == 0 && OnWire(outpack, b, datalen)[MAXPACKET] == 1;
    }
  }

  class Engine {
    const host: Host
    const datalen: nat
    const timing: bool
    const ident: nat
    const outpack: array<Byte>
    const rcvdTbl: array<Word>
    var ntransmitted: nat
    var nreceived: nat
    var nrepeats: nat
    var tsum: nat
    var tmin: int
    var tmax: int

    ghost predicate Valid()
      reads this, rcvdTbl
    {
      && 0 < datalen <= MAXPACKET && ident < 0x10000
      && timing == (16 <= datalen)
      && outpack.Length == MAXPACKET
      && rcvdTbl.Length == MAX_DUP_CHK / 8 && WellFormed(rcvdTbl[..], 8)
    }

    ghost function Abs(): State
      reads this, rcvdTbl
      requires Valid()
    {
      State(ntransmitted, nreceived, nrepeats,
            SlotsIn(rcvdTbl[..]), tsum, tmin, tmax)
    }

    constructor (host: Host, datalen: nat, pid: nat)
      requires 0 < datalen <= MAXPACKET
      ensures Valid() && fresh(outpack) && fresh(rcvdTbl)
      ensures Abs() == Initial && this.host == host && this.datalen == datalen && ident == pid % 0x10000
    {
      this.host, this.datalen, timing, ident := host, datalen, 16 <= datalen, pid % 0x10000;
      outpack := new Byte[MAXPACKET](_ => 0);
      rcvdTbl := new Word[MAX_DUP_CHK / 8](_ => Zero(8));
      ntransmitted, nreceived, nrepeats := 0, 0, 0;
      tsum, tmin, tmax := 0, LONG_MAX, 0;
    }

    /** `pinger`: compose a request whose checksum verifies, and step the state.  `beyond` is what lies
        behind the send buffer in memory. */
    method Pinger(now: seq<Byte>, beyond: seq<Byte>) returns (packet: seq<Byte>)
      requires Valid() && |now| == 16 && |beyond| == 8
      modifies this, outpack, rcvdTbl
      ensures Valid() && Abs() == Sent(old(Abs()))
      ensures outpack[0] == 8 && outpack[1] == 0
      ensures LoadWord(host, outpack[4], outpack[5]) == ident
      ensures LoadWord(host, outpack[6], outpack[7]) == old(ntransmitted) % 0x10000
      ensures timing ==> outpack[8..24] == now
      ensures outpack[if timing then 24 else 8..] == old(outpack[if timing then 24 else 8..])
      ensures packet == (outpack[..] + beyond)[..datalen + 8] && Cksum(host, packet) == 0
    {
      var seqNo := ntransmitted % 0x10000;
      ntransmitted := ntransmitted + 1;
      ClearBit(seqNo % MAX_DUP_CHK, rcvdTbl, 8);
      FillHeader(seqNo);
      if timing {
        CopyTime(now);
      }
      packet := StoreChecksum(beyond);
    }

    method StoreChecksum(beyond: seq<Byte>) returns (packet: seq<Byte>)
      requires Valid() && |beyond| == 8 && outpack[2] == outpack[3] == 0
      modifies outpack
      ensures forall i :: 0 <= i < MAXPACKET && i != 2 && i != 3 ==> outpack[i] == old(outpack[i])
      ensures packet == OnWire(outpack[..], beyond, datalen) && Cksum(host, packet) == 0
    {
      ghost var before := OnWire(outpack[..], beyond, datalen);
      var sum := InCksum(host, OnWire(outpack[..], beyond, datalen));
      ChecksumVerifies(host, before, 2);
      var b := StoreWord(host, sum);
      outpack[2], outpack[3] := b[0], b[1];
      packet := OnWire(outpack[..], beyond, datalen);
      assert packet == before[2 := b[0]][3 := b[1]];
    }

    method FillHeader(seqNo: nat)
      requires Valid() && seqNo < 0x10000
      modifies outpack
      ensures outpack[0] == ICMP_ECHO && outpack[1] == outpack[2] == outpack[3] == 0
      ensures LoadWord(host, outpack[4], outpack[5]) == ident
      ensures LoadWord(host, outpack[6], outpack[7]) == seqNo
      ensures forall i :: 8 <= i < MAXPACKET ==> outpack[i] == old(outpack[i])
    {
      outpack[0], outpack[1], outpack[2], outpack[3] := ICMP_ECHO, 0, 0, 0;
      var b := StoreWord(host, seqNo);
      outpack[6], outpack[7] := b[0], b[1];
      b := StoreWord(host, ident);
      outpack[4], outpack[5] := b[0], b[1];
    }

    method CopyTime(now: seq<Byte>)
      requires Valid() && |now| == 16
      modifies outpack
      ensures forall i :: 0 <= i < MAXPACKET ==>
        outpack[i] == if 8 <= i < 24 then now[i - 8] else old(outpack[i])
    {
      for i := 0 to 16
        invariant forall j :: 0 <= j < MAXPACKET ==>
          outpack[j] == if 8 <= j < 8 + i then now[j - 8] else old(outpack[j])
      {
        outpack[8 + i] := now[i];
      }
    }

    method RecordTrip(triptime: int)
      requires Valid()
      modifies this`tsum, this`tmin, this`tmax
      ensures Valid() && Abs() == Timed(old(Abs()), triptime)
    {
      tsum := (tsum + triptime) % U64;
      if triptime < tmin {
        tmin := triptime;
      }
      if triptime > tmax {
        tmax := triptime;
      }
    }

    /** The duplicate test of `pr_pack`; `dup` is what makes it print "(DUP!)". */
    method NoteReply(seqNo: nat) returns (dup: bool)
      requires Valid() && seqNo < 0x10000
      modifies this`nreceived, this`nrepeats, rcvdTbl
      ensures Valid() && Abs() == Noted(old(Abs()), seqNo)
      ensures dup <==> Slot(seqNo) in old(Abs().table)
    {
      nreceived := nreceived + 1;
      dup := TestBit(seqNo % MAX_DUP_CHK, rcvdTbl, 8);
      if dup {
        nrepeats := nrepeats + 1;
        nreceived := nreceived - 1;
      } else {
        SetBit(seqNo % MAX_DUP_CHK, rcvdTbl, 8);
      }
    }

    /** The echo-reply part of `pr_pack`: it takes echo replies (type 0) that carry the process's
        identifier and are long enough. */
    method PrPack(p: Packet, now: Timeval) returns (dup: bool)
      requires Valid() && p.seqNo < 0x10000
      modifies this, rcvdTbl
      ensures Valid()
      ensures p.cc < datalen + 8 || p.icmpType != 0 || p.id != ident ==> Abs() == old(Abs()) && !dup
      ensures datalen + 8 <= p.cc && p.icmpType == 0 && p.id == ident ==>
        && Abs() == Replied(old(Abs()), p.seqNo, Trip(now, p.sent), timing)
        && (dup <==> Slot(p.seqNo) in old(Abs().table))
    {
      if p.cc < datalen + ICMP_MINLEN || p.icmpType != ICMP_ECHOREPLY || p.id != ident {
        return false;
      }
      if timing {
        var triptime := TripTime(now, p.sent);
        RecordTrip(triptime);
      }
      dup := NoteReply(p.seqNo);
    }
  }

  // ----- Runs

  /** `Reply(n, trip)` is an accepted reply that carries the sequence number of request `n`. */
  datatype Event = Send | Reply(n: nat, trip: int)

  function Run(run: seq<Event>, timing: bool): State {
    if run == [] then Initial
    else
      var s := Run(run[..|run| - 1], timing);
      match run[|run| - 1]
      case Send => Sent(s)
      case Reply(n, trip) => Replied(s, n, trip, timing)
  }

  /** Number of accepted replies. */
  function Replies(run: seq<Event>): nat {
    if run == [] then 0
    else Replies(run[..|run| - 1]) + if run[|run| - 1].Reply? then 1 else 0
  }

  // ----- Duplicates: the packed table against an unbounded memory

  /** The requests that have been answered: a perfect memory of the run. */
  function Answered(run: seq<Event>): set<nat> {
    if run == [] then {}
    else
      var a := Answered(run[..|run| - 1]);
      match run[|run| - 1]
      case Send => a
      case Reply(n, _) => a + {n}
  }

  function Requests(run: seq<Event>): nat {
    if run == [] then 0
    else Requests(run[..|run| - 1]) + if run[|run| - 1].Send? then 1 else 0
  }

  /** Every reply answers one of the latest `k` requests. */
  predicate InWindow(run: seq<Event>, k: nat) {
    run == [] || (
      var past := run[..|run| - 1];
      InWindow(past, k) &&
      match run[|run| - 1]
      case Send => true
      case Reply(n, _) => n < Requests(past) <= n + k)
  }

  /** A further reply to request `n` is flagged as a duplicate exactly when `n` was answered. */
  predicate FlagsRight(run: seq<Event>, n: nat) {
    Slot(n) in Run(run, true).table <==> n in Answered(run)
  }

  lemma {:induction false} RequestsCounted(run: seq<Event>, timing: bool)
    ensures Run(run, timing).ntransmitted == Requests(run)
    ensures Run(run, timing).table == Run(run, true).table
  {
    if run != [] {
      RequestsCounted(run[..|run| - 1], timing);
      RequestsCounted(run[..|run| - 1], true);
    }
  }

  lemma {:induction false} AnsweredWereSent(run: seq<Event>, k: nat)
    requires InWindow(run, k)
    ensures forall n :: n in Answered(run) ==> n < Requests(run)
  {
    if run != [] {
      AnsweredWereSent(run[..|run| - 1], k);
    }
  }

  /** 1024 divides 65536, so the wrap of the sequence number does not show in the slot. */
  lemma {:induction false} SlotIsMod(n: nat)
    ensures Slot(n) == n % MAX_DUP_CHK
  {
    assert n == 0x10000 * (n / 0x10000) + n % 0x10000;
  }

  lemma {:induction false} SlotsDiffer(a: nat, b: nat)
    requires a < b < a + MAX_DUP_CHK
    ensures Slot(a) != Slot(b)
  {
    SlotIsMod(a);
    SlotIsMod(b);
  }

  /** Within the window of 1024 requests the table is a perfect memory. */
  lemma {:induction false} TableRemembers(run: seq<Event>, n: nat)
    requires InWindow(run, MAX_DUP_CHK)
    requires n < Requests(run) <= n + MAX_DUP_CHK
    ensures FlagsRight(run, n)
  {
    if run != [] {
      var past := run[..|run| - 1];
      RequestsCounted(past, true);
      AnsweredWereSent(past, MAX_DUP_CHK);
      if n < Requests(past) {
        TableRemembers(past, n);
        var other := match run[|run| - 1] case Send => Requests(past) case Reply(m, _) => m;
        if n < other {
          SlotsDiffer(n, other);
        } else if other < n {
          SlotsDiffer(other, n);
        }
      }
    }
  }

  /** A run that forgets: request 0 is answered, 1024 more requests follow. */
  function Forgetful(k: nat): seq<Event> {
    if k == 0 then [Send, Reply(0, 0)] else Forgetful(k - 1) + [Send]
  }

  lemma {:induction false} ForgetfulRun(k: nat)
    ensures Requests(Forgetful(k)) == k + 1 && Answered(Forgetful(k)) == {0}
    ensures InWindow(Forgetful(k), MAX_DUP_CHK + 1)
  {
    if k == 0 {
      assert [Send, Reply(0, 0)][..1] == [Send];
      assert [Send][..0] == [];
      assert Requests([Send]) == 1;
    } else {
      ForgetfulRun(k - 1);
      assert Forgetful(k)[..|Forgetful(k)| - 1] == Forgetful(k - 1);
    }
  }

  lemma {:induction false} ForgetsRequestZero()
    ensures !FlagsRight(Forgetful(MAX_DUP_CHK), 0)
  {
    var past := Forgetful(MAX_DUP_CHK - 1);
    ForgetfulRun(MAX_DUP_CHK - 1);
    ForgetfulRun(MAX_DUP_CHK);
    RequestsCounted(past, true);
    assert Forgetful(MAX_DUP_CHK)[..|past|] == past;
  }

  /** 1024 is exactly how far back replies may reach for duplicates to be told apart in every run. */
  lemma {:induction false} WindowIsExact(k: nat)
    ensures (forall run, n: nat :: InWindow(run, k) && n < Requests(run) <= n + k ==> FlagsRight(run, n))
      <==> k <= 1024
  {
    if k <= MAX_DUP_CHK {
      forall run, n: nat | InWindow(run, k) && n < Requests(run) <= n + k ensures FlagsRight(run, n) {
        WindowGrows(run, k, MAX_DUP_CHK);
        TableRemembers(run, n);
      }
    } else {
      var run := Forgetful(MAX_DUP_CHK);
      ForgetfulRun(MAX_DUP_CHK);
      WindowGrows(run, MAX_DUP_CHK + 1, k);
      ForgetsRequestZero();
      assert InWindow(run, k) && 0 < Requests(run) <= 0 + k && !FlagsRight(run, 0);
    }
  }

  lemma {:induction false} WindowGrows(run: seq<Event>, k: nat, m: nat)
    requires InWindow(run, k) && k <= m
    ensures InWindow(run, m)
  {
    if run != [] {
      WindowGrows(run[..|run| - 1], k, m);
    }
  }

  // ----- Statistics

  /** Every reply falls on a slot that some request has already used. */
  predicate Legal(run: seq<Event>) {
    run == [] || (
      var past := run[..|run| - 1];
      Legal(past) && (run[|run| - 1].Reply? ==> Slot(run[|run| - 1].n) < Requests(past)))
  }

  /** The latest of the first `t` requests that used `slot`. */
  function Latest(slot: nat, t: nat): nat
    requires slot < MAX_DUP_CHK && slot < t
  {
    t - 1 - (t - 1 - slot) % MAX_DUP_CHK
  }

  /** The requests that the receive counter has been credited for, one per counted reply. */
  ghost function Credited(run: seq<Event>): set<nat>
    requires Legal(run)
  {
    if run == [] then {}
    else
      var past := run[..|run| - 1];
      match run[|run| - 1]
      case Send => Credited(past)
      case Reply(n, _) =>
        if Slot(n) in Run(past, true).table then Credited(past)
        else Credited(past) + {Latest(Slot(n), Requests(past))}
  }

  ghost predicate CreditsMatch(run: seq<Event>)
    requires Legal(run)
  {
    var s, t := Run(run, true), Requests(run);
    && (forall i :: i in Credited(run) ==> i < t)
    && |Credited(run)| == s.nreceived
    && (forall slot: nat :: slot < MAX_DUP_CHK && slot < t ==>
          (Latest(slot, t) in Credited(run) <==> slot in s.table))
  }

  lemma {:induction false} LatestAfterSend(slot: nat, t: nat)
    requires slot < MAX_DUP_CHK && slot <= t
    ensures slot == Slot(t) ==> Latest(slot, t + 1) == t
    ensures slot != Slot(t) ==> slot < t && Latest(slot, t + 1) == Latest(slot, t)
  {
    SlotIsMod(t);
    var d, m := t - slot, MAX_DUP_CHK;
    if slot == t % m {
      QuotientUnique(d, m, t / m, 0);
    } else {
      if d % m == 0 {
        QuotientUnique(t, m, d / m, slot);
      }
      QuotientUnique(d - 1, m, d / m, d % m - 1);
    }
  }

  lemma {:induction false} LatestInjective(a: nat, b: nat, t: nat)
    requires a < MAX_DUP_CHK && b < MAX_DUP_CHK && a < t && b < t && Latest(a, t) == Latest(b, t)
    ensures a == b
  {}

  lemma {:induction false} CreditsAlwaysMatch(run: seq<Event>)
    requires Legal(run)
    ensures CreditsMatch(run)
  {
    if run != [] {
      var past := run[..|run| - 1];
      CreditsAlwaysMatch(past);
      RequestsCounted(past, true);
      if run[|run| - 1].Send? {
        CreditsAfterSend(run);
      } else {
        CreditsAfterReply(run);
      }
    }
  }

  lemma {:induction false} CreditsAfterSend(run: seq<Event>)
    requires run != [] && Legal(run) && run[|run| - 1].Send? && CreditsMatch(run[..|run| - 1])
    ensures CreditsMatch(run)
  {
    var past := run[..|run| - 1];
    RequestsCounted(past, true);
    var t := Requests(past);
    forall slot: nat | slot < MAX_DUP_CHK && slot < t + 1
      ensures Latest(slot, t + 1) in Credited(run) <==> slot in Run(run, true).table
    {
      LatestAfterSend(slot, t);
    }
  }

  lemma {:induction false} CreditsAfterReply(run: seq<Event>)
    requires run != [] && Legal(run) && run[|run| - 1].Reply? && CreditsMatch(run[..|run| - 1])
    ensures CreditsMatch(run)
  {
    var past := run[..|run| - 1];
    var t, own := Requests(past), Slot(run[|run| - 1].n);
    var s, r := Run(past, true), Run(run, true);
    assert r.table == s.table + {own} && Requests(run) == t;
    assert Latest(own, t) in Credited(past) <==> own in s.table;
    forall slot: nat | slot < MAX_DUP_CHK && slot < t
      ensures Latest(slot, t) in Credited(run) <==> slot in r.table
    {
      CreditOfSlot(past, slot, own, t);
    }
  }

  lemma {:induction false} CreditOfSlot(past: seq<Event>, slot: nat, own: nat, t: nat)
    requires Legal(past) && CreditsMatch(past) && t == Requests(past)
    requires slot < MAX_DUP_CHK && own < MAX_DUP_CHK && slot < t && own < t
    ensures Latest(slot, t) in Credited(past) + {Latest(own, t)} <==> slot in Run(past, true).table + {own}
  {
    if Latest(slot, t) == Latest(own, t) {
      LatestInjective(slot, own, t);
    }
  }

  lemma {:induction false} BoundedSet(s: set<nat>, t: nat)
    requires forall i :: i in s ==> i < t
    ensures |s| <= t
    decreases t
  {
    if t == 0 {
      assert s == {};
    } else {
      BoundedSet(s - {t - 1}, t - 1);
    }
  }

  /** Conservation: accepted replies are split between the two counters, and no more replies are
      counted as received than requests were sent. */
  lemma {:induction false} CountsAddUp(run: seq<Event>, timing: bool)
    ensures Run(run, timing).nreceived + Run(run, timing).nrepeats == Replies(run)
    ensures Run(run, timing).nreceived == Run(run, true).nreceived
    ensures Legal(run) ==> Run(run, timing).nreceived <= Run(run, timing).ntransmitted
  {
    if run != [] {
      CountsAddUp(run[..|run| - 1], timing);
      RequestsCounted(run[..|run| - 1], timing);
    }
    RequestsCounted(run, timing);
    if Legal(run) {
      CreditsAlwaysMatch(run);
      BoundedSet(Credited(run), Requests(run));
    }
  }

  /** The percentage `finish` prints. */
  function LossPercent(s: State): int
    requires 0 < s.ntransmitted
  {
    (s.ntransmitted - s.nreceived) * 100 / s.ntransmitted
  }

  /** The percentage is the share of requests without a reply, rounded down; so it lies between 0 and
      100 and is 100 exactly if nothing came back.  In a legal run it is always printed; in any other,
      only if no more was received than sent. */
  lemma {:induction false} LossInRange(run: seq<Event>, timing: bool)
    requires 0 < Requests(run)
    ensures var s := Run(run, timing);
      && 0 < s.ntransmitted
      && (Legal(run) ==> s.nreceived <= s.ntransmitted)
      && (s.nreceived <= s.ntransmitted ==>
            && LossPercent(s) * Requests(run) <= 100 * (Requests(run) - s.nreceived)
            && 100 * (Requests(run) - s.nreceived) < (LossPercent(s) + 1) * Requests(run)
            && 0 <= LossPercent(s) <= 100
            && (LossPercent(s) == 100 <==> s.nreceived == 0))
  {
    CountsAddUp(run, timing);
    RequestsCounted(run, timing);
    var s := Run(run, timing);
    if s.nreceived <= s.ntransmitted {
      QuotientRange((s.ntransmitted - s.nreceived) * 100, s.ntransmitted, s.nreceived);
      QuotientBounds((s.ntransmitted - s.nreceived) * 100, s.ntransmitted);
    }
  }

  lemma {:induction false} QuotientBounds(x: nat, t: nat)
    requires 0 < t
    ensures x / t * t <= x < (x / t + 1) * t
  {
    assert x == t * (x / t) + x % t;
  }

  lemma {:induction false} QuotientRange(x: nat, t: nat, r: nat)
    requires 0 < t && r <= t && x == (t - r) * 100
    ensures 0 <= x / t <= 100
    ensures x / t == 100 <==> r == 0
  {
    assert x == 100 * t - 100 * r;
    DivBetween(x, t, 0, 100);
    if r == 0 {
      DivBetween(x, t, 100, 100);
    } else {
      assert x == t * (x / t) + x % t;
    }
  }

  /** All trip times are within what a `long` holds; they are negative if the clock is set back. */
  predicate LongTrips(run: seq<Event>) {
    forall i :: 0 <= i < |run| && run[i].Reply? ==> -LONG_MAX - 1 <= run[i].trip <= LONG_MAX
  }

  /** The sum of all trip times, without wrap-around. */
  function TripTotal(run: seq<Event>): int {
    if run == [] then 0
    else TripTotal(run[..|run| - 1]) + if run[|run| - 1].Reply? then run[|run| - 1].trip else 0
  }

  lemma {:induction false} WrapAdd(x: int, y: int)
    ensures (x % U64 + y) % U64 == (x + y) % U64
  {}

  lemma {:induction false} SumWraps(run: seq<Event>)
    ensures Run(run, true).tsum == TripTotal(run) % U64
  {
    if run != [] {
      var past := run[..|run| - 1];
      SumWraps(past);
      if run[|run| - 1].Reply? {
        WrapAdd(TripTotal(past), run[|run| - 1].trip);
      }
    }
  }

  /** Minimum and maximum are bounds of every run, also of one with negative times. */
  lemma {:induction false} TripSums(run: seq<Event>)
    requires LongTrips(run)
    ensures var s, k := Run(run, true), Replies(run);
      && (k == 0 ==> TripTotal(run) == 0 && s.tmin == LONG_MAX && s.tmax == 0)
      && k * s.tmin <= TripTotal(run) <= k * s.tmax
  {
    if run != [] {
      var past := run[..|run| - 1];
      TripSums(past);
      if run[|run| - 1].Reply? {
        var s, r := Run(past, true), Run(run, true);
        SumStep(Replies(past), run[|run| - 1].trip, TripTotal(past), s.tmin, s.tmax, r.tmin, r.tmax);
      }
    }
  }

  /** The value is the trip time of one of the accepted replies. */
  predicate IsTrip(run: seq<Event>, trip: int) {
    exists i :: 0 <= i < |run| && run[i].Reply? && run[i].trip == trip
  }

  lemma {:induction false} TripStays(run: seq<Event>, trip: int)
    requires run != []
    ensures IsTrip(run[..|run| - 1], trip) ==> IsTrip(run, trip)
    ensures run[|run| - 1].Reply? ==> IsTrip(run, run[|run| - 1].trip)
  {
    var past := run[..|run| - 1];
    if IsTrip(past, trip) {
      var i :| 0 <= i < |past| && past[i].Reply? && past[i].trip == trip;
      assert run[i] == past[i];
    }
  }

  /** The minimum is the least trip time of the run, or what it was set up with; the maximum is the
      greatest, or zero. */
  lemma {:induction false} Extremes(run: seq<Event>)
    ensures var s := Run(run, true);
      && (forall i :: 0 <= i < |run| && run[i].Reply? ==> s.tmin <= run[i].trip <= s.tmax)
      && s.tmin <= 0x7fff_ffff_ffff_ffff && 0 <= s.tmax
      && (s.tmin == 0x7fff_ffff_ffff_ffff || IsTrip(run, s.tmin))
      && (s.tmax == 0 || IsTrip(run, s.tmax))
  {
    if run != [] {
      var past := run[..|run| - 1];
      Extremes(past);
      TripStays(run, Run(past, true).tmin);
      TripStays(run, Run(past, true).tmax);
      var s := Run(run, true);
      forall i | 0 <= i < |run| && run[i].Reply? ensures s.tmin <= run[i].trip <= s.tmax {
        if i < |past| {
          assert past[i] == run[i];
        }
      }
    }
  }

  lemma {:induction false} SumStep(k: nat, trip: int, tsum: int, lo: int, hi: int, newLo: int, newHi: int)
    requires k * lo <= tsum <= k * hi && newLo <= lo && hi <= newHi && newLo <= trip <= newHi
    ensures (k + 1) * newLo <= tsum + trip <= (k + 1) * newHi
  {
    MulMonotone(k, newLo, lo);
    MulMonotone(k, hi, newHi);
  }

  /** The average `finish` prints, in unsigned arithmetic. */
  function Average(s: State): nat
    requires 0 < s.nreceived + s.nrepeats
  {
    s.tsum / (s.nreceived + s.nrepeats)
  }

  /** Division tells numbers apart that differ by a divisor or more. */
  lemma {:induction false} QuotientsDiffer(x: int, y: int, d: nat)
    requires 0 < d && x + d <= y
    ensures x / d < y / d
  {
    assert x == d * (x / d) + x % d && y == d * (y / d) + y % d;
    LessByFactor(d, x / d, y / d);
  }

  lemma {:induction false} WrapDistance(x: int)
    ensures 0 <= x < U64 ==> x % U64 == x
    ensures x < 0 ==> x + U64 <= x % U64
    ensures U64 <= x ==> x % U64 + U64 <= x
  {}

  /** The printed average is the average of all accepted replies, rounded down, exactly when the sum
      of their times neither is negative nor wraps. */
  lemma {:induction false} AverageExact(run: seq<Event>)
    requires 0 < Replies(run) <= U64
    ensures var s := Run(run, true);
      && s.nreceived + s.nrepeats == Replies(run)
      && (Average(s) == TripTotal(run) / Replies(run) <==> 0 <= TripTotal(run) < U64)
  {
    CountsAddUp(run, true);
    SumWraps(run);
    var total, k := TripTotal(run), Replies(run);
    WrapDistance(total);
    if total < 0 {
      QuotientsDiffer(total, total % U64, k);
    } else if U64 <= total {
      QuotientsDiffer(total % U64, total, k);
    }
  }

  /** It then lies between the printed minimum and maximum. */
  lemma {:induction false} AverageBetween(run: seq<Event>)
    requires LongTrips(run) && 0 < Replies(run) && 0 <= TripTotal(run) < U64
    ensures var s := Run(run, true);
      0 < s.nreceived + s.nrepeats && s.tmin <= Average(s) <= s.tmax
  {
    TripSums(run);
    SumWraps(run);
    WrapDistance(TripTotal(run));
    CountsAddUp(run, true);
    var s := Run(run, true);
    DivBetween(TripTotal(run), Replies(run), s.tmin, s.tmax);
  }
}
