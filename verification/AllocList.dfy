/** The test harness's record of live allocations: an intrusive circular doubly linked list
through the headers of the allocated blocks.
*/
module AllocList {

  /** `struct list_head`, the header in front of every block. */
  class ListHead {
    var next: ListHead?
    var prev: ListHead?

    constructor ()
    {
      next, prev := null, null;
    }
  }

  /** What the C library's allocator was asked to do. */
  datatype Event = Allocated(block: ListHead) | Freed(block: ListHead)

  /** The blocks that are allocated after the events of `log`. */
  ghost function Live(log: seq<Event>): set<ListHead> {
    if log == [] then {}
    else
      var before := Live(log[..|log| - 1]);
      match log[|log| - 1]
      case Allocated(b) => before + {b}
      case Freed(b) => before - {b}
  }

  /** All blocks that were ever allocated, oldest first. */
  ghost function Born(log: seq<Event>): seq<ListHead> {
    if log == [] then []
    else
      var before := Born(log[..|log| - 1]);
      match log[|log| - 1]
      case Allocated(b) => before + [b]
      case Freed(_) => before
  }

  ghost function Frees(blocks: seq<ListHead>): seq<Event> {
    seq(|blocks|, i requires 0 <= i < |blocks| => Freed(blocks[i]))
  }

  lemma {:induction false} LogStep(log: seq<Event>, e: Event)
    ensures Live(log + [e]) == if e.Allocated? then Live(log) + {e.block} else Live(log) - {e.block}
    ensures Born(log + [e]) == if e.Allocated? then Born(log) + [e.block] else Born(log)
  {
    assert (log + [e])[..|log|] == log;
  }

  lemma {:induction false} LogFrees(log: seq<Event>, blocks: seq<ListHead>)
    ensures Live(log + Frees(blocks)) == Live(log) - (set b | b in blocks)
    ensures Born(log + Frees(blocks)) == Born(log)
  {
    if blocks == [] {
      assert log + Frees(blocks) == log;
    } else {
      var init, last := blocks[..|blocks| - 1], blocks[|blocks| - 1];
      LogFrees(log, init);
      LogStep(log + Frees(init), Freed(last));
      assert log + Frees(blocks) == log + Frees(init) + [Freed(last)];
      assert blocks == init + [last];
    }
  }

  /** After the first `done` blocks of a list have been freed, the next one is still allocated. */
  lemma {:induction false} NextLive(log: seq<Event>, ring: seq<ListHead>, done: nat)
    requires done + 1 < |ring| && Distinct(ring) && ring[done + 1] in Live(log)
    ensures ring[done + 1] in Live(log + Frees(ring[1..done + 1]))
  {
    var freed := ring[1..done + 1];
    LogFrees(log, freed);
    assert forall i :: 0 <= i < |freed| ==> freed[i] == ring[1 + i];
  }

  lemma {:induction false} NextLogged(log: seq<Event>, ring: seq<ListHead>, done: nat)
    requires done + 1 < |ring|
    ensures log + Frees(ring[1..done + 2]) == log + Frees(ring[1..done + 1]) + [Freed(ring[done + 1])]
  {
    FreesMore(ring[1..done + 1], ring[done + 1]);
    assert ring[1..done + 2] == ring[1..done + 1] + [ring[done + 1]];
  }

  lemma {:induction false} FreesMore(blocks: seq<ListHead>, next: ListHead)
    ensures Frees(blocks + [next]) == Frees(blocks) + [Freed(next)]
  {}

  /** `malloc` and `free` of the C library.  The log is all that is known of them. */
  class Heap {
    ghost var log: seq<Event>

    constructor ()
      ensures log == []
    {
      log := [];
    }

    /** A null pointer if there is no memory. */
    method Malloc(memory: bool) returns (block: ListHead?)
      modifies this
      ensures memory ==> block != null && fresh(block) && log == old(log) + [Allocated(block)]
      ensures !memory ==> block == null && log == old(log)
    {
      if !memory {
        return null;
      }
      block := new ListHead();
      log := log + [Allocated(block)];
    }

    /** Only an allocated block may be freed, and nothing is known about its header afterwards. */
    method Free(block: ListHead)
      requires block in Live(log)
      modifies this, block
      ensures log == old(log) + [Freed(block)]
    {
      block.next, block.prev := null, null;
      log := log + [Freed(block)];
    }
  }

  function Without<T>(s: seq<T>, k: nat): seq<T>
    requires k < |s|
  {
    s[..k] + s[k + 1..]
  }

  /** The positions after and before position `i` on a ring of `n`. */
  function Up(i: nat, n: nat): (r: nat)
    requires i < n
    ensures r < n
  {
    if i + 1 == n then 0 else i + 1
  }

  function Down(i: nat, n: nat): (r: nat)
    requires i < n
    ensures r < n
  {
    if i == 0 then n - 1 else i - 1
  }

  /** The old position of position `j`, after position `k` has been taken out of a ring of `n`. */
  function Lift(j: nat, k: nat): nat {
    if j < k then j else j + 1
  }

  lemma {:induction false} LiftUpDown(j: nat, k: nat, n: nat)
    requires j < n - 1 && k < n
    ensures Lift(Up(j, n - 1), k) == if Lift(j, k) == Down(k, n) then Up(k, n) else Up(Lift(j, k), n)
    ensures Lift(Down(j, n - 1), k) == if Lift(j, k) == Up(k, n) then Down(k, n) else Down(Lift(j, k), n)
    ensures Lift(j, k) < n
  {}

  ghost predicate Distinct<T>(s: seq<T>) {
    forall i, j :: 0 <= i < j < |s| ==> s[i] != s[j]
  }

  /** The links lead once around the ring in either direction. */
  ghost predicate Linked(ring: seq<ListHead>)
    reads ring
  {
    && (forall i {:trigger ring[i].next} :: 0 <= i < |ring| ==> ring[i].next == ring[Up(i, |ring|)])
    && (forall i {:trigger ring[i].prev} :: 0 <= i < |ring| ==> ring[i].prev == ring[Down(i, |ring|)])
  }

  /** The ring is linked but for position `k`, whose neighbours are linked to each other. */
  ghost predicate Bypassed(ring: seq<ListHead>, k: nat)
    reads ring
    requires k < |ring|
  {
    var n := |ring|;
    && (forall i {:trigger ring[i].next} :: 0 <= i < n && i != k ==>
          ring[i].next == ring[if i == Down(k, n) then Up(k, n) else Up(i, n)])
    && (forall i {:trigger ring[i].prev} :: 0 <= i < n && i != k ==>
          ring[i].prev == ring[if i == Up(k, n) then Down(k, n) else Down(i, n)])
  }

  lemma {:induction false} DistinctWithout<T>(s: seq<T>, k: nat)
    requires k < |s| && Distinct(s)
    ensures Distinct(Without(s, k))
  {}

  lemma {:induction false} LinkedWithout(ring: seq<ListHead>, k: nat)
    requires k < |ring| && Distinct(ring) && Bypassed(ring, k)
    ensures Distinct(Without(ring, k)) && Linked(Without(ring, k))
  {
    DistinctWithout(ring, k);
    var n, shrunk := |ring|, Without(ring, k);
    assert forall j {:trigger shrunk[j]} :: 0 <= j < n - 1 ==> shrunk[j] == ring[Lift(j, k)];
    forall j | 0 <= j < n - 1
      ensures shrunk[j].next == shrunk[Up(j, n - 1)]
      ensures shrunk[j].prev == shrunk[Down(j, n - 1)]
    {
      LiftUpDown(j, k, n);
    }
  }

  /** The ring is linked but for `block`, which stands between positions 0 and 1. */
  ghost predicate Spliced(ring: seq<ListHead>, block: ListHead)
    reads ring, block
    requires 0 < |ring|
  {
    var n := |ring|;
    && block.next == ring[Up(0, n)] && block.prev == ring[0]
    && (forall i {:trigger ring[i].next} :: 0 <= i < n ==>
          ring[i].next == if i == 0 then block else ring[Up(i, n)])
    && (forall i {:trigger ring[i].prev} :: 0 <= i < n ==>
          ring[i].prev == if i == Up(0, n) then block else ring[Down(i, n)])
  }

  lemma {:induction false} LinkedGrown(ring: seq<ListHead>, block: ListHead)
    requires 0 < |ring| && block !in ring && Distinct(ring) && Spliced(ring, block)
    ensures Distinct([ring[0], block] + ring[1..]) && Linked([ring[0], block] + ring[1..])
  {}

  class MallocList {
    const heap: Heap
    const head: ListHead
    ghost var ring: seq<ListHead>  // the list head, then the live blocks, most recent first

    /** The structure is a circular list. */
    ghost predicate Valid()
      reads this, ring
    {
      |ring| > 0 && ring[0] == head && Distinct(ring) && Linked(ring)
    }

    /** The blocks on the list. */
    ghost function Blocks(): seq<ListHead>
      reads this, ring
      requires Valid()
    {
      ring[1..]
    }

    /** Every block on the list is allocated; the head itself is not. */
    ghost predicate Sound()
      reads this, ring, heap
    {
      Valid() && head !in Live(heap.log) && forall i :: 0 < i < |ring| ==> ring[i] in Live(heap.log)
    }

    constructor (heap: Heap)
      ensures Valid() && Blocks() == [] && fresh(ring) && this.heap == heap && fresh(head)
    {
      this.heap := heap;
      head := new ListHead();
      new;
      ring := [head];
      head.next, head.prev := head, head;
    }

    /** `list_add(block, &malloc_list)` */
    method ListAdd(block: ListHead)
      requires Valid() && block !in ring
      modifies this, ring, block
      ensures Valid() && ring == [head, block] + old(ring)[1..]
    {
      assert ring[0].next == ring[Up(0, |ring|)];
      head.next.prev := block;
      block.next := head.next;
      block.prev := head;
      head.next := block;
      assert Spliced(ring, block);
      LinkedGrown(ring, block);
      ring := [head, block] + ring[1..];
    }

    /** `list_del(block)` */
    method ListDel(block: ListHead, ghost k: nat)
      requires Valid() && 0 < k < |ring| && ring[k] == block
      modifies this, ring
      ensures Valid() && ring == Without(old(ring), k) && block.next == null && block.prev == null
    {
      assert ring[k].next == ring[Up(k, |ring|)] && ring[k].prev == ring[Down(k, |ring|)];
      block.next.prev := block.prev;
      block.prev.next := block.next;
      block.next := null;
      block.prev := null;
      assert Bypassed(ring, k);
      LinkedWithout(ring, k);
      ring := Without(ring, k);
    }

    /** `test_malloc` */
    method TestMalloc(memory: bool) returns (block: ListHead?)
      requires Sound()
      modifies this, ring, heap
      ensures Sound()
      ensures memory ==> block != null && fresh(block) && ring == [head, block] + old(ring)[1..]
      ensures memory ==> heap.log == old(heap.log) + [Allocated(block)]
      ensures !memory ==> block == null && ring == old(ring) && heap.log == old(heap.log)
    {
      block := heap.Malloc(memory);
      if block == null {
        return;
      }
      LogStep(old(heap.log), Allocated(block));
      ListAdd(block);
    }

    /** `test_free` of a null pointer or of a block on the list, which is at position `k`. */
    method TestFree(block: ListHead?, ghost k: nat)
      requires Sound() && (block != null ==> 0 < k < |ring| && ring[k] == block)
      modifies this, ring, heap
      ensures Sound()
      ensures block == null ==> ring == old(ring) && heap.log == old(heap.log)
      ensures block != null ==> ring == Without(old(ring), k) && heap.log == old(heap.log) + [Freed(block)]
    {
      if block == null {
        return;
      }
      ListDel(block, k);
      heap.Free(block);
      LogStep(old(heap.log), Freed(block));
    }

    /** `test_free_all`: frees every block once, in list order, and empties the list.  The
        successor of a block is read before the block is freed. */
    method TestFreeAll()
      requires Sound()
      modifies this, ring, heap
      ensures Sound() && ring == [head] && heap.log == old(heap.log) + Frees(old(Blocks()))
    {
      ghost var n, i := |ring|, Up(0, |ring|);  // pos is ring[i]
      ghost var done := 0;
      assert ring[0].next == ring[i];
      var pos: ListHead? := head.next;
      assert pos == ring[i] && ring[i].next == ring[Up(i, n)];
      var next: ListHead? := pos.next;
      while pos != head
        invariant i < n && n == |ring| && ring == old(ring) && i == if done + 1 == n then 0 else done + 1
        invariant done < n && pos == ring[i] && next == ring[Up(i, n)]
        invariant heap.log == old(heap.log) + Frees(ring[1..done + 1])
        invariant head.next == ring[Up(0, n)]
        invariant forall j {:trigger ring[j].next} :: 0 < i <= j < n ==> ring[j].next == ring[Up(j, n)]
        decreases n - done
      {
        NextLive(old(heap.log), ring, done);
        NextLogged(old(heap.log), ring, done);
        heap.Free(pos);
        done := done + 1;
        pos := next;
        i := Up(i, n);
        assert pos == ring[i] && ring[i].next == ring[Up(i, n)];
        next := pos.next;
      }
      assert ring[1..done + 1] == old(Blocks());
      LogFrees(old(heap.log), old(Blocks()));
      ring := [head];
      head.next, head.prev := head, head;
    }
  }

  // ----- Runs of the harness

  /** An allocation succeeds if there is memory; `FreeAt(i)` frees the live block at position `i`, or
      a null pointer if there is none. */
  datatype Op = Malloc(memory: bool) | FreeAt(i: nat) | FreeAll

  /** Which allocations are live, by serial number, and the next serial number. */
  datatype Track = Track(live: seq<nat>, next: nat)

  function Step(t: Track, op: Op): Track {
    match op
    case Malloc(memory) => if memory then Track([t.next] + t.live, t.next + 1) else t
    case FreeAt(i) => if i < |t.live| then t.(live := Without(t.live, i)) else t
    case FreeAll => t.(live := [])
  }

  function Tracked(ops: seq<Op>): Track {
    if ops == [] then Track([], 0) else Step(Tracked(ops[..|ops| - 1]), ops[|ops| - 1])
  }

  /** The list holds the live allocations in order, where allocation number `n` is the `n`-th block
      the C library handed out, and no other block is allocated. */
  ghost predicate Matches(blocks: seq<ListHead>, log: seq<Event>, t: Track) {
    && |Born(log)| == t.next && |blocks| == |t.live|
    && (forall i :: 0 <= i < |blocks| ==> t.live[i] < t.next && blocks[i] == Born(log)[t.live[i]])
    && Live(log) == set b | b in blocks
  }

  /** What an operation asks of the C library, given the blocks before and after it. */
  ghost function Asked(op: Op, held: seq<ListHead>, now: seq<ListHead>): seq<Event>
    requires op.Malloc? && op.memory ==> now != []
  {
    match op
    case Malloc(memory) => if memory then [Allocated(now[0])] else []
    case FreeAt(i) => if i < |held| then [Freed(held[i])] else []
    case FreeAll => Frees(held)
  }

  /** The blocks on the list after an operation; a new block is its first. */
  ghost predicate Moves(op: Op, held: seq<ListHead>, now: seq<ListHead>) {
    match op
    case Malloc(memory) => if memory then now != [] && now[1..] == held else now == held
    case FreeAt(i) => now == if i < |held| then Without(held, i) else held
    case FreeAll => now == []
  }

  lemma {:induction false} MembersWithout<T>(s: seq<T>, k: nat)
    requires k < |s| && Distinct(s)
    ensures (set x | x in Without(s, k)) == (set x | x in s) - {s[k]}
  {
    var rest := Without(s, k);
    forall x ensures x in rest <==> x in s && x != s[k] {
      if x in rest {
        var i :| 0 <= i < |rest| && rest[i] == x;
        assert x == s[Lift(i, k)];
      }
      if x in s && x != s[k] {
        var i :| 0 <= i < |s| && s[i] == x;
        assert x == rest[if i < k then i else i - 1];
      }
    }
  }

  lemma {:induction false} MatchesMalloc(held: seq<ListHead>, block: ListHead, log: seq<Event>, t: Track)
    requires Matches(held, log, t)
    ensures Matches([block] + held, log + [Allocated(block)], Step(t, Malloc(true)))
  {
    LogStep(log, Allocated(block));
    var now, born := [block] + held, Born(log) + [block];
    forall i | 0 <= i < |now| ensures now[i] == born[([t.next] + t.live)[i]] {
      if i > 0 {
        assert now[i] == held[i - 1] == Born(log)[t.live[i - 1]];
      }
    }
  }

  lemma {:induction false} MatchesFreeAt(held: seq<ListHead>, i: nat, log: seq<Event>, t: Track)
    requires Matches(held, log, t) && Distinct(held) && i < |held|
    ensures Matches(Without(held, i), log + [Freed(held[i])], Step(t, FreeAt(i)))
  {
    LogStep(log, Freed(held[i]));
    MembersWithout(held, i);
    var now, live := Without(held, i), Without(t.live, i);
    assert forall j :: 0 <= j < |now| ==> now[j] == held[Lift(j, i)] && live[j] == t.live[Lift(j, i)];
  }

  lemma {:induction false} MatchesStep(op: Op, held: seq<ListHead>, now: seq<ListHead>, log: seq<Event>, t: Track)
    requires Matches(held, log, t) && Moves(op, held, now) && Distinct(held)
    ensures Matches(now, log + Asked(op, held, now), Step(t, op))
  {
    match op
    case Malloc(memory) =>
      if memory {
        MatchesMalloc(held, now[0], log, t);
        assert now == [now[0]] + held;
      } else {
        assert log + [] == log;
      }
    case FreeAt(i) =>
      if i < |held| {
        MatchesFreeAt(held, i, log, t);
      } else {
        assert log + [] == log;
      }
    case FreeAll =>
      LogFrees(log, held);
  }

  /** One operation; `held` are the client's pointers to its blocks. */
  method Apply(list: MallocList, op: Op, held: seq<ListHead>) returns (now: seq<ListHead>)
    requires list.Sound() && held == list.Blocks()
    modifies list, list.ring, list.heap
    ensures list.Sound() && now == list.Blocks()
    ensures Moves(op, held, now) && list.heap.log == old(list.heap.log) + Asked(op, held, now)
    ensures op.Malloc? && op.memory ==> fresh(now[0])
    ensures forall i :: 0 <= i < |list.ring| ==> list.ring[i] in old(list.ring) || fresh(list.ring[i])
  {
    match op {
      case Malloc(memory) =>
        var block := list.TestMalloc(memory);
        if block == null {
          now := held;
          assert old(list.heap.log) + [] == old(list.heap.log);
        } else {
          now := [block] + held;
          assert list.ring[1..] == now && now[1..] == held;
        }
      case FreeAt(i) =>
        if i < |held| {
          assert list.ring[i + 1] == held[i];
          list.TestFree(held[i], i + 1);
          now := held[..i] + held[i + 1..];
          assert list.ring[1..] == now;
        } else {
          list.TestFree(null, 0);
          now := held;
          assert old(list.heap.log) + [] == old(list.heap.log);
        }
      case FreeAll =>
        list.TestFreeAll();
        now := [];
    }
  }

  /** Whatever the sequence of operations, the list holds exactly the blocks that are allocated and
      not yet freed, most recent first, and they are the ones the operations leave. */
  method RunOps(ops: seq<Op>, heap: Heap) returns (list: MallocList)
    requires heap.log == []
    modifies heap
    ensures list.Sound() && list.heap == heap && Matches(list.Blocks(), heap.log, Tracked(ops))
  {
    list := new MallocList(heap);
    var held: seq<ListHead> := [];
    var k := 0;
    while k < |ops|
      invariant k <= |ops| && list.Sound() && held == list.Blocks() && list.heap == heap
      invariant fresh(list) && fresh(list.ring)
      invariant Matches(held, heap.log, Tracked(ops[..k]))
    {
      assert ops[..k + 1][..k] == ops[..k];
      ghost var log := heap.log;
      var now := Apply(list, ops[k], held);
      assert Distinct(held);
      MatchesStep(ops[k], held, now, log, Tracked(ops[..k]));
      held, k := now, k + 1;
    }
    assert ops[..k] == ops;
  }
}
