/** cansequence: a sender numbers its CAN frames modulo 256 and a receiver reports every frame
whose number is not the expected one.
*/
module CanSequence {
  import opened Machine

  function Next(b: Byte): Byte {
    (b as nat + 1) % 256
  }

  /** Outcome of one `write`; when buffer space ran out, whether the `poll` that follows fails. */
  datatype WriteResult = Written | NoBuffers(pollFails: bool) | Interrupted | OtherError

  function CountWritten(writes: seq<WriteResult>): nat {
    if writes == [] then 0
    else CountWritten(writes[..|writes| - 1]) + if writes[|writes| - 1].Written? then 1 else 0
  }

  /** Writing the same frame again and again, from outcome `start` on: after an interruption, and when
      buffers ran out and polling for room succeeded. */
  method Retry(writes: seq<WriteResult>, start: nat, usePoll: bool) returns (used: nat)
    requires start <= |writes|
    ensures start <= used <= |writes| && CountWritten(writes[..used]) == CountWritten(writes[..start])
    ensures forall k :: start <= k < used ==>
      writes[k] == Interrupted || (usePoll && writes[k] == NoBuffers(false))
    ensures used < |writes| ==>
      || writes[used] == Written || writes[used] == OtherError || writes[used] == NoBuffers(true)
      || (!usePoll && writes[used] == NoBuffers(false))
  {
    used := start;
    while used < |writes| &&
          (writes[used].Interrupted? || (writes[used].NoBuffers? && usePoll && !writes[used].pollFails))
      invariant start <= used <= |writes| && CountWritten(writes[..used]) == CountWritten(writes[..start])
      invariant forall k :: start <= k < used ==>
        writes[k] == Interrupted || (usePoll && writes[k] == NoBuffers(false))
    {
      assert writes[..used + 1][..used] == writes[..used];
      used := used + 1;
    }
  }

  /** The send loop on a given sequence of write outcomes.  `used` of them are consumed before the
      loop ends by its count, by a failure, or because there are no more; `wraps` messages about a
      wrap-around are due. */
  method Send(writes: seq<WriteResult>, infinite: bool, loopcount: nat, usePoll: bool)
    returns (wire: seq<Byte>, wraps: nat, failed: bool, used: nat)
    ensures used <= |writes|
    ensures |wire| == CountWritten(writes[..used])
    ensures Numbered(wire)
    ensures wraps == |wire| / 256
    ensures !infinite ==> |wire| <= loopcount
    ensures forall k :: 0 <= k < used ==>
      || writes[k] == Written || writes[k] == Interrupted || (usePoll && writes[k] == NoBuffers(false))
      || (failed && k == used - 1)
    ensures failed <==>
      && 0 < used
      && (|| writes[used - 1] == OtherError || writes[used - 1] == NoBuffers(true)
          || (!usePoll && writes[used - 1] == NoBuffers(false)))
    ensures !failed && used < |writes| ==> !infinite && |wire| == loopcount
  {
    wire, wraps, failed, used := [], 0, false, 0;
    var sequence: Byte, data0: Byte, remaining := 0, 0, loopcount;
    while infinite || remaining > 0
      invariant used <= |writes| && |wire| == CountWritten(writes[..used])
      invariant forall k :: 0 <= k < |wire| ==> wire[k] == k % 256
      invariant data0 == |wire| % 256 && sequence == |wire| % 256 && wraps == |wire| / 256
      invariant !infinite ==> |wire| + remaining == loopcount
      invariant forall k :: 0 <= k < used ==>
        writes[k] == Written || writes[k] == Interrupted || (usePoll && writes[k] == NoBuffers(false))
      decreases |writes| - used
    {
      if !infinite {
        remaining := remaining - 1;
      }
      used := Retry(writes, used, usePoll);
      if used == |writes| {
        return;
      }
      assert writes[..used + 1][..used] == writes[..used];
      used := used + 1;
      if !writes[used - 1].Written? {
        failed := true;
        return;
      }
      wire := wire + [data0];
      data0, sequence := Next(data0), Next(sequence);
      if sequence == 0 {
        wraps := wraps + 1;
      }
    }
  }

  // ----- The receiver

  /** Frames whose number is not one more than that of the frame before. */
  function Mismatches(frames: seq<Byte>): nat {
    if |frames| < 2 then 0
    else
      var last := |frames| - 1;
      Mismatches(frames[..last]) + if frames[last] != Next(frames[last - 1]) then 1 else 0
  }

  /** Outcome of one `read`: the first data byte of the frame, or an error. */
  datatype ReadResult = Frame(data0: Byte) | ReadError

  /** The frames before the first error. */
  function Frames(input: seq<ReadResult>): seq<Byte> {
    if input == [] || input[0].ReadError? then [] else [input[0].data0] + Frames(input[1..])
  }

  /** Why the receive loop ended. */
  datatype End = Finished | Quit | ReadFailed

  /** The receive loop on a given sequence of read outcomes; it uses `used` frames.  With `quit` it
      stops at the first report. */
  method Receive(input: seq<ReadResult>, infinite: bool, loopcount: nat, quit: bool)
    returns (reports: nat, end: End, used: nat)
    ensures used <= |Frames(input)| && reports == Mismatches(Frames(input)[..used])
    ensures end == Quit <==> quit && 0 < reports
    ensures end == Quit ==> reports == 1 && 0 < used && Mismatches(Frames(input)[..used - 1]) == 0
    ensures end != Quit ==> used == if infinite || |Frames(input)| <= loopcount then |Frames(input)| else loopcount
    ensures end == ReadFailed <==>
      end != Quit && used < |input| && input[used].ReadError? && (infinite || used < loopcount)
  {
    reports, end, used := 0, Finished, 0;
    var sequence: Byte, sequenceInit, remaining := 0, true, loopcount;
    ghost var frames := Frames(input);
    while used < |input| && (infinite || remaining > 0)
      invariant used <= |frames| && used <= |input| && end == Finished
      invariant FramesFrom(input, used)
      invariant reports == Mismatches(frames[..used])
      invariant sequenceInit <==> used == 0
      invariant 0 < used ==> sequence == Next(frames[used - 1])
      invariant !infinite ==> used + remaining == loopcount
      invariant quit ==> reports == 0
    {
      NextFrame(input, used);
      if !infinite {
        remaining := remaining - 1;
      }
      if input[used].ReadError? {
        end := ReadFailed;
        return;
      }
      var data0 := input[used].data0;
      assert frames[..used + 1][..used] == frames[..used];
      used := used + 1;
      if sequenceInit {
        sequenceInit, sequence := false, data0;
      }
      if data0 != sequence {
        reports := reports + 1;
        if quit {
          end := Quit;
          return;
        }
        sequence := data0;
      }
      sequence := Next(sequence);
    }
  }

  /** The first `n` reads are frames. */
  ghost predicate FramesFrom(input: seq<ReadResult>, n: nat) {
    && n <= |input| && n <= |Frames(input)|
    && (n == |input| ==> |Frames(input)| == n)
    && Frames(input)[n..] == Frames(input[n..])
  }

  lemma {:induction false} NextFrame(input: seq<ReadResult>, n: nat)
    requires FramesFrom(input, n) && n < |input|
    ensures input[n].ReadError? ==> |Frames(input)| == n
    ensures input[n].Frame? ==>
      n < |Frames(input)| && Frames(input)[n] == input[n].data0 && FramesFrom(input, n + 1)
  {
    var rest := Frames(input[n..]);
    assert Frames(input)[n..] == rest;
    if input[n].Frame? {
      assert rest == [input[n].data0] + Frames(input[n..][1..]);
      assert input[n..][1..] == input[n + 1..];
      assert Frames(input)[n + 1..] == rest[1..] == Frames(input[n + 1..]);
    }
  }

  // ----- Over a channel that loses frames and keeps their order

  /** The positions, in the sender's stream, of the frames that got through. */
  predicate InOrder(arrived: seq<nat>) {
    forall i, j :: 0 <= i < j < |arrived| ==> arrived[i] < arrived[j]
  }

  /** The sender's stream, as `Send` puts it on the wire. */
  predicate Numbered(wire: seq<Byte>) {
    forall k :: 0 <= k < |wire| ==> wire[k] == k % 256
  }

  /** What a receiver gets of the stream `wire`. */
  function Arriving(wire: seq<Byte>, arrived: seq<nat>): seq<Byte>
    requires forall i :: 0 <= i < |arrived| ==> arrived[i] < |wire|
  {
    seq(|arrived|, i requires 0 <= i < |arrived| => wire[arrived[i]])
  }

  /** Frames lost just before the arrival with index `i`. */
  function Lost(arrived: seq<nat>, i: nat): nat
    requires InOrder(arrived) && 0 < i < |arrived|
  {
    arrived[i] - arrived[i - 1] - 1
  }

  /** Gaps whose length is not a multiple of 256. */
  function VisibleGaps(arrived: seq<nat>): nat
    requires InOrder(arrived)
  {
    if |arrived| < 2 then 0
    else
      var last := |arrived| - 1;
      VisibleGaps(arrived[..last]) + if Lost(arrived, last) % 256 != 0 then 1 else 0
  }

  lemma {:induction false} GapVisible(a: nat, b: nat)
    requires a < b
    ensures b % 256 == Next(a % 256) <==> (b - a - 1) % 256 == 0
  {}

  /** The receiver reports one error for every gap that is not a multiple of 256, and no other,
      whatever part of the sender's stream gets through. */
  lemma {:induction false} GapsReported(wire: seq<Byte>, arrived: seq<nat>)
    requires Numbered(wire) && InOrder(arrived) && forall i :: 0 <= i < |arrived| ==> arrived[i] < |wire|
    ensures Mismatches(Arriving(wire, arrived)) == VisibleGaps(arrived)
    decreases |arrived|
  {
    if 2 <= |arrived| {
      var last := |arrived| - 1;
      GapsReported(wire, arrived[..last]);
      assert Arriving(wire, arrived)[..last] == Arriving(wire, arrived[..last]);
      GapVisible(arrived[last - 1], arrived[last]);
    }
  }

  /** End to end: over a channel that only loses frames, a receiver that does not quit and is not
      stopped by its count reports exactly the visible gaps in what the sender sent. */
  method Check(writes: seq<WriteResult>, usePoll: bool, arrived: seq<nat>)
    returns (reports: nat, wire: seq<Byte>)
    requires InOrder(arrived)
    ensures (forall i :: 0 <= i < |arrived| ==> arrived[i] < |wire|) ==> reports == VisibleGaps(arrived)
  {
    var wraps, failed, used, end;
    wire, wraps, failed, used := Send(writes, true, 0, usePoll);
    reports := 0;
    if forall i :: 0 <= i < |arrived| ==> arrived[i] < |wire| {
      var input := seq(|arrived|, i requires 0 <= i < |arrived| => Frame(wire[arrived[i]]));
      AllFrames(input, Arriving(wire, arrived));
      reports, end, used := Receive(input, true, 0, false);
      GapsReported(wire, arrived);
      assert Frames(input)[..used] == Arriving(wire, arrived);
    }
  }

  lemma {:induction false} AllFrames(input: seq<ReadResult>, frames: seq<Byte>)
    requires |input| == |frames| && forall i :: 0 <= i < |input| ==> input[i] == Frame(frames[i])
    ensures Frames(input) == frames
  {
    if input != [] {
      AllFrames(input[1..], frames[1..]);
    }
  }

  /** Silence means that every loss was a multiple of 256 frames long. */
  lemma {:induction false} SilentIff(arrived: seq<nat>)
    requires InOrder(arrived)
    ensures VisibleGaps(arrived) == 0 <==>
      forall i :: 0 < i < |arrived| ==> Lost(arrived, i) % 256 == 0
  {
    if 2 <= |arrived| {
      var last := |arrived| - 1;
      var init := arrived[..last];
      SilentIff(init);
      assert forall i {:trigger Lost(arrived, i)} {:trigger Lost(init, i)} :: 0 < i < last ==>
        Lost(arrived, i) == Lost(init, i);
    }
  }
}
