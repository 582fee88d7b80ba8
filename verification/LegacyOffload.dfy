/** `ethtool -K` on devices without named features: offload flags are set one by one, or together in
one word.
*/
module LegacyOffload {
  import opened Bits
  import opened Features
  import opened FeatureArgs

  /** A flag's own set command, or ETHTOOL_SFLAGS for the flags that have none. */
  datatype Command = SetFlag(flag: nat, on: bool) | SetFlags(data: Word)

  function ExtMask(): (r: Word)
    ensures |r| == 32
  {
    seq(32, b => b in EXT_BITS)
  }

  /** `(off_flags & ~mask & EXT) | (wanted & EXT)` */
  function FlagsWord(offFlags: Word, mask: Word, wanted: Word): Word
    requires |offFlags| == |mask| == |wanted| == 32
  {
    Or(And(And(offFlags, Not(mask)), ExtMask()), And(wanted, ExtMask()))
  }

  function FlagCommands(flags: seq<FlagDef>, mask: seq<Word>, wanted: seq<Word>, n: nat): seq<Command>
    requires n <= |flags| && WellFormed(mask, 32) && WellFormed(wanted, 32)
  {
    if n == 0 then []
    else
      var before, flag := FlagCommands(flags, mask, wanted, n - 1), flags[n - 1];
      if flag.hasSetCmd && Has(mask, 32, flag.bit) then before + [SetFlag(n - 1, Has(wanted, 32, flag.bit))] else before
  }

  /** All commands, if none is refused. */
  function Commands(flags: seq<FlagDef>, mask: seq<Word>, wanted: seq<Word>, offFlags: Word): seq<Command>
    requires WellFormed(mask, 32) && WellFormed(wanted, 32) && |mask| == |wanted| == 1 && |offFlags| == 32
  {
    FlagCommands(flags, mask, wanted, |flags|) +
    if IsZero(And(mask[0], ExtMask())) then [] else [SetFlags(FlagsWord(offFlags, mask[0], wanted[0]))]
  }

  /** What is sent are the commands up to the first one that the driver refuses. */
  predicate UpToRefusal(sent: seq<Command>, commands: seq<Command>, refusedAt: nat) {
    sent <= commands && |sent| == if refusedAt < |commands| then refusedAt + 1 else |commands|
  }

  /** The legacy branch of `do_sfeatures`; the driver refuses the command with number `refusedAt`. */
  method SendLegacy(flags: seq<FlagDef>, offMask: array<Word>, offWanted: array<Word>, offFlags: Word, refusedAt: nat)
    returns (sent: seq<Command>)
    requires WellDefined(flags) && offMask.Length == 1 == offWanted.Length && |offFlags| == 32
    requires WellFormed(offMask[..], 32) && WellFormed(offWanted[..], 32)
    ensures var all := Commands(flags, offMask[..], offWanted[..], offFlags);
      sent <= all && |sent| == if refusedAt < |all| then refusedAt + 1 else |all|
  {
    sent := [];
    var i := 0;
    ghost var all := Commands(flags, offMask[..], offWanted[..], offFlags);
    while i < |flags|
      invariant 0 <= i <= |flags| && sent == FlagCommands(flags, offMask[..], offWanted[..], i) && |sent| <= refusedAt
    {
      if flags[i].hasSetCmd {
        var named := TestBit(flags[i].bit, offMask, 32);
        if named {
          var on := TestBit(flags[i].bit, offWanted, 32);
          sent := sent + [SetFlag(i, on)];
          if |sent| - 1 == refusedAt {
            CommandsGrow(flags, offMask[..], offWanted[..], i + 1, |flags|);
            assert sent <= all;
            return;
          }
        }
      }
      i := i + 1;
    }
    if !IsZero(And(offMask[0], ExtMask())) {
      sent := sent + [SetFlags(FlagsWord(offFlags, offMask[0], offWanted[0]))];
    }
  }

  lemma {:induction false} CommandsGrow(flags: seq<FlagDef>, mask: seq<Word>, wanted: seq<Word>, m: nat, n: nat)
    requires m <= n <= |flags| && WellFormed(mask, 32) && WellFormed(wanted, 32)
    ensures FlagCommands(flags, mask, wanted, m) <= FlagCommands(flags, mask, wanted, n)
    decreases n
  {
    if m < n {
      CommandsGrow(flags, mask, wanted, m, n - 1);
    }
  }

  lemma {:induction false} FlagCommandsAre(flags: seq<FlagDef>, mask: seq<Word>, wanted: seq<Word>, n: nat)
    requires n <= |flags| && WellFormed(mask, 32) && WellFormed(wanted, 32)
    ensures forall i: nat, on :: SetFlag(i, on) in FlagCommands(flags, mask, wanted, n) <==>
      i < n && flags[i].hasSetCmd && Has(mask, 32, flags[i].bit) && on == Has(wanted, 32, flags[i].bit)
    ensures forall data :: SetFlags(data) !in FlagCommands(flags, mask, wanted, n)
  {
    if n != 0 {
      FlagCommandsAre(flags, mask, wanted, n - 1);
    }
  }

  /** One set command after another, by increasing number of the flag. */
  predicate InOrder(commands: seq<Command>) {
    forall p, q :: 0 <= p < q < |commands| ==>
      commands[p].SetFlag? && (commands[q].SetFlag? ==> commands[p].flag < commands[q].flag)
  }

  lemma {:induction false} FlagCommandsOrdered(flags: seq<FlagDef>, mask: seq<Word>, wanted: seq<Word>, n: nat)
    requires n <= |flags| && WellFormed(mask, 32) && WellFormed(wanted, 32)
    ensures InOrder(FlagCommands(flags, mask, wanted, n))
    ensures forall p :: 0 <= p < |FlagCommands(flags, mask, wanted, n)| ==>
      FlagCommands(flags, mask, wanted, n)[p].SetFlag? && FlagCommands(flags, mask, wanted, n)[p].flag < n
  {
    if n != 0 {
      FlagCommandsOrdered(flags, mask, wanted, n - 1);
    }
  }

  /** The flags' own commands come first, in the order of the flags; the word comes last. */
  lemma {:induction false} CommandsOrdered(flags: seq<FlagDef>, mask: seq<Word>, wanted: seq<Word>, offFlags: Word)
    requires WellFormed(mask, 32) && WellFormed(wanted, 32) && |mask| == |wanted| == 1 && |offFlags| == 32
    ensures InOrder(Commands(flags, mask, wanted, offFlags))
  {
    FlagCommandsOrdered(flags, mask, wanted, |flags|);
  }

  /** The arguments name flag `i`, with value `on` if `on` is asked for. */
  ghost predicate NamesFlag(args: seq<string>, flags: seq<FlagDef>, i: nat, on: bool) {
    Named(args, ShortNames(flags), i, |args| / 2, on)
  }

  /** The words hold which flags the arguments name, and which they switch on. */
  ghost predicate ShowsBoth(mask: seq<Word>, wanted: seq<Word>, args: seq<string>, flags: seq<FlagDef>) {
    && WellFormed(mask, 32) && WellFormed(wanted, 32) && |mask| == |wanted| == 1
    && (forall i: nat :: i < |flags| ==> (Has(mask, 32, flags[i].bit) <==> NamesFlag(args, flags, i, false)))
    && (forall i: nat :: i < |flags| ==> (Has(wanted, 32, flags[i].bit) <==> NamesFlag(args, flags, i, true)))
  }

  /** Every named flag with a command of its own gets that command, with the value asked for. */
  lemma {:induction false} OwnCommands(args: seq<string>, flags: seq<FlagDef>, mask: seq<Word>, wanted: seq<Word>,
                                       offFlags: Word)
    requires ShowsBoth(mask, wanted, args, flags) && |offFlags| == 32
    ensures forall i: nat, on :: SetFlag(i, on) in Commands(flags, mask, wanted, offFlags) <==>
      i < |flags| && flags[i].hasSetCmd && NamesFlag(args, flags, i, false) && on == NamesFlag(args, flags, i, true)
  {
    FlagCommandsAre(flags, mask, wanted, |flags|);
  }

  lemma {:induction false} WordBit(flag: FlagDef, mask: seq<Word>, wanted: seq<Word>, offFlags: Word)
    requires WellFormed(mask, 32) && WellFormed(wanted, 32) && |mask| == |wanted| == 1
    requires |offFlags| == 32 && flag.bit < 32
    ensures And(mask[0], ExtMask())[flag.bit] <==> flag.bit in EXT_BITS && Has(mask, 32, flag.bit)
    ensures FlagsWord(offFlags, mask[0], wanted[0])[flag.bit] <==>
      flag.bit in EXT_BITS && ((offFlags[flag.bit] && !Has(mask, 32, flag.bit)) || Has(wanted, 32, flag.bit))
  {}

  lemma {:induction false} OnlyWord(args: seq<string>, flags: seq<FlagDef>, mask: seq<Word>, wanted: seq<Word>,
                                    offFlags: Word, data: Word)
    requires ShowsBoth(mask, wanted, args, flags) && |offFlags| == 32
    ensures SetFlags(data) in Commands(flags, mask, wanted, offFlags) <==>
      !IsZero(And(mask[0], ExtMask())) && data == FlagsWord(offFlags, mask[0], wanted[0])
  {
    FlagCommandsAre(flags, mask, wanted, |flags|);
  }

  lemma {:induction false} NamesOn(args: seq<string>, flags: seq<FlagDef>, i: nat)
    requires NamesFlag(args, flags, i, true)
    ensures NamesFlag(args, flags, i, false)
  {}

  /** The bits of the word: named flags have the values asked for, the others their old ones. */
  lemma {:induction false} WordBits(args: seq<string>, flags: seq<FlagDef>, mask: seq<Word>, wanted: seq<Word>,
                                    offFlags: Word, i: nat)
    requires WellDefined(flags) && ExtFlags(flags) && ShowsBoth(mask, wanted, args, flags) && |offFlags| == 32
    requires i < |flags|
    ensures And(mask[0], ExtMask())[flags[i].bit] <==> !flags[i].hasSetCmd && NamesFlag(args, flags, i, false)
    ensures FlagsWord(offFlags, mask[0], wanted[0])[flags[i].bit] <==>
      && !flags[i].hasSetCmd
      && if NamesFlag(args, flags, i, false) then NamesFlag(args, flags, i, true) else offFlags[flags[i].bit]
  {
    WordBit(flags[i], mask, wanted, offFlags);
    if NamesFlag(args, flags, i, true) {
      NamesOn(args, flags, i);
    }
  }

  /** A flag without a command of its own is named. */
  ghost predicate NamesExt(args: seq<string>, flags: seq<FlagDef>) {
    exists i: nat :: i < |flags| && !flags[i].hasSetCmd && NamesFlag(args, flags, i, false)
  }

  /** If such a flag is named, and only then, the word is sent. */
  lemma {:induction false} WordCommand(args: seq<string>, flags: seq<FlagDef>,
                    mask: seq<Word>, wanted: seq<Word>, offFlags: Word, data: Word)
    requires WellDefined(flags) && ExtFlags(flags) && ShowsBoth(mask, wanted, args, flags) && |offFlags| == 32
    ensures SetFlags(data) in Commands(flags, mask, wanted, offFlags) <==>
      data == FlagsWord(offFlags, mask[0], wanted[0]) && NamesExt(args, flags)
  {
    OnlyWord(args, flags, mask, wanted, offFlags, data);
    var named := And(mask[0], ExtMask());
    if !IsZero(named) {
      var b :| 0 <= b < 32 && named[b];
      assert b in EXT_BITS;
      var i :| 0 <= i < |flags| && flags[i].bit == b;
      WordBits(args, flags, mask, wanted, offFlags, i);
    }
    if i: nat :| i < |flags| && !flags[i].hasSetCmd && NamesFlag(args, flags, i, false) {
      WordBits(args, flags, mask, wanted, offFlags, i);
    }
  }

  /** The commands sent are those of words that show exactly what the arguments name. */
  ghost predicate LegacyAsAsked(args: seq<string>, flags: seq<FlagDef>,
                                offFlags: Word, refusedAt: nat, sent: seq<Command>)
    requires |offFlags| == 32
  {
    exists mask, wanted ::
      && ShowsBoth(mask, wanted, args, flags)
      && UpToRefusal(sent, Commands(flags, mask, wanted, offFlags), refusedAt)
  }

  lemma {:induction false} ShowsIsBoth(mask: seq<Word>, wanted: seq<Word>, valid: seq<Word>, requested: seq<Word>,
                    flags: seq<FlagDef>, args: seq<string>)
    requires Shows(mask, wanted, valid, requested, flags, [], args, |args| / 2)
    ensures ShowsBoth(mask, wanted, args, flags)
  {
    assert OptionNames(flags, []) == ShortNames(flags);
  }
}
