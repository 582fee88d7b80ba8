/** The request `ethtool -K` sends: features the user named, plus the changeable features of the
offload flags the user named.
*/
module FeatureRequest {
  import opened Bits
  import opened Features
  import opened FeatureArgs
  import opened LegacyOffload

  // ----- Merging the flags into the request

  /** Feature `j` belongs to flag `i` and the device lets it change. */
  predicate Changeable(offFlagIndex: seq<int>, available: seq<Word>, never: seq<Word>, i: int, j: nat)
    requires WellFormed(available, 32) && WellFormed(never, 32)
  {
    j < |offFlagIndex| && offFlagIndex[j] == i && Has(available, 32, j) && !Has(never, 32, j)
  }

  /** The inner loop: set what is changeable and was not named. */
  method MergeFlag(offFlagIndex: seq<int>, available: seq<Word>, never: seq<Word>, i: int, on: bool,
                   valid: array<Word>, requested: array<Word>) returns (isFixed: bool)
    requires valid != requested && valid.Length == requested.Length && |offFlagIndex| <= 32 * valid.Length
    requires WellFormed(valid[..], 32) && WellFormed(requested[..], 32)
    requires WellFormed(available, 32) && WellFormed(never, 32)
    modifies valid, requested
    ensures WellFormed(valid[..], 32) && WellFormed(requested[..], 32)
    ensures forall j: nat :: Has(valid[..], 32, j) <==>
      Has(old(valid[..]), 32, j) || Changeable(offFlagIndex, available, never, i, j)
    ensures forall j: nat :: Has(requested[..], 32, j) <==>
      || Has(old(requested[..]), 32, j)
      || (on && !Has(old(valid[..]), 32, j) && Changeable(offFlagIndex, available, never, i, j))
    ensures isFixed <==>
      forall j: nat :: j < |offFlagIndex| && offFlagIndex[j] == i ==> !Has(available, 32, j) || Has(never, 32, j)
  {
    isFixed := true;
    var j := 0;
    while j < |offFlagIndex|
      invariant 0 <= j <= |offFlagIndex|
      invariant WellFormed(valid[..], 32) && WellFormed(requested[..], 32)
      invariant forall b: nat :: Has(valid[..], 32, b) <==>
        Has(old(valid[..]), 32, b) || (b < j && Changeable(offFlagIndex, available, never, i, b))
      invariant forall b: nat :: Has(requested[..], 32, b) <==>
        || Has(old(requested[..]), 32, b)
        || (b < j && on && !Has(old(valid[..]), 32, b) && Changeable(offFlagIndex, available, never, i, b))
      invariant isFixed <==>
        forall b: nat :: b < j && offFlagIndex[b] == i ==> !Has(available, 32, b) || Has(never, 32, b)
    {
      if offFlagIndex[j] == i && Has(available, 32, j) && !Has(never, 32, j) {
        isFixed := false;
        var named := TestBit(j, valid, 32);
        if !named {
          SetBit(j, valid, 32);
          if on {
            SetBit(j, requested, 32);
          }
        }
      }
      j := j + 1;
    }
  }

  /** Feature `j` is changeable and belongs to one of the first `m` flags, which is set in `word`. */
  ghost predicate Through(word: seq<Word>, flags: seq<FlagDef>, offFlagIndex: seq<int>,
                          available: seq<Word>, never: seq<Word>, m: nat, j: nat)
    requires WellFormed(word, 32) && WellFormed(available, 32) && WellFormed(never, 32) && m <= |flags|
  {
    && j < |offFlagIndex| && 0 <= offFlagIndex[j] < m
    && Has(word, 32, flags[offFlagIndex[j]].bit)
    && Changeable(offFlagIndex, available, never, offFlagIndex[j], j)
  }

  /** The outer loop; `cannotChange` lists the flags it warns about. */
  method Merge(flags: seq<FlagDef>, offFlagIndex: seq<int>, available: seq<Word>, never: seq<Word>,
               offMask: array<Word>, offWanted: array<Word>, valid: array<Word>, requested: array<Word>)
    returns (cannotChange: seq<nat>)
    requires WellDefined(flags) && valid != requested && |offFlagIndex| <= 32 * valid.Length
    requires offMask != valid && offMask != requested && offWanted != valid && offWanted != requested
    requires offMask.Length == 1 == offWanted.Length && valid.Length == requested.Length
    requires WellFormed(offMask[..], 32) && WellFormed(offWanted[..], 32)
    requires WellFormed(valid[..], 32) && WellFormed(requested[..], 32)
    requires WellFormed(available, 32) && WellFormed(never, 32)
    modifies valid, requested
    ensures WellFormed(valid[..], 32) && WellFormed(requested[..], 32)
    ensures forall j: nat :: Has(valid[..], 32, j) <==>
      Has(old(valid[..]), 32, j) || Through(offMask[..], flags, offFlagIndex, available, never, |flags|, j)
    ensures forall j: nat :: Has(requested[..], 32, j) <==>
      || Has(old(requested[..]), 32, j)
      || (&& !Has(old(valid[..]), 32, j)
          && Through(offMask[..], flags, offFlagIndex, available, never, |flags|, j)
          && Through(offWanted[..], flags, offFlagIndex, available, never, |flags|, j))
    ensures forall i: nat :: i in cannotChange <==>
      && i < |flags| && Has(offMask[..], 32, flags[i].bit)
      && forall j: nat :: j < |offFlagIndex| && offFlagIndex[j] == i ==> !Has(available, 32, j) || Has(never, 32, j)
  {
    cannotChange := [];
    ghost var mask, wanted, v, r := offMask[..], offWanted[..], valid[..], requested[..];
    var i := 0;
    while i < |flags|
      invariant 0 <= i <= |flags| && offMask[..] == mask && offWanted[..] == wanted
      invariant WellFormed(valid[..], 32) && WellFormed(requested[..], 32)
      invariant forall j: nat :: Has(valid[..], 32, j) <==>
        Has(v, 32, j) || Through(mask, flags, offFlagIndex, available, never, i, j)
      invariant forall j: nat :: Has(requested[..], 32, j) <==>
        || Has(r, 32, j)
        || (&& !Has(v, 32, j)
            && Through(mask, flags, offFlagIndex, available, never, i, j)
            && Through(wanted, flags, offFlagIndex, available, never, i, j))
      invariant forall k: nat :: k in cannotChange <==>
        && k < i && Has(mask, 32, flags[k].bit)
        && forall j: nat :: j < |offFlagIndex| && offFlagIndex[j] == k ==> !Has(available, 32, j) || Has(never, 32, j)
    {
      var named := TestBit(flags[i].bit, offMask, 32);
      if named {
        var on := TestBit(flags[i].bit, offWanted, 32);
        var isFixed := MergeFlag(offFlagIndex, available, never, i, on, valid, requested);
        if isFixed {
          cannotChange := cannotChange + [i];
        }
      }
      i := i + 1;
    }
  }

  // ----- The request

  datatype Outcome =
    | BadArgs
    | NothingChanged
    | Legacy(sent: seq<Command>)
    | Request(valid: seq<Word>, requested: seq<Word>, cannotChange: seq<nat>)

  /** The user named feature `j`. */
  ghost predicate FeatureNamed(args: seq<string>, flags: seq<FlagDef>, featureNames: seq<string>, j: nat, on: bool) {
    Named(args, OptionNames(flags, featureNames), |flags| + j, |args| / 2, on)
  }

  /** The user named the offload flag of feature `j`, which the device lets change. */
  ghost predicate FlagNamed(args: seq<string>, flags: seq<FlagDef>, featureNames: seq<string>, offFlagIndex: seq<int>,
                            available: seq<Word>, never: seq<Word>, j: nat, on: bool)
    requires WellFormed(available, 32) && WellFormed(never, 32)
  {
    && j < |offFlagIndex| && 0 <= offFlagIndex[j] < |flags|
    && Named(args, OptionNames(flags, featureNames), offFlagIndex[j], |args| / 2, on)
    && Has(available, 32, j) && !Has(never, 32, j)
  }

  /** The request covers feature `j`: it was named, or its flag was. */
  ghost predicate ValidAsAsked(args: seq<string>, flags: seq<FlagDef>, featureNames: seq<string>,
                               offFlagIndex: seq<int>, available: seq<Word>, never: seq<Word>, j: nat)
    requires WellFormed(available, 32) && WellFormed(never, 32)
  {
    && j < |featureNames|
    && (|| FeatureNamed(args, flags, featureNames, j, false)
        || FlagNamed(args, flags, featureNames, offFlagIndex, available, never, j, false))
  }

  /** The request switches feature `j` on: its own name decides, and its flag only otherwise. */
  ghost predicate RequestedAsAsked(args: seq<string>, flags: seq<FlagDef>, featureNames: seq<string>,
                                   offFlagIndex: seq<int>, available: seq<Word>, never: seq<Word>, j: nat)
    requires WellFormed(available, 32) && WellFormed(never, 32)
  {
    && j < |featureNames|
    && if FeatureNamed(args, flags, featureNames, j, false)
       then FeatureNamed(args, flags, featureNames, j, true)
       else FlagNamed(args, flags, featureNames, offFlagIndex, available, never, j, true)
  }

  /** `do_sfeatures` up to what it sends: one request on a device that reports `featureNames`, their
      offload flags, and which features are available and which never change; the legacy commands
      on a device without named features, whose flags are `offFlags`. */
  method DoSfeatures(args: seq<string>, flags: seq<FlagDef>, featureNames: seq<string>, offFlagIndex: seq<int>,
                     available: seq<Word>, never: seq<Word>, offFlags: Word, refusedAt: nat) returns (r: Outcome)
    requires WellDefined(flags) && |offFlagIndex| == |featureNames| && |offFlags| == 32
    requires WellFormed(available, 32) && WellFormed(never, 32)
    ensures r.BadArgs? <==> !ArgsOk(args, OptionNames(flags, featureNames))
    ensures r.NothingChanged? <==> args == []
    ensures r.Legacy? ==> featureNames == [] && LegacyAsAsked(args, flags, offFlags, refusedAt, r.sent)
    ensures r.Request? ==> featureNames != []
    ensures r.Request? ==> WellFormed(r.valid, 32) && WellFormed(r.requested, 32)
    ensures r.Request? ==> |r.valid| == |r.requested| == (|featureNames| + 31) / 32
    ensures r.Request? ==> forall j: nat :: Has(r.valid, 32, j) <==>
      ValidAsAsked(args, flags, featureNames, offFlagIndex, available, never, j)
    ensures r.Request? ==> forall j: nat :: Has(r.requested, 32, j) <==>
      RequestedAsAsked(args, flags, featureNames, offFlagIndex, available, never, j)
    ensures r.Request? ==> forall j: nat ::
      !FeatureNamed(args, flags, featureNames, j, false) && (!Has(available, 32, j) || Has(never, 32, j)) ==>
        !Has(r.valid, 32, j) && !Has(r.requested, 32, j)
    ensures r.Request? ==> forall i: nat :: i in r.cannotChange <==>
      && i < |flags|
      && Named(args, OptionNames(flags, featureNames), i, |args| / 2, false)
      && forall j: nat :: j < |offFlagIndex| && offFlagIndex[j] == i ==> !Has(available, 32, j) || Has(never, 32, j)
  {
    var blocks := (|featureNames| + 31) / 32;
    var offMask := new Word[1](_ => Zero(32));
    var offWanted := new Word[1](_ => Zero(32));
    var valid := new Word[blocks](_ => Zero(32));
    var requested := new Word[blocks](_ => Zero(32));
    var ok := ParseArgs(args, flags, featureNames, offMask, offWanted, valid, requested);
    if !ok {
      return BadArgs;
    }
    if args == [] {
      return NothingChanged;
    }
    if featureNames == [] {
      ShowsIsBoth(offMask[..], offWanted[..], valid[..], requested[..], flags, args);
      var sent := SendLegacy(flags, offMask, offWanted, offFlags, refusedAt);
      return Legacy(sent);
    }
    r := MergedRequest(args, flags, featureNames, offFlagIndex, available, never, offMask, offWanted, valid, requested);
  }

  /** The request on a device with named features. */
  method MergedRequest(ghost args: seq<string>, flags: seq<FlagDef>, ghost featureNames: seq<string>,
                       offFlagIndex: seq<int>, available: seq<Word>, never: seq<Word>,
                       offMask: array<Word>, offWanted: array<Word>, valid: array<Word>, requested: array<Word>)
    returns (r: Outcome)
    requires WellDefined(flags) && |offFlagIndex| == |featureNames| <= 32 * valid.Length
    requires offMask != valid && offMask != requested && offWanted != valid && offWanted != requested
    requires valid != requested && valid.Length == requested.Length
    requires WellFormed(available, 32) && WellFormed(never, 32)
    requires Shows(offMask[..], offWanted[..], valid[..], requested[..], flags, featureNames, args, |args| / 2)
    modifies valid, requested
    ensures r.Request? && WellFormed(r.valid, 32) && WellFormed(r.requested, 32)
    ensures |r.valid| == |r.requested| == valid.Length
    ensures forall j: nat :: Has(r.valid, 32, j) <==>
      ValidAsAsked(args, flags, featureNames, offFlagIndex, available, never, j)
    ensures forall j: nat :: Has(r.requested, 32, j) <==>
      RequestedAsAsked(args, flags, featureNames, offFlagIndex, available, never, j)
    ensures forall i: nat :: i in r.cannotChange <==>
      && i < |flags|
      && Named(args, OptionNames(flags, featureNames), i, |args| / 2, false)
      && forall j: nat :: j < |offFlagIndex| && offFlagIndex[j] == i ==> !Has(available, 32, j) || Has(never, 32, j)
  {
    ghost var v0, r0 := valid[..], requested[..];
    var cannotChange := Merge(flags, offFlagIndex, available, never, offMask, offWanted, valid, requested);
    r := Request(valid[..], requested[..], cannotChange);
    forall j: nat
      ensures Has(r.valid, 32, j) <==> ValidAsAsked(args, flags, featureNames, offFlagIndex, available, never, j)
      ensures Has(r.requested, 32, j) <==>
        RequestedAsAsked(args, flags, featureNames, offFlagIndex, available, never, j)
    {
      MergedMeaning(args, flags, featureNames, offFlagIndex, available, never, offMask[..], offWanted[..], v0, r0, j);
    }
  }

  lemma {:induction false} MergedMeaning(args: seq<string>, flags: seq<FlagDef>, featureNames: seq<string>,
                                         offFlagIndex: seq<int>, available: seq<Word>, never: seq<Word>,
                                         mask: seq<Word>, wanted: seq<Word>, valid: seq<Word>, requested: seq<Word>,
                                         j: nat)
    requires WellFormed(available, 32) && WellFormed(never, 32) && |offFlagIndex| == |featureNames|
    requires Shows(mask, wanted, valid, requested, flags, featureNames, args, |args| / 2)
    ensures ValidAsAsked(args, flags, featureNames, offFlagIndex, available, never, j) <==>
      Has(valid, 32, j) || Through(mask, flags, offFlagIndex, available, never, |flags|, j)
    ensures RequestedAsAsked(args, flags, featureNames, offFlagIndex, available, never, j) <==>
      || Has(requested, 32, j)
      || (&& !Has(valid, 32, j)
          && Through(mask, flags, offFlagIndex, available, never, |flags|, j)
          && Through(wanted, flags, offFlagIndex, available, never, |flags|, j))
  {}

  /** A feature is requested only if it is also valid, so the state the program expects afterwards,
      `(active & ~valid) | requested`, is: what was asked for where something was, and the old value
      everywhere else. */
  lemma {:induction false} ExpectedState(args: seq<string>, flags: seq<FlagDef>, featureNames: seq<string>,
                                         offFlagIndex: seq<int>, available: seq<Word>, never: seq<Word>,
                                         active: seq<Word>, valid: seq<Word>, requested: seq<Word>, j: nat)
    requires WellFormed(available, 32) && WellFormed(never, 32)
    requires WellFormed(active, 32) && WellFormed(valid, 32) && WellFormed(requested, 32)
    requires |active| == |valid| == |requested| && Quot(j, 32) < |active|
    requires forall i: nat :: Has(valid, 32, i) <==>
      ValidAsAsked(args, flags, featureNames, offFlagIndex, available, never, i)
    requires forall i: nat :: Has(requested, 32, i) <==>
      RequestedAsAsked(args, flags, featureNames, offFlagIndex, available, never, i)
    ensures Has(requested, 32, j) ==> Has(valid, 32, j)
    ensures var q := Quot(j, 32);
      Or(And(active[q], Not(valid[q])), requested[q])[Rem(j, 32)] <==>
      if ValidAsAsked(args, flags, featureNames, offFlagIndex, available, never, j)
      then RequestedAsAsked(args, flags, featureNames, offFlagIndex, available, never, j)
      else Has(active, 32, j)
  {}
}
