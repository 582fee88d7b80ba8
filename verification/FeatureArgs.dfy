/** The command line of `ethtool -K`: pairs of a name and `on` or `off`.  The `valid` and `requested`
words of the feature blocks are kept as two arrays of 32-bit words; `off_flags_mask` and
`off_flags_wanted`, which the parser reaches through pointers, are arrays of one word.
*/
module FeatureArgs {
  import opened Bits
  import opened Features

  /** Position of the first `name` in `names`, or the length of `names`. */
  function FirstIndex(names: seq<string>, name: string): (r: nat)
    ensures r <= |names|
    ensures r < |names| ==> names[r] == name
    ensures forall i :: 0 <= i < r ==> names[i] != name
  {
    if names == [] || names[0] == name then 0 else 1 + FirstIndex(names[1..], name)
  }

  /** One of the first `n` name-value pairs names option `i`, with value `on` if `on` is asked for. */
  ghost predicate Named(args: seq<string>, names: seq<string>, i: nat, n: nat, on: bool)
    requires 2 * n <= |args|
  {
    exists k :: 0 <= k < n && FirstIndex(names, args[2 * k]) == i && (on ==> args[2 * k + 1] == "on")
  }

  /** In the first `n` pairs every name is known and every value is `on` or `off`. */
  ghost predicate PairsOk(args: seq<string>, names: seq<string>, n: nat)
    requires 2 * n <= |args|
  {
    forall k :: 0 <= k < n ==>
      FirstIndex(names, args[2 * k]) < |names| && (args[2 * k + 1] == "on" || args[2 * k + 1] == "off")
  }

  ghost predicate ArgsOk(args: seq<string>, names: seq<string>) {
    |args| % 2 == 0 && PairsOk(args, names, |args| / 2)
  }

  function ShortNames(flags: seq<FlagDef>): seq<string> {
    seq(|flags|, i requires 0 <= i < |flags| => flags[i].shortName)
  }

  /** All names the command line may use; the flags come first. */
  function OptionNames(flags: seq<FlagDef>, featureNames: seq<string>): seq<string> {
    ShortNames(flags) + featureNames
  }

  /** The words hold, for every flag, whether the first `k` pairs name it. */
  ghost predicate ShowsFlags(word: seq<Word>, flags: seq<FlagDef>,
                             args: seq<string>, names: seq<string>, k: nat, on: bool)
    requires 2 * k <= |args|
  {
    && WellFormed(word, 32) && |word| == 1
    && forall i :: 0 <= i < |flags| ==> (Has(word, 32, flags[i].bit) <==> Named(args, names, i, k, on))
  }

  /** The words hold, for every feature and nothing else, whether the first `k` pairs name it. */
  ghost predicate ShowsFeatures(words: seq<Word>, n: nat, base: nat,
                                args: seq<string>, names: seq<string>, k: nat, on: bool)
    requires 2 * k <= |args|
  {
    && WellFormed(words, 32) && n <= 32 * |words|
    && forall b: nat :: Has(words, 32, b) <==> b < n && Named(args, names, base + b, k, on)
  }

  /** What the four words or arrays of words hold after `k` pairs. */
  ghost predicate Shows(mask: seq<Word>, wanted: seq<Word>, valid: seq<Word>, requested: seq<Word>,
                        flags: seq<FlagDef>, featureNames: seq<string>, args: seq<string>, k: nat)
    requires 2 * k <= |args|
  {
    var names := OptionNames(flags, featureNames);
    && ShowsFlags(mask, flags, args, names, k, false)
    && ShowsFlags(wanted, flags, args, names, k, true)
    && ShowsFeatures(valid, |featureNames|, |flags|, args, names, k, false)
    && ShowsFeatures(requested, |featureNames|, |flags|, args, names, k, true)
  }

  lemma {:induction false} ShowsFlagsNext(before: seq<Word>, word: seq<Word>, flags: seq<FlagDef>,
                       args: seq<string>, names: seq<string>, k: nat, on: bool)
    requires 2 * k + 2 <= |args| && WellDefined(flags) && ShowsFlags(before, flags, args, names, k, on)
    requires WellFormed(word, 32) && |word| == 1
    requires var idx := FirstIndex(names, args[2 * k]);
      forall b: nat :: Has(word, 32, b) <==>
        || Has(before, 32, b)
        || (idx < |flags| && b == flags[idx].bit && (on ==> args[2 * k + 1] == "on"))
    ensures ShowsFlags(word, flags, args, names, k + 1, on)
  {}

  lemma {:induction false} ShowsFeaturesNext(before: seq<Word>, words: seq<Word>, n: nat, base: nat,
                          args: seq<string>, names: seq<string>, k: nat, on: bool)
    requires 2 * k + 2 <= |args| && ShowsFeatures(before, n, base, args, names, k, on)
    requires WellFormed(words, 32) && |words| == |before| && FirstIndex(names, args[2 * k]) < base + n
    requires var idx := FirstIndex(names, args[2 * k]);
      forall b: nat :: Has(words, 32, b) <==>
        || Has(before, 32, b)
        || (base <= idx && b == idx - base && (on ==> args[2 * k + 1] == "on"))
    ensures ShowsFeatures(words, n, base, args, names, k + 1, on)
  {}

  method FindOption(names: seq<string>, name: string) returns (idx: nat)
    ensures idx == FirstIndex(names, name)
  {
    idx := 0;
    while idx < |names| && names[idx] != name
      invariant idx <= |names| && FirstIndex(names, name) == idx + FirstIndex(names[idx..], name)
    {
      assert names[idx..][1..] == names[idx + 1..];
      idx := idx + 1;
    }
  }

  /** The `CMDL_FLAG` case of `parse_generic_cmdline` for option `idx`: mark it as seen, and as
      wanted if its value is `on`. */
  method Record(flags: seq<FlagDef>, idx: nat, on: bool,
                offMask: array<Word>, offWanted: array<Word>, valid: array<Word>, requested: array<Word>)
    requires WellDefined(flags) && offMask != offWanted && valid != requested
    requires offMask != valid && offMask != requested && offWanted != valid && offWanted != requested
    requires offMask.Length == 1 == offWanted.Length && valid.Length == requested.Length
    requires WellFormed(offMask[..], 32) && WellFormed(offWanted[..], 32)
    requires WellFormed(valid[..], 32) && WellFormed(requested[..], 32)
    requires idx < |flags| + 32 * valid.Length
    modifies offMask, offWanted, valid, requested
    ensures WellFormed(offMask[..], 32) && WellFormed(offWanted[..], 32)
    ensures WellFormed(valid[..], 32) && WellFormed(requested[..], 32)
    ensures forall b: nat :: Has(offMask[..], 32, b) <==>
      Has(old(offMask[..]), 32, b) || (idx < |flags| && b == flags[idx].bit)
    ensures forall b: nat :: Has(offWanted[..], 32, b) <==>
      Has(old(offWanted[..]), 32, b) || (idx < |flags| && b == flags[idx].bit && on)
    ensures forall b: nat :: Has(valid[..], 32, b) <==>
      Has(old(valid[..]), 32, b) || (|flags| <= idx && b == idx - |flags|)
    ensures forall b: nat :: Has(requested[..], 32, b) <==>
      Has(old(requested[..]), 32, b) || (|flags| <= idx && b == idx - |flags| && on)
  {
    if idx < |flags| {
      SetBit(flags[idx].bit, offMask, 32);
      if on {
        SetBit(flags[idx].bit, offWanted, 32);
      }
    } else {
      SetBit(idx - |flags|, valid, 32);
      if on {
        SetBit(idx - |flags|, requested, 32);
      }
    }
  }

  lemma {:induction false} BadPair(args: seq<string>, names: seq<string>, k: nat)
    requires 2 * k < |args|
    requires FirstIndex(names, args[2 * k]) == |names| || |args| <= 2 * k + 1 ||
             (args[2 * k + 1] != "on" && args[2 * k + 1] != "off")
    ensures !ArgsOk(args, names)
  {}

  /** One turn of the parser's loop, at argument `i`. */
  method ParsePair(args: seq<string>, i: nat, ghost k: nat, flags: seq<FlagDef>, featureNames: seq<string>,
                   offMask: array<Word>, offWanted: array<Word>, valid: array<Word>, requested: array<Word>)
    returns (ok: bool)
    requires WellDefined(flags) && offMask != offWanted && valid != requested
    requires offMask != valid && offMask != requested && offWanted != valid && offWanted != requested
    requires valid.Length == requested.Length && i == 2 * k < |args|
    requires PairsOk(args, OptionNames(flags, featureNames), k)
    requires Shows(offMask[..], offWanted[..], valid[..], requested[..], flags, featureNames, args, k)
    modifies offMask, offWanted, valid, requested
    ensures !ok ==> !ArgsOk(args, OptionNames(flags, featureNames))
    ensures ok ==>
      && 2 * k + 2 <= |args| && PairsOk(args, OptionNames(flags, featureNames), k + 1)
      && Shows(offMask[..], offWanted[..], valid[..], requested[..], flags, featureNames, args, k + 1)
  {
    var names := OptionNames(flags, featureNames);
    var idx := FindOption(names, args[i]);
    if idx == |names| || i + 1 >= |args| {
      BadPair(args, names, k);
      return false;
    }
    ghost var m, w, v, r := offMask[..], offWanted[..], valid[..], requested[..];
    Record(flags, idx, args[i + 1] == "on", offMask, offWanted, valid, requested);
    if args[i + 1] != "on" && args[i + 1] != "off" {
      BadPair(args, names, k);
      return false;
    }
    ShowsFlagsNext(m, offMask[..], flags, args, names, k, false);
    ShowsFlagsNext(w, offWanted[..], flags, args, names, k, true);
    ShowsFeaturesNext(v, valid[..], |featureNames|, |flags|, args, names, k, false);
    ShowsFeaturesNext(r, requested[..], |featureNames|, |flags|, args, names, k, true);
    return true;
  }

  /** `parse_generic_cmdline` on the options of `do_sfeatures`. */
  method ParseArgs(args: seq<string>, flags: seq<FlagDef>, featureNames: seq<string>,
                   offMask: array<Word>, offWanted: array<Word>, valid: array<Word>, requested: array<Word>)
    returns (ok: bool)
    requires WellDefined(flags) && offMask != offWanted && valid != requested
    requires offMask != valid && offMask != requested && offWanted != valid && offWanted != requested
    requires valid.Length == requested.Length
    requires Shows(offMask[..], offWanted[..], valid[..], requested[..], flags, featureNames, args, 0)
    modifies offMask, offWanted, valid, requested
    ensures ok <==> ArgsOk(args, OptionNames(flags, featureNames))
    ensures ok ==>
      Shows(offMask[..], offWanted[..], valid[..], requested[..], flags, featureNames, args, |args| / 2)
  {
    ghost var names := OptionNames(flags, featureNames);
    var i: nat := 0;
    ghost var k: nat := 0;
    ok := true;
    while i < |args|
      invariant ok && i == 2 * k <= |args| && PairsOk(args, names, k)
      invariant Shows(offMask[..], offWanted[..], valid[..], requested[..], flags, featureNames, args, k)
    {
      ok := ParsePair(args, i, k, flags, featureNames, offMask, offWanted, valid, requested);
      if !ok {
        return;
      }
      i, k := i + 2, k + 1;
    }
  }
}
