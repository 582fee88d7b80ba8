/** Feature negotiation of `ethtool -K`: kernel feature names are matched against the legacy
offload flags, and what the user asked for is merged into one request of 32-bit blocks.
*/
module Features {
  /** An offload flag: its command-line name, its kernel name pattern, the position of its bit, and
      whether there is a command of its own that sets it. */
  datatype FlagDef = FlagDef(shortName: string, kernelName: string, bit: nat, hasSetCmd: bool)

  const OFF_FLAG_DEF: seq<FlagDef> := [
    FlagDef("rx", "rx-checksum", 0, true),
    FlagDef("tx", "tx-checksum-*", 1, true),
    FlagDef("sg", "tx-scatter-gather*", 2, true),
    FlagDef("tso", "tx-tcp*-segmentation", 3, true),
    FlagDef("ufo", "tx-udp-fragmentation", 4, true),
    FlagDef("gso", "tx-generic-segmentation", 5, true),
    FlagDef("gro", "rx-gro", 6, true),
    FlagDef("lro", "rx-lro", 15, false),
    FlagDef("rxvlan", "rx-vlan-hw-parse", 8, false),
    FlagDef("txvlan", "tx-vlan-hw-insert", 7, false),
    FlagDef("ntuple", "rx-ntuple-filter", 27, false),
    FlagDef("rxhash", "rx-hashing", 28, false)
  ]

  /** The bits of ETH_FLAG_EXT_MASK. */
  const EXT_BITS: set<nat> := {15, 8, 7, 27, 28}

  predicate NoNul(s: string) {
    forall i :: 0 <= i < |s| ==> s[i] != '\0'
  }

  predicate AtMostOneStar(s: string) {
    forall i, j :: 0 <= i < j < |s| ==> s[i] != '*' || s[j] != '*'
  }

  predicate WellDefined(flags: seq<FlagDef>) {
    && (forall i :: 0 <= i < |flags| ==>
          flags[i].bit < 32 && GoodPattern(flags[i].kernelName))
    && (forall i, j :: 0 <= i < j < |flags| ==> flags[i].bit != flags[j].bit)
  }

  predicate GoodPattern(s: string) {
    NoNul(s) && AtMostOneStar(s)
  }

  predicate Plain(s: string) {
    forall i :: 0 <= i < |s| ==> s[i] != '\0' && s[i] != '*'
  }

  lemma {:induction false} WildcardPatterns()
    ensures GoodPattern("tx-checksum-*") && GoodPattern("tx-scatter-gather*") && GoodPattern("tx-tcp*-segmentation")
  {}

  lemma {:induction false} PlainPatterns()
    ensures Plain("rx-checksum") && Plain("tx-udp-fragmentation") && Plain("tx-generic-segmentation")
    ensures Plain("rx-gro") && Plain("rx-lro") && Plain("rx-vlan-hw-parse") && Plain("tx-vlan-hw-insert")
    ensures Plain("rx-ntuple-filter") && Plain("rx-hashing")
  {}

  lemma {:induction false} FlagTableWellDefined()
    ensures WellDefined(OFF_FLAG_DEF)
  {
    WildcardPatterns();
    PlainPatterns();
    forall i | 0 <= i < |OFF_FLAG_DEF|
      ensures OFF_FLAG_DEF[i].bit < 32 && GoodPattern(OFF_FLAG_DEF[i].kernelName)
    {
    }
  }

  /** The flags without a command of their own are those of ETH_FLAG_EXT_MASK. */
  predicate ExtFlags(flags: seq<FlagDef>) {
    && (forall i :: 0 <= i < |flags| ==> (flags[i].hasSetCmd <==> flags[i].bit !in EXT_BITS))
    && (forall b :: b in EXT_BITS ==> exists i :: 0 <= i < |flags| && flags[i].bit == b)
  }

  lemma {:induction false} FlagTableExt()
    ensures ExtFlags(OFF_FLAG_DEF)
  {
    assert OFF_FLAG_DEF[7].bit == 15 && OFF_FLAG_DEF[8].bit == 8 && OFF_FLAG_DEF[9].bit == 7;
    assert OFF_FLAG_DEF[10].bit == 27 && OFF_FLAG_DEF[11].bit == 28;
  }

  // ----- Matching names against patterns

  /** Position of the wildcard, or the length of the pattern. */
  function Star(pattern: string): (r: nat)
    ensures r <= |pattern|
    ensures r < |pattern| ==> pattern[r] == '*'
    ensures forall i :: 0 <= i < r ==> pattern[i] != '*'
  {
    if pattern == [] || pattern[0] == '*' then 0 else 1 + Star(pattern[1..])
  }

  /** A name matches when it is the pattern with the wildcard replaced by some text. */
  ghost predicate Matches(pattern: string, name: string) {
    var s := Star(pattern);
    if s == |pattern| then name == pattern
    else exists middle: string :: name == pattern[..s] + middle + pattern[s + 1..]
  }

  /** A C string, with its terminator. */
  function CharAt(s: string, i: nat): char {
    if i < |s| then s[i] else '\0'
  }

  /** With its wildcard at `s`, the first `p` characters of the pattern agree with the name: those
      before the wildcard with its beginning, those after it with its end. */
  ghost predicate Agree(pattern: string, name: string, s: nat, p: nat) {
    var d := |name| - |pattern|;
    && p <= |pattern|
    && (s < p ==> -1 <= d)
    && (forall i :: 0 <= i < p && i < s ==> i < |name| && pattern[i] == name[i])
    && (forall i :: s < i < p ==> pattern[i] == name[i + d])
  }

  /** Two suffixes of the same length are equal when they agree position by position. */
  lemma {:induction false} SuffixEq(a: string, i: nat, b: string, j: nat)
    requires i <= |a| && j <= |b| && |a| - i == |b| - j
    ensures a[i..] == b[j..] <==> forall t :: i <= t < |a| ==> a[t] == b[t + (j - i)]
  {}

  /** The text around `middle` agrees with the pattern, position by position. */
  lemma {:induction false} AroundMiddle(pattern: string, name: string, s: nat, middle: string)
    requires s < |pattern| && name == pattern[..s] + middle + pattern[s + 1..]
    ensures Agree(pattern, name, s, |pattern|)
  {}

  lemma {:induction false} MiddleExists(pattern: string, name: string, s: nat) returns (middle: string)
    requires s < |pattern| && Agree(pattern, name, s, |pattern|)
    ensures name == pattern[..s] + middle + pattern[s + 1..]
  {
    var end := s + 1 + |name| - |pattern|;
    assert name[end..] == pattern[s + 1..] by {
      SuffixEq(pattern, s + 1, name, end);
    }
    assert name[..s] == pattern[..s];
    SplitAt(name, s, end);
    middle := name[s..end];
  }

  lemma {:induction false} SplitAt(t: string, i: nat, j: nat)
    requires i <= j <= |t|
    ensures t == t[..i] + t[i..j] + t[j..]
  {}

  /** Agreement over the whole pattern is what matching means. */
  lemma {:induction false} MatchesIsAgree(pattern: string, name: string)
    ensures Matches(pattern, name) <==>
      && Agree(pattern, name, Star(pattern), |pattern|)
      && (Star(pattern) == |pattern| ==> |name| == |pattern|)
  {
    var s := Star(pattern);
    if s < |pattern| {
      if Agree(pattern, name, s, |pattern|) {
        var middle := MiddleExists(pattern, name, s);
      }
      if Matches(pattern, name) {
        var middle: string :| name == pattern[..s] + middle + pattern[s + 1..];
        AroundMiddle(pattern, name, s, middle);
      }
    } else if Agree(pattern, name, s, |pattern|) && |name| == |pattern| {
      assert name == pattern;
    }
  }

  /** The matching loop of `get_feature_defs`. */
  method MatchName(pattern: string, name: string) returns (matched: bool)
    requires GoodPattern(pattern) && NoNul(name)
    ensures matched <==> Matches(pattern, name)
  {
    MatchesIsAgree(pattern, name);
    ghost var s := Star(pattern);
    var p: nat, n: nat := 0, 0;
    while true
      invariant Agree(pattern, name, s, p) && n <= |name|
      invariant n == if p <= s then p else p + |name| - |pattern|
      decreases |pattern| - p
    {
      if CharAt(pattern, p) == '*' {
        assert p == s;
        var patternLen, nameLen := |pattern| - (p + 1), |name| - n;
        if nameLen < patternLen {
          return false;
        }
        n := n + (nameLen - patternLen);
        p := p + 1;
      } else if CharAt(pattern, p) != CharAt(name, n) {
        return false;
      } else if CharAt(pattern, p) == '\0' {
        return true;
      } else {
        p, n := p + 1, n + 1;
      }
    }
  }

  // ----- Assigning features to flags

  /** The feature goes to the first flag whose pattern it matches, if any. */
  ghost predicate AssignedTo(flags: seq<FlagDef>, name: string, index: int) {
    if 0 <= index < |flags| then
      && Matches(flags[index].kernelName, name)
      && forall j :: 0 <= j < index ==> !Matches(flags[j].kernelName, name)
    else
      && index == -1
      && forall j :: 0 <= j < |flags| ==> !Matches(flags[j].kernelName, name)
  }

  function CountOf(s: seq<int>, x: int): nat {
    if s == [] then 0
    else CountOf(s[..|s| - 1], x) + if s[|s| - 1] == x then 1 else 0
  }

  method FindFlag(flags: seq<FlagDef>, name: string) returns (index: int)
    requires WellDefined(flags) && NoNul(name)
    ensures AssignedTo(flags, name, index)
  {
    index := -1;
    var j := 0;
    while j < |flags| && index < 0
      invariant 0 <= j <= |flags| && (index == -1 || index == j - 1)
      invariant index == -1 ==> forall k :: 0 <= k < j ==> !Matches(flags[k].kernelName, name)
      invariant index != -1 ==> AssignedTo(flags, name, index)
    {
      var matched := MatchName(flags[j].kernelName, name);
      if matched {
        index := j;
      }
      j := j + 1;
    }
  }

  /** `get_feature_defs`, on the names the kernel returned. */
  method GetFeatureDefs(flags: seq<FlagDef>, names: seq<string>)
    returns (offFlagIndex: seq<int>, offFlagMatched: array<nat>)
    requires WellDefined(flags) && forall i :: 0 <= i < |names| ==> NoNul(names[i])
    ensures |offFlagIndex| == |names|
    ensures forall i :: 0 <= i < |names| ==> AssignedTo(flags, names[i], offFlagIndex[i])
    ensures offFlagMatched.Length == |flags| && fresh(offFlagMatched)
    ensures forall j :: 0 <= j < |flags| ==> offFlagMatched[j] == CountOf(offFlagIndex, j)
  {
    offFlagIndex := [];
    offFlagMatched := new nat[|flags|](_ => 0);
    var i := 0;
    while i < |names|
      invariant 0 <= i <= |names| && |offFlagIndex| == i && fresh(offFlagMatched)
      invariant forall k :: 0 <= k < i ==> AssignedTo(flags, names[k], offFlagIndex[k])
      invariant forall j :: 0 <= j < |flags| ==> offFlagMatched[j] == CountOf(offFlagIndex, j)
    {
      var index := FindFlag(flags, names[i]);
      if 0 <= index {
        offFlagMatched[index] := offFlagMatched[index] + 1;
      }
      assert (offFlagIndex + [index])[..i] == offFlagIndex;
      offFlagIndex := offFlagIndex + [index];
      i := i + 1;
    }
  }
}
