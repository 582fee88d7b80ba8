/** Accepted rule command lines as sets of option groups.  A group is an option name with its value
and perhaps a mask.  Every byte of the resulting rule is determined by at most one group, so the
order of the groups on the command line does not matter.
*/
module RuleGroups {
  import opened FlowBytes
  import opened FlowRules
  import opened Wrappers

  /** A mask is introduced by a keyword argument. */
  datatype MaskArg = NoMask | Mask(keyword: Arg, arg: Arg)

  datatype Group = Group(name: Arg, value: Arg, mask: MaskArg)

  /** The group is made of a known option and, if it has a mask, one of the two mask keywords. */
  predicate WellFormed(options: seq<Opt>, g: Group) {
    && Known(options, g.name.text)
    && (g.mask.Mask? ==> MaskKeyword(g.mask.keyword.text, g.name.text))
  }

  predicate AllWellFormed(options: seq<Opt>, gs: seq<Group>) {
    forall k :: 0 <= k < |gs| ==> WellFormed(options, gs[k])
  }

  function OptOf(options: seq<Opt>, g: Group): Opt
    requires WellFormed(options, g)
  {
    OptNamed(options, g.name.text)
  }

  function Tokens(g: Group): seq<Arg> {
    match g.mask
    case NoMask => [g.name, g.value]
    case Mask(keyword, arg) => [g.name, g.value, keyword, arg]
  }

  function Flatten(gs: seq<Group>): seq<Arg> {
    if gs == [] then [] else Tokens(gs[0]) + Flatten(gs[1..])
  }

  // ----- Groups against the parser

  /** An encoded value and, if `masked`, an encoded mask. */
  function ApplyEncoded(st: State, o: Opt, value: Option<seq<Octet>>, masked: bool, typed: Option<seq<Octet>>)
    : (r: Option<State>)
    requires InPlace(o) && |st.p| == SPEC_SIZE
    requires (value.Some? ==> |value.value| == Width(o.kind)) && (typed.Some? ==> |typed.value| == Width(o.kind))
    ensures r.Some? ==> |r.value.p| == SPEC_SIZE
  {
    var st1 := PutVal(st, o, value);
    if st1.None? || !masked then st1 else PutMask(st1.value, o, typed)
  }

  function TypedMask(o: Opt, mask: MaskArg): (r: Option<seq<Octet>>)
    ensures r.Some? ==> |r.value| == Width(o.kind)
  {
    if mask.NoMask? then None else Encode(o.kind, mask.arg)
  }

  /** What one group does to the parser's state. */
  function ApplyGroup(options: seq<Opt>, g: Group, st: State): (r: Option<State>)
    requires GoodTable(options) && WellFormed(options, g) && |st.p| == SPEC_SIZE
    ensures r.Some? ==> |r.value.p| == SPEC_SIZE
  {
    var o := OptOf(options, g);
    ApplyEncoded(st, o, Encode(o.kind, g.value), g.mask.Mask?, TypedMask(o, g.mask))
  }

  function ApplyAll(options: seq<Opt>, gs: seq<Group>, st: State): (r: Option<State>)
    requires GoodTable(options) && AllWellFormed(options, gs) && |st.p| == SPEC_SIZE
    ensures r.Some? ==> |r.value.p| == SPEC_SIZE
  {
    if gs == [] then Some(st)
    else
      var st1 := ApplyGroup(options, gs[0], st);
      if st1.None? then None else ApplyAll(options, gs[1..], st1.value)
  }

  /** A mask keyword ends in `m` or `k`, which no option name does. */
  lemma {:induction false} NameIsNoKeyword(options: seq<Opt>, text: string, name: string)
    requires GoodTable(options) && Known(options, text)
    ensures !MaskKeyword(text, name)
  {}

  lemma {:induction false} ParsePair(options: seq<Opt>, name: Arg, value: Arg, rest: seq<Arg>, st: State)
    requires GoodTable(options) && Known(options, name.text) && |st.p| == SPEC_SIZE
    requires rest != [] ==> !MaskKeyword(rest[0].text, name.text)
    ensures Parse(options, [name, value] + rest, st) ==
      var st1 := GetVal(st, OptNamed(options, name.text), value);
      if st1.None? then None else Parse(options, rest, st1.value)
  {}

  lemma {:induction false} ParseMasked(options: seq<Opt>, name: Arg, value: Arg, keyword: Arg, arg: Arg,
                                       rest: seq<Arg>, st: State)
    requires GoodTable(options) && Known(options, name.text) && |st.p| == SPEC_SIZE
    requires MaskKeyword(keyword.text, name.text)
    ensures Parse(options, [name, value, keyword, arg] + rest, st) ==
      var o := OptNamed(options, name.text);
      var st1 := GetVal(st, o, value);
      var st2 := if st1.None? then None else GetMask(st1.value, o, arg);
      if st2.None? then None else Parse(options, rest, st2.value)
  {
    var args := [name, value, keyword, arg] + rest;
    assert args[4..] == rest;
    assert args[0] == name && args[1] == value && args[2] == keyword && args[3] == arg;
  }

  /** The parser takes one group off the front of the command line. */
  lemma {:induction false} ParseTokens(options: seq<Opt>, g: Group, rest: seq<Arg>, st: State)
    requires GoodTable(options) && WellFormed(options, g) && |st.p| == SPEC_SIZE
    requires rest != [] && g.mask.NoMask? ==> !MaskKeyword(rest[0].text, g.name.text)
    ensures Parse(options, Tokens(g) + rest, st) ==
      var st1 := ApplyGroup(options, g, st);
      if st1.None? then None else Parse(options, rest, st1.value)
  {
    match g.mask
    case NoMask => ParsePair(options, g.name, g.value, rest, st);
    case Mask(keyword, arg) => ParseMasked(options, g.name, g.value, keyword, arg, rest, st);
  }

  /** The parser reads a flattened command line group by group. */
  lemma {:induction false} ParseFlatten(options: seq<Opt>, gs: seq<Group>, st: State)
    requires GoodTable(options) && AllWellFormed(options, gs) && |st.p| == SPEC_SIZE
    ensures Parse(options, Flatten(gs), st) == ApplyAll(options, gs, st)
    decreases |gs|
  {
    if gs != [] {
      var g, rest := gs[0], Flatten(gs[1..]);
      if |gs| > 1 {
        assert rest[0] == gs[1].name;
        NameIsNoKeyword(options, gs[1].name.text, g.name.text);
      }
      ParseTokens(options, g, rest, st);
      var st1 := ApplyGroup(options, g, st);
      if st1.Some? {
        ParseFlatten(options, gs[1..], st1.value);
      }
    }
  }

  // ----- Accepted command lines are flattened groups

  /** The first group of an accepted command line, and the state in which the rest is parsed. */
  lemma {:induction false} FirstGroup(options: seq<Opt>, args: seq<Arg>, st: State)
    returns (g: Group, rest: seq<Arg>, st1: State)
    requires GoodTable(options) && |st.p| == SPEC_SIZE && 2 <= |args| && Parse(options, args, st).Some?
    ensures WellFormed(options, g) && args == Tokens(g) + rest && |rest| < |args|
    ensures |st1.p| == SPEC_SIZE && ApplyGroup(options, g, st) == Some(st1)
    ensures Parse(options, args, st) == Parse(options, rest, st1)
  {
    var o := OptNamed(options, args[0].text);
    st1 := GetVal(st, o, args[1]).value;
    if |args| < 4 || !MaskKeyword(args[2].text, args[0].text) {
      g, rest := Group(args[0], args[1], NoMask), args[2..];
    } else {
      g, rest := Group(args[0], args[1], Mask(args[2], args[3])), args[4..];
      st1 := GetMask(st1, o, args[3]).value;
    }
  }

  lemma {:induction false} GroupsCons(options: seq<Opt>, g: Group, tail: seq<Group>, st: State, st1: State)
    requires GoodTable(options) && WellFormed(options, g) && AllWellFormed(options, tail)
    requires |st.p| == |st1.p| == SPEC_SIZE && ApplyGroup(options, g, st) == Some(st1)
    ensures AllWellFormed(options, [g] + tail) && Flatten([g] + tail) == Tokens(g) + Flatten(tail)
    ensures ApplyAll(options, [g] + tail, st) == ApplyAll(options, tail, st1)
  {
    var gs := [g] + tail;
    assert gs[0] == g && gs[1..] == tail;
  }

  lemma {:induction false} ParseShort(options: seq<Opt>, args: seq<Arg>, st: State)
    requires GoodTable(options) && |st.p| == SPEC_SIZE && |args| <= 1 && Parse(options, args, st).Some?
    ensures Parse(options, args, st) == ApplyAll(options, [], st)
    ensures args != [] ==> Known(options, args[0].text)
  {}

  lemma {:induction false} Reassociate<T>(a: seq<T>, b: seq<T>, c: seq<T>)
    ensures a + (b + c) == a + b + c
  {}

  /** Every accepted command line is a sequence of groups, perhaps followed by the name of an option
      without a value, which has no effect. */
  lemma {:induction false} GroupsOf(options: seq<Opt>, args: seq<Arg>, st: State)
    returns (gs: seq<Group>, dropped: seq<Arg>)
    requires GoodTable(options) && |st.p| == SPEC_SIZE && Parse(options, args, st).Some?
    ensures AllWellFormed(options, gs) && ApplyAll(options, gs, st) == Parse(options, args, st)
    ensures args == Flatten(gs) + dropped && |dropped| <= 1
    ensures dropped != [] ==> Known(options, dropped[0].text)
    decreases |args|
  {
    if |args| <= 1 {
      gs, dropped := [], args;
      ParseShort(options, args, st);
    } else {
      var g, rest, st1 := FirstGroup(options, args, st);
      gs, dropped := GroupsOf(options, rest, st1);
      GroupsCons(options, g, gs, st, st1);
      Reassociate(Tokens(g), Flatten(gs), dropped);
      gs := [g] + gs;
    }
  }

  /** Conversely, one more argument behind the groups changes nothing if it is the name of an option,
      and is an error otherwise. */
  lemma {:induction false} ParseDropped(options: seq<Opt>, gs: seq<Group>, last: Arg, st: State)
    requires GoodTable(options) && AllWellFormed(options, gs) && |st.p| == SPEC_SIZE
    ensures Parse(options, Flatten(gs) + [last], st) ==
      if Known(options, last.text) then ApplyAll(options, gs, st) else None
    decreases |gs|
  {
    if gs == [] {
      assert Flatten(gs) + [last] == [last];
    } else {
      var g, tail := gs[0], gs[1..];
      var rest := Flatten(tail) + [last];
      Reassociate(Tokens(g), Flatten(tail), [last]);
      if tail == [] && g.mask.NoMask? && MaskKeyword(last.text, g.name.text) {
        assert Flatten(gs) + [last] == [g.name, g.value, last];
        LastKeyword(options, g.name, g.value, last, st);
      } else {
        RestNoKeyword(options, g, tail, last);
        ParseTokens(options, g, rest, st);
        var st1 := ApplyGroup(options, g, st);
        if st1.Some? {
          ParseDropped(options, tail, last, st1.value);
        }
      }
    }
  }

  /** A mask keyword without a mask is an error, and no option has such a name. */
  lemma {:induction false} LastKeyword(options: seq<Opt>, name: Arg, value: Arg, last: Arg, st: State)
    requires GoodTable(options) && Known(options, name.text) && |st.p| == SPEC_SIZE
    requires MaskKeyword(last.text, name.text)
    ensures Parse(options, [name, value, last], st) == None && !Known(options, last.text)
  {
    if Known(options, last.text) {
      NameIsNoKeyword(options, last.text, name.text);
    }
  }

  lemma {:induction false} RestNoKeyword(options: seq<Opt>, g: Group, tail: seq<Group>, last: Arg)
    requires GoodTable(options) && WellFormed(options, g) && AllWellFormed(options, tail)
    requires tail == [] ==> g.mask.Mask? || !MaskKeyword(last.text, g.name.text)
    ensures g.mask.NoMask? ==> !MaskKeyword((Flatten(tail) + [last])[0].text, g.name.text)
  {
    if tail != [] {
      assert Flatten(tail)[0] == tail[0].name;
      NameIsNoKeyword(options, tail[0].name.text, g.name.text);
    }
  }

  // ----- What a set of groups means, byte by byte

  /** The group's own arguments are acceptable. */
  predicate Valid(options: seq<Opt>, g: Group)
    requires WellFormed(options, g)
  {
    var o := OptOf(options, g);
    && Encode(o.kind, g.value).Some?
    && (g.mask.Mask? ==> 0 <= o.moffset && TypedMask(o, g.mask).Some?)
  }

  /** The mask bytes the group leaves in the rule: set bits are compared. */
  function MaskBytes(options: seq<Opt>, g: Group): (r: seq<Octet>)
    requires WellFormed(options, g) && Valid(options, g)
    ensures |r| == Width(OptOf(options, g).kind)
  {
    var o := OptOf(options, g);
    if g.mask.NoMask? then Ones(Width(o.kind)) else Complement(TypedMask(o, g.mask).value)
  }

  function ValueBytes(options: seq<Opt>, g: Group): (r: seq<Octet>)
    requires WellFormed(options, g) && Valid(options, g)
    ensures |r| == Width(OptOf(options, g).kind)
  {
    Encode(OptOf(options, g).kind, g.value).value
  }

  predicate InValue(o: Opt, b: nat) {
    o.offset <= b < o.offset + Width(o.kind)
  }

  predicate InMask(o: Opt, b: nat) {
    0 <= o.moffset <= b < o.moffset + Width(o.kind)
  }

  /** The rule `p` holds `value` and `mask` where the option says. */
  ghost predicate Holds(o: Opt, p: seq<Octet>, value: seq<Octet>, mask: seq<Octet>)
    requires InPlace(o) && |p| == SPEC_SIZE && |value| == |mask| == Width(o.kind)
  {
    && (forall b: nat :: InValue(o, b) ==> p[b] == value[b - o.offset])
    && (forall b: nat :: InMask(o, b) ==> p[b] == mask[b - o.moffset])
  }

  /** The rule `p` carries the group's value and mask. */
  ghost predicate Carries(options: seq<Opt>, p: seq<Octet>, g: Group)
    requires WellFormed(options, g) && Valid(options, g) && GoodTable(options) && |p| == SPEC_SIZE
  {
    Holds(OptOf(options, g), p, ValueBytes(options, g), MaskBytes(options, g))
  }

  /** The group has nothing to do with byte `b`. */
  predicate Spares(options: seq<Opt>, g: Group, b: nat)
    requires WellFormed(options, g)
  {
    !InValue(OptOf(options, g), b) && !InMask(OptOf(options, g), b)
  }

  /** Every group is valid by itself, and no two of them share a flag. */
  predicate Acceptable(options: seq<Opt>, gs: seq<Group>)
    requires AllWellFormed(options, gs)
  {
    && (forall k :: 0 <= k < |gs| ==> Valid(options, gs[k]))
    && (forall i, j :: 0 <= i < j < |gs| ==> Compatible(OptOf(options, gs[i]), OptOf(options, gs[j])))
  }

  /** The options found in a good table keep apart if they are compatible. */
  lemma {:induction false} CompatibleApart(options: seq<Opt>, a: string, b: string)
    requires GoodTable(options) && Known(options, a) && Known(options, b)
    requires Compatible(OptNamed(options, a), OptNamed(options, b))
    ensures Apart(OptNamed(options, a), OptNamed(options, b))
  {}

  /** Where one of two options that keep apart reaches, the other does not. */
  lemma {:induction false} ApartSpares(a: Opt, b: Opt, at: nat)
    requires InPlace(a) && InPlace(b) && Apart(a, b) && (InValue(a, at) || InMask(a, at))
    ensures !InValue(b, at) && !InMask(b, at)
  {}

  /** From `p` to `r` the option's value and mask were written and nothing else. */
  ghost predicate Written(o: Opt, p: seq<Octet>, r: seq<Octet>, value: seq<Octet>, mask: seq<Octet>)
    requires InPlace(o) && |p| == |r| == SPEC_SIZE && |value| == |mask| == Width(o.kind)
  {
    && Holds(o, r, value, mask)
    && forall b: nat :: b < SPEC_SIZE && !InValue(o, b) && !InMask(o, b) ==> r[b] == p[b]
  }

  lemma {:induction false} ValEffect(st: State, o: Opt, value: seq<Octet>)
    requires InPlace(o) && |st.p| == SPEC_SIZE && |value| == Width(o.kind) && st.flags !! o.flag
    ensures Written(o, st.p, PutVal(st, o, Some(value)).value.p, value, Ones(Width(o.kind)))
  {}

  lemma {:induction false} MaskEffect(p: seq<Octet>, st: State, o: Opt, value: seq<Octet>, mask: seq<Octet>,
                                      typed: seq<Octet>)
    requires InPlace(o) && 0 <= o.moffset && |st.p| == |p| == SPEC_SIZE && |value| == |mask| == |typed| == Width(o.kind)
    requires Written(o, p, st.p, value, mask)
    ensures Written(o, p, PutMask(st, o, Some(typed)).value.p, value, Complement(typed))
  {}

  lemma {:induction false} EncodedEffect(st: State, o: Opt, value: seq<Octet>, masked: bool, typed: Option<seq<Octet>>)
    requires InPlace(o) && |st.p| == SPEC_SIZE && |value| == Width(o.kind) && st.flags !! o.flag
    requires typed.Some? ==> |typed.value| == Width(o.kind)
    requires masked ==> 0 <= o.moffset && typed.Some?
    ensures Written(o, st.p, ApplyEncoded(st, o, Some(value), masked, typed).value.p, value,
                    if masked then Complement(typed.value) else Ones(Width(o.kind)))
  {
    ValEffect(st, o, value);
    if masked {
      MaskEffect(st.p, PutVal(st, o, Some(value)).value, o, value, Ones(Width(o.kind)), typed.value);
    }
  }

  /** When one group is accepted. */
  lemma {:induction false} GroupAccepted(options: seq<Opt>, g: Group, st: State)
    requires GoodTable(options) && WellFormed(options, g) && |st.p| == SPEC_SIZE
    ensures ApplyGroup(options, g, st).Some? <==>
      Valid(options, g) && st.flags !! OptOf(options, g).flag
    ensures ApplyGroup(options, g, st).Some? ==>
      ApplyGroup(options, g, st).value.flags == st.flags + OptOf(options, g).flag
  {}

  /** What an accepted group changes. */
  lemma {:induction false} GroupEffect(options: seq<Opt>, g: Group, st: State)
    requires GoodTable(options) && WellFormed(options, g) && |st.p| == SPEC_SIZE
    requires Valid(options, g) && st.flags !! OptOf(options, g).flag
    ensures ApplyGroup(options, g, st).Some?
    ensures Written(OptOf(options, g), st.p, ApplyGroup(options, g, st).value.p,
                    ValueBytes(options, g), MaskBytes(options, g))
  {
    GroupAccepted(options, g, st);
    var o := OptOf(options, g);
    EncodedEffect(st, o, Encode(o.kind, g.value).value, g.mask.Mask?, TypedMask(o, g.mask));
  }

  // ----- All groups together

  ghost predicate FreeFor(options: seq<Opt>, gs: seq<Group>, flags: Flags)
    requires AllWellFormed(options, gs)
  {
    forall k :: 0 <= k < |gs| ==> flags !! OptOf(options, gs[k]).flag
  }

  /** A command line is accepted exactly when its groups are valid and share no flag. */
  lemma {:induction false} AllAccepted(options: seq<Opt>, gs: seq<Group>, st: State)
    requires GoodTable(options) && AllWellFormed(options, gs) && |st.p| == SPEC_SIZE
    ensures ApplyAll(options, gs, st).Some? <==> Acceptable(options, gs) && FreeFor(options, gs, st.flags)
    decreases |gs|
  {
    if gs != [] {
      GroupAccepted(options, gs[0], st);
      var first := OptOf(options, gs[0]);
      var rest := gs[1..];
      assert forall k :: 0 < k < |gs| ==> gs[k] == rest[k - 1];
      if ApplyGroup(options, gs[0], st).Some? {
        AllAccepted(options, rest, ApplyGroup(options, gs[0], st).value);
        assert FreeFor(options, rest, st.flags + first.flag) <==>
          && FreeFor(options, rest, st.flags)
          && forall k :: 0 <= k < |rest| ==> Compatible(first, OptOf(options, rest[k]));
        AcceptableCons(options, gs);
      }
    }
  }

  lemma {:induction false} AcceptableCons(options: seq<Opt>, gs: seq<Group>)
    requires AllWellFormed(options, gs) && gs != []
    ensures Acceptable(options, gs) <==>
      && Valid(options, gs[0]) && Acceptable(options, gs[1..])
      && forall k :: 0 < k < |gs| ==> Compatible(OptOf(options, gs[0]), OptOf(options, gs[k]))
  {}

  /** Bytes that a group wrote survive the groups that keep clear of them. */
  lemma {:induction false} CarriesSurvives(options: seq<Opt>, g: Group, p: seq<Octet>, r: seq<Octet>)
    requires GoodTable(options) && WellFormed(options, g) && Valid(options, g) && |p| == |r| == SPEC_SIZE
    requires Carries(options, p, g)
    requires forall b: nat :: b < SPEC_SIZE && !Spares(options, g, b) ==> r[b] == p[b]
    ensures Carries(options, r, g)
  {}

  /** The rule carries every group, and is otherwise as it was. */
  lemma {:induction false} AllCarried(options: seq<Opt>, gs: seq<Group>, st: State)
    requires GoodTable(options) && AllWellFormed(options, gs) && |st.p| == SPEC_SIZE
    requires Acceptable(options, gs) && FreeFor(options, gs, st.flags)
    ensures ApplyAll(options, gs, st).Some?
    ensures var r := ApplyAll(options, gs, st).value;
      && (forall k :: 0 <= k < |gs| ==> Carries(options, r.p, gs[k]))
      && (forall b: nat :: b < SPEC_SIZE && (forall k :: 0 <= k < |gs| ==> Spares(options, gs[k], b)) ==>
            r.p[b] == st.p[b])
    decreases |gs|
  {
    AllAccepted(options, gs, st);
    if gs != [] {
      var g, rest := gs[0], gs[1..];
      GroupAccepted(options, g, st);
      GroupEffect(options, g, st);
      AcceptableCons(options, gs);
      var st1 := ApplyGroup(options, g, st).value;
      assert forall k :: 0 <= k < |rest| ==> rest[k] == gs[k + 1];
      AllAccepted(options, rest, st1);
      AllCarried(options, rest, st1);
      var r := ApplyAll(options, gs, st).value;
      forall b: nat | b < SPEC_SIZE && !Spares(options, g, b) ensures r.p[b] == st1.p[b] {
        forall k | 0 <= k < |rest| ensures Spares(options, rest[k], b) {
          CompatibleApart(options, g.name.text, rest[k].name.text);
          ApartSpares(OptOf(options, g), OptOf(options, rest[k]), b);
        }
      }
      CarriesSurvives(options, g, st1.p, r.p);
      assert forall k :: 0 < k < |gs| ==> gs[k] == rest[k - 1];
    }
  }

  lemma {:induction false} AllFlagged(options: seq<Opt>, gs: seq<Group>, st: State)
    requires GoodTable(options) && AllWellFormed(options, gs) && |st.p| == SPEC_SIZE
    requires ApplyAll(options, gs, st).Some?
    ensures forall x :: x in ApplyAll(options, gs, st).value.flags <==>
      x in st.flags || exists k :: 0 <= k < |gs| && x in OptOf(options, gs[k]).flag
    decreases |gs|
  {
    if gs != [] {
      GroupAccepted(options, gs[0], st);
      var rest := gs[1..];
      AllFlagged(options, rest, ApplyGroup(options, gs[0], st).value);
      assert forall k :: 0 <= k < |rest| ==> rest[k] == gs[k + 1];
      assert forall k :: 0 < k < |gs| ==> gs[k] == rest[k - 1];
    }
  }

  // ----- Order

  lemma {:induction false} TakeOut<T>(s: seq<T>, k: nat)
    requires k < |s|
    ensures multiset(s[..k] + s[k + 1..]) == multiset(s) - multiset{s[k]}
  {
    assert s == s[..k] + [s[k]] + s[k + 1..];
  }

  /** An element that occurs twice in a sequence occurs twice in every permutation of it. */
  lemma {:induction false} TwoCopies<T>(s: seq<T>, t: seq<T>, i: nat, j: nat) returns (a: nat, b: nat)
    requires multiset(s) == multiset(t) && i < j < |t| && t[i] == t[j]
    ensures a < b < |s| && s[a] == s[b] == t[i]
  {
    var x := t[i];
    SameMembers(s, t);
    assert x in t && x in s;
    var k :| 0 <= k < |s| && s[k] == x;
    var sRest, tRest := s[..k] + s[k + 1..], t[..i] + t[i + 1..];
    TakeOut(s, k);
    TakeOut(t, i);
    SameMembers(sRest, tRest);
    assert tRest[j - 1] == x && x in tRest && x in sRest;
    var m :| 0 <= m < |sRest| && sRest[m] == x;
    if m < k {
      a, b := m, k;
    } else {
      a, b := k, m + 1;
    }
  }

  lemma {:induction false} SameMembers<T>(s: seq<T>, t: seq<T>)
    requires multiset(s) == multiset(t)
    ensures forall x :: x in s <==> x in t
  {
    assert forall x :: x in s <==> x in multiset(s);
    assert forall x :: x in t <==> x in multiset(t);
  }

  lemma {:induction false} AcceptablePermutes(options: seq<Opt>, gs: seq<Group>, hs: seq<Group>)
    requires GoodTable(options) && AllWellFormed(options, gs) && multiset(gs) == multiset(hs)
    requires Acceptable(options, gs)
    ensures AllWellFormed(options, hs) && Acceptable(options, hs)
  {
    SameMembers(gs, hs);
    forall k | 0 <= k < |hs| ensures WellFormed(options, hs[k]) && Valid(options, hs[k]) {
      assert hs[k] in gs;
    }
    forall i, j | 0 <= i < j < |hs| ensures Compatible(OptOf(options, hs[i]), OptOf(options, hs[j])) {
      if hs[i] == hs[j] {
        var a, b := TwoCopies(gs, hs, i, j);
        assert Compatible(OptOf(options, gs[a]), OptOf(options, gs[b]));
      } else {
        assert hs[i] in gs && hs[j] in gs;
        var a :| 0 <= a < |gs| && gs[a] == hs[i];
        var b :| 0 <= b < |gs| && gs[b] == hs[j];
        assert Compatible(OptOf(options, gs[a]), OptOf(options, gs[b])) ||
               Compatible(OptOf(options, gs[b]), OptOf(options, gs[a]));
      }
    }
  }

  /** Permuting the groups changes neither acceptance nor the result. */
  lemma {:induction false} OrderIndependent(options: seq<Opt>, gs: seq<Group>, hs: seq<Group>, st: State)
    requires GoodTable(options) && AllWellFormed(options, gs) && |st.p| == SPEC_SIZE
    requires multiset(gs) == multiset(hs) && ApplyAll(options, gs, st).Some?
    ensures AllWellFormed(options, hs) && ApplyAll(options, hs, st) == ApplyAll(options, gs, st)
  {
    AllAccepted(options, gs, st);
    AcceptablePermutes(options, gs, hs);
    SameMembers(gs, hs);
    assert FreeFor(options, hs, st.flags) by {
      forall k | 0 <= k < |hs| ensures st.flags !! OptOf(options, hs[k]).flag {
        assert hs[k] in gs;
      }
    }
    AllAccepted(options, hs, st);
    SameBytes(options, gs, hs, st);
    SameFlags(options, gs, hs, st);
    var r, q := ApplyAll(options, gs, st).value, ApplyAll(options, hs, st).value;
    assert r.p == q.p && r.flags == q.flags;
  }

  lemma {:induction false} CarriedAlike(options: seq<Opt>, g: Group, p: seq<Octet>, q: seq<Octet>, b: nat)
    requires GoodTable(options) && WellFormed(options, g) && Valid(options, g) && |p| == |q| == SPEC_SIZE
    requires Carries(options, p, g) && Carries(options, q, g) && !Spares(options, g, b)
    ensures b < SPEC_SIZE && p[b] == q[b]
  {
    assert InPlace(OptOf(options, g));
  }

  lemma {:induction false} SameBytes(options: seq<Opt>, gs: seq<Group>, hs: seq<Group>, st: State)
    requires GoodTable(options) && AllWellFormed(options, gs) && AllWellFormed(options, hs) && |st.p| == SPEC_SIZE
    requires Acceptable(options, gs) && FreeFor(options, gs, st.flags)
    requires Acceptable(options, hs) && FreeFor(options, hs, st.flags)
    requires forall x :: x in gs <==> x in hs
    ensures ApplyAll(options, gs, st).Some? && ApplyAll(options, hs, st).Some?
    ensures ApplyAll(options, gs, st).value.p == ApplyAll(options, hs, st).value.p
  {
    AllCarried(options, gs, st);
    AllCarried(options, hs, st);
    var r, q := ApplyAll(options, gs, st).value, ApplyAll(options, hs, st).value;
    forall b: nat | b < SPEC_SIZE ensures r.p[b] == q.p[b] {
      if k :| 0 <= k < |gs| && !Spares(options, gs[k], b) {
        assert gs[k] in hs;
        var m :| 0 <= m < |hs| && hs[m] == gs[k];
        CarriedAlike(options, gs[k], r.p, q.p, b);
      } else {
        forall m | 0 <= m < |hs| ensures Spares(options, hs[m], b) {
          assert hs[m] in gs;
        }
      }
    }
  }

  lemma {:induction false} SameFlags(options: seq<Opt>, gs: seq<Group>, hs: seq<Group>, st: State)
    requires GoodTable(options) && AllWellFormed(options, gs) && AllWellFormed(options, hs) && |st.p| == SPEC_SIZE
    requires ApplyAll(options, gs, st).Some? && ApplyAll(options, hs, st).Some?
    requires forall x :: x in gs <==> x in hs
    ensures ApplyAll(options, gs, st).value.flags == ApplyAll(options, hs, st).value.flags
  {
    AllFlagged(options, gs, st);
    AllFlagged(options, hs, st);
    var r, q := ApplyAll(options, gs, st).value.flags, ApplyAll(options, hs, st).value.flags;
    forall x ensures x in r <==> x in q {
      if k :| 0 <= k < |gs| && x in OptOf(options, gs[k]).flag {
        assert gs[k] in hs;
      }
      if k :| 0 <= k < |hs| && x in OptOf(options, hs[k]).flag {
        assert hs[k] in gs;
      }
    }
  }
}
