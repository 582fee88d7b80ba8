/** `rxclass_parse_ruleopts`: a rule command line becomes the bytes of a flow specification. */
module FlowParser {
  import opened FlowBytes
  import opened FlowRules
  import opened RuleGroups
  import opened Wrappers

  const FLOW_EXT: Octet := 0x80  // in the most significant byte of the flow type
  const EXT_FLAGS: Flags := NTUPLE_FLAG_VLAN + NTUPLE_FLAG_UDEF + NTUPLE_FLAG_VETH

  /** The specification before any option: only the flow type and "any location" are set. */
  function InitialSpec(flow: Flow): (r: seq<Octet>)
    ensures |r| == SPEC_SIZE
  {
    Store([0, 0, 0, FlowCode(flow)]) + seq(LOCATION - 4, _ => 0) + Ones(4) + seq(SPEC_SIZE - LOCATION - 4, _ => 0)
  }

  /** `flow_type | FLOW_EXT` */
  function MarkExtended(flowType: Num): (r: Num)
    requires |flowType| == 4
    ensures |r| == 4
  {
    flowType[0 := flowType[0] | FLOW_EXT]
  }

  /** The fixed IP version of a raw IPv4 rule, and the marker of extended rules. */
  function FinishSpec(flow: Flow, st: State): (r: seq<Octet>)
    requires |st.p| == SPEC_SIZE
    ensures |r| == SPEC_SIZE
  {
    var p := if flow == Ip4 then st.p[IP_VER := 1] else st.p;
    if st.flags !! EXT_FLAGS then p else Splice(p, FLOW_TYPE, Store(MarkExtended(Load(p, FLOW_TYPE, 4))))
  }

  /** The specification a command line stands for, if it is accepted. */
  function RuleOf(args: seq<Arg>): (r: Option<seq<Octet>>)
    ensures r.Some? ==> |r.value| == SPEC_SIZE
  {
    if args == [] || FlowNamed(args[0].text).None? then None
    else
      var flow := FlowNamed(args[0].text).value;
      TablesGood(flow);
      var st := Parse(Options(flow), args[1..], State(InitialSpec(flow), {}));
      if st.None? then None else Some(FinishSpec(flow, st.value))
  }

  // ----- The parser itself

  method WriteBytes(fsp: array<Octet>, o: nat, bytes: seq<Octet>)
    requires o + |bytes| <= fsp.Length
    modifies fsp
    ensures fsp[..] == Splice(old(fsp[..]), o, bytes)
  {
    for i := 0 to |bytes|
      invariant forall b :: 0 <= b < fsp.Length ==>
        fsp[b] == if o <= b < o + i then bytes[b - o] else old(fsp[b])
    {
      fsp[o + i] := bytes[i];
    }
  }

  /** `rxclass_get_val` */
  method GetValInto(fsp: array<Octet>, flags: Flags, o: Opt, a: Arg) returns (err: int, nowFlags: Flags)
    requires fsp.Length == SPEC_SIZE && InPlace(o)
    modifies fsp
    ensures GetVal(State(old(fsp[..]), flags), o, a) == if err == 0 then Some(State(fsp[..], nowFlags)) else None
    ensures err != 0 ==> fsp[..] == old(fsp[..])
    ensures nowFlags == if flags !! o.flag then flags + o.flag else flags
  {
    if !(flags !! o.flag) {
      return -1, flags;
    }
    nowFlags := flags + o.flag;
    var bytes := Encode(o.kind, a);
    if bytes.None? {
      return -1, nowFlags;
    }
    WriteBytes(fsp, o.offset, bytes.value);
    if o.moffset >= 0 {
      WriteBytes(fsp, o.moffset, Ones(Width(o.kind)));
    }
    return 0, nowFlags;
  }

  /** `rxclass_get_mask` */
  method GetMaskInto(fsp: array<Octet>, ghost flags: Flags, o: Opt, a: Arg) returns (err: int)
    requires fsp.Length == SPEC_SIZE && InPlace(o)
    modifies fsp
    ensures GetMask(State(old(fsp[..]), flags), o, a) == if err == 0 then Some(State(fsp[..], flags)) else None
    ensures err != 0 ==> fsp[..] == old(fsp[..])
  {
    if o.moffset < 0 {
      return -1;
    }
    var bytes := Encode(o.kind, a);
    if bytes.None? {
      return -1;
    }
    WriteBytes(fsp, o.moffset, Complement(bytes.value));
    return 0;
  }

  method FindOpt(options: seq<Opt>, name: string) returns (idx: nat)
    ensures idx == Lookup(options, name)
  {
    idx := 0;
    while idx < |options| && options[idx].name != name
      invariant idx <= |options| && Lookup(options, name) == idx + Lookup(options[idx..], name)
    {
      assert options[idx..][1..] == options[idx + 1..];
      idx := idx + 1;
    }
  }

  /** One turn of the option loop at argument `i`; it continues at `next`. */
  method ParseOption(args: seq<Arg>, i: nat, options: seq<Opt>, fsp: array<Octet>, flags: Flags)
    returns (err: int, next: nat, nowFlags: Flags)
    requires GoodTable(options) && fsp.Length == SPEC_SIZE && i < |args|
    modifies fsp
    ensures err == 0 ==> i < next <= |args|
    ensures Parse(options, args[i..], State(old(fsp[..]), flags)) ==
      if err == 0 then Parse(options, args[next..], State(fsp[..], nowFlags)) else None
  {
    next, nowFlags := i, flags;
    var idx := FindOpt(options, args[i].text);
    if idx == |options| {
      return -1, next, nowFlags;
    }
    var o := options[idx];
    next := i + 1;
    if next >= |args| {
      return 0, next, nowFlags;
    }
    err, nowFlags := GetValInto(fsp, flags, o, args[next]);
    if err != 0 {
      return -1, next, nowFlags;
    }
    next := next + 1;
    assert args[i..][2..] == args[next..];
    if next >= |args| {
      return 0, next, nowFlags;
    }
    if args[next].text != "m" && args[next].text != o.name + "-mask" {
      return 0, next, nowFlags;
    }
    next := next + 1;
    if next >= |args| {
      return -1, next, nowFlags;
    }
    err := GetMaskInto(fsp, nowFlags, o, args[next]);
    if err != 0 {
      return -1, next, nowFlags;
    }
    next := next + 1;
    assert args[i..][4..] == args[next..];
    return 0, next, nowFlags;
  }

  /** `rxclass_parse_ruleopts` */
  method ParseRuleOpts(args: seq<Arg>, fsp: array<Octet>) returns (err: int)
    requires fsp.Length == SPEC_SIZE
    modifies fsp
    ensures err == if RuleOf(args).Some? then 0 else -1
    ensures err == 0 ==> fsp[..] == RuleOf(args).value
  {
    if |args| < 1 || FlowNamed(args[0].text).None? {
      return -1;
    }
    var flow := FlowNamed(args[0].text).value;
    var options := Options(flow);
    TablesGood(flow);
    WriteBytes(fsp, 0, InitialSpec(flow));
    var i: nat, flags: Flags := 1, {};
    ghost var result := Parse(options, args[1..], State(fsp[..], flags));
    assert fsp[..] == InitialSpec(flow);
    while i < |args|
      invariant 1 <= i <= |args|
      invariant Parse(options, args[i..], State(fsp[..], flags)) == result
    {
      err, i, flags := ParseOption(args, i, options, fsp, flags);
      if err != 0 {
        return -1;
      }
    }
    ghost var st := State(fsp[..], flags);
    if flow == Ip4 {
      fsp[IP_VER] := 1;
      assert fsp[..] == st.p[IP_VER := 1];
    }
    if !(flags !! EXT_FLAGS) {
      WriteBytes(fsp, FLOW_TYPE, Store(MarkExtended(Load(fsp[..], FLOW_TYPE, 4))));
    }
    return 0;
  }

  // ----- Order independence of whole command lines

  /** An accepted command line whose options all have values can have its option groups permuted
      without changing the resulting specification. */
  lemma {:induction false} RuleOrder(flowArg: Arg, gs: seq<Group>, hs: seq<Group>)
    requires FlowNamed(flowArg.text).Some? && multiset(gs) == multiset(hs)
    requires AllWellFormed(Options(FlowNamed(flowArg.text).value), gs)
    requires RuleOf([flowArg] + Flatten(gs)).Some?
    ensures RuleOf([flowArg] + Flatten(hs)) == RuleOf([flowArg] + Flatten(gs))
  {
    var flow := FlowNamed(flowArg.text).value;
    var options, st := Options(flow), State(InitialSpec(flow), {});
    TablesGood(flow);
    assert ([flowArg] + Flatten(gs))[1..] == Flatten(gs);
    assert ([flowArg] + Flatten(hs))[1..] == Flatten(hs);
    ParseFlatten(options, gs, st);
    OrderIndependent(options, gs, hs, st);
    ParseFlatten(options, hs, st);
  }
}
