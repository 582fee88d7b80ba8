/** The meaning of an accepted command line: which packets match the rule it is parsed into, in terms
of the options the user typed.
*/
module RuleMeaning {
  import opened FlowBytes
  import opened FlowRules
  import opened RuleGroups
  import opened FlowParser
  import opened Ntuple
  import opened Wrappers

  /** What the tables say about the extension. */
  predicate ExtOption(o: Opt) {
    0 <= o.moffset && M_EXT < o.moffset + Width(o.kind) ==> !(o.flag !! EXT_FLAGS)
  }

  lemma {:induction false} ExtOptions(flow: Flow, i: nat)
    requires i < |Options(flow)|
    ensures ExtOption(Options(flow)[i])
  {}

  // ----- What an accepted command line leaves in the specification

  /** The groups make up an accepted command line for `flow`. */
  predicate Accepted(flow: Flow, gs: seq<Group>) {
    TablesGood(flow);
    AllWellFormed(Options(flow), gs) && ApplyAll(Options(flow), gs, State(InitialSpec(flow), {})).Some?
  }

  function SpecOf(flow: Flow, gs: seq<Group>): (r: seq<Octet>)
    requires Accepted(flow, gs)
    ensures |r| == SPEC_SIZE
  {
    TablesGood(flow);
    FinishSpec(flow, ApplyAll(Options(flow), gs, State(InitialSpec(flow), {})).value)
  }

  /** It is the specification the parser builds. */
  lemma {:induction false} SpecOfIsRule(flowArg: Arg, gs: seq<Group>)
    requires FlowNamed(flowArg.text).Some? && AllWellFormed(Options(FlowNamed(flowArg.text).value), gs)
    ensures var flow := FlowNamed(flowArg.text).value;
      RuleOf([flowArg] + Flatten(gs)) == if Accepted(flow, gs) then Some(SpecOf(flow, gs)) else None
  {
    var flow := FlowNamed(flowArg.text).value;
    TablesGood(flow);
    assert ([flowArg] + Flatten(gs))[1..] == Flatten(gs);
    ParseFlatten(Options(flow), gs, State(InitialSpec(flow), {}));
  }

  /** Every accepted command line is a flow type and groups, but for a last option without a value. */
  lemma {:induction false} RuleIsGroups(args: seq<Arg>) returns (flow: Flow, gs: seq<Group>, dropped: seq<Arg>)
    requires RuleOf(args).Some?
    ensures FlowNamed(args[0].text) == Some(flow) && args[1..] == Flatten(gs) + dropped && |dropped| <= 1
    ensures dropped != [] ==> Known(Options(flow), dropped[0].text)
    ensures Accepted(flow, gs) && RuleOf(args) == Some(SpecOf(flow, gs))
  {
    flow := FlowNamed(args[0].text).value;
    TablesGood(flow);
    gs, dropped := GroupsOf(Options(flow), args[1..], State(InitialSpec(flow), {}));
  }

  // ----- Exactly which command lines are accepted

  /** The typed value is one of the option's type, and so is the typed mask, if the option takes one. */
  predicate InRangeGroup(options: seq<Opt>, g: Group)
    requires WellFormed(options, g)
  {
    var o := OptOf(options, g);
    && InRange(o.kind, g.value)
    && (g.mask.Mask? ==> 0 <= o.moffset && InRange(o.kind, g.mask.arg))
  }

  lemma {:induction false} ValidIsInRange(options: seq<Opt>, g: Group)
    requires WellFormed(options, g)
    ensures Valid(options, g) <==> InRangeGroup(options, g)
  {
    var o := OptOf(options, g);
    EncodeInRange(o.kind, g.value);
    if g.mask.Mask? {
      EncodeInRange(o.kind, g.mask.arg);
    }
  }

  lemma {:induction false} CompatibleIsApart(options: seq<Opt>, g: Group, h: Group)
    requires GoodTable(options) && ApartTogether(options) && WellFormed(options, g) && WellFormed(options, h)
    ensures Compatible(OptOf(options, g), OptOf(options, h)) <==> Apart(OptOf(options, g), OptOf(options, h))
  {
    var i, j := Lookup(options, g.name.text), Lookup(options, h.name.text);
    assert InPlace(options[i]) && InPlace(options[j]);
    if i < j {
      assert Compatible(options[i], options[j]) <==> Apart(options[i], options[j]);
    } else if j < i {
      assert Compatible(options[j], options[i]) <==> Apart(options[j], options[i]);
    }
  }

  /** A command line of groups is accepted if and only if every typed value and mask is in range and
      no two options have overlapping fields. */
  lemma {:induction false} LineAccepted(flowArg: Arg, gs: seq<Group>)
    requires FlowNamed(flowArg.text).Some? && AllWellFormed(Options(FlowNamed(flowArg.text).value), gs)
    ensures var options := Options(FlowNamed(flowArg.text).value);
      RuleOf([flowArg] + Flatten(gs)).Some? <==>
      && (forall k :: 0 <= k < |gs| ==> InRangeGroup(options, gs[k]))
      && (forall i, j :: 0 <= i < j < |gs| ==> Apart(OptOf(options, gs[i]), OptOf(options, gs[j])))
  {
    var flow := FlowNamed(flowArg.text).value;
    var options, st := Options(flow), State(InitialSpec(flow), {});
    TablesGood(flow);
    TablesExact(flow);
    SpecOfIsRule(flowArg, gs);
    AllAccepted(options, gs, st);
    forall k | 0 <= k < |gs| ensures Valid(options, gs[k]) <==> InRangeGroup(options, gs[k]) {
      ValidIsInRange(options, gs[k]);
    }
    forall i, j | 0 <= i < j < |gs|
      ensures Compatible(OptOf(options, gs[i]), OptOf(options, gs[j])) <==>
              Apart(OptOf(options, gs[i]), OptOf(options, gs[j]))
    {
      CompatibleIsApart(options, gs[i], gs[j]);
    }
  }

  /** So a value or a mask out of range makes the parser reject the command line. */
  lemma {:induction false} OutOfRangeRejected(flowArg: Arg, gs: seq<Group>, k: nat)
    requires FlowNamed(flowArg.text).Some? && AllWellFormed(Options(FlowNamed(flowArg.text).value), gs) && k < |gs|
    requires !InRangeGroup(Options(FlowNamed(flowArg.text).value), gs[k])
    ensures RuleOf([flowArg] + Flatten(gs)) == None
  {
    LineAccepted(flowArg, gs);
  }

  /** The groups differ in the spelling of the mask keyword only. */
  lemma {:induction false} SameButKeyword(flow: Flow, g: Group, h: Group)
    requires WellFormed(Options(flow), g) && WellFormed(Options(flow), h) && g.mask.Mask? && h.mask.Mask?
    requires g.name == h.name && g.value == h.value && g.mask.arg == h.mask.arg
    ensures Accepted(flow, [g]) <==> Accepted(flow, [h])
    ensures Accepted(flow, [g]) ==> SpecOf(flow, [g]) == SpecOf(flow, [h])
  {
    TablesGood(flow);
    var options, st := Options(flow), State(InitialSpec(flow), {});
    assert ApplyGroup(options, g, st) == ApplyGroup(options, h, st);
    OneGroup(options, g, st);
    OneGroup(options, h, st);
  }

  lemma {:induction false} OneGroup(options: seq<Opt>, g: Group, st: State)
    requires GoodTable(options) && WellFormed(options, g) && |st.p| == SPEC_SIZE
    ensures ApplyAll(options, [g], st) == ApplyGroup(options, g, st)
  {
    assert [g][1..] == [];
  }

  lemma {:induction false} MaskedLine(flowArg: Arg, name: Arg, value: Arg, keyword: Arg, arg: Arg)
    ensures var g := Group(name, value, Mask(keyword, arg));
      [flowArg] + Flatten([g]) == [flowArg, name, value, keyword, arg]
  {
    var g := Group(name, value, Mask(keyword, arg));
    assert [g][1..] == [];
    assert Flatten([g]) == Tokens(g) + [];
  }

  lemma {:induction false} MaskAccepted(flowArg: Arg, name: Arg, value: Arg, keyword: Arg, arg: Arg)
    requires FlowNamed(flowArg.text).Some? && Known(Options(FlowNamed(flowArg.text).value), name.text)
    requires MaskKeyword(keyword.text, name.text)
    ensures var o := OptNamed(Options(FlowNamed(flowArg.text).value), name.text);
      RuleOf([flowArg, name, value, keyword, arg]).Some? <==>
      0 <= o.moffset && InRange(o.kind, value) && InRange(o.kind, arg)
  {
    MaskedLine(flowArg, name, value, keyword, arg);
    LineAccepted(flowArg, [Group(name, value, Mask(keyword, arg))]);
  }

  /** A mask may be introduced by `m` or by the option's name and `-mask`, with the same result; it is
      accepted exactly if the option takes masks and both numbers are in range. */
  lemma {:induction false} MaskSpellings(flowArg: Arg, name: Arg, value: Arg, short: Arg, long: Arg, arg: Arg)
    requires FlowNamed(flowArg.text).Some? && Known(Options(FlowNamed(flowArg.text).value), name.text)
    requires short.text == "m" && long.text == name.text + "-mask"
    ensures RuleOf([flowArg, name, value, short, arg]) == RuleOf([flowArg, name, value, long, arg])
    ensures var o := OptNamed(Options(FlowNamed(flowArg.text).value), name.text);
      RuleOf([flowArg, name, value, short, arg]).Some? <==>
      0 <= o.moffset && InRange(o.kind, value) && InRange(o.kind, arg)
  {
    var g, h := Group(name, value, Mask(short, arg)), Group(name, value, Mask(long, arg));
    MaskedLine(flowArg, name, value, short, arg);
    MaskedLine(flowArg, name, value, long, arg);
    SpecOfIsRule(flowArg, [g]);
    SpecOfIsRule(flowArg, [h]);
    SameButKeyword(FlowNamed(flowArg.text).value, g, h);
    MaskAccepted(flowArg, name, value, short, arg);
  }

  /** And an option name without a value behind the groups is dropped, silently: the command line is
      accepted, with the same result, exactly if the one without the name is. */
  lemma {:induction false} DroppedOption(flowArg: Arg, gs: seq<Group>, last: Arg)
    requires FlowNamed(flowArg.text).Some? && AllWellFormed(Options(FlowNamed(flowArg.text).value), gs)
    ensures var flow := FlowNamed(flowArg.text).value;
      RuleOf([flowArg] + (Flatten(gs) + [last])) ==
      if Known(Options(flow), last.text) && Accepted(flow, gs) then Some(SpecOf(flow, gs)) else None
  {
    var flow := FlowNamed(flowArg.text).value;
    TablesGood(flow);
    assert ([flowArg] + (Flatten(gs) + [last]))[1..] == Flatten(gs) + [last];
    ParseDropped(Options(flow), gs, last, State(InitialSpec(flow), {}));
  }

  /** `tcp4 loc`, with no location, is such a command line: it stands for the empty rule. */
  lemma {:induction false} LocationWithoutValue(tcp4: Arg, loc: Arg)
    requires tcp4.text == "tcp4" && loc.text == "loc"
    ensures Accepted(Tcp4, []) && RuleOf([tcp4, loc]) == Some(SpecOf(Tcp4, []))
  {
    DroppedOption(tcp4, [], loc);
    assert [tcp4] + (Flatten([]) + [loc]) == [tcp4, loc];
    LocKnown();
  }

  lemma {:induction false} LocKnown()
    ensures Known(Options(Tcp4), "loc")
  {
    assert Options(Tcp4)[6] == LOC;
    NotPast(Options(Tcp4), "loc", 6);
  }

  lemma {:induction false} NotPast(options: seq<Opt>, name: string, i: nat)
    requires i < |options| && options[i].name == name
    ensures Known(options, name)
  {
    if 0 < i && options[0].name != name {
      NotPast(options[1..], name, i - 1);
    }
  }

  /** Finishing touches the flow type and the version byte only. */
  lemma {:induction false} FinishTouches(flow: Flow, st: State, b: nat)
    requires |st.p| == SPEC_SIZE && 4 <= b < SPEC_SIZE && (b == IP_VER ==> flow != Ip4)
    ensures FinishSpec(flow, st)[b] == st.p[b]
  {}

  /** The specification carries every group. */
  lemma {:induction false} SpecCarries(flow: Flow, gs: seq<Group>, k: nat)
    requires Accepted(flow, gs) && k < |gs|
    ensures GoodTable(Options(flow)) && Valid(Options(flow), gs[k]) && Carries(Options(flow), SpecOf(flow, gs), gs[k])
  {
    TablesGood(flow);
    var options, st0 := Options(flow), State(InitialSpec(flow), {});
    AllAccepted(options, gs, st0);
    AllCarried(options, gs, st0);
    var st := ApplyAll(options, gs, st0).value;
    var o := OptOf(options, gs[k]);
    assert InPlace(o);
    forall b: nat | b < SPEC_SIZE && !Spares(options, gs[k], b) ensures SpecOf(flow, gs)[b] == st.p[b] {
      FinishTouches(flow, st, b);
    }
    CarriesSurvives(options, gs[k], st.p, SpecOf(flow, gs));
  }

  lemma {:induction false} KeepsByte(options: seq<Opt>, gs: seq<Group>, st: State, b: nat)
    requires GoodTable(options) && AllWellFormed(options, gs) && |st.p| == SPEC_SIZE && b < SPEC_SIZE
    requires ApplyAll(options, gs, st).Some?
    requires forall k :: 0 <= k < |gs| ==> Spares(options, gs[k], b)
    ensures ApplyAll(options, gs, st).value.p[b] == st.p[b]
  {
    AllAccepted(options, gs, st);
    AllCarried(options, gs, st);
  }

  lemma {:induction false} InitialZero(flow: Flow, b: nat)
    requires 3 <= b < LOCATION
    ensures InitialSpec(flow)[b] == 0
  {}

  /** Bytes from the unions to the ring that no group touches are zero (but for the version byte). */
  lemma {:induction false} SpecElsewhere(flow: Flow, gs: seq<Group>, b: nat)
    requires Accepted(flow, gs) && 4 <= b < LOCATION && (b == IP_VER ==> flow != Ip4)
    requires forall k :: 0 <= k < |gs| ==> Spares(Options(flow), gs[k], b)
    ensures SpecOf(flow, gs)[b] == 0
  {
    TablesGood(flow);
    var options, st0 := Options(flow), State(InitialSpec(flow), {});
    KeepsByte(options, gs, st0, b);
    FinishTouches(flow, ApplyAll(options, gs, st0).value, b);
    InitialZero(flow, b);
  }

  lemma {:induction false} SparesFlowType(options: seq<Opt>, g: Group)
    requires GoodTable(options) && WellFormed(options, g)
    ensures Spares(options, g, 3)
  {}

  /** No group touches the flow type. */
  lemma {:induction false} FlowTypeUntouched(flow: Flow, gs: seq<Group>)
    requires Accepted(flow, gs)
    ensures GoodTable(Options(flow)) && ApplyAll(Options(flow), gs, State(InitialSpec(flow), {})).value.p[3] == 0
  {
    TablesGood(flow);
    var options, st0 := Options(flow), State(InitialSpec(flow), {});
    forall k | 0 <= k < |gs| ensures Spares(options, gs[k], 3) {
      SparesFlowType(options, gs[k]);
    }
    KeepsByte(options, gs, st0, 3);
    InitialZero(flow, 3);
  }

  /** The flow type is marked as extended exactly when an extension option was given. */
  lemma {:induction false} ExtendedIff(flow: Flow, gs: seq<Group>)
    requires Accepted(flow, gs)
    ensures Extended(SpecOf(flow, gs)) <==>
      exists k :: 0 <= k < |gs| && !(OptOf(Options(flow), gs[k]).flag !! EXT_FLAGS)
  {
    FlowTypeUntouched(flow, gs);
    var options, st0 := Options(flow), State(InitialSpec(flow), {});
    AllFlagged(options, gs, st0);
    var st := ApplyAll(options, gs, st0).value;
    TopByte(flow, st);
    if !(st.flags !! EXT_FLAGS) {
      var x :| x in st.flags && x in EXT_FLAGS;
    }
  }

  lemma {:induction false} TopByte(flow: Flow, st: State)
    requires |st.p| == SPEC_SIZE && st.p[3] == 0
    ensures Extended(FinishSpec(flow, st)) <==> !(st.flags !! EXT_FLAGS)
  {}

  // ----- What the user asked for

  /** The fields of a packet in the layout of the rule's value bytes. */
  function Image(pkt: Packet): (r: seq<Octet>)
    requires Sized(pkt)
    ensures |r| == M_U - H_U
  {
    pkt.hdr[..60] + pkt.ext
  }

  /** The field of the packet that the option names. */
  function FieldIn(o: Opt, pkt: Packet): (r: seq<Octet>)
    requires InPlace(o) && 0 <= o.moffset && Sized(pkt)
    ensures |r| == Width(o.kind)
  {
    Image(pkt)[o.offset - H_U..o.offset - H_U + Width(o.kind)]
  }

  /** The field the option names has the typed value, up to the bits the typed mask ignores. */
  predicate OptionMatches(options: seq<Opt>, g: Group, pkt: Packet)
    requires GoodTable(options) && WellFormed(options, g) && Valid(options, g) && Sized(pkt)
  {
    var o := OptOf(options, g);
    assert InPlace(o);
    o.moffset < 0 || AllSame(FieldIn(o, pkt), ValueBytes(options, g), MaskBytes(options, g))
  }

  /** The rule compares every masked byte of its unions and its extension. */
  predicate BytesMatch(fsp: seq<Octet>, pkt: Packet)
    requires |fsp| == SPEC_SIZE && Sized(pkt)
  {
    forall i :: 0 <= i < M_U - H_U ==> Same(Image(pkt)[i], fsp[H_U + i], fsp[M_U + i])
  }

  /** A rule that is not marked as extended has no masks in its extension, so the marker may be ignored. */
  lemma {:induction false} RuleIsBytes(flow: Flow, gs: seq<Group>, pkt: Packet)
    requires Accepted(flow, gs) && Sized(pkt)
    ensures RuleMatches(SpecOf(flow, gs), pkt) <==> BytesMatch(SpecOf(flow, gs), pkt)
  {
    var fsp := SpecOf(flow, gs);
    if !Extended(fsp) {
      forall b | M_EXT <= b < M_EXT + 12 ensures fsp[b] == 0 {
        ExtMaskZero(flow, gs, b);
      }
    }
    RuleBytes(fsp, pkt);
  }

  lemma {:induction false} ExtMaskZero(flow: Flow, gs: seq<Group>, b: nat)
    requires Accepted(flow, gs) && M_EXT <= b < M_EXT + 12 && !Extended(SpecOf(flow, gs))
    ensures SpecOf(flow, gs)[b] == 0
  {
    ExtendedIff(flow, gs);
    TablesGood(flow);
    forall k | 0 <= k < |gs| ensures Spares(Options(flow), gs[k], b) {
      var j := Lookup(Options(flow), gs[k].name.text);
      ExtOptions(flow, j);
      assert InPlace(Options(flow)[j]);
    }
    SpecElsewhere(flow, gs, b);
  }

  lemma {:induction false} RuleBytes(fsp: seq<Octet>, pkt: Packet)
    requires |fsp| == SPEC_SIZE && Sized(pkt)
    requires Extended(fsp) || forall b :: M_EXT <= b < M_EXT + 12 ==> fsp[b] == 0
    ensures RuleMatches(fsp, pkt) <==> BytesMatch(fsp, pkt)
  {
    var x := Image(pkt);
    assert forall i :: 0 <= i < 60 ==> x[i] == pkt.hdr[..60][i];
    assert forall i :: 60 <= i < 72 ==> x[i] == pkt.ext[i - 60];
    if !Extended(fsp) {
      forall i | 60 <= i < 72 ensures Same(x[i], fsp[H_U + i], fsp[M_U + i]) {
        DontCare(x[i], fsp[H_U + i], fsp[M_U + i]);
      }
    }
    if RuleMatches(fsp, pkt) {
      forall i | 0 <= i < 72 ensures Same(x[i], fsp[H_U + i], fsp[M_U + i]) {
        if i < 60 {
          assert Same(pkt.hdr[..60][i], fsp[H_U..H_EXT][i], fsp[M_U..M_EXT][i]);
        } else if Extended(fsp) {
          assert Same(pkt.ext[i - 60], fsp[H_EXT..M_U][i - 60], fsp[M_EXT..M_EXT + 12][i - 60]);
        }
      }
    }
    if BytesMatch(fsp, pkt) {
      forall i | 0 <= i < 60 ensures Same(pkt.hdr[..60][i], fsp[H_U..H_EXT][i], fsp[M_U..M_EXT][i]) {
        assert Same(x[i], fsp[H_U + i], fsp[M_U + i]);
      }
      forall i | 0 <= i < 12 ensures Same(pkt.ext[i], fsp[H_EXT..M_U][i], fsp[M_EXT..M_EXT + 12][i]) {
        assert Same(x[60 + i], fsp[H_U + (60 + i)], fsp[M_U + (60 + i)]);
      }
    }
  }

  /** The rule compares the bytes of an option's field alike. */
  predicate FieldMatches(o: Opt, fsp: seq<Octet>, x: seq<Octet>)
    requires InPlace(o) && |fsp| == SPEC_SIZE && |x| == M_U - H_U
  {
    var at, w := o.offset - H_U, Width(o.kind);
    o.moffset < 0 || AllSame(x[at..at + w], fsp[o.offset..o.offset + w], fsp[o.moffset..o.moffset + w])
  }

  lemma {:induction false} HoldsSlices(o: Opt, p: seq<Octet>, value: seq<Octet>, mask: seq<Octet>)
    requires InPlace(o) && |p| == SPEC_SIZE && |value| == |mask| == Width(o.kind) && Holds(o, p, value, mask)
    ensures p[o.offset..o.offset + Width(o.kind)] == value
    ensures 0 <= o.moffset ==> p[o.moffset..o.moffset + Width(o.kind)] == mask
  {}

  lemma {:induction false} TypedField(o: Opt, fsp: seq<Octet>, x: seq<Octet>, value: seq<Octet>, mask: seq<Octet>)
    requires InPlace(o) && |fsp| == SPEC_SIZE && |x| == M_U - H_U && |value| == |mask| == Width(o.kind)
    requires Holds(o, fsp, value, mask)
    ensures FieldMatches(o, fsp, x) <==>
      o.moffset < 0 || AllSame(x[o.offset - H_U..o.offset - H_U + Width(o.kind)], value, mask)
  {
    HoldsSlices(o, fsp, value, mask);
  }

  /** The bytes an option wrote are compared exactly as the option was typed. */
  lemma {:induction false} CarriedMatches(options: seq<Opt>, p: seq<Octet>, g: Group, pkt: Packet)
    requires GoodTable(options) && WellFormed(options, g) && Valid(options, g) && |p| == SPEC_SIZE && Sized(pkt)
    requires Carries(options, p, g)
    ensures InPlace(OptOf(options, g))
    ensures OptionMatches(options, g, pkt) <==> FieldMatches(OptOf(options, g), p, Image(pkt))
  {
    TypedField(OptOf(options, g), p, Image(pkt), ValueBytes(options, g), MaskBytes(options, g));
  }

  lemma {:induction false} OptionIsBytes(flow: Flow, gs: seq<Group>, k: nat, pkt: Packet)
    requires Accepted(flow, gs) && k < |gs| && Sized(pkt)
    ensures GoodTable(Options(flow)) && Valid(Options(flow), gs[k]) && InPlace(OptOf(Options(flow), gs[k]))
    ensures OptionMatches(Options(flow), gs[k], pkt) <==>
      FieldMatches(OptOf(Options(flow), gs[k]), SpecOf(flow, gs), Image(pkt))
  {
    SpecCarries(flow, gs, k);
    CarriedMatches(Options(flow), SpecOf(flow, gs), gs[k], pkt);
  }

  lemma {:induction false} BytesGiveField(o: Opt, fsp: seq<Octet>, pkt: Packet)
    requires InPlace(o) && |fsp| == SPEC_SIZE && Sized(pkt) && BytesMatch(fsp, pkt)
    ensures FieldMatches(o, fsp, Image(pkt))
  {
    if 0 <= o.moffset {
      var x, at, w := Image(pkt), o.offset - H_U, Width(o.kind);
      var a, b, c := x[at..at + w], fsp[o.offset..o.offset + w], fsp[o.moffset..o.moffset + w];
      forall t | 0 <= t < w ensures Same(a[t], b[t], c[t]) {
        assert Same(x[at + t], fsp[H_U + (at + t)], fsp[M_U + (at + t)]);
      }
    }
  }

  lemma {:induction false} FieldGivesByte(o: Opt, fsp: seq<Octet>, x: seq<Octet>, i: nat)
    requires InPlace(o) && |fsp| == SPEC_SIZE && |x| == M_U - H_U && i < M_U - H_U
    requires FieldMatches(o, fsp, x) && InMask(o, M_U + i)
    ensures Same(x[i], fsp[H_U + i], fsp[M_U + i])
  {
    var at, w := o.offset - H_U, Width(o.kind);
    var a, b, c := x[at..at + w], fsp[o.offset..o.offset + w], fsp[o.moffset..o.moffset + w];
    assert Same(a[i - at], b[i - at], c[i - at]);
  }

  /** A packet matches the rule exactly when it matches every option. */
  lemma {:induction false} RuleIsOptions(flow: Flow, gs: seq<Group>, pkt: Packet)
    requires Accepted(flow, gs) && Sized(pkt)
    ensures GoodTable(Options(flow)) && forall k :: 0 <= k < |gs| ==> Valid(Options(flow), gs[k])
    ensures RuleMatches(SpecOf(flow, gs), pkt) <==>
      forall k :: 0 <= k < |gs| ==> OptionMatches(Options(flow), gs[k], pkt)
  {
    TablesGood(flow);
    RuleIsBytes(flow, gs, pkt);
    var fsp, x := SpecOf(flow, gs), Image(pkt);
    forall k | 0 <= k < |gs|
      ensures Valid(Options(flow), gs[k])
      ensures BytesMatch(fsp, pkt) ==> OptionMatches(Options(flow), gs[k], pkt)
    {
      OptionIsBytes(flow, gs, k, pkt);
      if BytesMatch(fsp, pkt) {
        BytesGiveField(OptOf(Options(flow), gs[k]), fsp, pkt);
      }
    }
    if forall k :: 0 <= k < |gs| ==> OptionMatches(Options(flow), gs[k], pkt) {
      forall i | 0 <= i < M_U - H_U ensures Same(x[i], fsp[H_U + i], fsp[M_U + i]) {
        ByteOfOptions(flow, gs, pkt, i);
      }
    }
  }

  lemma {:induction false} ByteOfOptions(flow: Flow, gs: seq<Group>, pkt: Packet, i: nat)
    requires Accepted(flow, gs) && Sized(pkt) && i < M_U - H_U && GoodTable(Options(flow))
    requires forall k :: 0 <= k < |gs| ==> Valid(Options(flow), gs[k]) && OptionMatches(Options(flow), gs[k], pkt)
    ensures Same(Image(pkt)[i], SpecOf(flow, gs)[H_U + i], SpecOf(flow, gs)[M_U + i])
  {
    var fsp := SpecOf(flow, gs);
    if k :| 0 <= k < |gs| && !Spares(Options(flow), gs[k], M_U + i) {
      OptionIsBytes(flow, gs, k, pkt);
      assert OptionMatches(Options(flow), gs[k], pkt);
      FieldGivesByte(OptOf(Options(flow), gs[k]), fsp, Image(pkt), i);
    } else {
      SpecElsewhere(flow, gs, M_U + i);
      DontCare(Image(pkt)[i], fsp[H_U + i], fsp[M_U + i]);
    }
  }

  // ----- What the user typed, as numbers

  /** The number or the address an argument stands for, most significant byte first. */
  function Typed(t: OptType, a: Arg): (r: Num)
    requires Encode(t, a).Some?
    ensures |r| == Width(t)
  {
    if t == IP4 then a.ip4.value else if t == MAC then a.mac.value else a.number.value[8 - Width(t)..]
  }

  /** An accepted number is the typed one, not a part of it. */
  lemma {:induction false} TypedValue(t: OptType, a: Arg)
    requires Encode(t, a).Some? && t != IP4 && t != MAC
    ensures a.number.Some? && IntOf(Typed(t, a)) == IntOf(a.number.value) < Bound(t)
  {
    EncodeInRange(t, a);
    HighZero(a.number.value, 8 - Width(t));
  }

  /** A typed mask has the bits to ignore; without one nothing is ignored. */
  function TypedIgnore(t: OptType, mask: MaskArg): (r: Num)
    requires mask.Mask? ==> Encode(t, mask.arg).Some?
    ensures |r| == Width(t)
  {
    if mask.NoMask? then seq(Width(t), _ => 0) else Typed(t, mask.arg)
  }

  /** Everything but the two host-order numbers is stored most significant byte first. */
  lemma {:induction false} EncodeIsTyped(t: OptType, a: Arg)
    requires Encode(t, a).Some?
    ensures Encode(t, a).value == if t == U32 || t == U64 then Store(Typed(t, a)) else Typed(t, a)
  {
    if t == BE16 || t == BE32 || t == BE64 {
      NetworkOrder(Typed(t, a));
    } else if t == U8 {
      var x := Typed(t, a);
      assert Store(x) == x;
    }
  }

  lemma {:induction false} MaskIsTyped(options: seq<Opt>, g: Group)
    requires WellFormed(options, g) && Valid(options, g)
    requires Masked(OptOf(options, g))
    ensures Complement(MaskBytes(options, g)) == TypedIgnore(OptOf(options, g).kind, g.mask)
  {
    var t := OptOf(options, g).kind;
    if g.mask.Mask? {
      EncodeIsTyped(t, g.mask.arg);
      ComplementTwice(Typed(t, g.mask.arg));
    } else {
      assert Complement(Ones(Width(t))) == seq(Width(t), _ => 0);
    }
  }

  /** The field of an option with a mask holds the typed value, and its mask the typed mask inverted. */
  predicate HoldsTyped(fsp: seq<Octet>, o: Opt, value: Arg, mask: MaskArg)
    requires |fsp| == SPEC_SIZE && InPlace(o) && 0 <= o.moffset
  {
    && Encode(o.kind, value).Some? && (mask.Mask? ==> Encode(o.kind, mask.arg).Some?)
    && fsp[o.offset..o.offset + Width(o.kind)] == Typed(o.kind, value)
    && Complement(fsp[o.moffset..o.moffset + Width(o.kind)]) == TypedIgnore(o.kind, mask)
  }

  /** An option with a mask: all but the action and the location. */
  predicate Masked(o: Opt) {
    0 <= o.moffset && o.kind != U32 && o.kind != U64
  }

  lemma {:induction false} ValueIsTyped(options: seq<Opt>, g: Group)
    requires WellFormed(options, g) && Valid(options, g) && Masked(OptOf(options, g))
    ensures ValueBytes(options, g) == Typed(OptOf(options, g).kind, g.value)
  {
    EncodeIsTyped(OptOf(options, g).kind, g.value);
  }

  lemma {:induction false} SameIsEqual(x: Octet, v: Octet)
    ensures Same(x, v, 0xff) <==> x == v
  {}

  lemma {:induction false} AllSameIsEqual(x: seq<Octet>, v: seq<Octet>)
    requires |x| == |v|
    ensures AllSame(x, v, Ones(|x|)) <==> x == v
  {
    forall i | 0 <= i < |x| ensures Same(x[i], v[i], Ones(|x|)[i]) <==> x[i] == v[i] {
      SameIsEqual(x[i], v[i]);
    }
  }

  lemma {:induction false} WholeMask(options: seq<Opt>, g: Group)
    requires WellFormed(options, g) && Valid(options, g) && g.mask.NoMask?
    ensures MaskBytes(options, g) == Ones(Width(OptOf(options, g).kind))
  {}

  /** An option without a mask matches the packets whose field is what was typed. */
  lemma {:induction false} NoMaskMeansEqual(options: seq<Opt>, g: Group, pkt: Packet)
    requires GoodTable(options) && WellFormed(options, g) && Valid(options, g) && Sized(pkt)
    requires Masked(OptOf(options, g)) && g.mask.NoMask?
    ensures InPlace(OptOf(options, g))
    ensures OptionMatches(options, g, pkt) <==>
      FieldIn(OptOf(options, g), pkt) == Typed(OptOf(options, g).kind, g.value)
  {
    assert InPlace(OptOf(options, g));
    ValueIsTyped(options, g);
    WholeMask(options, g);
    AllSameIsEqual(FieldIn(OptOf(options, g), pkt), ValueBytes(options, g));
  }

  lemma {:induction false} SlicesTyped(o: Opt, fsp: seq<Octet>, value: Arg, mask: MaskArg, v: seq<Octet>, m: seq<Octet>)
    requires InPlace(o) && 0 <= o.moffset && |fsp| == SPEC_SIZE && |v| == |m| == Width(o.kind) && Holds(o, fsp, v, m)
    requires Encode(o.kind, value).Some? && (mask.Mask? ==> Encode(o.kind, mask.arg).Some?)
    requires v == Typed(o.kind, value) && Complement(m) == TypedIgnore(o.kind, mask)
    ensures HoldsTyped(fsp, o, value, mask)
  {
    HoldsSlices(o, fsp, v, m);
  }

  lemma {:induction false} CarriesTyped(options: seq<Opt>, fsp: seq<Octet>, g: Group)
    requires GoodTable(options) && WellFormed(options, g) && Valid(options, g) && |fsp| == SPEC_SIZE
    requires Carries(options, fsp, g) && Masked(OptOf(options, g))
    ensures InPlace(OptOf(options, g)) && HoldsTyped(fsp, OptOf(options, g), g.value, g.mask)
  {
    ValueIsTyped(options, g);
    MaskIsTyped(options, g);
    SlicesTyped(OptOf(options, g), fsp, g.value, g.mask, ValueBytes(options, g), MaskBytes(options, g));
  }

  /** An accepted command line leaves every typed value and mask in the field of its option. */
  lemma {:induction false} FieldOf(flow: Flow, gs: seq<Group>, k: nat)
    requires Accepted(flow, gs) && k < |gs| && Masked(OptOf(Options(flow), gs[k]))
    ensures GoodTable(Options(flow)) && Valid(Options(flow), gs[k]) && InPlace(OptOf(Options(flow), gs[k]))
    ensures HoldsTyped(SpecOf(flow, gs), OptOf(Options(flow), gs[k]), gs[k].value, gs[k].mask)
  {
    SpecCarries(flow, gs, k);
    CarriesTyped(Options(flow), SpecOf(flow, gs), gs[k]);
  }

  lemma {:induction false} OptionFrom(flow: Flow, g: Group)
    requires WellFormed(Options(flow), g)
    ensures OptOf(Options(flow), g) in HeaderOptions(flow) || OptOf(Options(flow), g) in COMMON_OPTS
  {}

  lemma {:induction false} NamedOption(flow: Flow, g: Group)
    requires WellFormed(Options(flow), g)
    ensures g.name.text == "user-def" ==> OptOf(Options(flow), g) == USER_DEF
    ensures g.name.text == "vlan" ==> OptOf(Options(flow), g) == VLAN
    ensures g.name.text == "vlan-etype" ==> OptOf(Options(flow), g) == VLAN_ETYPE
    ensures g.name.text == "action" ==> OptOf(Options(flow), g) == ACTION
    ensures g.name.text == "loc" ==> OptOf(Options(flow), g) == LOC
  {}

  lemma {:induction false} MarkedExtended(flow: Flow, gs: seq<Group>, k: nat)
    requires Accepted(flow, gs) && k < |gs| && !(OptOf(Options(flow), gs[k]).flag !! EXT_FLAGS)
    ensures Extended(SpecOf(flow, gs))
  {
    ExtendedIff(flow, gs);
  }

  lemma {:induction false} LoadsStored(p: seq<Octet>, o: nat, v: Num)
    requires o + |v| <= |p| && p[o..o + |v|] == Store(v)
    ensures Load(p, o, |v|) == v
  {}

  lemma {:induction false} CarriesPlain(options: seq<Opt>, fsp: seq<Octet>, g: Group)
    requires GoodTable(options) && WellFormed(options, g) && Valid(options, g) && |fsp| == SPEC_SIZE
    requires Carries(options, fsp, g) && (OptOf(options, g).kind == U32 || OptOf(options, g).kind == U64)
    ensures InPlace(OptOf(options, g))
    ensures var o := OptOf(options, g);
      Load(fsp, o.offset, Width(o.kind)) == Typed(o.kind, g.value)
  {
    var o := OptOf(options, g);
    HoldsSlices(o, fsp, ValueBytes(options, g), MaskBytes(options, g));
    EncodeIsTyped(o.kind, g.value);
    LoadsStored(fsp, o.offset, Typed(o.kind, g.value));
  }
}
