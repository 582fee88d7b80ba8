/** From the command line to the N-tuple filter: which accepted command lines can be converted, and
which packets pass the filter, in terms of the options the user typed.
*/
module RuleConversion {
  import opened FlowBytes
  import opened FlowRules
  import opened RuleGroups
  import opened FlowParser
  import opened Ntuple
  import opened RuleMeaning
  import opened Wrappers

  // ----- Whose bytes are whose

  /** The one option that can touch a byte of these fields. */
  predicate OwnedBytes(o: Opt) {
    && (0 <= o.moffset && M_EXT < o.moffset + Width(o.kind) && o.moffset < M_EXT + 2 ==> o.name == VLAN_ETYPE.name)
    && (0 <= o.moffset && M_EXT + 4 < o.moffset + Width(o.kind) ==> o.name == USER_DEF.name)
    && (o.moffset < 0 ==> (o.name == ACTION.name && o == ACTION) || (o.name == LOC.name && o == LOC))
  }

  lemma {:induction false} CommonOwned(o: Opt)
    requires o in COMMON_OPTS
    ensures OwnedBytes(o)
  {}

  lemma {:induction false} HeaderOwned(flow: Flow, o: Opt)
    requires o in HeaderOptions(flow)
    ensures OwnedBytes(o)
  {}

  lemma {:induction false} Owned(flow: Flow, g: Group)
    requires WellFormed(Options(flow), g)
    ensures OwnedBytes(OptOf(Options(flow), g)) && OptOf(Options(flow), g).name == g.name.text
  {
    OptionFrom(flow, g);
    if OptOf(Options(flow), g) in COMMON_OPTS {
      CommonOwned(OptOf(Options(flow), g));
    } else {
      HeaderOwned(flow, OptOf(Options(flow), g));
    }
  }

  // ----- Which data the rule compares

  /** If the group is for the option, its mask ignores every bit. */
  predicate Ignores(g: Group, o: Opt) {
    g.name.text == o.name ==> g.mask.Mask? && Encode(o.kind, g.mask.arg) == Some(Ones(Width(o.kind)))
  }

  /** Some group is for the option and does not ignore all of it. */
  predicate Compared(gs: seq<Group>, o: Opt) {
    exists k :: 0 <= k < |gs| && !Ignores(gs[k], o)
  }

  /** The rule has a mask for the option. */
  predicate Compares(fsp: seq<Octet>, o: Opt)
    requires |fsp| == SPEC_SIZE && InPlace(o) && Masked(o)
  {
    !IsZero(fsp[o.moffset..o.moffset + Width(o.kind)])
  }

  lemma {:induction false} DataCompared(fsp: seq<Octet>)
    requires |fsp| == SPEC_SIZE
    ensures HasEtype(fsp) <==> Compares(fsp, VLAN_ETYPE)
    ensures HasUserData(fsp) <==> Compares(fsp, USER_DEF)
  {
    EtypeBytes(fsp);
    UserDataBytes(fsp);
  }

  lemma {:induction false} OnesAreIgnored(m: seq<Octet>)
    ensures IsZero(m) <==> Complement(m) == Ones(|m|)
  {
    var c := Complement(m);
    if c == Ones(|m|) {
      forall i | 0 <= i < |m| ensures m[i] == 0 {
        assert c[i] == 0xff;
      }
    }
  }

  lemma {:induction false} MaskIgnores(fsp: seq<Octet>, o: Opt, value: Arg, mask: MaskArg)
    requires |fsp| == SPEC_SIZE && InPlace(o) && Masked(o) && HoldsTyped(fsp, o, value, mask)
    ensures Compares(fsp, o) <==> !(mask.Mask? && Encode(o.kind, mask.arg) == Some(Ones(Width(o.kind))))
  {
    OnesAreIgnored(fsp[o.moffset..o.moffset + Width(o.kind)]);
    if mask.Mask? {
      EncodeIsTyped(o.kind, mask.arg);
    } else {
      assert TypedIgnore(o.kind, mask)[0] == 0 && Ones(Width(o.kind))[0] == 0xff;
    }
  }

  predicate DataOption(o: Opt) {
    (o == VLAN_ETYPE || o == USER_DEF) && InPlace(o) && Masked(o)
  }

  lemma {:induction false} DataOptions()
    ensures DataOption(VLAN_ETYPE) && DataOption(USER_DEF)
  {}

  lemma {:induction false} UntypedMaskByte(flow: Flow, gs: seq<Group>, o: Opt, b: nat)
    requires Accepted(flow, gs) && DataOption(o) && InMask(o, b)
    requires forall k :: 0 <= k < |gs| ==> gs[k].name.text != o.name
    ensures SpecOf(flow, gs)[b] == 0
  {
    TablesGood(flow);
    forall k | 0 <= k < |gs| ensures Spares(Options(flow), gs[k], b) {
      Owned(flow, gs[k]);
      assert InPlace(OptOf(Options(flow), gs[k]));
    }
    SpecElsewhere(flow, gs, b);
  }

  lemma {:induction false} UntypedMask(flow: Flow, gs: seq<Group>, o: Opt)
    requires Accepted(flow, gs) && DataOption(o)
    requires forall k :: 0 <= k < |gs| ==> gs[k].name.text != o.name
    ensures !Compares(SpecOf(flow, gs), o)
  {
    var fsp := SpecOf(flow, gs);
    forall b: nat | InMask(o, b) ensures fsp[b] == 0 {
      UntypedMaskByte(flow, gs, o, b);
    }
    ZeroSlice(fsp, o);
  }

  lemma {:induction false} ZeroSlice(fsp: seq<Octet>, o: Opt)
    requires |fsp| == SPEC_SIZE && InPlace(o) && Masked(o) && forall b: nat :: InMask(o, b) ==> fsp[b] == 0
    ensures !Compares(fsp, o)
  {
    var mask := fsp[o.moffset..o.moffset + Width(o.kind)];
    forall i | 0 <= i < |mask| ensures mask[i] == 0 {
      assert InMask(o, o.moffset + i);
    }
  }

  lemma {:induction false} TypedMaskByte(flow: Flow, gs: seq<Group>, o: Opt, k: nat)
    requires Accepted(flow, gs) && DataOption(o) && k < |gs| && gs[k].name.text == o.name
    ensures Extended(SpecOf(flow, gs)) && (Compares(SpecOf(flow, gs), o) <==> !Ignores(gs[k], o))
  {
    NamedOption(flow, gs[k]);
    FieldOf(flow, gs, k);
    MarkedExtended(flow, gs, k);
    MaskIgnores(SpecOf(flow, gs), o, gs[k].value, gs[k].mask);
  }

  /** The rule compares the VLAN type, or the user data, exactly when it was typed with a mask that
      does not ignore all of it; it is then marked as extended. */
  lemma {:induction false} ComparedIff(flow: Flow, gs: seq<Group>, o: Opt)
    requires Accepted(flow, gs) && DataOption(o)
    ensures Compares(SpecOf(flow, gs), o) <==> Compared(gs, o)
    ensures Compared(gs, o) ==> Extended(SpecOf(flow, gs))
  {
    if k :| 0 <= k < |gs| && gs[k].name.text == o.name {
      TypedMaskByte(flow, gs, o, k);
      if j :| 0 <= j < |gs| && !Ignores(gs[j], o) {
        TypedMaskByte(flow, gs, o, j);
      }
    } else {
      UntypedMask(flow, gs, o);
    }
  }

  lemma {:induction false} EtypeIff(flow: Flow, gs: seq<Group>)
    requires Accepted(flow, gs)
    ensures HasEtype(SpecOf(flow, gs)) <==> Compared(gs, VLAN_ETYPE)
    ensures Compared(gs, VLAN_ETYPE) ==> Extended(SpecOf(flow, gs))
  {
    DataOptions();
    ComparedIff(flow, gs, VLAN_ETYPE);
    DataCompared(SpecOf(flow, gs));
  }

  lemma {:induction false} UserDataIff(flow: Flow, gs: seq<Group>)
    requires Accepted(flow, gs)
    ensures HasUserData(SpecOf(flow, gs)) <==> Compared(gs, USER_DEF)
  {
    DataOptions();
    ComparedIff(flow, gs, USER_DEF);
    DataCompared(SpecOf(flow, gs));
  }

  /** Both kinds of data are compared. */
  predicate BothKinds(gs: seq<Group>) {
    Compared(gs, USER_DEF) && Compared(gs, VLAN_ETYPE)
  }

  lemma {:induction false} BothKindsIff(flow: Flow, gs: seq<Group>)
    requires Accepted(flow, gs)
    ensures var fsp := SpecOf(flow, gs);
      Extended(fsp) && HasUserData(fsp) && HasEtype(fsp) <==> BothKinds(gs)
  {
    EtypeIff(flow, gs);
    UserDataIff(flow, gs);
  }

  // ----- Location and action

  lemma {:induction false} TypedPlain(flow: Flow, gs: seq<Group>, k: nat, o: Opt)
    requires Accepted(flow, gs) && k < |gs| && gs[k].name.text == o.name && (o == ACTION || o == LOC)
    ensures Encode(o.kind, gs[k].value).Some?
    ensures Load(SpecOf(flow, gs), o.offset, Width(o.kind)) == Typed(o.kind, gs[k].value)
  {
    NamedOption(flow, gs[k]);
    SpecCarries(flow, gs, k);
    CarriesPlain(Options(flow), SpecOf(flow, gs), gs[k]);
  }

  /** Bytes of the action and the location that no group touches are as they were set up. */
  lemma {:induction false} UntypedByte(flow: Flow, gs: seq<Group>, b: nat)
    requires Accepted(flow, gs) && RING_COOKIE <= b < SPEC_SIZE
    requires forall k :: 0 <= k < |gs| ==> Spares(Options(flow), gs[k], b)
    ensures SpecOf(flow, gs)[b] == InitialSpec(flow)[b]
  {
    TablesGood(flow);
    var options, st0 := Options(flow), State(InitialSpec(flow), {});
    KeepsByte(options, gs, st0, b);
    FinishTouches(flow, ApplyAll(options, gs, st0).value, b);
  }

  predicate LocationOrAction(o: Opt) {
    (o == ACTION || o == LOC) && RING_COOKIE <= o.offset && o.offset + Width(o.kind) <= SPEC_SIZE
  }

  lemma {:induction false} UntypedPlain(flow: Flow, gs: seq<Group>, o: Opt)
    requires Accepted(flow, gs) && LocationOrAction(o)
    requires forall k :: 0 <= k < |gs| ==> gs[k].name.text != o.name
    ensures Load(SpecOf(flow, gs), o.offset, Width(o.kind)) == Load(InitialSpec(flow), o.offset, Width(o.kind))
  {
    var p, q := SpecOf(flow, gs), InitialSpec(flow);
    forall b: nat | InValue(o, b) ensures p[b] == q[b] {
      PlainSpared(flow, gs, o, b);
      UntypedByte(flow, gs, b);
    }
    SameLoad(p, q, o);
  }

  lemma {:induction false} SameLoad(p: seq<Octet>, q: seq<Octet>, o: Opt)
    requires |p| == |q| == SPEC_SIZE && LocationOrAction(o) && forall b: nat :: InValue(o, b) ==> p[b] == q[b]
    ensures Load(p, o.offset, Width(o.kind)) == Load(q, o.offset, Width(o.kind))
  {
    var a, b := p[o.offset..o.offset + Width(o.kind)], q[o.offset..o.offset + Width(o.kind)];
    forall i | 0 <= i < |a| ensures a[i] == b[i] {
      assert InValue(o, o.offset + i);
    }
    assert a == b;
  }

  lemma {:induction false} PlainSpared(flow: Flow, gs: seq<Group>, o: Opt, b: nat)
    requires Accepted(flow, gs) && LocationOrAction(o) && InValue(o, b)
    requires forall k :: 0 <= k < |gs| ==> gs[k].name.text != o.name
    ensures forall k :: 0 <= k < |gs| ==> Spares(Options(flow), gs[k], b)
  {
    TablesGood(flow);
    forall k | 0 <= k < |gs| ensures Spares(Options(flow), gs[k], b) {
      Owned(flow, gs[k]);
      assert InPlace(OptOf(Options(flow), gs[k]));
    }
  }

  lemma {:induction false} InitialLocation(flow: Flow)
    ensures Load(InitialSpec(flow), LOCATION, 4) == Ones(4)
  {
    var p := InitialSpec(flow);
    assert forall b :: LOCATION <= b < LOCATION + 4 ==> p[b] == 0xff;
  }

  lemma {:induction false} InitialCookie(flow: Flow)
    ensures CookieFits(Load(InitialSpec(flow), RING_COOKIE, 8))
  {
    var v := Load(InitialSpec(flow), RING_COOKIE, 8);
    forall i | 0 <= i < 8 ensures v[i] == 0 {
      InitialZero(flow, RING_COOKIE + 7 - i);
    }
    assert forall i :: 0 <= i < 4 ==> v[..4][i] == v[i];
  }

  predicate CookieFits(cookie: Num)
    requires |cookie| == 8
  {
    AtMostIntMax(cookie) || DropOrClear(cookie)
  }

  /** A location must be "any", and an action a queue number of 31 bits or one of the two highest
      numbers. */
  predicate PlainConvertible(g: Group) {
    && (g.name.text == "loc" ==> g.value.number.Some? && IntOf(g.value.number.value) == 0xffff_ffff)
    && (g.name.text == "action" ==> g.value.number.Some? && CookieInRange(IntOf(g.value.number.value)))
  }

  predicate CookieInRange(cookie: nat) {
    cookie <= 0x7fff_ffff || 0xffff_ffff_ffff_fffe <= cookie
  }

  lemma {:induction false} AnyLocation(a: Arg)
    requires Encode(U32, a).Some?
    ensures a.number.Some? && (Typed(U32, a) == Ones(4) <==> IntOf(a.number.value) == 0xffff_ffff)
  {
    TypedValue(U32, a);
    IntOfInjective(Typed(U32, a), Ones(4));
    IntOfOnes(4);
    Powers();
  }

  lemma {:induction false} ActionFits(a: Arg)
    requires Encode(U64, a).Some?
    ensures a.number.Some? && (CookieFits(Typed(U64, a)) <==> CookieInRange(IntOf(a.number.value)))
  {
    TypedValue(U64, a);
    IntMaxRange(Typed(U64, a));
    DropOrClearRange(Typed(U64, a));
  }

  lemma {:induction false} LocationIff(flow: Flow, gs: seq<Group>)
    requires Accepted(flow, gs)
    ensures Load(SpecOf(flow, gs), LOCATION, 4) == Ones(4) <==>
      forall k :: 0 <= k < |gs| && gs[k].name.text == "loc" ==>
        gs[k].value.number.Some? && IntOf(gs[k].value.number.value) == 0xffff_ffff
  {
    forall k: nat | k < |gs| && gs[k].name.text == "loc"
      ensures gs[k].value.number.Some?
      ensures Load(SpecOf(flow, gs), LOCATION, 4) == Ones(4) <==> IntOf(gs[k].value.number.value) == 0xffff_ffff
    {
      TypedPlain(flow, gs, k, LOC);
      AnyLocation(gs[k].value);
    }
    if forall k :: 0 <= k < |gs| ==> gs[k].name.text != "loc" {
      UntypedPlain(flow, gs, LOC);
      InitialLocation(flow);
    }
  }

  lemma {:induction false} CookieIff(flow: Flow, gs: seq<Group>)
    requires Accepted(flow, gs)
    ensures CookieFits(Load(SpecOf(flow, gs), RING_COOKIE, 8)) <==>
      forall k :: 0 <= k < |gs| && gs[k].name.text == "action" ==>
        gs[k].value.number.Some? && CookieInRange(IntOf(gs[k].value.number.value))
  {
    forall k: nat | k < |gs| && gs[k].name.text == "action"
      ensures gs[k].value.number.Some?
      ensures CookieFits(Load(SpecOf(flow, gs), RING_COOKIE, 8)) <==>
              CookieInRange(IntOf(gs[k].value.number.value))
    {
      TypedPlain(flow, gs, k, ACTION);
      ActionFits(gs[k].value);
    }
    if forall k :: 0 <= k < |gs| ==> gs[k].name.text != "action" {
      UntypedPlain(flow, gs, ACTION);
      InitialCookie(flow);
    }
  }

  // ----- The whole way

  /** Which accepted command lines can be converted, in terms of what was typed. */
  lemma {:induction false} ConvertibleIff(flow: Flow, gs: seq<Group>)
    requires Accepted(flow, gs)
    ensures Convertible(SpecOf(flow, gs)) <==>
      (forall k :: 0 <= k < |gs| ==> PlainConvertible(gs[k])) && !BothKinds(gs)
  {
    LocationIff(flow, gs);
    CookieIff(flow, gs);
    BothKindsIff(flow, gs);
  }

  /** Every typed option matches the packet. */
  predicate Asked(flow: Flow, gs: seq<Group>, pkt: Packet)
    requires Accepted(flow, gs) && Sized(pkt)
  {
    RuleIsOptions(flow, gs, pkt);
    forall k :: 0 <= k < |gs| ==> OptionMatches(Options(flow), gs[k], pkt)
  }

  /** The filter made from an accepted command line passes exactly the packets that were asked for,
      for all packets, if and only if the command line does not compare both kinds of data. */
  lemma {:induction false} TypedExact(flow: Flow, gs: seq<Group>)
    requires Accepted(flow, gs)
    ensures var fsp := SpecOf(flow, gs);
      (forall pkt :: Sized(pkt) ==>
         (FilterMatches(ToFilter(fsp), pkt, DataRead(fsp, pkt.ext)) <==> Asked(flow, gs, pkt))) <==> !BothKinds(gs)
  {
    var fsp := SpecOf(flow, gs);
    BothKindsIff(flow, gs);
    MeaningExact(fsp);
    forall pkt | Sized(pkt) ensures RuleMatches(fsp, pkt) <==> Asked(flow, gs, pkt) {
      RuleIsOptions(flow, gs, pkt);
    }
  }

  lemma {:induction false} TypedData(fsp: seq<Octet>, value: Arg, mask: MaskArg)
    requires |fsp| == SPEC_SIZE && Extended(fsp) && !HasEtype(fsp) && HoldsTyped(fsp, USER_DEF, value, mask)
    ensures ToFilter(fsp).data == Typed(BE64, value) && ToFilter(fsp).dataMask == TypedIgnore(BE64, mask)
  {
    DataFrom(fsp, Typed(BE64, value), TypedIgnore(BE64, mask));
  }

  lemma {:induction false} DataFrom(fsp: seq<Octet>, v: Num, i: Num)
    requires |fsp| == SPEC_SIZE && Extended(fsp) && !HasEtype(fsp)
    requires fsp[H_EXT + 4..M_U] == v && Complement(fsp[M_EXT + 4..M_EXT + 12]) == i
    ensures ToFilter(fsp).data == v && ToFilter(fsp).dataMask == i
  {
    DataFields(fsp);
    ComplementTwice(ToFilter(fsp).dataMask);
  }

  lemma {:induction false} TagFrom(fsp: seq<Octet>, v: Num, i: Num)
    requires |fsp| == SPEC_SIZE && Extended(fsp)
    requires fsp[H_EXT + 2..H_EXT + 4] == v && Complement(fsp[M_EXT + 2..M_EXT + 4]) == i
    ensures ToFilter(fsp).vlanTag == v && ToFilter(fsp).vlanTagMask == i
  {
    TagFields(fsp);
    ComplementTwice(ToFilter(fsp).vlanTagMask);
  }

  lemma {:induction false} TypedTag(fsp: seq<Octet>, value: Arg, mask: MaskArg)
    requires |fsp| == SPEC_SIZE && Extended(fsp) && HoldsTyped(fsp, VLAN, value, mask)
    ensures ToFilter(fsp).vlanTag == Typed(BE16, value) && ToFilter(fsp).vlanTagMask == TypedIgnore(BE16, mask)
  {
    TagFrom(fsp, Typed(BE16, value), TypedIgnore(BE16, mask));
  }

  predicate TagOrData(o: Opt) {
    (o == USER_DEF || o == VLAN) && InPlace(o) && 0 <= o.moffset
  }

  lemma {:induction false} ExtField(flow: Flow, gs: seq<Group>, k: nat, o: Opt)
    requires Accepted(flow, gs) && k < |gs| && gs[k].name.text == o.name && TagOrData(o)
    ensures Extended(SpecOf(flow, gs)) && HoldsTyped(SpecOf(flow, gs), o, gs[k].value, gs[k].mask)
  {
    NamedOption(flow, gs[k]);
    FieldOf(flow, gs, k);
    MarkedExtended(flow, gs, k);
  }

  lemma {:induction false} NoEtype(flow: Flow, gs: seq<Group>)
    requires Accepted(flow, gs) && !Compared(gs, VLAN_ETYPE)
    ensures !HasEtype(SpecOf(flow, gs))
  {
    EtypeIff(flow, gs);
  }

  lemma {:induction false} DataHeld(flow: Flow, gs: seq<Group>, k: nat)
    requires Accepted(flow, gs) && k < |gs| && gs[k].name.text == USER_DEF.name && !Compared(gs, VLAN_ETYPE)
    ensures Extended(SpecOf(flow, gs)) && !HasEtype(SpecOf(flow, gs)) && TagOrData(USER_DEF)
    ensures HoldsTyped(SpecOf(flow, gs), USER_DEF, gs[k].value, gs[k].mask)
  {
    NoEtype(flow, gs);
    ExtField(flow, gs, k, USER_DEF);
  }

  /** If no VLAN type is compared, typed user data reaches the filter as the number that was typed. */
  lemma {:induction false} DataIsTyped(flow: Flow, gs: seq<Group>, k: nat)
    requires Accepted(flow, gs) && k < |gs| && gs[k].name.text == USER_DEF.name && !Compared(gs, VLAN_ETYPE)
    ensures Encode(BE64, gs[k].value).Some? && (gs[k].mask.Mask? ==> Encode(BE64, gs[k].mask.arg).Some?)
    ensures ToFilter(SpecOf(flow, gs)).data == Typed(BE64, gs[k].value)
    ensures ToFilter(SpecOf(flow, gs)).dataMask == TypedIgnore(BE64, gs[k].mask)
  {
    DataHeld(flow, gs, k);
    TypedData(SpecOf(flow, gs), gs[k].value, gs[k].mask);
  }

  /** A typed VLAN tag always does. */
  lemma {:induction false} TagIsTyped(flow: Flow, gs: seq<Group>, k: nat)
    requires Accepted(flow, gs) && k < |gs| && gs[k].name.text == VLAN.name
    ensures Encode(BE16, gs[k].value).Some? && (gs[k].mask.Mask? ==> Encode(BE16, gs[k].mask.arg).Some?)
    ensures ToFilter(SpecOf(flow, gs)).vlanTag == Typed(BE16, gs[k].value)
    ensures ToFilter(SpecOf(flow, gs)).vlanTagMask == TypedIgnore(BE16, gs[k].mask)
  {
    ExtField(flow, gs, k, VLAN);
    TypedTag(SpecOf(flow, gs), gs[k].value, gs[k].mask);
  }
}
