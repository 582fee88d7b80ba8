/** The bytes of an accepted rule as the C structures they are: every header structure and the
extension, field by field in the order of their declarations, with the typed values and masks.
*/
module RuleLayout {
  import opened FlowBytes
  import opened FlowRules
  import opened RuleGroups
  import opened FlowParser
  import opened Ntuple
  import opened RuleMeaning
  import opened Wrappers

  // ----- What was typed under a name

  /** Index of the first group for the option called `name`, or the number of groups. */
  function GroupNamed(gs: seq<Group>, name: string): (r: nat)
    ensures r <= |gs| && (r < |gs| ==> gs[r].name.text == name)
    ensures forall k :: 0 <= k < r ==> gs[k].name.text != name
  {
    if gs == [] || gs[0].name.text == name then 0 else 1 + GroupNamed(gs[1..], name)
  }

  predicate Given(gs: seq<Group>, name: string) {
    GroupNamed(gs, name) < |gs|
  }

  /** A member of a structure, by the name of its option. */
  datatype Member = Member(name: string, kind: OptType)

  /** The value typed for a member, or zero if there is none. */
  function ValueOf(gs: seq<Group>, m: Member): (r: Num)
    ensures |r| == Width(m.kind)
  {
    if Given(gs, m.name) && Encode(m.kind, gs[GroupNamed(gs, m.name)].value).Some?
    then Typed(m.kind, gs[GroupNamed(gs, m.name)].value)
    else seq(Width(m.kind), _ => 0)
  }

  /** The bits to ignore in a member: those of the typed mask, none without a mask, and all of them if
      the option is not given. */
  function IgnoredOf(gs: seq<Group>, m: Member): (r: Num)
    ensures |r| == Width(m.kind)
  {
    if !Given(gs, m.name) then Ones(Width(m.kind))
    else
      var mask := gs[GroupNamed(gs, m.name)].mask;
      if mask.Mask? && Encode(m.kind, mask.arg).None? then Ones(Width(m.kind)) else TypedIgnore(m.kind, mask)
  }

  lemma {:induction false} SameNameClashes(options: seq<Opt>, g: Group, h: Group)
    requires GoodTable(options) && WellFormed(options, g) && WellFormed(options, h) && g.name.text == h.name.text
    ensures !Compatible(OptOf(options, g), OptOf(options, h))
  {
    assert InPlace(OptOf(options, g));
  }

  /** No option is given twice, so the first group of a name is the only one. */
  lemma {:induction false} GivenOnce(flow: Flow, gs: seq<Group>, k: nat)
    requires Accepted(flow, gs) && k < |gs|
    ensures GroupNamed(gs, gs[k].name.text) == k
  {
    TablesGood(flow);
    AllAccepted(Options(flow), gs, State(InitialSpec(flow), {}));
    var i := GroupNamed(gs, gs[k].name.text);
    if i < k {
      SameNameClashes(Options(flow), gs[i], gs[k]);
    }
  }

  // ----- One field

  /** The bytes lie at position `a`. */
  predicate LiesAt(p: seq<Octet>, a: nat, bytes: seq<Octet>) {
    a + |bytes| <= |p| && forall i :: 0 <= i < |bytes| ==> bytes[i] == p[a + i]
  }

  /** The member, at position `at` of h_u followed by h_ext, holds what was typed under its name, and
      the one of the masks what was typed as its mask, inverted. */
  predicate Laid(fsp: seq<Octet>, gs: seq<Group>, m: Member, at: nat) {
    && LiesAt(fsp, H_U + at, ValueOf(gs, m))
    && LiesAt(Complement(fsp), M_U + at, IgnoredOf(gs, m))
  }

  /** The member belongs to the option. */
  predicate Declares(o: Opt, m: Member, at: nat) {
    o.name == m.name && o.kind == m.kind && o.offset == H_U + at && InPlace(o) && Masked(o)
  }

  /** The option is the one found under its name. */
  predicate Found(flow: Flow, gs: seq<Group>, o: Opt)
    requires AllWellFormed(Options(flow), gs)
  {
    forall k :: 0 <= k < |gs| && gs[k].name.text == o.name ==> OptOf(Options(flow), gs[k]) == o
  }

  /** The groups for other options keep off its field. */
  predicate Alone(flow: Flow, gs: seq<Group>, o: Opt)
    requires AllWellFormed(Options(flow), gs)
  {
    forall k :: 0 <= k < |gs| && gs[k].name.text != o.name ==> Apart(OptOf(Options(flow), gs[k]), o)
  }

  lemma {:induction false} InvertedSlice(p: seq<Octet>, a: nat, b: nat)
    requires a <= b <= |p|
    ensures Complement(p)[a..b] == Complement(p[a..b])
  {}

  lemma {:induction false} HeldValue(fsp: seq<Octet>, o: Opt, value: Arg, mask: MaskArg)
    requires |fsp| == SPEC_SIZE && InPlace(o) && Masked(o) && HoldsTyped(fsp, o, value, mask)
    ensures LiesAt(fsp, o.offset, Typed(o.kind, value))
  {}

  lemma {:induction false} HeldMask(fsp: seq<Octet>, o: Opt, value: Arg, mask: MaskArg)
    requires |fsp| == SPEC_SIZE && InPlace(o) && Masked(o) && HoldsTyped(fsp, o, value, mask)
    ensures LiesAt(Complement(fsp), o.moffset, TypedIgnore(o.kind, mask))
  {
    InvertedSlice(fsp, o.moffset, o.moffset + Width(o.kind));
  }

  lemma {:induction false} TypedLaid(fsp: seq<Octet>, gs: seq<Group>, m: Member, at: nat, g: Group)
    requires Given(gs, m.name) && g == gs[GroupNamed(gs, m.name)]
    requires Encode(m.kind, g.value).Some? && (g.mask.Mask? ==> Encode(m.kind, g.mask.arg).Some?)
    requires LiesAt(fsp, H_U + at, Typed(m.kind, g.value))
    requires LiesAt(Complement(fsp), M_U + at, TypedIgnore(m.kind, g.mask))
    ensures Laid(fsp, gs, m, at)
  {}

  lemma {:induction false} ValueLies(flow: Flow, gs: seq<Group>, k: nat, o: Opt)
    requires Accepted(flow, gs) && k < |gs| && OptOf(Options(flow), gs[k]) == o && InPlace(o) && Masked(o)
    ensures Encode(o.kind, gs[k].value).Some? && (gs[k].mask.Mask? ==> Encode(o.kind, gs[k].mask.arg).Some?)
    ensures LiesAt(SpecOf(flow, gs), o.offset, Typed(o.kind, gs[k].value))
  {
    FieldOf(flow, gs, k);
    HeldValue(SpecOf(flow, gs), o, gs[k].value, gs[k].mask);
  }

  lemma {:induction false} MaskLies(flow: Flow, gs: seq<Group>, k: nat, o: Opt)
    requires Accepted(flow, gs) && k < |gs| && OptOf(Options(flow), gs[k]) == o && InPlace(o) && Masked(o)
    requires gs[k].mask.Mask? ==> Encode(o.kind, gs[k].mask.arg).Some?
    ensures LiesAt(Complement(SpecOf(flow, gs)), o.moffset, TypedIgnore(o.kind, gs[k].mask))
  {
    FieldOf(flow, gs, k);
    HeldMask(SpecOf(flow, gs), o, gs[k].value, gs[k].mask);
  }

  lemma {:induction false} GivenLaid(flow: Flow, gs: seq<Group>, o: Opt, m: Member, at: nat)
    requires Accepted(flow, gs) && Declares(o, m, at) && Found(flow, gs, o) && Given(gs, m.name)
    ensures Laid(SpecOf(flow, gs), gs, m, at)
  {
    var k := GroupNamed(gs, m.name);
    ValueLies(flow, gs, k, o);
    MaskLies(flow, gs, k, o);
    TypedLaid(SpecOf(flow, gs), gs, m, at, gs[k]);
  }

  lemma {:induction false} AbsentByte(flow: Flow, gs: seq<Group>, o: Opt, b: nat)
    requires Accepted(flow, gs) && InPlace(o) && Masked(o) && Alone(flow, gs, o) && !Given(gs, o.name)
    requires (InValue(o, b) || InMask(o, b)) && (b == IP_VER ==> flow != Ip4)
    ensures SpecOf(flow, gs)[b] == 0
  {
    TablesGood(flow);
    forall k | 0 <= k < |gs| ensures Spares(Options(flow), gs[k], b) {
      assert InPlace(OptOf(Options(flow), gs[k]));
      ApartSpares(o, OptOf(Options(flow), gs[k]), b);
    }
    SpecElsewhere(flow, gs, b);
  }

  lemma {:induction false} ZeroLaid(fsp: seq<Octet>, gs: seq<Group>, o: Opt, m: Member, at: nat)
    requires |fsp| == SPEC_SIZE && Declares(o, m, at) && !Given(gs, m.name)
    requires forall b: nat :: InValue(o, b) || InMask(o, b) ==> fsp[b] == 0
    ensures Laid(fsp, gs, m, at)
  {
    var w := Width(o.kind);
    var v, i := fsp[o.offset..o.offset + w], fsp[o.moffset..o.moffset + w];
    forall k | 0 <= k < w ensures v[k] == 0 && i[k] == 0 {
      assert InValue(o, o.offset + k) && InMask(o, o.moffset + k);
    }
    assert v == seq(w, _ => 0);
    assert Complement(i) == Ones(w);
    InvertedSlice(fsp, o.moffset, o.moffset + w);
  }

  /** Typed or not, a member that its option has for itself is as its name says. */
  lemma {:induction false} FieldLaid(flow: Flow, gs: seq<Group>, o: Opt, m: Member, at: nat)
    requires Accepted(flow, gs) && Declares(o, m, at) && Found(flow, gs, o) && Alone(flow, gs, o)
    requires InValue(o, IP_VER) ==> flow != Ip4
    ensures Laid(SpecOf(flow, gs), gs, m, at)
  {
    if Given(gs, m.name) {
      GivenLaid(flow, gs, o, m, at);
    } else {
      forall b: nat | InValue(o, b) || InMask(o, b) ensures SpecOf(flow, gs)[b] == 0 {
        AbsentByte(flow, gs, o, b);
      }
      ZeroLaid(SpecOf(flow, gs), gs, o, m, at);
    }
  }

  // ----- Options in their tables

  /** The name stands for the option only. */
  predicate Unique(options: seq<Opt>, o: Opt) {
    forall i :: 0 <= i < |options| && options[i].name == o.name ==> options[i] == o
  }

  /** Every other option of the table keeps off the field. */
  predicate Unshared(options: seq<Opt>, o: Opt) {
    forall i :: 0 <= i < |options| && options[i].name != o.name ==> Apart(options[i], o)
  }

  lemma {:induction false} UniqueFound(flow: Flow, gs: seq<Group>, o: Opt)
    requires AllWellFormed(Options(flow), gs) && Unique(HeaderOptions(flow), o) && Unique(COMMON_OPTS, o)
    ensures Found(flow, gs, o)
  {
    forall k | 0 <= k < |gs| && gs[k].name.text == o.name ensures OptOf(Options(flow), gs[k]) == o {
      OptionFrom(flow, gs[k]);
    }
  }

  lemma {:induction false} UnsharedAlone(flow: Flow, gs: seq<Group>, o: Opt)
    requires AllWellFormed(Options(flow), gs) && Unshared(HeaderOptions(flow), o) && Unshared(COMMON_OPTS, o)
    ensures Alone(flow, gs, o)
  {
    forall k | 0 <= k < |gs| && gs[k].name.text != o.name ensures Apart(OptOf(Options(flow), gs[k]), o) {
      OptionFrom(flow, gs[k]);
    }
  }

  predicate Own(flow: Flow, o: Opt) {
    && Unique(HeaderOptions(flow), o) && Unique(COMMON_OPTS, o)
    && Unshared(HeaderOptions(flow), o) && Unshared(COMMON_OPTS, o)
  }

  lemma {:induction false} OwnField(flow: Flow, gs: seq<Group>, o: Opt, m: Member, at: nat)
    requires Accepted(flow, gs) && Declares(o, m, at) && (InValue(o, IP_VER) ==> flow != Ip4)
    requires Own(flow, o)
    ensures Laid(SpecOf(flow, gs), gs, m, at)
  {
    UniqueFound(flow, gs, o);
    UnsharedAlone(flow, gs, o);
    FieldLaid(flow, gs, o, m, at);
  }

  // ----- Members side by side

  lemma {:induction false} Joined(p: seq<Octet>, a: nat, x: seq<Octet>, y: seq<Octet>)
    requires LiesAt(p, a, x) && LiesAt(p, a + |x|, y)
    ensures LiesAt(p, a, x + y)
  {}

  lemma {:induction false} Joined3(p: seq<Octet>, a: nat, x: seq<Octet>, y: seq<Octet>, z: seq<Octet>)
    requires LiesAt(p, a, x) && LiesAt(p, a + |x|, y) && LiesAt(p, a + |x| + |y|, z)
    ensures LiesAt(p, a, x + y + z)
  {
    Joined(p, a, x, y);
    Joined(p, a, x + y, z);
  }

  lemma {:induction false} Joined4(p: seq<Octet>, a: nat, x: seq<Octet>, y: seq<Octet>, z: seq<Octet>, u: seq<Octet>)
    requires LiesAt(p, a, x) && LiesAt(p, a + |x|, y) && LiesAt(p, a + |x| + |y|, z)
    requires LiesAt(p, a + |x| + |y| + |z|, u)
    ensures LiesAt(p, a, x + y + z + u)
  {
    Joined3(p, a, x, y, z);
    Joined(p, a, x + y + z, u);
  }

  lemma {:induction false} Joined5(p: seq<Octet>, a: nat, x: seq<Octet>, y: seq<Octet>, z: seq<Octet>, u: seq<Octet>,
                                   v: seq<Octet>)
    requires LiesAt(p, a, x) && LiesAt(p, a + |x|, y) && LiesAt(p, a + |x| + |y|, z)
    requires LiesAt(p, a + |x| + |y| + |z|, u) && LiesAt(p, a + |x| + |y| + |z| + |u|, v)
    ensures LiesAt(p, a, x + y + z + u + v)
  {
    Joined4(p, a, x, y, z, u);
    Joined(p, a, x + y + z + u, v);
  }

  // ----- The structures of linux/ethtool.h

  const SRC_IP := Member("src-ip", IP4)
  const DST_IP := Member("dst-ip", IP4)
  const SRC_PORT := Member("src-port", BE16)
  const DST_PORT := Member("dst-port", BE16)
  const TOS := Member("tos", U8)
  const SPI := Member("spi", BE32)
  const L4DATA := Member("l4data", BE32)
  const L4PROTO := Member("l4proto", U8)
  const SRC := Member("src", MAC)
  const DST := Member("dst", MAC)
  const PROTO := Member("proto", BE16)

  // ----- Their options, in the tables

  /** The `i`th option of the table belongs to the member. */
  predicate At(options: seq<Opt>, i: nat, m: Member, at: nat) {
    i < |options| && Declares(options[i], m, at) && Unique(options, options[i])
  }

  predicate OwnAt(options: seq<Opt>, i: nat, m: Member, at: nat) {
    At(options, i, m, at) && Unshared(options, options[i])
  }

  /** No option that all flow types have is in the way of a header option. */
  lemma {:induction false} CommonAway(flow: Flow, i: nat)
    requires i < |HeaderOptions(flow)|
    ensures Unique(COMMON_OPTS, HeaderOptions(flow)[i]) && Unshared(COMMON_OPTS, HeaderOptions(flow)[i])
  {}

  lemma {:induction false} HeaderField(flow: Flow, gs: seq<Group>, i: nat, m: Member, at: nat)
    requires Accepted(flow, gs) && OwnAt(HeaderOptions(flow), i, m, at)
    requires flow == Ip4 ==> at + Width(m.kind) <= 13 || 14 <= at
    ensures Laid(SpecOf(flow, gs), gs, m, at)
  {
    CommonAway(flow, i);
    OwnField(flow, gs, HeaderOptions(flow)[i], m, at);
  }

  /** All three tables for IP begin alike. */
  predicate IpTable(options: seq<Opt>) {
    OwnAt(options, 0, SRC_IP, 0) && OwnAt(options, 1, DST_IP, 4) && OwnAt(options, 2, TOS, 12)
  }

  lemma {:induction false} TcpIpTable()
    ensures IpTable(TCP_IP4_OPTS)
  {}

  lemma {:induction false} EspIpTable()
    ensures IpTable(ESP_IP4_OPTS)
  {}

  lemma {:induction false} UsrIpTable()
    ensures IpTable(USR_IP4_OPTS)
  {}

  lemma {:induction false} PortOptions()
    ensures OwnAt(TCP_IP4_OPTS, 3, SRC_PORT, 8) && OwnAt(TCP_IP4_OPTS, 4, DST_PORT, 10)
  {}

  lemma {:induction false} SpiOption()
    ensures OwnAt(ESP_IP4_OPTS, 3, SPI, 8)
  {}

  lemma {:induction false} EtherOptions()
    ensures OwnAt(ETHER_OPTS, 1, DST, 0) && OwnAt(ETHER_OPTS, 0, SRC, 6) && OwnAt(ETHER_OPTS, 2, PROTO, 12)
  {}

  lemma {:induction false} Layer4Options()
    ensures At(USR_IP4_OPTS, 4, L4DATA, 8) && At(USR_IP4_OPTS, 5, SPI, 8)
    ensures At(USR_IP4_OPTS, 6, SRC_PORT, 8) && At(USR_IP4_OPTS, 7, DST_PORT, 10)
  {}

  lemma {:induction false} ProtocolOption()
    ensures OwnAt(USR_IP4_OPTS, 3, L4PROTO, 14)
  {}

  lemma {:induction false} IpFields(flow: Flow, gs: seq<Group>)
    requires Accepted(flow, gs) && flow != Ether
    ensures Laid(SpecOf(flow, gs), gs, SRC_IP, 0) && Laid(SpecOf(flow, gs), gs, DST_IP, 4)
    ensures Laid(SpecOf(flow, gs), gs, TOS, 12)
  {
    TcpIpTable();
    EspIpTable();
    UsrIpTable();
    HeaderField(flow, gs, 0, SRC_IP, 0);
    HeaderField(flow, gs, 1, DST_IP, 4);
    HeaderField(flow, gs, 2, TOS, 12);
  }

  // ----- The structures, member by member

  predicate TcpLike(flow: Flow) {
    flow == Tcp4 || flow == Udp4 || flow == Sctp4
  }

  lemma {:induction false} TcpFields(flow: Flow, gs: seq<Group>)
    requires Accepted(flow, gs) && TcpLike(flow)
    ensures Laid(SpecOf(flow, gs), gs, SRC_IP, 0) && Laid(SpecOf(flow, gs), gs, DST_IP, 4)
    ensures Laid(SpecOf(flow, gs), gs, SRC_PORT, 8) && Laid(SpecOf(flow, gs), gs, DST_PORT, 10)
    ensures Laid(SpecOf(flow, gs), gs, TOS, 12)
  {
    IpFields(flow, gs);
    PortOptions();
    HeaderField(flow, gs, 3, SRC_PORT, 8);
    HeaderField(flow, gs, 4, DST_PORT, 10);
  }

  lemma {:induction false} TcpValues(fsp: seq<Octet>, gs: seq<Group>)
    requires Laid(fsp, gs, SRC_IP, 0) && Laid(fsp, gs, DST_IP, 4)
    requires Laid(fsp, gs, SRC_PORT, 8) && Laid(fsp, gs, DST_PORT, 10) && Laid(fsp, gs, TOS, 12)
    ensures LiesAt(fsp, 4, ValueOf(gs, SRC_IP) + ValueOf(gs, DST_IP) +
                   ValueOf(gs, SRC_PORT) + ValueOf(gs, DST_PORT) + ValueOf(gs, TOS))
  {
    Joined5(fsp, 4, ValueOf(gs, SRC_IP), ValueOf(gs, DST_IP), ValueOf(gs, SRC_PORT), ValueOf(gs, DST_PORT),
            ValueOf(gs, TOS));
  }

  lemma {:induction false} TcpMasks(fsp: seq<Octet>, gs: seq<Group>)
    requires Laid(fsp, gs, SRC_IP, 0) && Laid(fsp, gs, DST_IP, 4)
    requires Laid(fsp, gs, SRC_PORT, 8) && Laid(fsp, gs, DST_PORT, 10) && Laid(fsp, gs, TOS, 12)
    ensures LiesAt(Complement(fsp), 76, IgnoredOf(gs, SRC_IP) + IgnoredOf(gs, DST_IP) +
                   IgnoredOf(gs, SRC_PORT) + IgnoredOf(gs, DST_PORT) + IgnoredOf(gs, TOS))
  {
    Joined5(Complement(fsp), 76, IgnoredOf(gs, SRC_IP), IgnoredOf(gs, DST_IP), IgnoredOf(gs, SRC_PORT),
            IgnoredOf(gs, DST_PORT), IgnoredOf(gs, TOS));
  }

  /** TCP, UDP and SCTP rules fill `struct ethtool_tcpip4_spec`: ip4src, ip4dst, psrc, pdst, tos. */
  lemma {:induction false} TcpLayout(flow: Flow, gs: seq<Group>)
    requires Accepted(flow, gs) && TcpLike(flow)
    ensures LiesAt(SpecOf(flow, gs), 4, ValueOf(gs, SRC_IP) + ValueOf(gs, DST_IP) +
                   ValueOf(gs, SRC_PORT) + ValueOf(gs, DST_PORT) + ValueOf(gs, TOS))
    ensures LiesAt(Complement(SpecOf(flow, gs)), 76, IgnoredOf(gs, SRC_IP) + IgnoredOf(gs, DST_IP) +
                   IgnoredOf(gs, SRC_PORT) + IgnoredOf(gs, DST_PORT) + IgnoredOf(gs, TOS))
  {
    TcpFields(flow, gs);
    TcpValues(SpecOf(flow, gs), gs);
    TcpMasks(SpecOf(flow, gs), gs);
  }

  lemma {:induction false} EspFields(flow: Flow, gs: seq<Group>)
    requires Accepted(flow, gs) && (flow == Ah4 || flow == Esp4)
    ensures Laid(SpecOf(flow, gs), gs, SRC_IP, 0) && Laid(SpecOf(flow, gs), gs, DST_IP, 4)
    ensures Laid(SpecOf(flow, gs), gs, SPI, 8) && Laid(SpecOf(flow, gs), gs, TOS, 12)
  {
    IpFields(flow, gs);
    SpiOption();
    HeaderField(flow, gs, 3, SPI, 8);
  }

  lemma {:induction false} EspStruct(fsp: seq<Octet>, gs: seq<Group>)
    requires Laid(fsp, gs, SRC_IP, 0) && Laid(fsp, gs, DST_IP, 4) && Laid(fsp, gs, SPI, 8) && Laid(fsp, gs, TOS, 12)
    ensures LiesAt(fsp, 4, ValueOf(gs, SRC_IP) + ValueOf(gs, DST_IP) + ValueOf(gs, SPI) + ValueOf(gs, TOS))
    ensures LiesAt(Complement(fsp), 76,
                   IgnoredOf(gs, SRC_IP) + IgnoredOf(gs, DST_IP) + IgnoredOf(gs, SPI) + IgnoredOf(gs, TOS))
  {
    Joined4(fsp, 4, ValueOf(gs, SRC_IP), ValueOf(gs, DST_IP), ValueOf(gs, SPI), ValueOf(gs, TOS));
    Joined4(Complement(fsp), 76, IgnoredOf(gs, SRC_IP), IgnoredOf(gs, DST_IP), IgnoredOf(gs, SPI),
            IgnoredOf(gs, TOS));
  }

  /** AH and ESP rules fill `struct ethtool_ah_espip4_spec`: ip4src, ip4dst, spi, tos. */
  lemma {:induction false} EspLayout(flow: Flow, gs: seq<Group>)
    requires Accepted(flow, gs) && (flow == Ah4 || flow == Esp4)
    ensures LiesAt(SpecOf(flow, gs), 4,
                   ValueOf(gs, SRC_IP) + ValueOf(gs, DST_IP) + ValueOf(gs, SPI) + ValueOf(gs, TOS))
    ensures LiesAt(Complement(SpecOf(flow, gs)), 76,
                   IgnoredOf(gs, SRC_IP) + IgnoredOf(gs, DST_IP) + IgnoredOf(gs, SPI) + IgnoredOf(gs, TOS))
  {
    EspFields(flow, gs);
    EspStruct(SpecOf(flow, gs), gs);
  }

  lemma {:induction false} EtherFields(gs: seq<Group>)
    requires Accepted(Ether, gs)
    ensures Laid(SpecOf(Ether, gs), gs, DST, 0) && Laid(SpecOf(Ether, gs), gs, SRC, 6)
    ensures Laid(SpecOf(Ether, gs), gs, PROTO, 12)
  {
    EtherOptions();
    HeaderField(Ether, gs, 1, DST, 0);
    HeaderField(Ether, gs, 0, SRC, 6);
    HeaderField(Ether, gs, 2, PROTO, 12);
  }

  lemma {:induction false} EtherStruct(fsp: seq<Octet>, gs: seq<Group>)
    requires Laid(fsp, gs, DST, 0) && Laid(fsp, gs, SRC, 6) && Laid(fsp, gs, PROTO, 12)
    ensures LiesAt(fsp, 4, ValueOf(gs, DST) + ValueOf(gs, SRC) + ValueOf(gs, PROTO))
    ensures LiesAt(Complement(fsp), 76, IgnoredOf(gs, DST) + IgnoredOf(gs, SRC) + IgnoredOf(gs, PROTO))
  {
    Joined3(fsp, 4, ValueOf(gs, DST), ValueOf(gs, SRC), ValueOf(gs, PROTO));
    Joined3(Complement(fsp), 76, IgnoredOf(gs, DST), IgnoredOf(gs, SRC), IgnoredOf(gs, PROTO));
  }

  /** Ethernet rules fill `struct ethhdr`: h_dest, h_source, h_proto. */
  lemma {:induction false} EtherLayout(gs: seq<Group>)
    requires Accepted(Ether, gs)
    ensures LiesAt(SpecOf(Ether, gs), 4, ValueOf(gs, DST) + ValueOf(gs, SRC) + ValueOf(gs, PROTO))
    ensures LiesAt(Complement(SpecOf(Ether, gs)), 76, IgnoredOf(gs, DST) + IgnoredOf(gs, SRC) + IgnoredOf(gs, PROTO))
  {
    EtherFields(gs);
    EtherStruct(SpecOf(Ether, gs), gs);
  }

  // ----- Raw IP: the first four bytes of layer 4 have three names

  /** The four bytes as typed, under one of their names. */
  function Layer4Value(gs: seq<Group>): (r: seq<Octet>)
    ensures |r| == 4
  {
    if Given(gs, L4DATA.name) then ValueOf(gs, L4DATA)
    else if Given(gs, SPI.name) then ValueOf(gs, SPI)
    else ValueOf(gs, SRC_PORT) + ValueOf(gs, DST_PORT)
  }

  function Layer4Ignored(gs: seq<Group>): (r: seq<Octet>)
    ensures |r| == 4
  {
    if Given(gs, L4DATA.name) then IgnoredOf(gs, L4DATA)
    else if Given(gs, SPI.name) then IgnoredOf(gs, SPI)
    else IgnoredOf(gs, SRC_PORT) + IgnoredOf(gs, DST_PORT)
  }

  lemma {:induction false} UsrFound(gs: seq<Group>, i: nat, m: Member, at: nat)
    requires AllWellFormed(Options(Ip4), gs) && At(USR_IP4_OPTS, i, m, at)
    ensures Found(Ip4, gs, USR_IP4_OPTS[i])
  {
    CommonAway(Ip4, i);
    UniqueFound(Ip4, gs, USR_IP4_OPTS[i]);
  }

  lemma {:induction false} Layer4Given(gs: seq<Group>, i: nat, m: Member)
    requires Accepted(Ip4, gs) && At(USR_IP4_OPTS, i, m, 8) && Given(gs, m.name)
    ensures Laid(SpecOf(Ip4, gs), gs, m, 8)
  {
    UsrFound(gs, i, m, 8);
    GivenLaid(Ip4, gs, USR_IP4_OPTS[i], m, 8);
  }

  /** Only the two whole names share bytes with a port. */
  lemma {:induction false} PortsApart(i: nat, j: nat)
    requires i < |USR_IP4_OPTS| && (j == 6 || j == 7)
    requires USR_IP4_OPTS[i].name != L4DATA.name && USR_IP4_OPTS[i].name != SPI.name
    requires USR_IP4_OPTS[i].name != USR_IP4_OPTS[j].name
    ensures Apart(USR_IP4_OPTS[i], USR_IP4_OPTS[j])
  {}

  lemma {:induction false} NotGiven(gs: seq<Group>, name: string, k: nat)
    requires !Given(gs, name) && k < |gs|
    ensures gs[k].name.text != name
  {}

  lemma {:induction false} PortAlone(gs: seq<Group>, j: nat)
    requires AllWellFormed(Options(Ip4), gs) && (j == 6 || j == 7)
    requires !Given(gs, L4DATA.name) && !Given(gs, SPI.name)
    ensures Alone(Ip4, gs, USR_IP4_OPTS[j])
  {
    CommonAway(Ip4, j);
    var o := USR_IP4_OPTS[j];
    forall k | 0 <= k < |gs| && gs[k].name.text != o.name ensures Apart(OptOf(Options(Ip4), gs[k]), o) {
      OptionFrom(Ip4, gs[k]);
      NotGiven(gs, L4DATA.name, k);
      NotGiven(gs, SPI.name, k);
      var p := OptOf(Options(Ip4), gs[k]);
      if p in USR_IP4_OPTS {
        var i :| 0 <= i < |USR_IP4_OPTS| && USR_IP4_OPTS[i] == p;
        PortsApart(i, j);
      }
    }
  }

  lemma {:induction false} PortLaid(gs: seq<Group>, j: nat, m: Member, at: nat)
    requires Accepted(Ip4, gs) && (j == 6 || j == 7) && At(USR_IP4_OPTS, j, m, at) && at + Width(m.kind) <= 13
    requires !Given(gs, L4DATA.name) && !Given(gs, SPI.name)
    ensures Laid(SpecOf(Ip4, gs), gs, m, at)
  {
    UsrFound(gs, j, m, at);
    PortAlone(gs, j);
    FieldLaid(Ip4, gs, USR_IP4_OPTS[j], m, at);
  }

  predicate Layer4Placed(fsp: seq<Octet>, gs: seq<Group>) {
    LiesAt(fsp, 12, Layer4Value(gs)) && LiesAt(Complement(fsp), 84, Layer4Ignored(gs))
  }

  lemma {:induction false} WholePlaced(fsp: seq<Octet>, gs: seq<Group>)
    requires Given(gs, L4DATA.name) || Given(gs, SPI.name)
    requires Given(gs, L4DATA.name) ==> Laid(fsp, gs, L4DATA, 8)
    requires Given(gs, SPI.name) ==> Laid(fsp, gs, SPI, 8)
    ensures Layer4Placed(fsp, gs)
  {}

  lemma {:induction false} PortsPlaced(fsp: seq<Octet>, gs: seq<Group>)
    requires !Given(gs, L4DATA.name) && !Given(gs, SPI.name)
    requires Laid(fsp, gs, SRC_PORT, 8) && Laid(fsp, gs, DST_PORT, 10)
    ensures Layer4Placed(fsp, gs)
  {
    Joined(fsp, 12, ValueOf(gs, SRC_PORT), ValueOf(gs, DST_PORT));
    Joined(Complement(fsp), 84, IgnoredOf(gs, SRC_PORT), IgnoredOf(gs, DST_PORT));
  }

  lemma {:induction false} Layer4Laid(gs: seq<Group>)
    requires Accepted(Ip4, gs)
    ensures Layer4Placed(SpecOf(Ip4, gs), gs)
  {
    Layer4Options();
    if Given(gs, L4DATA.name) || Given(gs, SPI.name) {
      if Given(gs, L4DATA.name) {
        Layer4Given(gs, 4, L4DATA);
      }
      if Given(gs, SPI.name) {
        Layer4Given(gs, 5, SPI);
      }
      WholePlaced(SpecOf(Ip4, gs), gs);
    } else {
      PortLaid(gs, 6, SRC_PORT, 8);
      PortLaid(gs, 7, DST_PORT, 10);
      PortsPlaced(SpecOf(Ip4, gs), gs);
    }
  }

  lemma {:induction false} ByteOf(p: seq<Octet>, a: nat)
    requires a < |p|
    ensures LiesAt(p, a, [p[a]])
  {}

  lemma {:induction false} VersionSet(st: State)
    requires |st.p| == SPEC_SIZE
    ensures FinishSpec(Ip4, st)[17] == 1
  {}

  lemma {:induction false} MaskSpared(options: seq<Opt>, g: Group)
    requires GoodTable(options) && SparesVersion(options) && WellFormed(options, g)
    ensures Spares(options, g, 89)
  {
    assert InPlace(OptOf(options, g));
  }

  lemma {:induction false} VersionMask(gs: seq<Group>)
    requires Accepted(Ip4, gs)
    ensures SpecOf(Ip4, gs)[89] == 0
  {
    TablesGood(Ip4);
    forall k | 0 <= k < |gs| ensures Spares(Options(Ip4), gs[k], 89) {
      MaskSpared(Options(Ip4), gs[k]);
    }
    SpecElsewhere(Ip4, gs, 89);
  }

  lemma {:induction false} VersionBytes(gs: seq<Group>)
    requires Accepted(Ip4, gs)
    ensures LiesAt(SpecOf(Ip4, gs), 17, [1]) && LiesAt(Complement(SpecOf(Ip4, gs)), 89, [0xff])
  {
    TablesGood(Ip4);
    VersionSet(ApplyAll(Options(Ip4), gs, State(InitialSpec(Ip4), {})).value);
    VersionMask(gs);
    ByteOf(SpecOf(Ip4, gs), 17);
    ByteOf(Complement(SpecOf(Ip4, gs)), 89);
  }

  predicate IpMembers(fsp: seq<Octet>, gs: seq<Group>) {
    && Laid(fsp, gs, SRC_IP, 0) && Laid(fsp, gs, DST_IP, 4) && Layer4Placed(fsp, gs) && Laid(fsp, gs, TOS, 12)
    && LiesAt(fsp, 17, [1]) && LiesAt(Complement(fsp), 89, [0xff]) && Laid(fsp, gs, L4PROTO, 14)
  }

  lemma {:induction false} RawFields(gs: seq<Group>)
    requires Accepted(Ip4, gs)
    ensures IpMembers(SpecOf(Ip4, gs), gs)
  {
    IpFields(Ip4, gs);
    Layer4Laid(gs);
    ProtocolOption();
    HeaderField(Ip4, gs, 3, L4PROTO, 14);
    VersionBytes(gs);
  }

  lemma {:induction false} IpJoined(p: seq<Octet>, a: nat, src: seq<Octet>, dst: seq<Octet>, l4: seq<Octet>,
                                    tos: seq<Octet>, version: seq<Octet>, proto: seq<Octet>)
    requires |src| == |dst| == |l4| == 4 && |tos| == |version| == |proto| == 1
    requires LiesAt(p, a, src) && LiesAt(p, a + 4, dst) && LiesAt(p, a + 8, l4)
    requires LiesAt(p, a + 12, tos) && LiesAt(p, a + 13, version) && LiesAt(p, a + 14, proto)
    ensures LiesAt(p, a, src + dst + l4 + tos + version + proto)
  {
    Joined4(p, a, src, dst, l4, tos);
    Joined3(p, a, src + dst + l4 + tos, version, proto);
  }

  lemma {:induction false} IpValues(p: seq<Octet>, gs: seq<Group>)
    requires LiesAt(p, 4, ValueOf(gs, SRC_IP)) && LiesAt(p, 8, ValueOf(gs, DST_IP)) && LiesAt(p, 12, Layer4Value(gs))
    requires LiesAt(p, 16, ValueOf(gs, TOS)) && LiesAt(p, 17, [1]) && LiesAt(p, 18, ValueOf(gs, L4PROTO))
    ensures LiesAt(p, 4, ValueOf(gs, SRC_IP) + ValueOf(gs, DST_IP) + Layer4Value(gs) +
                   ValueOf(gs, TOS) + [1] + ValueOf(gs, L4PROTO))
  {
    IpJoined(p, 4, ValueOf(gs, SRC_IP), ValueOf(gs, DST_IP), Layer4Value(gs), ValueOf(gs, TOS), [1],
             ValueOf(gs, L4PROTO));
  }

  lemma {:induction false} IpMasks(p: seq<Octet>, gs: seq<Group>)
    requires LiesAt(p, 76, IgnoredOf(gs, SRC_IP)) && LiesAt(p, 80, IgnoredOf(gs, DST_IP))
    requires LiesAt(p, 84, Layer4Ignored(gs)) && LiesAt(p, 88, IgnoredOf(gs, TOS))
    requires LiesAt(p, 89, [0xff]) && LiesAt(p, 90, IgnoredOf(gs, L4PROTO))
    ensures LiesAt(p, 76, IgnoredOf(gs, SRC_IP) + IgnoredOf(gs, DST_IP) +
                   Layer4Ignored(gs) + IgnoredOf(gs, TOS) + [0xff] + IgnoredOf(gs, L4PROTO))
  {
    IpJoined(p, 76, IgnoredOf(gs, SRC_IP), IgnoredOf(gs, DST_IP), Layer4Ignored(gs), IgnoredOf(gs, TOS), [0xff],
             IgnoredOf(gs, L4PROTO));
  }

  /** Raw IP rules fill `struct ethtool_usrip4_spec`: ip4src, ip4dst, l4_4_bytes, tos, ip_ver, proto;
      the version is that of IPv4, and is not compared. */
  lemma {:induction false} IpLayout(gs: seq<Group>)
    requires Accepted(Ip4, gs)
    ensures LiesAt(SpecOf(Ip4, gs), 4, ValueOf(gs, SRC_IP) + ValueOf(gs, DST_IP) + Layer4Value(gs) +
                   ValueOf(gs, TOS) + [1] + ValueOf(gs, L4PROTO))
    ensures LiesAt(Complement(SpecOf(Ip4, gs)), 76, IgnoredOf(gs, SRC_IP) + IgnoredOf(gs, DST_IP) +
                   Layer4Ignored(gs) + IgnoredOf(gs, TOS) + [0xff] + IgnoredOf(gs, L4PROTO))
  {
    RawFields(gs);
    IpValues(SpecOf(Ip4, gs), gs);
    IpMasks(Complement(SpecOf(Ip4, gs)), gs);
  }

  // ----- The kernel header wants the protocol's mask to be zero

  /** The typed mask ignores the whole byte. */
  predicate IgnoresByte(mask: MaskArg) {
    mask.Mask? && mask.arg.number.Some? && IntOf(mask.arg.number.value) == 0xff
  }

  lemma {:induction false} WholeByte(mask: MaskArg)
    requires mask.Mask? ==> Encode(U8, mask.arg).Some?
    ensures TypedIgnore(U8, mask)[0] == 0xff <==> IgnoresByte(mask)
  {
    if mask.Mask? {
      var v := Typed(U8, mask.arg);
      TypedValue(U8, mask.arg);
      IntOfInjective(v, Ones(1));
      IntOfOnes(1);
      Powers();
      assert v == [v[0]];
    }
  }

  lemma {:induction false} GivenMask(gs: seq<Group>)
    requires Accepted(Ip4, gs) && Given(gs, "l4proto")
    ensures IgnoredOf(gs, L4PROTO)[0] == 0xff <==> IgnoresByte(gs[GroupNamed(gs, "l4proto")].mask)
  {
    var k := GroupNamed(gs, "l4proto");
    ProtocolOption();
    UsrFound(gs, 3, L4PROTO, 14);
    SpecCarries(Ip4, gs, k);
    WholeByte(gs[k].mask);
  }

  lemma {:induction false} LiesInverted(p: seq<Octet>, a: nat, bytes: seq<Octet>)
    requires LiesAt(Complement(p), a, bytes) && |bytes| == 1
    ensures a < |p| && (p[a] == 0 <==> bytes[0] == 0xff)
  {
    assert bytes[0] == Complement(p)[a] == !p[a];
  }

  /** Version and protocol of a raw IP rule: the version is fixed and not compared, as the header
      demands; the mask of the protocol is zero, as it demands too, if and only if no protocol is given
      or its typed mask ignores all of it. */
  lemma {:induction false} ProtocolMask(gs: seq<Group>)
    requires Accepted(Ip4, gs)
    ensures SpecOf(Ip4, gs)[17] == 1 && SpecOf(Ip4, gs)[89] == 0
    ensures SpecOf(Ip4, gs)[90] == 0 <==>
      (Given(gs, "l4proto") ==> IgnoresByte(gs[GroupNamed(gs, "l4proto")].mask))
  {
    TablesGood(Ip4);
    VersionSet(ApplyAll(Options(Ip4), gs, State(InitialSpec(Ip4), {})).value);
    VersionMask(gs);
    ProtocolOption();
    HeaderField(Ip4, gs, 3, L4PROTO, 14);
    LiesInverted(SpecOf(Ip4, gs), 90, IgnoredOf(gs, L4PROTO));
    if Given(gs, "l4proto") {
      GivenMask(gs);
    }
  }

  /** `ip4 l4proto N` is a rule that breaks the header's demand, whatever number of one byte N is. */
  lemma {:induction false} ProtocolIsCompared(name: Arg, value: Arg)
    requires name.text == "l4proto" && value.number.Some? && IntOf(value.number.value) < 0x100
    ensures var gs := [Group(name, value, NoMask)];
      Accepted(Ip4, gs) && SpecOf(Ip4, gs)[90] != 0
  {
    var gs := [Group(name, value, NoMask)];
    assert Options(Ip4)[3] == USR_IP4_OPTS[3];
    NotPast(Options(Ip4), "l4proto", 3);
    ProtocolOption();
    UsrFound(gs, 3, L4PROTO, 14);
    TablesGood(Ip4);
    EncodeInRange(U8, value);
    AllAccepted(Options(Ip4), gs, State(InitialSpec(Ip4), {}));
    ProtocolMask(gs);
    assert Given(gs, "l4proto");
  }

  // ----- The extension

  const ETYPE := Member("vlan-etype", BE16)
  const TAG := Member("vlan", BE16)
  const DATA := Member("user-def", BE64)

  lemma {:induction false} ExtAlone()
    ensures forall i :: 2 <= i < 5 ==> Unique(COMMON_OPTS, COMMON_OPTS[i]) && Unshared(COMMON_OPTS, COMMON_OPTS[i])
  {}

  lemma {:induction false} HeaderAway(flow: Flow, i: nat)
    requires 2 <= i < 5
    ensures Unique(HeaderOptions(flow), COMMON_OPTS[i]) && Unshared(HeaderOptions(flow), COMMON_OPTS[i])
  {}

  lemma {:induction false} ExtField(flow: Flow, gs: seq<Group>, i: nat, m: Member, at: nat)
    requires Accepted(flow, gs) && 2 <= i < 5 && Declares(COMMON_OPTS[i], m, at) && 60 <= at
    ensures Laid(SpecOf(flow, gs), gs, m, at)
  {
    ExtAlone();
    HeaderAway(flow, i);
    OwnField(flow, gs, COMMON_OPTS[i], m, at);
  }

  lemma {:induction false} ExtDeclared()
    ensures Declares(COMMON_OPTS[2], ETYPE, 60) && Declares(COMMON_OPTS[3], TAG, 62)
    ensures Declares(COMMON_OPTS[4], DATA, 64)
  {}

  lemma {:induction false} ExtFields(flow: Flow, gs: seq<Group>)
    requires Accepted(flow, gs)
    ensures Laid(SpecOf(flow, gs), gs, ETYPE, 60) && Laid(SpecOf(flow, gs), gs, TAG, 62)
    ensures Laid(SpecOf(flow, gs), gs, DATA, 64)
  {
    ExtDeclared();
    ExtField(flow, gs, 2, ETYPE, 60);
    ExtField(flow, gs, 3, TAG, 62);
    ExtField(flow, gs, 4, DATA, 64);
  }

  lemma {:induction false} ExtStruct(fsp: seq<Octet>, gs: seq<Group>)
    requires Laid(fsp, gs, ETYPE, 60) && Laid(fsp, gs, TAG, 62) && Laid(fsp, gs, DATA, 64)
    ensures LiesAt(fsp, 64, ValueOf(gs, ETYPE) + ValueOf(gs, TAG) + ValueOf(gs, DATA))
    ensures LiesAt(Complement(fsp), 136, IgnoredOf(gs, ETYPE) + IgnoredOf(gs, TAG) + IgnoredOf(gs, DATA))
  {
    Joined3(fsp, 64, ValueOf(gs, ETYPE), ValueOf(gs, TAG), ValueOf(gs, DATA));
    Joined3(Complement(fsp), 136, IgnoredOf(gs, ETYPE), IgnoredOf(gs, TAG), IgnoredOf(gs, DATA));
  }

  /** Every rule has `struct ethtool_flow_ext`: vlan_etype, vlan_tci, data. */
  lemma {:induction false} ExtLayout(flow: Flow, gs: seq<Group>)
    requires Accepted(flow, gs)
    ensures LiesAt(SpecOf(flow, gs), 64, ValueOf(gs, ETYPE) + ValueOf(gs, TAG) + ValueOf(gs, DATA))
    ensures LiesAt(Complement(SpecOf(flow, gs)), 136, IgnoredOf(gs, ETYPE) + IgnoredOf(gs, TAG) + IgnoredOf(gs, DATA))
  {
    ExtFields(flow, gs);
    ExtStruct(SpecOf(flow, gs), gs);
  }

  // ----- The flow type

  /** The kernel's number of every flow type that can be named. */
  const FLOW_NUMBERS: map<string, Octet> :=
    map["tcp4" := 0x01, "udp4" := 0x02, "sctp4" := 0x03, "ah4" := 0x09, "esp4" := 0x0a, "ip4" := 0x0d, "ether" := 0x12]

  lemma {:induction false} FlowNumbers(name: string)
    ensures FlowNamed(name).Some? <==> name in FLOW_NUMBERS
    ensures FlowNamed(name).Some? ==> FlowCode(FlowNamed(name).value) == FLOW_NUMBERS[name]
  {}

  /** Some option of the extension is given. */
  predicate ExtGiven(gs: seq<Group>) {
    Given(gs, "vlan-etype") || Given(gs, "vlan") || Given(gs, "user-def")
  }

  predicate ExtName(name: string) {
    name == "vlan-etype" || name == "vlan" || name == "user-def"
  }

  predicate FlagsSayExt(o: Opt) {
    !(o.flag !! EXT_FLAGS) <==> ExtName(o.name)
  }

  lemma {:induction false} HeaderFlagsSayExt(flow: Flow, o: Opt)
    requires o in HeaderOptions(flow)
    ensures FlagsSayExt(o)
  {}

  lemma {:induction false} CommonFlagsSayExt(o: Opt)
    requires o in COMMON_OPTS
    ensures FlagsSayExt(o)
  {}

  lemma {:induction false} GroupSaysExt(flow: Flow, g: Group)
    requires WellFormed(Options(flow), g)
    ensures !(OptOf(Options(flow), g).flag !! EXT_FLAGS) <==> ExtName(g.name.text)
  {
    OptionFrom(flow, g);
    var o := OptOf(Options(flow), g);
    assert o.name == g.name.text;
    if o in COMMON_OPTS {
      CommonFlagsSayExt(o);
    } else {
      HeaderFlagsSayExt(flow, o);
    }
  }

  lemma {:induction false} ExtGivenIff(gs: seq<Group>)
    ensures ExtGiven(gs) <==> exists k :: 0 <= k < |gs| && ExtName(gs[k].name.text)
  {
    if k :| 0 <= k < |gs| && ExtName(gs[k].name.text) {
      assert Given(gs, gs[k].name.text);
    }
    if ExtGiven(gs) {
      var name := if Given(gs, "vlan-etype") then "vlan-etype" else if Given(gs, "vlan") then "vlan" else "user-def";
      assert ExtName(gs[GroupNamed(gs, name)].name.text);
    }
  }

  /** The flow type is marked as extended exactly when such an option is given, by its name. */
  lemma {:induction false} ExtendedByName(flow: Flow, gs: seq<Group>)
    requires Accepted(flow, gs)
    ensures Extended(SpecOf(flow, gs)) <==> ExtGiven(gs)
  {
    ExtendedIff(flow, gs);
    ExtGivenIff(gs);
    forall k | 0 <= k < |gs|
      ensures !(OptOf(Options(flow), gs[k]).flag !! EXT_FLAGS) <==> ExtName(gs[k].name.text)
    {
      GroupSaysExt(flow, gs[k]);
    }
  }

  lemma {:induction false} SparesType(options: seq<Opt>, g: Group, b: nat)
    requires GoodTable(options) && WellFormed(options, g) && b < 4
    ensures Spares(options, g, b)
  {
    assert InPlace(OptOf(options, g));
  }

  /** The flow type, with its low byte first, is `code`, unmarked. */
  predicate PlainType(p: seq<Octet>, code: Octet) {
    4 <= |p| && p[0] == code && p[1] == 0 && p[2] == 0 && p[3] == 0
  }

  lemma {:induction false} InitialType(flow: Flow)
    ensures PlainType(InitialSpec(flow), FlowCode(flow))
  {}

  lemma {:induction false} TypeKept(flow: Flow, gs: seq<Group>, b: nat)
    requires Accepted(flow, gs) && b < 4
    ensures GoodTable(Options(flow))
    ensures ApplyAll(Options(flow), gs, State(InitialSpec(flow), {})).value.p[b] == InitialSpec(flow)[b]
  {
    TablesGood(flow);
    forall k | 0 <= k < |gs| ensures Spares(Options(flow), gs[k], b) {
      SparesType(Options(flow), gs[k], b);
    }
    KeepsByte(Options(flow), gs, State(InitialSpec(flow), {}), b);
  }

  lemma {:induction false} MarkedBytes(p: seq<Octet>)
    requires |p| == SPEC_SIZE
    ensures var q := Splice(p, FLOW_TYPE, Store(MarkExtended(Load(p, FLOW_TYPE, 4))));
      q[0] == p[0] && q[1] == p[1] && q[2] == p[2] && q[3] == p[3] | 0x80
  {
    var v := Load(p, FLOW_TYPE, 4);
    assert v[0] == p[3] && v[1] == p[2] && v[2] == p[1] && v[3] == p[0];
    var w := MarkExtended(v);
    assert Store(w) == [w[3], w[2], w[1], w[0]];
  }

  lemma {:induction false} AppliedType(flow: Flow, gs: seq<Group>)
    requires Accepted(flow, gs)
    ensures GoodTable(Options(flow))
    ensures PlainType(ApplyAll(Options(flow), gs, State(InitialSpec(flow), {})).value.p, FlowCode(flow))
  {
    InitialType(flow);
    TypeKept(flow, gs, 0);
    TypeKept(flow, gs, 1);
    TypeKept(flow, gs, 2);
    TypeKept(flow, gs, 3);
  }

  lemma {:induction false} MarkedType(p: seq<Octet>, code: Octet)
    requires |p| == SPEC_SIZE && PlainType(p, code)
    ensures Splice(p, FLOW_TYPE, Store(MarkExtended(Load(p, FLOW_TYPE, 4))))[..4] == [code, 0, 0, 0x80]
  {
    MarkedBytes(p);
  }

  lemma {:induction false} UnmarkedType(p: seq<Octet>, code: Octet)
    requires PlainType(p, code)
    ensures p[..4] == [code, 0, 0, 0]
  {}

  /** Finishing at most sets the top bit of the flow type. */
  lemma {:induction false} FinishedBytes(flow: Flow, st: State, code: Octet)
    requires |st.p| == SPEC_SIZE && PlainType(st.p, code)
    ensures FinishSpec(flow, st)[..4] == [code, 0, 0, if Extended(FinishSpec(flow, st)) then 0x80 else 0]
  {
    TopByte(flow, st);
    var p := if flow == Ip4 then st.p[IP_VER := 1] else st.p;
    MarkedType(p, code);
    UnmarkedType(p, code);
  }

  lemma {:induction false} TypeBytes(flow: Flow, gs: seq<Group>)
    requires Accepted(flow, gs)
    ensures SpecOf(flow, gs)[..4] == [FlowCode(flow), 0, 0, if Extended(SpecOf(flow, gs)) then 0x80 else 0]
  {
    AppliedType(flow, gs);
    FinishedBytes(flow, ApplyAll(Options(flow), gs, State(InitialSpec(flow), {})).value, FlowCode(flow));
  }

  /** The flow type of an accepted command line is the kernel's number of the name, in host order, with
      the top bit for an extension. */
  lemma {:induction false} FlowTypeIs(flowArg: Arg, gs: seq<Group>)
    requires FlowNamed(flowArg.text).Some? && AllWellFormed(Options(FlowNamed(flowArg.text).value), gs)
    requires RuleOf([flowArg] + Flatten(gs)).Some?
    ensures flowArg.text in FLOW_NUMBERS
    ensures RuleOf([flowArg] + Flatten(gs)).value[..4] ==
      [FLOW_NUMBERS[flowArg.text], 0, 0, if ExtGiven(gs) then 0x80 else 0]
  {
    var flow := FlowNamed(flowArg.text).value;
    SpecOfIsRule(flowArg, gs);
    FlowNumbers(flowArg.text);
    TypeBytes(flow, gs);
    ExtendedByName(flow, gs);
  }

  /** The filter made from it has the plain number, extended or not. */
  lemma {:induction false} FilterFlowType(flowArg: Arg, gs: seq<Group>)
    requires FlowNamed(flowArg.text).Some? && AllWellFormed(Options(FlowNamed(flowArg.text).value), gs)
    requires RuleOf([flowArg] + Flatten(gs)).Some?
    ensures flowArg.text in FLOW_NUMBERS
    ensures ToFilter(RuleOf([flowArg] + Flatten(gs)).value).flowType == [0, 0, 0, FLOW_NUMBERS[flowArg.text]]
  {
    FlowTypeIs(flowArg, gs);
    var fsp := RuleOf([flowArg] + Flatten(gs)).value;
    FlowTypeFields(fsp);
    TypeByte(fsp, FLOW_NUMBERS[flowArg.text], if ExtGiven(gs) then 0x80 else 0);
  }

  lemma {:induction false} TypeByte(fsp: seq<Octet>, code: Octet, top: Octet)
    requires |fsp| == SPEC_SIZE && fsp[..4] == [code, 0, 0, top] && (top == 0x80 || top == 0)
    ensures [fsp[3] & 0x7f, fsp[2], fsp[1], fsp[0]] == [0, 0, 0, code]
  {
    assert fsp[..4][0] == fsp[0] && fsp[..4][1] == fsp[1] && fsp[..4][2] == fsp[2] && fsp[..4][3] == fsp[3];
  }
}
