/** `rxclass_print_rule`: a flow specification is printed back.  A line is the value and the mask
handed to the formatter; a set bit in a printed mask is a bit that is ignored, as on the command
line.
*/
module RulePrinter {
  import opened FlowBytes
  import opened FlowRules
  import opened RuleGroups
  import opened FlowParser
  import opened Ntuple
  import opened RuleMeaning
  import opened RuleLayout
  import RuleConversion
  import opened Wrappers

  /** A field at position `at` of h_u followed by h_ext. */
  datatype Place = Place(kind: OptType, at: nat)

  datatype Line = Line(place: Place, value: Num, mask: Num)

  datatype Printout = Printout(location: Num, header: seq<Line>, ext: seq<Line>, cookie: Num)

  /** The header fields that are printed for each flow type, in order. */
  function HeaderPlaces(flow: Flow): (r: seq<Place>)
    ensures AllInHeader(r)
  {
    match flow
    case Ah4 => [Place(IP4, 0), Place(IP4, 4), Place(U8, 12), Place(BE32, 8)]
    case Esp4 => [Place(IP4, 0), Place(IP4, 4), Place(U8, 12), Place(BE32, 8)]
    case Ip4 => [Place(IP4, 0), Place(IP4, 4), Place(U8, 12), Place(U8, 14), Place(BE32, 8)]
    case Ether => [Place(MAC, 6), Place(MAC, 0), Place(BE16, 12)]
    case _ => [Place(IP4, 0), Place(IP4, 4), Place(U8, 12), Place(BE16, 8), Place(BE16, 10)]
  }

  predicate InHeader(place: Place) {
    place.at + Width(place.kind) <= H_EXT - H_U
  }

  predicate AllInHeader(places: seq<Place>) {
    forall i :: 0 <= i < |places| ==> InHeader(places[i])
  }

  /** The number printed for a field that lies at `o`: addresses and single bytes as they are,
      network-order numbers swapped. */
  function Shown(p: seq<Octet>, o: nat, t: OptType): (r: Num)
    requires o + Width(t) <= |p|
    ensures |r| == Width(t)
  {
    if t == BE16 then Swap16(Load(p, o, 2))
    else if t == BE32 then Swap32(Load(p, o, 4))
    else p[o..o + Width(t)]
  }

  /** `invert_flow_mask` */
  function Inverted(fsp: seq<Octet>): (r: seq<Octet>)
    requires |fsp| == SPEC_SIZE
    ensures |r| == SPEC_SIZE
  {
    Splice(fsp, M_U, Complement(fsp[M_U..M_EXT]))
  }

  function HeaderLine(p: seq<Octet>, place: Place): Line
    requires |p| == SPEC_SIZE && InHeader(place)
  {
    Line(place, Shown(p, H_U + place.at, place.kind), Shown(p, M_U + place.at, place.kind))
  }

  function HeaderLines(p: seq<Octet>, places: seq<Place>): (r: seq<Line>)
    requires |p| == SPEC_SIZE && AllInHeader(places)
    ensures |r| == |places| && forall i :: 0 <= i < |places| ==> r[i] == HeaderLine(p, places[i])
  {
    if places == [] then [] else [HeaderLine(p, places[0])] + HeaderLines(p, places[1..])
  }

  /** `rxclass_print_nfc_spec_ext`: the first half of the user data is read, then overwritten by the
      second. */
  function ExtLines(fsp: seq<Octet>): seq<Line>
    requires |fsp| == SPEC_SIZE
  {
    if !Extended(fsp) then []
    else [
      Line(Place(BE16, 60), Swap16(Load(fsp, H_EXT, 2)), Swap16(Complement(Load(fsp, M_EXT, 2)))),
      Line(Place(BE16, 62), Swap16(Load(fsp, H_EXT + 2, 2)), Swap16(Complement(Load(fsp, M_EXT + 2, 2)))),
      Line(Place(BE64, 64), [0, 0, 0, 0] + Swap32(Load(fsp, H_EXT + 8, 4)),
           Swap32(Complement(Load(fsp, M_EXT + 4, 4))) + Swap32(Complement(Load(fsp, M_EXT + 8, 4))))
    ]
  }

  /** The flow type, if it is one that is printed. */
  function FlowIn(fsp: seq<Octet>): Option<Flow>
    requires |fsp| == SPEC_SIZE
  {
    var t := ClearExtended(Load(fsp, FLOW_TYPE, 4));
    if t == [0, 0, 0, FlowCode(Tcp4)] then Some(Tcp4)
    else if t == [0, 0, 0, FlowCode(Udp4)] then Some(Udp4)
    else if t == [0, 0, 0, FlowCode(Sctp4)] then Some(Sctp4)
    else if t == [0, 0, 0, FlowCode(Ah4)] then Some(Ah4)
    else if t == [0, 0, 0, FlowCode(Esp4)] then Some(Esp4)
    else if t == [0, 0, 0, FlowCode(Ether)] then Some(Ether)
    else if t == [0, 0, 0, FlowCode(Ip4)] && fsp[IP_VER] == 1 then Some(Ip4)
    else None
  }

  function Output(flow: Flow, fsp: seq<Octet>): Printout
    requires |fsp| == SPEC_SIZE
  {
    Printout(Load(fsp, LOCATION, 4),
             HeaderLines(Inverted(fsp), HeaderPlaces(flow)),
             ExtLines(fsp),
             Load(fsp, RING_COOKIE, 8))
  }

  // ----- The printer itself

  method InvertFlowMask(fsp: array<Octet>)
    requires fsp.Length == SPEC_SIZE
    modifies fsp
    ensures fsp[..] == Inverted(old(fsp[..]))
  {
    for i := 0 to M_EXT - M_U
      invariant forall b :: 0 <= b < SPEC_SIZE ==>
        fsp[b] == if M_U <= b < M_U + i then !old(fsp[b]) else old(fsp[b])
    {
      FlipByte(fsp[M_U + i]);
      fsp[M_U + i] := fsp[M_U + i] ^ 0xff;
    }
  }

  method PrintPlaces(fsp: array<Octet>, places: seq<Place>) returns (lines: seq<Line>)
    requires fsp.Length == SPEC_SIZE && AllInHeader(places)
    ensures lines == HeaderLines(fsp[..], places)
  {
    lines := [];
    for i := 0 to |places|
      invariant |lines| == i && forall j :: 0 <= j < i ==> lines[j] == HeaderLine(fsp[..], places[j])
    {
      lines := lines + [HeaderLine(fsp[..], places[i])];
    }
  }

  /** `rxclass_print_nfc_rule` */
  method PrintNfcRule(flow: Flow, fsp: array<Octet>) returns (r: Printout)
    requires fsp.Length == SPEC_SIZE
    modifies fsp
    ensures r == Output(flow, old(fsp[..]))
  {
    var location := Load(fsp[..], LOCATION, 4);
    InvertFlowMask(fsp);
    var lines := PrintPlaces(fsp, HeaderPlaces(flow));
    OnlyMasksInverted(old(fsp[..]));
    return Printout(location, lines, ExtLines(fsp[..]), Load(fsp[..], RING_COOKIE, 8));
  }

  /** `rxclass_print_rule`; nothing is printed for other flow types. */
  method PrintRule(fsp: array<Octet>) returns (r: Option<Printout>)
    requires fsp.Length == SPEC_SIZE
    modifies fsp
    ensures var flow := FlowIn(old(fsp[..]));
      r == if flow.None? then None else Some(Output(flow.value, old(fsp[..])))
  {
    var flow := FlowIn(fsp[..]);
    if flow.None? {
      return None;
    }
    var out := PrintNfcRule(flow.value, fsp);
    return Some(out);
  }

  lemma {:induction false} InvertedKeeps(fsp: seq<Octet>, o: nat, n: nat)
    requires |fsp| == SPEC_SIZE && (o + n <= M_U || M_EXT <= o) && o + n <= SPEC_SIZE
    ensures Load(Inverted(fsp), o, n) == Load(fsp, o, n)
  {}

  lemma {:induction false} OnlyMasksInverted(fsp: seq<Octet>)
    requires |fsp| == SPEC_SIZE
    ensures ExtLines(Inverted(fsp)) == ExtLines(fsp)
    ensures Load(Inverted(fsp), RING_COOKIE, 8) == Load(fsp, RING_COOKIE, 8)
  {
    InvertedKeeps(fsp, FLOW_TYPE, 4);
    InvertedKeeps(fsp, H_EXT, 2);
    InvertedKeeps(fsp, H_EXT + 2, 2);
    InvertedKeeps(fsp, H_EXT + 8, 4);
    InvertedKeeps(fsp, M_EXT, 2);
    InvertedKeeps(fsp, M_EXT + 2, 2);
    InvertedKeeps(fsp, M_EXT + 4, 4);
    InvertedKeeps(fsp, M_EXT + 8, 4);
    InvertedKeeps(fsp, RING_COOKIE, 8);
  }

  // ----- The lines in terms of the specification's bytes

  lemma {:induction false} ShownIsSlice(p: seq<Octet>, o: nat, t: OptType)
    requires o + Width(t) <= |p|
    ensures Shown(p, o, t) == p[o..o + Width(t)]
  {}

  /** The line of a field shows its bytes, and its mask bytes inverted. */
  function FieldLine(fsp: seq<Octet>, place: Place): Line
    requires |fsp| == SPEC_SIZE && place.at + Width(place.kind) <= M_U - H_U
  {
    var v, m, w := H_U + place.at, M_U + place.at, Width(place.kind);
    Line(place, fsp[v..v + w], Complement(fsp[m..m + w]))
  }

  lemma {:induction false} InvertedValue(fsp: seq<Octet>, o: nat, w: nat)
    requires |fsp| == SPEC_SIZE && o + w <= M_U
    ensures Inverted(fsp)[o..o + w] == fsp[o..o + w]
  {}

  lemma {:induction false} InvertedMask(fsp: seq<Octet>, at: nat, w: nat)
    requires |fsp| == SPEC_SIZE && at + w <= M_EXT - M_U
    ensures Inverted(fsp)[M_U + at..M_U + at + w] == Complement(fsp[M_U + at..M_U + at + w])
  {
    var p, a, b := Inverted(fsp), Inverted(fsp)[M_U + at..M_U + at + w], fsp[M_U + at..M_U + at + w];
    forall i | 0 <= i < w ensures a[i] == !b[i] {
      assert a[i] == p[M_U + at + i] == Complement(fsp[M_U..M_EXT])[at + i] == !fsp[M_U + at + i];
    }
    assert a == Complement(b);
  }

  lemma {:induction false} HeaderLineIs(fsp: seq<Octet>, place: Place)
    requires |fsp| == SPEC_SIZE && InHeader(place)
    ensures HeaderLine(Inverted(fsp), place) == FieldLine(fsp, place)
  {
    ShownIsSlice(Inverted(fsp), H_U + place.at, place.kind);
    ShownIsSlice(Inverted(fsp), M_U + place.at, place.kind);
    InvertedValue(fsp, H_U + place.at, Width(place.kind));
    InvertedMask(fsp, place.at, Width(place.kind));
  }

  lemma {:induction false} InvertedTag(p: seq<Octet>, o: nat)
    requires o + 2 <= |p|
    ensures Swap16(Complement(Load(p, o, 2))) == Complement(p[o..o + 2])
  {}

  /** User data as it is printed: without its first half. */
  function LowHalf(v: Num): (r: Num)
    requires |v| == 8
    ensures |r| == 8
  {
    [0, 0, 0, 0] + v[4..]
  }

  lemma {:induction false} ExtLinesAre(fsp: seq<Octet>)
    requires |fsp| == SPEC_SIZE && Extended(fsp)
    ensures var data := FieldLine(fsp, Place(BE64, 64));
      ExtLines(fsp) ==
      [FieldLine(fsp, Place(BE16, 60)), FieldLine(fsp, Place(BE16, 62)), data.(value := LowHalf(data.value))]
  {
    NetworkLoad(fsp, H_EXT, 2);
    NetworkLoad(fsp, H_EXT + 2, 2);
    NetworkLoad(fsp, H_EXT + 8, 4);
    InvertedTag(fsp, M_EXT);
    InvertedTag(fsp, M_EXT + 2);
    InvertedPair(fsp, M_EXT + 4);
    SliceOfSlice(fsp, H_EXT + 4, M_U, 4, 8);
  }

  // ----- The flow type comes back

  lemma {:induction false} FlowRecognised(flow: Flow, fsp: seq<Octet>)
    requires |fsp| == SPEC_SIZE && ClearExtended(Load(fsp, FLOW_TYPE, 4)) == [0, 0, 0, FlowCode(flow)]
    requires flow == Ip4 ==> fsp[IP_VER] == 1
    ensures FlowIn(fsp) == Some(flow)
  {}

  /** The printer recognises the flow type of every accepted command line. */
  lemma {:induction false} FlowComesBack(flow: Flow, gs: seq<Group>)
    requires Accepted(flow, gs)
    ensures FlowIn(SpecOf(flow, gs)) == Some(flow)
  {
    var fsp := SpecOf(flow, gs);
    TypeBytes(flow, gs);
    FlowTypeFields(fsp);
    TypeByte(fsp, FlowCode(flow), if Extended(fsp) then 0x80 else 0);
    if flow == Ip4 {
      VersionBytes(gs);
      assert [1 as Octet][0] == fsp[17];
    }
    FlowRecognised(flow, fsp);
  }

  /** Exactly which specifications are printed: by the kernel's numbers, and raw IP only for IPv4. */
  lemma {:induction false} PrintedFlows(fsp: seq<Octet>)
    requires |fsp| == SPEC_SIZE
    ensures FlowIn(fsp).Some? <==>
      && fsp[1] == 0 && fsp[2] == 0 && (fsp[3] == 0 || fsp[3] == 0x80)
      && (fsp[0] in {0x01, 0x02, 0x03, 0x09, 0x0a, 0x12} || (fsp[0] == 0x0d && fsp[17] == 1))
    ensures FlowIn(fsp).Some? ==> FlowCode(FlowIn(fsp).value) == fsp[0]
  {
    FlowTypeFields(fsp);
    TopBit(fsp[3]);
  }

  lemma {:induction false} TopBit(b: Octet)
    ensures b & 0x7f == 0 <==> b == 0 || b == 0x80
  {}

  // ----- The whole print-out

  /** What was typed for a member, as a line: zero with everything ignored if nothing was. */
  function MemberLine(gs: seq<Group>, m: Member, at: nat): Line {
    Line(Place(m.kind, at), ValueOf(gs, m), IgnoredOf(gs, m))
  }

  /** The header lines in the order of their captions: source, destination, type of service or
      protocol, and what follows them. */
  function HeaderTyped(flow: Flow, gs: seq<Group>): seq<Line> {
    match flow
    case Ether => [MemberLine(gs, SRC, 6), MemberLine(gs, DST, 0), MemberLine(gs, PROTO, 12)]
    case Ip4 => IpTyped(gs) + [MemberLine(gs, L4PROTO, 14), Line(Place(BE32, 8), Layer4Value(gs), Layer4Ignored(gs))]
    case Ah4 => IpTyped(gs) + [MemberLine(gs, SPI, 8)]
    case Esp4 => IpTyped(gs) + [MemberLine(gs, SPI, 8)]
    case _ => IpTyped(gs) + [MemberLine(gs, SRC_PORT, 8), MemberLine(gs, DST_PORT, 10)]
  }

  function IpTyped(gs: seq<Group>): seq<Line> {
    [MemberLine(gs, SRC_IP, 0), MemberLine(gs, DST_IP, 4), MemberLine(gs, TOS, 12)]
  }

  /** The extension: VLAN type, tag, and user data without its first half. */
  function ExtTyped(gs: seq<Group>): seq<Line> {
    if !ExtGiven(gs) then []
    else
      var data := MemberLine(gs, DATA, 64);
      [MemberLine(gs, ETYPE, 60), MemberLine(gs, TAG, 62), data.(value := LowHalf(data.value))]
  }

  lemma {:induction false} LiesSlice(p: seq<Octet>, a: nat, bytes: seq<Octet>)
    requires LiesAt(p, a, bytes)
    ensures p[a..a + |bytes|] == bytes
  {}

  lemma {:induction false} BytesLine(fsp: seq<Octet>, place: Place, value: seq<Octet>, mask: seq<Octet>)
    requires |fsp| == SPEC_SIZE && place.at + Width(place.kind) <= M_U - H_U
    requires |value| == |mask| == Width(place.kind)
    requires LiesAt(fsp, H_U + place.at, value) && LiesAt(Complement(fsp), M_U + place.at, mask)
    ensures FieldLine(fsp, place) == Line(place, value, mask)
  {
    LiesSlice(fsp, H_U + place.at, value);
    LiesSlice(Complement(fsp), M_U + place.at, mask);
    InvertedSlice(fsp, M_U + place.at, M_U + place.at + Width(place.kind));
  }

  lemma {:induction false} LaidLine(fsp: seq<Octet>, gs: seq<Group>, m: Member, at: nat)
    requires |fsp| == SPEC_SIZE && at + Width(m.kind) <= M_U - H_U && Laid(fsp, gs, m, at)
    ensures FieldLine(fsp, Place(m.kind, at)) == MemberLine(gs, m, at)
  {
    BytesLine(fsp, Place(m.kind, at), ValueOf(gs, m), IgnoredOf(gs, m));
  }

  /** The lines printed for the places. */
  function LinesFor(fsp: seq<Octet>, places: seq<Place>): (r: seq<Line>)
    requires |fsp| == SPEC_SIZE && AllInHeader(places)
    ensures |r| == |places|
  {
    HeaderLines(Inverted(fsp), places)
  }

  lemma {:induction false} LineAt(fsp: seq<Octet>, places: seq<Place>, i: nat)
    requires |fsp| == SPEC_SIZE && AllInHeader(places) && i < |places|
    ensures LinesFor(fsp, places)[i] == FieldLine(fsp, places[i])
  {
    HeaderLineIs(fsp, places[i]);
  }

  lemma {:induction false} MemberPrinted(fsp: seq<Octet>, gs: seq<Group>, places: seq<Place>, i: nat, m: Member,
                                         at: nat)
    requires |fsp| == SPEC_SIZE && AllInHeader(places) && i < |places| && places[i] == Place(m.kind, at)
    requires Laid(fsp, gs, m, at)
    ensures LinesFor(fsp, places)[i] == MemberLine(gs, m, at)
  {
    LineAt(fsp, places, i);
    LaidLine(fsp, gs, m, at);
  }

  predicate BeginsIp(places: seq<Place>) {
    && AllInHeader(places) && 3 <= |places|
    && places[0] == Place(IP4, 0) && places[1] == Place(IP4, 4) && places[2] == Place(U8, 12)
  }

  lemma {:induction false} IpPrinted(fsp: seq<Octet>, gs: seq<Group>, places: seq<Place>)
    requires |fsp| == SPEC_SIZE && BeginsIp(places)
    requires Laid(fsp, gs, SRC_IP, 0) && Laid(fsp, gs, DST_IP, 4) && Laid(fsp, gs, TOS, 12)
    ensures LinesFor(fsp, places)[..3] == IpTyped(gs)
  {
    MemberPrinted(fsp, gs, places, 0, SRC_IP, 0);
    MemberPrinted(fsp, gs, places, 1, DST_IP, 4);
    MemberPrinted(fsp, gs, places, 2, TOS, 12);
  }

  lemma {:induction false} TwoMore(lines: seq<Line>, begin: seq<Line>, l: Line, k: Line)
    requires |lines| == 5 && |begin| == 3 && lines[..3] == begin && lines[3] == l && lines[4] == k
    ensures lines == begin + [l, k]
  {
    assert lines == lines[..3] + [lines[3], lines[4]];
  }

  lemma {:induction false} TcpPrinted(fsp: seq<Octet>, gs: seq<Group>)
    requires |fsp| == SPEC_SIZE && Laid(fsp, gs, SRC_PORT, 8) && Laid(fsp, gs, DST_PORT, 10)
    requires LinesFor(fsp, HeaderPlaces(Tcp4))[..3] == IpTyped(gs)
    ensures LinesFor(fsp, HeaderPlaces(Tcp4)) == HeaderTyped(Tcp4, gs)
  {
    MemberPrinted(fsp, gs, HeaderPlaces(Tcp4), 3, SRC_PORT, 8);
    MemberPrinted(fsp, gs, HeaderPlaces(Tcp4), 4, DST_PORT, 10);
    TwoMore(LinesFor(fsp, HeaderPlaces(Tcp4)), IpTyped(gs), MemberLine(gs, SRC_PORT, 8), MemberLine(gs, DST_PORT, 10));
  }

  lemma {:induction false} EspPrinted(fsp: seq<Octet>, gs: seq<Group>)
    requires |fsp| == SPEC_SIZE && Laid(fsp, gs, SPI, 8) && LinesFor(fsp, HeaderPlaces(Esp4))[..3] == IpTyped(gs)
    ensures LinesFor(fsp, HeaderPlaces(Esp4)) == HeaderTyped(Esp4, gs)
  {
    MemberPrinted(fsp, gs, HeaderPlaces(Esp4), 3, SPI, 8);
    var lines := LinesFor(fsp, HeaderPlaces(Esp4));
    assert lines == lines[..3] + [lines[3]];
  }

  lemma {:induction false} RawPrinted(fsp: seq<Octet>, gs: seq<Group>)
    requires |fsp| == SPEC_SIZE && Laid(fsp, gs, L4PROTO, 14) && Layer4Placed(fsp, gs)
    requires LinesFor(fsp, HeaderPlaces(Ip4))[..3] == IpTyped(gs)
    ensures LinesFor(fsp, HeaderPlaces(Ip4)) == HeaderTyped(Ip4, gs)
  {
    MemberPrinted(fsp, gs, HeaderPlaces(Ip4), 3, L4PROTO, 14);
    LineAt(fsp, HeaderPlaces(Ip4), 4);
    BytesLine(fsp, Place(BE32, 8), Layer4Value(gs), Layer4Ignored(gs));
    TwoMore(LinesFor(fsp, HeaderPlaces(Ip4)), IpTyped(gs), MemberLine(gs, L4PROTO, 14),
            Line(Place(BE32, 8), Layer4Value(gs), Layer4Ignored(gs)));
  }

  lemma {:induction false} EtherPrinted(fsp: seq<Octet>, gs: seq<Group>)
    requires |fsp| == SPEC_SIZE && Laid(fsp, gs, SRC, 6) && Laid(fsp, gs, DST, 0) && Laid(fsp, gs, PROTO, 12)
    ensures LinesFor(fsp, HeaderPlaces(Ether)) == HeaderTyped(Ether, gs)
  {
    MemberPrinted(fsp, gs, HeaderPlaces(Ether), 0, SRC, 6);
    MemberPrinted(fsp, gs, HeaderPlaces(Ether), 1, DST, 0);
    MemberPrinted(fsp, gs, HeaderPlaces(Ether), 2, PROTO, 12);
  }

  /** TCP, UDP and SCTP rules are printed alike, and so are AH and ESP rules. */
  lemma {:induction false} SameCaptions(flow: Flow, gs: seq<Group>)
    ensures TcpLike(flow) ==> HeaderPlaces(flow) == HeaderPlaces(Tcp4) && HeaderTyped(flow, gs) == HeaderTyped(Tcp4, gs)
    ensures HeaderPlaces(Ah4) == HeaderPlaces(Esp4) && HeaderTyped(Ah4, gs) == HeaderTyped(Esp4, gs)
  {}

  lemma {:induction false} IpPlaces()
    ensures BeginsIp(HeaderPlaces(Tcp4)) && BeginsIp(HeaderPlaces(Esp4)) && BeginsIp(HeaderPlaces(Ip4))
  {}

  lemma {:induction false} IpComesBack(flow: Flow, gs: seq<Group>, places: seq<Place>)
    requires Accepted(flow, gs) && flow != Ether && BeginsIp(places)
    ensures LinesFor(SpecOf(flow, gs), places)[..3] == IpTyped(gs)
  {
    IpFields(flow, gs);
    IpPrinted(SpecOf(flow, gs), gs, places);
  }

  lemma {:induction false} TcpComesBack(flow: Flow, gs: seq<Group>)
    requires Accepted(flow, gs) && TcpLike(flow)
    ensures LinesFor(SpecOf(flow, gs), HeaderPlaces(Tcp4)) == HeaderTyped(Tcp4, gs)
  {
    IpPlaces();
    IpComesBack(flow, gs, HeaderPlaces(Tcp4));
    TcpFields(flow, gs);
    TcpPrinted(SpecOf(flow, gs), gs);
  }

  lemma {:induction false} EspComesBack(flow: Flow, gs: seq<Group>)
    requires Accepted(flow, gs) && (flow == Ah4 || flow == Esp4)
    ensures LinesFor(SpecOf(flow, gs), HeaderPlaces(Esp4)) == HeaderTyped(Esp4, gs)
  {
    IpPlaces();
    IpComesBack(flow, gs, HeaderPlaces(Esp4));
    EspFields(flow, gs);
    EspPrinted(SpecOf(flow, gs), gs);
  }

  lemma {:induction false} RawComesBack(gs: seq<Group>)
    requires Accepted(Ip4, gs)
    ensures LinesFor(SpecOf(Ip4, gs), HeaderPlaces(Ip4)) == HeaderTyped(Ip4, gs)
  {
    IpPlaces();
    IpComesBack(Ip4, gs, HeaderPlaces(Ip4));
    RawFields(gs);
    RawPrinted(SpecOf(Ip4, gs), gs);
  }

  lemma {:induction false} HeaderComesBack(flow: Flow, gs: seq<Group>)
    requires Accepted(flow, gs)
    ensures LinesFor(SpecOf(flow, gs), HeaderPlaces(flow)) == HeaderTyped(flow, gs)
  {
    SameCaptions(flow, gs);
    if flow == Ether {
      EtherFields(gs);
      EtherPrinted(SpecOf(Ether, gs), gs);
    } else if flow == Ip4 {
      RawComesBack(gs);
    } else if TcpLike(flow) {
      TcpComesBack(flow, gs);
    } else {
      EspComesBack(flow, gs);
    }
  }

  lemma {:induction false} ExtPrinted(fsp: seq<Octet>, gs: seq<Group>)
    requires |fsp| == SPEC_SIZE && (Extended(fsp) <==> ExtGiven(gs))
    requires Laid(fsp, gs, ETYPE, 60) && Laid(fsp, gs, TAG, 62) && Laid(fsp, gs, DATA, 64)
    ensures ExtLines(fsp) == ExtTyped(gs)
  {
    if Extended(fsp) {
      ExtLinesAre(fsp);
      LaidLine(fsp, gs, ETYPE, 60);
      LaidLine(fsp, gs, TAG, 62);
      LaidLine(fsp, gs, DATA, 64);
    }
  }

  lemma {:induction false} ExtComesBack(flow: Flow, gs: seq<Group>)
    requires Accepted(flow, gs)
    ensures Output(flow, SpecOf(flow, gs)).ext == ExtTyped(gs)
  {
    ExtFields(flow, gs);
    ExtendedByName(flow, gs);
    ExtPrinted(SpecOf(flow, gs), gs);
  }

  const ACTION_NUMBER := Member("action", U64)
  const LOCATION_NUMBER := Member("loc", U32)

  /** The location typed, or "any". */
  function LocationTyped(gs: seq<Group>): Num {
    if Given(gs, "loc") then ValueOf(gs, LOCATION_NUMBER) else Ones(4)
  }

  lemma {:induction false} CookieComesBack(flow: Flow, gs: seq<Group>)
    requires Accepted(flow, gs)
    ensures Load(SpecOf(flow, gs), RING_COOKIE, 8) == ValueOf(gs, ACTION_NUMBER)
  {
    if Given(gs, "action") {
      RuleConversion.TypedPlain(flow, gs, GroupNamed(gs, "action"), ACTION);
    } else {
      RuleConversion.UntypedPlain(flow, gs, ACTION);
      NoCookie(flow);
    }
  }

  lemma {:induction false} NoCookie(flow: Flow)
    ensures Load(InitialSpec(flow), RING_COOKIE, 8) == seq(8, _ => 0)
  {
    var v := Load(InitialSpec(flow), RING_COOKIE, 8);
    forall i | 0 <= i < 8 ensures v[i] == 0 {
      InitialZero(flow, RING_COOKIE + 7 - i);
    }
  }

  lemma {:induction false} LocationComesBack(flow: Flow, gs: seq<Group>)
    requires Accepted(flow, gs)
    ensures Load(SpecOf(flow, gs), LOCATION, 4) == LocationTyped(gs)
  {
    if Given(gs, "loc") {
      RuleConversion.TypedPlain(flow, gs, GroupNamed(gs, "loc"), LOC);
    } else {
      RuleConversion.UntypedPlain(flow, gs, LOC);
      RuleConversion.InitialLocation(flow);
    }
  }

  /** The print-out of an accepted command line, line by line: every value and mask as it was typed,
      under the caption of its option, but for the first half of the user data. */
  lemma {:induction false} PrintsRule(flow: Flow, gs: seq<Group>)
    requires Accepted(flow, gs)
    ensures FlowIn(SpecOf(flow, gs)) == Some(flow)
    ensures Output(flow, SpecOf(flow, gs)) ==
      Printout(LocationTyped(gs), HeaderTyped(flow, gs), ExtTyped(gs), ValueOf(gs, ACTION_NUMBER))
  {
    FlowComesBack(flow, gs);
    HeaderComesBack(flow, gs);
    ExtComesBack(flow, gs);
    CookieComesBack(flow, gs);
    LocationComesBack(flow, gs);
  }

  lemma {:induction false} LowHalfIsAll(v: Num)
    requires |v| == 8
    ensures LowHalf(v) == v <==> IsZero(v[..4])
  {}

  lemma {:induction false} WholeNumber(a: Arg)
    requires Encode(BE64, a).Some?
    ensures a.number.Some? && Typed(BE64, a) == a.number.value
  {
    var v := a.number.value;
    assert v[0..] == v;
  }

  /** What was typed as user data is the typed number. */
  lemma {:induction false} DataTyped(flow: Flow, gs: seq<Group>, k: nat)
    requires Accepted(flow, gs) && k < |gs| && gs[k].name.text == "user-def"
    ensures gs[k].value.number.Some? && (gs[k].mask.Mask? ==> Encode(BE64, gs[k].mask.arg).Some?) && ExtGiven(gs)
    ensures ValueOf(gs, DATA) == gs[k].value.number.value && IgnoredOf(gs, DATA) == TypedIgnore(BE64, gs[k].mask)
  {
    GivenOnce(flow, gs, k);
    NamedOption(flow, gs[k]);
    SpecCarries(flow, gs, k);
    WholeNumber(gs[k].value);
  }

  lemma {:induction false} DataLine(gs: seq<Group>, number: Num)
    requires ExtGiven(gs) && ValueOf(gs, DATA) == number
    ensures |number| == 8 && |ExtTyped(gs)| == 3 && ExtTyped(gs)[2].mask == IgnoredOf(gs, DATA)
    ensures ExtTyped(gs)[2].value == number <==> IntOf(number) < 0x1_0000_0000
  {
    LowHalfIsAll(number);
    HighZero(number, 4);
    Powers();
  }

  /** Typed user data is printed with its mask, and as it was typed exactly if the number has at most
      32 bits. */
  lemma {:induction false} PrintsUserData(flow: Flow, gs: seq<Group>, k: nat)
    requires Accepted(flow, gs) && k < |gs| && gs[k].name.text == "user-def"
    ensures gs[k].value.number.Some? && (gs[k].mask.Mask? ==> Encode(BE64, gs[k].mask.arg).Some?)
    ensures var ext, number := Output(flow, SpecOf(flow, gs)).ext, gs[k].value.number.value;
      |ext| == 3 && ext[2].mask == TypedIgnore(BE64, gs[k].mask) &&
      (ext[2].value == number <==> IntOf(number) < 0x1_0000_0000)
  {
    ExtComesBack(flow, gs);
    DataTyped(flow, gs, k);
    DataLine(gs, gs[k].value.number.value);
  }
}
