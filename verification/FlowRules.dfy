/** The options of `ethtool -N <dev> flow-type`: for every flow type a table of named options, each
with the bytes of `struct ethtool_rx_flow_spec` that its value and its mask occupy.
The layout is that of a 64-bit little-endian host.
*/
module FlowRules {
  import opened FlowBytes
  import opened Wrappers

  // ----- struct ethtool_rx_flow_spec

  const FLOW_TYPE: nat := 0
  const H_U: nat := 4        // h_u, 60 bytes, then h_ext, 12 bytes
  const H_EXT: nat := 64
  const M_U: nat := 76       // m_u and m_ext, laid out like h_u and h_ext
  const M_EXT: nat := 136
  const RING_COOKIE: nat := 152
  const LOCATION: nat := 160
  const SPEC_SIZE: nat := 168
  const IP_VER: nat := 17    // h_u.usr_ip4_spec.ip_ver

  // ----- Options

  datatype OptType = U8 | U32 | U64 | BE16 | BE32 | BE64 | IP4 | MAC

  function Width(t: OptType): nat {
    match t
    case U8 => 1
    case BE16 => 2
    case U32 => 4
    case BE32 => 4
    case IP4 => 4
    case MAC => 6
    case U64 => 8
    case BE64 => 8
  }

  /** A word of flags, as the set of its bits. */
  type Flags = set<nat>

  /** `struct rule_opts` */
  datatype Opt = Opt(name: string, kind: OptType, flag: Flags, offset: nat, moffset: int)

  /** An option with a mask: `at` is the position of its field in h_u followed by h_ext. */
  function Field(name: string, kind: OptType, flag: Flags, at: nat): Opt {
    Opt(name, kind, flag, H_U + at, M_U + at)
  }

  const NFC_FLAG_RING: Flags := {0}
  const NFC_FLAG_LOC: Flags := {1}
  const NFC_FLAG_SADDR: Flags := {2}
  const NFC_FLAG_DADDR: Flags := {3}
  const NFC_FLAG_SPORT: Flags := {4}
  const NFC_FLAG_DPORT: Flags := {5}
  const NFC_FLAG_SPI: Flags := {4, 5}
  const NFC_FLAG_TOS: Flags := {6}
  const NFC_FLAG_PROTO: Flags := {7}
  const NTUPLE_FLAG_VLAN: Flags := {8}
  const NTUPLE_FLAG_UDEF: Flags := {9}
  const NTUPLE_FLAG_VETH: Flags := {10}

  const ACTION := Opt("action", U64, NFC_FLAG_RING, RING_COOKIE, -1)
  const LOC := Opt("loc", U32, NFC_FLAG_LOC, LOCATION, -1)
  const VLAN_ETYPE := Field("vlan-etype", BE16, NTUPLE_FLAG_VETH, 60)
  const VLAN := Field("vlan", BE16, NTUPLE_FLAG_VLAN, 62)
  const USER_DEF := Field("user-def", BE64, NTUPLE_FLAG_UDEF, 64)

  /** The tail that all four tables have. */
  const COMMON_OPTS: seq<Opt> := [ACTION, LOC, VLAN_ETYPE, VLAN, USER_DEF]

  const TCP_IP4_OPTS: seq<Opt> := [
    Field("src-ip", IP4, NFC_FLAG_SADDR, 0),
    Field("dst-ip", IP4, NFC_FLAG_DADDR, 4),
    Field("tos", U8, NFC_FLAG_TOS, 12),
    Field("src-port", BE16, NFC_FLAG_SPORT, 8),
    Field("dst-port", BE16, NFC_FLAG_DPORT, 10)
  ]

  const ESP_IP4_OPTS: seq<Opt> := [
    Field("src-ip", IP4, NFC_FLAG_SADDR, 0),
    Field("dst-ip", IP4, NFC_FLAG_DADDR, 4),
    Field("tos", U8, NFC_FLAG_TOS, 12),
    Field("spi", BE32, NFC_FLAG_SPI, 8)
  ]

  const USR_IP4_OPTS: seq<Opt> := [
    Field("src-ip", IP4, NFC_FLAG_SADDR, 0),
    Field("dst-ip", IP4, NFC_FLAG_DADDR, 4),
    Field("tos", U8, NFC_FLAG_TOS, 12),
    Field("l4proto", U8, NFC_FLAG_PROTO, 14),
    Field("l4data", BE32, NFC_FLAG_SPI, 8),
    Field("spi", BE32, NFC_FLAG_SPI, 8),
    Field("src-port", BE16, NFC_FLAG_SPORT, 8),
    Field("dst-port", BE16, NFC_FLAG_DPORT, 10)
  ]

  const ETHER_OPTS: seq<Opt> := [
    Field("src", MAC, NFC_FLAG_SADDR, 6),
    Field("dst", MAC, NFC_FLAG_DADDR, 0),
    Field("proto", BE16, NFC_FLAG_PROTO, 12)
  ]

  // ----- Flow types

  datatype Flow = Tcp4 | Udp4 | Sctp4 | Ah4 | Esp4 | Ip4 | Ether

  function FlowNamed(name: string): Option<Flow> {
    if name == "tcp4" then Some(Tcp4)
    else if name == "udp4" then Some(Udp4)
    else if name == "sctp4" then Some(Sctp4)
    else if name == "ah4" then Some(Ah4)
    else if name == "esp4" then Some(Esp4)
    else if name == "ip4" then Some(Ip4)
    else if name == "ether" then Some(Ether)
    else None
  }

  function FlowCode(flow: Flow): Octet {
    match flow
    case Tcp4 => 0x01
    case Udp4 => 0x02
    case Sctp4 => 0x03
    case Ah4 => 0x09
    case Esp4 => 0x0a
    case Ip4 => 0x0d
    case Ether => 0x12
  }

  function HeaderOptions(flow: Flow): seq<Opt> {
    match flow
    case Ah4 => ESP_IP4_OPTS
    case Esp4 => ESP_IP4_OPTS
    case Ip4 => USR_IP4_OPTS
    case Ether => ETHER_OPTS
    case _ => TCP_IP4_OPTS
  }

  function Options(flow: Flow): seq<Opt> {
    HeaderOptions(flow) + COMMON_OPTS
  }

  // ----- What makes a table work

  /** The option stays inside the structure, and its mask, if it has one, mirrors its value. */
  predicate InPlace(o: Opt) {
    && o.flag != {}
    && (if o.moffset < 0 then o.moffset == -1 && RING_COOKIE <= o.offset && o.offset + Width(o.kind) <= SPEC_SIZE
        else o.moffset == o.offset + (M_U - H_U) && H_U <= o.offset && o.offset + Width(o.kind) <= M_U)
  }

  /** The two options may be given together. */
  predicate Compatible(a: Opt, b: Opt) {
    a.flag !! b.flag
  }

  predicate Apart(a: Opt, b: Opt) {
    a.offset + Width(a.kind) <= b.offset || b.offset + Width(b.kind) <= a.offset
  }

  /** No option name can be taken for a mask keyword. */
  predicate GoodName(name: string) {
    name != "" && name[|name| - 1] != 'm' && name[|name| - 1] != 'k'
  }

  predicate AllInPlace(options: seq<Opt>) {
    forall i :: 0 <= i < |options| ==> InPlace(options[i]) && GoodName(options[i].name)
  }

  /** Options that may be given together do not share a byte. */
  predicate PairsApart(options: seq<Opt>) {
    forall i, j :: 0 <= i < j < |options| && Compatible(options[i], options[j]) ==> Apart(options[i], options[j])
  }

  predicate GoodTable(options: seq<Opt>) {
    AllInPlace(options) && PairsApart(options)
  }

  lemma {:induction false} CommonTable()
    ensures GoodTable(COMMON_OPTS)
    ensures forall i :: 0 <= i < |COMMON_OPTS| ==> H_EXT <= COMMON_OPTS[i].offset
  {}

  /** A table of header options: none of them reaches the extension. */
  predicate HeaderTable(options: seq<Opt>) {
    GoodTable(options) && forall i :: 0 <= i < |options| ==> options[i].offset + Width(options[i].kind) <= H_EXT
  }

  predicate SparesVersion(options: seq<Opt>) {
    forall i :: 0 <= i < |options| ==>
      options[i].offset + Width(options[i].kind) <= IP_VER || IP_VER < options[i].offset
  }

  lemma {:induction false} TcpPairs()
    ensures PairsApart(TCP_IP4_OPTS)
  {}

  lemma {:induction false} TcpTable()
    ensures HeaderTable(TCP_IP4_OPTS)
  {
    TcpPairs();
  }

  lemma {:induction false} EspTable()
    ensures HeaderTable(ESP_IP4_OPTS)
  {}

  lemma {:induction false} UsrInPlace()
    ensures AllInPlace(USR_IP4_OPTS)
  {}

  lemma {:induction false} UsrPairs()
    ensures PairsApart(USR_IP4_OPTS)
  {}

  lemma {:induction false} UsrTable()
    ensures HeaderTable(USR_IP4_OPTS)
  {
    UsrInPlace();
    UsrPairs();
  }

  lemma {:induction false} UsrSparesVersion()
    ensures SparesVersion(USR_IP4_OPTS)
  {}

  lemma {:induction false} EtherTable()
    ensures HeaderTable(ETHER_OPTS)
  {}

  lemma {:induction false} JoinTables(a: seq<Opt>, b: seq<Opt>)
    requires HeaderTable(a) && GoodTable(b)
    requires forall i :: 0 <= i < |b| ==> H_EXT <= b[i].offset
    ensures GoodTable(a + b)
    ensures SparesVersion(a) ==> SparesVersion(a + b)
  {}

  /** All tables are good, and the options of an IP flow leave the version byte alone. */
  lemma {:induction false} TablesGood(flow: Flow)
    ensures GoodTable(Options(flow))
    ensures flow == Ip4 ==> SparesVersion(Options(flow))
  {
    TcpTable();
    EspTable();
    UsrTable();
    UsrSparesVersion();
    EtherTable();
    CommonTable();
    JoinTables(HeaderOptions(flow), COMMON_OPTS);
  }

  // ----- The flags are exact

  /** Options whose fields do not overlap may be given together. */
  predicate ApartTogether(options: seq<Opt>) {
    forall i, j :: 0 <= i < j < |options| && Apart(options[i], options[j]) ==> Compatible(options[i], options[j])
  }

  /** The flags of header options; the others belong to the options all tables have. */
  const HEADER_FLAGS: Flags := {2, 3, 4, 5, 6, 7}

  predicate UsesHeaderFlags(options: seq<Opt>) {
    forall i :: 0 <= i < |options| ==> options[i].flag <= HEADER_FLAGS
  }

  lemma {:induction false} CommonTogether()
    ensures ApartTogether(COMMON_OPTS) && forall i :: 0 <= i < |COMMON_OPTS| ==> COMMON_OPTS[i].flag !! HEADER_FLAGS
  {}

  lemma {:induction false} TcpTogether()
    ensures ApartTogether(TCP_IP4_OPTS) && UsesHeaderFlags(TCP_IP4_OPTS)
  {}

  lemma {:induction false} EspTogether()
    ensures ApartTogether(ESP_IP4_OPTS) && UsesHeaderFlags(ESP_IP4_OPTS)
  {}

  lemma {:induction false} UsrTogetherAt(i: nat, j: nat)
    requires i < j < |USR_IP4_OPTS| && Apart(USR_IP4_OPTS[i], USR_IP4_OPTS[j])
    ensures Compatible(USR_IP4_OPTS[i], USR_IP4_OPTS[j])
  {}

  lemma {:induction false} UsrTogether()
    ensures ApartTogether(USR_IP4_OPTS)
  {
    forall i, j | 0 <= i < j < |USR_IP4_OPTS| && Apart(USR_IP4_OPTS[i], USR_IP4_OPTS[j])
      ensures Compatible(USR_IP4_OPTS[i], USR_IP4_OPTS[j])
    {
      UsrTogetherAt(i, j);
    }
  }

  lemma {:induction false} UsrFlags()
    ensures UsesHeaderFlags(USR_IP4_OPTS)
  {}

  lemma {:induction false} EtherTogether()
    ensures ApartTogether(ETHER_OPTS) && UsesHeaderFlags(ETHER_OPTS)
  {}

  lemma {:induction false} JoinTogether(a: seq<Opt>, b: seq<Opt>)
    requires ApartTogether(a) && ApartTogether(b) && UsesHeaderFlags(a)
    requires forall i :: 0 <= i < |b| ==> b[i].flag !! HEADER_FLAGS
    ensures ApartTogether(a + b)
  {
    var c, n := a + b, |a|;
    forall i, j | 0 <= i < j < |c| && Apart(c[i], c[j]) ensures Compatible(c[i], c[j]) {
      if j < n {
        assert c[i] == a[i] && c[j] == a[j];
      } else if n <= i {
        assert c[i] == b[i - n] && c[j] == b[j - n];
      } else {
        assert c[i] == a[i] && c[j] == b[j - n];
      }
    }
  }

  /** So two options of a table exclude each other exactly when their fields overlap. */
  lemma {:induction false} TablesExact(flow: Flow)
    ensures ApartTogether(Options(flow))
  {
    CommonTogether();
    TcpTogether();
    EspTogether();
    UsrTogether();
    UsrFlags();
    EtherTogether();
    JoinTogether(HeaderOptions(flow), COMMON_OPTS);
  }

  // ----- Arguments

  /** A command-line argument together with what `strtoull`, `inet_pton` and `sscanf` make of it. */
  datatype Lexeme = Lexeme(text: string, number: Option<Num>, ip4: Option<seq<Octet>>, mac: Option<seq<Octet>>)

  type Arg = a: Lexeme |
    && (a.number.Some? ==> |a.number.value| == 8)
    && (a.ip4.Some? ==> |a.ip4.value| == 4)
    && (a.mac.Some? ==> |a.mac.value| == 6)
    witness Lexeme("", None, None, None)

  /** The low `n` bytes of a 64-bit number, if the number fits into them. */
  function Fit(v: Num, n: nat): (r: Option<Num>)
    requires |v| == 8 && n <= 8
    ensures r.Some? ==> |r.value| == n
  {
    if IsZero(v[..8 - n]) then Some(v[8 - n..]) else None
  }

  /** A number that fits, as it is stored: in host order, or swapped to network order. */
  function EncodeNumber(t: OptType, v: Num): (r: Option<seq<Octet>>)
    requires t != IP4 && t != MAC && |v| == 8
    ensures r.Some? ==> |r.value| == Width(t)
  {
    var fit := Fit(v, Width(t));
    if fit.None? then None
    else
      var x := fit.value;
      Some(Store(if t == BE16 then Swap16(x) else if t == BE32 then Swap32(x) else if t == BE64 then Swap64(x) else x))
  }

  /** The bytes a value of the given type is stored as, if the argument is one. */
  function Encode(t: OptType, a: Arg): (r: Option<seq<Octet>>)
    ensures r.Some? ==> |r.value| == Width(t)
  {
    if t == IP4 then a.ip4
    else if t == MAC then a.mac
    else if a.number.None? then None
    else EncodeNumber(t, a.number.value)
  }

  // ----- Which arguments are accepted

  /** The numbers of the given width are those below this. */
  function Bound(t: OptType): nat {
    match t
    case U8 => 0x100
    case BE16 => 0x10000
    case U32 => 0x1_0000_0000
    case BE32 => 0x1_0000_0000
    case U64 => 0x1_0000_0000_0000_0000
    case BE64 => 0x1_0000_0000_0000_0000
    case IP4 => 0
    case MAC => 0
  }

  /** The argument is a value of the type: an address, or a number in range. */
  predicate InRange(t: OptType, a: Arg) {
    match t
    case IP4 => a.ip4.Some?
    case MAC => a.mac.Some?
    case _ => a.number.Some? && IntOf(a.number.value) < Bound(t)
  }

  /** An argument is accepted exactly if it is a value of the type. */
  lemma {:induction false} EncodeInRange(t: OptType, a: Arg)
    ensures Encode(t, a).Some? <==> InRange(t, a)
  {
    if t != IP4 && t != MAC && a.number.Some? {
      HighZero(a.number.value, 8 - Width(t));
      Powers();
    }
  }

  // ----- The effect of one option

  datatype State = State(p: seq<Octet>, flags: Flags)

  function Splice(p: seq<Octet>, o: nat, bytes: seq<Octet>): (r: seq<Octet>)
    requires o + |bytes| <= |p|
    ensures |r| == |p|
    ensures forall b :: 0 <= b < |p| ==> r[b] == if o <= b < o + |bytes| then bytes[b - o] else p[b]
  {
    p[..o] + bytes + p[o + |bytes|..]
  }

  /** Storing an encoded value marks the option as given and makes its whole mask significant. */
  function PutVal(st: State, o: Opt, bytes: Option<seq<Octet>>): (r: Option<State>)
    requires |st.p| == SPEC_SIZE && InPlace(o) && (bytes.Some? ==> |bytes.value| == Width(o.kind))
    ensures r.Some? ==> |r.value.p| == SPEC_SIZE
  {
    if !(st.flags !! o.flag) || bytes.None? then None
    else
      var p := Splice(st.p, o.offset, bytes.value);
      Some(State(if o.moffset < 0 then p else Splice(p, o.moffset, Ones(Width(o.kind))), st.flags + o.flag))
  }

  /** Storing an encoded mask; the user's set bits are the ones to ignore. */
  function PutMask(st: State, o: Opt, bytes: Option<seq<Octet>>): (r: Option<State>)
    requires |st.p| == SPEC_SIZE && InPlace(o) && (bytes.Some? ==> |bytes.value| == Width(o.kind))
    ensures r.Some? ==> |r.value.p| == SPEC_SIZE
  {
    if o.moffset < 0 || bytes.None? then None
    else Some(st.(p := Splice(st.p, o.moffset, Complement(bytes.value))))
  }

  /** `rxclass_get_val` */
  function GetVal(st: State, o: Opt, a: Arg): (r: Option<State>)
    requires |st.p| == SPEC_SIZE && InPlace(o)
    ensures r.Some? ==> |r.value.p| == SPEC_SIZE
  {
    PutVal(st, o, Encode(o.kind, a))
  }

  /** `rxclass_get_mask` */
  function GetMask(st: State, o: Opt, a: Arg): (r: Option<State>)
    requires |st.p| == SPEC_SIZE && InPlace(o)
    ensures r.Some? ==> |r.value.p| == SPEC_SIZE
  {
    PutMask(st, o, Encode(o.kind, a))
  }

  // ----- The parser's loop, as a function of the remaining arguments

  /** Index of the option called `name`, or the length of the table. */
  function Lookup(options: seq<Opt>, name: string): (r: nat)
    ensures r <= |options|
    ensures r < |options| ==> options[r].name == name
  {
    if options == [] || options[0].name == name then 0 else 1 + Lookup(options[1..], name)
  }

  predicate Known(options: seq<Opt>, name: string) {
    Lookup(options, name) < |options|
  }

  function OptNamed(options: seq<Opt>, name: string): Opt
    requires Known(options, name)
  {
    options[Lookup(options, name)]
  }

  predicate MaskKeyword(text: string, name: string) {
    text == "m" || text == name + "-mask"
  }

  /** `None` is a rejected command line. */
  function Parse(options: seq<Opt>, args: seq<Arg>, st: State): (r: Option<State>)
    requires GoodTable(options) && |st.p| == SPEC_SIZE
    ensures r.Some? ==> |r.value.p| == SPEC_SIZE
    decreases |args|
  {
    if args == [] then Some(st)
    else if !Known(options, args[0].text) then None
    else if |args| == 1 then Some(st)  // a last option without a value is dropped
    else
      var o := OptNamed(options, args[0].text);
      var st1 := GetVal(st, o, args[1]);
      if st1.None? then None
      else if |args| == 2 then st1
      else if !MaskKeyword(args[2].text, o.name) then Parse(options, args[2..], st1.value)
      else if |args| == 3 then None
      else
        var st2 := GetMask(st1.value, o, args[3]);
        if st2.None? then None else Parse(options, args[4..], st2.value)
  }
}
