/** `flow_spec_to_ntuple`: a flow specification, whose mask bits select what is compared, becomes an
N-tuple filter, whose mask bits select what is ignored.  Meaning is the plain bitwise reading of
the masks on both sides.
*/
module Ntuple {
  import opened FlowBytes
  import opened FlowRules
  import opened FlowParser

  /** `struct ethtool_rx_ntuple_flow_spec` */
  datatype Filter = Filter(
    flowType: Num, hU: seq<Octet>, mU: seq<Octet>, vlanTag: Num, vlanTagMask: Num,
    data: Num, dataMask: Num, action: Num)

  /** The sizes of the fields of a filter. */
  predicate Shaped(f: Filter) {
    && |f.flowType| == 4 && |f.hU| == |f.mU| == 72 && |f.vlanTag| == |f.vlanTagMask| == 2
    && |f.data| == |f.dataMask| == 8 && |f.action| == 4
  }

  // ----- Fields of a flow specification

  predicate Extended(fsp: seq<Octet>)
    requires |fsp| == SPEC_SIZE
  {
    Load(fsp, FLOW_TYPE, 4)[0] & FLOW_EXT != 0
  }

  /** A VLAN type is compared, by `fsp->m_ext.vlan_etype`. */
  predicate HasEtype(fsp: seq<Octet>)
    requires |fsp| == SPEC_SIZE
  {
    !IsZero(Load(fsp, M_EXT, 2))
  }

  /** User data is compared, by `fsp->m_ext.data[0]` or `fsp->m_ext.data[1]`. */
  predicate HasUserData(fsp: seq<Octet>)
    requires |fsp| == SPEC_SIZE
  {
    !IsZero(Load(fsp, M_EXT + 4, 4)) || !IsZero(Load(fsp, M_EXT + 8, 4))
  }

  /** Not above INT_MAX: 31 significant bits. */
  predicate AtMostIntMax(cookie: Num)
    requires |cookie| == 8
  {
    IsZero(cookie[..4]) && cookie[4] < 0x80
  }

  /** One of the two highest numbers, (u64)-2 and (u64)-1. */
  predicate DropOrClear(cookie: Num)
    requires |cookie| == 8
  {
    cookie[..7] == Ones(7) && cookie[7] >= 0xfe
  }

  lemma {:induction false} IntMaxRange(cookie: Num)
    requires |cookie| == 8
    ensures AtMostIntMax(cookie) <==> IntOf(cookie) <= 0x7fff_ffff
  {
    HighZero(cookie, 4);
    TopBitOf(cookie[4..]);
    Powers();
  }

  lemma {:induction false} LastOctet(v: Num)
    requires |v| == 8
    ensures IsZero(v[..7]) && v[7] <= 1 <==> IntOf(v) < 2
  {
    HighZero(v, 7);
    Powers();
    OneDigit(v[7..]);
  }

  lemma {:induction false} OneDigit(v: Num)
    requires |v| == 1
    ensures v[0] <= 1 <==> IntOf(v) < 2
  {
    assert IntOf(v) == OctetValue(v[0]);
  }

  lemma {:induction false} DropOrClearRange(cookie: Num)
    requires |cookie| == 8
    ensures DropOrClear(cookie) <==> 0xffff_ffff_ffff_fffe <= IntOf(cookie)
  {
    var c := Complement(cookie);
    IntOfComplement(cookie);
    Powers();
    LastOctet(c);
    InvertedOnes(cookie);
  }

  lemma {:induction false} InvertedOnes(cookie: Num)
    requires |cookie| == 8
    ensures DropOrClear(cookie) <==> IsZero(Complement(cookie)[..7]) && Complement(cookie)[7] <= 1
  {
    var c := Complement(cookie);
    if IsZero(c[..7]) {
      forall i | 0 <= i < 7 ensures cookie[..7][i] == 0xff {
        assert c[..7][i] == !cookie[i];
      }
      assert cookie[..7] == Ones(7);
    }
    if DropOrClear(cookie) {
      forall i | 0 <= i < 7 ensures c[..7][i] == 0 {
        assert cookie[..7][i] == cookie[i] == 0xff;
      }
    }
  }

  /** The conversion refuses rules with a location, with a queue number that does not fit, or with
      both kinds of data. */
  predicate Convertible(fsp: seq<Octet>)
    requires |fsp| == SPEC_SIZE
  {
    var cookie := Load(fsp, RING_COOKIE, 8);
    && Load(fsp, LOCATION, 4) == Ones(4)
    && (AtMostIntMax(cookie) || DropOrClear(cookie))
    && !(Extended(fsp) && HasUserData(fsp) && HasEtype(fsp))
  }

  /** The same in integers: any location but "any" is refused, and any action between INT_MAX and the
      two highest numbers. */
  lemma {:induction false} ConvertibleRange(fsp: seq<Octet>)
    requires |fsp| == SPEC_SIZE
    ensures var cookie := IntOf(Load(fsp, RING_COOKIE, 8));
      Convertible(fsp) <==>
      && IntOf(Load(fsp, LOCATION, 4)) == 0xffff_ffff
      && (cookie <= 0x7fff_ffff || 0xffff_ffff_ffff_fffe <= cookie)
      && !(Extended(fsp) && HasUserData(fsp) && HasEtype(fsp))
  {
    IntMaxRange(Load(fsp, RING_COOKIE, 8));
    DropOrClearRange(Load(fsp, RING_COOKIE, 8));
    IntOfInjective(Load(fsp, LOCATION, 4), Ones(4));
    IntOfOnes(4);
    Powers();
  }

  // ----- The conversion

  function ClearExtended(flowType: Num): (r: Num)
    requires |flowType| == 4
    ensures |r| == 4
  {
    flowType[0 := flowType[0] & !FLOW_EXT]
  }

  function ToFilter(fsp: seq<Octet>): (r: Filter)
    requires |fsp| == SPEC_SIZE
    ensures Shaped(r)
  {
    var ext, etype := Extended(fsp), HasEtype(fsp);
    Filter(
      ClearExtended(Load(fsp, FLOW_TYPE, 4)),
      fsp[H_U..H_EXT] + Ones(12),
      Complement(fsp[M_U..M_EXT]) + Ones(12),
      if ext then Swap16(Load(fsp, H_EXT + 2, 2)) else Ones(2),
      if ext then Complement(Swap16(Load(fsp, M_EXT + 2, 2))) else Ones(2),
      if !ext then Ones(8)
      else if etype then [0, 0, 0, 0] + Swap32([0, 0] + Load(fsp, H_EXT, 2))
      else Swap32(Load(fsp, H_EXT + 4, 4)) + Swap32(Load(fsp, H_EXT + 8, 4)),
      if !ext then Ones(8)
      else if etype then Complement([0, 0, 0, 0] + Swap32([0, 0] + Load(fsp, M_EXT, 2)))
      else Swap32(Complement(Load(fsp, M_EXT + 4, 4))) + Swap32(Complement(Load(fsp, M_EXT + 8, 4))),
      Load(fsp, RING_COOKIE, 8)[4..])
  }

  /** The two header unions: copied, padded with ones, and the mask inverted. */
  method CopyUnions(fsp: seq<Octet>) returns (hU: seq<Octet>, mU: seq<Octet>)
    requires |fsp| == SPEC_SIZE
    ensures hU == fsp[H_U..H_EXT] + Ones(12)
    ensures mU == Complement(fsp[M_U..M_EXT]) + Ones(12)
  {
    var h, m := new Octet[72](_ => 0xff), new Octet[72](_ => 0xff);
    WriteBytes(h, 0, fsp[H_U..H_EXT]);
    WriteBytes(m, 0, fsp[M_U..M_EXT]);
    hU := h[..];
    for i := 0 to 60
      invariant forall k :: 0 <= k < 72 ==>
        m[k] == if k < i then !fsp[M_U + k] else if k < 60 then fsp[M_U + k] else 0xff
    {
      FlipByte(fsp[M_U + i]);
      m[i] := m[i] ^ 0xff;
    }
    mU := m[..];
  }

  /** `flow_spec_to_ntuple` */
  method FlowSpecToNtuple(fsp: seq<Octet>) returns (err: int, ntuple: Filter)
    requires |fsp| == SPEC_SIZE
    ensures err == if Convertible(fsp) then 0 else -1
    ensures err == 0 ==> ntuple == ToFilter(fsp)
  {
    ntuple := Filter(Ones(4), Ones(72), Ones(72), Ones(2), Ones(2), Ones(8), Ones(8), Ones(4));
    if Load(fsp, LOCATION, 4) != Ones(4) {
      return -1, ntuple;
    }
    var cookie := Load(fsp, RING_COOKIE, 8);
    if !AtMostIntMax(cookie) && !DropOrClear(cookie) {
      return -1, ntuple;
    }
    if Extended(fsp) && HasUserData(fsp) && HasEtype(fsp) {
      return -1, ntuple;
    }
    ntuple := ntuple.(flowType := Load(fsp, FLOW_TYPE, 4), action := cookie[4..]);
    var hU, mU := CopyUnions(fsp);
    ntuple := ntuple.(hU := hU, mU := mU);
    if Extended(fsp) {
      ntuple := ntuple.(vlanTag := Swap16(Load(fsp, H_EXT + 2, 2)),
                        vlanTagMask := Complement(Swap16(Load(fsp, M_EXT + 2, 2))));
      if HasEtype(fsp) {
        ntuple := ntuple.(data := [0, 0, 0, 0] + Swap32([0, 0] + Load(fsp, H_EXT, 2)),
                          dataMask := Complement([0, 0, 0, 0] + Swap32([0, 0] + Load(fsp, M_EXT, 2))));
      } else {
        ntuple := ntuple.(data := Swap32(Load(fsp, H_EXT + 4, 4)) + Swap32(Load(fsp, H_EXT + 8, 4)),
                          dataMask := Swap32(Complement(Load(fsp, M_EXT + 4, 4))) +
                                      Swap32(Complement(Load(fsp, M_EXT + 8, 4))));
      }
    }
    ntuple := ntuple.(flowType := ClearExtended(ntuple.flowType));
    return 0, ntuple;
  }

  lemma {:induction false} FlipByte(b: Octet)
    ensures b ^ 0xff == !b
  {}

  /** In every accepted conversion the 32-bit signed action, sign-extended, is the ring cookie: a
      queue stays that queue, and "discard" becomes the drop action -1. */
  lemma {:induction false} ActionIsCookie(fsp: seq<Octet>)
    requires |fsp| == SPEC_SIZE && Convertible(fsp)
    ensures var action := ToFilter(fsp).action;
      (if action[0] >= 0x80 then Ones(4) else [0, 0, 0, 0]) + action == Load(fsp, RING_COOKIE, 8)
  {
    SignExtended(Load(fsp, RING_COOKIE, 8));
  }

  lemma {:induction false} SignExtended(cookie: Num)
    requires |cookie| == 8 && (AtMostIntMax(cookie) || DropOrClear(cookie))
    ensures (if cookie[4] >= 0x80 then Ones(4) else [0, 0, 0, 0]) + cookie[4..] == cookie
  {
    if AtMostIntMax(cookie) {
      assert forall i :: 0 <= i < 4 ==> cookie[..4][i] == cookie[i] == 0;
    } else {
      assert forall i :: 0 <= i < 7 ==> cookie[..7][i] == cookie[i] == 0xff;
    }
  }

  /** The filter's flow type is the rule's without the marker of extended rules. */
  lemma {:induction false} FlowTypeFields(fsp: seq<Octet>)
    requires |fsp| == SPEC_SIZE
    ensures ToFilter(fsp).flowType == [fsp[3] & 0x7f, fsp[2], fsp[1], fsp[0]]
  {
    var v := Load(fsp, FLOW_TYPE, 4);
    assert v == [fsp[3], fsp[2], fsp[1], fsp[0]];
  }

  // ----- What rules and filters match

  /** The bytes of a packet a rule can look at: its header, padded to the size of the filter's
      union, and VLAN type, VLAN tag and user data in network order. */
  datatype Packet = Packet(hdr: seq<Octet>, ext: seq<Octet>)

  predicate Sized(pkt: Packet) {
    |pkt.hdr| == 72 && |pkt.ext| == 12
  }

  /** `x` and `v` agree on the bits of `care`. */
  predicate Same(x: Octet, v: Octet, care: Octet) {
    (x ^ v) & care == 0
  }

  predicate AllSame(x: seq<Octet>, v: seq<Octet>, care: seq<Octet>)
    requires |x| == |v| == |care|
  {
    forall i :: 0 <= i < |x| ==> Same(x[i], v[i], care[i])
  }

  /** The rule compares the bits that are set in its masks. */
  predicate RuleMatches(fsp: seq<Octet>, pkt: Packet)
    requires |fsp| == SPEC_SIZE && Sized(pkt)
  {
    AllSame(pkt.hdr[..60], fsp[H_U..H_EXT], fsp[M_U..M_EXT]) && RuleExtMatches(fsp, pkt.ext)
  }

  predicate RuleExtMatches(fsp: seq<Octet>, ext: seq<Octet>)
    requires |fsp| == SPEC_SIZE && |ext| == 12
  {
    Extended(fsp) ==> AllSame(ext, fsp[H_EXT..M_U], fsp[M_EXT..M_EXT + 12])
  }

  /** The number a VLAN type, given as its two bytes in memory, has in the filter's data. */
  function EtypeNumber(etype: seq<Octet>): (r: Num)
    requires |etype| == 2
    ensures |r| == 8
  {
    [0, 0, 0, 0] + Swap32([0, 0] + Load(etype, 0, 2))
  }

  /** What a driver takes from a packet to compare with the filter's data, if it follows the
      conversion: VLAN type and user data share the space. */
  function DataRead(fsp: seq<Octet>, ext: seq<Octet>): (r: Num)
    requires |fsp| == SPEC_SIZE && |ext| == 12
    ensures |r| == 8
  {
    if Extended(fsp) && HasEtype(fsp) then EtypeNumber(ext[..2]) else ext[4..]
  }

  /** The filter compares the bits that are clear in its masks; what it compares with its data
      depends on the driver. */
  predicate FilterMatches(f: Filter, pkt: Packet, data: Num)
    requires Shaped(f) && Sized(pkt) && |data| == 8
  {
    AllSame(pkt.hdr, f.hU, Complement(f.mU)) && FilterExtMatches(f, pkt.ext, data)
  }

  predicate FilterExtMatches(f: Filter, ext: seq<Octet>, data: Num)
    requires Shaped(f) && |ext| == 12 && |data| == 8
  {
    && AllSame(ext[2..4], f.vlanTag, Complement(f.vlanTagMask))
    && AllSame(data, f.data, Complement(f.dataMask))
  }

  lemma {:induction false} DontCare(x: Octet, v: Octet, care: Octet)
    requires care == 0
    ensures Same(x, v, care)
  {}

  lemma {:induction false} ComplementTwice(s: seq<Octet>)
    ensures Complement(Complement(s)) == s
  {}

  lemma {:induction false} AllDontCare(x: seq<Octet>, v: seq<Octet>, n: nat)
    requires |x| == |v| == n
    ensures AllSame(x, v, Complement(Ones(n)))
  {}

  /** Both sides read the header alike; the padding of the filter ignores everything. */
  lemma {:induction false} HeadersAgree(hdr: seq<Octet>, h: seq<Octet>, m: seq<Octet>)
    requires |hdr| == 72 && |h| == |m| == 60
    ensures AllSame(hdr, h + Ones(12), Complement(Complement(m) + Ones(12))) <==> AllSame(hdr[..60], h, m)
  {}

  /** A complemented word pair, swapped, is the complement of the bytes in memory. */
  lemma {:induction false} InvertedPair(p: seq<Octet>, o: nat)
    requires o + 8 <= |p|
    ensures Swap32(Complement(Load(p, o, 4))) + Swap32(Complement(Load(p, o + 4, 4))) == Complement(p[o..o + 8])
  {
    InvertedWord(p, o);
    InvertedWord(p, o + 4);
    assert p[o..o + 8] == p[o..o + 4] + p[o + 4..o + 8];
  }

  lemma {:induction false} InvertedWord(p: seq<Octet>, o: nat)
    requires o + 4 <= |p|
    ensures Swap32(Complement(Load(p, o, 4))) == Complement(p[o..o + 4])
  {
    var v := p[o..o + 4];
    SwapIsReversed(Complement(Load(p, o, 4)));
    ReversedComplement(v);
    ReversedTwice(Complement(v));
  }

  lemma {:induction false} ReversedComplement(v: seq<Octet>)
    ensures Complement(Reversed(v)) == Reversed(Complement(v))
  {}

  lemma {:induction false} NetworkPair(p: seq<Octet>, o: nat)
    requires o + 8 <= |p|
    ensures Swap32(Load(p, o, 4)) + Swap32(Load(p, o + 4, 4)) == p[o..o + 8]
  {}

  /** A rule without an extension leaves the filter's tag and data as they were set up, all ones, and
      ignored. */
  lemma {:induction false} PlainFields(fsp: seq<Octet>)
    requires |fsp| == SPEC_SIZE && !Extended(fsp)
    ensures var f := ToFilter(fsp);
      IntOf(f.vlanTag) == IntOf(f.vlanTagMask) == 0xffff && IntOf(f.data) == IntOf(f.dataMask) == 0xffff_ffff_ffff_ffff
  {
    IntOfOnes(2);
    IntOfOnes(8);
    Powers();
  }

  /** The filter's VLAN tag in terms of the rule's bytes. */
  lemma {:induction false} TagFields(fsp: seq<Octet>)
    requires |fsp| == SPEC_SIZE && Extended(fsp)
    ensures ToFilter(fsp).vlanTag == fsp[H_EXT + 2..H_EXT + 4]
    ensures Complement(ToFilter(fsp).vlanTagMask) == fsp[M_EXT + 2..M_EXT + 4]
  {
    NetworkLoad(fsp, H_EXT + 2, 2);
    NetworkLoad(fsp, M_EXT + 2, 2);
    ComplementTwice(fsp[M_EXT + 2..M_EXT + 4]);
  }

  /** Without a VLAN type, the filter's data is the rule's user data. */
  lemma {:induction false} DataFields(fsp: seq<Octet>)
    requires |fsp| == SPEC_SIZE && Extended(fsp) && !HasEtype(fsp)
    ensures ToFilter(fsp).data == fsp[H_EXT + 4..M_U]
    ensures Complement(ToFilter(fsp).dataMask) == fsp[M_EXT + 4..M_EXT + 12]
  {
    NetworkPair(fsp, H_EXT + 4);
    InvertedPair(fsp, M_EXT + 4);
    ComplementTwice(fsp[M_EXT + 4..M_EXT + 12]);
  }

  lemma {:induction false} EtypeLoad(fsp: seq<Octet>, o: nat)
    requires o + 2 <= |fsp|
    ensures Load(fsp[o..o + 2], 0, 2) == Load(fsp, o, 2)
  {
    assert fsp[o..o + 2][0..2] == fsp[o..o + 2];
  }

  /** With a VLAN type, it is the number of that type, and so is the mask. */
  lemma {:induction false} EtypeFields(fsp: seq<Octet>)
    requires |fsp| == SPEC_SIZE && Extended(fsp) && HasEtype(fsp)
    ensures ToFilter(fsp).data == EtypeNumber(fsp[H_EXT..H_EXT + 2])
    ensures Complement(ToFilter(fsp).dataMask) == EtypeNumber(fsp[M_EXT..M_EXT + 2])
  {
    EtypeLoad(fsp, H_EXT);
    EtypeLoad(fsp, M_EXT);
    ComplementTwice(EtypeNumber(fsp[M_EXT..M_EXT + 2]));
  }

  lemma {:induction false} EtypeNumberIs(etype: seq<Octet>)
    requires |etype| == 2
    ensures EtypeNumber(etype) == [0, 0, 0, 0] + (etype + [0, 0])
  {
    var v := [0, 0] + Load(etype, 0, 2);
    SwapIsReversed(v);
    assert Reversed(v) == etype + [0, 0];
  }

  lemma {:induction false} SplitSame(x: seq<Octet>, v: seq<Octet>, c: seq<Octet>, i: nat)
    requires |x| == |v| == |c| && i <= |x|
    ensures AllSame(x, v, c) <==> AllSame(x[..i], v[..i], c[..i]) && AllSame(x[i..], v[i..], c[i..])
  {
    var x1, v1, c1 := x[i..], v[i..], c[i..];
    if AllSame(x[..i], v[..i], c[..i]) && AllSame(x1, v1, c1) {
      forall k | 0 <= k < |x| ensures Same(x[k], v[k], c[k]) {
        if k < i {
          assert Same(x[..i][k], v[..i][k], c[..i][k]);
        } else {
          assert Same(x1[k - i], v1[k - i], c1[k - i]);
        }
      }
    }
    if AllSame(x, v, c) {
      forall k | 0 <= k < |x1| ensures Same(x1[k], v1[k], c1[k]) {
        assert Same(x[i + k], v[i + k], c[i + k]);
      }
    }
  }

  lemma {:induction false} ZeroMask(x: seq<Octet>, v: seq<Octet>, c: seq<Octet>)
    requires |x| == |v| == |c| && IsZero(c)
    ensures AllSame(x, v, c)
  {
    forall k | 0 <= k < |x| ensures Same(x[k], v[k], c[k]) {
      DontCare(x[k], v[k], c[k]);
    }
  }

  lemma {:induction false} PadBehind(x: seq<Octet>, v: seq<Octet>, c: seq<Octet>)
    requires |x| == |v| == |c| == 2
    ensures AllSame(x + [0, 0], v + [0, 0], c + [0, 0]) <==> AllSame(x, v, c)
  {
    var x1, v1, c1 := x + [0, 0], v + [0, 0], c + [0, 0];
    assert x1[..2] == x && v1[..2] == v && c1[..2] == c;
    SplitSame(x1, v1, c1, 2);
    ZeroMask(x1[2..], v1[2..], c1[2..]);
  }

  lemma {:induction false} PadBefore(x: seq<Octet>, v: seq<Octet>, c: seq<Octet>, z: seq<Octet>)
    requires |x| == |v| == |c| && IsZero(z)
    ensures AllSame(z + x, z + v, z + c) <==> AllSame(x, v, c)
  {
    var x1, v1, c1 := z + x, z + v, z + c;
    assert x1[|z|..] == x && v1[|z|..] == v && c1[|z|..] == c;
    SplitSame(x1, v1, c1, |z|);
    assert c1[..|z|] == z;
    ZeroMask(x1[..|z|], v1[..|z|], c1[..|z|]);
  }

  /** Comparing numbers of VLAN types is comparing the types. */
  lemma {:induction false} EtypeSame(x: seq<Octet>, v: seq<Octet>, c: seq<Octet>)
    requires |x| == |v| == |c| == 2
    ensures AllSame(EtypeNumber(x), EtypeNumber(v), EtypeNumber(c)) <==> AllSame(x, v, c)
  {
    EtypeNumberIs(x);
    EtypeNumberIs(v);
    EtypeNumberIs(c);
    PadBefore(x + [0, 0], v + [0, 0], c + [0, 0], [0, 0, 0, 0]);
    PadBehind(x, v, c);
  }

  /** The extension is the VLAN type, the tag and the user data. */
  lemma {:induction false} ExtParts(ext: seq<Octet>, fsp: seq<Octet>)
    requires |ext| == 12 && |fsp| == SPEC_SIZE
    ensures AllSame(ext, fsp[H_EXT..M_U], fsp[M_EXT..M_EXT + 12]) <==>
      && AllSame(ext[..2], fsp[H_EXT..H_EXT + 2], fsp[M_EXT..M_EXT + 2])
      && AllSame(ext[2..4], fsp[H_EXT + 2..H_EXT + 4], fsp[M_EXT + 2..M_EXT + 4])
      && AllSame(ext[4..], fsp[H_EXT + 4..M_U], fsp[M_EXT + 4..M_EXT + 12])
  {
    var v, c := fsp[H_EXT..M_U], fsp[M_EXT..M_EXT + 12];
    SplitSame(ext, v, c, 2);
    SplitSame(ext[2..], v[2..], c[2..], 2);
    ExtSlices(ext, 0);
    assert ext[0..12] == ext;
    ExtSlices(fsp, H_EXT);
    ExtSlices(fsp, M_EXT);
  }

  lemma {:induction false} ExtSlices(p: seq<Octet>, o: nat)
    requires o + 12 <= |p|
    ensures var s := p[o..o + 12];
      s[..2] == p[o..o + 2] && s[2..][..2] == p[o + 2..o + 4] && s[2..][2..] == p[o + 4..o + 12]
  {
    var s := p[o..o + 12];
    SliceOfSlice(p, o, o + 12, 0, 2);
    SliceOfSlice(p, o, o + 12, 2, 4);
    SliceOfSlice(p, o, o + 12, 4, 12);
    SliceOfSlice(s, 2, 12, 0, 2);
    SliceOfSlice(s, 2, 12, 2, 10);
  }

  lemma {:induction false} EtypeBytes(fsp: seq<Octet>)
    requires |fsp| == SPEC_SIZE
    ensures HasEtype(fsp) <==> !IsZero(fsp[M_EXT..M_EXT + 2])
  {
    ZeroLoad(fsp, M_EXT, 2);
  }

  lemma {:induction false} ZeroLoad(p: seq<Octet>, o: nat, n: nat)
    requires o + n <= |p|
    ensures IsZero(Load(p, o, n)) <==> IsZero(p[o..o + n])
  {
    var v, s := Load(p, o, n), p[o..o + n];
    if IsZero(v) {
      forall i | 0 <= i < n ensures s[i] == 0 {
        assert s[i] == v[n - 1 - i];
      }
    }
  }

  lemma {:induction false} UserDataBytes(fsp: seq<Octet>)
    requires |fsp| == SPEC_SIZE
    ensures HasUserData(fsp) <==> !IsZero(fsp[M_EXT + 4..M_EXT + 12])
  {
    ZeroLoad(fsp, M_EXT + 4, 4);
    ZeroLoad(fsp, M_EXT + 8, 4);
    var a, b, s := fsp[M_EXT + 4..M_EXT + 8], fsp[M_EXT + 8..M_EXT + 12], fsp[M_EXT + 4..M_EXT + 12];
    assert s == a + b;
    ZeroJoined(a, b);
  }

  lemma {:induction false} ZeroJoined(a: seq<Octet>, b: seq<Octet>)
    ensures IsZero(a + b) <==> IsZero(a) && IsZero(b)
  {
    var s := a + b;
    if IsZero(s) {
      forall i | 0 <= i < |a| ensures a[i] == 0 {
        assert s[i] == a[i];
      }
      forall i | 0 <= i < |b| ensures b[i] == 0 {
        assert s[|a| + i] == b[i];
      }
    }
  }

  lemma {:induction false} HeaderMeaning(fsp: seq<Octet>, hdr: seq<Octet>)
    requires |fsp| == SPEC_SIZE && |hdr| == 72
    ensures AllSame(hdr, ToFilter(fsp).hU, Complement(ToFilter(fsp).mU)) <==>
      AllSame(hdr[..60], fsp[H_U..H_EXT], fsp[M_U..M_EXT])
  {
    HeadersAgree(hdr, fsp[H_U..H_EXT], fsp[M_U..M_EXT]);
  }

  lemma {:induction false} PlainMeaning(fsp: seq<Octet>, ext: seq<Octet>)
    requires |fsp| == SPEC_SIZE && |ext| == 12 && !Extended(fsp)
    ensures FilterExtMatches(ToFilter(fsp), ext, DataRead(fsp, ext))
  {
    AllDontCare(ext[2..4], Ones(2), 2);
    AllDontCare(ext[4..], Ones(8), 8);
  }

  lemma {:induction false} UserDataMeaning(fsp: seq<Octet>, ext: seq<Octet>)
    requires |fsp| == SPEC_SIZE && |ext| == 12 && Extended(fsp) && !HasEtype(fsp)
    ensures RuleExtMatches(fsp, ext) <==> FilterExtMatches(ToFilter(fsp), ext, DataRead(fsp, ext))
  {
    ExtParts(ext, fsp);
    TagFields(fsp);
    DataFields(fsp);
    EtypeBytes(fsp);
    ZeroMask(ext[..2], fsp[H_EXT..H_EXT + 2], fsp[M_EXT..M_EXT + 2]);
  }

  lemma {:induction false} EtypeMeaning(fsp: seq<Octet>, ext: seq<Octet>)
    requires |fsp| == SPEC_SIZE && |ext| == 12 && Extended(fsp) && HasEtype(fsp) && !HasUserData(fsp)
    ensures RuleExtMatches(fsp, ext) <==> FilterExtMatches(ToFilter(fsp), ext, DataRead(fsp, ext))
  {
    ExtParts(ext, fsp);
    TagFields(fsp);
    EtypeFields(fsp);
    EtypeSame(ext[..2], fsp[H_EXT..H_EXT + 2], fsp[M_EXT..M_EXT + 2]);
    UserDataBytes(fsp);
    ZeroMask(ext[4..], fsp[H_EXT + 4..M_U], fsp[M_EXT + 4..M_EXT + 12]);
  }

  lemma {:induction false} OneKindMeaning(fsp: seq<Octet>, pkt: Packet)
    requires |fsp| == SPEC_SIZE && Sized(pkt) && !(Extended(fsp) && HasUserData(fsp) && HasEtype(fsp))
    ensures RuleMatches(fsp, pkt) <==> FilterMatches(ToFilter(fsp), pkt, DataRead(fsp, pkt.ext))
  {
    HeaderMeaning(fsp, pkt.hdr);
    if !Extended(fsp) {
      PlainMeaning(fsp, pkt.ext);
    } else if HasEtype(fsp) {
      EtypeMeaning(fsp, pkt.ext);
    } else {
      UserDataMeaning(fsp, pkt.ext);
    }
  }

  /** For every rule that can be converted, a packet matches the filter exactly when it matches the
      rule. */
  lemma {:induction false} MeaningPreserved(fsp: seq<Octet>, pkt: Packet)
    requires |fsp| == SPEC_SIZE && Sized(pkt) && Convertible(fsp)
    ensures RuleMatches(fsp, pkt) <==> FilterMatches(ToFilter(fsp), pkt, DataRead(fsp, pkt.ext))
  {
    OneKindMeaning(fsp, pkt);
  }

  // ----- Rules with both kinds of data

  lemma {:induction false} AllSameSelf(x: seq<Octet>, care: seq<Octet>)
    requires |x| == |care|
    ensures AllSame(x, x, care)
  {}

  lemma {:induction false} FlippedDiffers(v: Octet, c: Octet)
    requires c != 0
    ensures !Same(v ^ c, v, c)
  {}

  /** A packet that agrees with the rule but for one byte of user data, which the rule compares. */
  lemma {:induction false} WrongUserData(fsp: seq<Octet>) returns (pkt: Packet)
    requires |fsp| == SPEC_SIZE && Extended(fsp) && HasUserData(fsp)
    ensures Sized(pkt) && !RuleMatches(fsp, pkt)
    ensures pkt.hdr == ToFilter(fsp).hU && pkt.ext[..4] == fsp[H_EXT..H_EXT + 4]
  {
    UserDataBytes(fsp);
    var v, c := fsp[H_EXT + 4..M_U], fsp[M_EXT + 4..M_EXT + 12];
    var i :| 0 <= i < 8 && c[i] != 0;
    var data := v[i := v[i] ^ c[i]];
    pkt := Packet(ToFilter(fsp).hU, fsp[H_EXT..H_EXT + 4] + data);
    FlippedDiffers(v[i], c[i]);
    assert pkt.ext[4..] == data;
    assert !AllSame(pkt.ext[4..], v, c) by {
      assert !Same(data[i], v[i], c[i]);
    }
    ExtParts(pkt.ext, fsp);
  }

  /** Why the conversion refuses rules with both kinds of data: the filter would compare the VLAN
      type only, and take a packet that the rule does not. */
  lemma {:induction false} BothKindsLost(fsp: seq<Octet>) returns (pkt: Packet)
    requires |fsp| == SPEC_SIZE && Extended(fsp) && HasUserData(fsp) && HasEtype(fsp)
    ensures Sized(pkt) && FilterMatches(ToFilter(fsp), pkt, DataRead(fsp, pkt.ext)) && !RuleMatches(fsp, pkt)
  {
    pkt := WrongUserData(fsp);
    var f := ToFilter(fsp);
    TagFields(fsp);
    EtypeFields(fsp);
    assert pkt.ext[..2] == pkt.ext[..4][..2] == fsp[H_EXT..H_EXT + 2];
    assert pkt.ext[2..4] == pkt.ext[..4][2..] == fsp[H_EXT + 2..H_EXT + 4];
    AllSameSelf(f.hU, Complement(f.mU));
    AllSameSelf(f.vlanTag, Complement(f.vlanTagMask));
    AllSameSelf(f.data, Complement(f.dataMask));
  }

  /** The data check is exactly right: the conversion would preserve the meaning of a rule for all
      packets if and only if the rule passes it. */
  lemma {:induction false} MeaningExact(fsp: seq<Octet>)
    requires |fsp| == SPEC_SIZE
    ensures
      (forall pkt :: Sized(pkt) ==>
         (RuleMatches(fsp, pkt) <==> FilterMatches(ToFilter(fsp), pkt, DataRead(fsp, pkt.ext)))) <==>
      !(Extended(fsp) && HasUserData(fsp) && HasEtype(fsp))
  {
    if Extended(fsp) && HasUserData(fsp) && HasEtype(fsp) {
      var pkt := BothKindsLost(fsp);
    } else {
      forall pkt | Sized(pkt)
        ensures RuleMatches(fsp, pkt) <==> FilterMatches(ToFilter(fsp), pkt, DataRead(fsp, pkt.ext))
      {
        OneKindMeaning(fsp, pkt);
      }
    }
  }
}
