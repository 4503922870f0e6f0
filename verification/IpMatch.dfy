/** The IP part of a packet filter rule: how a rule's address block is compared
    with a packet, and the all-zero test that mark_source_chains relies on. */
module IpMatch {
  /** IFNAMSIZ / sizeof(unsigned long): interface names are compared word by word. */
  const IFACE_WORDS := 4

  type Iface = s: seq<bv32> | |s| == IFACE_WORDS witness [0, 0, 0, 0]

  const IPT_F_FRAG: bv8 := 0x01
  const IPT_INV_VIA_IN: bv8 := 0x01
  const IPT_INV_VIA_OUT: bv8 := 0x02
  const IPT_INV_SRCIP: bv8 := 0x08
  const IPT_INV_DSTIP: bv8 := 0x10
  const IPT_INV_FRAG: bv8 := 0x20
  const IPT_INV_PROTO: bv8 := 0x40

  /** struct ipt_ip */
  datatype IpInfo = IpInfo(
    src: bv32, dst: bv32, smsk: bv32, dmsk: bv32,
    iniface: Iface, outiface: Iface, inifaceMask: Iface, outifaceMask: Iface,
    proto: bv16, flags: bv8, invflags: bv8)

  /** What the rule engine can see of a packet; `payload` stands for everything
      that only matches and targets look at. */
  datatype Packet = Packet(
    saddr: bv32, daddr: bv32, protocol: bv16, fragOffset: nat,
    totLen: nat, nfcache: bv32, payload: seq<bv8>)

  /** FWINV: invert a mismatch when the rule's inversion flag is set. */
  predicate Inverted(mismatch: bool, ip: IpInfo, flag: bv8) {
    mismatch != (ip.invflags & flag != 0)
  }

  /** The bits in which two words differ, under a mask */
  function Difference(x: bv32, y: bv32, mask: bv32): (d: bv32)
    ensures d == 0 <==> x & mask == y & mask
  {
    (x ^ y) & mask
  }

  /** The bits in which word i of a device name differs from the rule's, under the mask. */
  function MaskedDifference(dev: Iface, iface: Iface, mask: Iface, i: nat): (d: bv32)
    requires i < IFACE_WORDS
    ensures d == 0 <==> dev[i] & mask[i] == iface[i] & mask[i]
  {
    hide Difference;
    Difference(dev[i], iface[i], mask[i])
  }

  predicate IfaceDiffers(dev: Iface, iface: Iface, mask: Iface) {
    exists i :: 0 <= i < IFACE_WORDS && MaskedDifference(dev, iface, mask, i) != 0
  }

  lemma OrIsZero(x: bv32, y: bv32)
    ensures x | y == 0 <==> x == 0 && y == 0
  {
  }

  /** The unrolled word loop over an interface name. */
  method IfaceDifference(dev: Iface, iface: Iface, mask: Iface) returns (ret: bv32)
    ensures ret != 0 <==> IfaceDiffers(dev, iface, mask)
  {
    ret := 0;
    for i := 0 to IFACE_WORDS
      invariant ret != 0 <==> exists j :: 0 <= j < i && MaskedDifference(dev, iface, mask, j) != 0
    {
      var word := MaskedDifference(dev, iface, mask, i);
      OrIsZero(ret, word);
      ret := ret | word;
    }
  }

  // The six tests. Each contract says which field of the packet is compared with which of the
  // rule, under which mask, and which bit of invflags turns the test round.

  predicate SourceMismatch(pkt: Packet, ip: IpInfo): (b: bool)
    ensures b <==> (pkt.saddr & ip.smsk == ip.src <==> ip.invflags & 0x08 != 0)
  {
    Turned(pkt.saddr & ip.smsk != ip.src, ip, IPT_INV_SRCIP);
    Inverted(pkt.saddr & ip.smsk != ip.src, ip, IPT_INV_SRCIP)
  }

  predicate DestMismatch(pkt: Packet, ip: IpInfo): (b: bool)
    ensures b <==> (pkt.daddr & ip.dmsk == ip.dst <==> ip.invflags & 0x10 != 0)
  {
    Turned(pkt.daddr & ip.dmsk != ip.dst, ip, IPT_INV_DSTIP);
    Inverted(pkt.daddr & ip.dmsk != ip.dst, ip, IPT_INV_DSTIP)
  }

  predicate InDeviceMismatch(differs: bool, ip: IpInfo): (b: bool)
    ensures b <==> (!differs <==> ip.invflags & 0x01 != 0)
  {
    Inverted(differs, ip, IPT_INV_VIA_IN)
  }

  predicate OutDeviceMismatch(differs: bool, ip: IpInfo): (b: bool)
    ensures b <==> (!differs <==> ip.invflags & 0x02 != 0)
  {
    Inverted(differs, ip, IPT_INV_VIA_OUT)
  }

  predicate ProtocolMismatch(pkt: Packet, ip: IpInfo): (b: bool)
    ensures b <==> ip.proto != 0 && (pkt.protocol == ip.proto <==> ip.invflags & 0x40 != 0)
  {
    ip.proto != 0 && Inverted(pkt.protocol != ip.proto, ip, IPT_INV_PROTO)
  }

  /** `offset` is the fragment offset as it was when the traversal began. */
  predicate FragmentMismatch(offset: nat, ip: IpInfo): (b: bool)
    ensures b <==> ((ip.flags & 0x01 == 0 || offset != 0) <==> ip.invflags & 0x20 != 0)
  {
    Inverted(ip.flags & IPT_F_FRAG != 0 && offset == 0, ip, IPT_INV_FRAG)
  }

  lemma Turned(mismatch: bool, ip: IpInfo, flag: bv8)
    ensures Inverted(mismatch, ip, flag) <==> (!mismatch <==> ip.invflags & flag != 0)
  {
  }

  predicate Matches(pkt: Packet, indev: Iface, outdev: Iface, ip: IpInfo, offset: nat) {
    && !SourceMismatch(pkt, ip)
    && !DestMismatch(pkt, ip)
    && !InDeviceMismatch(IfaceDiffers(indev, ip.iniface, ip.inifaceMask), ip)
    && !OutDeviceMismatch(IfaceDiffers(outdev, ip.outiface, ip.outifaceMask), ip)
    && !ProtocolMismatch(pkt, ip)
    && !FragmentMismatch(offset, ip)
  }

  /** ip_packet_match, test by test as the kernel orders them: a packet passes exactly if it
      fails none of the six tests. */
  method IpPacketMatch(pkt: Packet, indev: Iface, outdev: Iface, ip: IpInfo, offset: nat) returns (matched: bool)
    ensures matched == Matches(pkt, indev, outdev, ip, offset)
    ensures matched <==>
      && !SourceMismatch(pkt, ip) && !DestMismatch(pkt, ip)
      && !InDeviceMismatch(exists i :: 0 <= i < 4 && MaskedDifference(indev, ip.iniface, ip.inifaceMask, i) != 0, ip)
      && !OutDeviceMismatch(exists i :: 0 <= i < 4 && MaskedDifference(outdev, ip.outiface, ip.outifaceMask, i) != 0, ip)
      && !ProtocolMismatch(pkt, ip) && !FragmentMismatch(offset, ip)
  {
    hide SourceMismatch, DestMismatch, InDeviceMismatch, OutDeviceMismatch, ProtocolMismatch, FragmentMismatch, MaskedDifference;
    if SourceMismatch(pkt, ip) || DestMismatch(pkt, ip) {
      return false;
    }
    var inDiff := IfaceDifference(indev, ip.iniface, ip.inifaceMask);
    if InDeviceMismatch(inDiff != 0, ip) {
      return false;
    }
    var outDiff := IfaceDifference(outdev, ip.outiface, ip.outifaceMask);
    if OutDeviceMismatch(outDiff != 0, ip) {
      return false;
    }
    if ProtocolMismatch(pkt, ip) || FragmentMismatch(offset, ip) {
      return false;
    }
    return true;
  }

  const NO_IFACE: Iface := [0, 0, 0, 0]

  /** unconditional: every word of the block is zero. */
  predicate Unconditional(ip: IpInfo) {
    ip == IpInfo(0, 0, 0, 0, NO_IFACE, NO_IFACE, NO_IFACE, NO_IFACE, 0, 0, 0)
  }

  /** An all-zero block is matched by every packet on every pair of devices. */
  lemma UnconditionalMatchesAll(pkt: Packet, indev: Iface, outdev: Iface, ip: IpInfo, offset: nat)
    requires Unconditional(ip)
    ensures Matches(pkt, indev, outdev, ip, offset)
  {
    hide Inverted, IfaceDiffers;
    NoMask(indev, ip.iniface, ip.inifaceMask);
    NoMask(outdev, ip.outiface, ip.outifaceMask);
    NothingMasked(pkt.saddr);
    NothingMasked(pkt.daddr);
  }

  lemma NoMask(dev: Iface, iface: Iface, mask: Iface)
    requires mask == NO_IFACE
    ensures !IfaceDiffers(dev, iface, mask)
  {
    forall i | 0 <= i < IFACE_WORDS ensures MaskedDifference(dev, iface, mask, i) == 0 {
      NothingMasked(dev[i]);
      NothingMasked(iface[i]);
    }
  }

  lemma NothingMasked(x: bv32)
    ensures x & 0 == 0
  {
  }
}
