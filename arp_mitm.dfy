/**
 * arp_mitm.c: the ARP monitor.  Captured frames are classified by their
 * Ethernet type and ARP header (the packet format of RFC 826); while ARP
 * poisoning is on, every ARP reply teaches the table the sender's IP to MAC
 * mapping, the first mapping seen for an IP being kept.  The monitor also
 * broadcasts ARP who-has requests, modelled as the header field values
 * handed to libnet.
 *
 * The handler reads the frame at fixed offsets with no length check, so it
 * is modelled for frames of at least 42 bytes: a 14-byte Ethernet header,
 * the 8-byte fixed ARP header and the 20-byte Ethernet/IPv4 ARP payload.
 */
module ArpMitm {
  import opened Common
  import opened Context
  import NetUtils

  const EthertypeArp: nat := 0x0806
  const EthertypeIp: nat := 0x0800
  const ArphrdEther: nat := 1
  const ArpopRequest: nat := 1
  const ArpopReply: nat := 2
  /** ETHER_ADDR_LEN and IP_ADDR_LEN. */
  const EtherAddrLen: nat := 6
  const IpAddrLen: nat := 4
  /** LIBNET_PTAG_INITIALIZER: "build a new header" rather than "update this one". */
  const PtagInitializer: int := 0

  /** The smallest frame the handler reads without running past its end. */
  const MinArpFrame: nat := 42

  /** The fields of a captured frame the handler looks at. */
  function EtherType(frame: seq<Byte>): nat
    requires |frame| >= MinArpFrame
  {
    NetU16(frame, 12)
  }

  function ArpHrd(frame: seq<Byte>): nat
    requires |frame| >= MinArpFrame
  {
    NetU16(frame, 14)
  }

  function ArpPro(frame: seq<Byte>): nat
    requires |frame| >= MinArpFrame
  {
    NetU16(frame, 16)
  }

  function ArpOp(frame: seq<Byte>): nat
    requires |frame| >= MinArpFrame
  {
    NetU16(frame, 20)
  }

  /** The sender hardware address `ar_sha`. */
  function SenderMac(frame: seq<Byte>): (mac: seq<Byte>)
    requires |frame| >= MinArpFrame
    ensures |mac| == EtherAddrLen
  {
    frame[22..28]
  }

  /** The sender IP `ar_spa`, loaded as the `uint32_t` table key. */
  function SenderIp(frame: seq<Byte>): (k: nat)
    requires |frame| >= MinArpFrame
    ensures k < U32Modulus
  {
    HostU32(frame, 28)
  }

  /** The target IP `ar_tpa`, as loaded into `daddr`. */
  function TargetIp(frame: seq<Byte>): (k: nat)
    requires |frame| >= MinArpFrame
    ensures k < U32Modulus
  {
    HostU32(frame, 38)
  }

  /** How on_arp_packet_captured sees a frame. */
  datatype ArpFrame =
    | NotArp                                    // Ethernet type is not ARP
    | NotEtherIpv4                              // hardware not Ethernet, or protocol not IPv4
    | Request(spa: nat, tpa: nat)
    | Reply(spa: nat, sha: seq<Byte>)
    | OtherOp(op: nat)

  function Classify(frame: seq<Byte>): (c: ArpFrame)
    requires |frame| >= MinArpFrame
    ensures c.Reply? ==> |c.sha| == EtherAddrLen
  {
    if EtherType(frame) != EthertypeArp then NotArp
    else if ArpHrd(frame) != ArphrdEther || ArpPro(frame) != EthertypeIp then NotEtherIpv4
    else if ArpOp(frame) == ArpopRequest then Request(SenderIp(frame), TargetIp(frame))
    else if ArpOp(frame) == ArpopReply then Reply(SenderIp(frame), SenderMac(frame))
    else OtherOp(ArpOp(frame))
  }

  /**
   * The table after the handler sees `frame`: while poisoning is on, a
   * reply from an IP not yet in the table adds that IP with the sender
   * MAC; every other frame leaves the table as it is.
   */
  function Learn(table: map<nat, seq<Byte>>, poisoning: int, frame: seq<Byte>): map<nat, seq<Byte>>
    requires |frame| >= MinArpFrame
  {
    match Classify(frame)
    case Reply(spa, sha) => if poisoning != 0 && spa !in table then table[spa := sha] else table
    case _ => table
  }

  /** Every MAC address in the table is six bytes long. */
  ghost predicate MacsWellFormed(table: map<nat, seq<Byte>>)
  {
    forall ip :: ip in table ==> |table[ip]| == EtherAddrLen
  }

  /** A frame that is not ARP over Ethernet for IPv4 changes nothing. */
  lemma LearnIgnoresForeignFrames(table: map<nat, seq<Byte>>, poisoning: int, frame: seq<Byte>)
    requires |frame| >= MinArpFrame
    requires EtherType(frame) != EthertypeArp || ArpHrd(frame) != ArphrdEther || ArpPro(frame) != EthertypeIp
    ensures Learn(table, poisoning, frame) == table
  {
  }

  /** With poisoning off, no frame changes the table. */
  lemma LearnNeedsPoisoning(table: map<nat, seq<Byte>>, frame: seq<Byte>)
    requires |frame| >= MinArpFrame
    ensures Learn(table, 0, frame) == table
  {
  }

  /** Requests, and any opcode other than a reply, never change the table. */
  lemma LearnIgnoresRequests(table: map<nat, seq<Byte>>, poisoning: int, frame: seq<Byte>)
    requires |frame| >= MinArpFrame && ArpOp(frame) != ArpopReply
    ensures Learn(table, poisoning, frame) == table
  {
  }

  /**
   * A reply seen while poisoning, from an IP not in the table, adds
   * exactly that IP with the sender MAC; a reply from an IP already in
   * the table leaves its MAC as first seen.
   */
  lemma LearnReply(table: map<nat, seq<Byte>>, poisoning: int, frame: seq<Byte>)
    requires |frame| >= MinArpFrame && poisoning != 0
    requires EtherType(frame) == EthertypeArp && ArpHrd(frame) == ArphrdEther && ArpPro(frame) == EthertypeIp
    requires ArpOp(frame) == ArpopReply
    ensures SenderIp(frame) !in table ==> Learn(table, poisoning, frame) == table[SenderIp(frame) := frame[22..28]]
    ensures SenderIp(frame) in table ==> Learn(table, poisoning, frame) == table
  {
  }

  /** The table after the handler has seen a run of frames. */
  function LearnAll(table: map<nat, seq<Byte>>, poisoning: int, frames: seq<seq<Byte>>): map<nat, seq<Byte>>
    requires forall i :: 0 <= i < |frames| ==> |frames[i]| >= MinArpFrame
    decreases |frames|
  {
    if frames == [] then table else LearnAll(Learn(table, poisoning, frames[0]), poisoning, frames[1..])
  }

  /**
   * Over any run of frames the table only grows, a learnt MAC is never
   * replaced, and every MAC stays six bytes long.
   */
  lemma {:induction false} LearnAllFirstSeenWins(table: map<nat, seq<Byte>>, poisoning: int, frames: seq<seq<Byte>>)
    requires forall i :: 0 <= i < |frames| ==> |frames[i]| >= MinArpFrame
    requires MacsWellFormed(table)
    ensures MacsWellFormed(LearnAll(table, poisoning, frames))
    ensures forall ip :: ip in table ==> ip in LearnAll(table, poisoning, frames) && LearnAll(table, poisoning, frames)[ip] == table[ip]
    ensures forall ip :: ip in LearnAll(table, poisoning, frames) && ip !in table ==>
              exists i :: 0 <= i < |frames| && Classify(frames[i]) == Reply(ip, LearnAll(table, poisoning, frames)[ip])
    decreases |frames|
  {
    if frames != [] {
      var next := Learn(table, poisoning, frames[0]);
      var rest := frames[1..];
      LearnAllFirstSeenWins(next, poisoning, rest);
      var last := LearnAll(next, poisoning, rest);
      assert last == LearnAll(table, poisoning, frames);
      forall ip | ip in last && ip !in table
        ensures exists i :: 0 <= i < |frames| && Classify(frames[i]) == Reply(ip, last[ip])
      {
        if ip in next {
          assert Classify(frames[0]) == Reply(ip, last[ip]);
        } else {
          var i :| 0 <= i < |rest| && Classify(rest[i]) == Reply(ip, last[ip]);
          assert frames[i + 1] == rest[i];
        }
      }
    }
  }

  /**
   * on_arp_packet_captured: classifies the frame and, while poisoning is
   * on, records a reply's sender in the table unless its IP is there.
   * `stored` is whether allocating and inserting the new entry succeeds;
   * when it does not, the handler gives up and the table is unchanged.
   */
  method OnArpPacketCaptured(ctx: ResetterContext, frame: seq<Byte>, stored: bool)
    requires |frame| >= MinArpFrame
    modifies ctx`arpTable
    ensures ctx.arpTable == if stored then Learn(old(ctx.arpTable), ctx.arpPoisoning, frame) else old(ctx.arpTable)
  {
    if EtherType(frame) != EthertypeArp {
      return;
    }
    if ArpHrd(frame) != ArphrdEther || ArpPro(frame) != EthertypeIp {
      return;
    }
    var saddr := SenderIp(frame);
    if ctx.arpPoisoning == 0 {
      return;
    }
    var op := ArpOp(frame);
    if op == ArpopReply {
      if saddr !in ctx.arpTable && stored {
        ctx.arpTable := ctx.arpTable[saddr := SenderMac(frame)];
      }
    }
  }

  /** The width of the `uint32_t` keys, and of the unsigned difference key_cmp takes. */
  const U32Modulus: nat := 0x1_0000_0000

  /**
   * arp_table_key_cmp: the `uint32_t` difference of the keys, returned as
   * an `int` (two's complement).
   */
  function KeyCmp(a: nat, b: nat): int
    requires a < U32Modulus && b < U32Modulus
  {
    var d := (a - b) % U32Modulus;
    if d < U32Modulus / 2 then d else d - U32Modulus
  }

  /** Keys compare equal exactly when they are the same address. */
  lemma KeyCmpZero(a: nat, b: nat)
    requires a < U32Modulus && b < U32Modulus
    ensures KeyCmp(a, b) == 0 <==> a == b
  {
    if a > b {
      assert (a - b) % U32Modulus == a - b;
    } else if a < b {
      assert (a - b) % U32Modulus == U32Modulus - (b - a);
    }
  }

  /** arp_table_key_hash: the key modulo `ht_size - 1`. */
  function KeyHash(key: nat, size: nat): (h: nat)
    requires size >= 2
    ensures h < size - 1
  {
    key % (size - 1)
  }

  /**
   * unpoison: turns poisoning off.  The table is listed but not changed:
   * restoring the poisoned hosts is not implemented.
   */
  method Unpoison(ctx: ResetterContext)
    modifies ctx`arpPoisoning
    ensures ctx.arpPoisoning == 0
  {
    ctx.arpPoisoning := 0;
  }

  /** The header field values send_arp_whohas_packet hands to libnet. */
  datatype WhoHas = WhoHas(
    ethDst: seq<Byte>, ethSrc: seq<Byte>, ethType: nat,
    hrd: nat, pro: nat, hln: nat, pln: nat, op: nat,
    sha: seq<Byte>, spa: seq<Byte>, tha: seq<Byte>, tpa: seq<Byte>)

  const Broadcast: seq<Byte> := [0xFF, 0xFF, 0xFF, 0xFF, 0xFF, 0xFF]

  /**
   * The who-has request for `target`: broadcast from the local MAC and IP,
   * asking for `target`'s hardware address.
   */
  function WhoHasFor(localMac: seq<Byte>, localIp: seq<Byte>, target: seq<Byte>): WhoHas
  {
    WhoHas(Broadcast, localMac, EthertypeArp,
           ArphrdEther, EthertypeIp, EtherAddrLen, IpAddrLen, ArpopRequest,
           localMac, localIp, Broadcast, target)
  }

  /** A captured frame whose headers hold the values of `w`. */
  predicate Carries(frame: seq<Byte>, w: WhoHas)
    requires |frame| >= MinArpFrame
  {
    && EtherType(frame) == w.ethType && ArpHrd(frame) == w.hrd
    && ArpPro(frame) == w.pro && ArpOp(frame) == w.op
  }

  /**
   * A who-has request is an ARP request for Ethernet and IPv4, so when the
   * monitor captures its own request it is classified as one and learns
   * nothing from it.
   */
  lemma OwnWhoHasNotLearned(localMac: seq<Byte>, localIp: seq<Byte>, target: seq<Byte>,
                            frame: seq<Byte>, table: map<nat, seq<Byte>>, poisoning: int)
    requires |frame| >= MinArpFrame && Carries(frame, WhoHasFor(localMac, localIp, target))
    ensures Classify(frame).Request?
    ensures Learn(table, poisoning, frame) == table
  {
  }

  /**
   * The function-static state of send_arp_whohas_packet: the two libnet
   * tags and the cached local MAC address.
   */
  class WhoHasSender
  {
    var arpTag: int
    var ethTag: int
    var localMac: Option<seq<Byte>>

    constructor ()
      ensures arpTag == PtagInitializer && ethTag == PtagInitializer && localMac == None
    {
      arpTag := PtagInitializer;
      ethTag := PtagInitializer;
      localMac := None;
    }

    /**
     * send_arp_whohas_packet.  libnet is a parameter: `localIp` and
     * `hwaddr` are what it reports for the device, `arpTag`, `ethTag` and
     * `written` what its build and write calls return (-1 on failure), and
     * `now` the time.  The result is 0 and the request sent, or -1.
     * Failing to get the local MAC leaves the tags alone; any failure
     * after that resets both tags.
     */
    method Send(ctx: ResetterContext, target: seq<Byte>, localIp: seq<Byte>, hwaddr: Option<seq<Byte>>,
                arpTagResult: int, ethTagResult: int, written: int, now: nat)
      returns (r: int, sent: Option<WhoHas>)
      requires ctx.libnetLastStatsAt < NetUtils.ULongModulus && now < NetUtils.ULongModulus
      modifies this, ctx`libnetLastStatsAt
      ensures r == 0 || r == -1
      ensures localMac == if old(localMac).None? then hwaddr else old(localMac)
      ensures localMac.None? ==> r == -1 && arpTag == old(arpTag) && ethTag == old(ethTag)
      ensures localMac.Some? && (arpTagResult == -1 || ethTagResult == -1 || written == -1) ==>
                r == -1 && arpTag == PtagInitializer && ethTag == PtagInitializer
      ensures r == 0 <==> localMac.Some? && arpTagResult != -1 && ethTagResult != -1 && written != -1
      ensures r == 0 ==> arpTag == arpTagResult && ethTag == ethTagResult
      ensures sent == if r == 0 then Some(WhoHasFor(localMac.value, localIp, target)) else None
      ensures r == 0 ==> NetUtils.Throttle(old(ctx.libnetLastStatsAt), now).lastStatsAt == ctx.libnetLastStatsAt
      ensures r != 0 ==> ctx.libnetLastStatsAt == old(ctx.libnetLastStatsAt)
    {
      sent := None;
      if localMac.None? {
        localMac := hwaddr;
        if localMac.None? {
          return -1, None;
        }
      }
      arpTag := arpTagResult;
      if arpTag == -1 {
        arpTag, ethTag := PtagInitializer, PtagInitializer;
        return -1, None;
      }
      ethTag := ethTagResult;
      if ethTag == -1 {
        arpTag, ethTag := PtagInitializer, PtagInitializer;
        return -1, None;
      }
      if written == -1 {
        arpTag, ethTag := PtagInitializer, PtagInitializer;
        return -1, None;
      }
      var _ := NetUtils.MaybePrintLibnetStats(ctx, now);
      r, sent := 0, Some(WhoHasFor(localMac.value, localIp, target));
    }
  }
}
