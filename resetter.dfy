/**
 * resetter.c: the TCP resetter.  It captures TCP segments on the wire and
 * answers every one that carries SYN or ACK (and, when a target port is
 * set, involves that port) with a spoofed RST that goes back to the
 * segment's sender, claims to come from its receiver, and carries as its
 * sequence number the acknowledgement number the sender just sent.
 *
 * The IPv4 header follows section 3.1 of RFC 791 and the TCP header
 * section 3.1 of RFC 9293.  The handler assumes a 14-byte Ethernet header
 * and a 20-byte IPv4 header with no options, and reads the frame with no
 * length check, so it is modelled for frames of at least 54 bytes.
 */
module Resetter {
  import opened Common
  import opened Context
  import NetUtils

  // ---------------------------------------------------------------------
  // Capture filters
  // ---------------------------------------------------------------------

  /** Prepended to every filter so that only segments with ACK set are captured. */
  const FilterPrefix: string := "( tcp[tcpflags] & tcp-ack != 0 ) && "
  /** Used when no target narrows the capture: all TCP traffic. */
  const DefaultFilter: string := "tcp"
  /** The largest `uint16_t` plus one: target ports are below it. */
  const PortModulus: nat := 0x1_0000

  /** What `snprintf` leaves in a buffer of `n + 1` bytes: at most `n` characters. */
  function Truncate(s: string, n: nat): (t: string)
    ensures |t| <= n && t <= s
    ensures |s| <= n ==> t == s
  {
    if |s| <= n then s else s[..n]
  }

  /** The target expression start_resetter_thread formats before truncation. */
  function TargetExpression(targetIp: Option<string>, targetPort: nat): string
  {
    if targetIp.Some? && targetPort > 0 then
      "( host " + targetIp.value + " && tcp port " + NetUtils.Decimal(targetPort) + " )"
    else if targetIp.Some? then "host " + targetIp.value
    else if targetPort > 0 then "tcp port " + NetUtils.Decimal(targetPort)
    else ""
  }

  /**
   * The filter start_resetter_thread leaves in `filter_string`: the
   * target expression, cut to fit the 1000-byte buffer with its NUL.
   */
  function TargetFilter(targetIp: Option<string>, targetPort: nat): (f: string)
    ensures |f| < FilterCapacity
    ensures f <= TargetExpression(targetIp, targetPort)
  {
    Truncate(TargetExpression(targetIp, targetPort), FilterCapacity - 1)
  }

  lemma DecimalAtMostFiveDigits(n: nat)
    requires n < 100000
    ensures |NetUtils.Decimal(n)| <= 5
  {
    if n >= 10 {
      assert |NetUtils.Decimal(n / 100)| <= 3;
      if n >= 100 {
        assert |NetUtils.Decimal(n / 10)| <= 4;
      }
    }
  }

  /** With neither a target IP nor a target port, the filter is empty. */
  lemma TargetFilterNoTarget()
    ensures TargetFilter(None, 0) == ""
  {
  }

  /**
   * With only a port, the filter is `tcp port P`, and the port can be
   * read back from its digits.
   */
  lemma TargetFilterPortOnly(targetPort: nat)
    requires 0 < targetPort < PortModulus
    ensures var f := TargetFilter(None, targetPort);
      && |f| > 9 && f[..9] == "tcp port "
      && NetUtils.AllDigits(f[9..]) && NetUtils.DigitsValue(f[9..]) == targetPort
  {
    DecimalAtMostFiveDigits(targetPort);
    NetUtils.DecimalRoundTrip(targetPort);
    var f := TargetFilter(None, targetPort);
    assert f == "tcp port " + NetUtils.Decimal(targetPort);
    assert f[9..] == NetUtils.Decimal(targetPort);
  }

  /**
   * With only an IP, the filter is `host IP` when that fits the buffer,
   * and otherwise the first 999 characters of it.
   */
  lemma TargetFilterHostOnly(ip: string)
    ensures var f := TargetFilter(Some(ip), 0);
      && f[..5] == "host "
      && (|ip| <= FilterCapacity - 6 ==> f[5..] == ip)
      && (|ip| > FilterCapacity - 6 ==> |f| == FilterCapacity - 1 && f[5..] == ip[..FilterCapacity - 6])
  {
    var e := TargetExpression(Some(ip), 0);
    assert e == "host " + ip;
    assert e[5..] == ip;
  }

  /**
   * With both, the filter is `( host IP && tcp port P )` when it fits, and
   * the IP and port can be read back from it.
   */
  lemma TargetFilterHostAndPort(ip: string, targetPort: nat)
    requires 0 < targetPort < PortModulus
    requires |ip| <= FilterCapacity - 1 - 27
    ensures var f := TargetFilter(Some(ip), targetPort);
      var p := |f| - 2;
      && f[..7] == "( host "
      && f[7..7 + |ip|] == ip
      && f[7 + |ip|..7 + |ip| + 13] == " && tcp port "
      && 7 + |ip| + 13 < p && f[p..] == " )"
      && NetUtils.AllDigits(f[7 + |ip| + 13..p])
      && NetUtils.DigitsValue(f[7 + |ip| + 13..p]) == targetPort
  {
    DecimalAtMostFiveDigits(targetPort);
    NetUtils.DecimalRoundTrip(targetPort);
    var d := NetUtils.Decimal(targetPort);
    var e := TargetExpression(Some(ip), targetPort);
    assert e == "( host " + ip + " && tcp port " + d + " )";
    var f := TargetFilter(Some(ip), targetPort);
    assert f == "( host " + ip + " && tcp port " + d + " )";
    var q := 7 + |ip| + 13;
    assert f[7..7 + |ip|] == ip;
    assert f[q..|f| - 2] == d;
  }

  /** The filter expression `_update_pcap_filter` builds around `current`. */
  function FilterSuffix(current: string): string
  {
    if current == "" then DefaultFilter else current
  }

  function ComposedFilter(current: string): string
  {
    FilterPrefix + FilterSuffix(current)
  }

  /**
   * `strncpy` of a NUL-terminated `src` into an `n`-byte buffer: the copy
   * is terminated only if `src` is shorter than the buffer.
   */
  function StrNCopy(src: string, n: nat): (b: FilterBuffer)
    ensures b.Some? <==> |src| < n
    ensures b.Some? ==> b.value == src
  {
    if |src| < n then Some(src) else None
  }

  /** `_update_pcap_filter` as written: the composed filter copied with `strncpy`. */
  function UpdatedFilterAsWritten(current: string): FilterBuffer
  {
    StrNCopy(ComposedFilter(current), FilterCapacity)
  }

  /** `_update_pcap_filter` keeping the buffer terminated: the composed filter cut to 999 characters. */
  function UpdatedFilter(current: string): string
  {
    Truncate(ComposedFilter(current), FilterCapacity - 1)
  }

  /**
   * The updated filter always fits its buffer, starts with the ACK
   * condition, and when the composition fits, the previous filter (or
   * `tcp` in place of an empty one) follows it intact.
   */
  lemma UpdatedFilterShape(current: string)
    ensures var f := UpdatedFilter(current);
      && |f| < FilterCapacity
      && f[..|FilterPrefix|] == FilterPrefix
      && (|current| < FilterCapacity - |FilterPrefix| ==> f[|FilterPrefix|..] == FilterSuffix(current))
      && (current == "" ==> f == FilterPrefix + DefaultFilter)
  {
    var c := ComposedFilter(current);
    assert c[..|FilterPrefix|] == FilterPrefix;
    assert c[|FilterPrefix|..] == FilterSuffix(current);
  }

  /** Where the composition fits, the code as written agrees with the corrected one. */
  lemma UpdatedFilterAsWrittenFits(current: string)
    requires |current| < FilterCapacity - |FilterPrefix|
    ensures UpdatedFilterAsWritten(current) == Some(UpdatedFilter(current))
  {
  }

  /**
   * A filter of 964 characters or more leaves `filter_string` with no
   * terminating NUL.
   */
  lemma UpdatedFilterAsWrittenUnterminated(current: string)
    requires |current| >= FilterCapacity - |FilterPrefix|
    ensures UpdatedFilterAsWritten(current) == None
  {
  }

  /**
   * start_resetter_thread reaches that case: a target IP argument of 959
   * characters or more gives a 964-character target filter.
   */
  lemma LongTargetIpUnterminated(ip: string)
    requires |ip| >= FilterCapacity - |FilterPrefix| - 5
    ensures UpdatedFilterAsWritten(TargetFilter(Some(ip), 0)) == None
  {
    TargetFilterHostOnly(ip);
    UpdatedFilterAsWrittenUnterminated(TargetFilter(Some(ip), 0));
  }

  /**
   * `_update_pcap_filter` as written.  `allocOk` is whether allocating the
   * temporary string succeeds; when it does not the result is -1 and the
   * filter is kept.  `strlen` of the current filter needs it terminated.
   */
  method UpdatePcapFilter(ctx: ResetterContext, allocOk: bool) returns (r: int)
    requires ctx.filterString.Some?
    modifies ctx`filterString
    ensures allocOk ==> r == 0 && ctx.filterString == UpdatedFilterAsWritten(old(ctx.filterString.value))
    ensures !allocOk ==> r == -1 && ctx.filterString == old(ctx.filterString)
  {
    if !allocOk {
      return -1;
    }
    var suffix := ctx.filterString.value;
    if |suffix| == 0 {
      suffix := DefaultFilter;
    }
    var composed := FilterPrefix + suffix;
    if |composed| < FilterCapacity {
      ctx.filterString := Some(composed);
    } else {
      ctx.filterString := None;
    }
    r := 0;
  }

  /** `_update_pcap_filter` with the copy cut to fit the buffer and its NUL. */
  method UpdatePcapFilterTerminated(ctx: ResetterContext, allocOk: bool) returns (r: int)
    requires ctx.filterString.Some?
    modifies ctx`filterString
    ensures allocOk ==> r == 0 && ctx.filterString == Some(UpdatedFilter(old(ctx.filterString.value)))
    ensures !allocOk ==> r == -1 && ctx.filterString == old(ctx.filterString)
  {
    if !allocOk {
      return -1;
    }
    var suffix := ctx.filterString.value;
    if |suffix| == 0 {
      suffix := DefaultFilter;
    }
    var composed := FilterPrefix + suffix;
    if |composed| < FilterCapacity {
      ctx.filterString := Some(composed);
    } else {
      ctx.filterString := Some(composed[..FilterCapacity - 1]);
    }
    r := 0;
  }

  /**
   * start_resetter_thread up to its capture filter: the context is
   * cleared, the target filter formatted and the target port stored, and
   * the filter then extended with the ACK condition.
   */
  method StartResetterThread(ctx: ResetterContext, targetIp: Option<string>, targetPort: nat, allocOk: bool)
    requires targetPort < PortModulus
    modifies ctx
    ensures ctx.targetPort == targetPort
    ensures ctx.filterString == if allocOk then UpdatedFilterAsWritten(TargetFilter(targetIp, targetPort))
                                else Some(TargetFilter(targetIp, targetPort))
    ensures ctx.arpPoisoning == 0 && ctx.arpTable == map[]
    ensures !ctx.pcapOpen && !ctx.libnetOpen && ctx.libnetLastStatsAt == 0
  {
    ctx.filterString := Some("");
    ctx.arpPoisoning := 0;
    ctx.arpTable := map[];
    ctx.pcapOpen := false;
    ctx.libnetOpen := false;
    ctx.libnetLastStatsAt := 0;
    if targetIp.Some? || targetPort > 0 {
      ctx.filterString := Some(TargetFilter(targetIp, targetPort));
    }
    ctx.targetPort := targetPort;
    var _ := UpdatePcapFilter(ctx, allocOk);
  }

  /**
   * A fresh context started with a long target IP and no port, as main.c
   * passes the command line's address unchecked: the filter is left
   * without its terminating NUL.
   */
  method StartWithLongTargetIp(ip: string) returns (ctx: ResetterContext)
    requires |ip| >= FilterCapacity - |FilterPrefix| - 5
    ensures ctx.filterString == None && ctx.targetPort == 0
  {
    ctx := new ResetterContext();
    StartResetterThread(ctx, Some(ip), 0, true);
    LongTargetIpUnterminated(ip);
  }

  // ---------------------------------------------------------------------
  // The capture handler
  // ---------------------------------------------------------------------

  /** The smallest frame the handler reads without running past its end. */
  const MinTcpFrame: nat := 54

  /** TCP control bits. */
  const ThFin: nat := 0x01
  const ThSyn: nat := 0x02
  const ThRst: nat := 0x04
  const ThAck: nat := 0x10

  /** The IPv4 source and destination, as the four bytes on the wire. */
  function SourceAddr(frame: seq<Byte>): (a: seq<Byte>)
    requires |frame| >= MinTcpFrame
    ensures |a| == 4
  {
    frame[26..30]
  }

  function DestAddr(frame: seq<Byte>): (a: seq<Byte>)
    requires |frame| >= MinTcpFrame
    ensures |a| == 4
  {
    frame[30..34]
  }

  function SourcePort(frame: seq<Byte>): nat
    requires |frame| >= MinTcpFrame
  {
    NetU16(frame, 34)
  }

  function DestPort(frame: seq<Byte>): nat
    requires |frame| >= MinTcpFrame
  {
    NetU16(frame, 36)
  }

  function AckNumber(frame: seq<Byte>): nat
    requires |frame| >= MinTcpFrame
  {
    NetU32(frame, 42)
  }

  function Flags(frame: seq<Byte>): nat
    requires |frame| >= MinTcpFrame
  {
    frame[47] as nat
  }

  /** Whether `flags` has the control bit `bit` (a power of two) set. */
  predicate HasFlag(flags: nat, bit: nat)
    requires bit > 0
  {
    (flags / bit) % 2 == 1
  }

  /** The flag test: `th_flags & (TH_SYN | TH_ACK)` is non-zero. */
  predicate SynOrAck(flags: nat)
  {
    HasFlag(flags, ThSyn) || HasFlag(flags, ThAck)
  }

  /** The port test: no target port, or the segment's source or destination port is it. */
  predicate PortMatches(targetPort: nat, sourcePort: nat, destPort: nat)
  {
    targetPort == 0 || destPort == targetPort || sourcePort == targetPort
  }

  /** The arguments `_on_synack_packet_captured` passes to send_reset_packet. */
  datatype ResetRequest = ResetRequest(
    srcAddr: seq<Byte>, srcPort: nat, dstAddr: seq<Byte>, dstPort: nat, seqNumber: nat)

  /**
   * The handler's decision: `None` when the segment is dropped, otherwise
   * the reset to send, with the segment's endpoints swapped and its
   * acknowledgement number as the sequence number.
   */
  function OnSynAck(targetPort: nat, frame: seq<Byte>): Option<ResetRequest>
    requires |frame| >= MinTcpFrame
  {
    if !SynOrAck(Flags(frame)) then None
    else if targetPort > 0 && DestPort(frame) != targetPort && SourcePort(frame) != targetPort then None
    else Some(ResetRequest(DestAddr(frame), DestPort(frame), SourceAddr(frame), SourcePort(frame), AckNumber(frame)))
  }

  /** The flag test in terms of the byte's low bits: bit 1 (SYN) or bit 4 (ACK). */
  lemma SynOrAckBits(flags: nat)
    ensures SynOrAck(flags) <==> flags % 4 >= 2 || flags % 32 >= 16
  {
  }

  /**
   * SYN, ACK and SYN-ACK segments pass the flag test, and so does RST-ACK;
   * a bare RST or FIN does not.
   */
  lemma SynOrAckExamples()
    ensures SynOrAck(ThSyn) && SynOrAck(ThAck) && SynOrAck(ThSyn + ThAck) && SynOrAck(ThRst + ThAck)
    ensures !SynOrAck(ThRst) && !SynOrAck(ThFin) && !SynOrAck(0)
  {
  }

  /**
   * A segment is answered exactly when it carries SYN or ACK and, with a
   * target port set, has that port at one end.
   */
  lemma OnSynAckAccepts(targetPort: nat, frame: seq<Byte>)
    requires |frame| >= MinTcpFrame
    ensures OnSynAck(targetPort, frame).Some? <==>
              SynOrAck(Flags(frame)) && PortMatches(targetPort, SourcePort(frame), DestPort(frame))
  {
  }

  /** With no target port, every segment carrying SYN or ACK is answered, whatever its ports. */
  lemma OnSynAckNoPortFilter(frame: seq<Byte>)
    requires |frame| >= MinTcpFrame && SynOrAck(Flags(frame))
    ensures OnSynAck(0, frame).Some?
  {
  }

  /**
   * The reset goes back to the segment's sender, claims to come from its
   * receiver, and carries the segment's acknowledgement number.
   */
  lemma OnSynAckSwaps(targetPort: nat, frame: seq<Byte>)
    requires |frame| >= MinTcpFrame && OnSynAck(targetPort, frame).Some?
    ensures var r := OnSynAck(targetPort, frame).value;
      && r.dstAddr == SourceAddr(frame) && r.dstPort == SourcePort(frame)
      && r.srcAddr == DestAddr(frame) && r.srcPort == DestPort(frame)
      && r.seqNumber == AckNumber(frame)
  {
  }

  // ---------------------------------------------------------------------
  // The RST handed to libnet
  // ---------------------------------------------------------------------

  /** LIBNET_TCP_H and LIBNET_IPV4_H: header lengths without options. */
  const TcpHeaderLength: nat := 20
  const Ipv4HeaderLength: nat := 20
  /** IPTOS_LOWDELAY. */
  const TosLowDelay: nat := 0x10
  const RstTtl: nat := 64
  /** IPPROTO_TCP. */
  const ProtocolTcp: nat := 6
  const PtagInitializer: int := 0

  /** The values passed to libnet_build_tcp. */
  datatype TcpFields = TcpFields(
    srcPort: nat, dstPort: nat, seqNumber: nat, ackNumber: nat, flags: nat,
    window: nat, checksum: nat, urgent: nat, length: nat)

  /** The values passed to libnet_build_ipv4. */
  datatype Ipv4Fields = Ipv4Fields(
    length: nat, tos: nat, id: nat, fragment: nat, ttl: nat, protocol: nat,
    checksum: nat, src: seq<Byte>, dst: seq<Byte>)

  datatype Rst = Rst(tcp: TcpFields, ip: Ipv4Fields)

  /**
   * The reset for `req`.  The acknowledgement number, window and IP id
   * are pseudo-random numbers from libnet, given as parameters.
   */
  function RstFor(req: ResetRequest, randomAck: nat, randomWindow: nat, randomId: nat): Rst
  {
    Rst(TcpFields(req.srcPort, req.dstPort, req.seqNumber, randomAck, ThRst, randomWindow, 0, 0, TcpHeaderLength),
        Ipv4Fields(Ipv4HeaderLength + TcpHeaderLength, TosLowDelay, randomId, 0, RstTtl, ProtocolTcp, 0,
                   req.srcAddr, req.dstAddr))
  }

  /**
   * The reset has RST as its only control bit, so a capture of it is
   * never answered in turn, and it is an IPv4 datagram carrying just a
   * TCP header.
   */
  lemma RstOnlyReset(req: ResetRequest, randomAck: nat, randomWindow: nat, randomId: nat,
                     targetPort: nat, frame: seq<Byte>)
    requires |frame| >= MinTcpFrame
    requires Flags(frame) == RstFor(req, randomAck, randomWindow, randomId).tcp.flags
    ensures var rst := RstFor(req, randomAck, randomWindow, randomId);
      && HasFlag(rst.tcp.flags, ThRst) && !HasFlag(rst.tcp.flags, ThFin) && !SynOrAck(rst.tcp.flags)
      && rst.ip.length == rst.tcp.length + Ipv4HeaderLength
      && rst.ip.protocol == ProtocolTcp
      && OnSynAck(targetPort, frame) == None
  {
  }

  /**
   * The reset built for a captured segment answers it: addressed to the
   * segment's sender, from its receiver, with the segment's
   * acknowledgement number as sequence number.
   */
  lemma RstAnswersSegment(targetPort: nat, frame: seq<Byte>, randomAck: nat, randomWindow: nat, randomId: nat)
    requires |frame| >= MinTcpFrame && OnSynAck(targetPort, frame).Some?
    ensures var rst := RstFor(OnSynAck(targetPort, frame).value, randomAck, randomWindow, randomId);
      && rst.ip.dst == SourceAddr(frame) && rst.tcp.dstPort == SourcePort(frame)
      && rst.ip.src == DestAddr(frame) && rst.tcp.srcPort == DestPort(frame)
      && rst.tcp.seqNumber == AckNumber(frame)
      && rst.tcp.urgent == 0 && rst.tcp.length == TcpHeaderLength
      && rst.ip.ttl == RstTtl && rst.ip.tos == TosLowDelay && rst.ip.protocol == ProtocolTcp
      && rst.ip.length == Ipv4HeaderLength + TcpHeaderLength
  {
  }

  /** The function-static libnet tags of send_reset_packet. */
  class ResetSender
  {
    var tcpTag: int
    var ipTag: int

    constructor ()
      ensures tcpTag == PtagInitializer && ipTag == PtagInitializer
    {
      tcpTag := PtagInitializer;
      ipTag := PtagInitializer;
    }

    /**
     * send_reset_packet.  libnet is a parameter: `tcpTagResult`,
     * `ipTagResult` and `written` are what its build and write calls
     * return (-1 on failure), `now` the time.  The result is 0 and the
     * reset sent, or -1 with both tags reset.
     */
    method Send(ctx: ResetterContext, req: ResetRequest, randomAck: nat, randomWindow: nat, randomId: nat,
                tcpTagResult: int, ipTagResult: int, written: int, now: nat)
      returns (r: int, sent: Option<Rst>)
      requires ctx.libnetLastStatsAt < NetUtils.ULongModulus && now < NetUtils.ULongModulus
      modifies this, ctx`libnetLastStatsAt
      ensures r == 0 <==> tcpTagResult != -1 && ipTagResult != -1 && written != -1
      ensures r == 0 ==> tcpTag == tcpTagResult && ipTag == ipTagResult
      ensures r != 0 ==> r == -1 && tcpTag == PtagInitializer && ipTag == PtagInitializer
      ensures sent == if r == 0 then Some(RstFor(req, randomAck, randomWindow, randomId)) else None
      ensures r == 0 ==> NetUtils.Throttle(old(ctx.libnetLastStatsAt), now).lastStatsAt == ctx.libnetLastStatsAt
      ensures r != 0 ==> ctx.libnetLastStatsAt == old(ctx.libnetLastStatsAt)
    {
      tcpTag := tcpTagResult;
      if tcpTag == -1 {
        tcpTag, ipTag := PtagInitializer, PtagInitializer;
        return -1, None;
      }
      ipTag := ipTagResult;
      if ipTag == -1 {
        tcpTag, ipTag := PtagInitializer, PtagInitializer;
        return -1, None;
      }
      if written == -1 {
        tcpTag, ipTag := PtagInitializer, PtagInitializer;
        return -1, None;
      }
      var _ := NetUtils.MaybePrintLibnetStats(ctx, now);
      r, sent := 0, Some(RstFor(req, randomAck, randomWindow, randomId));
    }
  }

  /**
   * `_on_synack_packet_captured`: a dropped segment changes nothing; an
   * accepted one is answered through send_reset_packet.
   */
  method OnSynackPacketCaptured(ctx: ResetterContext, sender: ResetSender, frame: seq<Byte>,
                                randomAck: nat, randomWindow: nat, randomId: nat,
                                tcpTagResult: int, ipTagResult: int, written: int, now: nat)
    returns (sent: Option<Rst>)
    requires |frame| >= MinTcpFrame
    requires ctx.libnetLastStatsAt < NetUtils.ULongModulus && now < NetUtils.ULongModulus
    modifies sender, ctx`libnetLastStatsAt
    ensures OnSynAck(ctx.targetPort, frame).None? ==>
              sent == None && ctx.libnetLastStatsAt == old(ctx.libnetLastStatsAt)
              && sender.tcpTag == old(sender.tcpTag) && sender.ipTag == old(sender.ipTag)
    ensures OnSynAck(ctx.targetPort, frame).Some? ==>
              sent == if tcpTagResult != -1 && ipTagResult != -1 && written != -1
                      then Some(RstFor(OnSynAck(ctx.targetPort, frame).value, randomAck, randomWindow, randomId))
                      else None
    ensures OnSynAck(ctx.targetPort, frame).Some? && sent.Some? ==>
              sender.tcpTag == tcpTagResult && sender.ipTag == ipTagResult
              && ctx.libnetLastStatsAt == NetUtils.Throttle(old(ctx.libnetLastStatsAt), now).lastStatsAt
    ensures OnSynAck(ctx.targetPort, frame).Some? && sent.None? ==>
              sender.tcpTag == PtagInitializer && sender.ipTag == PtagInitializer
              && ctx.libnetLastStatsAt == old(ctx.libnetLastStatsAt)
  {
    if !SynOrAck(Flags(frame)) {
      return None;
    }
    if ctx.targetPort > 0 && DestPort(frame) != ctx.targetPort && SourcePort(frame) != ctx.targetPort {
      return None;
    }
    var req := ResetRequest(DestAddr(frame), DestPort(frame), SourceAddr(frame), SourcePort(frame), AckNumber(frame));
    var _, rst := sender.Send(ctx, req, randomAck, randomWindow, randomId, tcpTagResult, ipTagResult, written, now);
    sent := rst;
  }

  // ---------------------------------------------------------------------
  // Cleanup
  // ---------------------------------------------------------------------

  /** The release calls `_cleanup` makes. */
  datatype Release = PcapBreakLoop | PcapClose | LibnetDestroy

  /** The releases `_cleanup` makes given which handles are open. */
  function Releases(pcapOpen: bool, libnetOpen: bool): (rs: seq<Release>)
    ensures LibnetDestroy in rs <==> libnetOpen
    ensures PcapClose in rs <==> pcapOpen
    ensures multiset(rs)[PcapClose] <= 1 && multiset(rs)[LibnetDestroy] <= 1
  {
    (if pcapOpen then [PcapBreakLoop, PcapClose] else []) + (if libnetOpen then [LibnetDestroy] else [])
  }

  /**
   * `_cleanup`: stops the listener if it is started (break the capture
   * loop, close the handle), and destroys the libnet handle if open; each
   * handle is cleared after it is released.  The source's second test of
   * the pcap handle always finds it cleared by then and is not repeated.
   */
  method Cleanup(ctx: ResetterContext) returns (released: seq<Release>)
    modifies ctx`pcapOpen, ctx`libnetOpen
    ensures released == Releases(old(ctx.pcapOpen), old(ctx.libnetOpen))
    ensures !ctx.pcapOpen && !ctx.libnetOpen
  {
    released := [];
    if ctx.pcapOpen {
      released := released + [PcapBreakLoop, PcapClose];
      ctx.pcapOpen := false;
    }
    if ctx.libnetOpen {
      released := released + [LibnetDestroy];
      ctx.libnetOpen := false;
    }
  }

  /** A second `_cleanup` finds both handles cleared and releases nothing. */
  method CleanupTwice(ctx: ResetterContext) returns (first: seq<Release>, second: seq<Release>)
    modifies ctx`pcapOpen, ctx`libnetOpen
    ensures first == Releases(old(ctx.pcapOpen), old(ctx.libnetOpen))
    ensures second == []
  {
    first := Cleanup(ctx);
    second := Cleanup(ctx);
  }
}
