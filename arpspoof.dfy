/**
 * The ARP-spoof tracker of the sniffer (sniff11.cpp, process_packet):
 * the pending ARP requests kept from one captured frame to the next, the
 * alert raised by a reply nobody asked for, and the capture count.
 */
module ArpSpoof {
  import opened Outcome
  import opened Octets
  import EthernetFrame
  import ArpPacket
  import IpPacket
  import Datagrams

  /** What processing a frame reports: nothing, or an unsolicited reply to target from origin. */
  datatype Verdict = Quiet | Alert(target: seq<byte>, origin: seq<byte>)

  /**
   * The addresses of the pending requests. The set orders its IPAddress
   * keys by operator<, under which two addresses are equivalent exactly
   * when their bytes are equal (ByteOrder.LessTrichotomy), so a set of
   * byte sequences finds and erases the same keys.
   */
  type Requests = set<seq<byte>>

  /**
   * The IPv4 branch, which runs whatever the tool and the display: the
   * test on protocol() reads byte 9 of the IP view. An ICMP packet is then
   * handed to icmp(), which only builds a borrowed view that nothing reads
   * with the displays off, so it cannot fail here. Nothing changes the
   * requests.
   */
  function TrackIp(ip: Fragment): (r: Result<IpPacket.IpProtocol>)
    ensures r.Err? ==> r.failure == Truncated
    ensures r.Ok? <==> 10 <= ip.len
    ensures r.Ok? ==> (r.value == IpPacket.Icmp <==> ip.Bytes()[9] == 1)
  {
    if ip.len < 10 then Err(Truncated) else Ok(IpPacket.Protocol(ip))
  }

  /**
   * One frame: the new pending requests and the verdict, or the failure
   * one of the accessors raises. With the tool off, or for any frame but
   * an ARP request or reply, the requests stay as they are. An IPv4 frame
   * too short for the protocol byte of its IP header is Truncated. This
   * is the run with quiet_mode on: the header printers, which can throw
   * before the spoof check, are not part of it.
   */
  function Track(enabled: bool, requests: Requests, frame: Fragment): (r: Result<(Requests, Verdict)>)
    ensures !EthernetFrame.HasHeader(frame) ==> r == Err(Truncated)
    ensures EthernetFrame.HasHeader(frame) && EthernetFrame.TypeOf(frame) == EthernetFrame.IPv4 ==>
              r == if frame.len < 24 then Err(Truncated) else Ok((requests, Quiet))
    ensures !enabled && EthernetFrame.HasHeader(frame) && EthernetFrame.TypeOf(frame) != EthernetFrame.IPv4 ==>
              r == Ok((requests, Quiet))
    ensures r.Ok? && r.value.1.Alert? ==> r.value.0 == requests
  {
    if !EthernetFrame.HasHeader(frame) then Err(Truncated)
    else if EthernetFrame.TypeOf(frame) == EthernetFrame.IPv4 then
      var _ :- TrackIp(EthernetFrame.Ip4(frame).value);
      Ok((requests, Quiet))
    else if EthernetFrame.TypeOf(frame) != EthernetFrame.ARP || !enabled then Ok((requests, Quiet))
    else
      var arp := EthernetFrame.Arp(frame).value;
      if !ArpPacket.Has(arp, 8) then Err(Truncated)
      else TrackArp(requests, arp)
  }

  /**
   * A frame of type 0x0800 that ends with its Ethernet header: ip4() gives
   * a view with no block, and protocol() would read its byte 9.
   */
  lemma BareIpFrameTruncated(enabled: bool, requests: Requests)
    ensures var frame := Whole([0, 0, 0, 0, 0, 0, 0, 0, 0, 0, 0, 0, 0x08, 0x00]);
            && EthernetFrame.Ip4(frame).Ok? && EthernetFrame.Ip4(frame).value.ptr.Null?
            && Track(enabled, requests, frame) == Err(Truncated)
  {
  }

  /**
   * A 24-byte frame of type 0x0800 whose 10-byte IP view says ICMP with a
   * 20-byte header: icmp() would build a view with no block and a wrapped
   * length, which nothing reads, so the frame passes quietly.
   */
  lemma ShortIcmpFrameQuiet(enabled: bool, requests: Requests)
    ensures var frame := Whole([0, 0, 0, 0, 0, 0, 0, 0, 0, 0, 0, 0, 0x08, 0x00,
                                0x45, 0, 0, 0, 0, 0, 0, 0, 0, 1]);
            && var ip := EthernetFrame.Ip4(frame).value;
            && IpPacket.Protocol(ip) == IpPacket.Icmp && IpPacket.HeaderLength(ip) > ip.len
            && Track(enabled, requests, frame) == Ok((requests, Quiet))
  {
    var s: seq<byte> := [0, 0, 0, 0, 0, 0, 0, 0, 0, 0, 0, 0, 0x08, 0x00, 0x45, 0, 0, 0, 0, 0, 0, 0, 0, 1];
    var frame := Whole(s);
    assert frame.At(12) == 0x08 && frame.At(13) == 0x00;
    assert EthernetFrame.TypeOf(frame) == EthernetFrame.IPv4;
    var ip := EthernetFrame.Ip4(frame).value;
    assert ip.Bytes() == s[14..] && ip.len == 10;
    assert ip.At(0) == 0x45 && ip.At(9) == 1;
  }

  /** The switch on operation(): a request is recorded, a reply is checked against the records. */
  function TrackArp(requests: Requests, arp: Fragment): (r: Result<(Requests, Verdict)>)
    requires ArpPacket.Has(arp, 8)
    ensures r.Ok? && r.value.1.Alert? ==> ArpPacket.OperationOfPacket(arp) == ArpPacket.ArpReply && r.value.0 == requests
    ensures r.Ok? && ArpPacket.OperationOfPacket(arp) == ArpPacket.ArpReply ==> r.value.0 <= requests
    ensures ArpPacket.OperationOfPacket(arp) !in {ArpPacket.ArpRequest, ArpPacket.ArpReply} ==> r == Ok((requests, Quiet))
  {
    match ArpPacket.OperationOfPacket(arp)
    case ArpRequest =>
      var target :- ArpPacket.DestinationIp(arp);
      Ok((requests + {target.Bytes()}, Quiet))
    case ArpReply =>
      var source :- ArpPacket.SourceIp(arp);
      if source.Bytes() in requests then Ok((requests - {source.Bytes()}, Quiet))
      else
        var target :- ArpPacket.DestinationMac(arp);
        var origin :- ArpPacket.SourceMac(arp);
        Ok((requests, Alert(target.Bytes(), origin.Bytes())))
    case _ => Ok((requests, Quiet))
  }

  /** The ARP packet a frame carries, when it is an Ethernet frame of type ARP with an operation code. */
  ghost predicate IsArp(frame: Fragment)
  {
    && EthernetFrame.HasHeader(frame) && EthernetFrame.TypeOf(frame) == EthernetFrame.ARP
    && ArpPacket.Has(EthernetFrame.Arp(frame).value, 8)
  }

  ghost function ArpOf(frame: Fragment): (arp: Fragment)
    requires IsArp(frame)
    ensures ArpPacket.Has(arp, 8)
  {
    EthernetFrame.Arp(frame).value
  }

  /** An ARP request adds its target's IP address. */
  lemma RequestInserts(requests: Requests, frame: Fragment)
    requires IsArp(frame) && ArpPacket.OperationOfPacket(ArpOf(frame)) == ArpPacket.ArpRequest
    requires ArpPacket.DestinationIp(ArpOf(frame)).Ok?
    ensures Track(true, requests, frame)
         == Ok((requests + {ArpPacket.DestinationIp(ArpOf(frame)).value.Bytes()}, Quiet))
  {
  }

  /** A reply whose sender's IP address is not pending raises an alert and leaves the requests as they are. */
  lemma UnsolicitedReplyAlerts(requests: Requests, frame: Fragment)
    requires IsArp(frame) && ArpPacket.OperationOfPacket(ArpOf(frame)) == ArpPacket.ArpReply
    requires ArpPacket.SourceIp(ArpOf(frame)).Ok?
    requires ArpPacket.SourceIp(ArpOf(frame)).value.Bytes() !in requests
    requires ArpPacket.DestinationMac(ArpOf(frame)).Ok? && ArpPacket.SourceMac(ArpOf(frame)).Ok?
    ensures Track(true, requests, frame)
         == Ok((requests, Alert(ArpPacket.DestinationMac(ArpOf(frame)).value.Bytes(),
                                ArpPacket.SourceMac(ArpOf(frame)).value.Bytes())))
  {
  }

  /** A reply whose sender's IP address is pending raises no alert and removes exactly that address. */
  lemma AnsweredReplyErases(requests: Requests, frame: Fragment)
    requires IsArp(frame) && ArpPacket.OperationOfPacket(ArpOf(frame)) == ArpPacket.ArpReply
    requires ArpPacket.SourceIp(ArpOf(frame)).Ok?
    requires ArpPacket.SourceIp(ArpOf(frame)).value.Bytes() in requests
    ensures var a := ArpPacket.SourceIp(ArpOf(frame)).value.Bytes();
            && Track(true, requests, frame).Ok?
            && Track(true, requests, frame).value.1 == Quiet
            && var after := Track(true, requests, frame).value.0;
            && a !in after && after + {a} == requests
  {
  }

  /**
   * With the tool off, for a frame that is not ARP, and for the RARP and
   * unknown operations, the requests stay as they are and nothing is
   * reported, except that an IPv4 frame without the protocol byte of its
   * IP header is Truncated.
   */
  lemma OthersLeaveRequests(enabled: bool, requests: Requests, frame: Fragment)
    requires EthernetFrame.HasHeader(frame)
    requires || !enabled
             || EthernetFrame.TypeOf(frame) != EthernetFrame.ARP
             || (IsArp(frame) && ArpPacket.OperationOfPacket(ArpOf(frame)) !in {ArpPacket.ArpRequest, ArpPacket.ArpReply})
    ensures Track(enabled, requests, frame)
         == if EthernetFrame.TypeOf(frame) == EthernetFrame.IPv4 && frame.len < 24 then Err(Truncated)
            else Ok((requests, Quiet))
  {
  }

  /** An alert is raised only for a reply whose sender's IP address is not pending. */
  lemma {:induction false} AlertOnlyForUnsolicited(enabled: bool, requests: Requests, frame: Fragment)
    requires Track(enabled, requests, frame).Ok? && Track(enabled, requests, frame).value.1.Alert?
    ensures enabled && IsArp(frame) && ArpPacket.OperationOfPacket(ArpOf(frame)) == ArpPacket.ArpReply
    ensures ArpPacket.SourceIp(ArpOf(frame)).Ok?
    ensures ArpPacket.SourceIp(ArpOf(frame)).value.Bytes() !in requests
    ensures Track(enabled, requests, frame).value.0 == requests
  {
    assert EthernetFrame.HasHeader(frame);
    assert enabled && EthernetFrame.TypeOf(frame) == EthernetFrame.ARP;
    var arp := EthernetFrame.Arp(frame).value;
    assert ArpPacket.Has(arp, 8);
    assert ArpPacket.OperationOfPacket(arp) == ArpPacket.ArpReply;
  }

  /** The IP address an ARP request asks about, if the frame is one. */
  ghost function RequestTarget(enabled: bool, frame: Fragment): Option<seq<byte>>
  {
    if enabled && IsArp(frame) && ArpPacket.OperationOfPacket(ArpOf(frame)) == ArpPacket.ArpRequest
       && ArpPacket.DestinationIp(ArpOf(frame)).Ok?
    then Some(ArpPacket.DestinationIp(ArpOf(frame)).value.Bytes())
    else None
  }

  /** Track only ever adds the target of a request. */
  lemma {:induction false} TrackAddsOnlyTargets(enabled: bool, requests: Requests, frame: Fragment)
    requires Track(enabled, requests, frame).Ok?
    ensures forall a :: a in Track(enabled, requests, frame).value.0 ==>
              a in requests || RequestTarget(enabled, frame) == Some(a)
  {
    if EthernetFrame.HasHeader(frame) && EthernetFrame.TypeOf(frame) == EthernetFrame.ARP && enabled {
      var arp := EthernetFrame.Arp(frame).value;
      assert ArpPacket.Has(arp, 8);
      assert Track(enabled, requests, frame) == TrackArp(requests, arp);
      TrackArpAddsOnlyTarget(requests, arp);
    }
  }

  lemma TrackArpAddsOnlyTarget(requests: Requests, arp: Fragment)
    requires ArpPacket.Has(arp, 8) && TrackArp(requests, arp).Ok?
    ensures forall a :: a in TrackArp(requests, arp).value.0 ==>
              || a in requests
              || (&& ArpPacket.OperationOfPacket(arp) == ArpPacket.ArpRequest
                  && ArpPacket.DestinationIp(arp).Ok? && a == ArpPacket.DestinationIp(arp).value.Bytes())
  {
  }

  /** The requests after a sequence of frames; processing stops at the first failure. */
  function Run(enabled: bool, requests: Requests, frames: seq<Fragment>): (r: Result<Requests>)
    ensures !enabled && (forall i :: 0 <= i < |frames| ==> Track(false, requests, frames[i]).Ok?) ==> r == Ok(requests)
    decreases |frames|
  {
    if frames == [] then Ok(requests)
    else
      var step :- Track(enabled, requests, frames[0]);
      Run(enabled, step.0, frames[1..])
  }

  /** After any sequence of frames, every pending address was pending before or is the target of one of the requests. */
  lemma {:induction false} RunHoldsOnlyRequested(enabled: bool, requests: Requests, frames: seq<Fragment>)
    requires Run(enabled, requests, frames).Ok?
    ensures forall a :: a in Run(enabled, requests, frames).value ==>
              a in requests || exists i :: 0 <= i < |frames| && RequestTarget(enabled, frames[i]) == Some(a)
    decreases |frames|
  {
    if frames != [] {
      var step := Track(enabled, requests, frames[0]).value;
      TrackAddsOnlyTargets(enabled, requests, frames[0]);
      RunHoldsOnlyRequested(enabled, step.0, frames[1..]);
      forall a | a in Run(enabled, requests, frames).value
        ensures a in requests || exists i :: 0 <= i < |frames| && RequestTarget(enabled, frames[i]) == Some(a)
      {
        if a !in step.0 {
          assert a in Run(enabled, step.0, frames[1..]).value;
          var i :| 0 <= i < |frames[1..]| && RequestTarget(enabled, frames[1..][i]) == Some(a);
          assert frames[1..][i] == frames[i + 1];
        } else if a !in requests {
          assert RequestTarget(enabled, frames[0]) == Some(a);
        }
      }
    }
  }

  /** The sniffer's state across calls of process_packet. */
  class Sniffer {
    /** The function-static set<IPAddress> arpRequests. */
    var requests: Requests
    /** The global unsigned int capture_count. */
    var captureCount: nat
    /** security_tool == ARPSPOOF. */
    const spoofCheck: bool

    ghost predicate Valid()
      reads this
    {
      captureCount < 0x1_0000_0000
    }

    constructor (spoofCheck: bool)
      ensures Valid() && this.spoofCheck == spoofCheck
      ensures requests == {} && captureCount == 0
    {
      this.spoofCheck := spoofCheck;
      requests := {};
      captureCount := 0;
    }

    /**
     * process_packet(): copy the caplen captured bytes into a Datagram,
     * decode the frame, update the pending requests and count the capture.
     * A failure escapes before the count, with nothing changed. As for
     * Track, the displays are off (quiet_mode).
     */
    method ProcessPacket(packet: seq<byte>, caplen: nat) returns (r: Result<Verdict>)
      requires Valid() && caplen <= |packet|
      modifies this
      ensures Valid()
      ensures var t := Track(spoofCheck, old(requests), Whole(packet[..caplen]));
              && (t.Err? ==> r == Err(t.failure) && requests == old(requests) && captureCount == old(captureCount))
              && (t.Ok? ==> && r == Ok(t.value.1) && requests == t.value.0
                            && captureCount == (old(captureCount) + 1) % 0x1_0000_0000)
    {
      var pkt := new Datagrams.Datagram(packet, caplen);
      var ether := pkt.Ethernet();
      var frame := ether.View();
      assert ether.data[..] == ether.data[0..0 + ether.len];
      assert frame == Whole(packet[..caplen]);
      if !EthernetFrame.HasHeader(frame) {
        return Err(Truncated);
      }
      r := Ok(Quiet);
      if EthernetFrame.TypeOf(frame) == EthernetFrame.IPv4 {
        var ip := EthernetFrame.Ip4(frame).value;
        if ip.len < 10 {
          return Err(Truncated);
        }
        // protocol() reads byte 9; the ICMP view icmp() would build is never read
        var protocol := IpPacket.Protocol(ip);
      } else if EthernetFrame.TypeOf(frame) == EthernetFrame.ARP && spoofCheck {
        var arp := EthernetFrame.Arp(frame).value;
        if !ArpPacket.Has(arp, 8) {
          return Err(Truncated);
        }
        r := OnArp(arp);
        if r.Err? {
          return;
        }
      }
      captureCount := (captureCount + 1) % 0x1_0000_0000;
    }

    /** The ARP spoofing check on one ARP packet. */
    method OnArp(arp: Fragment) returns (r: Result<Verdict>)
      requires ArpPacket.Has(arp, 8)
      modifies this
      ensures captureCount == old(captureCount)
      ensures var t := TrackArp(old(requests), arp);
              && (t.Err? ==> r == Err(t.failure) && requests == old(requests))
              && (t.Ok? ==> r == Ok(t.value.1) && requests == t.value.0)
    {
      r := Ok(Quiet);
      match ArpPacket.OperationOfPacket(arp)
      case ArpRequest =>
        var target := ArpPacket.DestinationIp(arp);
        if target.Err? {
          return Err(target.failure);
        }
        requests := requests + {target.value.Bytes()};
      case ArpReply =>
        var source := ArpPacket.SourceIp(arp);
        if source.Err? {
          return Err(source.failure);
        }
        if source.value.Bytes() in requests {
          requests := requests - {source.value.Bytes()};
        } else {
          var target := ArpPacket.DestinationMac(arp);
          if target.Err? {
            return Err(target.failure);
          }
          // the sender's address lies before the target's, so it is there to be read
          var origin := ArpPacket.SourceMac(arp);
          r := Ok(Alert(target.value.Bytes(), origin.value.Bytes()));
        }
      case _ =>
    }
  }
}
