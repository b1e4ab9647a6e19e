/** The ping tool: its receiver, which counts any datagram that arrives as a
    reply, and the statistics loop of its main program. */
module Ping {
  import opened IcmpWire
  import opened Transport
  import opened EchoRequest

  /** What ping's `receive_icmp_reply` returns, with the RTT it writes through
      its `rtt` out-parameter (written only when it returns 1). */
  datatype PingReply = PingReply(code: int, rtt: Option<real>)

  /** ping's `receive_icmp_reply`: 0 on timeout, -1 when `poll` or `recvfrom`
      fails, and 1 for any datagram that arrives, whatever its contents. */
  function ReceiveIcmpReply(w: WaitEvent): (r: PingReply)
    ensures r.code == -1 || r.code == 0 || r.code == 1
    ensures r.code == 0 <==> w.pollRet == 0
    ensures r.code == -1 <==> Failed(w)
    ensures r.code == 1 <==> Arrived(w)
    ensures r.rtt == (if r.code == 1 then Some(w.elapsedMs) else None)
  {
    if w.pollRet == 0 then PingReply(0, None)
    else if w.pollRet < 0 then PingReply(-1, None)
    else if w.recv.RecvFailed? then PingReply(-1, None)
    else PingReply(1, Some(w.elapsedMs))
  }

  /** `DBL_MAX`, the initial value of `rtt_min`. */
  const DblMax: real := 179769313486231570814527423731704356798070567525844996598917476803157260780028538760589558632766878171540458953514382464234321326889464182768467546703537516986049910576551282076245490090389328944075868508455133942304583236903222948165808559332123348274797826204144723168738177180919299881250404026184124858368.0

  /** The counters and RTT aggregates of ping's main loop. */
  datatype Statistics = Statistics(
    packetsSent: int, packetsReceived: int, rttSum: real, rttMin: real, rttMax: real)

  /** The RTTs of the probes whose receive code was 1, in probe order. */
  function ReceivedRtts(events: seq<WaitEvent>): (rtts: seq<real>)
    ensures |rtts| <= |events|
  {
    if |events| == 0 then []
    else
      var reply := ReceiveIcmpReply(events[|events| - 1]);
      ReceivedRtts(events[..|events| - 1]) + (if reply.code == 1 then [reply.rtt.value] else [])
  }

  /** `rtt_sum` after adding up `s`. */
  function Sum(s: seq<real>): real
  {
    if |s| == 0 then 0.0 else Sum(s[..|s| - 1]) + s[|s| - 1]
  }

  /** The running minimum `if (rtt < rtt_min) rtt_min = rtt` started at `init`:
      a lower bound of `init` and of every element, and one of them. */
  function MinFrom(init: real, s: seq<real>): (m: real)
    ensures m <= init
    ensures forall i :: 0 <= i < |s| ==> m <= s[i]
    ensures m == init || m in s
  {
    if |s| == 0 then init
    else
      var m := MinFrom(init, s[..|s| - 1]);
      if s[|s| - 1] < m then s[|s| - 1] else m
  }

  /** The running maximum `if (rtt > rtt_max) rtt_max = rtt` started at `init`:
      an upper bound of `init` and of every element, and one of them. */
  function MaxFrom(init: real, s: seq<real>): (m: real)
    ensures m >= init
    ensures forall i :: 0 <= i < |s| ==> m >= s[i]
    ensures m == init || m in s
  {
    if |s| == 0 then init
    else
      var m := MaxFrom(init, s[..|s| - 1]);
      if s[|s| - 1] > m then s[|s| - 1] else m
  }

  /** The probe loop of ping's `main`: probe `i` sends an echo request with
      sequence number `i` and waits once, with `events[i]` the outcome of that
      wait. Returns the final statistics and the datagrams passed to `sendto`. */
  method PingSession(protocol: int, id: int, count: int, events: seq<WaitEvent>)
    returns (stats: Statistics, sent: seq<seq<Byte>>)
    requires 0 < count <= |events|
    ensures stats.packetsSent == count
    ensures 0 <= stats.packetsReceived <= stats.packetsSent
    ensures stats.packetsReceived > 0 ==>
              stats.rttMin <= stats.rttSum / stats.packetsReceived as real <= stats.rttMax
    ensures stats.packetsReceived == |ReceivedRtts(events[..count])|
    ensures stats.rttSum == Sum(ReceivedRtts(events[..count]))
    ensures stats.rttMin == MinFrom(DblMax, ReceivedRtts(events[..count]))
    ensures stats.rttMax == MaxFrom(0.0, ReceivedRtts(events[..count]))
    ensures |sent| == count
    ensures SentInOrder(sent, protocol, id)
  {
    var packetsSent, packetsReceived := 0, 0;
    var rttMin, rttMax, rttSum := DblMax, 0.0, 0.0;
    sent := [];
    for i := 0 to count
      invariant packetsSent == i == |sent|
      invariant SentInOrder(sent, protocol, id)
      invariant Tallied(events[..i], packetsReceived, rttSum, rttMin, rttMax)
    {
      var buffer := SendIcmpRequest(protocol, id, i);
      SentInOrderExtend(sent, protocol, id, buffer[..]);
      sent := sent + [buffer[..]];
      packetsSent := packetsSent + 1;

      var reply := ReceiveIcmpReply(events[i]);
      TallyStep(events, i, packetsReceived, rttSum, rttMin, rttMax);
      if reply.code == 1 {
        var rtt := reply.rtt.value;
        packetsReceived := packetsReceived + 1;
        rttSum := rttSum + rtt;
        if rtt < rttMin {
          rttMin := rtt;
        }
        if rtt > rttMax {
          rttMax := rtt;
        }
      }
    }
    stats := Statistics(packetsSent, packetsReceived, rttSum, rttMin, rttMax);
    ReportedAverageBetween(ReceivedRtts(events[..count]), stats);
  }

  /** The counters and aggregates of the loop, taken over the probes in `events`. */
  ghost predicate Tallied(events: seq<WaitEvent>, received: int, sum: real, min: real, max: real)
  {
    var rtts := ReceivedRtts(events);
    received == |rtts| && sum == Sum(rtts) && min == MinFrom(DblMax, rtts) && max == MaxFrom(0.0, rtts)
  }

  /** One pass of the loop body keeps the aggregates tallied over one more probe. */
  lemma TallyStep(events: seq<WaitEvent>, i: nat, received: int, sum: real, min: real, max: real)
    requires i < |events|
    requires Tallied(events[..i], received, sum, min, max)
    ensures ReceiveIcmpReply(events[i]).code != 1 ==> Tallied(events[..i + 1], received, sum, min, max)
    ensures ReceiveIcmpReply(events[i]).code == 1 ==>
              var rtt := events[i].elapsedMs;
              Tallied(events[..i + 1], received + 1, sum + rtt,
                      if rtt < min then rtt else min, if rtt > max then rtt else max)
  {
    ReceivedRttsExtend(events, i);
    AggregatesExtend(ReceivedRtts(events[..i]), events[i].elapsedMs);
  }

  /** Datagram `k` of `sent` is the echo request with sequence number `k`. */
  ghost predicate SentInOrder(sent: seq<seq<Byte>>, protocol: int, id: int)
  {
    forall k :: 0 <= k < |sent| ==> sent[k] == EchoRequestPacket(protocol, id, k)
  }

  lemma SentInOrderExtend(sent: seq<seq<Byte>>, protocol: int, id: int, p: seq<Byte>)
    requires SentInOrder(sent, protocol, id)
    requires p == EchoRequestPacket(protocol, id, |sent|)
    ensures SentInOrder(sent + [p], protocol, id)
  {
  }

  /** One more probe extends the received RTTs by its RTT exactly when its code is 1. */
  lemma ReceivedRttsExtend(events: seq<WaitEvent>, i: nat)
    requires i < |events|
    ensures ReceiveIcmpReply(events[i]).code == 1 ==>
              ReceivedRtts(events[..i + 1]) == ReceivedRtts(events[..i]) + [events[i].elapsedMs]
    ensures ReceiveIcmpReply(events[i]).code != 1 ==>
              ReceivedRtts(events[..i + 1]) == ReceivedRtts(events[..i])
  {
    assert events[..i + 1][..i] == events[..i];
    assert ReceivedRtts(events[..i]) + [] == ReceivedRtts(events[..i]);
  }

  /** Appending an RTT updates sum, minimum and maximum as the loop body does. */
  lemma AggregatesExtend(s: seq<real>, x: real)
    ensures Sum(s + [x]) == Sum(s) + x
    ensures MinFrom(DblMax, s + [x]) == (if x < MinFrom(DblMax, s) then x else MinFrom(DblMax, s))
    ensures MaxFrom(0.0, s + [x]) == (if x > MaxFrom(0.0, s) then x else MaxFrom(0.0, s))
  {
    assert (s + [x])[..|s|] == s;
  }

  /** The loss percentage printed after the loop. */
  function LossPercent(sent: int, received: int): (loss: real)
    requires sent > 0
    ensures loss * sent as real == (sent - received) as real * 100.0
  {
    (sent - received) as real / sent as real * 100.0
  }

  /** The loss percentage lies between 0 and 100; it is 100 exactly when
      nothing was received and 0 exactly when every probe was. */
  lemma LossBounds(sent: int, received: int)
    requires 0 <= received <= sent && sent > 0
    ensures 0.0 <= LossPercent(sent, received) <= 100.0
    ensures LossPercent(sent, received) == 100.0 <==> received == 0
    ensures LossPercent(sent, received) == 0.0 <==> received == sent
  {
    var q := (sent - received) as real / sent as real;
    assert q * sent as real == (sent - received) as real;
    assert 0.0 <= q <= 1.0;
  }

  /** Every element lies between `lo` and `hi`, so the sum lies between
      `|s| * lo` and `|s| * hi`. */
  lemma {:induction false} SumBounds(s: seq<real>, lo: real, hi: real)
    requires forall i :: 0 <= i < |s| ==> lo <= s[i] <= hi
    ensures lo * |s| as real <= Sum(s) <= hi * |s| as real
  {
    if |s| > 0 {
      SumBounds(s[..|s| - 1], lo, hi);
    }
  }

  /** The printed average `rtt_sum / packets_received` lies between the
      printed minimum and maximum. */
  lemma AverageBetweenMinAndMax(rtts: seq<real>)
    requires |rtts| > 0
    ensures MinFrom(DblMax, rtts) <= Sum(rtts) / |rtts| as real <= MaxFrom(0.0, rtts)
  {
    var lo, hi := MinFrom(DblMax, rtts), MaxFrom(0.0, rtts);
    assert forall i :: 0 <= i < |rtts| ==> lo <= rtts[i] <= hi;
    AverageBetween(rtts, lo, hi);
  }

  /** Statistics aggregated over `rtts` report an average between their
      minimum and maximum. */
  lemma ReportedAverageBetween(rtts: seq<real>, stats: Statistics)
    requires stats.packetsReceived == |rtts| && stats.rttSum == Sum(rtts)
    requires stats.rttMin == MinFrom(DblMax, rtts) && stats.rttMax == MaxFrom(0.0, rtts)
    ensures stats.packetsReceived > 0 ==>
              stats.rttMin <= stats.rttSum / stats.packetsReceived as real <= stats.rttMax
  {
    if |rtts| > 0 {
      AverageBetweenMinAndMax(rtts);
    }
  }

  /** The mean of values between `lo` and `hi` is between them too. */
  lemma AverageBetween(s: seq<real>, lo: real, hi: real)
    requires |s| > 0
    requires forall i :: 0 <= i < |s| ==> lo <= s[i] <= hi
    ensures lo <= Sum(s) / |s| as real <= hi
  {
    SumBounds(s, lo, hi);
    DivideBounds(Sum(s), |s| as real, lo, hi);
  }

  lemma DivideBounds(total: real, n: real, lo: real, hi: real)
    requires n > 0.0
    requires lo * n <= total <= hi * n
    ensures lo <= total / n <= hi
  {
    var avg := total / n;
    assert avg * n == total;
    assert (avg - lo) * n >= 0.0;
    assert (hi - avg) * n >= 0.0;
  }

  /** An RTT is a double, so never above `DBL_MAX`: the initial `rtt_min`
      never survives a received probe. */
  lemma MinIsAReceivedRtt(rtts: seq<real>)
    requires |rtts| > 0
    requires forall i :: 0 <= i < |rtts| ==> rtts[i] <= DblMax
    ensures MinFrom(DblMax, rtts) in rtts
  {
    assert MinFrom(DblMax, rtts) <= rtts[0] <= DblMax;
  }

  /** A monotonic-clock RTT is never negative: the initial `rtt_max` of 0
      never survives a received probe. */
  lemma MaxIsAReceivedRtt(rtts: seq<real>)
    requires |rtts| > 0
    requires forall i :: 0 <= i < |rtts| ==> rtts[i] >= 0.0
    ensures MaxFrom(0.0, rtts) in rtts
  {
    assert MaxFrom(0.0, rtts) >= rtts[0] >= 0.0;
  }

  /** Against a destination that never answers nothing is received. */
  lemma {:induction false} NoArrivalsNothingReceived(events: seq<WaitEvent>)
    requires forall i :: 0 <= i < |events| ==> !Arrived(events[i])
    ensures ReceivedRtts(events) == []
  {
    if |events| > 0 {
      NoArrivalsNothingReceived(events[..|events| - 1]);
    }
  }

  /** When every wait ends with a datagram, every probe is received. */
  lemma {:induction false} AllArrivedAllReceived(events: seq<WaitEvent>)
    requires forall i :: 0 <= i < |events| ==> Arrived(events[i])
    ensures |ReceivedRtts(events)| == |events|
  {
    if |events| > 0 {
      AllArrivedAllReceived(events[..|events| - 1]);
    }
  }
}
