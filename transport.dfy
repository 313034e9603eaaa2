/** Transport policy: the bounded UDP retry loop, the single TCP attempt, and
    the choice between TCP only and UDP with a TCP retry on truncation. The
    network is an oracle: `udp(k)` is the outcome of the k-th UDP call for
    this query, `tcp` the outcome of the one TCP call. The methods
    `SendQueryUdp` and `SendQuery` keep the source's imperative form and are
    proved equal to the functions `UdpFrom` and `SendQuerySpec`, which the
    lemmas and the probe of an address use. */
module Transport {
  import opened Types

  /** What one library call hands back to the code around it: a timeout is
      caught and becomes None, a response is passed on, a socket error
      propagates. */
  function Received(a: Attempt): (s: Sent)
    ensures s == NoAnswer <==> a == Timeout
    ensures s.Answer? <==> a.Reply?
    ensures s.Answer? ==> s.msg == a.msg
  {
    match a
    case Timeout => NoAnswer
    case Reply(m) => Answer(m)
    case SocketError => SocketRaised
  }

  function Max0(n: int): nat {
    if n > 0 then n else 0
  }

  /** The UDP retry loop from call number `k` on, with a budget of `budget`
      further calls: its result, and the number of calls made from call 0
      up to the moment it stops. */
  function UdpFrom(udp: nat -> Attempt, k: nat, budget: int): (r: (Sent, nat))
    ensures k <= r.1 <= k + Max0(budget)
    decreases budget
  {
    if budget <= 0 then (NoAnswer, k)
    else if udp(k) == Timeout then UdpFrom(udp, k + 1, budget - 1)
    else (Received(udp(k)), k + 1)
  }

  /** The loop gives up with no response exactly when every call it was
      allowed to make timed out; it then made all of them. */
  lemma {:induction false} UdpNoAnswerIff(udp: nat -> Attempt, k: nat, budget: int)
    ensures UdpFrom(udp, k, budget).0 == NoAnswer <==>
              forall j :: k <= j < k + Max0(budget) ==> udp(j) == Timeout
    ensures UdpFrom(udp, k, budget).0 == NoAnswer ==> UdpFrom(udp, k, budget).1 == k + Max0(budget)
    decreases budget
  {
    if budget > 0 && udp(k) == Timeout {
      UdpNoAnswerIff(udp, k + 1, budget - 1);
    }
  }

  /** When the loop returns something other than None, it stopped at the
      first call that did not time out, and returns what that call gave. */
  lemma {:induction false} UdpStopsAtFirstReply(udp: nat -> Attempt, k: nat, budget: int)
    requires UdpFrom(udp, k, budget).0 != NoAnswer
    ensures var (res, n) := UdpFrom(udp, k, budget);
            k < n && udp(n - 1) != Timeout && res == Received(udp(n - 1)) &&
            forall j :: k <= j < n - 1 ==> udp(j) == Timeout
    decreases budget
  {
    if udp(k) == Timeout {
      UdpStopsAtFirstReply(udp, k + 1, budget - 1);
    }
  }

  /** The `while` loop that sends the query over UDP until a response comes
      back or `retries` calls have been made. A socket error is not caught
      here and ends the loop. */
  method SendQueryUdp(udp: nat -> Attempt, retries: int) returns (res: Sent, calls: nat)
    ensures (res, calls) == UdpFrom(udp, 0, retries)
  {
    var gotResponse := false;
    var budget := retries;
    res, calls := NoAnswer, 0;
    while !gotResponse && budget > 0
      invariant !gotResponse ==> res == NoAnswer && UdpFrom(udp, calls, budget) == UdpFrom(udp, 0, retries)
      invariant gotResponse ==> (res, calls) == UdpFrom(udp, 0, retries)
      decreases budget
    {
      budget := budget - 1;
      var outcome := udp(calls);
      calls := calls + 1;
      match outcome {
        case Timeout =>
        case Reply(m) =>
          res := Answer(m);
          gotResponse := true;
        case SocketError =>
          return SocketRaised, calls;
      }
    }
  }

  /** A UDP result that sends the query on to TCP: a response with TC set. */
  predicate Truncated(s: Sent) {
    s.Answer? && s.msg.tc
  }

  /** The response `send_query` returns. */
  function SendQuerySpec(useTcp: bool, retries: int, udp: nat -> Attempt, tcp: Attempt): Sent {
    if useTcp then Received(tcp)
    else
      var viaUdp := UdpFrom(udp, 0, retries).0;
      if Truncated(viaUdp) then Received(tcp) else viaUdp
  }

  /** Send one SOA query: over TCP alone when TCP is forced, otherwise over
      UDP and, if the UDP response is truncated, once more over TCP. */
  method SendQuery(useTcp: bool, retries: int, udp: nat -> Attempt, tcp: Attempt)
    returns (res: Sent, udpCalls: nat, tcpCalls: nat)
    ensures res == SendQuerySpec(useTcp, retries, udp, tcp)
    ensures useTcp ==> udpCalls == 0 && tcpCalls == 1 && res == Received(tcp)
    ensures !useTcp ==> udpCalls == UdpFrom(udp, 0, retries).1 && udpCalls <= Max0(retries)
    ensures !useTcp ==> (tcpCalls == 1 <==> Truncated(UdpFrom(udp, 0, retries).0)) && tcpCalls <= 1
    ensures !useTcp && tcpCalls == 1 ==> res == Received(tcp)
    ensures !useTcp && tcpCalls == 0 ==> res == UdpFrom(udp, 0, retries).0
  {
    if useTcp {
      return Received(tcp), 0, 1;
    }
    res, udpCalls := SendQueryUdp(udp, retries);
    tcpCalls := 0;
    if Truncated(res) {
      res, tcpCalls := Received(tcp), 1;
    }
  }
}
