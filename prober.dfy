/** Response validation in `get_serial`: the ordered checks on the chosen
    response and the scan of the answer section for the first SOA RRset.
    `GetSerial` is the probe in the source's imperative form, built on the
    method `SendQuery` and proved equal to validating `SendQuerySpec`;
    `ProbeSerial` is the same probe as a function, so that the survey can
    take it as its probe of an address. */
module Prober {
  import opened Types
  import opened Transport

  /** The distinct per-server failures the prober reports. */
  datatype ProbeError =
    | SocketFailure          // a socket error raised while sending
    | NoResponse             // every attempt timed out
    | BadRcode(rcode: nat)   // RCODE is not NOERROR
    | NotAuthoritative       // AA is clear
    | StillTruncated         // TC is set on the response finally used
    | SoaNotFound            // no SOA RRset in the answer section

  /** The `for ... else` scan: the serial of the first record of the first
      SOA RRset in the answer section, or None when there is none. */
  function FirstSoa(answer: seq<RRset>): (r: Option<Serial>)
  {
    if answer == [] then None
    else if answer[0].SoaRRset? then Some(answer[0].first)
    else FirstSoa(answer[1..])
  }

  /** The scan finds nothing exactly when the answer section holds no SOA RRset. */
  lemma {:induction false} FirstSoaNoneIff(answer: seq<RRset>)
    ensures FirstSoa(answer) == None <==> forall i :: 0 <= i < |answer| ==> !answer[i].SoaRRset?
  {
    if answer != [] && !answer[0].SoaRRset? {
      FirstSoaNoneIff(answer[1..]);
      assert forall i :: 1 <= i < |answer| ==> answer[i] == answer[1..][i - 1];
    }
  }

  /** The scan returns the serial of the earliest SOA RRset: if RRset `i` is
      an SOA RRset and none before it is, the scan yields its first serial. */
  lemma {:induction false} FirstSoaIsEarliest(answer: seq<RRset>, i: nat)
    requires i < |answer| && answer[i].SoaRRset?
    requires forall j :: 0 <= j < i ==> !answer[j].SoaRRset?
    ensures FirstSoa(answer) == Some(answer[i].first)
  {
    if i > 0 {
      assert !answer[0].SoaRRset?;
      FirstSoaIsEarliest(answer[1..], i - 1);
    }
  }

  /** The validation chain of `get_serial`, applied to what `send_query`
      returned; the first failing check decides the error. */
  function Validate(sent: Sent): (r: Result<Serial, ProbeError>)
  {
    match sent
    case SocketRaised => Err(SocketFailure)
    case NoAnswer => Err(NoResponse)
    case Answer(m) =>
      if m.rcode != NOERROR then Err(BadRcode(m.rcode))
      else if !m.aa then Err(NotAuthoritative)
      else if m.tc then Err(StillTruncated)
      else match FirstSoa(m.answer)
        case Some(s) => Ok(s)
        case None => Err(SoaNotFound)
  }

  /** The checks of the chain, in the order the source applies them. */
  datatype Check = Responded | RcodeIsNoError | IsAuthoritative | IsNotTruncated | HasSoa

  const CHECKS: seq<Check> := [Responded, RcodeIsNoError, IsAuthoritative, IsNotTruncated, HasSoa]

  /** Whether a response that arrived passes one check, judged on its own. */
  predicate Passes(c: Check, sent: Sent) {
    sent.Answer? &&
    match c
    case Responded => true
    case RcodeIsNoError => sent.msg.rcode == NOERROR
    case IsAuthoritative => sent.msg.aa
    case IsNotTruncated => !sent.msg.tc
    case HasSoa => exists i :: 0 <= i < |sent.msg.answer| && sent.msg.answer[i].SoaRRset?
  }

  /** The error a failing check reports. */
  function ErrorOf(c: Check, sent: Sent): ProbeError {
    match c
    case Responded => if sent == SocketRaised then SocketFailure else NoResponse
    case RcodeIsNoError => BadRcode(if sent.Answer? then sent.msg.rcode else 0)
    case IsAuthoritative => NotAuthoritative
    case IsNotTruncated => StillTruncated
    case HasSoa => SoaNotFound
  }

  /** Validation succeeds exactly when every check passes, and then yields
      the serial of the first record of the earliest SOA RRset. */
  lemma ValidateOkIff(sent: Sent)
    ensures Validate(sent).Ok? <==> forall k :: 0 <= k < |CHECKS| ==> Passes(CHECKS[k], sent)
    ensures Validate(sent).Ok? ==>
              exists i :: 0 <= i < |sent.msg.answer| && sent.msg.answer[i].SoaRRset? &&
                (forall j :: 0 <= j < i ==> !sent.msg.answer[j].SoaRRset?) &&
                Validate(sent).value == sent.msg.answer[i].first
  {
    if sent.Answer? {
      FirstSoaNoneIff(sent.msg.answer);
      if Validate(sent).Ok? {
        var i := EarliestSoa(sent.msg.answer);
        FirstSoaIsEarliest(sent.msg.answer, i);
      }
    }
    assert CHECKS[0] == Responded && CHECKS[1] == RcodeIsNoError && CHECKS[2] == IsAuthoritative;
    assert CHECKS[3] == IsNotTruncated && CHECKS[4] == HasSoa;
  }

  /** The index of the earliest SOA RRset of an answer section that has one. */
  function EarliestSoa(answer: seq<RRset>): (i: nat)
    requires exists k :: 0 <= k < |answer| && answer[k].SoaRRset?
    ensures i < |answer| && answer[i].SoaRRset?
    ensures forall j :: 0 <= j < i ==> !answer[j].SoaRRset?
  {
    if answer[0].SoaRRset? then 0
    else
      assert exists k :: 0 <= k < |answer[1..]| && answer[1..][k].SoaRRset? by {
        var k :| 0 <= k < |answer| && answer[k].SoaRRset?;
        assert answer[1..][k - 1] == answer[k];
      }
      1 + EarliestSoa(answer[1..])
  }

  /** The checks short-circuit: when check `k` is the first to fail, its
      error is the one reported, whatever the later checks would say. */
  lemma FirstFailureDecides(sent: Sent, k: nat)
    requires k < |CHECKS|
    requires forall j :: 0 <= j < k ==> Passes(CHECKS[j], sent)
    requires !Passes(CHECKS[k], sent)
    ensures Validate(sent) == Err(ErrorOf(CHECKS[k], sent))
  {
    assert CHECKS[0] == Responded && CHECKS[1] == RcodeIsNoError && CHECKS[2] == IsAuthoritative;
    assert CHECKS[3] == IsNotTruncated && CHECKS[4] == HasSoa;
    if sent.Answer? {
      FirstSoaNoneIff(sent.msg.answer);
    }
  }

  /** The probe of one server: send the SOA query, then validate the response. */
  method GetSerial(useTcp: bool, retries: int, udp: nat -> Attempt, tcp: Attempt)
    returns (r: Result<Serial, ProbeError>)
    ensures r == Validate(SendQuerySpec(useTcp, retries, udp, tcp))
  {
    var resp, _, _ := SendQuery(useTcp, retries, udp, tcp);
    r := Validate(resp);
  }

  /** The serial `get_serial` returns: present exactly when all five checks
      pass on the response `send_query` chose, and then the first serial of
      its earliest SOA RRset. */
  function ProbeSerial(useTcp: bool, retries: int, udp: nat -> Attempt, tcp: Attempt): (r: Option<Serial>)
    ensures var s := SendQuerySpec(useTcp, retries, udp, tcp);
            r.Some? <==> s.Answer? && s.msg.rcode == NOERROR && s.msg.aa && !s.msg.tc &&
                         FirstSoa(s.msg.answer).Some?
    ensures var s := SendQuerySpec(useTcp, retries, udp, tcp);
            r.Some? ==> exists i :: 0 <= i < |s.msg.answer| && s.msg.answer[i].SoaRRset? &&
                          (forall j :: 0 <= j < i ==> !s.msg.answer[j].SoaRRset?) &&
                          r.value == s.msg.answer[i].first
  {
    var s := SendQuerySpec(useTcp, retries, udp, tcp);
    ValidateOkIff(s);
    assert CHECKS[0] == Responded && CHECKS[1] == RcodeIsNoError && CHECKS[2] == IsAuthoritative;
    assert CHECKS[3] == IsNotTruncated && CHECKS[4] == HasSoa;
    if s.Answer? then
      FirstSoaNoneIff(s.msg.answer);
      match Validate(s)
      case Ok(v) => Some(v)
      case Err(_) => None
    else None
  }

  /** When UDP is used and comes back truncated, the outcome of the probe is
      decided by the TCP response alone. */
  lemma TruncationFallsBackToTcp(retries: int, udp: nat -> Attempt, tcp: Attempt)
    requires Truncated(UdpFrom(udp, 0, retries).0)
    ensures Validate(SendQuerySpec(false, retries, udp, tcp)) == Validate(Received(tcp))
  {
  }

  /** Over UDP with TCP fallback, the "still truncated" error can only come
      from a TCP response that itself has TC set. */
  lemma StillTruncatedMeansTcp(retries: int, udp: nat -> Attempt, tcp: Attempt)
    requires Validate(SendQuerySpec(false, retries, udp, tcp)) == Err(StillTruncated)
    ensures Truncated(UdpFrom(udp, 0, retries).0)
    ensures tcp.Reply? && tcp.msg.tc
  {
  }

  /** When every allowed UDP call times out, the probe reports no response
      and TCP is never tried. */
  lemma AllTimeoutsMeanNoResponse(retries: int, udp: nat -> Attempt, tcp: Attempt)
    requires forall j :: 0 <= j < Max0(retries) ==> udp(j) == Timeout
    ensures Validate(SendQuerySpec(false, retries, udp, tcp)) == Err(NoResponse)
  {
    UdpNoAnswerIff(udp, 0, retries);
  }
}
