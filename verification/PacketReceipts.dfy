/** Packet receipt notifications of the DFU transport: after every so many packets of
    firmware the controller is told how far the transfer has come. */
module PacketReceipts {
  import opened Options
  import opened MachineIntegers

  datatype Op = ObjectSelect | ObjectCreate | ObjectExecute | ObjectWrite | CrcGet | ReceiptNotifSet | OtherOp

  datatype ResultCode = Success | ExtError | OtherError

  /** A response sent to the controller, with its length in bytes. */
  datatype Response = Response(op: Op, result: ResultCode, length: nat)

  const RESPONSE_HEADER_LEN := 3
  const MAX_RESPONSE_LEN := 17

  function PayloadLength(op: Op, result: ResultCode): nat {
    if result == ExtError then 1
    else if result != Success then 0
    else
      match op
      case ObjectSelect => 12
      case ObjectWrite => 8
      case CrcGet => 8
      case _ => 0
  }

  function ResponseTo(op: Op, result: ResultCode): Response {
    Response(op, result, RESPONSE_HEADER_LEN + PayloadLength(op, result))
  }

  /** The two static variables. */
  datatype Counters = Counters(target: Uint16, left: Uint16)

  const INITIAL := Counters(0, 0)

  /** What happens to the transport: a request written to the control point, or the
      request handler answering a request. */
  datatype Event = Request(op: Op, value: Uint16) | Answer(op: Op, result: ResultCode)

  function Requested(c: Counters, op: Op, value: Uint16): Counters {
    match op
    case ObjectCreate => c.(left := c.target)
    case ReceiptNotifSet => Counters(value, value)
    case _ => c
  }

  /** The counters after an answer, and the response sent for it, if any. */
  function Answered(c: Counters, op: Op, result: ResultCode): (Counters, Option<Response>) {
    if op == ObjectWrite then
      var left := ToUint16(c.left - 1);
      if c.target == 0 || left != 0 then (c.(left := left), None)
      else (c.(left := c.target), Some(ResponseTo(CrcGet, result)))
    else (c, Some(ResponseTo(op, result)))
  }

  function Next(c: Counters, e: Event): Counters {
    match e
    case Request(op, value) => Requested(c, op, value)
    case Answer(op, result) => Answered(c, op, result).0
  }

  class Transport {
    var pktNotifTarget: Uint16
    var pktNotifTargetCnt: Uint16

    constructor ()
      ensures Now() == INITIAL
    {
      pktNotifTarget, pktNotifTargetCnt := 0, 0;
    }

    ghost function Now(): Counters
      reads this
    {
      Counters(pktNotifTarget, pktNotifTargetCnt)
    }

    /** `on_ctrl_pt_write`, as far as the counters go. */
    method OnCtrlPtWrite(op: Op, value: Uint16)
      modifies this
      ensures Now() == Requested(old(Now()), op, value)
    {
      match op {
        case ObjectCreate =>
          pktNotifTargetCnt := pktNotifTarget;
        case ReceiptNotifSet =>
          pktNotifTarget := value;
          pktNotifTargetCnt := pktNotifTarget;
        case _ =>
      }
    }

    /** `ble_dfu_req_handler_callback`. */
    method RequestHandlerCallback(request: Op, result: ResultCode) returns (sent: Option<Response>)
      modifies this
      ensures (Now(), sent) == Answered(old(Now()), request, result)
    {
      var op := request;
      var len := 0;
      if op == ObjectWrite {
        pktNotifTargetCnt := ToUint16(pktNotifTargetCnt - 1);
        if pktNotifTarget == 0 || (pktNotifTargetCnt != 0 && pktNotifTarget > 0) {
          return None;
        }
        pktNotifTargetCnt := pktNotifTarget;
        op := CrcGet;
      }
      len := len + RESPONSE_HEADER_LEN;
      if result != Success {
        if result == ExtError {
          len := len + 1;
        }
        return Some(Response(op, result, len));
      }
      match op {
        case ObjectSelect =>
          len := len + 12;
        case ObjectWrite =>
          len := len + 8;
        case CrcGet =>
          len := len + 8;
        case _ =>
      }
      return Some(Response(op, result, len));
    }
  }

  /** Every response fits the buffer, and no write is answered as a write. */
  lemma ResponsesFit(c: Counters, op: Op, result: ResultCode)
    ensures var (_, sent) := Answered(c, op, result);
      sent.Some? ==> sent.value.length <= MAX_RESPONSE_LEN && sent.value.op != ObjectWrite
  {
  }

  /** The length of a response in bytes: a header of three, the extended error code, the
      size, offset and checksum of an object, or offset and checksum. */
  function ResponseLength(op: Op, result: ResultCode): nat {
    match result
    case Success => if op == ObjectSelect then 15 else if op == CrcGet then 11 else 3
    case ExtError => 4
    case OtherError => 3
  }

  /** Any answer but that of a write is sent as it is, once, and does not touch the
      counters. */
  lemma AnswerIsSent(c: Counters, op: Op, result: ResultCode)
    requires op != ObjectWrite
    ensures Answered(c, op, result) == (c, Some(Response(op, result, ResponseLength(op, result))))
  {
  }

  // ---------- Whole transfers ----------

  predicate IsWrite(e: Event) {
    e.Answer? && e.op == ObjectWrite
  }

  predicate IsReset(e: Event) {
    e.Request? && e.op in {ObjectCreate, ReceiptNotifSet}
  }

  /** The counters after a sequence of events from the start. */
  function After(events: seq<Event>): Counters {
    if events == [] then INITIAL else Next(After(events[..|events| - 1]), events[|events| - 1])
  }

  /** The target last set. */
  function TargetSet(events: seq<Event>): Uint16 {
    if events == [] then 0
    else
      var last := events[|events| - 1];
      if last.Request? && last.op == ReceiptNotifSet then last.value else TargetSet(events[..|events| - 1])
  }

  /** The packets written since an object was created or the target was set. */
  function Written(events: seq<Event>): nat {
    if events == [] then 0 else WrittenAfter(Written(events[..|events| - 1]), events[|events| - 1])
  }

  function WrittenAfter(written: nat, e: Event): nat {
    if IsReset(e) then 0 else if IsWrite(e) then written + 1 else written
  }

  /** A write ends a group of n packets, or is one more packet in it. */
  lemma OneMoreInGroup(written: nat, n: nat)
    requires 0 < n
    ensures (written + 1) % n == if written % n == n - 1 then 0 else written % n + 1
    ensures (written + 1) / n == written / n + (if (written + 1) % n == 0 then 1 else 0)
  {
    var q, r := written / n, written % n;
    if r == n - 1 {
      assert written + 1 == (q + 1) * n + 0;
      QuotientIsUnique(written + 1, n, q + 1, 0);
    } else {
      QuotientIsUnique(written + 1, n, q, r + 1);
    }
  }

  /** The counter holds the packets missing from the current group. */
  predicate Missing(c: Counters, written: nat) {
    c.target > 0 ==> c.left == c.target - written % c.target
  }

  lemma NextMissing(c: Counters, written: nat, e: Event)
    requires Missing(c, written)
    ensures Missing(Next(c, e), WrittenAfter(written, e))
  {
    if IsWrite(e) && c.target > 0 {
      OneMoreInGroup(written, c.target);
    } else if IsReset(e) && Next(c, e).target > 0 {
      assert 0 % Next(c, e).target == 0;
    }
  }

  /** Between callbacks the counter holds the packets missing from the current group: in
      1 to n for a target n, in spite of its 16 bits. */
  lemma {:induction false} CounterHoldsMissing(events: seq<Event>)
    ensures After(events).target == TargetSet(events)
    ensures Missing(After(events), Written(events))
    ensures TargetSet(events) > 0 ==> 1 <= After(events).left <= TargetSet(events)
    decreases |events|
  {
    hide Missing, WrittenAfter, Answered;
    if events == [] {
      NothingMissing();
    } else {
      var front, last := events[..|events| - 1], events[|events| - 1];
      CounterHoldsMissing(front);
      NextMissing(After(front), Written(front), last);
      NextTarget(After(front), last);
    }
    if TargetSet(events) > 0 {
      MissingInRange(After(events), Written(events));
    }
  }

  lemma NothingMissing()
    ensures Missing(INITIAL, 0)
  {
  }

  lemma NextTarget(c: Counters, e: Event)
    ensures Next(c, e).target == if e.Request? && e.op == ReceiptNotifSet then e.value else c.target
  {
  }

  lemma MissingInRange(c: Counters, written: nat)
    requires Missing(c, written) && c.target > 0
    ensures 1 <= c.left <= c.target
  {
  }

  /** The event completes a group of as many packets as the target says. */
  predicate Completes(events: seq<Event>, e: Event) {
    IsWrite(e) && TargetSet(events) > 0 && (Written(events) + 1) % TargetSet(events) == 0
  }

  /** A write is answered, with a checksum, exactly when it completes a group; with
      target 0 no write ever is. */
  lemma AnsweredWhenComplete(events: seq<Event>, result: ResultCode)
    ensures Answered(After(events), ObjectWrite, result).1
      == if Completes(events, Answer(ObjectWrite, result))
         then Some(Response(CrcGet, result, ResponseLength(CrcGet, result))) else None
  {
    hide After, TargetSet, Written;
    CounterHoldsMissing(events);
    if TargetSet(events) > 0 {
      OneMoreInGroup(Written(events), TargetSet(events));
    }
  }

  /** The responses sent in the course of the events, in order. */
  function Sent(events: seq<Event>): seq<Response> {
    if events == [] then []
    else
      var front, last := events[..|events| - 1], events[|events| - 1];
      Sent(front) +
      match last
      case Request(_, _) => []
      case Answer(op, result) =>
        (match Answered(After(front), op, result).1 case None => [] case Some(response) => [response])
  }

  /** Those that are due: each answer but those of writes, and a checksum with the result
      of the write for each group completed. */
  function Due(events: seq<Event>): seq<Response> {
    if events == [] then []
    else
      var front, last := events[..|events| - 1], events[|events| - 1];
      Due(front) +
      if last.Answer? && last.op != ObjectWrite then
        [Response(last.op, last.result, ResponseLength(last.op, last.result))]
      else if Completes(front, last) then
        [Response(CrcGet, last.result, ResponseLength(CrcGet, last.result))]
      else []
  }

  /** Over every sequence of events exactly the responses that are due are sent, in order. */
  lemma {:induction false} SentWhatIsDue(events: seq<Event>)
    ensures Sent(events) == Due(events)
    decreases |events|
  {
    hide After, Answered, Completes, ResponseLength;
    if events != [] {
      var front, last := events[..|events| - 1], events[|events| - 1];
      SentWhatIsDue(front);
      if last.Answer? {
        if last.op == ObjectWrite {
          AnsweredWhenComplete(front, last.result);
        } else {
          AnswerIsSent(After(front), last.op, last.result);
          OtherCompletesNothing(front, last);
        }
      } else {
        OtherCompletesNothing(front, last);
      }
    }
  }

  lemma OtherCompletesNothing(events: seq<Event>, e: Event)
    requires !IsWrite(e)
    ensures !Completes(events, e)
  {
  }

  /** The notifications sent in the course of some writes. */
  function Notified(before: seq<Event>, writes: seq<Event>): nat {
    if writes == [] then 0
    else
      var front, last := writes[..|writes| - 1], writes[|writes| - 1];
      Notified(before, front)
      + (if last.Answer? && Answered(After(before + front), last.op, last.result).1.Some? then 1 else 0)
  }

  /** From a reset, k writes bring exactly k / n notifications, and none with target 0. */
  lemma {:induction false} NotificationsPerWrites(before: seq<Event>, writes: seq<Event>)
    requires before != [] && IsReset(before[|before| - 1])
    requires forall k :: 0 <= k < |writes| ==> IsWrite(writes[k])
    ensures TargetSet(before + writes) == TargetSet(before) && Written(before + writes) == |writes|
    ensures Notified(before, writes) == if TargetSet(before) == 0 then 0 else |writes| / TargetSet(before)
    decreases |writes|
  {
    hide After, ResponseTo, Answered, Written, TargetSet;
    if writes == [] {
      assert before + writes == before;
      WrittenAtReset(before);
    } else {
      var front, last := writes[..|writes| - 1], writes[|writes| - 1];
      NotificationsPerWrites(before, front);
      assert before + writes == (before + front) + [last];
      WriteMore(before + front, last);
      AnsweredWhenComplete(before + front, last.result);
      if TargetSet(before) > 0 {
        OneMoreInGroup(|front|, TargetSet(before));
      }
    }
  }

  lemma WrittenAtReset(events: seq<Event>)
    requires events != [] && IsReset(events[|events| - 1])
    ensures Written(events) == 0
  {
  }

  lemma WriteMore(events: seq<Event>, e: Event)
    requires IsWrite(e)
    ensures TargetSet(events + [e]) == TargetSet(events)
    ensures Written(events + [e]) == Written(events) + 1
  {
    assert (events + [e])[..|events|] == events;
  }
}
