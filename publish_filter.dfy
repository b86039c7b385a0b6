/** The publishing side of ModbusTCPMqttDataGateway: after every poll it
    decides, tag by tag, whether the new value goes to the broker, and
    remembers what it last published for each tag. */
module PublishFilter {
  import opened Wrappers
  import opened PyNumbers
  import opened Dicts
  import opened Template

  /** A UTC timestamp: its text as formatted by the poll, and the instant it
      denotes in whole seconds. */
  datatype Timestamp = Timestamp(text: string, seconds: int)

  /** What was last published for a tag. */
  datatype Published = Published(tsUtc: Timestamp, tsLocal: string, value: PyFloat, limitFlag: bool)

  /** The body of an MQTT message: the bare value, or a JSON document with
      both timestamps and the value. */
  datatype Body = TextBody(value: PyFloat) | JsonBody(tsUtc: string, tsLocal: string, value: PyFloat)

  /** A message handed to the MQTT client. */
  datatype Message = Message(topic: string, body: Body, qos: int, retain: bool)

  /** One poll: its two timestamps and the combined tag values, in order. */
  datatype Poll = Poll(tsUtc: Timestamp, tsLocal: string, tags: Dict)

  /** Whether a tag is sent, and the limit flag remembered with it. */
  datatype Decision = Skip | Send(limitFlag: bool)

  /** The gateway's memory and what it has sent so far. */
  datatype State = State(published: map<string, Published>, outbox: seq<Message>)

  /** After one tag (or one cycle): the new state, and whether Python got
      through without a KeyError. */
  datatype Outcome = Outcome(state: State, ok: bool)

  /** `timedelta.seconds` of now - then: whole days are dropped. */
  function Elapsed(now: int, earlier: int): (r: int)
    ensures 0 <= r < 86400
    ensures now - earlier == 86400 * ((now - earlier) / 86400) + r
  {
    (now - earlier) % 86400
  }

  /** An mqtt helper entry the publisher can use. */
  predicate Complete(p: Policy)
  {
    p.topic.Some? && p.settings.Some?
  }

  function BodyOf(payload: Payload, value: PyFloat, tsUtc: Timestamp, tsLocal: string): Body
  {
    match payload
    case Json => JsonBody(tsUtc.text, tsLocal, value)
    case Text => TextBody(value)
  }

  /** mqtt_parse_publish_tag as a state transition: remember the value with
      its timestamps and flag, and send one message on the tag's topic. */
  function PublishTag(policies: map<string, Policy>, st: State, tag: string, value: PyFloat,
                      tsUtc: Timestamp, tsLocal: string, limitFlag: bool): Outcome
  {
    if tag in policies && Complete(policies[tag]) then
      var s := policies[tag].settings.value;
      Outcome(State(st.published[tag := Published(tsUtc, tsLocal, value, limitFlag)],
                    st.outbox + [Message(policies[tag].topic.value, BodyOf(s.payload, value, tsUtc, tsLocal), s.qos, s.retain)]),
              true)
    else Outcome(st, false)
  }

  /** The filter of one tag after the first cycle: a value at or below the
      low limit is sent with the flag raised; otherwise a raised flag is
      cleared by sending; the same for the high limit; then report by
      exception sends on a change larger than the deadband, and the
      interval mode sends once the interval has passed (with the deadband
      too when it is forced). */
  function Decide(s: Settings, last: Published, value: PyFloat, now: int, forceDeadband: bool): Decision
  {
    var delta := Abs(Sub(value, last.value));
    if s.low.Some? && Le(value, s.low.value) then Send(true)
    else if s.low.Some? && last.limitFlag then Send(false)
    else if s.high.Some? && Ge(value, s.high.value) then Send(true)
    else if s.high.Some? && last.limitFlag then Send(false)
    else match s.publish
      case Rbe => if Gt(delta, s.deadband) then Send(false) else Skip
      case Every(period) =>
        if !Ge(FromInt(Elapsed(now, last.tsUtc.seconds)), period) then Skip
        else if !forceDeadband then Send(false)
        else if Gt(delta, s.deadband) then Send(false)
        else Skip
  }

  /** One tag of one cycle. */
  function StepTag(policies: map<string, Policy>, forceDeadband: bool, first: bool, st: State, e: Entry,
                   tsUtc: Timestamp, tsLocal: string): Outcome
  {
    if first then PublishTag(policies, st, e.key, e.value, tsUtc, tsLocal, false)
    else if e.key !in st.published || e.key !in policies || policies[e.key].settings.None? then Outcome(st, false)
    else match Decide(policies[e.key].settings.value, st.published[e.key], e.value, tsUtc.seconds, forceDeadband)
      case Skip => Outcome(st, true)
      case Send(flag) => PublishTag(policies, st, e.key, e.value, tsUtc, tsLocal, flag)
  }

  /** The first n tags of a cycle; the cycle stops at the first failure. */
  function RunTags(policies: map<string, Policy>, forceDeadband: bool, first: bool, st: State, poll: Poll, n: nat): Outcome
    requires n <= |poll.tags|
  {
    if n == 0 then Outcome(st, true)
    else
      var o := RunTags(policies, forceDeadband, first, st, poll, n - 1);
      if !o.ok then o
      else StepTag(policies, forceDeadband, first, o.state, poll.tags[n - 1], poll.tsUtc, poll.tsLocal)
  }

  /** mqtt_publish_data as a function of the state before the cycle. */
  function Cycle(policies: map<string, Policy>, forceDeadband: bool, first: bool, st: State, poll: Poll): Outcome
  {
    RunTags(policies, forceDeadband, first, st, poll, |poll.tags|)
  }

  // ---------------------------------------------------------------------
  // Properties of the filter
  // ---------------------------------------------------------------------

  /** A value at or below the low limit is sent, flagged, every cycle it
      stays there, whatever was sent before. */
  lemma {:induction false} LemmaLowLimitRepeats(s: Settings, last: Published, value: PyFloat, now: int, force: bool)
    requires s.low.Some? && Le(value, s.low.value)
    ensures Decide(s, last, value, now, force) == Send(true)
  {
  }

  /** The flag is shared by both limits: with a low limit configured, a
      raised flag is cleared by the low-limit recovery before the high
      limit is looked at, even when the value is at or above the high
      limit. */
  lemma {:induction false} LemmaRecoveryPreemptsHigh(s: Settings, last: Published, value: PyFloat, now: int, force: bool)
    requires s.low.Some? && !Le(value, s.low.value) && last.limitFlag
    ensures Decide(s, last, value, now, force) == Send(false)
  {
  }

  /** A flagged send happens exactly when the value is at or below the low
      limit, or at or above the high limit without a pending low-limit
      recovery. */
  lemma {:induction false} LemmaAlarmIff(s: Settings, last: Published, value: PyFloat, now: int, force: bool)
    ensures Decide(s, last, value, now, force) == Send(true) <==>
      (s.low.Some? && Le(value, s.low.value)) ||
      (s.high.Some? && Ge(value, s.high.value) && !(s.low.Some? && last.limitFlag))
  {
  }

  /** Inside the limits with no flag raised, report by exception sends
      exactly when the change since the last published value is strictly
      larger than the deadband. */
  lemma {:induction false} LemmaDeadband(s: Settings, last: Published, value: PyFloat, now: int, force: bool)
    requires s.publish.Rbe?
    requires s.low.None? || (!Le(value, s.low.value) && !last.limitFlag)
    requires s.high.None? || (!Ge(value, s.high.value) && !last.limitFlag)
    ensures Decide(s, last, value, now, force) != Send(true)
    ensures Decide(s, last, value, now, force).Send? <==> Gt(Abs(Sub(value, last.value)), s.deadband)
  {
  }

  /** A change equal to the deadband is not reported; a larger one is. */
  lemma {:induction false} ExampleStrictDeadband(last: Published, now: int, force: bool)
    requires last.value == Num(10.0) && !last.limitFlag
    ensures var s := Settings(Text, 0, false, Rbe, Num(2.0), None, None);
      Decide(s, last, Num(12.0), now, force) == Skip &&
      Decide(s, last, Num(12.0001), now, force) == Send(false) &&
      Decide(s, last, Num(7.9), now, force) == Send(false)
  {
  }

  /** Inside the limits with no flag raised, the interval mode sends once
      the elapsed seconds reach the interval; with the deadband forced the
      change must also exceed the deadband. */
  lemma {:induction false} LemmaInterval(s: Settings, last: Published, value: PyFloat, now: int, force: bool)
    requires s.publish.Every?
    requires s.low.None? || (!Le(value, s.low.value) && !last.limitFlag)
    requires s.high.None? || (!Ge(value, s.high.value) && !last.limitFlag)
    ensures Decide(s, last, value, now, force) != Send(true)
    ensures Decide(s, last, value, now, force).Send? <==>
      Ge(FromInt(Elapsed(now, last.tsUtc.seconds)), s.publish.seconds) &&
      (!force || Gt(Abs(Sub(value, last.value)), s.deadband))
  {
  }

  /** The elapsed time drops whole days: a tag published one day and five
      seconds ago counts as published five seconds ago. */
  lemma {:induction false} ExampleDaysDropped(last: Published, value: PyFloat, force: bool)
    requires last.tsUtc.seconds == 0 && !last.limitFlag
    ensures Elapsed(86405, 0) == 5
    ensures Decide(Settings(Text, 0, false, Every(Num(10.0)), Num(0.0), None, None), last, value, 86405, force) == Skip
  {
  }

  /** The low-limit hysteresis over three cycles of a report-by-exception
      tag with only a low limit: a value at or below the limit is sent with
      the flag raised; the next value above it is sent once, clearing the
      flag; after that a value above the limit is sent exactly when it
      moved further than the deadband from the recovery value. */
  lemma {:induction false} LemmaLowLimitHysteresis(policies: map<string, Policy>, force: bool, st: State, tag: string,
                                                   v0: PyFloat, v1: PyFloat, v2: PyFloat,
                                                   t0: Timestamp, t1: Timestamp, t2: Timestamp, l0: string, l1: string, l2: string)
    requires tag in policies && Complete(policies[tag]) && tag in st.published
    requires var s := policies[tag].settings.value;
      s.low.Some? && s.high.None? && s.publish.Rbe? &&
      Le(v0, s.low.value) && !Le(v1, s.low.value) && !Le(v2, s.low.value)
    ensures var s := policies[tag].settings.value;
      var o0 := StepTag(policies, force, false, st, Entry(tag, v0), t0, l0);
      var o1 := StepTag(policies, force, false, o0.state, Entry(tag, v1), t1, l1);
      var o2 := StepTag(policies, force, false, o1.state, Entry(tag, v2), t2, l2);
      o0.ok && o0.state.published[tag] == Published(t0, l0, v0, true) && |o0.state.outbox| == |st.outbox| + 1 &&
      o1.ok && o1.state.published[tag] == Published(t1, l1, v1, false) && |o1.state.outbox| == |o0.state.outbox| + 1 &&
      o2.ok && (|o2.state.outbox| == |o1.state.outbox| + 1 <==> Gt(Abs(Sub(v2, v1)), s.deadband)) &&
      (|o2.state.outbox| == |o1.state.outbox| + 1 ==> o2.state.published[tag].limitFlag == false) &&
      (|o2.state.outbox| != |o1.state.outbox| + 1 ==> o2.state == o1.state)
  {
    var s := policies[tag].settings.value;
    var o0 := StepTag(policies, force, false, st, Entry(tag, v0), t0, l0);
    LemmaLowLimitRepeats(s, st.published[tag], v0, t0.seconds, force);
    var o1 := StepTag(policies, force, false, o0.state, Entry(tag, v1), t1, l1);
    LemmaRecoveryPreemptsHigh(s, o0.state.published[tag], v1, t1.seconds, force);
    LemmaDeadband(s, o1.state.published[tag], v2, t2.seconds, force);
  }

  /** Publishing one tag changes the memory of that tag only, and sends
      exactly one message, on that tag's topic. */
  lemma {:induction false} LemmaPublishTagFrame(policies: map<string, Policy>, st: State, tag: string, value: PyFloat,
                             tsUtc: Timestamp, tsLocal: string, flag: bool)
    ensures var o := PublishTag(policies, st, tag, value, tsUtc, tsLocal, flag);
      (o.ok <==> tag in policies && Complete(policies[tag])) &&
      (o.ok ==> o.state.published == st.published[tag := Published(tsUtc, tsLocal, value, flag)] &&
                |o.state.outbox| == |st.outbox| + 1 && o.state.outbox[..|st.outbox|] == st.outbox &&
                o.state.outbox[|st.outbox|].topic == policies[tag].topic.value) &&
      (!o.ok ==> o.state == st)
  {
    var o := PublishTag(policies, st, tag, value, tsUtc, tsLocal, flag);
    if o.ok {
      assert o.state.outbox[..|st.outbox|] == st.outbox;
    }
  }

  /** One tag's step leaves every other tag's memory as it was, and keeps
      the messages already sent. */
  lemma {:induction false} LemmaStepTagFrame(policies: map<string, Policy>, force: bool, first: bool, st: State, e: Entry,
                          tsUtc: Timestamp, tsLocal: string, k: string)
    requires k != e.key
    ensures var o := StepTag(policies, force, first, st, e, tsUtc, tsLocal);
      (k in o.state.published <==> k in st.published) &&
      (k in st.published ==> o.state.published[k] == st.published[k]) &&
      |st.outbox| <= |o.state.outbox| <= |st.outbox| + 1 &&
      o.state.outbox[..|st.outbox|] == st.outbox
  {
    var o := StepTag(policies, force, first, st, e, tsUtc, tsLocal);
    assert o.state.outbox[..|st.outbox|] == st.outbox;
  }

  /** Every tag with a usable mqtt helper entry. */
  predicate AllComplete(policies: map<string, Policy>, tags: Dict)
  {
    forall k :: 0 <= k < |tags| ==> tags[k].key in policies && Complete(policies[tags[k].key])
  }

  /** The first cycle after a start sends every tag, one message per tag,
      and remembers for each the value it last carried, with the flag
      down. */
  lemma {:induction false} LemmaFirstCycle(policies: map<string, Policy>, force: bool, st: State, poll: Poll, n: nat, tag: string)
    requires n <= |poll.tags| && AllComplete(policies, poll.tags)
    ensures var o := RunTags(policies, force, true, st, poll, n);
      o.ok && |o.state.outbox| == |st.outbox| + n &&
      (LastWrite(poll.tags[..n], tag).Some? ==>
        tag in o.state.published &&
        o.state.published[tag] == Published(poll.tsUtc, poll.tsLocal, LastWrite(poll.tags[..n], tag).value, false)) &&
      (LastWrite(poll.tags[..n], tag).None? ==>
        (tag in o.state.published <==> tag in st.published) &&
        (tag in st.published ==> o.state.published[tag] == st.published[tag]))
  {
    if n > 0 {
      LemmaFirstCycle(policies, force, st, poll, n - 1, tag);
      assert poll.tags[..n][..n - 1] == poll.tags[..n - 1];
      assert poll.tags[..n][n - 1] == poll.tags[n - 1];
    }
  }

  /** A cycle stops at its first failure: later tags change nothing. */
  lemma {:induction false} LemmaRunTagsStops(policies: map<string, Policy>, force: bool, first: bool, st: State, poll: Poll,
                                             n: nat, m: nat)
    requires n <= m <= |poll.tags|
    requires !RunTags(policies, force, first, st, poll, n).ok
    ensures RunTags(policies, force, first, st, poll, m) == RunTags(policies, force, first, st, poll, n)
  {
    if m > n {
      LemmaRunTagsStops(policies, force, first, st, poll, n, m - 1);
    }
  }

  /** After a cycle, a tag that does not occur in the poll keeps its
      memory. */
  lemma {:induction false} LemmaOthersUntouched(policies: map<string, Policy>, force: bool, first: bool, st: State, poll: Poll,
                                               n: nat, tag: string)
    requires n <= |poll.tags|
    requires forall k :: 0 <= k < n ==> poll.tags[k].key != tag
    ensures var o := RunTags(policies, force, first, st, poll, n);
      (tag in o.state.published <==> tag in st.published) &&
      (tag in st.published ==> o.state.published[tag] == st.published[tag]) &&
      |st.outbox| <= |o.state.outbox| && o.state.outbox[..|st.outbox|] == st.outbox
  {
    if n > 0 {
      LemmaOthersUntouched(policies, force, first, st, poll, n - 1, tag);
      var o := RunTags(policies, force, first, st, poll, n - 1);
      LemmaStepTagFrame(policies, force, first, o.state, poll.tags[n - 1], poll.tsUtc, poll.tsLocal, tag);
    }
  }

  // ---------------------------------------------------------------------
  // The gateway
  // ---------------------------------------------------------------------

  class Gateway {
    var policies: map<string, Policy>
    var published: map<string, Published>
    var outbox: seq<Message>
    var publishCount: nat
    var forceDeadband: bool

    /** A gateway over the mqtt helper of a loaded template, before its
        first cycle. */
    constructor (policies: map<string, Policy>, forceDeadband: bool)
      ensures this.policies == policies && this.forceDeadband == forceDeadband
      ensures published == map[] && outbox == [] && publishCount == 0
    {
      this.policies := policies;
      this.forceDeadband := forceDeadband;
      published := map[];
      outbox := [];
      publishCount := 0;
    }

    function Current(): State
      reads this
    {
      State(published, outbox)
    }

    /** mqtt_parse_publish_tag; false when the tag's mqtt helper entry is
        missing or incomplete (a KeyError), in which case nothing changes. */
    method ParsePublishTag(tag: string, value: PyFloat, tsUtc: Timestamp, tsLocal: string, limitFlag: bool)
      returns (ok: bool)
      modifies this
      ensures Outcome(Current(), ok) == PublishTag(policies, old(Current()), tag, value, tsUtc, tsLocal, limitFlag)
      ensures publishCount == if ok then old(publishCount) + 1 else old(publishCount)
      ensures |outbox| == if ok then |old(outbox)| + 1 else |old(outbox)|
      ensures policies == old(policies) && forceDeadband == old(forceDeadband)
    {
      if tag !in policies || policies[tag].topic.None? || policies[tag].settings.None? {
        return false;
      }
      var topic := policies[tag].topic.value;
      var s := policies[tag].settings.value;
      var body: Body;
      if s.payload == Json {
        body := JsonBody(tsUtc.text, tsLocal, value);
      } else {
        body := TextBody(value);
      }
      published := published[tag := Published(tsUtc, tsLocal, value, limitFlag)];
      publishCount := publishCount + 1;
      outbox := outbox + [Message(topic, body, s.qos, s.retain)];
      ok := true;
    }

    /** mqtt_publish_data: the first cycle (no previous poll) sends every
        tag; later cycles filter each tag against what was last sent. False
        when a KeyError stopped the cycle; the tags before it stay sent. */
    method PublishData(previous: Option<Poll>, current: Poll) returns (ok: bool)
      modifies this
      ensures Outcome(Current(), ok) == Cycle(policies, forceDeadband, previous.None?, old(Current()), current)
      ensures publishCount == old(publishCount) + |outbox| - |old(outbox)|
      ensures policies == old(policies) && forceDeadband == old(forceDeadband)
    {
      var first := previous.None?;
      var i := 0;
      ok := true;
      while i < |current.tags|
        invariant 0 <= i <= |current.tags|
        invariant policies == old(policies) && forceDeadband == old(forceDeadband)
        invariant publishCount == old(publishCount) + |outbox| - |old(outbox)|
        invariant Outcome(Current(), true) == RunTags(policies, forceDeadband, first, old(Current()), current, i)
      {
        var e := current.tags[i];
        if first {
          ok := ParsePublishTag(e.key, e.value, current.tsUtc, current.tsLocal, false);
        } else {
          if e.key !in published || e.key !in policies || policies[e.key].settings.None? {
            ok := false;
          } else {
            ok := FilterTag(e, current.tsUtc, current.tsLocal);
          }
        }
        if !ok {
          LemmaRunTagsStops(policies, forceDeadband, first, old(Current()), current, i + 1, |current.tags|);
          return;
        }
        i := i + 1;
      }
    }

    /** The limit, deadband and interval checks of one tag after the first
        cycle. */
    method FilterTag(e: Entry, tsUtc: Timestamp, tsLocal: string) returns (ok: bool)
      requires e.key in published && e.key in policies && policies[e.key].settings.Some?
      modifies this
      ensures Outcome(Current(), ok) == StepTag(policies, forceDeadband, false, old(Current()), e, tsUtc, tsLocal)
      ensures publishCount == old(publishCount) + |outbox| - |old(outbox)|
      ensures policies == old(policies) && forceDeadband == old(forceDeadband)
    {
      var last := published[e.key];
      var s := policies[e.key].settings.value;
      var delta := Abs(Sub(e.value, last.value));
      ok := true;
      if s.low.Some? {
        if Le(e.value, s.low.value) {
          ok := ParsePublishTag(e.key, e.value, tsUtc, tsLocal, true);
          return;
        } else if last.limitFlag {
          ok := ParsePublishTag(e.key, e.value, tsUtc, tsLocal, false);
          return;
        }
      }
      if s.high.Some? {
        if Ge(e.value, s.high.value) {
          ok := ParsePublishTag(e.key, e.value, tsUtc, tsLocal, true);
          return;
        } else if last.limitFlag {
          ok := ParsePublishTag(e.key, e.value, tsUtc, tsLocal, false);
          return;
        }
      }
      if s.publish == Rbe {
        if Gt(delta, s.deadband) {
          ok := ParsePublishTag(e.key, e.value, tsUtc, tsLocal, false);
        }
      } else if Ge(FromInt(Elapsed(tsUtc.seconds, last.tsUtc.seconds)), s.publish.seconds) {
        if !forceDeadband {
          ok := ParsePublishTag(e.key, e.value, tsUtc, tsLocal, false);
        } else if Gt(delta, s.deadband) {
          ok := ParsePublishTag(e.key, e.value, tsUtc, tsLocal, false);
        }
      }
    }
  }
}
