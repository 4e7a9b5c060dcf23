/**
 The network keep-alive monitor `NetworkCheck`
 (command/sub8_alarm/listeners/network_listener.py): it counts consecutive
 `'auto'` messages, remembers when the last message arrived, and on every
 timer event raises, clears, or leaves the network-timeout kill alarm.
 Times are in nanoseconds.
 */
module NetworkCheck {

  /** Default `timeout` (5.0 s) and `autonomous_msgs_req` of the constructor. */
  const DefaultTimeout: int := 5_000_000_000
  const DefaultAutoMsgsRequired: int := 50

  /** The monitor's state. */
  datatype Monitor = Monitor(timeout: int, lastTime: int, lastMsg: string,
                             autoMsgsRequired: int, autoMsgCount: nat)

  /** A keep-alive message and the time it was received. */
  datatype Message = Message(data: string, time: int)

  /** What one `check` does to the alarm. */
  datatype Decision = RaiseAlarm | ClearAlarm | NoChange

  /** `NetworkCheck.__init__`: no `'auto'` message yet, last message "now". */
  function Create(now: int, timeout: int, required: int): (m: Monitor)
    ensures m.autoMsgCount == 0 && m.lastTime == now
    ensures m.timeout == timeout && m.autoMsgsRequired == required
  {
    Monitor(timeout, now, "keep_alive", required, 0)
  }

  /** `got_network_msg`: record the message and its time; count or reset the `'auto'` run. */
  function GotNetworkMsg(m: Monitor, msg: Message): (r: Monitor)
    ensures r.lastMsg == msg.data && r.lastTime == msg.time
    ensures r.autoMsgCount == (if msg.data == "auto" then m.autoMsgCount + 1 else 0)
    ensures r.timeout == m.timeout && r.autoMsgsRequired == m.autoMsgsRequired
  {
    var count := if msg.data == "auto" then m.autoMsgCount + 1 else 0;
    m.(lastMsg := msg.data, lastTime := msg.time, autoMsgCount := count)
  }

  /** `need_kill`: strictly more than `timeout` has passed since the last message. */
  predicate NeedKill(m: Monitor, now: int)
  {
    now - m.lastTime > m.timeout
  }

  /** The timeout is strict: exactly `timeout` after the last message is not yet a timeout, one nanosecond later is. */
  lemma NeedKillAtTimeout(m: Monitor)
    ensures !NeedKill(m, m.lastTime + m.timeout)
    ensures NeedKill(m, m.lastTime + m.timeout + 1)
  {
  }

  /**
   `check`: after a timeout, raise the alarm unless enough `'auto'` messages
   came in a row (then leave it alone); before a timeout, clear it.
   */
  function Check(m: Monitor, now: int): (d: Decision)
    ensures d == RaiseAlarm <==> now - m.lastTime > m.timeout && m.autoMsgCount < m.autoMsgsRequired
    ensures d == ClearAlarm <==> now - m.lastTime <= m.timeout
    ensures d == NoChange <==> now - m.lastTime > m.timeout && m.autoMsgCount >= m.autoMsgsRequired
  {
    if NeedKill(m, now) then
      if m.autoMsgCount >= m.autoMsgsRequired then NoChange else RaiseAlarm
    else ClearAlarm
  }

  /** Deliver messages in order (the last one is applied last). */
  function Deliver(m: Monitor, msgs: seq<Message>): (r: Monitor)
    ensures r.timeout == m.timeout && r.autoMsgsRequired == m.autoMsgsRequired
    decreases |msgs|
  {
    if msgs == [] then m else GotNetworkMsg(Deliver(m, msgs[..|msgs| - 1]), msgs[|msgs| - 1])
  }

  /** Reference definition: the number of trailing consecutive `'auto'` messages. */
  function TrailingAuto(msgs: seq<Message>): nat
    decreases |msgs|
  {
    if msgs == [] || msgs[|msgs| - 1].data != "auto" then 0
    else 1 + TrailingAuto(msgs[..|msgs| - 1])
  }

  /** Reference definition: every message is `'auto'`. */
  predicate AllAuto(msgs: seq<Message>)
  {
    forall i | 0 <= i < |msgs| :: msgs[i].data == "auto"
  }

  /**
   The counter is the length of the trailing run of `'auto'` messages,
   extended by the starting count when every message was `'auto'`.
   */
  lemma {:induction false} CountIsTrailingRun(m: Monitor, msgs: seq<Message>)
    ensures Deliver(m, msgs).autoMsgCount ==
            if AllAuto(msgs) then m.autoMsgCount + |msgs| else TrailingAuto(msgs)
    decreases |msgs|
  {
    if msgs != [] {
      var init := msgs[..|msgs| - 1];
      CountIsTrailingRun(m, init);
      if AllAuto(msgs) {
        assert AllAuto(init);
      } else if msgs[|msgs| - 1].data == "auto" {
        assert !AllAuto(init);
      }
    }
  }

  /** From a fresh monitor the counter is exactly the trailing `'auto'` run. */
  lemma FreshCountIsTrailingRun(now: int, timeout: int, required: int, msgs: seq<Message>)
    ensures Deliver(Create(now, timeout, required), msgs).autoMsgCount == TrailingAuto(msgs)
  {
    CountIsTrailingRun(Create(now, timeout, required), msgs);
    if AllAuto(msgs) {
      AllAutoTrailing(msgs);
    }
  }

  lemma {:induction false} AllAutoTrailing(msgs: seq<Message>)
    requires AllAuto(msgs)
    ensures TrailingAuto(msgs) == |msgs|
    decreases |msgs|
  {
    if msgs != [] {
      AllAutoTrailing(msgs[..|msgs| - 1]);
    }
  }

  /** Every message updates the last time and text, whatever its content: the last one wins. */
  lemma LastMessageWins(m: Monitor, msgs: seq<Message>)
    requires msgs != []
    ensures Deliver(m, msgs).lastTime == msgs[|msgs| - 1].time
    ensures Deliver(m, msgs).lastMsg == msgs[|msgs| - 1].data
  {
  }

  /**
   A fresh monitor that has received `msgs` raises the alarm exactly when
   more than `timeout` has passed since the last message (or since
   construction, without messages) and fewer than the required `'auto'`
   messages came last in a row.
   */
  lemma {:induction false} RaiseIff(now0: int, timeout: int, required: int, msgs: seq<Message>, now: int)
    ensures var last := if msgs == [] then now0 else msgs[|msgs| - 1].time;
      Check(Deliver(Create(now0, timeout, required), msgs), now) == RaiseAlarm <==>
        now - last > timeout && TrailingAuto(msgs) < required
  {
    FreshCountIsTrailingRun(now0, timeout, required, msgs);
    if msgs != [] {
      LastMessageWins(Create(now0, timeout, required), msgs);
    }
  }

  /**
   With the constructor defaults (5 s, 50 messages), a monitor that heard
   nothing raises the alarm just after 5 s, but 50 consecutive `'auto'`
   messages keep it from being raised.
   */
  lemma DefaultMonitor(now0: int, msgs: seq<Message>)
    requires |msgs| == DefaultAutoMsgsRequired && AllAuto(msgs)
    ensures Check(Create(now0, DefaultTimeout, DefaultAutoMsgsRequired), now0 + 5_000_000_001) == RaiseAlarm
    ensures Check(Create(now0, DefaultTimeout, DefaultAutoMsgsRequired), now0 + 5_000_000_000) == ClearAlarm
    ensures forall now | now - msgs[|msgs| - 1].time > DefaultTimeout ::
      Check(Deliver(Create(now0, DefaultTimeout, DefaultAutoMsgsRequired), msgs), now) == NoChange
  {
    FreshCountIsTrailingRun(now0, DefaultTimeout, DefaultAutoMsgsRequired, msgs);
    AllAutoTrailing(msgs);
    LastMessageWins(Create(now0, DefaultTimeout, DefaultAutoMsgsRequired), msgs);
  }

  /** A freshly constructed monitor never raises before more than `timeout` has elapsed. */
  lemma NoEarlyRaise(now0: int, timeout: int, required: int, now: int)
    requires now - now0 <= timeout
    ensures Check(Create(now0, timeout, required), now) == ClearAlarm
  {
  }
}
