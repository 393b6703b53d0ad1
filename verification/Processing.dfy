/**
 What a node makes of the frames it takes out of its radio, and what one call
 of `write` comes to, waiting included: the driver is proved against this.
 */
module Processing {
  import opened Bits
  import opened Basics
  import opened OctalTree
  import opened OctalValue
  import opened NodeRouting
  import opened PhysicalPipes
  import opened Delivery
  import opened Radio
  import opened Fragments
  import NetworkAck

  // What a node's decisions depend on.
  datatype Setup = Setup(me: uint16, level: nat, noPoll: bool, relay: bool, sysMsgs: bool)

  // What came of a frame: what went on the air, whether `enqueue` got it, the value to return if it sets one, and
  // whether `update` returns at once.
  datatype Effect = Effect(puts: seq<OnAir>, queued: bool, value: Option<byte>, stops: bool)

  // A frame out of the radio; whether the radio's queue was stuck then, what became of what was sent because of the
  // frame, and what `enqueue` made of it; and what came of it all.
  datatype Take =
    Take(size: nat, frame: Frame, stuck: bool, ok: bool, ackOk: bool, result: int, effect: Effect)

  ghost predicate WellAddressed(t: Take) {
    t.size >= 8 && ValidAddress(t.frame.header.to) && ValidAddress(t.frame.header.from)
  }

  // Address answers and requests for one are passed on, unless they have arrived.
  predicate PassedOn(s: Setup, kind: byte) {
    (kind == NETWORK_ADDR_RESPONSE && s.me != DEFAULT_ADDRESS) || (kind == NETWORK_REQ_ADDRESS && s.me != 0)
  }

  // The caller of `update` is to see acknowledgements, and all system messages if it wants to.
  predicate Surfaces(s: Setup, kind: byte) {
    && ((s.sysMsgs && kind > 127) || kind == NetworkAck.NETWORK_ACK)
    && kind != FIRST_FRAGMENT && kind != MORE_FRAGMENTS && kind != EXTERNAL_DATA_TYPE && kind != LAST_FRAGMENT
  }

  const NO_EFFECT := Effect([], false, None, false)

  // What `enqueue` makes of a frame: external data stops `update`.
  function Enqueued(puts: seq<OnAir>, kind: byte, result: int): Effect {
    Effect(puts, true, Some(if result == 2 then EXTERNAL_DATA_TYPE else kind), result == 2)
  }

  // An address answer or a request that is passed on.
  ghost function SystemEffect(s: Setup, frame: Frame, stuck: bool, ok: bool): Effect {
    var kind := frame.header.kind;
    Effect(if kind == NETWORK_ADDR_RESPONSE && s.me != DEFAULT_ADDRESS then AnswerPassedOn(s.me, frame, stuck, ok)
           else RequestPassedOn(s.me, frame, stuck, ok), false, Some(kind), false)
  }

  // A frame that stays here is for the caller of `update`, or for the queue.
  function KeptEffect(s: Setup, kind: byte, result: int): Effect {
    if Surfaces(s, kind) then Effect([], false, Some(kind), true) else Enqueued([], kind, result)
  }

  // A frame for this node.
  ghost function OwnEffect(s: Setup, t: Take): Effect {
    var kind := t.frame.header.kind;
    if kind == NETWORK_PING then Effect([], false, Some(kind), false)
    else if PassedOn(s, kind) then SystemEffect(s, t.frame, t.stuck, t.ok)
    else KeptEffect(s, kind, t.result)
  }

  ghost function PollEffect(s: Setup, frame: Frame, stuck: bool, ok: bool): Effect {
    Effect(if s.noPoll || s.me == DEFAULT_ADDRESS then [] else PollAnswered(s.me, frame, stuck, ok),
           false, Some(0), false)
  }

  ghost function PassedDown(s: Setup, frame: Frame, stuck: bool, ok: bool): seq<OnAir> {
    if s.relay && s.level <= 2 then NextLevel(s.me, s.level, frame, stuck, ok) else []
  }

  // A frame for a whole level: a poll is answered, anything else goes on to the next level and to the queue.
  ghost function LevelEffect(s: Setup, t: Take): Effect {
    var kind := t.frame.header.kind;
    if kind == NETWORK_POLL then PollEffect(s, t.frame, t.stuck, t.ok)
    else Enqueued(PassedDown(s, t.frame, t.stuck, t.ok), kind, t.result)
  }

  // A frame for another node: it is forwarded, and answered by the last relay.
  ghost function RelayEffect(s: Setup, t: Take): Effect {
    if s.me == DEFAULT_ADDRESS then Effect([], false, Some(t.frame.header.kind), false)
    else
      Effect(Payload(s.me, t.frame.header.to, TX_ROUTED, t.frame, t.stuck, false, t.ok) +
             Answer(s.me, t.frame.header.to, TX_ROUTED, t.frame, t.ok, t.ackOk), false, Some(0), false)
  }

  ghost function EffectOf(s: Setup, t: Take): Effect {
    if !WellAddressed(t) then NO_EFFECT
    else if t.frame.header.to == s.me then OwnEffect(s, t)
    else if t.frame.header.to == MULTICAST_ADDRESS then LevelEffect(s, t)
    else RelayEffect(s, t)
  }

  ghost predicate Faithful(s: Setup, t: Take) {
    t.effect == EffectOf(s, t)
  }

  function Nth<T>(ts: seq<T>, i: nat): T
    requires i < |ts|
  {
    ts[i]
  }

  ghost predicate AllFaithful(s: Setup, takes: seq<Take>) {
    forall i :: 0 <= i < |takes| ==> Faithful(s, Nth(takes, i))
  }

  // ----- One call of `update`

  datatype Ending = Stopped | Empty | TimedOut

  datatype Session = Session(takes: seq<Take>, ending: Ending)

  // Everything the node has been told: whether frames were there, the frames, and what `enqueue` made of some.
  datatype Heard = Heard(polls: seq<bool>, inbox: seq<(nat, Frame)>, queued: seq<(Frame, int)>)

  function Taking(h: Heard, size: nat, frame: Frame): Heard {
    h.(polls := h.polls + [true], inbox := h.inbox + [(size, frame)])
  }

  function Queueing(h: Heard, frame: Frame, result: int): Heard {
    h.(queued := h.queued + [(frame, result)])
  }

  function HeardOne(h: Heard, t: Take): Heard {
    if t.effect.queued then Queueing(Taking(h, t.size, t.frame), t.frame, t.result) else Taking(h, t.size, t.frame)
  }

  function HeardThese(h: Heard, takes: seq<Take>): Heard {
    if takes == [] then h else HeardOne(HeardThese(h, takes[..|takes| - 1]), takes[|takes| - 1])
  }

  // It asked once more in the end, unless it was stopped.
  function HeardSession(h: Heard, u: Session): Heard {
    var after := HeardThese(h, u.takes);
    if u.ending == Stopped then after else after.(polls := after.polls + [u.ending == TimedOut])
  }

  function AllPuts(takes: seq<Take>): seq<OnAir> {
    if takes == [] then [] else AllPuts(takes[..|takes| - 1]) + takes[|takes| - 1].effect.puts
  }

  function NewValue(before: byte, t: Take): byte {
    if t.effect.value.Some? then t.effect.value.value else before
  }

  function Returned(takes: seq<Take>): byte {
    if takes == [] then 0 else NewValue(Returned(takes[..|takes| - 1]), takes[|takes| - 1])
  }

  // Only the last frame may stop it, and then it does.
  ghost predicate Proper(u: Session) {
    && (forall i :: 0 <= i < |u.takes| - 1 ==> !u.takes[i].effect.stops)
    && (u.ending == Stopped <==> u.takes != [] && u.takes[|u.takes| - 1].effect.stops)
  }

  // ----- Waiting for an acknowledgement

  function WaitPuts(waited: seq<Session>): seq<OnAir> {
    if waited == [] then [] else WaitPuts(waited[..|waited| - 1]) + AllPuts(waited[|waited| - 1].takes)
  }

  function HeardWaiting(h: Heard, waited: seq<Session>): Heard {
    if waited == [] then h else HeardSession(HeardWaiting(h, waited[..|waited| - 1]), waited[|waited| - 1])
  }

  predicate SawAck(u: Session) {
    Returned(u.takes) == NetworkAck.NETWORK_ACK
  }

  predicate Acknowledged(waited: seq<Session>) {
    waited != [] && SawAck(waited[|waited| - 1])
  }

  // Updates one after the other, no more after one that saw an acknowledgement.
  ghost predicate Waiting(s: Setup, waited: seq<Session>) {
    && (forall i :: 0 <= i < |waited| ==> Proper(Nth(waited, i)) && AllFaithful(s, Nth(waited, i).takes))
    && (forall i :: 0 <= i < |waited| - 1 ==> !SawAck(Nth(waited, i)))
  }

  // ----- One call of `write`

  // Whether the queue was stuck and a burst going on, what became of the hop and the answer, how a burst that the
  // wait ends is drained, and the updates of the wait.
  datatype Call = Call(stuck: bool, burst: bool, hop: bool, ackOk: bool, drained: bool, waited: seq<Session>)

  function WaitLog(burst: bool, drained: bool, waited: seq<Session>): seq<OnAir> {
    if waited == [] then [] else (if burst then [Reported(drained)] else []) + WaitPuts(waited)
  }

  // What the hop comes to.
  ghost function HopLog(s: Setup, toNode: uint16, sendType: nat, frame: Frame, stuck: bool, burst: bool, hop: bool,
                        ackOk: bool): seq<OnAir> {
    Payload(s.me, toNode, sendType, frame, stuck, burst, hop) + Answer(s.me, toNode, sendType, frame, hop, ackOk)
  }

  // What goes on the air, in this order: the frame, the answer, and what comes of the wait.
  ghost function CallLog(s: Setup, toNode: uint16, sendType: nat, frame: Frame, c: Call): seq<OnAir> {
    HopLog(s, toNode, sendType, frame, c.stuck, c.burst, c.hop, c.ackOk) + WaitLog(c.burst, c.drained, c.waited)
  }

  // It waits exactly when the hop worked out and the answer is to come from further on.
  ghost predicate CallOk(s: Setup, toNode: uint16, sendType: nat, frame: Frame, c: Call) {
    && (c.burst ==> c.hop == !c.stuck) && Waiting(s, c.waited)
    && (c.waited != [] <==> c.hop && Waits(s.me, toNode, sendType, frame.header.kind))
  }

  // What it returns: whether the hop worked out and, if it waited, whether it saw an acknowledgement.
  predicate Succeeded(c: Call) {
    c.hop && (c.waited != [] ==> Acknowledged(c.waited))
  }

  // ----- From one state to the next

  // A frame taken has led from one log and one record of what was told to others, and from one value to return.
  ghost predicate TakeDone(s: Setup, t: Take, before: seq<OnAir>, log: seq<OnAir>, h: Heard, heard: Heard,
                           v: byte, v': byte, stop: bool) {
    && Faithful(s, t) && log == before + t.effect.puts && heard == HeardOne(h, t)
    && v' == NewValue(v, t) && stop == t.effect.stops
  }

  ghost predicate TakesDone(s: Setup, takes: seq<Take>, before: seq<OnAir>, log: seq<OnAir>, h: Heard, heard: Heard,
                            v: byte) {
    && AllFaithful(s, takes) && log == before + AllPuts(takes) && heard == HeardThese(h, takes)
    && v == Returned(takes)
  }

  ghost predicate NoneStops(takes: seq<Take>) {
    forall i :: 0 <= i < |takes| ==> !takes[i].effect.stops
  }

  lemma TakesStart(s: Setup, before: seq<OnAir>, h: Heard)
    ensures TakesDone(s, [], before, before, h, h, 0) && NoneStops([])
  {
  }

  lemma TakesNext(s: Setup, takes: seq<Take>, t: Take, before: seq<OnAir>, mid: seq<OnAir>, log: seq<OnAir>,
                  h: Heard, m: Heard, heard: Heard, v: byte, v': byte, stop: bool)
    requires TakesDone(s, takes, before, mid, h, m, v) && TakeDone(s, t, mid, log, m, heard, v, v', stop)
    ensures TakesDone(s, takes + [t], before, log, h, heard, v')
    ensures NoneStops(takes) && !stop ==> NoneStops(takes + [t])
    ensures NoneStops(takes) && stop ==> Proper(Session(takes + [t], Stopped))
  {
    assert (takes + [t])[..|takes|] == takes;
    Rebracket(before, AllPuts(takes), t.effect.puts);
    FaithfulToo(s, takes, t);
  }

  lemma FaithfulToo(s: Setup, takes: seq<Take>, t: Take)
    requires AllFaithful(s, takes) && Faithful(s, t)
    ensures AllFaithful(s, takes + [t])
  {
    forall i | 0 <= i < |takes + [t]|
      ensures Faithful(s, Nth(takes + [t], i))
    {
      assert i < |takes| ==> Nth(takes + [t], i) == Nth(takes, i);
    }
  }

  // A session of `update` has led from one state to another.
  ghost predicate SessionDone(s: Setup, u: Session, before: seq<OnAir>, log: seq<OnAir>, h: Heard, heard: Heard,
                              v: byte) {
    && Proper(u) && AllFaithful(s, u.takes) && log == before + AllPuts(u.takes) && heard == HeardSession(h, u)
    && v == Returned(u.takes)
  }

  lemma SessionRunsOut(s: Setup, takes: seq<Take>, timedOut: bool, before: seq<OnAir>, log: seq<OnAir>, h: Heard,
                       m: Heard, heard: Heard, v: byte) returns (u: Session)
    requires TakesDone(s, takes, before, log, h, m, v) && NoneStops(takes)
    requires heard == m.(polls := m.polls + [timedOut])
    ensures u == Session(takes, if timedOut then TimedOut else Empty)
    ensures SessionDone(s, u, before, log, h, heard, v)
  {
    u := Session(takes, if timedOut then TimedOut else Empty);
  }

  lemma SessionStops(s: Setup, takes: seq<Take>, before: seq<OnAir>, log: seq<OnAir>, h: Heard, heard: Heard, v: byte)
    returns (u: Session)
    requires TakesDone(s, takes, before, log, h, heard, v) && Proper(Session(takes, Stopped))
    ensures u == Session(takes, Stopped) && SessionDone(s, u, before, log, h, heard, v)
  {
    u := Session(takes, Stopped);
  }

  // A wait has led from one state to another.
  ghost predicate WaitDone(s: Setup, waited: seq<Session>, before: seq<OnAir>, log: seq<OnAir>, h: Heard,
                           heard: Heard) {
    Waiting(s, waited) && log == before + WaitPuts(waited) && heard == HeardWaiting(h, waited)
  }

  lemma WaitStart(s: Setup, before: seq<OnAir>, h: Heard)
    ensures WaitDone(s, [], before, before, h, h) && !Acknowledged([])
  {
  }

  lemma WaitNext(s: Setup, waited: seq<Session>, u: Session, before: seq<OnAir>, mid: seq<OnAir>, log: seq<OnAir>,
                 h: Heard, m: Heard, heard: Heard, v: byte) returns (more: seq<Session>)
    requires WaitDone(s, waited, before, mid, h, m) && !Acknowledged(waited)
    requires SessionDone(s, u, mid, log, m, heard, v)
    ensures more == waited + [u] && WaitDone(s, more, before, log, h, heard)
    ensures Acknowledged(more) <==> v == NetworkAck.NETWORK_ACK
  {
    more := waited + [u];
    assert more[..|waited|] == waited;
    Rebracket(before, WaitPuts(waited), AllPuts(u.takes));
    WaitingToo(s, waited, u);
  }

  lemma WaitingToo(s: Setup, waited: seq<Session>, u: Session)
    requires Waiting(s, waited) && !Acknowledged(waited) && Proper(u) && AllFaithful(s, u.takes)
    ensures Waiting(s, waited + [u])
  {
    var more := waited + [u];
    forall i | 0 <= i < |more|
      ensures Proper(Nth(more, i)) && AllFaithful(s, Nth(more, i).takes) && (i < |waited| ==> !SawAck(Nth(more, i)))
    {
      assert i < |waited| ==> Nth(more, i) == Nth(waited, i);
    }
  }

  // A call of `write` has led from one state to another: what it returns, and whether a burst goes on.
  ghost predicate CallDone(s: Setup, toNode: uint16, sendType: nat, frame: Frame, c: Call, before: seq<OnAir>,
                           log: seq<OnAir>, h: Heard, heard: Heard, ok: bool, on: bool) {
    && CallOk(s, toNode, sendType, frame, c) && log == before + CallLog(s, toNode, sendType, frame, c)
    && heard == HeardWaiting(h, c.waited) && ok == Succeeded(c) && on == (c.burst && c.waited == [])
  }

  // The hop has led from one log to another, and whether a wait is to follow.
  ghost predicate HopDone(s: Setup, toNode: uint16, sendType: nat, frame: Frame, stuck: bool, burst: bool, hop: bool,
                          ackOk: bool, wait: bool, before: seq<OnAir>, log: seq<OnAir>) {
    && log == before + HopLog(s, toNode, sendType, frame, stuck, burst, hop, ackOk)
    && (burst ==> hop == !stuck) && (wait <==> hop && Waits(s.me, toNode, sendType, frame.header.kind))
  }

  lemma HopEnds(s: Setup, toNode: uint16, sendType: nat, frame: Frame, stuck: bool, burst: bool, hop: bool, ackOk: bool,
                wait: bool, before: seq<OnAir>, mid: seq<OnAir>, log: seq<OnAir>)
    requires mid == before + Payload(s.me, toNode, sendType, frame, stuck, burst, hop)
    requires log == mid + Answer(s.me, toNode, sendType, frame, hop, ackOk)
    requires (burst ==> hop == !stuck) && (wait <==> hop && Waits(s.me, toNode, sendType, frame.header.kind))
    ensures HopDone(s, toNode, sendType, frame, stuck, burst, hop, ackOk, wait, before, log)
  {
    Rebracket(before, Payload(s.me, toNode, sendType, frame, stuck, burst, hop),
              Answer(s.me, toNode, sendType, frame, hop, ackOk));
  }

  // What follows has led on from there: a wait, or nothing.
  ghost predicate SettleDone(s: Setup, burst: bool, drained: bool, hop: bool, wait: bool, waited: seq<Session>,
                             before: seq<OnAir>, log: seq<OnAir>, h: Heard, heard: Heard, ok: bool, on: bool) {
    && Waiting(s, waited) && (waited != [] <==> wait) && log == before + WaitLog(burst, drained, waited)
    && heard == HeardWaiting(h, waited) && ok == (if wait then Acknowledged(waited) else hop) && on == (burst && !wait)
  }

  lemma CallEnds(s: Setup, toNode: uint16, sendType: nat, frame: Frame, stuck: bool, burst: bool, hop: bool,
                 ackOk: bool, wait: bool, drained: bool, waited: seq<Session>, before: seq<OnAir>, mid: seq<OnAir>,
                 log: seq<OnAir>, h: Heard, heard: Heard, ok: bool, on: bool) returns (c: Call)
    requires HopDone(s, toNode, sendType, frame, stuck, burst, hop, ackOk, wait, before, mid)
    requires SettleDone(s, burst, drained, hop, wait, waited, mid, log, h, heard, ok, on)
    ensures c.stuck == stuck && c.burst == burst
    ensures CallDone(s, toNode, sendType, frame, c, before, log, h, heard, ok, on)
  {
    c := Call(stuck, burst, hop, ackOk, drained, waited);
    Rebracket(before, HopLog(s, toNode, sendType, frame, stuck, burst, hop, ackOk), WaitLog(burst, drained, waited));
  }

  lemma NothingSettled(s: Setup, burst: bool, hop: bool, log: seq<OnAir>, h: Heard)
    ensures SettleDone(s, burst, false, hop, false, [], log, log, h, h, hop, burst)
  {
  }

  lemma WaitSettled(s: Setup, burst: bool, drained: bool, waited: seq<Session>, before: seq<OnAir>, mid: seq<OnAir>,
                    log: seq<OnAir>, h: Heard, heard: Heard)
    requires mid == before + (if burst then [Reported(drained)] else []) && waited != []
    requires WaitDone(s, waited, mid, log, h, heard)
    ensures SettleDone(s, burst, drained, true, true, waited, before, log, h, heard, Acknowledged(waited), false)
  {
    Rebracket(before, if burst then [Reported(drained)] else [], WaitPuts(waited));
  }

  // A call that does not wait for anything.
  lemma CallAlone(s: Setup, toNode: uint16, sendType: nat, frame: Frame, c: Call, before: seq<OnAir>,
                  log: seq<OnAir>, h: Heard, heard: Heard, ok: bool, on: bool)
    requires CallDone(s, toNode, sendType, frame, c, before, log, h, heard, ok, on)
    requires !Waits(s.me, toNode, sendType, frame.header.kind)
    ensures c.waited == [] && heard == h
    ensures log == before + (Payload(s.me, toNode, sendType, frame, c.stuck, c.burst, c.hop) +
                             Answer(s.me, toNode, sendType, frame, c.hop, c.ackOk))
    ensures sendType != TX_ROUTED ==>
              log == before + Payload(s.me, toNode, sendType, frame, c.stuck, c.burst, c.hop)
  {
    var both := Payload(s.me, toNode, sendType, frame, c.stuck, c.burst, c.hop) +
                Answer(s.me, toNode, sendType, frame, c.hop, c.ackOk);
    assert both + [] == both;
    var payload := Payload(s.me, toNode, sendType, frame, c.stuck, c.burst, c.hop);
    assert payload + [] == payload;
  }

  // A frame sent to a level.
  lemma LevelCall(s: Setup, level: nat, frame: Frame, c: Call, before: seq<OnAir>, log: seq<OnAir>, h: Heard,
                  heard: Heard, ok: bool)
    requires ValidAddress(s.me) && level <= 3 && !c.burst
    requires CallDone(s, LevelToAddress(level), SendType(MULTICAST_ADDRESS, LevelToAddress(level)), frame, c, before,
                      log, h, heard, ok, false)
    ensures log == before + Payload(s.me, LevelToAddress(level), USER_TX_MULTICAST, frame, c.stuck, false, ok)
  {
    LevelSendable(level);
    LevelNotAuto(level);
    var sendType := SendType(MULTICAST_ADDRESS, LevelToAddress(level));
    CallAlone(s, LevelToAddress(level), sendType, frame, c, before, log, h, heard, ok, false);
    DirectTarget(s.me, LevelToAddress(level), sendType);
  }

  // ----- What the branches of `update` come to

  // This is what came of a frame: the log, what was told, and the value returned.
  ghost predicate Came(e: Effect, frame: Frame, result: int, before: seq<OnAir>, log: seq<OnAir>, told: Heard,
                       heard: Heard, v: byte, stop: bool) {
    && log == before + e.puts && heard == (if e.queued then Queueing(told, frame, result) else told)
    && e.value == Some(v) && e.stops == stop
  }

  lemma OwnTaken(s: Setup, size: nat, frame: Frame, stuck: bool, v: byte, h: Heard, ok: bool, result: int,
                 before: seq<OnAir>, log: seq<OnAir>, told: Heard, heard: Heard, v': byte, stop: bool)
    returns (t: Take)
    requires size >= 8 && frame.header.to == s.me && ValidAddress(frame.header.to) && ValidAddress(frame.header.from)
    requires told == Taking(h, size, frame)
    requires Came(OwnEffect(s, Take(size, frame, stuck, ok, false, result, NO_EFFECT)), frame, result, before, log,
                  told, heard, v', stop)
    ensures t.stuck == stuck && TakeDone(s, t, before, log, h, heard, v, v', stop)
  {
    t := Take(size, frame, stuck, ok, false, result, NO_EFFECT);
    t := t.(effect := OwnEffect(s, t));
  }

  lemma LevelTaken(s: Setup, size: nat, frame: Frame, stuck: bool, v: byte, h: Heard, ok: bool, result: int,
                   before: seq<OnAir>, log: seq<OnAir>, told: Heard, heard: Heard, v': byte, stop: bool)
    returns (t: Take)
    requires size >= 8 && s.me != frame.header.to == MULTICAST_ADDRESS && ValidAddress(frame.header.from)
    requires told == Taking(h, size, frame)
    requires Came(LevelEffect(s, Take(size, frame, stuck, ok, false, result, NO_EFFECT)), frame, result, before, log,
                  told, heard, v', stop)
    ensures t.stuck == stuck && TakeDone(s, t, before, log, h, heard, v, v', stop)
  {
    t := Take(size, frame, stuck, ok, false, result, NO_EFFECT);
    t := t.(effect := LevelEffect(s, t));
  }

  lemma Relayed(s: Setup, size: nat, frame: Frame, stuck: bool, v: byte, h: Heard, c: Call, before: seq<OnAir>,
                log: seq<OnAir>, told: Heard, heard: Heard, ok: bool, on: bool) returns (t: Take)
    requires size >= 8 && ValidAddress(frame.header.to) && ValidAddress(frame.header.from)
    requires frame.header.to != s.me && frame.header.to != MULTICAST_ADDRESS && s.me != DEFAULT_ADDRESS
    requires told == Taking(h, size, frame) && c.stuck == stuck && !c.burst
    requires CallDone(s, frame.header.to, TX_ROUTED, frame, c, before, log, told, heard, ok, on)
    ensures t.stuck == stuck && TakeDone(s, t, before, log, h, heard, v, 0, false)
  {
    CallAlone(s, frame.header.to, TX_ROUTED, frame, c, before, log, told, heard, ok, on);
    t := Take(size, frame, stuck, c.hop, c.ackOk, 0, NO_EFFECT);
    t := t.(effect := RelayEffect(s, t));
  }

  // ----- The fragments of a message

  // One turn of the sending loop: which fragment, how many tries it had left, and the call of `write`.
  datatype Turn = Turn(k: nat, left: nat, frame: Frame, call: Call)

  // Where the loop is: at which fragment, and with how many tries left for it.
  datatype Place = Place(k: int, left: int)

  function Moved(k: int, left: int, ok: bool): Place {
    if ok then Place(k + 1, MAX_TRIES) else Place(k, left - 1)
  }

  // That after these turns.
  function Reached(turns: seq<Turn>): Place {
    if turns == [] then Place(0, MAX_TRIES)
    else
      var last := turns[|turns| - 1];
      Moved(last.k, last.left, Succeeded(last.call))
  }

  // Whether a burst still goes on after them.
  predicate BurstAfter(burst: bool, turns: seq<Turn>) {
    if turns == [] then burst else turns[|turns| - 1].call.burst && turns[|turns| - 1].call.waited == []
  }

  // It takes up where those before it left off, and sends the fragment it is at.
  ghost predicate NextTurn(s: Setup, toNode: uint16, sendType: nat, m: Message, burst: bool, turns: seq<Turn>,
                           t: Turn) {
    && Place(t.k, t.left) == Reached(turns) && t.left >= 1 && Fragmented(m) && t.k < FragmentCount(|m.data|)
    && t.frame == Fragment(m, t.k) && t.call.burst == BurstAfter(burst, turns)
    && CallOk(s, toNode, sendType, t.frame, t.call)
  }

  ghost predicate InTurn(s: Setup, toNode: uint16, sendType: nat, m: Message, burst: bool, turns: seq<Turn>) {
    turns == [] || (&& InTurn(s, toNode, sendType, m, burst, turns[..|turns| - 1])
                    && NextTurn(s, toNode, sendType, m, burst, turns[..|turns| - 1], turns[|turns| - 1]))
  }

  ghost function TurnsLog(s: Setup, toNode: uint16, sendType: nat, turns: seq<Turn>): seq<OnAir> {
    if turns == [] then []
    else
      var last := turns[|turns| - 1];
      TurnsLog(s, toNode, sendType, turns[..|turns| - 1]) + CallLog(s, toNode, sendType, last.frame, last.call)
  }

  function HeardTurns(h: Heard, turns: seq<Turn>): Heard {
    if turns == [] then h
    else HeardWaiting(HeardTurns(h, turns[..|turns| - 1]), turns[|turns| - 1].call.waited)
  }

  // Turns have led from one state to another: whether a burst goes on, and where the loop is.
  ghost predicate TurnsDone(s: Setup, toNode: uint16, sendType: nat, m: Message, burst: bool, turns: seq<Turn>,
                            before: seq<OnAir>, log: seq<OnAir>, h: Heard, heard: Heard, on: bool, at: Place) {
    && InTurn(s, toNode, sendType, m, burst, turns) && log == before + TurnsLog(s, toNode, sendType, turns)
    && heard == HeardTurns(h, turns) && on == BurstAfter(burst, turns) && at == Reached(turns)
  }

  lemma TurnsStart(s: Setup, toNode: uint16, sendType: nat, m: Message, burst: bool, before: seq<OnAir>, h: Heard)
    ensures TurnsDone(s, toNode, sendType, m, burst, [], before, before, h, h, burst, Place(0, MAX_TRIES))
  {
  }

  lemma TurnsNext(s: Setup, toNode: uint16, sendType: nat, m: Message, burst: bool, turns: seq<Turn>, c: Call,
                  before: seq<OnAir>, mid: seq<OnAir>, log: seq<OnAir>, h: Heard, told: Heard, heard: Heard,
                  on: bool, on': bool, k: nat, left: nat, ok: bool) returns (more: seq<Turn>)
    requires TurnsDone(s, toNode, sendType, m, burst, turns, before, mid, h, told, on, Place(k, left)) && left >= 1
    requires Fragmented(m) && k < FragmentCount(|m.data|) && c.burst == on
    requires CallDone(s, toNode, sendType, Fragment(m, k), c, mid, log, told, heard, ok, on')
    ensures more != []
    ensures TurnsDone(s, toNode, sendType, m, burst, more, before, log, h, heard, on', Moved(k, left, ok))
  {
    var t := Turn(k, left, Fragment(m, k), c);
    more := turns + [t];
    NextTurnIs(s, toNode, sendType, m, burst, turns, t, mid, log, told, heard, ok, on');
    InTurnNext(s, toNode, sendType, m, burst, turns, t, more);
    LogNext(s, toNode, sendType, turns, t, more, before, mid, log, h, told, heard);
    AtNext(turns, t, more, ok);
  }

  lemma AtNext(turns: seq<Turn>, t: Turn, more: seq<Turn>, ok: bool)
    requires more == turns + [t] && ok == Succeeded(t.call)
    ensures Moved(t.k, t.left, ok) == Reached(more)
  {
  }

  lemma NextTurnIs(s: Setup, toNode: uint16, sendType: nat, m: Message, burst: bool, turns: seq<Turn>, t: Turn,
                   mid: seq<OnAir>, log: seq<OnAir>, told: Heard, heard: Heard, ok: bool, on': bool)
    requires Fragmented(m) && t.k < FragmentCount(|m.data|) && t.left >= 1 && t.frame == Fragment(m, t.k)
    requires Place(t.k, t.left) == Reached(turns) && t.call.burst == BurstAfter(burst, turns)
    requires CallDone(s, toNode, sendType, t.frame, t.call, mid, log, told, heard, ok, on')
    ensures NextTurn(s, toNode, sendType, m, burst, turns, t) && ok == Succeeded(t.call)
    ensures log == mid + CallLog(s, toNode, sendType, t.frame, t.call) && heard == HeardWaiting(told, t.call.waited)
  {
  }

  lemma InTurnNext(s: Setup, toNode: uint16, sendType: nat, m: Message, burst: bool, turns: seq<Turn>, t: Turn,
                   more: seq<Turn>)
    requires InTurn(s, toNode, sendType, m, burst, turns) && more == turns + [t]
    requires NextTurn(s, toNode, sendType, m, burst, turns, t)
    ensures InTurn(s, toNode, sendType, m, burst, more)
  {
    assert more[..|turns|] == turns;
  }

  lemma LogNext(s: Setup, toNode: uint16, sendType: nat, turns: seq<Turn>, t: Turn, more: seq<Turn>,
                before: seq<OnAir>, mid: seq<OnAir>, log: seq<OnAir>, h: Heard, told: Heard, heard: Heard)
    requires more == turns + [t] && mid == before + TurnsLog(s, toNode, sendType, turns)
    requires log == mid + CallLog(s, toNode, sendType, t.frame, t.call)
    requires told == HeardTurns(h, turns) && heard == HeardWaiting(told, t.call.waited)
    ensures log == before + TurnsLog(s, toNode, sendType, more) && heard == HeardTurns(h, more)
  {
    assert more[..|turns|] == turns;
    Rebracket(before, TurnsLog(s, toNode, sendType, turns), CallLog(s, toNode, sendType, t.frame, t.call));
  }

  // A long message has been sent, or given up: turns, and in the end, if a burst is still going on, what the radio
  // reports of it.
  ghost predicate LongDone(s: Setup, toNode: uint16, sendType: nat, m: Message, burst: bool, turns: seq<Turn>,
                           drained: bool, before: seq<OnAir>, log: seq<OnAir>, h: Heard, heard: Heard, ok: bool)
    requires Fragmented(m)
  {
    var Place(k, left) := Reached(turns);
    var on := BurstAfter(burst, turns);
    && InTurn(s, toNode, sendType, m, burst, turns) && (k == FragmentCount(|m.data|) || left == 0)
    && log == before + TurnsLog(s, toNode, sendType, turns) + (if on then [Reported(drained)] else [])
    && heard == HeardTurns(h, turns) && ok == (k == FragmentCount(|m.data|) && (on ==> drained))
  }
}
