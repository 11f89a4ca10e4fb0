/** The memory-mapped console: a receiver and a transmitter, each with a control word, a one-character
    buffer and a timer, sharing the Cause register for their interrupts. */
module Console {
  import opened Options
  import opened Words

  const RECV_CTRL: word := 0xffff0000
  const RECV_BUFFER: word := 0xffff0004
  const TRANS_CTRL: word := 0xffff0008
  const TRANS_BUFFER: word := 0xffff000c

  // The interrupt levels; level n is bit n + 8 of Cause.
  const RECV_INT_LEVEL := 3
  const TRANS_INT_LEVEL := 2

  const RECV_INTERVAL := 100
  const TRANS_LATENCY := 100

  type Char = byte

  /** A control word: bit 0 says ready, bit 1 enables interrupts, and nothing sets another bit. */
  datatype Control = Control(ready: bool, enabled: bool)

  function ControlWord(c: Control): word {
    (if c.ready then 1 else 0) + (if c.enabled then 2 else 0)
  }

  /** Does a value written to a control word enable interrupts? */
  predicate Enables(value: word) {
    value / 2 % 2 == 1
  }

  function LowByte(value: word): Char {
    value % 256
  }

  /** The devices, the interrupt levels pending in Cause, what the user has typed and the device not
      yet taken, and what has been written to the screen. */
  datatype Devices = Devices(
    recv: Control, recvBuffer: Char, recvTimer: nat,
    trans: Control, transBuffer: Char, transTimer: nat,
    pending: set<int>, input: seq<Char>, output: seq<Char>)

  /** What can happen: the user types, the interpreter polls the devices, or the program reads or
      writes a device word. */
  datatype Event = Typed(c: Char) | Tick | Read(addr: word) | Write(addr: word, value: word)

  // ---- The specification of one event --------------------------------------------------------------

  function Receive(d: Devices): Devices {
    if d.recvTimer > 0 then d.(recvTimer := d.recvTimer - 1)
    else if d.input != [] then
      d.(recvBuffer := d.input[0], input := d.input[1..],
         recv := d.recv.(ready := true), recvTimer := RECV_INTERVAL,
         pending := if d.recv.enabled then d.pending + {RECV_INT_LEVEL} else d.pending)
    else d
  }

  function Transmit(d: Devices): Devices {
    if d.transTimer > 0 then d.(transTimer := d.transTimer - 1)
    else if !d.trans.ready then
      d.(trans := d.trans.(ready := true),
         pending := if d.trans.enabled then d.pending + {TRANS_INT_LEVEL} else d.pending)
    else d
  }

  /** The pending levels after interrupts of a device have been switched on or off. */
  function Switched(pending: set<int>, level: int, ready: bool, on: bool): set<int> {
    if !on then pending - {level} else if ready then pending + {level} else pending
  }

  function Send(d: Devices, value: word): Devices {
    if d.trans.ready then
      d.(transBuffer := LowByte(value), output := d.output + [LowByte(value)],
         trans := d.trans.(ready := false), transTimer := TRANS_LATENCY,
         pending := d.pending - {TRANS_INT_LEVEL})
    else d
  }

  function TakeChar(d: Devices): Devices {
    d.(recv := d.recv.(ready := false), recvTimer := 0, pending := d.pending - {RECV_INT_LEVEL})
  }

  function Next(d: Devices, e: Event): Devices {
    match e
    case Typed(c) => d.(input := d.input + [c])
    case Tick => Transmit(Receive(d))
    case Read(addr) => if addr == RECV_BUFFER then TakeChar(d) else d
    case Write(addr, value) =>
      if addr == TRANS_CTRL then
        d.(trans := d.trans.(enabled := Enables(value)), pending := Switched(d.pending, TRANS_INT_LEVEL, d.trans.ready, Enables(value)))
      else if addr == TRANS_BUFFER then Send(d, value)
      else if addr == RECV_CTRL then
        d.(recv := d.recv.(enabled := Enables(value)), pending := Switched(d.pending, RECV_INT_LEVEL, d.recv.ready, Enables(value)))
      else d
  }

  /** What a read returns; None is the error for an address with no device. */
  function ReadValue(d: Devices, addr: word): Option<word> {
    if addr == TRANS_CTRL then Some(ControlWord(d.trans))
    else if addr == TRANS_BUFFER then Some(d.transBuffer)
    else if addr == RECV_CTRL then Some(ControlWord(d.recv))
    else if addr == RECV_BUFFER then Some(d.recvBuffer)
    else None
  }

  predicate HasDevice(addr: word) {
    addr == TRANS_CTRL || addr == TRANS_BUFFER || addr == RECV_CTRL || addr == RECV_BUFFER
  }

  /** The devices at the start of a run; other interrupts may be pending. */
  predicate Initial(d: Devices) {
    && d.recv == Control(false, false) && d.recvTimer == 0
    && d.trans == Control(true, false) && d.transTimer == 0
    && RECV_INT_LEVEL !in d.pending && TRANS_INT_LEVEL !in d.pending
    && d.input == [] && d.output == []
  }

  function After(d: Devices, events: seq<Event>): Devices {
    if events == [] then d else Next(After(d, events[..|events| - 1]), events[|events| - 1])
  }

  // ---- The devices in place ------------------------------------------------------------------------

  class Controller {
    var recv: Control
    var recvBuffer: Char
    var recvTimer: nat
    var trans: Control
    var transBuffer: Char
    var transTimer: nat
    var pending: set<int>
    var input: seq<Char>
    var output: seq<Char>

    function View(): Devices
      reads this
    {
      Devices(recv, recvBuffer, recvTimer, trans, transBuffer, transTimer, pending, input, output)
    }

    constructor ()
      ensures Initial(View())
    {
      recv, recvBuffer, recvTimer := Control(false, false), 0, 0;
      trans, transBuffer, transTimer := Control(true, false), 0, 0;
      pending, input, output := {}, [], [];
    }

    method RaiseInterrupt(level: int)
      modifies this`pending
      ensures pending == old(pending) + {level}
    {
      pending := pending + {level};
    }

    method ClearInterrupt(level: int)
      modifies this`pending
      ensures pending == old(pending) - {level}
    {
      pending := pending - {level};
    }

    /** The user types a character. */
    method Type(c: Char)
      modifies this
      ensures View() == Next(old(View()), Typed(c))
    {
      input := input + [c];
    }

    /** Polls both devices, as the interpreter does every so many instructions. */
    method Check()
      modifies this
      ensures View() == Next(old(View()), Tick)
    {
      if recvTimer > 0 {
        recvTimer := recvTimer - 1;
      } else if input != [] {
        recvBuffer, input := input[0], input[1..];
        recv := recv.(ready := true);
        recvTimer := RECV_INTERVAL;
        if recv.enabled {
          RaiseInterrupt(RECV_INT_LEVEL);
        }
      }
      if transTimer > 0 {
        transTimer := transTimer - 1;
      } else if !trans.ready {
        trans := trans.(ready := true);
        if trans.enabled {
          RaiseInterrupt(TRANS_INT_LEVEL);
        }
      }
    }

    /** Writes a device word; false is the error for an address with no device. */
    method WriteWord(addr: word, value: word) returns (ok: bool)
      modifies this
      ensures View() == Next(old(View()), Write(addr, value))
      ensures ok <==> HasDevice(addr)
    {
      ok := true;
      if addr == TRANS_CTRL {
        trans := trans.(enabled := Enables(value));
        if !trans.enabled {
          ClearInterrupt(TRANS_INT_LEVEL);
        } else if trans.ready {
          // A ready transmitter asks for an interrupt as soon as it may.
          RaiseInterrupt(TRANS_INT_LEVEL);
        }
      } else if addr == TRANS_BUFFER {
        if trans.ready {
          transBuffer := LowByte(value);
          output := output + [transBuffer];
          trans := trans.(ready := false);
          transTimer := TRANS_LATENCY;
          ClearInterrupt(TRANS_INT_LEVEL);
        }
      } else if addr == RECV_CTRL {
        recv := recv.(enabled := Enables(value));
        if !recv.enabled {
          ClearInterrupt(RECV_INT_LEVEL);
        } else if recv.ready {
          RaiseInterrupt(RECV_INT_LEVEL);
        }
      } else {
        ok := addr == RECV_BUFFER;
      }
    }

    /** Reads a device word; reading the receiver's buffer empties it. */
    method ReadWord(addr: word) returns (r: Option<word>)
      modifies this
      ensures View() == Next(old(View()), Read(addr))
      ensures r == ReadValue(old(View()), addr)
    {
      if addr == TRANS_CTRL {
        r := Some(ControlWord(trans));
      } else if addr == TRANS_BUFFER {
        r := Option<word>.Some(transBuffer);
      } else if addr == RECV_CTRL {
        r := Some(ControlWord(recv));
      } else if addr == RECV_BUFFER {
        recv := recv.(ready := false);
        recvTimer := 0;
        ClearInterrupt(RECV_INT_LEVEL);
        r := Option<word>.Some(recvBuffer);
      } else {
        r := None;
      }
    }
  }

  // ---- Interrupts ----------------------------------------------------------------------------------

  /** Each device asks for an interrupt iff it is ready and enabled; a busy transmitter is not ready; a
      receiver whose timer runs holds a character. */
  predicate Inv(d: Devices) {
    && (RECV_INT_LEVEL in d.pending <==> d.recv.ready && d.recv.enabled)
    && (TRANS_INT_LEVEL in d.pending <==> d.trans.ready && d.trans.enabled)
    && (d.transTimer > 0 ==> !d.trans.ready)
    && (d.recvTimer > 0 ==> d.recv.ready)
    && d.transTimer <= TRANS_LATENCY && d.recvTimer <= RECV_INTERVAL
  }

  /** The pending interrupts of other devices. */
  function Others(d: Devices): set<int> {
    d.pending - {RECV_INT_LEVEL, TRANS_INT_LEVEL}
  }

  lemma NextKeepsInv(d: Devices, e: Event)
    requires Inv(d)
    ensures Inv(Next(d, e)) && Others(Next(d, e)) == Others(d)
  {
    if e.Tick? {
      ReceiveKeepsInv(d);
      TransmitKeepsInv(Receive(d));
    }
  }

  lemma ReceiveKeepsInv(d: Devices)
    requires Inv(d)
    ensures Inv(Receive(d)) && Others(Receive(d)) == Others(d)
  {
  }

  lemma TransmitKeepsInv(d: Devices)
    requires Inv(d)
    ensures Inv(Transmit(d)) && Others(Transmit(d)) == Others(d)
  {
  }

  /** Over every interleaving of typing, polling, reads and writes. */
  lemma {:induction false} InterruptsExact(d: Devices, events: seq<Event>)
    requires Initial(d)
    ensures Inv(After(d, events))
    ensures Others(After(d, events)) == Others(d)
  {
    hide Next, Inv;
    if events == [] {
      InitialInv(d);
    } else {
      InterruptsExact(d, events[..|events| - 1]);
      NextKeepsInv(After(d, events[..|events| - 1]), events[|events| - 1]);
    }
  }

  lemma InitialInv(d: Devices)
    requires Initial(d)
    ensures Inv(d)
  {
  }

  // ---- Output --------------------------------------------------------------------------------------

  function Clock(events: seq<Event>): nat {
    if events == [] then 0
    else Clock(events[..|events| - 1]) + if events[|events| - 1].Tick? then 1 else 0
  }

  datatype Sent = Sent(time: nat, c: Char)

  /** A transmitter described by the clock alone: it takes a character, and then no other for
      TRANS_LATENCY + 1 ticks. */
  function Accepted(events: seq<Event>): seq<Sent> {
    if events == [] then []
    else
      var front, e := Accepted(events[..|events| - 1]), events[|events| - 1];
      if e.Write? && e.addr == TRANS_BUFFER && Free(front, Clock(events[..|events| - 1])) then
        front + [Sent(Clock(events[..|events| - 1]), LowByte(e.value))]
      else front
  }

  predicate Free(sent: seq<Sent>, now: nat) {
    sent == [] || now >= sent[|sent| - 1].time + TRANS_LATENCY + 1
  }

  function Chars(sent: seq<Sent>): (r: seq<Char>)
    ensures |r| == |sent| && forall k :: 0 <= k < |sent| ==> r[k] == sent[k].c
  {
    seq(|sent|, k requires 0 <= k < |sent| => sent[k].c)
  }

  /** How the transmitter's state depends on the clock. */
  predicate TransmitterAt(d: Devices, sent: seq<Sent>, now: nat) {
    && d.output == Chars(sent)
    && (sent != [] ==> sent[|sent| - 1].time <= now)
    && (d.trans.ready <==> Free(sent, now))
    && (!d.trans.ready ==> sent != [] && d.transTimer == sent[|sent| - 1].time + TRANS_LATENCY - now)
    && (d.trans.ready ==> d.transTimer == 0)
  }

  lemma TransmitterStep(d: Devices, e: Event, sent: seq<Sent>, now: nat)
    requires TransmitterAt(d, sent, now)
    ensures var taken := e.Write? && e.addr == TRANS_BUFFER && Free(sent, now);
      TransmitterAt(Next(d, e), if taken then sent + [Sent(now, LowByte(e.value))] else sent,
                    if e.Tick? then now + 1 else now)
  {
    if e.Tick? {
      var r := Receive(d);
      assert r.trans == d.trans && r.transTimer == d.transTimer && r.output == d.output;
    } else if e.Write? {
      TransmitterWrite(d, e.addr, e.value, sent, now);
    }
  }

  lemma TransmitterWrite(d: Devices, addr: word, value: word, sent: seq<Sent>, now: nat)
    requires TransmitterAt(d, sent, now)
    ensures var taken := addr == TRANS_BUFFER && Free(sent, now);
      TransmitterAt(Next(d, Write(addr, value)), if taken then sent + [Sent(now, LowByte(value))] else sent, now)
  {
    hide LowByte;
  }

  /** The output is exactly the characters the clock-only transmitter accepts; the program sees READY
      exactly when the next one would be accepted. */
  lemma {:induction false} OutputIsAccepted(d: Devices, events: seq<Event>)
    requires Initial(d)
    ensures TransmitterAt(After(d, events), Accepted(events), Clock(events))
    ensures After(d, events).output == Chars(Accepted(events))
    ensures After(d, events).trans.ready <==> Free(Accepted(events), Clock(events))
  {
    hide Next, LowByte;
    if events != [] {
      var front, e := events[..|events| - 1], events[|events| - 1];
      OutputIsAccepted(d, front);
      hide TransmitterAt;
      TransmitterStep(After(d, front), e, Accepted(front), Clock(front));
    }
    assert TransmitterAt(After(d, events), Accepted(events), Clock(events));
    TransmitterMeans(After(d, events), Accepted(events), Clock(events));
  }

  lemma TransmitterMeans(d: Devices, sent: seq<Sent>, now: nat)
    requires TransmitterAt(d, sent, now)
    ensures d.output == Chars(sent) && (d.trans.ready <==> Free(sent, now))
  {
  }

  /** No two accepted characters are closer than TRANS_LATENCY + 1 ticks. */
  lemma {:induction false} OutputIsSpaced(events: seq<Event>)
    ensures forall k :: 0 < k < |Accepted(events)| ==>
              Accepted(events)[k - 1].time + TRANS_LATENCY + 1 <= Accepted(events)[k].time
  {
    if events != [] {
      OutputIsSpaced(events[..|events| - 1]);
    }
  }

  // ---- Input ---------------------------------------------------------------------------------------

  function AllTyped(events: seq<Event>): seq<Char> {
    if events == [] then []
    else
      var front, e := AllTyped(events[..|events| - 1]), events[|events| - 1];
      if e.Typed? then front + [e.c] else front
  }

  /** The characters the program got: the values of its reads of a ready receiver. */
  function Delivered(d: Devices, events: seq<Event>): seq<Char> {
    if events == [] then []
    else
      var front, e := events[..|events| - 1], events[|events| - 1];
      var before := After(d, front);
      Delivered(d, front)
      + if e == Read(RECV_BUFFER) && before.recv.ready then [before.recvBuffer] else []
  }

  function TicksSinceRead(events: seq<Event>): nat {
    if events == [] then 0
    else
      var front, e := TicksSinceRead(events[..|events| - 1]), events[|events| - 1];
      if e == Read(RECV_BUFFER) then 0 else if e.Tick? then front + 1 else front
  }

  /** The program never lets more than RECV_INTERVAL + 1 ticks pass without a read of the buffer. */
  predicate Attentive(events: seq<Event>) {
    forall k :: 0 <= k <= |events| ==> TicksSinceRead(events[..k]) <= RECV_INTERVAL + 1
  }

  /** The characters on their way to the program. */
  function Waiting(d: Devices): seq<Char> {
    (if d.recv.ready then [d.recvBuffer] else []) + d.input
  }

  /** An attentive program loses nothing: what was typed is what it got, in order, plus what is still
      on its way. */
  lemma {:induction false} NothingLost(d: Devices, events: seq<Event>)
    requires Initial(d) && Attentive(events)
    ensures AllTyped(events) == Delivered(d, events) + Waiting(After(d, events))
    ensures var now := After(d, events);
      now.recv.ready ==> now.recvTimer + TicksSinceRead(events) >= RECV_INTERVAL + 1
  {
    hide Next, LowByte, Attentive;
    if events != [] {
      var front, e := events[..|events| - 1], events[|events| - 1];
      AttentiveFront(events);
      NothingLost(d, front);
      var before := After(d, front);
      ReceiverStep(before, e, TicksSinceRead(front));
      var got := if e == Read(RECV_BUFFER) && before.recv.ready then [before.recvBuffer] else [];
      var typed := if e.Typed? then [e.c] else [];
      assert AllTyped(events) == Delivered(d, front) + (Waiting(before) + typed);
      assert Delivered(d, events) == Delivered(d, front) + got;
    }
  }

  lemma AttentiveFront(events: seq<Event>)
    requires Attentive(events) && events != []
    ensures Attentive(events[..|events| - 1])
    ensures events[|events| - 1].Tick? ==> TicksSinceRead(events[..|events| - 1]) <= RECV_INTERVAL
  {
    var front := events[..|events| - 1];
    assert forall k :: 0 <= k <= |front| ==> front[..k] == events[..k];
    assert events[..|events|] == events;
  }

  lemma ReceiverStep(d: Devices, e: Event, since: nat)
    requires d.recv.ready ==> d.recvTimer + since >= RECV_INTERVAL + 1
    requires e.Tick? ==> since <= RECV_INTERVAL
    ensures var got := if e == Read(RECV_BUFFER) && d.recv.ready then [d.recvBuffer] else [];
      got + Waiting(Next(d, e)) == Waiting(d) + if e.Typed? then [e.c] else []
    ensures var now := Next(d, e);
      now.recv.ready ==>
        now.recvTimer + (if e == Read(RECV_BUFFER) then 0 else if e.Tick? then since + 1 else since) >= RECV_INTERVAL + 1
  {
    if e.Tick? {
      ReceiverTick(d, since);
    } else if e.Write? {
      var now := Next(d, e);
      assert now.recv.ready == d.recv.ready;
    }
  }

  lemma ReceiverTick(d: Devices, since: nat)
    requires d.recv.ready ==> d.recvTimer + since >= RECV_INTERVAL + 1
    requires since <= RECV_INTERVAL
    ensures Waiting(Next(d, Tick)) == Waiting(d)
    ensures Next(d, Tick).recv.ready ==> Next(d, Tick).recvTimer + since + 1 >= RECV_INTERVAL + 1
  {
    var r := Receive(d);
    var t := Transmit(r);
    assert t.recv == r.recv && t.recvBuffer == r.recvBuffer && t.input == r.input && t.recvTimer == r.recvTimer;
  }

  /** An unread character survives: after any events without a read of the buffer and with at most
      RECV_INTERVAL ticks since it was received, it is still there. */
  lemma {:induction false} CharacterSurvives(d: Devices, events: seq<Event>)
    requires d.recv.ready && d.recvTimer == RECV_INTERVAL
    requires forall k :: 0 <= k < |events| ==> events[k] != Read(RECV_BUFFER)
    requires Clock(events) <= RECV_INTERVAL
    ensures var now := After(d, events);
      && now.recvBuffer == d.recvBuffer && now.recv.ready
      && now.recvTimer == RECV_INTERVAL - Clock(events)
  {
    hide Next;
    if events != [] {
      CharacterSurvives(d, events[..|events| - 1]);
      Survives(After(d, events[..|events| - 1]), events[|events| - 1]);
    }
  }

  lemma Survives(d: Devices, e: Event)
    requires d.recv.ready && e != Read(RECV_BUFFER) && (e.Tick? ==> d.recvTimer > 0)
    ensures var now := Next(d, e);
      && now.recvBuffer == d.recvBuffer && now.recv.ready
      && now.recvTimer == if e.Tick? then d.recvTimer - 1 else d.recvTimer
  {
  }

  /** And no longer: one tick more replaces it, if another character has been typed. */
  lemma CharacterReplaced(d: Devices)
    requires d.recv.ready && d.recvTimer == 0 && d.input != []
    ensures Waiting(Next(d, Tick)) == d.input && |Waiting(d)| == |d.input| + 1
  {
    var r := Receive(d);
    var t := Transmit(r);
    assert t.recv == r.recv && t.recvBuffer == r.recvBuffer && t.input == r.input;
  }
  // ---- Progress ------------------------------------------------------------------------------------

  /** The times at which a receiver described by the history alone takes the next typed character: at a
      tick, if it holds no unread one or has held it for more than RECV_INTERVAL ticks. */
  function Taken(events: seq<Event>): seq<nat>
    decreases |events|, 1
  {
    if events == [] then []
    else if Takes(events) then Taken(events[..|events| - 1]) + [Clock(events[..|events| - 1])]
    else Taken(events[..|events| - 1])
  }

  predicate Takes(events: seq<Event>)
    requires events != []
    decreases |events|, 0
  {
    var front := events[..|events| - 1];
    && events[|events| - 1].Tick? && |Taken(front)| < |AllTyped(front)|
    && (Unread(front) ==> Overdue(Taken(front), Clock(front)))
  }

  predicate Overdue(taken: seq<nat>, now: nat) {
    taken == [] || now > taken[|taken| - 1] + RECV_INTERVAL
  }

  /** No read since the last character was taken. */
  predicate Unread(events: seq<Event>)
    decreases |events|, 1
  {
    events != []
    && (Takes(events) || (events[|events| - 1] != Read(RECV_BUFFER) && Unread(events[..|events| - 1])))
  }

  /** How the receiver's state depends on the history. */
  predicate ReceiverAt(d: Devices, typed: seq<Char>, taken: seq<nat>, unread: bool, now: nat) {
    && |taken| <= |typed| && d.input == typed[|taken|..]
    && (d.recv.ready <==> unread)
    && (taken != [] ==> d.recvBuffer == typed[|taken| - 1] && taken[|taken| - 1] < now)
    && (unread ==> taken != [])
    && d.recvTimer == if unread && !Overdue(taken, now) then taken[|taken| - 1] + RECV_INTERVAL + 1 - now else 0
  }

  /** The receiver takes what is typed, in order and one character at a time, at exactly those times, over
      every interleaving of typing, polling, reads and writes. */
  lemma {:induction false} InputIsTaken(d: Devices, events: seq<Event>)
    requires Initial(d)
    ensures ReceiverAt(After(d, events), AllTyped(events), Taken(events), Unread(events), Clock(events))
  {
    hide Next, ReceiverAt, LowByte, Overdue;
    if events == [] {
      NothingTaken(d);
    } else {
      var front, e := events[..|events| - 1], events[|events| - 1];
      InputIsTaken(d, front);
      ReceiverNext(After(d, front), e, AllTyped(front), Taken(front), Unread(front), Clock(front));
    }
  }

  lemma NothingTaken(d: Devices)
    requires Initial(d)
    ensures ReceiverAt(d, [], [], false, 0)
  {
  }

  lemma ReceiverNext(d: Devices, e: Event, typed: seq<Char>, taken: seq<nat>, unread: bool, now: nat)
    requires ReceiverAt(d, typed, taken, unread, now)
    ensures var takes := e.Tick? && |taken| < |typed| && (unread ==> Overdue(taken, now));
      ReceiverAt(Next(d, e), if e.Typed? then typed + [e.c] else typed, if takes then taken + [now] else taken,
                 takes || (e != Read(RECV_BUFFER) && unread), if e.Tick? then now + 1 else now)
  {
    if e.Tick? {
      ReceiverTicks(d, typed, taken, unread, now);
    } else if e.Write? {
      var after := Next(d, e);
      assert after.recv.ready == d.recv.ready && after.recvTimer == d.recvTimer;
    }
  }

  lemma ReceiverTicks(d: Devices, typed: seq<Char>, taken: seq<nat>, unread: bool, now: nat)
    requires ReceiverAt(d, typed, taken, unread, now)
    ensures var takes := |taken| < |typed| && (unread ==> Overdue(taken, now));
      ReceiverAt(Next(d, Tick), typed, if takes then taken + [now] else taken, takes || unread, now + 1)
  {
    var r := Receive(d);
    var t := Transmit(r);
    assert t.recv == r.recv && t.recvBuffer == r.recvBuffer && t.input == r.input && t.recvTimer == r.recvTimer;
  }

  /** Nothing typed stays away: right after a tick an attentive program finds a character exactly when one
      has been typed that it has not had, and it is the next one. */
  lemma TypedArrives(d: Devices, events: seq<Event>)
    requires Initial(d) && Attentive(events) && events != [] && events[|events| - 1].Tick?
    ensures |Delivered(d, events)| <= |AllTyped(events)|
    ensures var now := After(d, events);
      && (now.recv.ready <==> AllTyped(events) != Delivered(d, events))
      && (now.recv.ready ==> |Delivered(d, events)| < |AllTyped(events)|
                             && now.recvBuffer == AllTyped(events)[|Delivered(d, events)|])
  {
    hide Next, Attentive, AllTyped, Delivered, After, LowByte;
    NothingLost(d, events);
    var front := events[..|events| - 1];
    InputIsTaken(d, front);
    LastEvent(d, events);
    TickFills(After(d, front), AllTyped(front), Taken(front), Unread(front), Clock(front));
    assert Delivered(d, events) + Waiting(After(d, events)) == AllTyped(events);
  }

  lemma LastEvent(d: Devices, events: seq<Event>)
    requires events != []
    ensures After(d, events) == Next(After(d, events[..|events| - 1]), events[|events| - 1])
  {
  }

  // After a tick the receiver is empty only if nothing waits.
  lemma TickFills(d: Devices, typed: seq<Char>, taken: seq<nat>, unread: bool, now: nat)
    requires ReceiverAt(d, typed, taken, unread, now)
    ensures var t := Next(d, Tick); !t.recv.ready ==> t.input == []
  {
    var r := Receive(d);
    var t := Transmit(r);
    assert t.recv == r.recv && t.input == r.input;
  }

  // ---- What the program sees -----------------------------------------------------------------------

  /** Whether the last write to a control word asked for interrupts. */
  predicate AskedFor(events: seq<Event>, control: word) {
    events != []
    && var e := events[|events| - 1];
       if e.Write? && e.addr == control then Enables(e.value) else AskedFor(events[..|events| - 1], control)
  }

  /** A control word as the program tests it. */
  predicate ControlIs(value: Option<word>, ready: bool, enabled: bool) {
    value.Some? && value.value < 4 && (value.value % 2 == 1 <==> ready) && (value.value >= 2 <==> enabled)
  }

  /** A program that reads the four device words learns exactly whether a character waits, which one was
      taken last, whether the transmitter would accept one, which one it accepted last, and what the
      program itself has asked for; and writing a control word back changes nothing that it asked for. */
  lemma ProgramSees(d: Devices, events: seq<Event>)
    requires Initial(d)
    ensures var now, n, sent := After(d, events), |Taken(events)|, Accepted(events);
      && n <= |AllTyped(events)|
      && ControlIs(ReadValue(now, RECV_CTRL), Unread(events), AskedFor(events, RECV_CTRL))
      && ControlIs(ReadValue(now, TRANS_CTRL), Free(sent, Clock(events)), AskedFor(events, TRANS_CTRL))
      && (n > 0 ==> ReadValue(now, RECV_BUFFER) == Some(AllTyped(events)[n - 1]))
      && (sent != [] ==> ReadValue(now, TRANS_BUFFER) == Some(sent[|sent| - 1].c))
      && Enables(ReadValue(now, RECV_CTRL).value) == AskedFor(events, RECV_CTRL)
      && Enables(ReadValue(now, TRANS_CTRL).value) == AskedFor(events, TRANS_CTRL)
    ensures forall a: word :: ReadValue(After(d, events), a).Some? <==> HasDevice(a)
  {
    hide After, Taken, Unread, AllTyped, Accepted, Clock, AskedFor, Free, Overdue;
    InputIsTaken(d, events);
    OutputIsAccepted(d, events);
    SwitchesKept(d, events);
    LastSent(d, events);
  }

  lemma {:induction false} SwitchesKept(d: Devices, events: seq<Event>)
    requires Initial(d)
    ensures After(d, events).recv.enabled == AskedFor(events, RECV_CTRL)
    ensures After(d, events).trans.enabled == AskedFor(events, TRANS_CTRL)
  {
    hide Next, Enables;
    if events != [] {
      SwitchesKept(d, events[..|events| - 1]);
      SwitchNext(After(d, events[..|events| - 1]), events[|events| - 1]);
    }
  }

  lemma SwitchNext(d: Devices, e: Event)
    ensures Next(d, e).recv.enabled == if e.Write? && e.addr == RECV_CTRL then Enables(e.value) else d.recv.enabled
    ensures Next(d, e).trans.enabled == if e.Write? && e.addr == TRANS_CTRL then Enables(e.value) else d.trans.enabled
  {
    hide Enables, LowByte;
  }

  lemma {:induction false} LastSent(d: Devices, events: seq<Event>)
    requires Initial(d)
    ensures var sent := Accepted(events); sent != [] ==> After(d, events).transBuffer == sent[|sent| - 1].c
  {
    hide Next, LowByte, Free, Clock;
    if events != [] {
      var front, e := events[..|events| - 1], events[|events| - 1];
      LastSent(d, front);
      OutputIsAccepted(d, front);
      SentNext(After(d, front), e);
    }
  }

  lemma SentNext(d: Devices, e: Event)
    ensures Next(d, e).transBuffer == if e.Write? && e.addr == TRANS_BUFFER && d.trans.ready then LowByte(e.value) else d.transBuffer
  {
    hide Enables, LowByte;
  }
  /** The character that is sent is the value with all but its low eight bits masked off. */
  lemma LowByteMasks(value: word)
    ensures LowByte(value) == And(value, 0xff)
  {
    hide Bits;
    Pow2Values();
    BitsMask(value, 8, 32);
  }
}
