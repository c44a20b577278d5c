/**
 * The NachOS synchronized console: a blocking byte interface over an
 * interrupt-driven serial device, and the file endpoints built on it.
 *
 * The two semaphores are counters. A `P` that finds its counter at zero waits
 * until the matching interrupt signals it; for a read, the byte whose arrival
 * ends that wait is a parameter of the call. The device is a queue of received
 * bytes and a log of the bytes handed to it for sending.
 */
module UserProg {
  import opened Basics

  /** The console's state: the availability hint, the semaphore counters and
      the device. */
  datatype Console = Console(
    charAvailable: bool,
    readWait: nat,
    writeWait: nat,
    incoming: seq<byte>,
    sent: seq<byte>)

  /** Every received byte signalled the read semaphore once and every `P`
      consumed one byte. The hint is not covered: a read woken by an arrival
      leaves it set with no signal pending. */
  ghost predicate Inv(c: Console)
  {
    c.readWait == |c.incoming|
  }

  function Initial(): (c: Console)
    ensures Inv(c) && c.incoming == [] && c.sent == [] && !c.charAvailable
    ensures c.readWait == 0 && c.writeWait == 0
  {
    Console(false, 0, 0, [], [])
  }

  /** The device receives `b` and runs the receive handler. */
  function Receive(c: Console, b: byte): (r: Console)
    ensures Inv(c) ==> Inv(r)
    ensures r.charAvailable && r.readWait == c.readWait + 1
    ensures r.incoming == c.incoming + [b]
    ensures r.writeWait == c.writeWait && r.sent == c.sent
  {
    c.(charAvailable := true, readWait := c.readWait + 1, incoming := c.incoming + [b])
  }

  datatype ReadResult = ReadResult(console: Console, value: int)

  /** readByte(block) takes the read semaphore with `P`, and that `P` waits
      exactly when no signal is pending. */
  ghost predicate MustWait(c: Console, block: bool)
  {
    (block || c.charAvailable) && c.readWait == 0
  }

  /** A call readByte(block). When its `P` waits, the receive interrupt for
      `arrival` ends the wait; otherwise `arrival` plays no part. */
  function Read(c: Console, block: bool, arrival: byte): (r: ReadResult)
    requires Inv(c)
    ensures Inv(r.console)
    ensures (block || c.charAvailable) && c.readWait > 0 ==>
              && r.value == c.incoming[0] as int
              && r.console.incoming == c.incoming[1..] && r.console.readWait == c.readWait - 1
              && !r.console.charAvailable
    ensures MustWait(c, block) ==> r.value == arrival as int && r.console == c.(charAvailable := true)
    ensures !(block || c.charAvailable) ==> r.value == -1 && r.console == c
    ensures r.value != -1 ==> 0 <= r.value < 256
    ensures r.console.writeWait == c.writeWait && r.console.sent == c.sent
  {
    if block || c.charAvailable then
      var waiting := c.(charAvailable := false);
      var signalled := if waiting.readWait > 0 then waiting else Receive(waiting, arrival);
      var taken := signalled.(readWait := signalled.readWait - 1);
      ReadResult(taken.(incoming := taken.incoming[1..]), taken.incoming[0] as int)
    else
      ReadResult(c, -1)
  }

  /** A call writeByte(value). The send-complete interrupt arrives while the
      caller waits in `P`, so the write semaphore ends where it started. */
  function Write(c: Console, value: byte): (r: Console)
    ensures Inv(c) ==> Inv(r)
    ensures r.sent == c.sent + [value]
    ensures r.writeWait == c.writeWait
    ensures r.charAvailable == c.charAvailable && r.readWait == c.readWait && r.incoming == c.incoming
  {
    var handed := c.(sent := c.sent + [value]);
    var signalled := SendDone(handed);
    signalled.(writeWait := signalled.writeWait - 1)
  }

  /** The send-complete handler. */
  function SendDone(c: Console): (r: Console)
    ensures Inv(c) ==> Inv(r)
    ensures r.writeWait == c.writeWait + 1
    ensures r.(writeWait := c.writeWait) == c
  {
    c.(writeWait := c.writeWait + 1)
  }

  /** The reader's and the device's actions, interleaved. A call carries the
      byte that ends its wait, should it wait. */
  datatype Event = Arrive(b: byte) | Call(block: bool, arrival: byte)

  /** The bytes the reads of a run return (the -1 results left out), the bytes
      the device received during it, and the console afterwards. */
  datatype Outcome = Outcome(got: seq<byte>, received: seq<byte>, console: Console)

  /** Running `evs` loses no byte and returns none twice: whatever the
      interleaving of arrivals and reads, what was queued plus what the device
      received is exactly what the reads returned followed by what is still
      queued. */
  ghost function Run(c: Console, evs: seq<Event>): (r: Outcome)
    requires Inv(c)
    ensures Inv(r.console)
    ensures c.incoming + r.received == r.got + r.console.incoming
    decreases |evs|
  {
    if evs == [] then Outcome([], [], c)
    else match evs[0]
      case Arrive(b) =>
        var rest := Run(Receive(c, b), evs[1..]);
        ArrivedBytes(c.incoming, b, rest.received, rest.got, rest.console.incoming);
        Outcome(rest.got, [b] + rest.received, rest.console)
      case Call(block, arrival) =>
        var rr := Read(c, block, arrival);
        var rest := Run(rr.console, evs[1..]);
        if MustWait(c, block) then
          WokenBytes(arrival, rest.received, rest.got, rest.console.incoming);
          Outcome([rr.value as byte] + rest.got, [arrival] + rest.received, rest.console)
        else if rr.value == -1 then
          rest
        else
          TakenBytes(c.incoming, rest.received, rest.got, rest.console.incoming);
          Outcome([rr.value as byte] + rest.got, rest.received, rest.console)
  }

  lemma ArrivedBytes(queued: seq<byte>, b: byte, received: seq<byte>, got: seq<byte>, left: seq<byte>)
    requires (queued + [b]) + received == got + left
    ensures queued + ([b] + received) == got + left
  {
    assert queued + ([b] + received) == (queued + [b]) + received;
  }

  lemma WokenBytes(a: byte, received: seq<byte>, got: seq<byte>, left: seq<byte>)
    requires [] + received == got + left
    ensures [] + ([a] + received) == ([a] + got) + left
  {
    assert [] + received == received;
  }

  lemma TakenBytes(queued: seq<byte>, received: seq<byte>, got: seq<byte>, left: seq<byte>)
    requires |queued| > 0 && queued[1..] + received == got + left
    ensures queued + received == ([queued[0]] + got) + left
  {
    calc {
      queued + received;
      ([queued[0]] + queued[1..]) + received;
      [queued[0]] + (queued[1..] + received);
      [queued[0]] + (got + left);
      ([queued[0]] + got) + left;
    }
  }

  /** The bytes that arrive at `Arrive` events of `evs`, in order. */
  function Arrivals(evs: seq<Event>): (r: seq<byte>)
    ensures |r| <= |evs|
  {
    if evs == [] then []
    else match evs[0]
      case Arrive(b) => [b] + Arrivals(evs[1..])
      case Call(_, _) => Arrivals(evs[1..])
  }

  /** A run of arrivals alone receives exactly the bytes of its `Arrive`
      events and queues them all. */
  lemma {:induction false} NoWaitReceivesArrivals(c: Console, evs: seq<Event>)
    requires Inv(c)
    requires forall i :: 0 <= i < |evs| ==> !evs[i].Call?
    ensures Run(c, evs).received == Arrivals(evs)
    ensures Run(c, evs).got == [] && Run(c, evs).console.incoming == c.incoming + Arrivals(evs)
    decreases |evs|
  {
    if evs != [] {
      assert evs[0].Arrive?;
      NoWaitReceivesArrivals(Receive(c, evs[0].b), evs[1..]);
    }
  }

  /** A non-blocking read that finds no byte flagged changes nothing, so a
      blocking read after it sees the same console. */
  lemma NonBlockingMissIsInvisible(c: Console, arrival: byte, arrival': byte)
    requires Inv(c) && !c.charAvailable
    ensures Read(c, false, arrival).value == -1
    ensures Read(Read(c, false, arrival).console, true, arrival') == Read(c, true, arrival')
  {
  }

  /** The availability flag is only a hint: after two arrivals and one
      non-blocking read, the next non-blocking read reports no data although a
      byte is queued, and a blocking read then returns that byte. */
  lemma HintMissesQueuedByte(b1: byte, b2: byte, a: byte)
    ensures var c1 := Receive(Receive(Initial(), b1), b2);
            var r1 := Read(c1, false, a);
            var r2 := Read(r1.console, false, a);
            && r1.value == b1 as int
            && r2.value == -1 && r2.console.incoming == [b2]
            && Read(r2.console, true, a).value == b2 as int
  {
  }

  /** A blocking read woken by the arrival of `b` leaves the hint set with no
      signal pending, so the non-blocking read after it waits in `P` and
      returns a byte that had not arrived when it was called. */
  lemma StaleHintAfterWokenRead(b: byte, b': byte)
    ensures var woken := Read(Initial(), true, b);
            && woken.value == b as int
            && woken.console.charAvailable && woken.console.readWait == 0
            && MustWait(woken.console, false)
            && Read(woken.console, false, b').value == b' as int
  {
  }

  /** The hint the documentation of readByte relies on: it is set only while a
      signal is pending, so that readByte(false) can decide without waiting. */
  ghost predicate Hinted(c: Console)
  {
    Inv(c) && (c.charAvailable ==> c.readWait > 0)
  }

  /** readByte with the hint cleared after `P` instead of before it. */
  function ReadCorrected(c: Console, block: bool, arrival: byte): (r: ReadResult)
    requires Inv(c)
    ensures Inv(r.console)
    ensures Hinted(c) ==> Hinted(r.console)
    ensures !MustWait(c, block) ==> r == Read(c, block, arrival)
    ensures MustWait(c, block) ==> r.value == arrival as int && r.console == c.(charAvailable := false)
  {
    if block || c.charAvailable then
      var signalled := if c.readWait > 0 then c else Receive(c, arrival);
      var taken := signalled.(charAvailable := false, readWait := signalled.readWait - 1);
      ReadResult(taken.(incoming := taken.incoming[1..]), taken.incoming[0] as int)
    else
      ReadResult(c, -1)
  }

  /** The same woken read, corrected: the non-blocking read after it reports
      no data instead of waiting. */
  lemma CorrectedWokenReadThenMiss(b: byte, b': byte)
    ensures var woken := ReadCorrected(Initial(), true, b);
            && woken.value == b as int
            && !MustWait(woken.console, false)
            && ReadCorrected(woken.console, false, b').value == -1
  {
  }

  /** With the corrected read, every step of the console keeps the hint sound,
      so a non-blocking read never waits. */
  lemma CorrectedHintStaysSound(c: Console, block: bool, arrival: byte, b: byte, v: byte)
    requires Hinted(c)
    ensures !MustWait(c, false)
    ensures Hinted(Initial())
    ensures Hinted(ReadCorrected(c, block, arrival).console)
    ensures Hinted(Receive(c, b)) && Hinted(Write(c, v)) && Hinted(SendDone(c))
  {
  }

  class SynchConsole {
    var charAvailable: bool
    /** The counters of the read and write semaphores. */
    var readWait: nat
    var writeWait: nat
    /** The serial device: bytes received and not yet read, bytes handed over
        for sending. */
    var incoming: seq<byte>
    var sent: seq<byte>

    ghost function State(): Console
      reads this
    {
      Console(charAvailable, readWait, writeWait, incoming, sent)
    }

    ghost predicate Valid()
      reads this
    {
      Inv(State())
    }

    constructor ()
      ensures Valid() && State() == Initial()
    {
      charAvailable, readWait, writeWait := false, 0, 0;
      incoming, sent := [], [];
    }

    /** readByte(block). When `P` finds no signal pending, the caller sleeps
        until the receive interrupt for `arrival` wakes it. */
    method ReadByte(block: bool, arrival: byte) returns (value: int)
      requires Valid()
      modifies this
      ensures Valid()
      ensures ReadResult(State(), value) == Read(old(State()), block, arrival)
    {
      if block || charAvailable {
        charAvailable := false;
        if readWait == 0 {
          ReceiveInterrupt(arrival);
        }
        readWait := readWait - 1;
        var b := incoming[0];
        incoming := incoming[1..];
        value := b as int;
        assert value != -1;
      } else {
        value := -1;
      }
    }

    /** The device delivers `b` and raises the receive interrupt. */
    method ReceiveInterrupt(b: byte)
      requires Valid()
      modifies this
      ensures Valid() && State() == Receive(old(State()), b)
    {
      incoming := incoming + [b];
      charAvailable := true;
      readWait := readWait + 1;
    }

    method WriteByte(value: byte)
      requires Valid()
      modifies this
      ensures Valid() && State() == Write(old(State()), value)
    {
      sent := sent + [value];
      SendInterrupt();
      writeWait := writeWait - 1;
    }

    method SendInterrupt()
      requires Valid()
      modifies this
      ensures Valid() && State() == SendDone(old(State()))
    {
      writeWait := writeWait + 1;
    }

    method OpenForReading() returns (f: ConsoleFile)
      ensures fresh(f) && f.console == this && f.canRead && !f.canWrite
    {
      f := new ConsoleFile(this, true, false);
    }

    method OpenForWriting() returns (f: ConsoleFile)
      ensures fresh(f) && f.console == this && !f.canRead && f.canWrite
    {
      f := new ConsoleFile(this, false, true);
    }
  }

  /** A console endpoint seen as an open file. */
  class ConsoleFile {
    const console: SynchConsole
    var canRead: bool
    var canWrite: bool

    constructor (console: SynchConsole, canRead: bool, canWrite: bool)
      ensures this.console == console && this.canRead == canRead && this.canWrite == canWrite
    {
      this.console := console;
      this.canRead := canRead;
      this.canWrite := canWrite;
    }

    method Close()
      modifies this
      ensures !canRead && !canWrite
    {
      canRead, canWrite := false, false;
    }

    /** Copies bytes with non-blocking reads into buf[offset..], stopping at
        `length` bytes or at the first read that finds none. A read that waits
        is woken by the next byte of `arrivals`. */
    method Read(buf: array<byte>, offset: int, length: int, arrivals: seq<byte>) returns (n: int)
      requires console.Valid()
      requires canRead && length > 0 ==> 0 <= offset && offset + length <= buf.Length
      requires canRead && length > 0 && MustWait(console.State(), false) ==> length <= |arrivals|
      modifies buf, console
      ensures console.Valid()
      ensures !canRead ==> n == 0 && unchanged(console) && unchanged(buf)
      ensures n == if canRead && length > 0 && old(console.charAvailable)
                   then (if old(console.readWait) == 0 then length else 1)
                   else 0
      ensures canRead && n > 0 ==>
                buf[offset..offset + n] == if old(console.readWait) == 0 then arrivals[..n] else old(console.incoming)[..n]
      ensures canRead ==> console.incoming == if old(console.readWait) == 0 then old(console.incoming) else old(console.incoming)[n..]
      ensures canRead ==> console.charAvailable == (old(console.charAvailable) && (length <= 0 || old(console.readWait) == 0))
      ensures canRead ==> forall k :: 0 <= k < buf.Length && !(offset <= k < offset + n) ==> buf[k] == old(buf[k])
      ensures canRead ==> console.sent == old(console.sent) && console.writeWait == old(console.writeWait)
    {
      if !canRead {
        return 0;
      }
      ghost var waits := length > 0 && MustWait(console.State(), false);
      var i := 0;
      while i < length
        invariant 0 <= i <= (if length > 0 then length else 0)
        invariant console.Valid()
        invariant console.sent == old(console.sent) && console.writeWait == old(console.writeWait)
        invariant forall k :: 0 <= k < buf.Length && !(offset <= k < offset + i) ==> buf[k] == old(buf[k])
        invariant waits ==> console.State() == old(console.State())
        invariant waits && i > 0 ==> buf[offset..offset + i] == arrivals[..i]
        invariant !waits ==> i <= |old(console.incoming)| && i <= (if old(console.charAvailable) then 1 else 0)
        invariant !waits && i > 0 ==> buf[offset..offset + i] == old(console.incoming)[..i]
        invariant !waits ==> console.incoming == old(console.incoming)[i..]
        invariant !waits && i > 0 ==> !console.charAvailable
        invariant !waits && i == 0 ==> console.charAvailable == old(console.charAvailable)
      {
        var value := console.ReadByte(false, if i < |arrivals| then arrivals[i] else 0);
        if value == -1 {
          break;
        }
        buf[offset + i] := value as byte;
        i := i + 1;
      }
      n := i;
    }

    /** Sends buf[offset..offset + length] with blocking writes, in order. */
    method Write(buf: array<byte>, offset: int, length: int) returns (n: int)
      requires console.Valid()
      requires canWrite && length > 0 ==> 0 <= offset && offset + length <= buf.Length
      modifies console
      ensures console.Valid()
      ensures !canWrite ==> n == 0 && unchanged(console)
      ensures canWrite ==> n == length
      ensures canWrite ==> console.sent == old(console.sent) + (if length > 0 then buf[offset..offset + length] else [])
      ensures canWrite ==> console.incoming == old(console.incoming) && console.writeWait == old(console.writeWait)
                           && console.readWait == old(console.readWait) && console.charAvailable == old(console.charAvailable)
    {
      if !canWrite {
        return 0;
      }
      var i := 0;
      while i < length
        invariant 0 <= i <= (if length > 0 then length else 0)
        invariant console.Valid()
        invariant console.sent == old(console.sent) + (if i > 0 then buf[offset..offset + i] else [])
        invariant console.incoming == old(console.incoming) && console.writeWait == old(console.writeWait)
        invariant console.readWait == old(console.readWait) && console.charAvailable == old(console.charAvailable)
      {
        console.WriteByte(buf[offset + i]);
        assert buf[offset..offset + i + 1] == buf[offset..offset + i] + [buf[offset + i]];
        i := i + 1;
      }
      return length;
    }
  }
}
