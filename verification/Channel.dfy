/** One direction of the transport over whole runs: a sender, a lossless first-in first-out byte
    channel and a receiver, with key changes on both sides (RFC 4253, sections 6 and 7.3). */
module Channel {
  import opened Options
  import opened Bytes
  import opened Aes
  import opened Packets
  import opened KeyInstall
  import StreamHash

  datatype Step =
    | Send(payload: seq<byte>, random: seq<byte>) | SetKeysOut(args: KeyArgs) | ActivateOut
    | Recv | SetKeysIn(args: KeyArgs) | ActivateIn
  {
    predicate Valid() { Send? ==> |random| == 19 }
  }

  // ---------- the protection in force ----------

  /** Keys that are installed but not activated do not matter to packets. */
  function Effective(d: Direction): (e: Direction)
    ensures d.Valid() ==> e.Valid()
  {
    if d.encrypted then d else Direction(false, None, [], d.number)
  }

  /** What an end has done so far, as the other can count it: packets, and the points where the
      protection of the packets changes. */
  datatype Mark = OnePacket | Switch(stream: Stream, mac: seq<byte>)

  /** What has been put on the channel. */
  datatype Item = Message(payload: seq<byte>, random: seq<byte>) | Rekey(stream: Stream, mac: seq<byte>) {
    predicate Valid() {
      if Message? then Sendable(payload) && |random| == 19 else stream.Valid() && |mac| <= 32
    }

    function Mark(): Mark { if Message? then OnePacket else Switch(stream, mac) }
  }

  type Items = s: seq<Item> | forall i :: 0 <= i < |s| ==> s[i].Valid() witness []

  /** The change of protection from d to e, if there is one. */
  function Change(d: Direction, e: Direction): (items: Items)
    requires d.Valid() && e.Valid()
    ensures |items| <= 1
  {
    if e.encrypted && e != d then [Rekey(e.stream.value, e.mac)] else []
  }

  function Marks(items: seq<Item>): (marks: seq<Mark>)
    ensures |marks| == |items|
  {
    seq(|items|, i requires 0 <= i < |items| => items[i].Mark())
  }

  // ---------- runs ----------

  /** Both ends, the bytes between them, what has been handed in and out, and the history: what
      the sender put on the channel and what the receiver has taken in. */
  datatype System = System(tx: Direction, rx: Direction, wire: seq<byte>, sent: seq<seq<byte>>, got: seq<seq<byte>>,
                           failures: nat, put: Items, taken: seq<Mark>) {
    predicate Valid() { tx.Valid() && rx.Valid() }
  }

  function Start(d: Direction, e: Direction): System { System(d, e, [], [], [], 0, [], []) }

  function Concat(a: Items, b: Items): Items { a + b }

  function ChangeOut(s: System, e: Direction): (t: System)
    requires s.Valid() && e.Valid()
    ensures t.Valid()
  {
    s.(tx := e, put := Concat(s.put, Change(s.tx, e)))
  }

  function ChangeIn(s: System, e: Direction): (t: System)
    requires s.Valid() && e.Valid()
    ensures t.Valid()
  {
    s.(rx := e, taken := s.taken + Marks(Change(s.rx, e)))
  }

  function SendNext(f: Compression, s: System, payload: seq<byte>, random: seq<byte>): (t: System)
    requires s.Valid() && |random| == 19
    ensures t.Valid()
  {
    if !Sendable(payload) then s
    else
      var p := PaddedPacket(s.tx, payload, random);
      s.(tx := Sent(s.tx, p), wire := s.wire + Wire(f, s.tx, p), sent := s.sent + [payload],
         put := Concat(s.put, [Message(payload, random)]))
  }

  function RecvNext(f: Compression, s: System): (t: System)
    requires s.Valid()
    ensures t.Valid()
  {
    AfterReceive(f, s.rx, s.wire);
    var r := Receive(f, s.rx, s.wire);
    var t := s.(rx := r.after, wire := r.rest, taken := s.taken + [OnePacket]);
    if r.Accepted? then t.(got := s.got + [r.payload]) else t.(failures := s.failures + 1)
  }

  lemma AfterReceive(f: Compression, d: Direction, input: seq<byte>)
    requires d.Valid()
    ensures Receive(f, d, input).after.Valid()
  {
    hide Ctr.Crypted, StreamHash.BE, PacketMac;
  }

  /** A direction is activated only once it has keys. */
  predicate Enabled(s: System, step: Step) {
    step.Valid() && (step.ActivateOut? ==> s.tx.stream.Some?) && (step.ActivateIn? ==> s.rx.stream.Some?)
  }

  function Next(f: Compression, s: System, step: Step): (t: System)
    requires s.Valid()
    ensures t.Valid()
  {
    if !Enabled(s, step) then s
    else
      match step
      case Send(payload, random) => SendNext(f, s, payload, random)
      case SetKeysOut(a) => ChangeOut(s, Install(s.tx, a).1)
      case ActivateOut => ChangeOut(s, s.tx.(encrypted := true))
      case Recv => RecvNext(f, s)
      case SetKeysIn(a) => ChangeIn(s, Install(s.rx, a).1)
      case ActivateIn => ChangeIn(s, s.rx.(encrypted := true))
  }

  function Run(f: Compression, s: System, steps: seq<Step>): (t: System)
    requires s.Valid()
    ensures t.Valid()
  {
    if steps == [] then s else Next(f, Run(f, s, steps[..|steps| - 1]), steps[|steps| - 1])
  }

  /** The receiver asks for a packet only when one is there, and its protection changes at the
      packet index where the sender's did, to the same.  When the calls of session_set_keys and
      session_activate that bring this about are made is free. */
  ghost predicate Disciplined(f: Compression, s: System, steps: seq<Step>)
    requires s.Valid()
  {
    steps != [] ==>
      var before, step, t := steps[..|steps| - 1], steps[|steps| - 1], Run(f, s, steps);
      Disciplined(f, s, before) && Enabled(Run(f, s, before), step) && t.taken <= Marks(t.put)
  }

  // ---------- what is in flight ----------

  /** A direction after one item. */
  function Stepped(d: Direction, i: Item): (e: Direction)
    requires d.Valid() && i.Valid()
    ensures e.Valid()
  {
    match i
    case Message(payload, random) => Sent(d, PaddedPacket(d, payload, random))
    case Rekey(stream, mac) => Direction(true, Some(stream), mac, d.number)
  }

  function ItemBytes(f: Compression, d: Direction, i: Item): seq<byte>
    requires d.Valid() && i.Valid()
  {
    if i.Message? then Wire(f, d, PaddedPacket(d, i.payload, i.random)) else []
  }

  function After(d: Direction, items: Items): (e: Direction)
    requires d.Valid()
    ensures e.Valid()
    decreases |items|
  {
    if items == [] then d else After(Stepped(d, items[0]), items[1..])
  }

  function WireOf(f: Compression, d: Direction, items: Items): seq<byte>
    requires d.Valid()
    decreases |items|
  {
    if items == [] then [] else ItemBytes(f, d, items[0]) + WireOf(f, Stepped(d, items[0]), items[1..])
  }

  function Payloads(items: Items): seq<seq<byte>>
    decreases |items|
  {
    if items == [] then [] else (if items[0].Message? then [items[0].payload] else []) + Payloads(items[1..])
  }

  lemma {:induction false} AppendItem(f: Compression, d: Direction, items: Items, i: Item)
    requires d.Valid() && i.Valid()
    ensures After(d, Concat(items, [i])) == Stepped(After(d, items), i)
    ensures WireOf(f, d, Concat(items, [i])) == WireOf(f, d, items) + ItemBytes(f, After(d, items), i)
    ensures Payloads(Concat(items, [i])) == Payloads(items) + if i.Message? then [i.payload] else []
    decreases |items|
  {
    hide Stepped, ItemBytes;
    if items == [] {
      assert [i][1..] == [] && [] + [i] == [i];
    } else {
      assert (items + [i])[1..] == items[1..] + [i];
      AppendItem(f, Stepped(d, items[0]), items[1..], i);
    }
  }

  /** Sequence numbers run ahead by the packets in flight, key changes or not. */
  lemma {:induction false} AfterNumber(d: Direction, items: Items)
    requires d.Valid()
    ensures After(d, items).number == (d.number + |Payloads(items)|) % 0x1_0000_0000
    decreases |items|
  {
    hide PaddedPacket;
    if items != [] {
      AfterNumber(Stepped(d, items[0]), items[1..]);
      NumberSum(d.number, |Payloads(items[1..])|);
    }
  }

  lemma NumberSum(n: nat, m: nat)
    ensures ((n + 1) % 0x1_0000_0000 + m) % 0x1_0000_0000 == (n + 1 + m) % 0x1_0000_0000
  {
  }

  // ---------- the invariant ----------

  function InFlight(s: System): Items
    requires |s.taken| <= |s.put|
  {
    s.put[|s.taken|..]
  }

  /** The channel invariant: the sender is the receiver advanced by what is in flight, the wire
      holds exactly those packets, and nothing has been lost or refused. */
  ghost predicate Synced(f: Compression, s: System) {
    && s.Valid() && |s.taken| <= |s.put|
    && Effective(s.tx) == After(Effective(s.rx), InFlight(s))
    && s.wire == WireOf(f, Effective(s.rx), InFlight(s))
    && s.sent == s.got + Payloads(InFlight(s))
    && s.failures == 0
  }

  /** Packets depend on the protection in force alone. */
  lemma SameProtection(f: Compression, d: Direction, payload: seq<byte>, random: seq<byte>)
    requires d.Valid() && Sendable(payload) && |random| == 19
    ensures var e, p := Effective(d), PaddedPacket(d, payload, random);
      PaddedPacket(e, payload, random) == p && Wire(f, e, p) == Wire(f, d, p) && Sent(e, p) == Effective(Sent(d, p))
  {
    hide PadLength, Packet, Ctr.Crypted, PacketMac;
  }

  lemma FlightGrows(s: System, t: System, i: Item)
    requires |s.taken| <= |s.put| && t.taken == s.taken && i.Valid() && t.put == Concat(s.put, [i])
    ensures InFlight(t) == Concat(InFlight(s), [i])
  {
  }

  lemma SendKeeps(f: Compression, s: System, payload: seq<byte>, random: seq<byte>)
    requires Synced(f, s) && |random| == 19
    ensures Synced(f, SendNext(f, s, payload, random))
  {
    hide PaddedPacket, Sent, Wire, Effective, InFlight, Concat;
    if Sendable(payload) {
      var t, i := SendNext(f, s, payload, random), Message(payload, random);
      assert |t.put| == |s.put| + 1 by { PutOne(s.put, i); }
      FlightGrows(s, t, i);
      AppendItem(f, Effective(s.rx), InFlight(s), i);
      SameProtection(f, s.tx, payload, random);
    }
  }

  lemma PutOne(items: Items, i: Item)
    requires i.Valid()
    ensures |Concat(items, [i])| == |items| + 1
  {
  }

  lemma ChangeOutKeeps(f: Compression, s: System, e: Direction)
    requires Synced(f, s) && e.Valid() && e.number == s.tx.number && (s.tx.encrypted ==> e.encrypted)
    ensures Synced(f, ChangeOut(s, e))
  {
    hide InFlight, Concat;
    var t := ChangeOut(s, e);
    if Change(s.tx, e) == [] {
      assert Concat(s.put, []) == s.put by { NothingPut(s.put); }
      assert InFlight(t) == InFlight(s) by { SameFlight(s, t); }
    } else {
      var i := Rekey(e.stream.value, e.mac);
      PutOne(s.put, i);
      FlightGrows(s, t, i);
      AppendItem(f, Effective(s.rx), InFlight(s), i);
    }
  }

  lemma NothingPut(items: Items)
    ensures Concat(items, []) == items
  {
  }

  lemma SameFlight(s: System, t: System)
    requires |s.taken| <= |s.put| && t.taken == s.taken && t.put == s.put
    ensures InFlight(t) == InFlight(s)
  {
  }

  /** What the receiver takes in next is the first thing in flight. */
  lemma HeadTaken(s: System, t: System, m: Mark)
    requires |s.taken| <= |s.put| && t.put == s.put && t.taken == s.taken + [m] && t.taken <= Marks(t.put)
    ensures InFlight(s) != [] && InFlight(s)[0].Mark() == m && |t.taken| <= |t.put| && InFlight(t) == InFlight(s)[1..]
  {
    assert t.taken[|s.taken|] == m == Marks(s.put)[|s.taken|];
  }

  lemma HeadGone(f: Compression, d: Direction, items: Items)
    requires d.Valid() && items != []
    ensures var e := Stepped(d, items[0]);
      && After(d, items) == After(e, items[1..])
      && WireOf(f, d, items) == ItemBytes(f, d, items[0]) + WireOf(f, e, items[1..])
      && Payloads(items) == (if items[0].Message? then [items[0].payload] else []) + Payloads(items[1..])
  {
  }

  lemma RecvKeeps(f: Compression, s: System)
    requires Synced(f, s) && RecvNext(f, s).taken <= Marks(s.put)
    ensures Synced(f, RecvNext(f, s))
  {
    hide PaddedPacket, Sent, Wire, Receive, InFlight, Marks, Effective;
    HeadTaken(s, RecvNext(f, s), OnePacket);
    var i := InFlight(s)[0];
    SameProtection(f, s.rx, i.payload, i.random);
    ReceiveSent(f, s.rx, i.payload, i.random, WireOf(f, Stepped(Effective(s.rx), i), InFlight(s)[1..]));
  }

  lemma ChangeInKeeps(f: Compression, s: System, e: Direction)
    requires Synced(f, s) && e.Valid() && e.number == s.rx.number && (s.rx.encrypted ==> e.encrypted)
    requires ChangeIn(s, e).taken <= Marks(s.put)
    ensures Synced(f, ChangeIn(s, e))
  {
    hide InFlight, After, WireOf, Payloads;
    var t := ChangeIn(s, e);
    if Change(s.rx, e) == [] {
      assert t.taken == s.taken;
      assert InFlight(t) == InFlight(s) by { SameFlight(s, t); }
    } else {
      var m := Switch(e.stream.value, e.mac);
      assert Marks(Change(s.rx, e)) == [m];
      HeadTaken(s, t, m);
      HeadGone(f, Effective(s.rx), InFlight(s));
      assert Effective(e) == Stepped(Effective(s.rx), InFlight(s)[0]);
    }
  }

  lemma InstallKeeps(d: Direction, a: KeyArgs)
    requires d.Valid()
    ensures var e := Install(d, a).1; e.Valid() && e.number == d.number && e.encrypted == d.encrypted
  {
    hide ScheduleOf;
  }

  lemma NextKeeps(f: Compression, s: System, step: Step)
    requires Synced(f, s) && Enabled(s, step) && Next(f, s, step).taken <= Marks(Next(f, s, step).put)
    ensures Synced(f, Next(f, s, step))
  {
    SyncedValid(f, s);
    hide Synced, SendNext, RecvNext, ChangeOut, ChangeIn, Install, Marks;
    match step
    case Send(payload, random) => SendKeeps(f, s, payload, random);
    case SetKeysOut(a) => InstallKeeps(s.tx, a); ChangeOutKeeps(f, s, Install(s.tx, a).1);
    case ActivateOut => ChangeOutKeeps(f, s, s.tx.(encrypted := true));
    case Recv => SamePut(f, s, step); RecvKeeps(f, s);
    case SetKeysIn(a) => SamePut(f, s, step); InstallKeeps(s.rx, a); ChangeInKeeps(f, s, Install(s.rx, a).1);
    case ActivateIn => SamePut(f, s, step); ChangeInKeeps(f, s, s.rx.(encrypted := true));
  }

  lemma SyncedValid(f: Compression, s: System)
    requires Synced(f, s)
    ensures s.Valid()
  {
  }

  lemma SamePut(f: Compression, s: System, step: Step)
    requires s.Valid() && (step.Recv? || step.SetKeysIn? || step.ActivateIn?)
    ensures Next(f, s, step).put == s.put
  {
    hide Receive, Install, Change;
  }

  lemma StartSynced(f: Compression, d: Direction, e: Direction)
    requires d.Valid() && e.Valid() && Effective(d) == Effective(e)
    ensures Synced(f, Start(d, e))
  {
  }

  lemma PrefixDisciplined(f: Compression, s: System, steps: seq<Step>)
    requires s.Valid() && Disciplined(f, s, steps) && steps != []
    ensures var t, step := Run(f, s, steps[..|steps| - 1]), steps[|steps| - 1];
      Disciplined(f, s, steps[..|steps| - 1]) && Enabled(t, step) && Next(f, t, step).taken <= Marks(Next(f, t, step).put)
  {
    hide Marks, Next, Enabled;
  }

  /** The invariant holds after every disciplined run, from any two ends whose protection in
      force and sequence numbers agree. */
  lemma {:induction false} RunSynced(f: Compression, d: Direction, e: Direction, steps: seq<Step>)
    requires d.Valid() && e.Valid() && Effective(d) == Effective(e) && Disciplined(f, Start(d, e), steps)
    ensures Synced(f, Run(f, Start(d, e), steps))
  {
    hide Disciplined, Synced, Next, Start, Effective, Enabled;
    StartSynced(f, d, e);
    if steps != [] {
      var t, step := steps[..|steps| - 1], steps[|steps| - 1];
      PrefixDisciplined(f, Start(d, e), steps);
      RunSynced(f, d, e, t);
      NextKeeps(f, Run(f, Start(d, e), t), step);
    }
  }

  lemma SyncedMeaning(f: Compression, s: System)
    requires Synced(f, s)
    ensures s.failures == 0 && s.got <= s.sent
    ensures s.tx.number == (s.rx.number + (|s.sent| - |s.got|)) % 0x1_0000_0000
    ensures |s.taken| == |s.put| ==> s.got == s.sent && Effective(s.tx) == Effective(s.rx) && s.wire == []
  {
    AfterNumber(Effective(s.rx), InFlight(s));
  }

  /** Over every disciplined run, with any payloads, padding bytes, key changes, failing calls of
      session_set_keys and packets between installing and activating keys: no packet is refused,
      the receiver has output exactly the first of the payloads sent, the sequence numbers differ
      by the packets in flight, and once the receiver has caught up the two ends agree, keystream
      positions included. */
  lemma Delivered(f: Compression, d: Direction, e: Direction, steps: seq<Step>)
    requires d.Valid() && e.Valid() && Effective(d) == Effective(e) && Disciplined(f, Start(d, e), steps)
    ensures var s := Run(f, Start(d, e), steps);
      && s.failures == 0
      && s.got <= s.sent
      && s.tx.number == (s.rx.number + (|s.sent| - |s.got|)) % 0x1_0000_0000
      && (s.taken == Marks(s.put) ==> s.got == s.sent && Effective(s.tx) == Effective(s.rx) && s.wire == [])
  {
    hide Run, Disciplined, Synced, Effective;
    RunSynced(f, d, e, steps);
    SyncedMeaning(f, Run(f, Start(d, e), steps));
  }
}
