/** src/session.c: the mutable direction state, key installation, and sending and receiving one
    packet through a socket.  A session is an outgoing direction, an incoming one and a socket;
    session_send touches only the first and the last, session_recv only the last two. */
module Session {
  import opened Arithmetic
  import opened Options
  import opened Bytes
  import opened StreamHash
  import opened Aes
  import opened Ctr
  import opened Packets
  import Buffer
  import FeBytes
  import Sha256

  // ---------- the socket ----------

  /** The byte streams of a connection.  How many bytes a write gets through is the
      environment's choice. */
  class NetSocket {
    var incoming: seq<byte>
    var outgoing: seq<byte>

    /** net_read_full: n bytes, or what is left of the stream. */
    method ReadFull(n: nat) returns (data: seq<byte>)
      modifies this`incoming
      ensures data + incoming == old(incoming)
      ensures |data| == if n <= |old(incoming)| then n else |old(incoming)|
    {
      var m := if n <= |incoming| then n else |incoming|;
      data := incoming[..m];
      incoming := incoming[m..];
    }

    /** net_write_full: fails after `accepts` bytes. */
    method WriteFull(data: seq<byte>, accepts: nat) returns (ok: bool)
      modifies this`outgoing
      ensures ok <==> |data| <= accepts
      ensures outgoing == old(outgoing) + if ok then data else data[..accepts]
    {
      ok := |data| <= accepts;
      outgoing := outgoing + if ok then data else data[..accepts];
    }
  }

  // ---------- one direction ----------

  /** An ssh_direction_t; macKey holds the mac_key_len bytes in use. */
  class SshDirection {
    var encrypted: bool
    const ctr: AesCtr
    var macKey: seq<byte>
    var number: u32

    constructor ()
      ensures Valid() && fresh(Repr())
      ensures !encrypted && macKey == [] && number == 0
    {
      ctr := new AesCtr();
      encrypted, macKey, number := false, [], 0;
    }

    ghost function Repr(): set<object> { {this} + ctr.Repr() }

    ghost predicate Valid()
      reads this, ctr, ctr.aes, ctr.nonceCounter, ctr.stream, ctr.aes.rk
    {
      ctr.Shape() && |macKey| <= 32 && (encrypted ==> ctr.Valid())
    }

    ghost function Value(): (d: Direction)
      requires Valid()
      reads this, ctr, ctr.aes, ctr.nonceCounter, ctr.stream, ctr.aes.rk
      ensures d.Valid()
    {
      Direction(encrypted, if ctr.Valid() then Some(Stream(ctr.aes.Key(), ctr.iv, ctr.pos)) else None, macKey, number)
    }

    /** aes_ctr_crypt in place on the first n bytes of a buffer. */
    method CryptHead(buf: array<byte>, n: nat)
      requires Valid() && encrypted && n <= buf.Length && buf !in Repr()
      modifies ctr`streamOffset, ctr`pos, ctr.nonceCounter, ctr.stream, buf
      ensures Valid() && Value() == old(Value()).Used(n)
      ensures buf[..] == old(Value().stream.value.Crypt(buf[..n])) + old(buf[n..])
    {
      hide Crypted, CounterBlock, Encrypted;
      assert buf[..0] == [] && buf[0..n] == buf[..n];
      ctr.Crypt(buf, buf, 0, n);
    }

    /** d->seq++ */
    method Count()
      requires Valid()
      modifies this`number
      ensures Valid() && Value() == old(Value()).Counted()
    {
      hide Crypted, CounterBlock, Encrypted;
      number := (number + 1) % 0x1_0000_0000;
    }
  }

  /** put_be32 */
  method PutBe32(p: array<byte>, v: u32)
    requires p.Length >= 4
    modifies p
    ensures p[..] == BigEndian(v, 4) + old(p[4..])
  {
    hide BigEndian, Shr;
    Sha256.WordIsBigEndian(v);
    ghost var x := p[..];
    p[0], p[1], p[2], p[3] := Shr(v, 24) % 0x100, Shr(v, 16) % 0x100, Shr(v, 8) % 0x100, Shr(v, 0) % 0x100;
    assert p[..4] == Sha256.Word(v);
    assert p[4..] == x[4..];
  }

  /** The next bytes of a buffer that is filled from the front. */
  method PlaceNext(buf: array<byte>, at: nat, src: seq<byte>)
    requires at + |src| <= buf.Length
    modifies buf
    ensures buf[..at + |src|] == old(buf[..at]) + src
  {
    CopyIn(buf, at, src);
  }

  /** The packet buffer, with room for a MAC behind it. */
  method BuildPacket(payload: seq<byte>, padding: seq<byte>, macLen: nat) returns (buf: array<byte>)
    requires Sendable(payload) && |padding| <= 19
    ensures fresh(buf) && buf.Length == 5 + |payload| + |padding| + macLen
    ensures buf[..5 + |payload| + |padding|] == Packet(payload, padding)
  {
    hide BigEndian;
    buf := new byte[5 + |payload| + |padding| + macLen];
    PutBe32(buf, 1 + |payload| + |padding|);
    PlaceNext(buf, 4, [|padding|]);
    PlaceNext(buf, 5, payload);
    PlaceNext(buf, 5 + |payload|, padding);
  }

  /** HMAC over the sequence number and the packet, streamed in two updates. */
  method ComputeMac(f: Compression, key: seq<byte>, number: u32, packet: seq<byte>) returns (mac: seq<byte>)
    ensures mac == PacketMac(f, key, number, packet)
  {
    hide Sha256.Hash, Sha256.XorPad, Sha256.BlockKey, BigEndian;
    var be := new byte[4];
    PutBe32(be, number);
    assert be[..] == BigEndian(number, 4);
    var h := new Sha256.HmacContext(f, key);
    ghost var pad := h.inner.core.absorbed;
    h.Update(be[..]);
    h.Update(packet);
    assert pad + be[..] + packet == pad + (be[..] + packet);
    mac := h.Final();
  }

  // ---------- sending ----------

  /** The MAC of the packet in front, into the room behind it. */
  method AppendMac(f: Compression, key: seq<byte>, number: u32, buf: array<byte>, total: nat)
    requires buf.Length == total + 32
    modifies buf
    ensures buf[..total] == old(buf[..total]) && buf[total..] == PacketMac(f, key, number, old(buf[..total]))
  {
    hide PacketMac;
    var mac := ComputeMac(f, key, number, buf[..total]);
    CopyIn(buf, total, mac);
  }

  /** The bytes of one packet, protected as the direction demands; its keystream is used up. */
  method Protect(f: Compression, d: SshDirection, payload: seq<byte>, padding: seq<byte>) returns (wire: seq<byte>)
    requires d.Valid() && Sendable(payload) && |padding| <= 19
    modifies d.ctr`streamOffset, d.ctr`pos, d.ctr.nonceCounter, d.ctr.stream
    ensures d.Valid()
    ensures wire == Wire(f, old(d.Value()), Packet(payload, padding))
    ensures d.Value() == if d.encrypted then old(d.Value()).Used(5 + |payload| + |padding|) else old(d.Value())
  {
    hide Crypted, PacketMac, Packet, CounterBlock, Encrypted;
    var total := 5 + |payload| + |padding|;
    var macLen := if d.encrypted && |d.macKey| > 0 then 32 else 0;
    var buf := BuildPacket(payload, padding, macLen);
    ghost var packet := Packet(payload, padding);
    if d.encrypted {
      if macLen > 0 { AppendMac(f, d.macKey, d.number, buf, total); }
      assert buf[..total] == packet && buf[total..] == Tag(f, d.Value(), packet);
      d.CryptHead(buf, total);
    }
    wire := buf[..];
  }

  /** session_send.  random is what rand_bytes delivers, or None if it fails; accepts is how
      many bytes the socket takes before failing.  On a short write the keystream has moved on
      but the sequence number has not. */
  method SessionSend(f: Compression, d: SshDirection, sock: NetSocket, payload: seq<byte>,
                     random: Option<seq<byte>>, accepts: nat) returns (ok: bool)
    requires d.Valid() && (random.Some? ==> |random.value| == 19)
    modifies d`number, d.ctr`streamOffset, d.ctr`pos, d.ctr.nonceCounter, d.ctr.stream, sock`outgoing
    ensures d.Valid()
    ensures !Sendable(payload) || random.None? ==> !ok && d.Value() == old(d.Value()) && sock.outgoing == old(sock.outgoing)
    ensures Sendable(payload) && random.Some? ==>
      var v := old(d.Value());
      var p := PaddedPacket(v, payload, random.value);
      var w := Wire(f, v, p);
      && (ok <==> |w| <= accepts)
      && sock.outgoing == old(sock.outgoing) + (if ok then w else w[..accepts])
      && d.Value() == (if ok then Sent(v, p) else if v.encrypted then v.Used(|p|) else v)
  {
    hide Crypted, PacketMac, Packet, Wire, CounterBlock, Encrypted;
    if |payload| == 0 || |payload| > MAX_PAYLOAD_SIZE || random.None? { return false; }
    var block := if d.encrypted then 16 else 8;
    var pad := block - (5 + |payload|) % block;
    if pad < MIN_PADDING_SIZE { pad := pad + block; }
    PaddingRule(|payload|, block);
    // so the source's check against MAX_PACKET_SIZE never fires
    assert 5 + |payload| + pad <= MAX_PACKET_SIZE;
    var wire := Protect(f, d, payload, random.value[..pad]);
    ok := sock.WriteFull(wire, accepts);
    if !ok { return; }
    d.Count();
  }

  // ---------- receiving ----------

  /** What the receiver reports.  Endless: it never does, because the growth loop of buf_reserve
      does not end; the method returns the state the source is stuck in. */
  datatype Status = Received | Failed | Endless

  /** For each outcome of Receive. */
  function StatusOf(r: Result): Status {
    match r
    case Accepted(_, _, _) => Received
    case Rejected(_, _) => Failed
    case Wrapped(_, _) => Endless
  }

  /** What becomes of the direction, the socket and the output buffer, for each outcome.  The
      buffer is untouched on failure, but emptied before the payload length is used. */
  ghost predicate Settles(r: Result, st: Status, d: Direction, incoming: seq<byte>,
                          contents: seq<byte>, rpos: nat, oldContents: seq<byte>, oldRpos: nat)
  {
    && st == StatusOf(r) && d == r.after && incoming == r.rest
    && match r {
      case Accepted(payload, _, _) => contents == payload && rpos == 0
      case Rejected(_, _) => contents == oldContents && rpos == oldRpos
      case Wrapped(_, _) => contents == [] && rpos == 0
    }
  }

  /** The common end of session_recv: the padding and payload length checks and the copy out. */
  method TakePayload(d: SshDirection, pkt: seq<byte>, out: Buffer.SshBuf, ghost rest: seq<byte>) returns (st: Status)
    requires d.Valid() && 5 <= |pkt| <= 4 + MAX_PACKET_SIZE && out.Valid() && out !in d.Repr() && out.data !in d.Repr()
    requires out.data.Length < Buffer.SIZE_LIMIT - 1
    modifies d`number, out`data, out`len, out`rpos, out.data
    ensures d.Valid() && out.Valid()
    ensures Settles(Extract(old(d.Value()), pkt, rest), st, d.Value(), rest,
                    out.Contents(), out.rpos, old(out.Contents()), old(out.rpos))
  {
    hide Crypted, CounterBlock, Encrypted, Buffer.GrowthEnds, Buffer.FirstReaching;
    var padding: nat := pkt[4];
    if padding < MIN_PADDING_SIZE || padding + 1 >= |pkt| { return Failed; }
    var payloadLen := (|pkt| - 4 - 1 - padding) % Buffer.SIZE;
    PayloadLength(|pkt|, padding);
    if payloadLen < 1 { return Failed; }
    var done := CopyPayload(out, pkt, payloadLen);
    if !done { return Endless; }
    d.Count();
    st := Received;
  }

  /** buf_reset and buf_put_raw, which starts with buf_reserve. */
  method CopyPayload(out: Buffer.SshBuf, pkt: seq<byte>, payloadLen: nat) returns (done: bool)
    requires out.Valid() && 1 <= payloadLen < Buffer.SIZE && |pkt| <= 4 + MAX_PACKET_SIZE
    requires 5 + payloadLen <= |pkt| || !Buffer.GrowthEnds(out.data.Length, payloadLen)
    requires 5 + payloadLen > |pkt| ==> payloadLen > out.data.Length
    modifies out`data, out`len, out`rpos, out.data
    ensures out.Valid() && out.rpos == 0 && (done <==> 5 + payloadLen <= |pkt|)
    ensures out.Contents() == if done then pkt[5..5 + payloadLen] else []
  {
    hide Buffer.GrowthEnds, Buffer.FirstReaching;
    out.Reset();
    done := out.Reserve(payloadLen);
    if !done { return; }
    out.PutRaw(pkt[5..5 + payloadLen]);
  }

  /** The payload length in size_t arithmetic.  In the gap it is so large that no capacity of a
      real buffer ever doubles up to it. */
  lemma PayloadLength(total: nat, padding: nat)
    requires 5 <= total <= 4 + MAX_PACKET_SIZE && padding + 1 < total
    ensures var n := (total - 4 - 1 - padding) % Buffer.SIZE;
      if padding + 5 <= total then n == total - 5 - padding
      else n >= Buffer.SIZE - 3 && forall cap: nat :: cap < Buffer.SIZE_LIMIT - 1 ==> !Buffer.GrowthEnds(cap, n)
  {
    var n := (total - 4 - 1 - padding) % Buffer.SIZE;
    if padding + 5 <= total {
      DivModUnique(total - 5 - padding, Buffer.SIZE, 0, total - 5 - padding);
    } else {
      DivModUnique(total - 5 - padding, Buffer.SIZE, -1, Buffer.SIZE + total - 5 - padding);
      forall cap: nat | cap < Buffer.SIZE_LIMIT - 1 ensures !Buffer.GrowthEnds(cap, n) {
        Buffer.GrowthNeverEnds(cap, n);
      }
    }
  }

  /** The MAC check of an encrypted packet; d has used up the packet's keystream. */
  method VerifyMac(f: Compression, d: SshDirection, sock: NetSocket, pkt: seq<byte>) returns (ok: bool)
    requires d.Valid() && |pkt| >= 5 && sock !in d.Repr()
    modifies sock`incoming
    ensures d.Value() == old(d.Value())
    ensures var input, key, n := old(sock.incoming), d.macKey, d.number;
      if key == [] then ok && sock.incoming == input
      else if |input| < 32 then !ok && sock.incoming == []
      else (ok <==> PacketMac(f, key, n, pkt) == input[..32]) && sock.incoming == input[32..]
  {
    hide Crypted, CounterBlock, Encrypted, PacketMac;
    if |d.macKey| == 0 { return true; }
    ghost var input := sock.incoming;
    var got := sock.ReadFull(32);
    if |got| != 32 {
      assert sock.incoming == [];
      return false;
    }
    assert got == input[..32] && sock.incoming == input[32..];
    var expected := ComputeMac(f, d.macKey, d.number, pkt);
    ok := FeBytes.SameBytes(expected, got);
  }

  /** Reads an unencrypted packet: its length, and the rest. */
  method ReadPlain(sock: NetSocket) returns (pkt: Option<seq<byte>>)
    modifies sock`incoming
    ensures var input := old(sock.incoming);
      if |input| < 4 then pkt.None? && sock.incoming == []
      else
        var n := BE(input[..4]);
        if n < 6 || n > MAX_PACKET_SIZE then pkt.None? && sock.incoming == input[4..]
        else if |input| < 4 + n then pkt.None? && sock.incoming == []
        else pkt == Some(input[..4 + n]) && sock.incoming == input[4 + n..]
  {
    hide BE;
    ghost var input := sock.incoming;
    var head := sock.ReadFull(4);
    if |head| != 4 { assert sock.incoming == []; return None; }
    assert head == input[..4] && sock.incoming == input[4..];
    Buffer.GetBe32Meaning(head);
    var n := Buffer.GetBe32(head);
    if n < 6 || n > MAX_PACKET_SIZE { return None; }
    var body := sock.ReadFull(n);
    if |body| != n { assert sock.incoming == []; return None; }
    assert head + body == input[..4 + n] && sock.incoming == input[4 + n..];
    pkt := Some(head + body);
  }

  /** aes_ctr_crypt of received bytes into a fresh buffer. */
  method Decrypt(d: SshDirection, data: seq<byte>) returns (plain: seq<byte>)
    requires d.Valid() && d.encrypted
    modifies d.ctr`streamOffset, d.ctr`pos, d.ctr.nonceCounter, d.ctr.stream
    ensures d.Valid() && d.Value() == old(d.Value()).Used(|data|)
    ensures plain == old(d.Value()).stream.value.Crypt(data)
  {
    hide Crypted, CounterBlock, Encrypted;
    var buf := new byte[|data|];
    CopyIn(buf, 0, data);
    assert buf[..|data|] == data;
    d.CryptHead(buf, |data|);
    plain := buf[..];
  }

  /** Reads and decrypts an encrypted packet: one block for the length, then the rest. */
  method ReadEncrypted(d: SshDirection, sock: NetSocket) returns (pkt: Option<seq<byte>>)
    requires d.Valid() && d.encrypted && sock !in d.Repr()
    modifies sock`incoming, d.ctr`streamOffset, d.ctr`pos, d.ctr.nonceCounter, d.ctr.stream
    ensures d.Valid()
    ensures var input, v := old(sock.incoming), old(d.Value());
      if |input| < 16 then pkt.None? && sock.incoming == [] && d.Value() == v
      else
        var first := v.stream.value.Crypt(input[..16]);
        var n := BE(first[..4]);
        if n < 12 || n > MAX_PACKET_SIZE || (4 + n) % 16 != 0 then
          pkt.None? && sock.incoming == input[16..] && d.Value() == v.Used(16)
        else if |input| < 4 + n then pkt.None? && sock.incoming == [] && d.Value() == v.Used(16)
        else
          && pkt == Some(first + v.Used(16).stream.value.Crypt(input[16..4 + n]))
          && sock.incoming == input[4 + n..] && d.Value() == v.Used(4 + n)
  {
    hide BE, Crypted, CounterBlock, Encrypted;
    ghost var input, v := sock.incoming, d.Value();
    var block := sock.ReadFull(16);
    if |block| != 16 { assert sock.incoming == []; return None; }
    assert block == input[..16] && sock.incoming == input[16..];
    var first := Decrypt(d, block);
    Buffer.GetBe32Meaning(first[..4]);
    var n := Buffer.GetBe32(first[..4]);
    if n < 12 || n > MAX_PACKET_SIZE { return None; }
    if (4 + n) % 16 != 0 { return None; }
    var rest := sock.ReadFull(4 + n - 16);
    if |rest| != 4 + n - 16 { assert sock.incoming == []; return None; }
    assert rest == input[16..4 + n] && sock.incoming == input[4 + n..];
    var tail := Decrypt(d, rest);
    pkt := Some(first + tail);
  }

  /** The branch of session_recv for a plaintext direction. */
  method RecvPlain(d: SshDirection, sock: NetSocket, out: Buffer.SshBuf) returns (st: Status)
    requires d.Valid() && !d.encrypted
    requires sock !in d.Repr() && out.Valid() && out !in d.Repr() && out.data !in d.Repr()
    requires out.data.Length < Buffer.SIZE_LIMIT - 1
    modifies d`number, sock`incoming, out`data, out`len, out`rpos, out.data
    ensures d.Valid() && out.Valid()
    ensures Settles(ReceivePlain(old(d.Value()), old(sock.incoming)), st, d.Value(), sock.incoming,
                    out.Contents(), out.rpos, old(out.Contents()), old(out.rpos))
  {
    hide BE, Crypted, CounterBlock, Encrypted, PacketMac, Extract;
    var pkt := ReadPlain(sock);
    if pkt.None? { return Failed; }
    st := TakePayload(d, pkt.value, out, sock.incoming);
  }

  /** The branch for an encrypted one. */
  method RecvEncrypted(f: Compression, d: SshDirection, sock: NetSocket, out: Buffer.SshBuf) returns (st: Status)
    requires d.Valid() && d.encrypted
    requires sock !in d.Repr() && out.Valid() && out !in d.Repr() && out.data !in d.Repr()
    requires out.data.Length < Buffer.SIZE_LIMIT - 1
    modifies d`number, d.ctr`streamOffset, d.ctr`pos, d.ctr.nonceCounter, d.ctr.stream
    modifies sock`incoming, out`data, out`len, out`rpos, out.data
    ensures d.Valid() && out.Valid()
    ensures Settles(ReceiveEncrypted(f, old(d.Value()), old(sock.incoming)), st, d.Value(), sock.incoming,
                    out.Contents(), out.rpos, old(out.Contents()), old(out.rpos))
  {
    hide BE, Crypted, CounterBlock, Encrypted, CheckTag;
    var pkt := ReadEncrypted(d, sock);
    if pkt.None? { return Failed; }
    st := FinishEncrypted(f, d, sock, pkt.value, out);
  }

  /** The MAC check and what follows it. */
  method FinishEncrypted(f: Compression, d: SshDirection, sock: NetSocket, pkt: seq<byte>, out: Buffer.SshBuf)
    returns (st: Status)
    requires d.Valid() && 5 <= |pkt| <= 4 + MAX_PACKET_SIZE
    requires sock !in d.Repr() && out.Valid() && out !in d.Repr() && out.data !in d.Repr()
    requires out.data.Length < Buffer.SIZE_LIMIT - 1
    modifies d`number, sock`incoming, out`data, out`len, out`rpos, out.data
    ensures d.Valid() && out.Valid()
    ensures Settles(CheckTag(f, old(d.Value()), pkt, old(sock.incoming)), st, d.Value(), sock.incoming,
                    out.Contents(), out.rpos, old(out.Contents()), old(out.rpos))
  {
    hide Crypted, CounterBlock, Encrypted, PacketMac, Extract;
    var ok := VerifyMac(f, d, sock, pkt);
    if !ok { return Failed; }
    st := TakePayload(d, pkt, out, sock.incoming);
  }

  /** session_recv: exactly Receive, on the socket's input and the direction's state.  It never
      returns exactly on inputs that start with a packet in the gap. */
  method SessionRecv(f: Compression, d: SshDirection, sock: NetSocket, out: Buffer.SshBuf) returns (st: Status)
    requires d.Valid() && sock !in d.Repr() && out.Valid() && out !in d.Repr() && out.data !in d.Repr()
    requires out.data.Length < Buffer.SIZE_LIMIT - 1
    modifies d`number, d.ctr`streamOffset, d.ctr`pos, d.ctr.nonceCounter, d.ctr.stream
    modifies sock`incoming, out`data, out`len, out`rpos, out.data
    ensures d.Valid() && out.Valid()
    ensures Settles(Receive(f, old(d.Value()), old(sock.incoming)), st, d.Value(), sock.incoming,
                    out.Contents(), out.rpos, old(out.Contents()), old(out.rpos))
    ensures st == Endless <==> StartsInGap(f, old(d.Value()), old(sock.incoming))
  {
    hide ReceivePlain, ReceiveEncrypted, Crypted, CounterBlock, Encrypted, StartsInGap;
    WrapsIff(f, d.Value(), sock.incoming);
    if d.encrypted {
      st := RecvEncrypted(f, d, sock, out);
    } else {
      st := RecvPlain(d, sock, out);
    }
  }
}
