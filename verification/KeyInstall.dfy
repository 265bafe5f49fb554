/** src/session.c, session_set_keys and session_activate: which key material is accepted, and
    what a failing call leaves behind. */
module KeyInstall {
  import opened Bits
  import opened Bytes
  import opened Options
  import opened Aes
  import opened Ctr
  import opened Packets
  import opened Session
  import Sha256

  /** The arguments of session_set_keys. */
  datatype KeyArgs = KeyArgs(cipher: string, iv: seq<byte>, key: seq<byte>, mac: string, macKey: seq<byte>) {
    predicate CipherFits() { KeyBits(cipher) != 0 && |iv| == 16 && 8 * |key| == KeyBits(cipher) }

    predicate MacFits() { mac == "none" || (mac == "hmac-sha2-256" && 1 <= |macKey| <= 32) }

    predicate Fits() { CipherFits() && MacFits() }

    /** The keystream from its beginning. */
    function Start(): (s: Stream)
      requires CipherFits()
    {
      Stream(ScheduleOf(key, KeyBits(cipher) / 32), iv, 0)
    }

    /** The MAC key in use: none for the MAC "none". */
    function MacKey(): seq<byte> { if mac == "none" then [] else macKey }
  }

  /** Key bits of a supported cipher name, 0 otherwise. */
  function KeyBits(cipher: string): nat {
    if cipher == "aes128-ctr" then 128 else if cipher == "aes256-ctr" then 256 else 0
  }

  /** Whether installing succeeds, and the direction afterwards. */
  function Install(d: Direction, a: KeyArgs): (r: (bool, Direction))
    requires d.Valid()
    ensures r.1.Valid()
  {
    hide ScheduleOf;
    if !a.CipherFits() then (false, d)
    else if !a.MacFits() then (false, Direction(d.encrypted, Some(a.Start()), d.mac, d.number))
    else (true, Direction(d.encrypted, Some(a.Start()), a.MacKey(), d.number))
  }

  /** session_set_keys */
  method SetKeys(d: SshDirection, a: KeyArgs) returns (ok: bool)
    requires d.Valid()
    modifies d`macKey, d.ctr, d.ctr.aes, d.ctr.aes.rk, d.ctr.nonceCounter, d.ctr.stream
    ensures d.Valid() && (ok, d.Value()) == Install(old(d.Value()), a)
  {
    hide ScheduleOf, Encrypted, CounterBlock;
    var keyBits := 0;
    if a.cipher == "aes128-ctr" {
      keyBits := 128;
    } else if a.cipher == "aes256-ctr" {
      keyBits := 256;
    } else {
      return false;
    }
    if |a.iv| != 16 { return false; }
    if |a.key| != keyBits / 8 { return false; }
    ok := d.ctr.Init(a.key, keyBits, a.iv);
    if a.mac == "hmac-sha2-256" {
      if |a.macKey| == 0 || |a.macKey| > 32 { return false; }
      d.macKey := a.macKey;
    } else if a.mac == "none" {
      d.macKey := [];
    } else {
      return false;
    }
  }

  /** session_activate, for a direction that has keys. */
  method Activate(d: SshDirection)
    requires d.Valid() && d.Value().stream.Some?
    modifies d`encrypted
    ensures d.Valid() && d.Value() == old(d.Value()).(encrypted := true)
  {
    hide Encrypted, CounterBlock;
    d.encrypted := true;
  }

  /** Two ends that install and activate the same keys at the same sequence number are in the same
      state, whatever they were in before. */
  lemma EndsAgree(d: Direction, e: Direction, a: KeyArgs)
    requires d.Valid() && e.Valid() && a.Fits()
    ensures Install(d, a).0 && Install(e, a).0
    ensures Install(d, a).1.(encrypted := true) == Install(e, a).1.(encrypted := true) <==> d.number == e.number
  {
    hide ScheduleOf;
  }

  /** Which arguments are accepted. */
  lemma AcceptedArguments(d: Direction, a: KeyArgs)
    requires d.Valid()
    ensures Install(d, a).0 <==>
      && ((a.cipher == "aes128-ctr" && |a.key| == 16) || (a.cipher == "aes256-ctr" && |a.key| == 32))
      && |a.iv| == 16 && (a.mac == "none" || (a.mac == "hmac-sha2-256" && 1 <= |a.macKey| <= 32))
  {
    hide ScheduleOf;
  }

  /** The first packet under installed and activated keys: the packet under the keystream of the given
      key and counter from its beginning, and the HMAC under the given MAC key of the sequence number,
      which goes on, and the packet. */
  lemma FirstPacket(f: Compression, d: Direction, a: KeyArgs, p: seq<byte>) returns (body: seq<byte>, tag: seq<byte>)
    requires d.Valid() && Install(d, a).0
    ensures |a.key| in {16, 32} && |a.iv| == 16 && |body| == |p|
    ensures Wire(f, Install(d, a).1.(encrypted := true), p) == body + tag
    ensures var k := ScheduleOf(a.key, |a.key| / 4);
      forall i :: 0 <= i < |p| ==> body[i] == XorByte(p[i], Keystream(k, a.iv, i))
    ensures tag == if a.mac == "none" then [] else Sha256.Hmac(f, a.macKey, NumberBytes(d.number) + p)
  {
    hide Install, ScheduleOf, Keystream, Sha256.Hmac, XorByte, Wire, NumberBytes;
    InstalledState(d, a);
    body, tag := WireMeaning(f, Install(d, a).1.(encrypted := true), p);
  }

  lemma InstalledState(d: Direction, a: KeyArgs)
    requires d.Valid() && Install(d, a).0
    ensures |a.key| in {16, 32} && |a.iv| == 16 && (a.mac == "none" || a.macKey != [])
    ensures Install(d, a).1 == Direction(d.encrypted, Some(Stream(ScheduleOf(a.key, |a.key| / 4), a.iv, 0)),
                                         if a.mac == "none" then [] else a.macKey, d.number)
  {
    hide ScheduleOf;
  }

  // ---------- a failing call ----------

  /** A failing call leaves the direction alone exactly when the cipher arguments were at fault
      (or the keystream was already at its beginning under that key): the keystream is replaced
      before the MAC name is looked at. */
  lemma FailureAtomicIff(d: Direction, a: KeyArgs)
    requires d.Valid() && !a.Fits()
    ensures var r := Install(d, a);
      && !r.0
      && (r.1 == d <==> a.CipherFits() ==> d.stream == Some(a.Start()))
      && r.1.encrypted == d.encrypted && r.1.mac == d.mac && r.1.number == d.number
  {
    hide ScheduleOf;
  }

  /** A failing call that is not atomic: an unknown MAC name on a direction without keys. */
  lemma FailureChangesKeys(d: Direction, iv: seq<byte>, key: seq<byte>)
    requires d.Valid() && d.stream == None && |iv| == 16 && |key| == 16
    ensures var r := Install(d, KeyArgs("aes128-ctr", iv, key, "hmac-md5", [])); !r.0 && r.1 != d
  {
    hide ScheduleOf;
  }

  /** On a direction already in use a failing call is not harmless: with the same cipher key and
      initial counter but a MAC name that is not supported, the keystream restarts, and from then
      on not one block the peer sends is decrypted to what it was. */
  lemma FailureGarbles(d: Direction, a: KeyArgs, j: nat, block: seq<byte>)
    requires d.Valid() && a.CipherFits() && !a.MacFits() && |block| == 16
    requires d.stream == Some(a.Start().After(16 * j)) && 0 < j < TWO128
    ensures var e := Install(d, a).1;
      e.stream.Some? && e.stream.value.Crypt(d.stream.value.Crypt(block)) != block
  {
    hide Install, KeyArgs.CipherFits, KeyArgs.MacFits, KeyArgs.Start, Crypted, ScheduleOf, Encrypted, CounterBlock;
    FailureRestarts(d, a);
    RestartGarbles(a.Start().key, a.Start().iv, j, block);
  }

  lemma RestartGarbles(k: Schedule, iv: seq<byte>, j: nat, block: seq<byte>)
    requires k.Valid() && |iv| == 16 && |block| == 16 && 0 < j < TWO128
    ensures Crypted(k, iv, 0, Crypted(k, iv, 16 * j, block)) != block
  {
    hide Crypted, Encrypted, CounterBlock;
    var c := Crypted(k, iv, 16 * j, block);
    if Crypted(k, iv, 0, c) == block {
      CryptedTwice(k, iv, 0, c);
      SameKeystream(k, iv, 0, j, block);
      KeystreamBlocksDistinct(k, iv, 0, j);
      assert false;
    }
  }

  lemma FailureRestarts(d: Direction, a: KeyArgs)
    requires d.Valid() && a.CipherFits() && !a.MacFits()
    ensures a.Start().Valid() && a.Start().pos == 0 && Install(d, a).1.stream == Some(a.Start())
  {
    hide ScheduleOf;
  }

  /** A block that looks the same under two keystream blocks shows that they are equal. */
  lemma SameKeystream(k: Schedule, iv: seq<byte>, i: nat, j: nat, block: seq<byte>)
    requires k.Valid() && |iv| == 16 && |block| == 16
    requires Crypted(k, iv, 16 * i, block) == Crypted(k, iv, 16 * j, block)
    ensures Encrypted(k, CounterBlock(iv, i)) == Encrypted(k, CounterBlock(iv, j))
  {
    hide Encrypted, CounterBlock, XorByte;
    var x, y := Encrypted(k, CounterBlock(iv, i)), Encrypted(k, CounterBlock(iv, j));
    forall n | 0 <= n < 16 ensures x[n] == y[n] {
      WithinBlock(16 * i, n);
      WithinBlock(16 * j, n);
      assert Crypted(k, iv, 16 * i, block)[n] == XorByte(block[n], x[n]);
      assert Crypted(k, iv, 16 * j, block)[n] == XorByte(block[n], y[n]);
      XorByteInjective(block[n], x[n], y[n]);
    }
  }

  lemma XorByteInjective(b: byte, x: byte, y: byte)
    requires XorByte(b, x) == XorByte(b, y)
    ensures x == y
  {
    XorCancels(b, x);
    XorCancels(b, y);
  }
}
