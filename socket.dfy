// mc::network::Socket (socket.cpp): the blocking connection used by the login
// flow. The connection itself is a script: `incoming` lists what the successive
// read_some calls return (an empty script means the read fails), and `sent`
// logs every buffer handed to boost::asio::write.
module Sockets {
  import opened Wrappers
  import opened Ints
  import VarInts
  import Framing
  import Cfb8
  import WriteBuffers

  /** vector<uint8_t>::max_size() in libstdc++: reserve beyond it throws
      std::length_error. */
  const MAX_SIZE: nat := 0x7FFF_FFFF_FFFF_FFFF

  /** The implicit conversion of an int32 length to std::size_t. */
  function AsSizeT(v: int32): (n: nat)
    ensures v >= 0 ==> n == v
    ensures v < 0 ==> n > MAX_SIZE
  {
    v % TWO_64
  }

  /** recvVarInt over the plain byte stream s: the readVarInt loop, except that
      running out of bytes is a failed socket read. */
  function VarIntFrom(s: seq<byte>): (r: Read<int32>)
    ensures r.next <= |s|
  {
    VarInts.ReadLoopNext(s, 0, 0, 0);
    var l := VarInts.At(s, 0);
    if l.result == Err(OutOfBounds) then Read(Err(ConnectionClosed), l.next) else l
  }

  /** recv(length) from position pos of s: reserve refuses more than MAX_SIZE
      bytes before anything is read; otherwise bytes are taken until length are
      collected or the stream ends. */
  function BytesFrom(s: seq<byte>, pos: nat, length: nat): (r: Read<seq<byte>>)
    requires pos <= |s|
    ensures pos <= r.next <= |s|
    ensures r.result.Ok? ==> |r.result.value| == length
  {
    if length > MAX_SIZE then Read(Err(LengthError), pos)
    else if pos + length <= |s| then Read(Ok(s[pos..pos + length]), pos + length)
    else Read(Err(ConnectionClosed), |s|)
  }

  /** recvString and recvByteArray: recv(recvVarInt()). */
  function PrefixedFrom(s: seq<byte>): (r: Read<seq<byte>>)
    ensures r.next <= |s|
  {
    var l := VarIntFrom(s);
    match l.result
    case Err(e) => Read(Err(e), l.next)
    case Ok(len) => BytesFrom(s, l.next, AsSizeT(len))
  }

  /** recvPacket: the length-prefixed frame, then decompressIfNeeded. */
  function PacketFrom(s: seq<byte>, threshold: int32, z: Framing.Zlib): (r: Read<seq<byte>>)
    ensures r.next <= |s|
  {
    var p := PrefixedFrom(s);
    match p.result
    case Err(e) => Read(Err(e), p.next)
    case Ok(payload) => Read(Framing.DecompressIfNeeded(threshold, z, payload), p.next)
  }

  class Socket {
    const zlib: Framing.Zlib
    var encryptionEnabled: bool
    var compressionThreshold: int32
    var cipher: Cfb8.AesCipher?
    /** decryptedBuffer_: plain bytes received but not yet handed out. */
    var backlog: seq<byte>
    /** What the socket will deliver, one read_some result per element. */
    var incoming: seq<seq<byte>>
    /** The buffers written to the socket, in order. */
    var sent: seq<seq<byte>>
    /** The plain bytes recvByte hands out from now on, in order. */
    ghost var pending: seq<byte>

    predicate Decrypting()
      reads this`encryptionEnabled, this`cipher
    {
      encryptionEnabled && cipher != null
    }

    /** The rest of the connection as plain bytes: decrypted if encryption is on. */
    ghost function Upcoming(): seq<byte>
      reads this`incoming, this`encryptionEnabled, this`cipher, (if cipher == null then {} else {cipher})`decReg
    {
      var wire := WriteBuffers.Flatten(incoming);
      if Decrypting() then Cfb8.Decrypt(cipher.aes, cipher.key, cipher.decReg, wire).0 else wire
    }

    /** What is still to be handed out is the backlog, then the rest of the connection. */
    ghost predicate Valid()
      reads this, cipher
    {
      pending == backlog + Upcoming()
    }

    /** Receiving leaves the settings, the sent log and the encryption stream alone. */
    twostate predicate Kept()
      reads this, cipher
    {
      encryptionEnabled == old(encryptionEnabled) && compressionThreshold == old(compressionThreshold)
      && sent == old(sent) && cipher == old(cipher)
      && (cipher != null ==> cipher.encReg == old(cipher.encReg))
    }

    constructor (zlib: Framing.Zlib, incoming: seq<seq<byte>>)
      ensures Valid() && this.zlib == zlib && this.incoming == incoming
      ensures !encryptionEnabled && compressionThreshold == -1 && cipher == null
      ensures backlog == [] && sent == [] && pending == WriteBuffers.Flatten(incoming)
    {
      this.zlib := zlib;
      this.incoming := incoming;
      encryptionEnabled := false;
      compressionThreshold := -1;
      cipher := null;
      backlog := [];
      sent := [];
      pending := WriteBuffers.Flatten(incoming);
    }

    /** enableEncryption: everything read from the connection from now on is
        decrypted; bytes already in the backlog stay as they are. */
    method EnableEncryption(c: Cfb8.AesCipher?)
      modifies this
      ensures Valid() && cipher == c && encryptionEnabled
      ensures compressionThreshold == old(compressionThreshold)
      ensures backlog == old(backlog) && incoming == old(incoming) && sent == old(sent)
    {
      cipher := c;
      encryptionEnabled := true;
      pending := backlog + Upcoming();
    }

    method SetCompressionThreshold(threshold: int32)
      requires Valid()
      modifies this
      ensures Valid() && compressionThreshold == threshold
      ensures encryptionEnabled == old(encryptionEnabled) && cipher == old(cipher)
      ensures backlog == old(backlog) && incoming == old(incoming) && sent == old(sent)
      ensures pending == old(pending)
    {
      compressionThreshold := threshold;
    }

    /** sendPacket: compress, prefix the VarInt length, then encrypt the whole
        frame when encryption is on. */
    method SendPacket(raw: seq<byte>)
      requires Valid()
      modifies this, cipher
      ensures encryptionEnabled == old(encryptionEnabled) && cipher == old(cipher)
      ensures var frame := Framing.Frame(Framing.CompressIfNeeded(compressionThreshold, zlib, raw));
              if Decrypting() then
                var e := Cfb8.Encrypt(cipher.aes, cipher.key, old(cipher.encReg), frame);
                sent == old(sent) + [e.0] && cipher.encReg == e.1
              else sent == old(sent) + [frame]
      ensures compressionThreshold == old(compressionThreshold)
      ensures backlog == old(backlog) && incoming == old(incoming)
      ensures cipher != null ==> cipher.decReg == old(cipher.decReg)
      ensures Valid() && pending == old(pending)
    {
      var compressed := Framing.CompressIfNeeded(compressionThreshold, zlib, raw);
      var compiled := BuildFrame(compressed);
      var output := compiled;
      if encryptionEnabled && cipher != null {
        output := cipher.EncryptBytes(compiled);
      }
      sent := sent + [output];
    }

    /** fillDecryptedBuffer: one read_some, decrypted when encryption is on and
        appended to the backlog; what is still to be handed out is the same. */
    method FillDecryptedBuffer() returns (r: Result<()>)
      requires Valid()
      modifies this, cipher
      ensures Valid() && Kept() && pending == old(pending)
      ensures r.Err? <==> old(incoming) == []
      ensures r.Err? ==> r.error == ConnectionClosed && incoming == old(incoming) && backlog == old(backlog) && pending == backlog
      ensures r.Ok? ==> incoming == old(incoming)[1..]
    {
      if incoming == [] {
        assert Upcoming() == [];
        return Err(ConnectionClosed);
      }
      var data := incoming[0];
      var rest := incoming[1..];
      WriteBuffers.FlattenHead(incoming);
      if encryptionEnabled && cipher != null {
        AppendDecrypted(data, rest);
      } else {
        incoming := rest;
        backlog := backlog + data;
        assert Upcoming() == WriteBuffers.Flatten(rest);
      }
      return Ok(());
    }

    /** The encrypted half of fillDecryptedBuffer: data, the next read_some
        result, is decrypted onto the backlog. */
    method AppendDecrypted(data: seq<byte>, rest: seq<seq<byte>>)
      requires Valid() && Decrypting() && WriteBuffers.Flatten(incoming) == data + WriteBuffers.Flatten(rest)
      modifies this, cipher
      ensures Valid() && Kept() && pending == old(pending) && incoming == rest
    {
      ghost var tail := WriteBuffers.Flatten(rest);
      ghost var d := Cfb8.Decrypt(cipher.aes, cipher.key, cipher.decReg, data);
      RefillDecrypted(cipher.aes, cipher.key, cipher.decReg, backlog, data, tail);
      var decrypted := cipher.DecryptBytes(data);
      incoming := rest;
      backlog := backlog + decrypted;
      assert Upcoming() == Cfb8.Decrypt(cipher.aes, cipher.key, d.1, tail).0;
    }

    /** recvByte: refill while the backlog is empty, then pop its front. */
    method RecvByte() returns (r: Result<byte>)
      requires Valid()
      modifies this, cipher
      ensures Valid() && Kept()
      ensures r.Err? <==> old(pending) == []
      ensures r.Ok? ==> r.value == old(pending)[0] && pending == old(pending)[1..]
      ensures r.Err? ==> r.error == ConnectionClosed && pending == []
    {
      while backlog == []
        invariant Valid() && Kept() && pending == old(pending)
        decreases |incoming|
      {
        var f := FillDecryptedBuffer();
        if f.Err? {
          return Err(ConnectionClosed);
        }
      }
      var b := PopBacklog();
      return Ok(b);
    }

    /** The front of a non-empty backlog. */
    method PopBacklog() returns (b: byte)
      requires Valid() && backlog != []
      modifies this
      ensures Valid() && Kept() && b == old(pending)[0] && pending == old(pending)[1..]
    {
      b := backlog[0];
      backlog := backlog[1..];
      pending := pending[1..];
    }

    /** One pass of the readVarInt loop over the byte at pos. */
    static lemma VarIntStep(s: seq<byte>, pos: nat, numRead: nat, acc: uint32)
      requires numRead <= 5 && pos < |s|
      ensures var acc' := AsUInt32(acc + (s[pos] % 128) * VarInts.Shift7(numRead));
              VarInts.ReadLoop(s, pos, numRead, acc)
              == if numRead + 1 > 5 then Read(Err(VarIntTooBig), pos + 1)
                 else if s[pos] >= 128 then VarInts.ReadLoop(s, pos + 1, numRead + 1, acc')
                 else Read(Ok(AsInt32(acc')), pos + 1)
    {
    }

    /** recvVarInt: the do-while over recvByte, refusing a sixth byte. */
    method RecvVarInt() returns (r: Result<int32>)
      requires Valid()
      modifies this, cipher
      ensures Valid() && Kept()
      ensures var e := VarIntFrom(old(pending)); r == e.result && pending == old(pending)[e.next..]
    {
      ghost var s := pending;
      ghost var pos: nat := 0;
      var result: uint32 := 0;
      var numRead: nat := 0;
      while true
        invariant Valid() && Kept()
        invariant numRead <= 5 && pos <= |s| && pending == s[pos..]
        invariant VarInts.ReadLoop(s, pos, numRead, result) == VarInts.At(s, 0)
        decreases 5 - numRead
      {
        var b := RecvByte();
        if b.Err? {
          assert VarInts.At(s, 0) == Read(Err(OutOfBounds), pos) && pos == |s|;
          return Err(ConnectionClosed);
        }
        VarIntStep(s, pos, numRead, result);
        pos := pos + 1;
        result := AsUInt32(result + (b.value % 128) * VarInts.Shift7(numRead));
        numRead := numRead + 1;
        if numRead > 5 {
          return Err(VarIntTooBig);
        }
        if b.value < 128 {
          return Ok(AsInt32(result));
        }
      }
    }

    /** recv(length): reserve, then length calls of recvByte. */
    method Recv(length: nat) returns (r: Result<seq<byte>>)
      requires Valid()
      modifies this, cipher
      ensures Valid() && Kept()
      ensures var e := BytesFrom(old(pending), 0, length); r == e.result && pending == old(pending)[e.next..]
    {
      if length > MAX_SIZE {
        return Err(LengthError);
      }
      ghost var s := pending;
      var output: seq<byte> := [];
      var i: nat := 0;
      while i < length
        invariant Valid() && Kept()
        invariant i <= length && i <= |s| && output == s[..i] && pending == s[i..]
      {
        var b := RecvByte();
        if b.Err? {
          return Err(ConnectionClosed);
        }
        assert s[..i + 1] == s[..i] + [s[i]];
        output := output + [b.value];
        i := i + 1;
      }
      return Ok(output);
    }

    /** recvByteArray: a VarInt length, then that many bytes. */
    method RecvByteArray() returns (r: Result<seq<byte>>)
      requires Valid()
      modifies this, cipher
      ensures Valid() && Kept()
      ensures var e := PrefixedFrom(old(pending)); r == e.result && pending == old(pending)[e.next..]
    {
      ghost var s := pending;
      var length := RecvVarInt();
      if length.Err? {
        return Err(length.error);
      }
      ghost var k := VarIntFrom(s).next;
      r := Recv(AsSizeT(length.value));
      BytesSuffix(s, k, AsSizeT(length.value));
    }

    /** recvString: the same bytes as recvByteArray, taken as characters. */
    method RecvString() returns (r: Result<seq<byte>>)
      requires Valid()
      modifies this, cipher
      ensures Valid() && Kept()
      ensures var e := PrefixedFrom(old(pending)); r == e.result && pending == old(pending)[e.next..]
    {
      r := RecvByteArray();
    }

    /** recvPacket: recv(recvVarInt()), then decompressIfNeeded. */
    method RecvPacket() returns (r: Result<seq<byte>>)
      requires Valid()
      modifies this, cipher
      ensures Valid() && Kept()
      ensures var e := PacketFrom(old(pending), compressionThreshold, zlib);
              r == e.result && pending == old(pending)[e.next..]
    {
      var payload := RecvByteArray();
      if payload.Err? {
        return Err(payload.error);
      }
      r := Framing.DecompressIfNeeded(compressionThreshold, zlib, payload.value);
    }
  }

  /** The framing half of sendPacket: a WriteBuffer holding the VarInt length
      (converted to int32) and then the payload, compiled. */
  method BuildFrame(compressed: seq<byte>) returns (frame: seq<byte>)
    ensures frame == Framing.Frame(compressed)
  {
    var buf := new WriteBuffers.WriteBuffer();
    buf.WriteVarInt(Count32(|compressed|));
    buf.WriteBytes(compressed);
    frame := buf.Compile();
  }

  /** Decrypting one more read_some result into the backlog leaves the
      backlog-then-rest sequence as it was. */
  lemma RefillDecrypted(aes: Cfb8.BlockFn, key: seq<byte>, reg: seq<byte>, backlog: seq<byte>, data: seq<byte>, tail: seq<byte>)
    ensures var d := Cfb8.Decrypt(aes, key, reg, data);
            backlog + Cfb8.Decrypt(aes, key, reg, data + tail).0 == (backlog + d.0) + Cfb8.Decrypt(aes, key, d.1, tail).0
  {
    Cfb8.DecryptChunks(aes, key, reg, data, tail);
  }

  lemma BytesSuffix(s: seq<byte>, k: nat, length: nat)
    requires k <= |s|
    ensures var a := BytesFrom(s[k..], 0, length);
            var b := BytesFrom(s, k, length);
            a.result == b.result && a.next + k == b.next
  {
    if length <= MAX_SIZE && k + length <= |s| {
      assert s[k..][0..length] == s[k..k + length];
    }
  }

  /** A frame sendPacket produced reads back, through recvPacket with the same
      threshold, as the packet it was made from, consuming exactly the frame. */
  lemma PacketRoundTrip(threshold: int32, z: Framing.Zlib, raw: seq<byte>, rest: seq<byte>)
    requires |raw| < 0x8000_0000 && Framing.Inverts(z, raw)
    requires |Framing.CompressIfNeeded(threshold, z, raw)| < 0x8000_0000
    ensures var frame := Framing.Frame(Framing.CompressIfNeeded(threshold, z, raw));
            PacketFrom(frame + rest, threshold, z) == Read(Ok(raw), |frame|)
  {
    var c := Framing.CompressIfNeeded(threshold, z, raw);
    var s := Framing.Frame(c) + rest;
    var k := |VarInts.Encode(|c|)|;
    assert s == VarInts.Encode(|c|) + (c + rest);
    Framing.MarkerRead(|c|, c + rest);
    assert s[k..k + |c|] == c;
    Framing.RoundTrip(threshold, z, raw);
  }

  /** A negative length prefix fails in reserve with std::length_error, before
      any payload byte is taken. */
  lemma NegativeLength(s: seq<byte>, threshold: int32, z: Framing.Zlib)
    requires VarIntFrom(s).result.Ok? && VarIntFrom(s).result.value < 0
    ensures PacketFrom(s, threshold, z) == Read(Err(LengthError), VarIntFrom(s).next)
  {
  }

  /** End to end: what one side's sendPacket puts on the wire, encrypted, is
      decrypted by a peer whose decryption register matches and read back by
      recvPacket as the original packet; the peer's register ends where the
      sender's did, so the next packet decrypts as well. */
  lemma SessionRoundTrip(aes: Cfb8.BlockFn, key: seq<byte>, reg: seq<byte>, threshold: int32,
                         z: Framing.Zlib, raw: seq<byte>, more: seq<byte>)
    requires |raw| < 0x8000_0000 && Framing.Inverts(z, raw)
    requires |Framing.CompressIfNeeded(threshold, z, raw)| < 0x8000_0000
    ensures var frame := Framing.Frame(Framing.CompressIfNeeded(threshold, z, raw));
            var wire := Cfb8.Encrypt(aes, key, reg, frame);
            var plain := Cfb8.Decrypt(aes, key, reg, wire.0 + more);
            PacketFrom(plain.0, threshold, z) == Read(Ok(raw), |frame|)
            && plain.0[|frame|..] == Cfb8.Decrypt(aes, key, wire.1, more).0
  {
    var frame := Framing.Frame(Framing.CompressIfNeeded(threshold, z, raw));
    var wire := Cfb8.Encrypt(aes, key, reg, frame);
    Cfb8.DecryptChunks(aes, key, reg, wire.0, more);
    Cfb8.DecryptEncrypt(aes, key, reg, frame);
    var tail := Cfb8.Decrypt(aes, key, wire.1, more).0;
    assert Cfb8.Decrypt(aes, key, reg, wire.0 + more).0 == frame + tail;
    PacketRoundTrip(threshold, z, raw, tail);
  }
}
