// TcpConnection: the framing half of the asynchronous connection. The resolver,
// the timer and the socket are left to the environment: a connect attempt is an
// outcome handed to HandleConnect, a read is a chunk handed to HandleReceive,
// and every buffer given to async_write is appended to sent.
module TcpConnections {
  import opened Wrappers
  import opened Ints
  import Framing
  import Cfb8
  import WriteBuffers

  class TcpConnection {
    const zlib: Framing.Zlib
    var connected: bool
    var encryptionEnabled: bool
    var compressionThreshold: int32
    var cipher: Cfb8.AesCipher?
    /** decrypted_buffer_: bytes received but not yet processed. */
    var decryptedBuffer: seq<byte>
    /** The buffers handed to async_write, in order. */
    var sent: seq<seq<byte>>

    predicate Encrypting()
      reads this
    {
      encryptionEnabled && cipher != null
    }

    /** A fresh connection: not connected, no encryption, threshold -1. */
    constructor (zlib: Framing.Zlib)
      ensures this.zlib == zlib && !connected && !encryptionEnabled && compressionThreshold == -1
      ensures cipher == null && decryptedBuffer == [] && sent == []
    {
      this.zlib := zlib;
      connected := false;
      encryptionEnabled := false;
      compressionThreshold := -1;
      cipher := null;
      decryptedBuffer := [];
      sent := [];
    }

    /** handleConnect: a failed attempt goes through onError, which leaves the
        connection closed; a successful one marks it connected. */
    method HandleConnect(failed: bool)
      modifies this
      ensures connected == !failed
      ensures encryptionEnabled == old(encryptionEnabled) && compressionThreshold == old(compressionThreshold)
      ensures cipher == old(cipher) && decryptedBuffer == old(decryptedBuffer) && sent == old(sent)
    {
      if failed {
        Disconnect();
        return;
      }
      connected := true;
    }

    /** disconnect: closes the connection and nothing else. */
    method Disconnect()
      modifies this
      ensures !connected
      ensures encryptionEnabled == old(encryptionEnabled) && compressionThreshold == old(compressionThreshold)
      ensures cipher == old(cipher) && decryptedBuffer == old(decryptedBuffer) && sent == old(sent)
    {
      if !connected {
        return;
      }
      connected := false;
    }

    /** enableEncryption: stores the cipher and switches encryption on for good. */
    method EnableEncryption(c: Cfb8.AesCipher?)
      modifies this
      ensures cipher == c && encryptionEnabled
      ensures connected == old(connected) && compressionThreshold == old(compressionThreshold)
      ensures decryptedBuffer == old(decryptedBuffer) && sent == old(sent)
    {
      cipher := c;
      encryptionEnabled := true;
    }

    /** setCompressionThreshold: stores the threshold and nothing else. */
    method SetCompressionThreshold(threshold: int32)
      modifies this
      ensures compressionThreshold == threshold
      ensures connected == old(connected) && encryptionEnabled == old(encryptionEnabled) && cipher == old(cipher)
      ensures decryptedBuffer == old(decryptedBuffer) && sent == old(sent)
    {
      compressionThreshold := threshold;
    }

    /** processOutgoingData: compressIfNeeded, then encryption when it is on;
        no length prefix. */
    method ProcessOutgoingData(data: seq<byte>) returns (out: seq<byte>)
      modifies cipher
      ensures var c := Framing.CompressIfNeeded(compressionThreshold, zlib, data);
              if Encrypting() then
                var e := Cfb8.Encrypt(cipher.aes, cipher.key, old(cipher.encReg), c);
                out == e.0 && cipher.encReg == e.1
              else out == c
      ensures cipher != null ==> cipher.decReg == old(cipher.decReg)
      ensures cipher != null && !Encrypting() ==> cipher.encReg == old(cipher.encReg)
    {
      out := Framing.CompressIfNeeded(compressionThreshold, zlib, data);
      if encryptionEnabled && cipher != null {
        out := cipher.EncryptBytes(out);
      }
    }

    /** send: refused on a closed connection; otherwise processOutgoingData's
        bytes are written. */
    method Send(data: seq<byte>) returns (r: Result<()>)
      modifies this, cipher
      ensures r.Err? <==> !old(connected)
      ensures r.Err? ==> r.error == NotConnected && sent == old(sent)
      ensures cipher == old(cipher) && encryptionEnabled == old(encryptionEnabled)
      ensures compressionThreshold == old(compressionThreshold) && connected == old(connected)
      ensures decryptedBuffer == old(decryptedBuffer)
      ensures r.Ok? ==>
                var c := Framing.CompressIfNeeded(compressionThreshold, zlib, data);
                if Encrypting() then
                  var e := Cfb8.Encrypt(cipher.aes, cipher.key, old(cipher.encReg), c);
                  sent == old(sent) + [e.0] && cipher.encReg == e.1
                else sent == old(sent) + [c]
      ensures cipher != null ==> cipher.decReg == old(cipher.decReg)
    {
      if !connected {
        return Err(NotConnected);
      }
      var processed := ProcessOutgoingData(data);
      sent := sent + [processed];
      return Ok(());
    }

    /** sendPacket: refused on a closed connection; otherwise compress, put the
        VarInt length in front, then encrypt the whole frame when encryption is on. */
    method SendPacket(packet: seq<byte>) returns (r: Result<()>)
      modifies this, cipher
      ensures r.Err? <==> !old(connected)
      ensures r.Err? ==> r.error == NotConnected && sent == old(sent)
      ensures cipher == old(cipher) && encryptionEnabled == old(encryptionEnabled)
      ensures compressionThreshold == old(compressionThreshold) && connected == old(connected)
      ensures decryptedBuffer == old(decryptedBuffer)
      ensures r.Ok? ==>
                var frame := Framing.Frame(Framing.CompressIfNeeded(compressionThreshold, zlib, packet));
                if Encrypting() then
                  var e := Cfb8.Encrypt(cipher.aes, cipher.key, old(cipher.encReg), frame);
                  sent == old(sent) + [e.0] && cipher.encReg == e.1
                else sent == old(sent) + [frame]
      ensures cipher != null ==> cipher.decReg == old(cipher.decReg)
    {
      if !connected {
        return Err(NotConnected);
      }
      var compressed := Framing.CompressIfNeeded(compressionThreshold, zlib, packet);
      var buf := new WriteBuffers.WriteBuffer();
      buf.WriteVarInt(Count32(|compressed|));
      buf.WriteBytes(compressed);
      var compiled := buf.Compile();
      assert compiled == Framing.Frame(compressed);
      var finalData := compiled;
      if encryptionEnabled && cipher != null {
        finalData := cipher.EncryptBytes(compiled);
      }
      sent := sent + [finalData];
      return Ok(());
    }

    /** processIncomingData: everything buffered so far plus data is decrypted
        (when encryption is on), the buffer is emptied, and the whole lot goes to
        decompressIfNeeded. The buffer is empty afterwards even when that fails. */
    method ProcessIncomingData(data: seq<byte>) returns (r: Result<seq<byte>>)
      modifies this, cipher
      ensures cipher == old(cipher) && encryptionEnabled == old(encryptionEnabled)
      ensures decryptedBuffer == []
      ensures var all := old(decryptedBuffer) + data;
              if Encrypting() then
                var d := Cfb8.Decrypt(cipher.aes, cipher.key, old(cipher.decReg), all);
                r == Framing.DecompressIfNeeded(compressionThreshold, zlib, d.0) && cipher.decReg == d.1
              else r == Framing.DecompressIfNeeded(compressionThreshold, zlib, all)
      ensures compressionThreshold == old(compressionThreshold) && connected == old(connected)
      ensures sent == old(sent)
      ensures cipher != null ==> cipher.encReg == old(cipher.encReg)
      ensures cipher != null && !Encrypting() ==> cipher.decReg == old(cipher.decReg)
    {
      decryptedBuffer := decryptedBuffer + data;
      var processed := decryptedBuffer;
      if encryptionEnabled && cipher != null {
        processed := cipher.DecryptBytes(decryptedBuffer);
      }
      decryptedBuffer := [];
      r := Framing.DecompressIfNeeded(compressionThreshold, zlib, processed);
    }

    /** handleReceive: a failed read closes the connection; a non-empty chunk is
        processed and delivered unless processing fails (the exception is caught
        and the chunk dropped) or yields nothing. */
    method HandleReceive(failed: bool, chunk: seq<byte>) returns (delivered: Option<seq<byte>>)
      modifies this, cipher
      ensures cipher == old(cipher) && encryptionEnabled == old(encryptionEnabled)
      ensures failed ==> !connected && delivered == None
      ensures failed || chunk == [] ==>
                decryptedBuffer == old(decryptedBuffer) && (cipher != null ==> cipher.decReg == old(cipher.decReg))
      ensures !failed ==> connected == old(connected)
      ensures !failed && chunk != [] ==>
                decryptedBuffer == [] &&
                var all := old(decryptedBuffer) + chunk;
                var plain := if Encrypting() then Cfb8.Decrypt(cipher.aes, cipher.key, old(cipher.decReg), all).0 else all;
                var r := Framing.DecompressIfNeeded(compressionThreshold, zlib, plain);
                delivered == (if r.Ok? && r.value != [] then Some(r.value) else None)
      ensures delivered.Some? ==> delivered.value != []
      ensures compressionThreshold == old(compressionThreshold) && sent == old(sent)
      ensures cipher != null ==> cipher.encReg == old(cipher.encReg)
    {
      if failed {
        Disconnect();
        return None;
      }
      if chunk == [] {
        return None;
      }
      var processed := ProcessIncomingData(chunk);
      if processed.Err? || processed.value == [] {
        return None;
      }
      return Some(processed.value);
    }
  }

  /** What send writes comes back, at a peer whose decryption register is where
      this side's encryption register was and whose threshold is the same, as
      the bytes that were sent. */
  lemma OutgoingIncoming(aes: Cfb8.BlockFn, key: seq<byte>, reg: seq<byte>, threshold: int32,
                         zlib: Framing.Zlib, data: seq<byte>)
    requires |data| < 0x8000_0000 && Framing.Inverts(zlib, data)
    ensures var out := Cfb8.Encrypt(aes, key, reg, Framing.CompressIfNeeded(threshold, zlib, data));
            var back := Cfb8.Decrypt(aes, key, reg, out.0);
            Framing.DecompressIfNeeded(threshold, zlib, back.0) == Ok(data) && back.1 == out.1
  {
    var c := Framing.CompressIfNeeded(threshold, zlib, data);
    Cfb8.DecryptEncrypt(aes, key, reg, c);
    Framing.RoundTrip(threshold, zlib, data);
  }

  /** processIncomingData does not strip the length prefix sendPacket puts in
      front: without compression and encryption, a frame arrives as the frame
      itself, which is never the packet it carries. */
  lemma IncomingKeepsPrefix(threshold: int32, zlib: Framing.Zlib, packet: seq<byte>)
    requires threshold < 0
    ensures var frame := Framing.Frame(Framing.CompressIfNeeded(threshold, zlib, packet));
            Framing.DecompressIfNeeded(threshold, zlib, frame) == Ok(frame) && frame != packet
  {
    var frame := Framing.Frame(Framing.CompressIfNeeded(threshold, zlib, packet));
    Framing.PassThrough(threshold, zlib, packet);
    Framing.PassThrough(threshold, zlib, frame);
    assert |frame| > |packet|;
  }
}
