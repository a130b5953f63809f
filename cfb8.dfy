// AESCipher: AES-128 in CFB8 mode (NIST SP 800-38A, section 6.3) with the key
// doubling as the initialisation vector. The block cipher itself is a
// parameter: all the mode needs from it is the leading byte of the encrypted
// 16-byte shift register.
module Cfb8 {
  import opened Wrappers
  import opened Ints

  /** The leading byte of AES-128 under key applied to a 16-byte block. */
  type BlockFn = (seq<byte>, seq<byte>) -> byte

  /** 2^n. */
  function Two(n: nat): nat
  {
    if n == 0 then 1 else 2 * Two(n - 1)
  }

  /** The low n bits of a, lowest first. */
  function Low(a: nat, n: nat): nat
  {
    if n == 0 then 0 else a % 2 + 2 * Low(a / 2, n - 1)
  }

  /** Bitwise exclusive or of the low n bits of a and b, lowest first. */
  function XorLow(a: nat, b: nat, n: nat): (r: nat)
    ensures r < Two(n)
  {
    if n == 0 then 0 else (a + b) % 2 + 2 * XorLow(a / 2, b / 2, n - 1)
  }

  /** Bitwise exclusive or of two bytes, which CFB8 combines the key stream with. */
  function Xor(a: byte, b: byte): byte
  {
    assert Two(8) == 256;
    XorLow(a, b, 8)
  }

  /** Xor-ing n bits twice with the same bits leaves the low n bits. */
  lemma {:induction false} XorLowTwice(a: nat, k: nat, n: nat)
    ensures XorLow(XorLow(a, k, n), k, n) == Low(a, n)
  {
    if n > 0 {
      var q := XorLow(a / 2, k / 2, n - 1);
      var x := XorLow(a, k, n);
      XorBit(a, k, q, x);
      XorLowTwice(a / 2, k / 2, n - 1);
      calc {
        XorLow(x, k, n);
        (x + k) % 2 + 2 * XorLow(x / 2, k / 2, n - 1);
        a % 2 + 2 * XorLow(q, k / 2, n - 1);
        Low(a, n);
      }
    }
  }

  /** x = (a + k) mod 2 + 2q holds q above its lowest bit, and xor-ing that bit
      with k's lowest bit gives a's lowest bit. */
  lemma XorBit(a: nat, k: nat, q: nat, x: nat)
    requires x == (a + k) % 2 + 2 * q
    ensures x / 2 == q && (x + k) % 2 == a % 2
  {
    var b := (a + k) % 2;
    assert a == 2 * (a / 2) + a % 2 && k == 2 * (k / 2) + k % 2;
    assert (b + 2 * q + k) % 2 == (b + k) % 2;
  }

  /** A number below 2^n is its own low n bits. */
  lemma {:induction false} LowBelow(a: nat, n: nat)
    requires a < Two(n)
    ensures Low(a, n) == a
  {
    if n > 0 {
      LowBelow(a / 2, n - 1);
    }
  }

  /** Xor-ing twice with the same key byte gives the original byte back. */
  lemma XorTwice(a: byte, k: byte)
    ensures Xor(Xor(a, k), k) == a
  {
    assert Two(8) == 256;
    XorLowTwice(a, k, 8);
    LowBelow(a, 8);
  }

  /** The shift register after the cipher-text byte c: drop the oldest byte, append c. */
  function Shift(reg: seq<byte>, c: byte): (r: seq<byte>)
    ensures |reg| >= 1 ==> |r| == |reg|
  {
    (reg + [c])[1..]
  }

  /** EVP_EncryptUpdate: each plain byte is xor-ed with the leading byte of
      E_K(register) and the cipher byte is shifted into the register.
      Returns the cipher bytes and the register afterwards. */
  function Encrypt(aes: BlockFn, key: seq<byte>, reg: seq<byte>, p: seq<byte>): (r: (seq<byte>, seq<byte>))
    ensures |r.0| == |p|
    decreases |p|
  {
    if p == [] then ([], reg)
    else
      var c := Xor(p[0], aes(key, reg));
      var rest := Encrypt(aes, key, Shift(reg, c), p[1..]);
      ([c] + rest.0, rest.1)
  }

  /** EVP_DecryptUpdate: the same key stream, with the *cipher* byte shifted in. */
  function Decrypt(aes: BlockFn, key: seq<byte>, reg: seq<byte>, c: seq<byte>): (r: (seq<byte>, seq<byte>))
    ensures |r.0| == |c|
    decreases |c|
  {
    if c == [] then ([], reg)
    else
      var p := Xor(c[0], aes(key, reg));
      var rest := Decrypt(aes, key, Shift(reg, c[0]), c[1..]);
      ([p] + rest.0, rest.1)
  }

  /** Decryption undoes encryption, and both sides end with the same register,
      so a peer that decrypts everything the other side encrypts stays in step. */
  lemma {:induction false} DecryptEncrypt(aes: BlockFn, key: seq<byte>, reg: seq<byte>, p: seq<byte>)
    ensures Decrypt(aes, key, reg, Encrypt(aes, key, reg, p).0) == (p, Encrypt(aes, key, reg, p).1)
    decreases |p|
  {
    if p != [] {
      var e := Encrypt(aes, key, reg, p);
      var c := Xor(p[0], aes(key, reg));
      var rest := Encrypt(aes, key, Shift(reg, c), p[1..]);
      assert e.0 == [c] + rest.0;
      assert e.0[0] == c && e.0[1..] == rest.0;
      XorTwice(p[0], aes(key, reg));
      DecryptEncrypt(aes, key, Shift(reg, c), p[1..]);
      assert [p[0]] + p[1..] == p;
    }
  }

  /** Encryption undoes decryption. */
  lemma {:induction false} EncryptDecrypt(aes: BlockFn, key: seq<byte>, reg: seq<byte>, c: seq<byte>)
    ensures Encrypt(aes, key, reg, Decrypt(aes, key, reg, c).0) == (c, Decrypt(aes, key, reg, c).1)
    decreases |c|
  {
    if c != [] {
      var d := Decrypt(aes, key, reg, c);
      var p := Xor(c[0], aes(key, reg));
      var rest := Decrypt(aes, key, Shift(reg, c[0]), c[1..]);
      assert d.0 == [p] + rest.0;
      assert d.0[0] == p && d.0[1..] == rest.0;
      XorTwice(c[0], aes(key, reg));
      EncryptDecrypt(aes, key, Shift(reg, c[0]), c[1..]);
      assert [c[0]] + c[1..] == c;
    }
  }

  /** The stream does not depend on how it is cut into calls: encrypting a ++ b
      is encrypting a, then b from the register a left behind. */
  lemma EncryptStep(aes: BlockFn, key: seq<byte>, reg: seq<byte>, p: seq<byte>, c: byte, rest: (seq<byte>, seq<byte>))
    requires p != [] && c == Xor(p[0], aes(key, reg)) && rest == Encrypt(aes, key, Shift(reg, c), p[1..])
    ensures Encrypt(aes, key, reg, p) == ([c] + rest.0, rest.1)
  {
  }

  lemma DecryptStep(aes: BlockFn, key: seq<byte>, reg: seq<byte>, c: seq<byte>, rest: (seq<byte>, seq<byte>))
    requires c != [] && rest == Decrypt(aes, key, Shift(reg, c[0]), c[1..])
    ensures Decrypt(aes, key, reg, c) == ([Xor(c[0], aes(key, reg))] + rest.0, rest.1)
  {
  }

  lemma {:induction false} EncryptChunks(aes: BlockFn, key: seq<byte>, reg: seq<byte>, a: seq<byte>, b: seq<byte>)
    ensures var x := Encrypt(aes, key, reg, a);
            var y := Encrypt(aes, key, x.1, b);
            Encrypt(aes, key, reg, a + b) == (x.0 + y.0, y.1)
    decreases |a|
  {
    if a == [] {
      assert a + b == b;
      assert [] + Encrypt(aes, key, reg, b).0 == Encrypt(aes, key, reg, b).0;
    } else {
      var c := Xor(a[0], aes(key, reg));
      var next, tail, ab := Shift(reg, c), a[1..], a + b;
      var rest := Encrypt(aes, key, next, tail);
      EncryptStep(aes, key, reg, a, c, rest);
      var y := Encrypt(aes, key, rest.1, b);
      assert ab[0] == a[0] && ab[1..] == tail + b;
      EncryptChunks(aes, key, next, tail, b);
      EncryptStep(aes, key, reg, ab, c, (rest.0 + y.0, y.1));
      Concat3([c], rest.0, y.0);
    }
  }

  lemma {:induction false} DecryptChunks(aes: BlockFn, key: seq<byte>, reg: seq<byte>, a: seq<byte>, b: seq<byte>)
    ensures var x := Decrypt(aes, key, reg, a);
            var y := Decrypt(aes, key, x.1, b);
            Decrypt(aes, key, reg, a + b) == (x.0 + y.0, y.1)
    decreases |a|
  {
    if a == [] {
      assert a + b == b;
      assert [] + Decrypt(aes, key, reg, b).0 == Decrypt(aes, key, reg, b).0;
    } else {
      var p := Xor(a[0], aes(key, reg));
      var next, tail, ab := Shift(reg, a[0]), a[1..], a + b;
      var rest := Decrypt(aes, key, next, tail);
      DecryptStep(aes, key, reg, a, rest);
      var y := Decrypt(aes, key, rest.1, b);
      assert ab[0] == a[0] && ab[1..] == tail + b;
      DecryptChunks(aes, key, next, tail, b);
      DecryptStep(aes, key, reg, ab, (rest.0 + y.0, y.1));
      Concat3([p], rest.0, y.0);
    }
  }

  /** The register only ever holds 16 bytes. */
  lemma {:induction false} RegisterLength(aes: BlockFn, key: seq<byte>, reg: seq<byte>, p: seq<byte>)
    requires |reg| == 16
    ensures |Encrypt(aes, key, reg, p).1| == 16 && |Decrypt(aes, key, reg, p).1| == 16
    decreases |p|
  {
    if p != [] {
      RegisterLength(aes, key, Shift(reg, Xor(p[0], aes(key, reg))), p[1..]);
      RegisterLength(aes, key, Shift(reg, p[0]), p[1..]);
    }
  }

  /** AESCipher: one encryption and one decryption context, both initialised
      with the key as key and as IV, each keeping its register across calls. */
  class AesCipher {
    const aes: BlockFn
    const key: seq<byte>
    var encReg: seq<byte>
    var decReg: seq<byte>

    constructor (aes: BlockFn, key: seq<byte>)
      requires |key| == 16
      ensures this.aes == aes && this.key == key && encReg == key && decReg == key
    {
      this.aes := aes;
      this.key := key;
      encReg := key;
      decReg := key;
    }

    /** encrypt: the same number of bytes out, continuing the encryption stream. */
    method EncryptBytes(data: seq<byte>) returns (out: seq<byte>)
      modifies this
      ensures (out, encReg) == Encrypt(aes, key, old(encReg), data)
      ensures decReg == old(decReg)
    {
      var r := Encrypt(aes, key, encReg, data);
      out, encReg := r.0, r.1;
    }

    /** decrypt: the same number of bytes out, continuing the decryption stream. */
    method DecryptBytes(data: seq<byte>) returns (out: seq<byte>)
      modifies this
      ensures (out, decReg) == Decrypt(aes, key, old(decReg), data)
      ensures encReg == old(encReg)
    {
      var r := Decrypt(aes, key, decReg, data);
      out, decReg := r.0, r.1;
    }
  }

  /** The AESCipher constructor: a key of any length other than 16 is refused. */
  method NewCipher(aes: BlockFn, key: seq<byte>) returns (r: Result<AesCipher>)
    ensures r.Err? <==> |key| != 16
    ensures r.Err? ==> r.error == BadKey
    ensures r.Ok? ==> fresh(r.value) && r.value.aes == aes && r.value.key == key
                      && r.value.encReg == key && r.value.decReg == key
  {
    if |key| != 16 {
      return Err(BadKey);
    }
    var c := new AesCipher(aes, key);
    return Ok(c);
  }
}
