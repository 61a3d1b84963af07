/** The TLS 1.2 primitives of the CCS probe: P_hash and the key block it feeds, and the
    MAC-then-encrypt CBC record, with the receiver of section 6.2.3.2 of RFC 5246 as its other side.
    HMAC and the block cipher are parameters. */
module Tls12Crypto {
  import opened Bytes
  import opened Outcomes
  import opened Text

  // ---- P_hash (section 5 of RFC 5246) ----

  /** HMAC over some hash: (secret, data) to an output of fixed size. */
  datatype Hmac = Hmac(size: nat, mac: (bytes, bytes) -> bytes)

  ghost predicate LawfulHmac(h: Hmac) {
    h.size > 0 && forall k, d :: |h.mac(k, d)| == h.size
  }

  /** A(0) = seed, A(i) = HMAC(secret, A(i-1)). */
  function A(h: Hmac, secret: bytes, seed: bytes, i: nat): bytes {
    if i == 0 then seed else h.mac(secret, A(h, secret, seed, i - 1))
  }

  /** HMAC(secret, A(1) + seed) + ... + HMAC(secret, A(n) + seed). */
  function Blocks(h: Hmac, secret: bytes, seed: bytes, n: nat): bytes {
    if n == 0 then []
    else Blocks(h, secret, seed, n - 1) + h.mac(secret, A(h, secret, seed, n) + seed)
  }

  lemma {:induction false} BlocksLength(h: Hmac, secret: bytes, seed: bytes, n: nat)
    requires LawfulHmac(h)
    ensures |Blocks(h, secret, seed, n)| == n * h.size
  {
    if n > 0 {
      BlocksLength(h, secret, seed, n - 1);
      assert n * h.size == (n - 1) * h.size + h.size;
    }
  }

  lemma {:induction false} BlocksExtend(h: Hmac, secret: bytes, seed: bytes, m: nat, n: nat)
    requires m <= n
    ensures Blocks(h, secret, seed, m) <= Blocks(h, secret, seed, n)
    decreases n
  {
    if m < n {
      BlocksExtend(h, secret, seed, m, n - 1);
    }
  }

  /** The first octets of the infinite block stream: every n blocks that are long enough agree. */
  ghost predicate IsPHash(h: Hmac, secret: bytes, seed: bytes, out: bytes) {
    forall n: nat :: n * h.size >= |out| ==> out <= Blocks(h, secret, seed, n)
  }

  method Phash(h: Hmac, secret: bytes, seed: bytes, length: nat) returns (out: bytes)
    requires LawfulHmac(h)
    ensures |out| == length && IsPHash(h, secret, seed, out)
  {
    out := [];
    var a := h.mac(secret, seed);
    assert A(h, secret, seed, 1) == h.mac(secret, A(h, secret, seed, 0));
    ghost var n := 0;
    while |out| < length
      invariant out == Blocks(h, secret, seed, n)
      invariant a == A(h, secret, seed, n + 1)
      invariant |out| == n * h.size
      decreases length - |out|
    {
      var sum := h.mac(secret, a + seed);
      out := out + sum;
      a := h.mac(secret, a);
      n := n + 1;
      assert n * h.size == (n - 1) * h.size + h.size;
    }
    Truncated(h, secret, seed, n, length);
    out := out[..length];
  }

  lemma Truncated(h: Hmac, secret: bytes, seed: bytes, n: nat, length: nat)
    requires LawfulHmac(h) && |Blocks(h, secret, seed, n)| >= length
    ensures IsPHash(h, secret, seed, Blocks(h, secret, seed, n)[..length])
  {
    hide Blocks;
    var out := Blocks(h, secret, seed, n)[..length];
    forall m: nat | m * h.size >= length
      ensures out <= Blocks(h, secret, seed, m)
    {
      BlocksLength(h, secret, seed, m);
      if m <= n {
        BlocksExtend(h, secret, seed, m, n);
      } else {
        BlocksExtend(h, secret, seed, n, m);
      }
    }
  }

  /** P_hash is one stream: asking for less yields a prefix of asking for more. */
  lemma ShorterIsPrefix(h: Hmac, secret: bytes, seed: bytes, short: bytes, long: bytes)
    requires LawfulHmac(h) && |short| <= |long|
    requires IsPHash(h, secret, seed, short) && IsPHash(h, secret, seed, long)
    ensures short <= long
  {
    var n := |long|;
    assert n * h.size >= |long| by {
      BlocksLength(h, secret, seed, n);
      MulAtLeast(n, h.size);
    }
    assert short <= Blocks(h, secret, seed, n) && long <= Blocks(h, secret, seed, n);
  }

  /** The first two blocks of the stream written out (section 5 of RFC 5246). */
  lemma PHashBlocks(h: Hmac, secret: bytes, seed: bytes, out: bytes)
    requires LawfulHmac(h) && IsPHash(h, secret, seed, out) && |out| <= 2 * h.size
    ensures out <= h.mac(secret, h.mac(secret, seed) + seed)
                   + h.mac(secret, h.mac(secret, h.mac(secret, seed)) + seed)
  {
    assert 2 * h.size >= |out| && out <= Blocks(h, secret, seed, 2);
    assert A(h, secret, seed, 1) == h.mac(secret, seed);
    assert A(h, secret, seed, 2) == h.mac(secret, h.mac(secret, seed));
    assert Blocks(h, secret, seed, 1) == h.mac(secret, h.mac(secret, seed) + seed);
  }

  lemma MulAtLeast(n: nat, k: nat)
    requires k > 0
    ensures n * k >= n
  {
  }

  method Prf12(sha256: Hmac, secret: bytes, purpose: bytes, seed: bytes, length: nat) returns (out: bytes)
    requires LawfulHmac(sha256)
    ensures |out| == length && IsPHash(sha256, secret, purpose + seed, out)
  {
    out := Phash(sha256, secret, purpose + seed, length);
  }

  const KEY_EXPANSION: bytes := Octets("key expansion")
  const CLIENT_FINISHED: bytes := Octets("client finished")

  datatype KeyBlock = KeyBlock(clientMac: bytes, serverMac: bytes, clientKey: bytes, serverKey: bytes)

  /** The four keys tile 72 octets of the PRF stream without gap or overlap, in the order of section
      6.3 of RFC 5246; the server random comes first in the seed. */
  method DeriveKeys(sha256: Hmac, master: bytes, serverRandom: bytes, clientRandom: bytes) returns (k: KeyBlock)
    requires LawfulHmac(sha256)
    ensures |k.clientMac| == |k.serverMac| == 20 && |k.clientKey| == |k.serverKey| == 16
    ensures IsPHash(sha256, master, Octets("key expansion") + (serverRandom + clientRandom),
                    k.clientMac + k.serverMac + k.clientKey + k.serverKey)
  {
    var seed: bytes := [];
    seed := seed + serverRandom;
    seed := seed + clientRandom;
    assert seed == serverRandom + clientRandom;
    var block := Prf12(sha256, master, KEY_EXPANSION, seed, 72);
    k := KeyBlock(block[0..20], block[20..40], block[40..56], block[56..72]);
    assert block == k.clientMac + k.serverMac + k.clientKey + k.serverKey;
  }

  method FinishedVerifyData(sha256: Hmac, master: bytes, transcriptHash: bytes) returns (v: bytes)
    requires LawfulHmac(sha256)
    ensures |v| == 12 && IsPHash(sha256, master, Octets("client finished") + transcriptHash, v)
  {
    v := Prf12(sha256, master, CLIENT_FINISHED, transcriptHash, 12);
  }

  // ---- CBC over a 16-octet block cipher ----

  const BLOCK := 16

  datatype Cipher = Cipher(encrypt: (bytes, bytes) -> bytes, decrypt: (bytes, bytes) -> bytes)

  ghost predicate LawfulCipher(c: Cipher) {
    forall k, b :: |b| == BLOCK ==> |c.encrypt(k, b)| == BLOCK && c.decrypt(k, c.encrypt(k, b)) == b
  }

  function XorBlocks(a: bytes, b: bytes): (x: bytes)
    requires |a| == |b|
    ensures |x| == |a|
  {
    seq(|a|, i requires 0 <= i < |a| => XorByte(a[i], b[i]))
  }

  lemma XorBlocksCancels(a: bytes, b: bytes)
    requires |a| == |b|
    ensures XorBlocks(XorBlocks(a, b), b) == a
  {
    forall i | 0 <= i < |a|
      ensures XorBlocks(XorBlocks(a, b), b)[i] == a[i]
    {
      XorCancels(a[i], b[i]);
    }
  }

  function CbcEncrypt(c: Cipher, key: bytes, iv: bytes, body: bytes): bytes
    requires |iv| == BLOCK
    decreases |body|
  {
    if |body| < BLOCK then []
    else
      var out := c.encrypt(key, XorBlocks(body[..BLOCK], iv));
      if |out| != BLOCK then [] else out + CbcEncrypt(c, key, out, body[BLOCK..])
  }

  function CbcDecrypt(c: Cipher, key: bytes, iv: bytes, ciphertext: bytes): bytes
    requires |iv| == BLOCK
    decreases |ciphertext|
  {
    if |ciphertext| < BLOCK then []
    else
      var block := ciphertext[..BLOCK];
      var plain := c.decrypt(key, block);
      if |plain| != BLOCK then []
      else XorBlocks(plain, iv) + CbcDecrypt(c, key, block, ciphertext[BLOCK..])
  }

  lemma {:induction false} CbcInverts(c: Cipher, key: bytes, iv: bytes, body: bytes)
    requires LawfulCipher(c) && |iv| == BLOCK && |body| % BLOCK == 0
    ensures |CbcEncrypt(c, key, iv, body)| == |body|
    ensures CbcDecrypt(c, key, iv, CbcEncrypt(c, key, iv, body)) == body
    decreases |body|
  {
    hide XorBlocks;
    if |body| >= BLOCK {
      var x := XorBlocks(body[..BLOCK], iv);
      var out := c.encrypt(key, x);
      var rest := CbcEncrypt(c, key, out, body[BLOCK..]);
      CbcInverts(c, key, out, body[BLOCK..]);
      XorBlocksCancels(body[..BLOCK], iv);
      var all := CbcEncrypt(c, key, iv, body);
      assert all == out + rest;
      assert all[..BLOCK] == out && all[BLOCK..] == rest;
      assert body == body[..BLOCK] + body[BLOCK..];
    }
  }

  /** Block i of what goes into, or comes out of, the cipher. */
  function BlockAt(b: bytes, i: nat): bytes
    requires BLOCK * i + BLOCK <= |b|
  {
    b[BLOCK * i..BLOCK * i + BLOCK]
  }

  /** Cipher block chaining block by block: each block is exclusive-ored with the ciphertext block before it,
      the first one with the IV, and then encrypted. */
  lemma {:induction false} CbcChains(c: Cipher, key: bytes, iv: bytes, body: bytes, i: nat)
    requires LawfulCipher(c) && |iv| == 16 && |body| % 16 == 0 && 16 * i + 16 <= |body|
    ensures var out := CbcEncrypt(c, key, iv, body);
            && |out| == |body|
            && BlockAt(out, i)
               == c.encrypt(key, XorBlocks(BlockAt(body, i), if i == 0 then iv else BlockAt(out, i - 1)))
    decreases i
  {
    hide XorBlocks;
    CbcInverts(c, key, iv, body);
    var first := c.encrypt(key, XorBlocks(body[..BLOCK], iv));
    var rest := CbcEncrypt(c, key, first, body[BLOCK..]);
    var out := CbcEncrypt(c, key, iv, body);
    assert out == first + rest;
    assert BlockAt(body, 0) == body[..BLOCK] && BlockAt(out, 0) == first;
    if i > 0 {
      CbcChains(c, key, first, body[BLOCK..], i - 1);
      assert BlockAt(body, i) == BlockAt(body[BLOCK..], i - 1);
      assert BlockAt(out, i) == BlockAt(rest, i - 1);
      if i > 1 {
        assert BlockAt(out, i - 1) == BlockAt(rest, i - 2);
      }
    }
  }

  // ---- The record ----

  /** What the MAC covers (section 6.2.3.1): sequence number, type, version, length, content. */
  function MacInput(seqNum: u64, recordType: byte, version: u16, content: bytes): bytes {
    PutU64(seqNum) + [recordType] + PutU16(version) + PutU16(|content|) + content
  }

  /** No two records with content under 2^16 octets share a MAC input. */
  lemma MacInputInjective(s1: u64, t1: byte, v1: u16, c1: bytes, s2: u64, t2: byte, v2: u16, c2: bytes)
    requires |c1| < 0x1_0000 && |c2| < 0x1_0000
    requires MacInput(s1, t1, v1, c1) == MacInput(s2, t2, v2, c2)
    ensures s1 == s2 && t1 == t2 && v1 == v2 && c1 == c2
  {
    hide *;
    MacFields(s1, t1, v1, c1);
    MacFields(s2, t2, v2, c2);
    PutGetU64(s1);
    PutGetU64(s2);
    PutGetU16(v1);
    PutGetU16(v2);
  }

  lemma MacFields(s: u64, t: byte, v: u16, c: bytes)
    ensures var m := MacInput(s, t, v, c);
            |m| == 13 + |c| && m[..8] == PutU64(s) && m[8] == t && m[9..11] == PutU16(v) && m[13..] == c
  {
    hide PutU64, PutU16;
  }

  /** Pads to a whole number of blocks; every padding octet holds the padding length less one. */
  function PadLen(n: nat): (p: nat)
    ensures 1 <= p <= BLOCK && (n + p) % BLOCK == 0
  {
    BLOCK - n % BLOCK
  }

  function Padding(n: nat): (p: bytes)
    ensures |p| == PadLen(n)
  {
    seq(PadLen(n), i => PadLen(n) - 1)
  }

  method EncryptRecord(sha1: Hmac, aes: Cipher, keys: KeyBlock, plaintext: bytes, recordType: byte, version: u16,
                       seqNum: u64, iv: bytes)
    returns (out: bytes)
    requires LawfulHmac(sha1) && LawfulCipher(aes) && |iv| == BLOCK
    ensures var sum := sha1.mac(keys.clientMac, MacInput(seqNum, recordType, version, plaintext));
            out == Sealed(aes, keys.clientKey, iv, plaintext, sum)
  {
    hide CbcEncrypt, PutU64, PutU16;
    var aad := PutU64(seqNum) + [recordType] + PutU16(version) + PutU16(|plaintext|);
    var sum := sha1.mac(keys.clientMac, aad + plaintext);
    var body := plaintext + sum;
    var padLen := BLOCK - |body| % BLOCK;
    ghost var unpadded := body;
    for i := 0 to padLen
      invariant body == unpadded + Padding(|unpadded|)[..i]
    {
      body := body + [padLen - 1];
    }
    assert body == unpadded + Padding(|unpadded|);
    out := iv + CbcEncrypt(aes, keys.clientKey, iv, body);
  }

  /** The record body: explicit IV, then the encryption of content, MAC and padding. */
  function Sealed(aes: Cipher, key: bytes, iv: bytes, content: bytes, sum: bytes): bytes
    requires |iv| == BLOCK
  {
    iv + CbcEncrypt(aes, key, iv, content + sum + Padding(|content + sum|))
  }

  // ---- The receiver ----

  datatype Rejection = TooShort | BadPadding | BadMac | TooLong

  /** Octets that the padding takes, its own length octet included; 0 when it is not valid. */
  function PaddingAtEnd(body: bytes): (n: nat)
    ensures n <= |body|
  {
    if body == [] then 0
    else
      var n := body[|body| - 1] as int + 1;
      if n <= |body| && forall i :: |body| - n <= i < |body| ==> body[i] == body[|body| - 1] then n else 0
  }

  function Receive(sha1: Hmac, aes: Cipher, keys: KeyBlock, recordType: byte, version: u16, seqNum: u64,
                   fragment: bytes): Result<bytes, Rejection>
  {
    if |fragment| < 2 * BLOCK || |fragment| % BLOCK != 0 then Err(TooShort)
    else
      Strip(sha1, keys.clientMac, recordType, version, seqNum,
            CbcDecrypt(aes, keys.clientKey, fragment[..BLOCK], fragment[BLOCK..]))
  }

  /** The header a receiver puts in front of what it recovered (section 6.2.3.1): the sequence number in eight
      octets, the type, the version and the 16-bit length, highest octets first. */
  function ReceivedHeader(seqNum: u64, recordType: byte, version: u16, n: u16): bytes {
    [OctetOf(seqNum, 7), OctetOf(seqNum, 6), OctetOf(seqNum, 5), OctetOf(seqNum, 4),
     OctetOf(seqNum, 3), OctetOf(seqNum, 2), OctetOf(seqNum, 1), OctetOf(seqNum, 0),
     recordType, version / 0x100, version % 0x100, n / 0x100, n % 0x100]
  }

  /** The writer's MAC input octet by octet. */
  lemma MacInputOctets(seqNum: u64, recordType: byte, version: u16, content: bytes)
    requires |content| < 0x1_0000
    ensures MacInput(seqNum, recordType, version, content)
         == ReceivedHeader(seqNum, recordType, version, |content|) + content
  {
    OctetsOfU64(seqNum);
    hide PutU64, OctetOf;
    var h := PutU64(seqNum) + [recordType] + PutU16(version) + PutU16(|content|);
    var g := ReceivedHeader(seqNum, recordType, version, |content|);
    assert PutU64(seqNum) == g[..8];
    assert PutU16(version) == g[9..11] && PutU16(|content|) == g[11..13];
    assert h == g;
  }

  /** Padding and MAC checked and removed. */
  function Strip(sha1: Hmac, macKey: bytes, recordType: byte, version: u16, seqNum: u64, body: bytes)
    : Result<bytes, Rejection>
  {
    var pad := PaddingAtEnd(body);
    if pad == 0 then Err(BadPadding)
    else if |body| < pad + sha1.size then Err(TooShort)
    else
      var end := |body| - pad - sha1.size;
      var content := body[..end];
      if |content| >= 0x1_0000 then Err(TooLong)
      else if body[end..end + sha1.size]
              != sha1.mac(macKey, ReceivedHeader(seqNum, recordType, version, |content|) + content) then
        Err(BadMac)
      else Ok(content)
  }

  lemma StripPadded(sha1: Hmac, macKey: bytes, recordType: byte, version: u16, seqNum: u64, content: bytes)
    requires LawfulHmac(sha1)
    ensures var sum := sha1.mac(macKey, MacInput(seqNum, recordType, version, content));
            var got := Strip(sha1, macKey, recordType, version, seqNum, content + sum + Padding(|content + sum|));
            got == if |content| < 0x1_0000 then Ok(content) else Err(TooLong)
  {
    if |content| < 0x1_0000 {
      MacInputOctets(seqNum, recordType, version, content);
    }
    hide MacInput, ReceivedHeader, Padding, PadLen, PaddingAtEnd;
    var sum := sha1.mac(macKey, MacInput(seqNum, recordType, version, content));
    PaddingIsFound(content + sum);
    var body := content + sum + Padding(|content + sum|);
    assert body[..|content|] == content;
    assert body[|content|..|content| + sha1.size] == sum;
  }

  lemma PaddingIsFound(unpadded: bytes)
    ensures PaddingAtEnd(unpadded + Padding(|unpadded|)) == PadLen(|unpadded|)
  {
    var body := unpadded + Padding(|unpadded|);
    var n := PadLen(|unpadded|);
    assert body[|body| - 1] == n - 1;
    assert forall i :: |body| - n <= i < |body| ==> body[i] == n - 1;
  }

  lemma PaddedIsWhole(unpadded: bytes)
    ensures |unpadded + Padding(|unpadded|)| >= BLOCK && |unpadded + Padding(|unpadded|)| % BLOCK == 0
  {
  }

  lemma SealedShape(aes: Cipher, key: bytes, iv: bytes, body: bytes)
    requires LawfulCipher(aes) && |iv| == BLOCK && |body| % BLOCK == 0
    ensures var out := iv + CbcEncrypt(aes, key, iv, body);
            && |out| == BLOCK + |body| && |out| % BLOCK == 0
            && CbcDecrypt(aes, key, out[..BLOCK], out[BLOCK..]) == body
  {
    hide CbcEncrypt, CbcDecrypt;
    CbcInverts(aes, key, iv, body);
    var out := iv + CbcEncrypt(aes, key, iv, body);
    assert out[..BLOCK] == iv && out[BLOCK..] == CbcEncrypt(aes, key, iv, body);
  }

  /** A receiver with the same keys, sequence number, type and version gets the plaintext back exactly
      when its length fits the 16-bit length field. */
  lemma ReceiverAccepts(sha1: Hmac, aes: Cipher, keys: KeyBlock, recordType: byte, version: u16, seqNum: u64,
                        iv: bytes, plaintext: bytes, fragment: bytes)
    requires LawfulHmac(sha1) && LawfulCipher(aes) && |iv| == BLOCK
    requires var sum := sha1.mac(keys.clientMac, MacInput(seqNum, recordType, version, plaintext));
             fragment == Sealed(aes, keys.clientKey, iv, plaintext, sum)
    ensures |fragment| % BLOCK == 0
    ensures Receive(sha1, aes, keys, recordType, version, seqNum, fragment)
         == if |plaintext| < 0x1_0000 then Ok(plaintext) else Err(TooLong)
  {
    var sum := sha1.mac(keys.clientMac, MacInput(seqNum, recordType, version, plaintext));
    hide MacInput, Padding, PadLen, CbcEncrypt, CbcDecrypt, Strip;
    StripPadded(sha1, keys.clientMac, recordType, version, seqNum, plaintext);
    PaddedIsWhole(plaintext + sum);
    SealedShape(aes, keys.clientKey, iv, plaintext + sum + Padding(|plaintext + sum|));
  }
}
