/** AES in Galois/Counter Mode (NIST SP 800-38D), as `Cipher.getInstance(
    "AES/GCM/NoPadding")` provides it, with its two cryptographic primitives
    left abstract: the counter-mode keystream of the block cipher and the
    GHASH-based 128-bit tag. Everything above them (keystream xor, tag
    placement and check, streaming updates, finalisation) is defined here. */
module Gcm {
  import opened Wrappers
  import opened Bytes

  /** Bytes in a nonce: the 96-bit IV that GCM recommends. */
  const IV_SIZE: nat := 12
  /** Tag length in bits, as passed to `GCMParameterSpec`. */
  const TAG_SIZE: nat := 128
  /** Tag length in bytes. */
  const TAG_BYTES: nat := TAG_SIZE / 8

  type Tag = t: seq<byte> | |t| == TAG_BYTES witness Zeros(TAG_BYTES)

  /** How a provider hands out plaintext while decrypting. A buffering provider
      (the platform default keeps the whole input until `doFinal`) releases
      nothing before the tag is checked. A streaming provider is idealised as
      one that releases the plaintext of everything except the last 16 bytes
      it has seen, which may still turn out to be the tag; a real one may
      release less, in blocks of its own choosing. */
  datatype Release = Buffering | Streaming

  /** The abstract block-cipher primitives and the provider's release policy:
      `keystream(key, iv, i)` is byte `i` of the GCTR keystream, and
      `mac(key, iv, ciphertext)` is the tag over a ciphertext. */
  datatype Aes = Aes(
    keystream: (seq<byte>, seq<byte>, nat) -> byte,
    mac: (seq<byte>, seq<byte>, seq<byte>) -> Tag,
    release: Release)

  datatype Mode = Encrypt | Decrypt

  /** Why the cipher throws: a key AES cannot use, or a tag that does not
      verify (`AEADBadTagException`). */
  datatype CipherError = InvalidKey | BadTag

  /** AES accepts 128-, 192- and 256-bit keys only. */
  predicate ValidKeyLength(n: nat)
  {
    n == 16 || n == 24 || n == 32
  }

  /** Counter-mode transformation of `data`, which sits at byte `offset` of
      the stream: each byte is xored with the keystream byte at its position. */
  function Ctr(aes: Aes, key: seq<byte>, iv: seq<byte>, offset: nat, data: seq<byte>): (r: seq<byte>)
    ensures |r| == |data|
    ensures forall i :: 0 <= i < |data| ==> r[i] == Xor(data[i], aes.keystream(key, iv, offset + i))
  {
    seq(|data|, i requires 0 <= i < |data| => Xor(data[i], aes.keystream(key, iv, offset + i)))
  }

  /** Applying the keystream twice at the same position undoes it. */
  lemma CtrTwice(aes: Aes, key: seq<byte>, iv: seq<byte>, offset: nat, data: seq<byte>)
    ensures Ctr(aes, key, iv, offset, Ctr(aes, key, iv, offset, data)) == data
  {
    var once := Ctr(aes, key, iv, offset, data);
    var twice := Ctr(aes, key, iv, offset, once);
    forall i | 0 <= i < |data|
      ensures twice[i] == data[i]
    {
      XorTwice(data[i], aes.keystream(key, iv, offset + i));
    }
  }

  /** The counter-mode stream may be cut anywhere: transforming two adjacent
      pieces at their own offsets is transforming their concatenation. */
  lemma CtrSplit(aes: Aes, key: seq<byte>, iv: seq<byte>, offset: nat, a: seq<byte>, b: seq<byte>)
    ensures Ctr(aes, key, iv, offset, a + b)
         == Ctr(aes, key, iv, offset, a) + Ctr(aes, key, iv, offset + |a|, b)
  {
    var whole := Ctr(aes, key, iv, offset, a + b);
    var parts := Ctr(aes, key, iv, offset, a) + Ctr(aes, key, iv, offset + |a|, b);
    forall i | 0 <= i < |a + b|
      ensures whole[i] == parts[i]
    {
      if i >= |a| {
        assert (a + b)[i] == b[i - |a|];
      }
    }
  }

  /** Authenticated encryption of a whole plaintext: ciphertext, then tag. */
  function Seal(aes: Aes, key: seq<byte>, iv: seq<byte>, plaintext: seq<byte>): (c: seq<byte>)
    ensures |c| == |plaintext| + TAG_BYTES
  {
    var ct := Ctr(aes, key, iv, 0, plaintext);
    ct + aes.mac(key, iv, ct)
  }

  /** Authenticated decryption of a whole ciphertext-and-tag: the plaintext
      if the trailing 16 bytes are the tag of what precedes them. */
  function Open(aes: Aes, key: seq<byte>, iv: seq<byte>, sealed: seq<byte>): (r: Option<seq<byte>>)
    ensures |sealed| < TAG_BYTES ==> r.None?
    ensures r.Some? ==> |r.value| + TAG_BYTES == |sealed|
  {
    if |sealed| < TAG_BYTES then None
    else
      var ct := sealed[..|sealed| - TAG_BYTES];
      if sealed[|sealed| - TAG_BYTES..] == aes.mac(key, iv, ct)
      then Some(Ctr(aes, key, iv, 0, ct))
      else None
  }

  /** Correctness: what was sealed opens, under the same key and nonce, to the
      same plaintext. */
  lemma OpenSeal(aes: Aes, key: seq<byte>, iv: seq<byte>, plaintext: seq<byte>)
    ensures Open(aes, key, iv, Seal(aes, key, iv, plaintext)) == Some(plaintext)
  {
    var ct := Ctr(aes, key, iv, 0, plaintext);
    var sealed := Seal(aes, key, iv, plaintext);
    assert sealed[..|sealed| - TAG_BYTES] == ct;
    CtrTwice(aes, key, iv, 0, plaintext);
  }

  /** Integrity: only a sealing of some plaintext under this key and nonce
      opens, and it opens to exactly that plaintext. */
  lemma OpenAuthentic(aes: Aes, key: seq<byte>, iv: seq<byte>, sealed: seq<byte>)
    ensures Open(aes, key, iv, sealed).Some?
        ==> sealed == Seal(aes, key, iv, Open(aes, key, iv, sealed).value)
  {
    if Open(aes, key, iv, sealed).Some? {
      var ct := sealed[..|sealed| - TAG_BYTES];
      CtrTwice(aes, key, iv, 0, ct);
      assert sealed == ct + sealed[|sealed| - TAG_BYTES..];
    }
  }

  /** Opening succeeds exactly when the trailing 16 bytes are the tag, under
      this key and nonce, of the ciphertext before them. */
  lemma OpenSucceedsIff(aes: Aes, key: seq<byte>, iv: seq<byte>, sealed: seq<byte>)
    ensures Open(aes, key, iv, sealed).Some?
        <==> |sealed| >= TAG_BYTES
             && sealed[|sealed| - TAG_BYTES..] == aes.mac(key, iv, sealed[..|sealed| - TAG_BYTES])
  {
  }

  // ------------------------------------------------------------ streaming

  /** A cipher instance after `init`: what it has been fed so far. */
  datatype Cipher = Cipher(aes: Aes, key: seq<byte>, iv: seq<byte>, mode: Mode, seen: seq<byte>)

  /** `cipher.init(mode, key[, GCMParameterSpec(TAG_SIZE, iv)])`: a key of
      the wrong length is refused. */
  function Init(aes: Aes, mode: Mode, key: seq<byte>, iv: seq<byte>): (r: Result<Cipher, CipherError>)
    ensures r.Ok? <==> ValidKeyLength(|key|)
    ensures r.Ok? ==> r.value == Cipher(aes, key, iv, mode, [])
  {
    if ValidKeyLength(|key|) then Ok(Cipher(aes, key, iv, mode, [])) else Err(InvalidKey)
  }

  /** How many input bytes have had their transformation handed out. */
  function Released(c: Cipher): (n: nat)
    ensures n <= |c.seen|
  {
    match c.aes.release
    case Buffering => 0
    case Streaming =>
      if c.mode == Encrypt then |c.seen|
      else if |c.seen| <= TAG_BYTES then 0
      else |c.seen| - TAG_BYTES
  }

  /** Everything the cipher has output so far. */
  function Emitted(c: Cipher): seq<byte>
  {
    Ctr(c.aes, c.key, c.iv, 0, c.seen[..Released(c)])
  }

  /** `cipher.update(chunk)`: the chunk is absorbed and the transformation of
      the newly released input is output. Whatever the chunking, the outputs
      so far always add up to `Emitted`. */
  function Update(c: Cipher, chunk: seq<byte>): (r: (Cipher, seq<byte>))
    ensures r.0 == c.(seen := c.seen + chunk)
    ensures Emitted(c) + r.1 == Emitted(r.0)
  {
    var c' := c.(seen := c.seen + chunk);
    var out := Ctr(c.aes, c.key, c.iv, Released(c), c'.seen[Released(c)..Released(c')]);
    assert Released(c) <= Released(c');
    assert c'.seen[..Released(c')] == c.seen[..Released(c)] + c'.seen[Released(c)..Released(c')];
    CtrSplit(c.aes, c.key, c.iv, 0, c.seen[..Released(c)], c'.seen[Released(c)..Released(c')]);
    (c', out)
  }

  /** Two appends in a row are one append of the two pieces. */
  lemma Chain(a: seq<byte>, x: seq<byte>, b: seq<byte>, y: seq<byte>, c: seq<byte>)
    requires a + x == b && b + y == c
    ensures a + (x + y) == c
  {
  }

  /** Feed the chunks in order, collecting the outputs; the state reached is
      the one that saw the concatenation of the chunks. */
  function UpdateAll(c: Cipher, chunks: seq<seq<byte>>): (r: (Cipher, seq<byte>))
    ensures r.0 == c.(seen := c.seen + Flatten(chunks))
    ensures Emitted(c) + r.1 == Emitted(r.0)
    decreases |chunks|
  {
    if |chunks| == 0 then
      assert c.seen + Flatten(chunks) == c.seen;
      (c, [])
    else
      var (c1, out1) := Update(c, chunks[0]);
      var (c2, out2) := UpdateAll(c1, chunks[1..]);
      Chain(c.seen, chunks[0], c1.seen, Flatten(chunks[1..]), c2.seen);
      Chain(Emitted(c), out1, Emitted(c1), out2, Emitted(c2));
      (c2, out1 + out2)
  }

  /** `cipher.doFinal()`: in encryption it outputs the rest of the ciphertext
      and the tag; in decryption it checks the tag over everything seen and
      either outputs the rest of the plaintext or throws. */
  function DoFinal(c: Cipher): (r: Result<seq<byte>, CipherError>)
    ensures c.mode == Encrypt ==> r.Ok? && Emitted(c) + r.value == Seal(c.aes, c.key, c.iv, c.seen)
    ensures c.mode == Decrypt ==> (r.Ok? <==> Open(c.aes, c.key, c.iv, c.seen).Some?)
    ensures c.mode == Decrypt && r.Ok? ==> Emitted(c) + r.value == Open(c.aes, c.key, c.iv, c.seen).value
  {
    var n := Released(c);
    match c.mode
    case Encrypt =>
      var ct := Ctr(c.aes, c.key, c.iv, 0, c.seen);
      CtrSplit(c.aes, c.key, c.iv, 0, c.seen[..n], c.seen[n..]);
      assert c.seen[..n] + c.seen[n..] == c.seen;
      Ok(Ctr(c.aes, c.key, c.iv, n, c.seen[n..]) + c.aes.mac(c.key, c.iv, ct))
    case Decrypt =>
      match Open(c.aes, c.key, c.iv, c.seen)
      case None => Err(BadTag)
      case Some(p) =>
        var ct := c.seen[..|c.seen| - TAG_BYTES];
        assert n <= |ct|;
        assert c.seen[..n] == ct[..n];
        CtrSplit(c.aes, c.key, c.iv, 0, ct[..n], ct[n..]);
        assert ct[..n] + ct[n..] == ct;
        Ok(Ctr(c.aes, c.key, c.iv, n, ct[n..]))
  }
}
