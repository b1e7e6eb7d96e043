/** `FileEncryptor`: whole-file encryption into the container
    `IV (12 bytes) || ciphertext || tag (16 bytes)` and back, streaming the
    file through the cipher in 8 KiB reads. Both operations report success as
    a Boolean; every exception (no key, a key AES refuses, an unreadable file,
    a tag that does not verify) becomes `false`. */
module FileEncryptor {
  import opened Wrappers
  import opened Bytes
  import opened Gcm
  import Streams
  import KeyManager

  /** Buffer size of the streaming copy. */
  const BUFFER_SIZE: nat := 8192

  /** A file as an operation finds or leaves it: `Absent` cannot be opened
      for reading; `Present` holds its contents. */
  datatype File = Absent | Present(bytes: seq<byte>)

  /** The Boolean an operation returns and the output file it leaves. */
  datatype Outcome = Outcome(success: bool, output: File)

  /** The raw bytes of the active key, when `loadKey` returns one. A key that
      cannot be loaded (no entry, or an entry that throws) is `None`. */
  function ActiveKey(prefs: KeyManager.Prefs): (k: Option<seq<byte>>)
    ensures k.Some? <==> KeyManager.LoadKey(prefs).Ok? && KeyManager.LoadKey(prefs).value.Some?
    ensures k.Some? ==> k.value == KeyManager.LoadKey(prefs).value.value.encoded
  {
    match KeyManager.LoadKey(prefs)
    case Ok(Some(key)) => Some(key.encoded)
    case _ => None
  }

  /** A key the operations can use: loaded, and of a length AES accepts. */
  predicate HasUsableKey(prefs: KeyManager.Prefs)
  {
    ActiveKey(prefs).Some? && ValidKeyLength(|ActiveKey(prefs).value|)
  }

  /** The cipher stream of a file: the file is fed to `update` in chunks,
      then `doFinal` is called, and the bytes written are the outputs in
      order, up to the point where a call throws. The chunks here are the
      `BUFFER_SIZE` reads of `copyTo`. That is how encryption feeds its
      cipher stream; in decryption `CipherInputStream` reads the file in
      sizes of its own, which the app does not set. `AnyChunking` shows the
      result is the same for every chunking. */
  function Pump(c: Cipher, src: seq<byte>): (r: (seq<byte>, Result<seq<byte>, CipherError>))
    requires c.seen == []
    ensures r.0 == Emitted(c.(seen := src))
    ensures r.1 == DoFinal(c.(seen := src))
  {
    var chunks := Streams.Chunks(src, BUFFER_SIZE);
    var (c', streamed) := UpdateAll(c, chunks);
    assert c.seen + Flatten(chunks) == src;
    assert Emitted(c) == [];
    (streamed, DoFinal(c'))
  }

  /** Feeding a file to the cipher in any chunks whatever gives the same
      output and the same final result as the `BUFFER_SIZE` reads. */
  lemma AnyChunking(c: Cipher, chunks: seq<seq<byte>>)
    requires c.seen == []
    ensures UpdateAll(c, chunks).1 == Pump(c, Flatten(chunks)).0
    ensures DoFinal(UpdateAll(c, chunks).0) == Pump(c, Flatten(chunks)).1
  {
    assert Emitted(c) == [];
    assert c.seen + Flatten(chunks) == Flatten(chunks);
  }

  /** `encryptFile(inputFile, outputFile)`. The IV is the one the cipher
      draws at `init`, given here as `iv`. */
  function EncryptFile(prefs: KeyManager.Prefs, aes: Aes, iv: seq<byte>, input: File, output: File): (r: Outcome)
    requires |iv| == IV_SIZE
    ensures r.success <==> HasUsableKey(prefs) && input.Present?
    ensures !HasUsableKey(prefs) ==> r.output == output
    ensures HasUsableKey(prefs) && input.Absent? ==> r.output == Present(iv)
    ensures r.success ==> r.output == Present(iv + Seal(aes, ActiveKey(prefs).value, iv, input.bytes))
  {
    match ActiveKey(prefs)
    case None => Outcome(false, output)
    case Some(key) =>
      match Init(aes, Encrypt, key, iv)
      case Err(_) => Outcome(false, output)
      case Ok(cipher) =>
        // The output file is opened, and the IV written, before the input.
        match input
        case Absent => Outcome(false, Present(iv))
        case Present(src) =>
          var (streamed, last) := Pump(cipher, src);
          assert last.Ok? && streamed + last.value == Seal(aes, key, iv, src);
          match last
          case Err(_) => Outcome(false, Present(iv + streamed))
          case Ok(tail) =>
            assert iv + streamed + tail == iv + (streamed + tail);
            Outcome(true, Present(iv + streamed + tail))
  }

  /** What `read(iv)` leaves in the 12-byte IV buffer: the first bytes of the
      file, zero-filled when the file is shorter; the result of the read is
      not checked. */
  function ReadIv(data: seq<byte>): (iv: seq<byte>)
    ensures |iv| == IV_SIZE
    ensures |data| >= IV_SIZE ==> iv == data[..IV_SIZE]
    ensures |data| < IV_SIZE ==> iv[..|data|] == data && iv[|data|..] == Zeros(IV_SIZE - |data|)
  {
    if |data| >= IV_SIZE then data[..IV_SIZE] else data + Zeros(IV_SIZE - |data|)
  }

  /** The bytes after the IV, which the cipher stream reads. */
  function Body(data: seq<byte>): seq<byte>
  {
    if |data| >= IV_SIZE then data[IV_SIZE..] else []
  }

  /** A file is its IV followed by its body; a file shorter than an IV has
      no body. */
  lemma IvThenBody(data: seq<byte>)
    ensures |data| >= IV_SIZE ==> data == ReadIv(data) + Body(data)
    ensures |data| < IV_SIZE ==> Body(data) == []
  {
  }

  /** The plaintext a container would carry if its tag were ignored: the
      keystream applied to everything between the IV and the last 16 bytes. */
  function Unverified(aes: Aes, key: seq<byte>, data: seq<byte>): seq<byte>
  {
    var body := Body(data);
    if |body| <= TAG_BYTES then [] else Ctr(aes, key, ReadIv(data), 0, body[..|body| - TAG_BYTES])
  }

  /** The unverified plaintext is as long as the ciphertext between IV and
      tag, and applying the keystream to it again gives that ciphertext. */
  lemma UnverifiedIsCiphertext(aes: Aes, key: seq<byte>, data: seq<byte>)
    ensures var p, body := Unverified(aes, key, data), Body(data);
            |p| == (if |body| <= TAG_BYTES then 0 else |body| - TAG_BYTES)
    ensures var p, body := Unverified(aes, key, data), Body(data);
            |body| > TAG_BYTES ==> Ctr(aes, key, ReadIv(data), 0, p) == body[..|body| - TAG_BYTES]
  {
    var body := Body(data);
    if |body| > TAG_BYTES {
      CtrTwice(aes, key, ReadIv(data), 0, body[..|body| - TAG_BYTES]);
    }
  }

  /** `decryptFile(encryptedFile, outputFile)`. */
  function DecryptFile(prefs: KeyManager.Prefs, aes: Aes, input: File, output: File): (r: Outcome)
    ensures !HasUsableKey(prefs) || input.Absent? ==> r == Outcome(false, output)
    ensures r.success <==> HasUsableKey(prefs) && input.Present?
                           && Open(aes, ActiveKey(prefs).value, ReadIv(input.bytes), Body(input.bytes)).Some?
    ensures r.success ==> r.output == Present(Open(aes, ActiveKey(prefs).value, ReadIv(input.bytes), Body(input.bytes)).value)
    ensures HasUsableKey(prefs) && input.Present? && !r.success
            ==> r.output.Present? && r.output.bytes <= Unverified(aes, ActiveKey(prefs).value, input.bytes)
  {
    match ActiveKey(prefs)
    case None => Outcome(false, output)
    case Some(key) =>
      match input
      case Absent => Outcome(false, output)
      case Present(data) =>
        var iv := ReadIv(data);
        match Init(aes, Decrypt, key, iv)
        case Err(_) => Outcome(false, output)
        case Ok(cipher) =>
          // The output file is truncated before the first byte is decrypted.
          var (streamed, last) := Pump(cipher, Body(data));
          assert last.Ok? <==> Open(aes, key, iv, Body(data)).Some?;
          assert last.Ok? ==> streamed + last.value == Open(aes, key, iv, Body(data)).value;
          match last
          case Err(_) =>
            ReleasedIsUnverified(cipher, data);
            Outcome(false, Present(streamed))
          case Ok(tail) => Outcome(true, Present(streamed + tail))
  }

  /** What a decrypting cipher has output before `doFinal` is a prefix of the
      unverified plaintext. */
  lemma ReleasedIsUnverified(cipher: Cipher, data: seq<byte>)
    requires cipher.mode == Decrypt && cipher.seen == [] && cipher.iv == ReadIv(data)
    ensures Emitted(cipher.(seen := Body(data))) <= Unverified(cipher.aes, cipher.key, data)
  {
    var body := Body(data);
    var c := cipher.(seen := body);
    var n := Released(c);
    if |body| > TAG_BYTES {
      var m := |body| - TAG_BYTES;
      assert n <= m;
      assert body[..m] == body[..n] + body[n..m];
      CtrSplit(c.aes, c.key, c.iv, 0, body[..n], body[n..m]);
    }
  }

  // ------------------------------------------------------------ properties

  /** The container is the IV, then the ciphertext, then the 16-byte tag:
      12 + |P| + 16 bytes for a plaintext P, and the IV comes first. */
  lemma ContainerLayout(prefs: KeyManager.Prefs, aes: Aes, iv: seq<byte>, plaintext: seq<byte>, output: File)
    requires |iv| == IV_SIZE && HasUsableKey(prefs)
    ensures var data := EncryptFile(prefs, aes, iv, Present(plaintext), output).output.bytes;
            && |data| == IV_SIZE + |plaintext| + TAG_BYTES
            && ReadIv(data) == iv
            && Body(data) == Seal(aes, ActiveKey(prefs).value, iv, plaintext)
  {
    var data := EncryptFile(prefs, aes, iv, Present(plaintext), output).output.bytes;
    assert data[..IV_SIZE] == iv;
    assert data[IV_SIZE..] == Seal(aes, ActiveKey(prefs).value, iv, plaintext);
  }

  /** Decrypting what `encryptFile` wrote, with the same key, succeeds and
      writes exactly the original contents, whatever the output held before. */
  lemma RoundTrip(prefs: KeyManager.Prefs, aes: Aes, iv: seq<byte>, plaintext: seq<byte>, output: File, restored: File)
    requires |iv| == IV_SIZE && HasUsableKey(prefs)
    ensures DecryptFile(prefs, aes, EncryptFile(prefs, aes, iv, Present(plaintext), output).output, restored)
         == Outcome(true, Present(plaintext))
  {
    ContainerLayout(prefs, aes, iv, plaintext, output);
    OpenSeal(aes, ActiveKey(prefs).value, iv, plaintext);
  }

  /** Encrypting the same file twice with different IVs gives different
      containers, and each decrypts back to the file. */
  lemma FreshNonces(prefs: KeyManager.Prefs, aes: Aes, iv1: seq<byte>, iv2: seq<byte>, plaintext: seq<byte>, output: File)
    requires |iv1| == IV_SIZE && |iv2| == IV_SIZE && iv1 != iv2 && HasUsableKey(prefs)
    ensures EncryptFile(prefs, aes, iv1, Present(plaintext), output).output
         != EncryptFile(prefs, aes, iv2, Present(plaintext), output).output
    ensures DecryptFile(prefs, aes, EncryptFile(prefs, aes, iv1, Present(plaintext), output).output, output).output
         == DecryptFile(prefs, aes, EncryptFile(prefs, aes, iv2, Present(plaintext), output).output, output).output
  {
    ContainerLayout(prefs, aes, iv1, plaintext, output);
    ContainerLayout(prefs, aes, iv2, plaintext, output);
    RoundTrip(prefs, aes, iv1, plaintext, output, output);
    RoundTrip(prefs, aes, iv2, plaintext, output, output);
  }

  /** A successful decryption vouches for its input: the file was exactly
      what `encryptFile` writes, under the active key and the file's own IV,
      for the contents just written. */
  lemma SuccessIsAuthentic(prefs: KeyManager.Prefs, aes: Aes, data: seq<byte>, output: File)
    requires DecryptFile(prefs, aes, Present(data), output).success
    ensures |data| >= IV_SIZE + TAG_BYTES
    ensures data == ReadIv(data)
                    + Seal(aes, ActiveKey(prefs).value, ReadIv(data), DecryptFile(prefs, aes, Present(data), output).output.bytes)
  {
    OpenAuthentic(aes, ActiveKey(prefs).value, ReadIv(data), Body(data));
    assert data == data[..IV_SIZE] + data[IV_SIZE..];
  }

  /** Decryption succeeds exactly when the last 16 bytes are the tag, under
      the active key and the file's IV, of the bytes between IV and tag. */
  lemma DecryptSucceedsIff(prefs: KeyManager.Prefs, aes: Aes, data: seq<byte>, output: File)
    requires HasUsableKey(prefs)
    ensures DecryptFile(prefs, aes, Present(data), output).success
        <==> |data| >= IV_SIZE + TAG_BYTES
             && data[|data| - TAG_BYTES..] == aes.mac(ActiveKey(prefs).value, data[..IV_SIZE], data[IV_SIZE..|data| - TAG_BYTES])
  {
    var body := Body(data);
    OpenSucceedsIff(aes, ActiveKey(prefs).value, ReadIv(data), body);
    if |data| >= IV_SIZE + TAG_BYTES {
      assert body[|body| - TAG_BYTES..] == data[|data| - TAG_BYTES..];
      assert body[..|body| - TAG_BYTES] == data[IV_SIZE..|data| - TAG_BYTES];
    }
  }

  /** Changing any byte of the tag of a container makes decryption fail. */
  lemma TamperedTagFails(prefs: KeyManager.Prefs, aes: Aes, iv: seq<byte>, plaintext: seq<byte>,
                         j: nat, b: byte, restored: File)
    requires |iv| == IV_SIZE && HasUsableKey(prefs)
    requires var data := iv + Seal(aes, ActiveKey(prefs).value, iv, plaintext);
             |data| - TAG_BYTES <= j < |data| && data[j] != b
    ensures var data := iv + Seal(aes, ActiveKey(prefs).value, iv, plaintext);
            !DecryptFile(prefs, aes, Present(data[j := b]), restored).success
  {
    var key := ActiveKey(prefs).value;
    var ct := Ctr(aes, key, iv, 0, plaintext);
    var tag := aes.mac(key, iv, ct);
    var data := iv + Seal(aes, key, iv, plaintext);
    assert data == iv + ct + tag;
    var k := j - (|data| - TAG_BYTES);
    var forged := iv + ct + tag[k := b];
    assert data[j := b] == forged;
    DecryptSucceedsIff(prefs, aes, forged, restored);
    assert forged[..IV_SIZE] == iv;
    assert forged[IV_SIZE..|forged| - TAG_BYTES] == ct;
    assert forged[|forged| - TAG_BYTES..] == tag[k := b];
  }

  /** Changing ciphertext bytes while keeping the IV and the tag makes
      decryption fail unless the new ciphertext happens to have the same tag. */
  lemma TamperedCiphertext(prefs: KeyManager.Prefs, aes: Aes, iv: seq<byte>, plaintext: seq<byte>,
                           forgedCt: seq<byte>, output: File, restored: File)
    requires |iv| == IV_SIZE && HasUsableKey(prefs)
    ensures var key := ActiveKey(prefs).value;
            var ct := Ctr(aes, key, iv, 0, plaintext);
            DecryptFile(prefs, aes, Present(iv + forgedCt + aes.mac(key, iv, ct)), restored).success
            <==> aes.mac(key, iv, forgedCt) == aes.mac(key, iv, ct)
  {
    var key := ActiveKey(prefs).value;
    var ct := Ctr(aes, key, iv, 0, plaintext);
    var forged := iv + forgedCt + aes.mac(key, iv, ct);
    DecryptSucceedsIff(prefs, aes, forged, restored);
    assert forged[..IV_SIZE] == iv;
    assert forged[IV_SIZE..|forged| - TAG_BYTES] == forgedCt;
    assert forged[|forged| - TAG_BYTES..] == aes.mac(key, iv, ct);
  }

  /** A container made under one key decrypts under another exactly when the
      two keys give the ciphertext the same tag (the forgery AES-GCM makes
      improbable); when it does, what is written is the other key's keystream
      applied to the ciphertext. */
  lemma WrongKey(prefs: KeyManager.Prefs, other: KeyManager.Prefs, aes: Aes, iv: seq<byte>,
                 plaintext: seq<byte>, restored: File)
    requires |iv| == IV_SIZE && HasUsableKey(prefs) && HasUsableKey(other)
    ensures var key, key' := ActiveKey(prefs).value, ActiveKey(other).value;
            var ct := Ctr(aes, key, iv, 0, plaintext);
            var r := DecryptFile(other, aes, Present(iv + Seal(aes, key, iv, plaintext)), restored);
            && (r.success <==> aes.mac(key', iv, ct) == aes.mac(key, iv, ct))
            && (r.success ==> r.output == Present(Ctr(aes, key', iv, 0, ct)))
  {
    var key := ActiveKey(prefs).value;
    var ct := Ctr(aes, key, iv, 0, plaintext);
    var data := iv + Seal(aes, key, iv, plaintext);
    assert data == iv + ct + aes.mac(key, iv, ct);
    DecryptSucceedsIff(other, aes, data, restored);
    assert data[..IV_SIZE] == iv;
    assert data[IV_SIZE..|data| - TAG_BYTES] == ct;
    assert Body(data)[..|Body(data)| - TAG_BYTES] == ct;
  }

  /** A file too short to hold an IV and a tag is never decrypted, yet, as
      there is no header check, the output file is still created empty. */
  lemma TruncatedInput(prefs: KeyManager.Prefs, aes: Aes, data: seq<byte>, output: File)
    requires HasUsableKey(prefs) && |data| < IV_SIZE + TAG_BYTES
    ensures DecryptFile(prefs, aes, Present(data), output) == Outcome(false, Present([]))
  {
    DecryptSucceedsIff(prefs, aes, data, output);
  }

  /** A failed decryption does not remove its output: a buffering provider
      leaves it empty, a streaming one leaves the whole unverified plaintext. */
  lemma FailedDecryptLeavesOutput(prefs: KeyManager.Prefs, aes: Aes, data: seq<byte>, output: File)
    requires HasUsableKey(prefs)
    ensures var r := DecryptFile(prefs, aes, Present(data), output);
            !r.success && aes.release == Buffering ==> r.output == Present([])
    ensures var r := DecryptFile(prefs, aes, Present(data), output);
            !r.success && aes.release == Streaming ==> r.output == Present(Unverified(aes, ActiveKey(prefs).value, data))
  {
  }

  /** Each operation reads the key store once: two stores that load the same
      key give the same result. */
  lemma KeyReadOnce(prefs: KeyManager.Prefs, other: KeyManager.Prefs, aes: Aes, iv: seq<byte>, input: File, output: File)
    requires |iv| == IV_SIZE && KeyManager.LoadKey(prefs) == KeyManager.LoadKey(other)
    ensures EncryptFile(prefs, aes, iv, input, output) == EncryptFile(other, aes, iv, input, output)
    ensures DecryptFile(prefs, aes, input, output) == DecryptFile(other, aes, input, output)
  {
  }
}
