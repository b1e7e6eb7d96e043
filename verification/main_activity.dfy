/** `MainActivity`: the key bootstrap at start-up, the naming of encrypted
    and decrypted files in the Downloads folder, the encrypt and decrypt
    flows around `FileEncryptor`, the key-management handlers and the dummy
    test file. */
module MainActivity {
  import opened Wrappers
  import opened Bytes
  import opened KotlinText
  import opened KeyManager
  import KeyActions
  import Base64
  import Gcm
  import FE = FileEncryptor

  const ENCRYPTED_PREFIX: string := "encrypted_"
  const ENCRYPTED_SUFFIX: string := ".enc"
  const DECRYPTED_PREFIX: string := "decrypted_"

  /** The state the flows act on: the key store and the Downloads folder,
      files by name. */
  datatype Device = Device(prefs: Prefs, downloads: map<string, seq<byte>>)

  // ---------------------------------------------------------------- start-up

  /** `onCreate`: when `loadKey` finds no key, a fresh one is generated and
      saved; an existing key is kept. If `loadKey` throws, so does
      `onCreate`. */
  function OnCreate(prefs: Prefs, random: seq<byte>): (r: Result<Prefs, KeyError>)
    requires |random| == KEY_SIZE / 8
    ensures r.Err? <==> LoadKey(prefs).Err?
    ensures LoadKey(prefs).Ok? && LoadKey(prefs).value.Some? ==> r == Ok(prefs)
    ensures r.Ok? ==> LoadKey(r.value).Ok? && LoadKey(r.value).value.Some?
    ensures r.Ok? && LoadKey(prefs) == Ok(None) ==> LoadKey(r.value) == Ok(Some(KeyManager.GenerateNewKey(random)))
  {
    match LoadKey(prefs)
    case Err(e) => Err(e)
    case Ok(Some(_)) => Ok(prefs)
    case Ok(None) => Ok(KeyActions.Generate(prefs, random))
  }

  /** From a healthy store, start-up always leaves a usable 256-bit key or
      keeps the one already there. */
  lemma OnCreateFromHealthy(prefs: Prefs, random: seq<byte>)
    requires Healthy(prefs) && |random| == KEY_SIZE / 8
    ensures OnCreate(prefs, random).Ok?
    ensures Healthy(OnCreate(prefs, random).value)
    ensures KEY_NAME in OnCreate(prefs, random).value
  {
    HealthyLoads(prefs);
  }

  // ---------------------------------------------------------------- naming

  /** `File.nameWithoutExtension`: everything before the last dot. */
  function NameWithoutExtension(name: string): (base: string)
    ensures '.' !in name ==> base == name
    ensures '.' in name ==> StartsWith(name, base + ".") && '.' !in name[|base| + 1..]
  {
    SubstringBeforeLast(name, '.')
  }

  /** `File.extension`: everything after the last dot, or nothing. */
  function Extension(name: string): (ext: string)
    ensures '.' !in ext
    ensures '.' !in name ==> ext == ""
    ensures '.' in name ==> EndsWith(name, "." + ext)
  {
    var ext := SubstringAfterLast(name, '.', "");
    assert '.' in name ==> EndsWith(name, "." + ext) by {
      if '.' in name {
        SplitAtLast(name, '.');
        var before := SubstringBeforeLast(name, '.');
        assert name == before + ("." + ext);
        assert name[..|name| - |"." + ext|] == before;
      }
    }
    ext
  }

  /** The name `encryptFile(uri)` gives the container of a file. */
  function EncryptedName(name: string): (r: string)
    ensures StartsWith(r, ENCRYPTED_PREFIX)
    ensures EndsWith(r, ENCRYPTED_SUFFIX)
  {
    var r := ENCRYPTED_PREFIX + NameWithoutExtension(name) + "." + Extension(name) + ENCRYPTED_SUFFIX;
    assert r[|r| - |ENCRYPTED_SUFFIX|..] == ENCRYPTED_SUFFIX;
    r
  }

  /** The original name recovered from a selected container's name. */
  function OriginalName(selected: string): (r: string)
    ensures StartsWith(selected, ENCRYPTED_PREFIX) && EndsWith(selected, ENCRYPTED_SUFFIX)
            ==> selected == ENCRYPTED_PREFIX + r + ENCRYPTED_SUFFIX
    ensures !StartsWith(selected, ENCRYPTED_PREFIX) && EndsWith(selected, ENCRYPTED_SUFFIX)
            ==> selected == r + ENCRYPTED_SUFFIX
  {
    var rest := RemovePrefix(selected, ENCRYPTED_PREFIX);
    assert StartsWith(selected, ENCRYPTED_PREFIX) && EndsWith(selected, ENCRYPTED_SUFFIX)
           ==> EndsWith(rest, ENCRYPTED_SUFFIX) by {
      if StartsWith(selected, ENCRYPTED_PREFIX) && EndsWith(selected, ENCRYPTED_SUFFIX) {
        AffixesApart(selected);
        assert rest == selected[|ENCRYPTED_PREFIX|..];
        assert rest[|rest| - |ENCRYPTED_SUFFIX|..] == selected[|selected| - |ENCRYPTED_SUFFIX|..];
      }
    }
    RemoveSuffix(rest, ENCRYPTED_SUFFIX)
  }

  /** The prefix `encrypted_` and the suffix `.enc` cannot overlap: a name
      with both is at least as long as the two together. */
  lemma AffixesApart(selected: string)
    requires StartsWith(selected, ENCRYPTED_PREFIX) && EndsWith(selected, ENCRYPTED_SUFFIX)
    ensures |selected| >= |ENCRYPTED_PREFIX| + |ENCRYPTED_SUFFIX|
  {
    // Otherwise the '.' of the suffix would fall inside the prefix.
    var dot := |selected| - |ENCRYPTED_SUFFIX|;
    assert selected[dot] == '.';
    assert forall i :: 0 <= i < |ENCRYPTED_PREFIX| ==> selected[i] == ENCRYPTED_PREFIX[i];
    assert '.' !in ENCRYPTED_PREFIX;
  }

  /** The decryption gate and the output name: a selected file is decrypted
      only if its name ends with `.enc`, into `decrypted_` and the recovered
      name. */
  function DecryptedName(selected: string): (r: Option<string>)
    ensures r.Some? <==> EndsWith(selected, ENCRYPTED_SUFFIX)
    ensures r.Some? ==> StartsWith(r.value, DECRYPTED_PREFIX)
    ensures r.Some? ==> r.value == DECRYPTED_PREFIX + OriginalName(selected)
  {
    if EndsWith(selected, ENCRYPTED_SUFFIX) then Some(DECRYPTED_PREFIX + OriginalName(selected)) else None
  }

  /** For a name with a dot, recovering the name of its container gives the
      name back, and the decrypted copy is `decrypted_` and that name. */
  lemma NameRoundTrip(name: string)
    requires '.' in name
    ensures EncryptedName(name) == ENCRYPTED_PREFIX + name + ENCRYPTED_SUFFIX
    ensures OriginalName(EncryptedName(name)) == name
    ensures DecryptedName(EncryptedName(name)) == Some(DECRYPTED_PREFIX + name)
  {
    SplitAtLast(name, '.');
    var enc := EncryptedName(name);
    assert enc == ENCRYPTED_PREFIX + (name + ENCRYPTED_SUFFIX);
    assert RemovePrefix(enc, ENCRYPTED_PREFIX) == name + ENCRYPTED_SUFFIX;
    var mid := name + ENCRYPTED_SUFFIX;
    assert mid[|mid| - |ENCRYPTED_SUFFIX|..] == ENCRYPTED_SUFFIX;
    assert mid[..|mid| - |ENCRYPTED_SUFFIX|] == name;
  }

  /** For a name without a dot the extension is empty, the container name
      holds "..", and recovery yields the name with a trailing dot: the
      round trip does not give the name back. */
  lemma NameWithoutDot(name: string)
    requires '.' !in name
    ensures EncryptedName(name) == ENCRYPTED_PREFIX + name + ".." + "enc"
    ensures OriginalName(EncryptedName(name)) == name + "."
    ensures OriginalName(EncryptedName(name)) != name
  {
    var enc := EncryptedName(name);
    assert enc == ENCRYPTED_PREFIX + ((name + ".") + ENCRYPTED_SUFFIX);
    assert RemovePrefix(enc, ENCRYPTED_PREFIX) == (name + ".") + ENCRYPTED_SUFFIX;
    var mid := (name + ".") + ENCRYPTED_SUFFIX;
    assert mid[|mid| - |ENCRYPTED_SUFFIX|..] == ENCRYPTED_SUFFIX;
    assert mid[..|mid| - |ENCRYPTED_SUFFIX|] == name + ".";
    assert |name + "."| != |name|;
  }

  // ---------------------------------------------------------------- flows

  /** A Downloads entry as `FileEncryptor` sees it. */
  function Lookup(downloads: map<string, seq<byte>>, name: string): FE.File
  {
    if name in downloads then FE.Present(downloads[name]) else FE.Absent
  }

  /** The Downloads folder after an operation left file `name` as `f`. */
  function Store(downloads: map<string, seq<byte>>, name: string, f: FE.File): (d: map<string, seq<byte>>)
    ensures f == Lookup(downloads, name) ==> d == downloads
    ensures f.Present? ==> d == downloads[name := f.bytes]
  {
    match f
    case Absent => downloads
    case Present(bytes) => downloads[name := bytes]
  }

  /** `encryptFile(uri)` for a picked file `name` with contents `content`:
      the container goes to Downloads under `EncryptedName(name)`. */
  function EncryptPicked(d: Device, aes: Gcm.Aes, iv: seq<byte>, name: string, content: seq<byte>): (r: (Device, bool))
    requires |iv| == Gcm.IV_SIZE
    ensures r.0.prefs == d.prefs
    ensures r.1 <==> FE.HasUsableKey(d.prefs)
    ensures r.1 ==> r.0.downloads == d.downloads[EncryptedName(name) := iv + Gcm.Seal(aes, FE.ActiveKey(d.prefs).value, iv, content)]
    ensures !r.1 ==> r.0 == d
  {
    var target := EncryptedName(name);
    var outcome := FE.EncryptFile(d.prefs, aes, iv, FE.Present(content), Lookup(d.downloads, target));
    (d.(downloads := Store(d.downloads, target, outcome.output)), outcome.success)
  }

  /** What picking a file for decryption does. */
  datatype DecryptAttempt = NotEncrypted | Attempted(success: bool)

  /** The decryption launcher for a picked file `selected` with contents
      `content`: a name without `.enc` is refused and nothing is decrypted;
      otherwise the plaintext goes to Downloads under `DecryptedName`. */
  function DecryptPicked(d: Device, aes: Gcm.Aes, selected: string, content: seq<byte>): (r: (Device, DecryptAttempt))
    ensures r.0.prefs == d.prefs
    ensures r.1 == NotEncrypted <==> !EndsWith(selected, ENCRYPTED_SUFFIX)
    ensures r.1 == NotEncrypted ==> r.0 == d
    ensures r.1.Attempted? ==>
              (r.1.success <==> FE.HasUsableKey(d.prefs)
                                && Gcm.Open(aes, FE.ActiveKey(d.prefs).value, FE.ReadIv(content), FE.Body(content)).Some?)
    ensures r.1 == Attempted(true) ==>
              r.0.downloads == d.downloads[DecryptedName(selected).value :=
                Gcm.Open(aes, FE.ActiveKey(d.prefs).value, FE.ReadIv(content), FE.Body(content)).value]
    ensures r.1 == Attempted(false) && !FE.HasUsableKey(d.prefs) ==> r.0 == d
  {
    match DecryptedName(selected)
    case None => (d, NotEncrypted)
    case Some(target) =>
      var outcome := FE.DecryptFile(d.prefs, aes, FE.Present(content), Lookup(d.downloads, target));
      (d.(downloads := Store(d.downloads, target, outcome.output)), Attempted(outcome.success))
  }

  /** Encrypting a file and then picking its container for decryption puts
      the original contents in Downloads under `decrypted_` and the name. */
  lemma EncryptThenDecrypt(d: Device, aes: Gcm.Aes, iv: seq<byte>, name: string, content: seq<byte>)
    requires |iv| == Gcm.IV_SIZE && FE.HasUsableKey(d.prefs) && '.' in name
    ensures var (d1, ok) := EncryptPicked(d, aes, iv, name, content);
            var container := d1.downloads[EncryptedName(name)];
            var (d2, attempt) := DecryptPicked(d1, aes, EncryptedName(name), container);
            && ok
            && attempt == Attempted(true)
            && DECRYPTED_PREFIX + name in d2.downloads
            && d2.downloads[DECRYPTED_PREFIX + name] == content
  {
    var key := FE.ActiveKey(d.prefs).value;
    var (d1, ok) := EncryptPicked(d, aes, iv, name, content);
    var enc := EncryptedName(name);
    var container := d1.downloads[enc];
    assert container == iv + Gcm.Seal(aes, key, iv, content);
    assert container[..Gcm.IV_SIZE] == iv;
    assert FE.ReadIv(container) == iv;
    assert FE.Body(container) == Gcm.Seal(aes, key, iv, content);
    Gcm.OpenSeal(aes, key, iv, content);
    NameRoundTrip(name);
    var (d2, attempt) := DecryptPicked(d1, aes, enc, container);
    assert attempt == Attempted(true);
    assert d2.downloads == d1.downloads[DECRYPTED_PREFIX + name := content];
  }

  // ---------------------------------------------------------------- key handlers

  /** What a handler leaves: the key store, the toast shown, and the
      clipboard text if it set one. */
  datatype Screen = Screen(prefs: Prefs, toast: string, clipboard: Option<string>)

  /** `generateNewKey()` */
  function GenerateNewKey(prefs: Prefs, random: seq<byte>): (s: Screen)
    requires |random| == KEY_SIZE / 8
    ensures LoadKey(s.prefs) == Ok(Some(KeyManager.GenerateNewKey(random)))
    ensures s.toast == "New key generated and saved!" && s.clipboard == None
  {
    Screen(KeyActions.Generate(prefs, random), "New key generated and saved!", None)
  }

  /** `setExistingKey(keyString)`: saved only when decoding and key
      construction both succeed; otherwise the store is unchanged. */
  function SetExistingKey(prefs: Prefs, keyString: string): (s: Screen)
    ensures s.toast == "Key successfully set!" <==> KeyActions.ImportKey(prefs, keyString).Imported?
    ensures s.toast == "Key successfully set!" ==> LoadKey(s.prefs) == Ok(Some(SecretKey(Base64Decoded(keyString))))
    ensures s.toast != "Key successfully set!" ==> s.toast == "Invalid key format" && s.prefs == prefs
  {
    match KeyActions.ImportKey(prefs, keyString)
    case Imported(p) => Screen(p, "Key successfully set!", None)
    case Rejected => Screen(prefs, "Invalid key format", None)
  }

  /** The bytes a key string decodes to (empty when it does not decode). */
  function Base64Decoded(text: string): seq<byte>
  {
    match Base64.Decode(text)
    case None => []
    case Some(b) => b
  }

  /** `exportCurrentKey()`: the active key's Base64 text is put on the
      clipboard; without a key, "No key found!". */
  function ExportCurrentKey(prefs: Prefs): (r: Result<Screen, KeyError>)
    ensures r.Ok? <==> LoadKey(prefs).Ok?
    ensures r.Ok? ==> r.value.prefs == prefs
    ensures r.Ok? ==> (r.value.clipboard.Some? <==> KEY_NAME in prefs)
    ensures r.Ok? && r.value.clipboard.Some?
            ==> Base64.Decode(r.value.clipboard.value) == Some(LoadKey(prefs).value.value.encoded)
                && r.value.toast == "Key copied to clipboard!"
    ensures r.Ok? && r.value.clipboard.None? ==> r.value.toast == "No key found!"
  {
    match KeyActions.ExportKey(prefs)
    case Err(e) => Err(e)
    case Ok(None) => Ok(Screen(prefs, "No key found!", None))
    case Ok(Some(text)) => Ok(Screen(prefs, "Key copied to clipboard!", Some(text)))
  }

  // ---------------------------------------------------------------- dummy file

  /** The characters `generateRandomString` draws from. */
  const CHARS: string := "ABCDEFGHIJKLMNOPQRSTUVWXYZabcdefghijklmnopqrstuvwxyz0123456789"

  /** `generateRandomString(length)`: one `Random.nextInt(62)` draw per
      character, the draws given as `draws`. A length below one gives the
      empty string. */
  method GenerateRandomString(length: int, draws: seq<int>) returns (s: string)
    requires |draws| >= length
    requires forall i :: 0 <= i < |draws| ==> 0 <= draws[i] < |CHARS|
    ensures |s| == if length < 0 then 0 else length
    ensures forall i :: 0 <= i < |s| ==> s[i] in CHARS
    ensures forall i :: 0 <= i < |s| ==> s[i] == CHARS[draws[i]]
  {
    var n := if length < 0 then 0 else length;
    s := "";
    for i := 0 to n
      invariant |s| == i
      invariant forall j :: 0 <= j < i ==> s[j] == CHARS[draws[j]]
    {
      s := s + [CHARS[draws[i]]];
    }
  }

  /** Size of one write of the dummy file, and the number of writes. */
  const DUMMY_BLOCK: nat := 1024
  const DUMMY_WRITES: nat := 5120

  /** The contents `createDummyFile` writes: 5120 writes of the UTF-8 bytes
      of 1024 letters 'A', 5 MiB of the byte 0x41 in all. */
  method DummyContent() returns (data: seq<byte>)
    ensures |data| == 5 * 1024 * 1024
    ensures forall i :: 0 <= i < |data| ==> data[i] == 'A' as int as byte
  {
    var block: seq<byte> := seq(DUMMY_BLOCK, _ => 'A' as int as byte);
    data := [];
    for k := 0 to DUMMY_WRITES
      invariant |data| == k * DUMMY_BLOCK
      invariant forall i :: 0 <= i < |data| ==> data[i] == 'A' as int as byte
    {
      data := data + block;
    }
  }

  /** `createDummyFile()`: a file with a random seven-character name and the
      `.txt` extension is written to Downloads. */
  method CreateDummyFile(d: Device, draws: seq<int>) returns (d': Device, name: string)
    requires |draws| >= 7
    requires forall i :: 0 <= i < |draws| ==> 0 <= draws[i] < |CHARS|
    ensures |name| == 11 && EndsWith(name, ".txt")
    ensures forall i :: 0 <= i < 7 ==> name[i] in CHARS
    ensures d'.prefs == d.prefs && d'.downloads.Keys == d.downloads.Keys + {name}
    ensures |d'.downloads[name]| == 5 * 1024 * 1024
    ensures forall i :: 0 <= i < |d'.downloads[name]| ==> d'.downloads[name][i] == 'A' as int as byte
    ensures forall other :: other in d.downloads && other != name ==> d'.downloads[other] == d.downloads[other]
  {
    var randomName := GenerateRandomString(7, draws);
    name := randomName + ".txt";
    assert name[|name| - 4..] == ".txt";
    var data := DummyContent();
    d' := d.(downloads := d.downloads[name := data]);
  }
}
