/** The key-store transitions behind the three key-management buttons. Both
    `MainActivity` and `KeyManagementActivity` run these same steps; only the
    messages they show afterwards differ. */
module KeyActions {
  import opened Wrappers
  import opened Bytes
  import Base64
  import opened KeyManager
  import FileEncryptor
  import Gcm

  /** The result of importing a typed-in key: the new store, or rejection
      ("Invalid key format"), in which case the handler saves nothing. */
  datatype Import = Imported(prefs: Prefs) | Rejected

  /** "Generate New Key": a fresh 256-bit key becomes the active key,
      replacing any earlier one. */
  function Generate(prefs: Prefs, random: seq<byte>): (p: Prefs)
    requires |random| == KEY_SIZE / 8
    ensures LoadKey(p) == Ok(Some(GenerateNewKey(random)))
    ensures |LoadKey(p).value.value.encoded| == 32
    ensures Healthy(p)
  {
    SaveThenLoad(prefs, GenerateNewKey(random));
    SaveKey(prefs, GenerateNewKey(random))
  }

  /** "Set Existing Key": the text is Base64-decoded and wrapped in a
      `SecretKeySpec`; only when both succeed is the key saved. There is no
      check of the key's length. */
  function ImportKey(prefs: Prefs, text: string): (r: Import)
    ensures r.Imported? <==> Base64.Decode(text).Some? && |Base64.Decode(text).value| > 0
    ensures r.Imported? ==> LoadKey(r.prefs) == Ok(Some(SecretKey(Base64.Decode(text).value)))
    ensures r.Imported? ==> Healthy(r.prefs)
  {
    match Base64.Decode(text)
    case None => Rejected
    case Some(bytes) =>
      match KeySpec(bytes)
      case Err(_) => Rejected
      case Ok(key) =>
        SaveThenLoad(prefs, key);
        Imported(SaveKey(prefs, key))
  }

  /** The store after the handler: the imported one, or the old one. */
  function AfterImport(prefs: Prefs, text: string): (p: Prefs)
    ensures ImportKey(prefs, text).Rejected? ==> p == prefs
    ensures Healthy(prefs) ==> Healthy(p)
  {
    match ImportKey(prefs, text)
    case Imported(p) => p
    case Rejected => prefs
  }

  /** "Export Current Key": the Base64 text of the active key's bytes, or
      nothing when there is no key. A stored entry that cannot be loaded
      makes the handler throw. */
  function ExportKey(prefs: Prefs): (r: Result<Option<string>, KeyError>)
    ensures r.Ok? <==> LoadKey(prefs).Ok?
    ensures r == Ok(None) <==> KEY_NAME !in prefs
    ensures r.Ok? && r.value.Some? ==> Base64.Decode(r.value.value) == Some(LoadKey(prefs).value.value.encoded)
    ensures r.Ok? && r.value.Some? ==> |r.value.value| > 0 && r.value.value[|r.value.value| - 1] == '\n'
  {
    match LoadKey(prefs)
    case Err(e) => Err(e)
    case Ok(None) => Ok(None)
    case Ok(Some(key)) =>
      Base64.DecodeEncode(key.encoded);
      Ok(Some(Base64.Encode(key.encoded)))
  }

  /** Importing a key and then exporting it gives text that decodes to the
      imported bytes. */
  lemma ImportThenExport(prefs: Prefs, text: string)
    requires ImportKey(prefs, text).Imported?
    ensures ExportKey(ImportKey(prefs, text).prefs).Ok?
    ensures ExportKey(ImportKey(prefs, text).prefs).value.Some?
    ensures Base64.Decode(ExportKey(ImportKey(prefs, text).prefs).value.value) == Base64.Decode(text)
  {
  }

  /** Every handler keeps the store healthy, so `loadKey` never throws
      afterwards. */
  lemma HandlersKeepHealthy(prefs: Prefs, random: seq<byte>, text: string)
    requires Healthy(prefs) && |random| == KEY_SIZE / 8
    ensures Healthy(Generate(prefs, random))
    ensures Healthy(AfterImport(prefs, text))
    ensures ExportKey(prefs).Ok?
  {
    HealthyLoads(prefs);
  }

  /** Since import checks no length, a decodable key that AES cannot use is
      saved all the same, and from then on encryption fails without
      touching its output file. */
  lemma ImportedBadLengthKey(prefs: Prefs, text: string, aes: Gcm.Aes, iv: seq<byte>,
                             input: FileEncryptor.File, output: FileEncryptor.File)
    requires |iv| == Gcm.IV_SIZE
    requires Base64.Decode(text).Some? && |Base64.Decode(text).value| > 0
    requires !Gcm.ValidKeyLength(|Base64.Decode(text).value|)
    ensures ImportKey(prefs, text).Imported?
    ensures FileEncryptor.EncryptFile(ImportKey(prefs, text).prefs, aes, iv, input, output)
         == FileEncryptor.Outcome(false, output)
  {
  }
}
