/** `KeyManager`: the app's single active AES key, kept as Base64 text under
    one entry of the `SecretKeeperPrefs` shared preferences. */
module KeyManager {
  import opened Wrappers
  import opened Bytes
  import Base64
  import Gcm

  /** The one preference entry the key manager reads and writes. */
  const KEY_NAME: string := "ActiveAESKey"
  /** Key size in bits passed to `KeyGenerator.init`. */
  const KEY_SIZE: nat := 256

  type KeyBytes = s: seq<byte> | |s| > 0 witness [0]

  /** A `SecretKeySpec(bytes, "AES")`: raw key bytes, never empty. */
  datatype SecretKey = SecretKey(encoded: KeyBytes)

  /** Why reading a key can throw: the stored text is not Base64, or it
      decodes to no bytes at all, which `SecretKeySpec` refuses. */
  datatype KeyError = BadBase64 | EmptyKey

  /** The contents of the `SecretKeeperPrefs` preferences file. */
  type Prefs = map<string, string>

  /** `SecretKeySpec(bytes, "AES")`: any non-empty byte array is accepted;
      the constructor checks no AES key length. */
  function KeySpec(bytes: seq<byte>): (r: Result<SecretKey, KeyError>)
    ensures r.Ok? <==> |bytes| > 0
    ensures r.Ok? ==> r.value.encoded == bytes
    ensures r.Err? ==> r.error == EmptyKey
  {
    if |bytes| == 0 then Err(EmptyKey) else Ok(SecretKey(bytes))
  }

  /** `generateNewKey`: a 256-bit AES key. The key generator's random output
      is the parameter `random`. */
  function GenerateNewKey(random: seq<byte>): (k: SecretKey)
    requires |random| == KEY_SIZE / 8
    ensures |k.encoded| == 32
    ensures Gcm.ValidKeyLength(|k.encoded|)
  {
    SecretKey(random)
  }

  /** `saveKey`: the key's Base64 text replaces whatever the entry held; no
      other preference is written. */
  function SaveKey(prefs: Prefs, key: SecretKey): (p: Prefs)
    ensures p.Keys == prefs.Keys + {KEY_NAME}
    ensures p[KEY_NAME] == Base64.Encode(key.encoded)
    ensures forall name :: name in prefs && name != KEY_NAME ==> p[name] == prefs[name]
  {
    prefs[KEY_NAME := Base64.Encode(key.encoded)]
  }

  /** `loadKey`: no entry gives `null`; an entry is decoded and wrapped as an
      AES key whatever its length. Undecodable text or an empty decoding makes
      the call throw. */
  function LoadKey(prefs: Prefs): (r: Result<Option<SecretKey>, KeyError>)
    ensures r == Ok(None) <==> KEY_NAME !in prefs
    ensures r.Ok? && r.value.Some? ==> Base64.Decode(prefs[KEY_NAME]) == Some(r.value.value.encoded)
    ensures KEY_NAME in prefs && Base64.Decode(prefs[KEY_NAME]).Some? && |Base64.Decode(prefs[KEY_NAME]).value| > 0
            ==> r.Ok? && r.value.Some?
    ensures r.Err? ==> KEY_NAME in prefs
  {
    if KEY_NAME !in prefs then Ok(None)
    else
      match Base64.Decode(prefs[KEY_NAME])
      case None => Err(BadBase64)
      case Some(bytes) =>
        match KeySpec(bytes)
        case Err(e) => Err(e)
        case Ok(key) => Ok(Some(key))
  }

  /** `clearKey`: the entry is removed; nothing else changes. */
  function ClearKey(prefs: Prefs): (p: Prefs)
    ensures KEY_NAME !in p
    ensures p.Keys == prefs.Keys - {KEY_NAME}
    ensures forall name :: name in p ==> p[name] == prefs[name]
  {
    prefs - {KEY_NAME}
  }

  /** The key entry, when there is one, holds the Base64 text of a non-empty
      byte string, so `loadKey` cannot throw. */
  ghost predicate Healthy(prefs: Prefs)
  {
    KEY_NAME in prefs ==>
      Base64.Decode(prefs[KEY_NAME]).Some? && |Base64.Decode(prefs[KEY_NAME]).value| > 0
  }

  /** Loading after saving gives back a key with the saved bytes. */
  lemma SaveThenLoad(prefs: Prefs, key: SecretKey)
    ensures LoadKey(SaveKey(prefs, key)) == Ok(Some(key))
    ensures Healthy(SaveKey(prefs, key))
  {
    Base64.DecodeEncode(key.encoded);
  }

  /** After `clearKey`, `loadKey` returns `null`. */
  lemma ClearThenLoad(prefs: Prefs)
    ensures LoadKey(ClearKey(prefs)) == Ok(None)
    ensures Healthy(ClearKey(prefs))
  {
  }

  /** There is one slot: a second save overwrites the first, and loading
      returns the key saved last. */
  lemma LastSaveWins(prefs: Prefs, first: SecretKey, second: SecretKey)
    ensures SaveKey(SaveKey(prefs, first), second) == SaveKey(prefs, second)
    ensures LoadKey(SaveKey(SaveKey(prefs, first), second)) == Ok(Some(second))
  {
    SaveThenLoad(prefs, second);
  }

  /** In a healthy store `loadKey` never throws. */
  lemma HealthyLoads(prefs: Prefs)
    requires Healthy(prefs)
    ensures LoadKey(prefs).Ok?
  {
  }
}
