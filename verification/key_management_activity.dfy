/** `KeyManagementActivity`: the same three key actions as `MainActivity`,
    except that exporting shows the key in a toast instead of copying it to
    the clipboard. */
module KeyManagementActivity {
  import opened Wrappers
  import opened Bytes
  import opened KeyManager
  import KeyActions
  import Base64

  const CURRENT_KEY_PREFIX: string := "Current key: "

  /** A toast that shows a key. */
  predicate ShowsKey(toast: string)
  {
    |toast| >= |CURRENT_KEY_PREFIX| && toast[..|CURRENT_KEY_PREFIX|] == CURRENT_KEY_PREFIX
  }

  /** What a handler leaves: the key store and the toast shown. */
  datatype Screen = Screen(prefs: Prefs, toast: string)

  /** `generateNewKey()` */
  function GenerateNewKey(prefs: Prefs, random: seq<byte>): (s: Screen)
    requires |random| == KEY_SIZE / 8
    ensures LoadKey(s.prefs) == Ok(Some(KeyManager.GenerateNewKey(random)))
    ensures forall name :: name in prefs && name != KEY_NAME ==> name in s.prefs && s.prefs[name] == prefs[name]
    ensures s.toast == "New key generated and saved!"
  {
    Screen(KeyActions.Generate(prefs, random), "New key generated and saved!")
  }

  /** `setExistingKey(keyString)`: a string that does not decode, or decodes
      to no bytes, leaves the store as it was. */
  function SetExistingKey(prefs: Prefs, keyString: string): (s: Screen)
    ensures s.toast == "Key successfully set!" || s.toast == "Invalid key format"
    ensures s.toast == "Key successfully set!"
            <==> Base64.Decode(keyString).Some? && |Base64.Decode(keyString).value| > 0
    ensures s.toast == "Key successfully set!"
            ==> LoadKey(s.prefs).Ok? && LoadKey(s.prefs).value.Some?
                && Some(LoadKey(s.prefs).value.value.encoded) == Base64.Decode(keyString)
    ensures s.toast == "Invalid key format" ==> s.prefs == prefs
  {
    match KeyActions.ImportKey(prefs, keyString)
    case Imported(p) => Screen(p, "Key successfully set!")
    case Rejected => Screen(prefs, "Invalid key format")
  }

  /** `exportCurrentKey()`: the toast carries the key's Base64 text after
      "Current key: "; an unreadable stored key is an uncaught error. */
  function ExportCurrentKey(prefs: Prefs): (r: Result<Screen, KeyError>)
    ensures r.Ok? <==> LoadKey(prefs).Ok?
    ensures r.Ok? ==> r.value.prefs == prefs
    ensures r.Ok? && KEY_NAME !in prefs ==> r.value.toast == "No key found!"
    ensures r.Ok? && KEY_NAME in prefs
            ==> ShowsKey(r.value.toast)
                && Base64.Decode(r.value.toast[|CURRENT_KEY_PREFIX|..]) == Some(LoadKey(prefs).value.value.encoded)
  {
    match KeyActions.ExportKey(prefs)
    case Err(e) => Err(e)
    case Ok(None) => Ok(Screen(prefs, "No key found!"))
    case Ok(Some(text)) => Ok(Screen(prefs, CURRENT_KEY_PREFIX + text))
  }

  /** Setting a key and then exporting it shows a toast whose key text
      decodes to the bytes that were set. */
  lemma SetThenExport(prefs: Prefs, keyString: string)
    requires SetExistingKey(prefs, keyString).toast == "Key successfully set!"
    ensures var shown := ExportCurrentKey(SetExistingKey(prefs, keyString).prefs);
            && shown.Ok?
            && ShowsKey(shown.value.toast)
            && Base64.Decode(shown.value.toast[|CURRENT_KEY_PREFIX|..]) == Base64.Decode(keyString)
  {
    var p := SetExistingKey(prefs, keyString).prefs;
    assert KEY_NAME in p;
  }
}
