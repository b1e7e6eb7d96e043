# SecretKeeper core in Dafny

SecretKeeper is an Android app that encrypts files with AES-256-GCM under a
single active key. It writes the containers to the Downloads folder and
decrypts them back. This project models the app's core and proves
properties of the model:

- **Key store** (`KeyManager`). Generating the 256-bit key, saving it as
  Base64 text under the `ActiveAESKey` preference, loading it back, and
  clearing it.
- **Encrypted file container** (`FileEncryptor`). A 12-byte IV followed by
  the GCM ciphertext and its 16-byte tag. Encryption feeds the file to the
  cipher in 8192-byte reads. In decryption, `CipherInputStream` decides how
  much of the file it reads at a time, not the app. The model feeds both in
  8192-byte reads and proves that the result is the same for any chunking
  (`FileEncryptor.AnyChunking`).
- **`MainActivity`**. The start-up key bootstrap, and the names given to
  encrypted and decrypted files. Also the `.enc` gate before decryption,
  the key generate/import/export handlers, and the random name and
  contents of the dummy test file.
- **`KeyManagementActivity`**. The same key handlers; export shows the key
  in a toast.

The platform pieces the core relies on are modelled in their own modules:

- `Base64`: `android.util.Base64` with the `DEFAULT` flag. The
  RFC 4648 section 4 alphabet with padding, lines of 76 characters each
  ended by a newline, and Android's lenient decoder, which skips characters
  outside the alphabet.
- `Gcm`: the `AES/GCM/NoPadding` cipher as NIST SP 800-38D structures it,
  a counter-mode keystream XORed with the data and then a tag over the
  ciphertext.
- `Streams`: `copyTo` with a buffer size.
- `KotlinText`: the Kotlin string functions used for file names.

The AES block function and GHASH themselves are parameters. An `Aes` value
carries a keystream function and a tag function. Every property below holds
for every choice of them. Correctness ("what was sealed opens") and
integrity ("only what carries the right tag opens") are therefore theorems
about the GCM construction, not assumptions.

The model follows the code as written, including these behaviours a reader
might not expect:

- `decryptFile` has no check for a file shorter than the IV. `read(iv)`
  fills what it can, and the rest of the IV stays zero (`FileEncryptor.ReadIv`).
  A container shorter than IV plus tag simply fails its tag check
  (`FileEncryptor.TruncatedInput`).
- A failed decryption does not delete its output. The output file is
  truncated first. A buffering provider leaves it empty. A provider that
  releases plaintext before the tag check leaves unverified plaintext in
  it (`FileEncryptor.FailedDecryptLeavesOutput`).
- Importing a key checks no length. Any Base64 text that decodes to at least
  one byte is saved (`KeyActions.ImportKey`). A key of a length AES refuses
  then makes every later encryption fail (`KeyActions.ImportedBadLengthKey`).
- `encryptFile` creates the output file, and writes the IV into it, before
  it opens the input. So an unreadable input leaves a 12-byte file behind
  (`FileEncryptor.EncryptFile`).
- A file name without a dot is encrypted as `encrypted_<name>..enc`. Its
  decrypted copy is `decrypted_<name>.`, with a trailing dot
  (`MainActivity.NameWithoutDot`).

## Model

| member | source | states |
|---|---|---|
| Base64.Wrap | app/src/main/java/com/example/secretkeeper/KeyManager.kt:24 | empty text stays empty; otherwise one newline is added per started 76-character line, and the text ends with a newline |
| Base64.Encode | app/src/main/java/com/example/secretkeeper/KeyManager.kt:24 | the Base64 text of a key is empty exactly when the key has no bytes, and otherwise ends with a newline |
| Base64.EncodeShortLength | app/src/main/java/com/example/secretkeeper/KeyManager.kt:24 | up to 57 bytes encode to one line: 4 characters per started 3-byte group plus the closing newline |
| Base64.ClassifyCharOf | app/src/main/java/com/example/secretkeeper/KeyManager.kt:32 | the decoder maps every alphabet character back to the 6-bit value it encodes |
| Base64.StepRules | app/src/main/java/com/example/secretkeeper/KeyManager.kt:32 | the decoder skips characters outside the alphabet, only appends output, rejects a pad before a group has two characters, and rejects data after padding |
| Base64.RunExtends | app/src/main/java/com/example/secretkeeper/KeyManager.kt:32 | decoding a whole text only appends to the bytes already decoded |
| Base64.RunSkipped | app/src/main/java/com/example/secretkeeper/KeyManager.kt:32 | text made only of skipped characters leaves the decoder as it was |
| Base64.Finish | app/src/main/java/com/example/secretkeeper/KeyManager.kt:32 | at end of input, decoding fails exactly when one character is left over or a padding is half-finished |
| Base64.FinishExtends | app/src/main/java/com/example/secretkeeper/KeyManager.kt:32 | finishing keeps the bytes already decoded and adds at most two |
| Base64.Decode | app/src/main/java/com/example/secretkeeper/KeyManager.kt:32 | text starting with a pad character is rejected; DecodeEncode makes it the inverse of Encode |
| Base64.DecodeBlank | app/src/main/java/com/example/secretkeeper/KeyManager.kt:32 | text of line breaks and other skipped characters decodes to no bytes |
| Base64.RunWrap | app/src/main/java/com/example/secretkeeper/KeyManager.kt:32 | the line breaks encodeToString inserts are invisible to decode |
| Base64.RunUnwrapped | app/src/main/java/com/example/secretkeeper/KeyManager.kt:32 | decoding the unwrapped encoding of any bytes appends exactly those bytes to the decoder's output |
| Base64.DecodeEncode | app/src/main/java/com/example/secretkeeper/KeyManager.kt:24-32 | decoding what the key was saved as gives back exactly the key bytes |
| Gcm.Ctr | app/src/main/java/com/example/secretkeeper/FileEncryptor.kt:32-33 | the output is as long as the input, each byte XORed with the keystream byte at its stream position; CtrTwice and CtrSplit give its inverse and its chunking law |
| Gcm.Open | app/src/main/java/com/example/secretkeeper/FileEncryptor.kt:63-65 | an input shorter than a tag never opens, and what opens is 16 bytes shorter than its input; OpenSeal and OpenAuthentic tie it to Seal |
| Gcm.Init | app/src/main/java/com/example/secretkeeper/FileEncryptor.kt:25-26 | cipher.init succeeds exactly for 16-, 24- and 32-byte keys, and the new cipher has consumed nothing |
| Gcm.CtrTwice | app/src/main/java/com/example/secretkeeper/FileEncryptor.kt:56-58 | decrypting with the encryption keystream at the same key and IV undoes it |
| Gcm.CtrSplit | app/src/main/java/com/example/secretkeeper/FileEncryptor.kt:32-33 | transforming a stream in pieces gives the same bytes as transforming it whole |
| Gcm.Seal | app/src/main/java/com/example/secretkeeper/FileEncryptor.kt:25-36 | the sealed output is the plaintext length plus the 16-byte tag |
| Gcm.OpenSeal | app/src/main/java/com/example/secretkeeper/FileEncryptor.kt:56-65 | opening a sealing with the same key and IV yields the sealed plaintext |
| Gcm.OpenAuthentic | app/src/main/java/com/example/secretkeeper/FileEncryptor.kt:56-65 | whatever opens is the sealing of the plaintext it opens to |
| Gcm.OpenSucceedsIff | app/src/main/java/com/example/secretkeeper/FileEncryptor.kt:56-65 | opening succeeds exactly when the input holds a tag and the last 16 bytes are the tag of the rest |
| Gcm.Update | app/src/main/java/com/example/secretkeeper/FileEncryptor.kt:32-33 | update absorbs the chunk and its output extends what the cipher has emitted |
| Gcm.UpdateAll | app/src/main/java/com/example/secretkeeper/FileEncryptor.kt:63-64 | feeding chunks in order absorbs their concatenation, and the outputs concatenate to everything emitted |
| Gcm.DoFinal | app/src/main/java/com/example/secretkeeper/FileEncryptor.kt:63-65 | encrypting, emitted plus final output is the sealing of all input; decrypting, doFinal succeeds exactly when the tag verifies, and then all output is the opened plaintext |
| Streams.Chunks | app/src/main/java/com/example/secretkeeper/FileEncryptor.kt:33 | copyTo reads are non-empty, at most BUFFER_SIZE, all full but the last, and concatenate to the file |
| KeyManager.KeySpec | app/src/main/java/com/example/secretkeeper/KeyManager.kt:33 | SecretKeySpec accepts exactly the non-empty byte arrays and keeps them as the key bytes; an empty one is refused |
| KeyManager.GenerateNewKey | app/src/main/java/com/example/secretkeeper/KeyManager.kt:15-19 | a generated key is 32 bytes, a length AES accepts |
| KeyManager.SaveKey | app/src/main/java/com/example/secretkeeper/KeyManager.kt:22-26 | the ActiveAESKey entry becomes the Base64 text of the key bytes and no other entry changes |
| KeyManager.LoadKey | app/src/main/java/com/example/secretkeeper/KeyManager.kt:29-34 | null exactly when there is no entry; a loaded key's bytes are the entry's decoding; a decodable non-empty entry always loads; an error needs an entry |
| KeyManager.ClearKey | app/src/main/java/com/example/secretkeeper/KeyManager.kt:37-40 | the entry is removed and every other entry is kept |
| KeyManager.SaveThenLoad | app/src/test/java/com/example/secretkeeper/KeyManagerTest.kt:42-67 | loading after saving returns a key with the saved bytes |
| KeyManager.ClearThenLoad | app/src/test/java/com/example/secretkeeper/KeyManagerTest.kt:69-74 | once the entry is gone loadKey returns null |
| KeyManager.LastSaveWins | app/src/main/java/com/example/secretkeeper/KeyManager.kt:22-26 | a second save overwrites the first and loading returns the key saved last |
| FileEncryptor.ActiveKey | app/src/main/java/com/example/secretkeeper/FileEncryptor.kt:22-23 | the encryptor has a key exactly when loadKey returns one, and uses that key's bytes |
| FileEncryptor.Pump | app/src/main/java/com/example/secretkeeper/FileEncryptor.kt:32-34 | streaming a file through the cipher in BUFFER_SIZE reads gives the same output and final result as feeding it whole |
| FileEncryptor.AnyChunking | app/src/main/java/com/example/secretkeeper/FileEncryptor.kt:63-64 | feeding the file to the cipher in any chunks gives the same output and final result as the BUFFER_SIZE reads |
| FileEncryptor.EncryptFile | app/src/main/java/com/example/secretkeeper/FileEncryptor.kt:20-45 | success exactly with a usable key and a readable input; no key leaves the output untouched; an unreadable input leaves just the IV; success writes IV then sealed contents |
| FileEncryptor.ReadIv | app/src/main/java/com/example/secretkeeper/FileEncryptor.kt:53-54 | the IV is the first 12 bytes, zero-filled when the file is shorter |
| FileEncryptor.IvThenBody | app/src/main/java/com/example/secretkeeper/FileEncryptor.kt:53-63 | a file of at least 12 bytes is its IV followed by the bytes the cipher stream reads; a shorter file leaves nothing to read |
| FileEncryptor.UnverifiedIsCiphertext | app/src/main/java/com/example/secretkeeper/FileEncryptor.kt:63-65 | the plaintext released without a tag check is as long as the ciphertext between IV and tag, and re-applying the keystream gives that ciphertext back |
| FileEncryptor.DecryptFile | app/src/main/java/com/example/secretkeeper/FileEncryptor.kt:47-76 | success exactly with a usable key, a readable input and a verifying tag; success writes the opened plaintext; a failed attempt leaves a prefix of the unverified plaintext; no key leaves the output untouched |
| FileEncryptor.ReleasedIsUnverified | app/src/main/java/com/example/secretkeeper/FileEncryptor.kt:63-65 | what a provider releases before the tag check is a prefix of the unverified decryption |
| FileEncryptor.ContainerLayout | app/src/main/java/com/example/secretkeeper/FileEncryptor.kt:28-34 | the container is the IV, then ciphertext, then tag, 28 bytes longer than the file |
| FileEncryptor.RoundTrip | app/src/main/java/com/example/secretkeeper/FileEncryptor.kt:20-76 | decrypting what encryptFile wrote, under the same key, succeeds and restores the contents |
| FileEncryptor.FreshNonces | app/src/main/java/com/example/secretkeeper/FileEncryptor.kt:25-30 | different IVs give different containers that decrypt to the same contents |
| FileEncryptor.SuccessIsAuthentic | app/src/main/java/com/example/secretkeeper/FileEncryptor.kt:56-66 | a successful decryption's input is exactly what encryptFile writes for the output contents under the active key |
| FileEncryptor.DecryptSucceedsIff | app/src/main/java/com/example/secretkeeper/FileEncryptor.kt:47-76 | with a key, decryption succeeds exactly when the file is long enough and its tag verifies |
| FileEncryptor.TamperedTagFails | app/src/main/java/com/example/secretkeeper/FileEncryptor.kt:63-65 | changing a byte of the tag makes decryption fail |
| FileEncryptor.TamperedCiphertext | app/src/main/java/com/example/secretkeeper/FileEncryptor.kt:63-65 | a changed ciphertext byte decrypts only if the tag function collides on it |
| FileEncryptor.WrongKey | app/src/main/java/com/example/secretkeeper/FileEncryptor.kt:49-58 | under another key decryption succeeds only if the two keys' tags collide |
| FileEncryptor.TruncatedInput | app/src/main/java/com/example/secretkeeper/FileEncryptor.kt:52-58 | a file shorter than IV plus tag fails and leaves an empty output |
| FileEncryptor.FailedDecryptLeavesOutput | app/src/main/java/com/example/secretkeeper/FileEncryptor.kt:60-75 | a failed decryption is not cleaned up: the output is empty under a buffering provider and holds the unverified plaintext under the idealised streaming one |
| FileEncryptor.KeyReadOnce | app/src/main/java/com/example/secretkeeper/FileEncryptor.kt:22-23 | both operations depend on the key store only through loadKey's result |
| KotlinText.StartsWith | app/src/main/java/com/example/secretkeeper/MainActivity.kt:152 | a string starts with a prefix exactly when it is that prefix followed by the rest |
| KotlinText.EndsWith | app/src/main/java/com/example/secretkeeper/MainActivity.kt:152 | a string ends with a suffix exactly when it is the rest followed by that suffix |
| KotlinText.SubstringBeforeLast | app/src/main/java/com/example/secretkeeper/MainActivity.kt:198 | without the delimiter the string is returned whole; with it, the result is the text before the last delimiter, and no delimiter follows it |
| KotlinText.RemovePrefix | app/src/main/java/com/example/secretkeeper/MainActivity.kt:160 | removePrefix strips the prefix when present and otherwise returns the string unchanged |
| KotlinText.RemoveSuffix | app/src/main/java/com/example/secretkeeper/MainActivity.kt:161 | removeSuffix strips the suffix when present and otherwise returns the string unchanged |
| KotlinText.LastIndexOf | app/src/main/java/com/example/secretkeeper/MainActivity.kt:198-199 | the result is the position of the last occurrence, or -1 when there is none |
| KotlinText.SubstringAfterLast | app/src/main/java/com/example/secretkeeper/MainActivity.kt:199 | the extension holds no dot, and is empty for a name without one |
| KotlinText.SplitAtLast | app/src/main/java/com/example/secretkeeper/MainActivity.kt:198-199 | name without extension, dot and extension put back together give the name |
| KeyActions.Generate | app/src/main/java/com/example/secretkeeper/MainActivity.kt:327-331 | after generate-and-save, loadKey returns the new 32-byte key |
| KeyActions.ImportKey | app/src/main/java/com/example/secretkeeper/MainActivity.kt:333-342 | a key string is accepted exactly when it decodes to at least one byte, whatever the length, and is then the loaded key |
| KeyActions.AfterImport | app/src/main/java/com/example/secretkeeper/MainActivity.kt:333-342 | a rejected key string leaves the store unchanged, and a healthy store stays healthy |
| KeyActions.ExportKey | app/src/main/java/com/example/secretkeeper/MainActivity.kt:344-347 | export fails exactly when loadKey throws, finds nothing exactly when there is no entry, and its text decodes to the key bytes and ends with a newline |
| KeyActions.ImportThenExport | app/src/main/java/com/example/secretkeeper/MainActivity.kt:333-357 | exporting after an import gives text that decodes to the imported bytes |
| KeyActions.HandlersKeepHealthy | app/src/main/java/com/example/secretkeeper/MainActivity.kt:327-357 | from a store loadKey can read, generate and import leave one it can read, and export does not throw |
| KeyActions.ImportedBadLengthKey | app/src/main/java/com/example/secretkeeper/MainActivity.kt:335-337 | a key string decoding to a non-empty length AES refuses is accepted, yet encryption with it then fails and leaves the output untouched |
| MainActivity.OnCreate | app/src/main/java/com/example/secretkeeper/MainActivity.kt:52-56 | an existing key is kept, a missing one is generated and saved, and start-up fails exactly when loadKey throws |
| MainActivity.OnCreateFromHealthy | app/src/main/java/com/example/secretkeeper/MainActivity.kt:52-56 | from a readable store, start-up always leaves a readable store holding a key |
| MainActivity.NameWithoutExtension | app/src/main/java/com/example/secretkeeper/MainActivity.kt:198 | a name without a dot is kept whole; otherwise the name is the result, a dot, then text with no dot |
| MainActivity.Extension | app/src/main/java/com/example/secretkeeper/MainActivity.kt:199 | the extension holds no dot, is empty for a name without a dot, and otherwise the name ends with a dot and the extension |
| MainActivity.AffixesApart | app/src/main/java/com/example/secretkeeper/MainActivity.kt:159-161 | encrypted_ and .enc cannot overlap: a name with both is at least 14 characters long |
| MainActivity.EncryptedName | app/src/main/java/com/example/secretkeeper/MainActivity.kt:198-200 | the container name starts with encrypted_ and ends with .enc |
| MainActivity.OriginalName | app/src/main/java/com/example/secretkeeper/MainActivity.kt:159-161 | for a name ending in .enc, the selected name is encrypted_, the recovered name and .enc when it has the prefix, and the recovered name and .enc otherwise |
| MainActivity.DecryptedName | app/src/main/java/com/example/secretkeeper/MainActivity.kt:152-162 | a selection is decrypted exactly when its name ends with .enc, into decrypted_ followed by the recovered name |
| MainActivity.NameRoundTrip | app/src/main/java/com/example/secretkeeper/MainActivity.kt:152-200 | for a name with a dot, the container is encrypted_ name .enc, and recovery gives the name back |
| MainActivity.NameWithoutDot | app/src/main/java/com/example/secretkeeper/MainActivity.kt:198-200 | for a name without a dot, recovery gives the name plus a trailing dot, not the name |
| MainActivity.EncryptPicked | app/src/main/java/com/example/secretkeeper/MainActivity.kt:191-216 | with a usable key the container is stored under the encrypted name; without one nothing changes |
| MainActivity.DecryptPicked | app/src/main/java/com/example/secretkeeper/MainActivity.kt:143-168 | a name without .enc is refused untouched; otherwise success exactly when the tag verifies, writing the opened plaintext under the decrypted name |
| MainActivity.EncryptThenDecrypt | app/src/main/java/com/example/secretkeeper/MainActivity.kt:143-216 | encrypting a picked file then decrypting its container puts the original contents under decrypted_ and the name |
| MainActivity.GenerateNewKey | app/src/main/java/com/example/secretkeeper/MainActivity.kt:327-331 | the generated key is what loadKey returns afterwards, with the fixed toast |
| MainActivity.SetExistingKey | app/src/main/java/com/example/secretkeeper/MainActivity.kt:333-342 | the success toast exactly when the import is accepted, with the decoded key saved; otherwise the invalid-format toast and an unchanged store |
| MainActivity.ExportCurrentKey | app/src/main/java/com/example/secretkeeper/MainActivity.kt:344-357 | the clipboard gets text exactly when a key entry exists, the text decodes to the key bytes, and the toast says which case happened |
| MainActivity.GenerateRandomString | app/src/main/java/com/example/secretkeeper/MainActivity.kt:127-131 | the string has the requested length, none for a length below one, and character i is the alphabet character of draw i |
| MainActivity.DummyContent | app/src/main/java/com/example/secretkeeper/MainActivity.kt:113-119 | the dummy file holds 5 MiB, every byte the letter A |
| MainActivity.CreateDummyFile | app/src/main/java/com/example/secretkeeper/MainActivity.kt:108-125 | a seven-alphanumeric .txt name gets 5 MiB, every byte the letter A, and other files are untouched |
| KeyManagementActivity.GenerateNewKey | app/src/main/java/com/example/secretkeeper/KeyManagementActivity.kt:32-36 | the new key is what loadKey returns, other preferences are kept, with the fixed toast |
| KeyManagementActivity.SetExistingKey | app/src/main/java/com/example/secretkeeper/KeyManagementActivity.kt:38-47 | success exactly when the string decodes to at least one byte, and then that is the loaded key; otherwise the store is unchanged |
| KeyManagementActivity.ExportCurrentKey | app/src/main/java/com/example/secretkeeper/KeyManagementActivity.kt:49-57 | the toast is "No key found!" without an entry, and otherwise "Current key: " followed by text decoding to the key bytes; an unreadable entry is an error |
| KeyManagementActivity.SetThenExport | app/src/main/java/com/example/secretkeeper/KeyManagementActivity.kt:38-57 | after a successful set, export shows text decoding to what was set |

## Left out

- The user interface, Compose navigation, the loading flag, notifications
  and the S3 upload and download screens are not modelled: they hold no
  logic of the encryption core.
- The randomness is not modelled as randomness. The key generator's output,
  the IV chosen by `cipher.init` and the `Random.nextInt` draws are all
  parameters. The model states what happens for every value of them.
- Gcm.Aes: the AES block function and GHASH are abstract functions, not
  computed. Tag collisions are therefore possible in the model, as they are
  in GCM. That is why wrong-key and tampering are stated as "fails unless
  the tags collide" instead of "always fails".
- FileEncryptor.EncryptFile: an input that exists is treated as readable.
  A read or write error partway through, a full disk, and a failure to
  create the output file are not modelled.
- FileEncryptor.DecryptFile: as for encryption, file-system errors are
  not modelled. The unverified plaintext on failure is stated as a prefix,
  because how much a streaming provider releases depends on the provider.
- The `buffered(BUFFER_SIZE)` layers around the cipher streams change when
  bytes reach the file, not which bytes. They are folded into `Pump`.
- Gcm.Init: it accepts 16-, 24- and 32-byte keys, as the standard
  provider does. Which key lengths are accepted depends on the security
  provider; another provider may refuse 24-byte keys.
- Size limits and memory are not modelled. Files and keys are unbounded
  sequences, so the GCM limit on plaintext per IV and running out of memory
  are outside the model.
- Running encryption and decryption on a background coroutine, and any
  concurrent access to the preferences, are not modelled.
- `uriToFile` copying a picked file to the cache folder, and its failure
  toasts, are not modelled. The picked file's name and contents are
  parameters of the flows.
- MainActivity.EncryptPicked: the toasts that include an absolute path are
  not modelled. Only the success flag is returned.
- MainActivity.DecryptPicked: the same holds for its toasts.
- MainActivity.CreateDummyFile: a write failure and the toasts are not
  modelled.
- MainActivity.GenerateRandomString: the alphabet is stated as the
  characters of the literal. It is not stated as the letters and digits
  by class.
- `java.util.Base64` in the key manager's unit test is not modelled. The
  app itself uses `android.util.Base64`, and the model follows the app.
