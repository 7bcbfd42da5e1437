# SafeVault, modelled in Dafny

SafeVault is an Android vault for notes, passwords and scanned documents. Its
core, modelled here, has these parts:

- **Encrypted content.** `CryptoUtils.encrypt` turns text into the AES-GCM
  envelope `[ivLength:int32 BE][iv][ciphertext]`, Base64-encoded.
  `decrypt` reverses it.
- **Credentials.** `StealthManager` stores SHA-256 hex hashes of the master
  and panic passwords in encrypted shared preferences. It also stores the
  first-launch and auto-destruct flags.
- **The `vault_items` table.** Rows are read and written through Room's
  `VaultDao`. `Converters` and `ItemCategory` map categories to and from text.
- **The screens.** `AuthActivity` runs setup, unlock and panic decoy.
  `VaultViewModel` filters, adds, edits, loads and wipes items.
  `AddItemFragment` is the add/edit form. `SettingsFragment` handles the
  auto-destruct switch, the panic password dialog and the wipe.

The modules follow the source files:

- `Wrappers`, `Binary` in `wrappers.dfy`: Kotlin nullables and exceptions; unsigned bytes.
- `Text` in `text.dfy`: `trim`, `isBlank`, `String.length`.
- `Utf8` in `utf8.dfy`: `toByteArray(UTF_8)` and `String(bytes, UTF_8)`.
- `Base64` in `base64.dfy`: `Base64.encodeToString`/`decode` with `NO_WRAP`.
- `CryptoUtils` in `crypto_utils.dfy`: `EncryptedPayload` and `CryptoUtils`.
- `StealthManager` in `stealth_manager.dfy`: the preference store.
- `ItemCategory`, `Converters` in `item_category.dfy`: categories and their converters.
- `Database` in `vault_dao.dfy`: `VaultItemEntity` and `VaultDao`.
- `ViewModel` in `vault_view_model.dfy`: `VaultViewModel`.
- `Auth` in `auth_activity.dfy`: `AuthActivity`.
- `Settings` in `settings_fragment.dfy`: `SettingsFragment`.
- `AddItem` in `add_item_fragment.dfy`: `AddItemFragment`.

Some things the model cannot see, so it takes them as parameters:

- **The AES-GCM cipher** is a pair of functions, `seal` and `open`
  (`CryptoUtils.Aead`). Its correctness, that `open` returns what `seal`
  sealed, is the hypothesis `OpensWhatItSeals` on the lemmas that need it.
- **SHA-256** is a function parameter `digest`.
- **The random IV and the clock** are arguments of the operations that use them.

Objects whose fields the source updates are classes with `modifies` clauses:
the preference store, the DAO, the view model and the three screens. Their
methods are proved against the pure functions beside them (`DecideUnlock`,
`Select`, `SavedRows`, `PanicDialogDecisionAsWritten`). Coroutines and LiveData
updates happen in program order.

`searchItems` uses SQLite's default `LIKE`, which ignores ASCII case, so the
title search is case-insensitive (`Database.LikeMatch`).

## Model

| member | source | states |
|---|---|---|
| `Text.Trim` | app/src/main/java/project/safevault/ui/auth/AuthActivity.kt:75 | `trim()` yields the infix of the input that starts and ends with a non-whitespace character, with only whitespace around it; it is empty exactly when the input is blank |
| `Text.TrimIdempotent` | app/src/main/java/project/safevault/ui/vault/AddItemFragment.kt:69-70 | trimming twice is trimming once |
| `Text.TrimmedBlankIsEmpty` | app/src/main/java/project/safevault/ui/vault/AddItemFragment.kt:69-72 | after `trim()`, `isBlank()` and `isEmpty()` agree |
| `Text.Utf16Length` | app/src/main/java/project/safevault/ui/auth/AuthActivity.kt:81 | `String.length` counts UTF-16 units: between one and two per character |
| `Utf8.Encode` | app/src/main/java/project/safevault/security/CryptoUtils.kt:44 | UTF-8 encoding takes one to four bytes per character |
| `Utf8.DecodeEncode` | app/src/main/java/project/safevault/security/CryptoUtils.kt:53 | decoding the UTF-8 encoding of any string gives the string back |
| `Utf8.Decode` | app/src/main/java/project/safevault/security/CryptoUtils.kt:53 | lenient decoding yields at least one character for non-empty input and never more characters than bytes; `Utf8.DecodeEncode` makes it the inverse of encoding |
| `Utf8.EncodeInjective` | app/src/main/java/project/safevault/security/StealthManager.kt:32 | distinct passwords have distinct UTF-8 bytes |
| `Base64.Encode` | app/src/main/java/project/safevault/security/CryptoUtils.kt:13 | padded Base64 output has length 4·⌈n/3⌉, at least 4 for non-empty input |
| `Base64.EncodeAlphabet` | app/src/main/java/project/safevault/security/CryptoUtils.kt:13 | every output character is in the Base64 alphabet or is `=` |
| `Base64.Decode` | app/src/main/java/project/safevault/security/CryptoUtils.kt:18 | only text whose length is a multiple of four decodes; `Base64.DecodeEncode` makes it the inverse of encoding |
| `Base64.DecodeEncode` | app/src/main/java/project/safevault/security/CryptoUtils.kt:18 | strict `NO_WRAP` decoding inverts encoding for every byte string |
| `CryptoUtils.IntBytesRoundTrip` | app/src/main/java/project/safevault/security/CryptoUtils.kt:10 | `putInt` then `getInt` returns a non-negative length, and `getInt` decides the four bytes |
| `CryptoUtils.Serialize` | app/src/main/java/project/safevault/security/CryptoUtils.kt:9-12 | the buffer is 4 + iv + ciphertext bytes, with the IV and the ciphertext at their offsets |
| `CryptoUtils.Parse` | app/src/main/java/project/safevault/security/CryptoUtils.kt:19-24 | a parsed payload accounts for every byte after the length prefix |
| `CryptoUtils.ParseSerialize` | app/src/main/java/project/safevault/security/CryptoUtils.kt:8-26 | parsing the serialised buffer gives the payload back |
| `CryptoUtils.SerializeParse` | app/src/main/java/project/safevault/security/CryptoUtils.kt:17-26 | every buffer that parses is the serialisation of what it parses to |
| `CryptoUtils.ParseFailures` | app/src/main/java/project/safevault/security/CryptoUtils.kt:20-22 | parsing fails exactly on fewer than 4 bytes, a negative length or a length past the end, each with its exception |
| `CryptoUtils.DecodeText` | app/src/main/java/project/safevault/security/CryptoUtils.kt:17-26 | text `Base64.decode` rejects fails as bad Base64; a parsed payload accounts for every decoded byte; `DecodeTextEncodeText` makes it the inverse of `toBase64` |
| `CryptoUtils.EncodeText` | app/src/main/java/project/safevault/security/CryptoUtils.kt:8-14 | `toBase64` fails exactly when the buffer size overflows `Int`; otherwise the text length follows from the payload size |
| `CryptoUtils.DecodeTextEncodeText` | app/src/main/java/project/safevault/security/CryptoUtils.kt:17-26 | `fromBase64(toBase64(p)) == p` |
| `CryptoUtils.Put` | app/src/main/java/project/safevault/security/CryptoUtils.kt:11-12 | `ByteBuffer.put` copies the bytes at the position, advances it, and leaves the rest of the buffer alone |
| `CryptoUtils.Get` | app/src/main/java/project/safevault/security/CryptoUtils.kt:22-24 | `ByteBuffer.get` fills the destination with the bytes at the position |
| `CryptoUtils.ToBase64` | app/src/main/java/project/safevault/security/CryptoUtils.kt:8-14 | the buffer-filling method computes the envelope text |
| `CryptoUtils.FromBase64` | app/src/main/java/project/safevault/security/CryptoUtils.kt:17-26 | the buffer-reading method computes the envelope parse, including its failures |
| `CryptoUtils.Equals` | app/src/main/java/project/safevault/security/CryptoUtils.kt:29-37 | content equality is payload equality, and equal payloads have equal hash codes |
| `CryptoUtils.HashCode` | app/src/main/java/project/safevault/security/CryptoUtils.kt:35-37 | `31 * iv.contentHashCode() + ciphertext.contentHashCode()` stays in the `Int` range; `Equals` states that equal payloads hash alike |
| `CryptoUtils.Wrap32` | app/src/main/java/project/safevault/security/CryptoUtils.kt:36 | `Int` arithmetic wraps to the 32-bit range, congruent modulo 2^32 |
| `CryptoUtils.EncryptBytes` | app/src/main/java/project/safevault/security/CryptoUtils.kt:56-60 | the payload carries the cipher's IV, and a correct cipher opens its ciphertext to the data |
| `CryptoUtils.DecryptBytes` | app/src/main/java/project/safevault/security/CryptoUtils.kt:62-65 | every failure of `open` (tag mismatch, or a key or IV the cipher rejects) is the one error `AuthenticationFailed` |
| `CryptoUtils.DecryptBytesEncryptBytes` | app/src/main/java/project/safevault/security/CryptoUtils.kt:56-65 | `decryptBytes(encryptBytes(d)) == d` for a correct cipher |
| `CryptoUtils.Encrypt` | app/src/main/java/project/safevault/security/CryptoUtils.kt:42-47 | in the model, `encrypt` fails only when the envelope overflows `Int` (keystore and cipher exceptions are left out) |
| `CryptoUtils.Decrypt` | app/src/main/java/project/safevault/security/CryptoUtils.kt:49-54 | succeeds only when the text parses and the cipher opens its ciphertext, and never fails with an overflow; `DecryptEncrypt` makes it the inverse of `encrypt` |
| `CryptoUtils.DecryptEncrypt` | app/src/main/java/project/safevault/security/CryptoUtils.kt:42-54 | `decrypt(encrypt(s)) == s` for a correct cipher and every string |
| `CryptoUtils.DecryptOfAnyEnvelope` | app/src/main/java/project/safevault/security/CryptoUtils.kt:42-54 | whatever IV and plaintext produced an envelope, a correct cipher decrypts it to that plaintext |
| `ItemCategory.EntriesAreTheConstants` | app/src/main/java/project/safevault/models/ItemCategory.kt:3-9 | `entries` lists the six constants, each once |
| `ItemCategory.NamesDistinct` | app/src/main/java/project/safevault/models/ItemCategory.kt:3-9 | no two constants share a display name or a name |
| `ItemCategory.FindByDisplayName` | app/src/main/java/project/safevault/models/ItemCategory.kt:13 | `find` returns an entry with that display name, or null when none has it |
| `ItemCategory.FromDisplayName` | app/src/main/java/project/safevault/models/ItemCategory.kt:12-14 | the constant whose display name matches exactly, or `OTHER` when none does |
| `ItemCategory.FromDisplayNameOfDisplayName` | app/src/main/java/project/safevault/models/ItemCategory.kt:12-14 | each display name parses back to its constant |
| `Converters.FromCategory` | app/src/main/java/project/safevault/database/Converters.kt:9-11 | the stored text is the constant's name, never its display name, and `toCategory` reads it back |
| `Converters.FindByName` | app/src/main/java/project/safevault/database/Converters.kt:15 | `valueOf` finds the constant with that name, if there is one |
| `Converters.ToCategory` | app/src/main/java/project/safevault/database/Converters.kt:14-16 | `valueOf` throws exactly when no constant has that name |
| `Converters.FromCategoryToCategory` | app/src/main/java/project/safevault/database/Converters.kt:9-16 | every constant name survives a store and a load |
| `Converters.StrictVersusLenient` | app/src/main/java/project/safevault/database/Converters.kt:14-16 | a display name makes `toCategory` throw, while `fromDisplayName` accepts it |
| `StealthManager.Hex` | app/src/main/java/project/safevault/security/StealthManager.kt:33 | `%02x` gives two hex digits per byte |
| `StealthManager.UnhexHex` | app/src/main/java/project/safevault/security/StealthManager.kt:33 | the hex text decodes back to the digest bytes |
| `StealthManager.HexInjective` | app/src/main/java/project/safevault/security/StealthManager.kt:33 | two digests have the same hex text exactly when they are equal |
| `StealthManager.HashPassword` | app/src/main/java/project/safevault/security/StealthManager.kt:30-34 | the hash is the hex text of the SHA-256 digest of the UTF-8 bytes, two characters per digest byte |
| `StealthManager.HashPasswordMatches` | app/src/main/java/project/safevault/security/StealthManager.kt:30-34 | two passwords hash alike exactly when their digests agree; a 32-byte digest gives 64 characters |
| `StealthManager.StoredHashMatches` | app/src/main/java/project/safevault/security/StealthManager.kt:47-50 | a check succeeds exactly when a hash is stored under the key and equals the input's hash |
| `StealthManager.MatchesAfterStore` | app/src/main/java/project/safevault/security/StealthManager.kt:40-50 | after storing `p`'s hash, `q` matches exactly when it hashes like `p`, and `p` itself always matches |
| `StealthManager.IsFirstLaunch` | app/src/main/java/project/safevault/security/StealthManager.kt:36-38 | true until the flag is written false |
| `StealthManager.IsAutoDestructEnabled` | app/src/main/java/project/safevault/security/StealthManager.kt:73-75 | false until the flag is written, then the written value |
| `StealthManager.HasUserPassword` | app/src/main/java/project/safevault/security/StealthManager.kt:52-54 | true exactly when the master hash key is present |
| `StealthManager.HasPanicPassword` | app/src/main/java/project/safevault/security/StealthManager.kt:65-67 | true exactly when the panic hash key is present |
| `StealthManager.VerifyUserPassword` | app/src/main/java/project/safevault/security/StealthManager.kt:47-50 | verification can succeed only when a master password is stored |
| `StealthManager.IsPanicPassword` | app/src/main/java/project/safevault/security/StealthManager.kt:60-63 | the panic check can succeed only when a panic password is stored |
| `StealthManager.StealthManager.constructor` | app/src/main/java/project/safevault/security/StealthManager.kt:36-38 | a fresh install is a first launch with no passwords and auto-destruct off |
| `StealthManager.StealthManager.SetUserPassword` | app/src/main/java/project/safevault/security/StealthManager.kt:40-45 | stores the hash and clears first launch; afterwards a password verifies exactly when it hashes like the new one; panic and auto-destruct are unchanged |
| `StealthManager.StealthManager.SetPanicPassword` | app/src/main/java/project/safevault/security/StealthManager.kt:56-58 | stores the panic hash; afterwards an input is the panic password exactly when it hashes like the new one; master password and flags are unchanged |
| `StealthManager.StealthManager.SetAutoDestructEnabled` | app/src/main/java/project/safevault/security/StealthManager.kt:69-71 | sets only the auto-destruct flag, which then reads back as given |
| `Database.SortByUpdatedDesc` | app/src/main/java/project/safevault/database/VaultDao.kt:30 | `ORDER BY updatedAt DESC` returns a permutation of the rows, newest first |
| `Database.Scan` | app/src/main/java/project/safevault/database/VaultDao.kt:30 | a table scan yields every stored row once, and no other, with distinct ids |
| `Database.PercentMatchesAll` | app/src/main/java/project/safevault/database/VaultDao.kt:36 | the pattern `%` matches every title |
| `Database.LikeMatch` | app/src/main/java/project/safevault/database/VaultDao.kt:36 | has no contract of its own; `PercentMatchesAll`, `PrefixMatch`, `LeadingPercent` and `SearchIsContainment` characterise it |
| `Database.PrefixMatch` | app/src/main/java/project/safevault/database/VaultDao.kt:36 | a wildcard-free `q` followed by `%` matches exactly the texts that start with `q`, ignoring ASCII case |
| `Database.LeadingPercent` | app/src/main/java/project/safevault/database/VaultDao.kt:36 | a leading `%` matches exactly when some suffix matches the rest of the pattern |
| `Database.SearchIsContainment` | app/src/main/java/project/safevault/database/VaultDao.kt:36 | for a query without wildcards, `title LIKE '%'‖q‖'%'` holds exactly when the title contains `q`, ignoring ASCII case |
| `Database.FilterRows` | app/src/main/java/project/safevault/database/VaultDao.kt:33-36 | a `WHERE` clause keeps exactly the matching rows, ids stay distinct, and no filter keeps every row |
| `Database.Select` | app/src/main/java/project/safevault/database/VaultDao.kt:30-37 | a query returns exactly the stored rows that match, newest first, with distinct ids; the unfiltered query returns all of them |
| `Database.VaultDao.constructor` | app/src/main/java/project/safevault/database/VaultItemEntity.kt:9-10 | a new table is empty and its autoincrement counter is 0 |
| `Database.VaultDao.InsertItem` | app/src/main/java/project/safevault/database/VaultDao.kt:15-16 | an id of 0 gets the next unused id; any other id replaces that row; the result is the row's id |
| `Database.VaultDao.UpdateItem` | app/src/main/java/project/safevault/database/VaultDao.kt:18-19 | rewrites the row with the item's id, or does nothing when there is none |
| `Database.VaultDao.DeleteItem` | app/src/main/java/project/safevault/database/VaultDao.kt:21-22 | removes the row with the item's primary key only |
| `Database.VaultDao.DeleteItemById` | app/src/main/java/project/safevault/database/VaultDao.kt:24-25 | removes the row with that id, if any |
| `Database.VaultDao.GetItemById` | app/src/main/java/project/safevault/database/VaultDao.kt:27-28 | returns the row with that id, or null exactly when there is none |
| `Database.VaultDao.GetAllItems` | app/src/main/java/project/safevault/database/VaultDao.kt:30-31 | every row once, newest first |
| `Database.VaultDao.GetItemsByCategory` | app/src/main/java/project/safevault/database/VaultDao.kt:33-34 | exactly the rows of that category, newest first |
| `Database.VaultDao.SearchItems` | app/src/main/java/project/safevault/database/VaultDao.kt:36-37 | exactly the rows whose title matches the LIKE pattern, newest first; for a wildcard-free query, those whose title contains it, ignoring case |
| `Database.VaultDao.DeleteAllItems` | app/src/main/java/project/safevault/database/VaultDao.kt:39-40 | empties the table without resetting the id counter; the count is then 0 |
| `Database.VaultDao.GetItemCount` | app/src/main/java/project/safevault/database/VaultDao.kt:42-43 | `COUNT(*)` equals the length of the `SELECT *` listing that `getAllItems` returns, one per stored row |
| `ViewModel.SearchIgnoresCategory` | app/src/main/java/project/safevault/ui/vault/VaultViewModel.kt:30 | a non-blank query searches titles whatever the category filter |
| `ViewModel.BlankQueryIgnored` | app/src/main/java/project/safevault/ui/vault/VaultViewModel.kt:29-33 | a blank query falls back to the category, or to all items |
| `ViewModel.SelectQuery` | app/src/main/java/project/safevault/ui/vault/VaultViewModel.kt:29-33 | the unfiltered listing is chosen exactly when the query is blank and no category is set; `SearchIgnoresCategory` and `BlankQueryIgnored` give the other branches |
| `ViewModel.UpdatedRecord` | app/src/main/java/project/safevault/ui/vault/VaultViewModel.kt:67-72 | `copy` keeps id, creation time and image path, and replaces title, content, category and update time |
| `ViewModel.NewRecord` | app/src/main/java/project/safevault/ui/vault/VaultViewModel.kt:54-59 | the new entity leaves the id 0 for the table to assign, takes both timestamps from one clock reading, and carries the given title, content, category and image path |
| `ViewModel.DecryptContent` | app/src/main/java/project/safevault/ui/vault/VaultViewModel.kt:98-104 | content that `encrypt` produced (for a correct cipher) shows as the text it was given; the fallback text shows exactly when the envelope does not parse or the cipher rejects it; it never fails |
| `ViewModel.DecryptContentOfEncrypted` | app/src/main/java/project/safevault/ui/vault/VaultViewModel.kt:98-104 | content added through the view model displays as what was typed, for a correct cipher |
| `ViewModel.VaultViewModel.constructor` | app/src/main/java/project/safevault/ui/vault/VaultViewModel.kt:24-25 | no category filter, an empty query, nothing selected or decrypted |
| `ViewModel.VaultViewModel.AllItems` | app/src/main/java/project/safevault/ui/vault/VaultViewModel.kt:27-35 | the list shows exactly the title matches when the query is not blank, else the category's items, else all items, newest first |
| `ViewModel.VaultViewModel.SetFilter` | app/src/main/java/project/safevault/ui/vault/VaultViewModel.kt:43-45 | sets only the category filter |
| `ViewModel.VaultViewModel.SetSearchQuery` | app/src/main/java/project/safevault/ui/vault/VaultViewModel.kt:47-49 | sets only the query |
| `ViewModel.VaultViewModel.AddItem` | app/src/main/java/project/safevault/ui/vault/VaultViewModel.kt:51-62 | a failed encryption stores nothing; otherwise one new row under the next id, whose content decrypts back to the given content |
| `ViewModel.VaultViewModel.UpdateItem` | app/src/main/java/project/safevault/ui/vault/VaultViewModel.kt:64-75 | rewrites the existing row with the re-encrypted content, or does nothing when encryption fails or the row is gone |
| `ViewModel.VaultViewModel.DeleteItem` | app/src/main/java/project/safevault/ui/vault/VaultViewModel.kt:77-81 | removes the item's row |
| `ViewModel.VaultViewModel.LoadItem` | app/src/main/java/project/safevault/ui/vault/VaultViewModel.kt:83-96 | publishes the row or null, and for a row its decrypted content or the fallback; a missing id leaves the content as it was |
| `ViewModel.VaultViewModel.DeleteAllItems` | app/src/main/java/project/safevault/ui/vault/VaultViewModel.kt:106-110 | the table and the displayed list become empty |
| `Auth.SetupModeAfterStore` | app/src/main/java/project/safevault/ui/auth/AuthActivity.kt:31 | once a master password is stored, the next start is not in setup mode |
| `Auth.FreshInstallIsSetup` | app/src/main/java/project/safevault/ui/auth/AuthActivity.kt:31 | a fresh install starts in setup mode |
| `Auth.SetupMode` | app/src/main/java/project/safevault/ui/auth/AuthActivity.kt:31 | returning mode only when a master password is stored; `FreshInstallIsSetup` and `SetupModeAfterStore` give both directions |
| `Auth.DecideUnlock` | app/src/main/java/project/safevault/ui/auth/AuthActivity.kt:74-99 | the decoy is reached only in returning mode with a panic password stored; a password is stored exactly on a setup unlock; a returning unlock needs a master password; `BlankIsRejected`, `SetupOutcome` and `ReturningOutcome` give each branch |
| `Auth.BlankIsRejected` | app/src/main/java/project/safevault/ui/auth/AuthActivity.kt:75-79 | the input is rejected as empty exactly when it is blank, in either mode |
| `Auth.SetupOutcome` | app/src/main/java/project/safevault/ui/auth/AuthActivity.kt:80-87 | setup never opens the decoy; it accepts exactly the non-blank inputs of at least 4 UTF-16 units after trimming, and stores the trimmed text |
| `Auth.ReturningOutcome` | app/src/main/java/project/safevault/ui/auth/AuthActivity.kt:89-98 | panic exactly for the panic password, checked first; the vault opens exactly for a non-panic input that verifies; otherwise "wrong password" |
| `Auth.NothingStoredNothingMatches` | app/src/main/java/project/safevault/ui/auth/AuthActivity.kt:89-98 | without a panic password there is no decoy, and without a master password typing never opens the vault |
| `Auth.SetupThenUnlock` | app/src/main/java/project/safevault/ui/auth/AuthActivity.kt:80-98 | the password chosen at setup, typed later with any surrounding whitespace, opens the vault unless it is also the panic password |
| `Auth.AuthActivity.constructor` | app/src/main/java/project/safevault/ui/auth/AuthActivity.kt:21-24 | the screen starts locked, not in setup mode, with an empty field and no error |
| `Auth.AuthActivity.OnCreate` | app/src/main/java/project/safevault/ui/auth/AuthActivity.kt:31 | setup mode is "first launch or no master password" |
| `Auth.AuthActivity.TypePassword` | app/src/main/java/project/safevault/ui/auth/AuthActivity.kt:75 | the field holds the typed text and nothing else changes |
| `Auth.AuthActivity.HandlePanicMode` | app/src/main/java/project/safevault/ui/auth/AuthActivity.kt:101-110 | shows the decoy; with auto-destruct on it wipes every row and shows the toast, otherwise it keeps the rows |
| `Auth.AuthActivity.HandlePasswordUnlock` | app/src/main/java/project/safevault/ui/auth/AuthActivity.kt:74-99 | the new screen, error, stored password, table and wipe toast follow `DecideUnlock` on the state before the click: a wiping panic sets the toast, every other outcome keeps it |
| `Auth.AuthActivity.OnBiometricSuccess` | app/src/main/java/project/safevault/ui/auth/AuthActivity.kt:69 | opens the vault |
| `Auth.AuthActivity.OnBiometricFailure` | app/src/main/java/project/safevault/ui/auth/AuthActivity.kt:70 | shows the error message and stays on the screen |
| `Settings.PanicDialogDecisionAsWritten` | app/src/main/java/project/safevault/ui/settings/SettingsFragment.kt:72-82 | the dialog as written: blank rejected, mismatch rejected, otherwise the untrimmed text is saved |
| `Settings.UntrimmedPanicPasswordNeverMatches` | app/src/main/java/project/safevault/ui/settings/SettingsFragment.kt:73-79 | a panic password saved with surrounding whitespace opens the decoy only for a different text whose UTF-8 bytes collide with it under SHA-256, since unlock trims the input |
| `Settings.PanicDialogDecision` | app/src/main/java/project/safevault/ui/settings/SettingsFragment.kt:72-82 | the corrected dialog: blank and mismatch rejected as before, otherwise the trimmed text is saved |
| `Settings.SavedPanicPasswordLeadsToDecoy` | app/src/main/java/project/safevault/ui/settings/SettingsFragment.kt:72-82 | after the corrected save, typing that password, with any whitespace, at unlock opens the decoy |
| `Settings.SettingsFragment.constructor` | app/src/main/java/project/safevault/ui/settings/SettingsFragment.kt:18-21 | the fragment shares the activity's view model; the switch starts off, with no toast |
| `Settings.SettingsFragment.OnViewCreated` | app/src/main/java/project/safevault/ui/settings/SettingsFragment.kt:31 | the switch shows the stored auto-destruct flag |
| `Settings.SettingsFragment.OnAutoDestructToggled` | app/src/main/java/project/safevault/ui/settings/SettingsFragment.kt:32-34 | toggling stores the new flag, which then reads back as shown |
| `Settings.SettingsFragment.OnPanicPasswordSave` | app/src/main/java/project/safevault/ui/settings/SettingsFragment.kt:72-82 | the toast and the stored panic hash follow the dialog as written: blank and mismatch store nothing, otherwise the hash of the untrimmed text is stored |
| `Settings.SettingsFragment.OnPanicPasswordSaveTrimmed` | app/src/main/java/project/safevault/ui/settings/SettingsFragment.kt:72-82 | the corrected button: the toast and the stored panic hash follow `PanicDialogDecision`, storing the hash of the trimmed text |
| `Settings.SettingsFragment.OnWipeConfirmed` | app/src/main/java/project/safevault/ui/settings/SettingsFragment.kt:92-95 | the table and the list become empty, and the "wiped" toast shows |
| `AddItem.SavedRowsUnchanged` | app/src/main/java/project/safevault/ui/vault/AddItemFragment.kt:77-80 | a failed encryption, or an edit with no loaded item, stores nothing |
| `AddItem.SavedRowsEdit` | app/src/main/java/project/safevault/ui/vault/AddItemFragment.kt:77-80 | an edit rewrites only the loaded row, keeping id, creation time and image path, with content that decrypts to the trimmed text |
| `AddItem.SavedRowsAdd` | app/src/main/java/project/safevault/ui/vault/AddItemFragment.kt:81-82 | an add creates one row under the next id, stamped now, carrying the image path, with content that decrypts to the trimmed text |
| `AddItem.FieldsFilled` | app/src/main/java/project/safevault/ui/vault/AddItemFragment.kt:69-72 | both trimmed fields are non-blank exactly when both are non-empty |
| `AddItem.SavedRows` | app/src/main/java/project/safevault/ui/vault/AddItemFragment.kt:76-82 | a save adds at most the next id and, in edit mode, no key; `SavedRowsUnchanged`, `SavedRowsEdit` and `SavedRowsAdd` give each case |
| `AddItem.AddItemFragment.constructor` | app/src/main/java/project/safevault/ui/vault/AddItemFragment.kt:21-22 | a new form is in add mode with no image |
| `AddItem.AddItemFragment.LoadItemForEdit` | app/src/main/java/project/safevault/ui/vault/AddItemFragment.kt:54-66 | the form shows the loaded row's title, category and decrypted content; a missing row leaves title and category alone, and the content takes the view model's earlier decrypted content if there was one |
| `AddItem.AddItemFragment.OnViewCreated` | app/src/main/java/project/safevault/ui/vault/AddItemFragment.kt:29-45 | the category starts as "Secure Note"; non-blank scanned text becomes the content; a missing id means add mode; in edit mode the item is loaded, and a missing row keeps the title and takes any earlier decrypted content; the view model's filter and query are kept, and in add mode its decrypted content too |
| `AddItem.AddItemFragment.Store` | app/src/main/java/project/safevault/ui/vault/AddItemFragment.kt:77-82 | the write follows `SavedRows` for the current mode |
| `AddItem.AddItemFragment.SaveItem` | app/src/main/java/project/safevault/ui/vault/AddItemFragment.kt:68-86 | a blank title or content after trimming is rejected with nothing stored; otherwise the trimmed fields and the leniently parsed category are saved, then a confirmation shows and the form closes |

## Left out

- Keystore, JCA and the real SHA-256 are parameters (`Aead`, `digest`).
  Their correctness is a hypothesis on the lemmas.
- `EncryptedSharedPreferences` and `MasterKey` (StealthManager.kt:17-28)
  become a plain `map` of typed values. Their encryption is not modelled.
- Android's `Base64.decode` tolerates some malformed input. The model
  decodes strictly by section 4 of RFC 4648, so text the encoder never
  produces is refused here.
- `Utf8.Decode` replaces a malformed sequence with one U+FFFD and moves on
  one byte. The JVM replaces each maximal ill-formed subpart, so counts can
  differ on malformed input. Lone surrogates cannot occur in a Dafny
  `string`.
- A huge length prefix makes `ByteArray(ivLength)` throw `OutOfMemoryError`
  before the buffer runs out. The model reports the underflow only.
- `CryptoUtils.Equals` is stated against another payload only. Comparison
  with other objects and the `this === other` shortcut are left out.
- Coroutines, LiveData, `flatMapLatest` and `postValue` happen in program
  order. Left out with them:
  - the race in which `saveItem` runs before `loadItem` has published the item;
  - the fire-and-forget wipe in `handlePanicMode` finishing after the decoy starts.
- The two `System.currentTimeMillis()` defaults of a new entity are one `now`.
- SQLite's rowid limits and `SQLITE_FULL` are not modelled. Ids are
  unbounded integers.
- Rows with equal `updatedAt` come out in ascending id order.
  `Database.VaultDao.GetAllItems`, `GetItemsByCategory` and `SearchItems`
  fix this order, which SQLite leaves unspecified.
- `R.string` texts are constants of the message datatypes (`AuthError`,
  `AddMessage`, `SettingsMessage`), except the decryption fallback text.
- Not modelled:
  - the version text in the settings screen;
  - biometric availability (`canAuthenticate`) and the prompt itself;
  - animations, view visibility and hints.
- The scanner, OCR, `DocumentProcessor` and the list and detail screens are
  not part of this model. Neither is `SafeVaultDatabase`, beyond the table it
  holds.
- `CryptoUtils.HashCode` wraps to 32 bits as Kotlin does. The model proves
  its range and that equal payloads hash alike, not the `contentHashCode` values.
- `CryptoUtils.DecryptBytes` folds every exception of `cipher.doFinal` and of
  the keystore's `getDecryptCipher` (a bad tag, an IV or key the provider
  rejects) into the one error `AuthenticationFailed`; callers only catch.
- `CryptoUtils.Encrypt`, `CryptoUtils.EncryptBytes`: keystore and cipher
  exceptions on encryption (`getEncryptCipher`, `doFinal`) are not modelled,
  because `seal` is total; the only failure left is the `Int` overflow of
  the envelope.
- `Database.LikeMatch` carries no contract of its own; its lemmas state what
  the search relies on.

## Findings

| source | as written | input that shows it | evidently intended | confidence | as-written member | corrected member |
|---|---|---|---|---|---|---|
| app/src/main/java/project/safevault/ui/settings/SettingsFragment.kt:73-79 | the panic password is hashed and stored untrimmed, but `AuthActivity` trims the typed input (AuthActivity.kt:75) before `isPanicPassword` (AuthActivity.kt:89) | panic password `" 1234"` (leading space), typed exactly at unlock: the trimmed `"1234"` never hashes like `" 1234"` short of a SHA-256 collision, so the decoy does not open | store the trimmed panic password, so the text the user typed in the dialog opens the decoy | medium, not executed | `Settings.PanicDialogDecisionAsWritten`, `Settings.UntrimmedPanicPasswordNeverMatches` | `Settings.PanicDialogDecision`, `Settings.SavedPanicPasswordLeadsToDecoy`, `Settings.SettingsFragment.OnPanicPasswordSaveTrimmed` |
