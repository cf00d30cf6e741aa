# Password manager vault core in Dafny

This project models the security core of a desktop password manager written in Java. The
vault lives in a relational database. Every secret in it is sealed with AES-256-GCM under a
key derived from the master password with PBKDF2-HMAC-SHA256. The modelled parts are:

- **Unlock (`Auth`).** The two-step unlock: master password, then a TOTP or a one-time backup
  code. It includes first-run setup, the exponential lockout after repeated failures, and
  changing the master password.
- **Crypto (`Crypto`, `Hex`).** The `IV || ciphertext+tag` framing, the hex text form of the
  stored blobs, and the KDF parameters kept in `vault_meta`.
- **Tables (`MetaStore`, `FieldStore`, `HistoryStore`, `BackupCodes`).**
  - The key/value meta table.
  - Encrypted entry fields.
  - The five-deep password history.
  - The bcrypt-hashed backup codes.
- **Entries (`Entries`, `Vault`).** Entry types and the entry transfer object. Creating,
  reading and updating entries, with category resolution and the rule that pushes an old
  password into the history.
- **Generator and audit (`PasswordGenerator`, `Audit`).** The random password generator with
  its strength score, and the security audit (weak, old, reused passwords; missing URL or
  TOTP).
- **Importers (`Importer`).** The KeePass CSV and Bitwarden JSON importers.
- **Configuration (`Config`).** The properties lookups.

Every service call is modelled as a pure function or method from the state before the call
to the state after it. The database tables are maps and sequences. The session fields of the
authentication service are a `Session` value. Exceptions become `Err` values of
`Wrappers.Result`.

What the model takes as parameters instead of computing:

- **Cryptography.** PBKDF2, AES-GCM sealing and opening, and UTF-8 are the functions of a
  `Crypto.Primitives` record. Their algebraic laws (opening what was sealed under the same key
  and IV, UTF-8 decoding of an encoding, the ciphertext length) are the ghost predicate
  `Crypto.Sound`.
- **bcrypt** is the `BackupCodes.Hasher` record. Its law, used where a lemma needs it, is
  `BackupCodes.Exact`.
- **TOTP checking** is a function parameter.
- **Clock and randomness.** The wall clock is the integer `now`. `SecureRandom` and `Random`
  are draw streams (`nat -> nat`, `nat -> byte`) or explicit IV and salt arguments.

## Model

All source paths below are under `src/main/java/com/passwordmanager/`.

| member | source | states |
|---|---|---|
| Text.ToUpper | src/main/java/com/passwordmanager/model/EntryType.java:9 | `toUpperCase` restricted to ASCII, as under the root locale: lower-case ASCII letters become upper case and every other character is unchanged, so the length is kept |
| Text.Utf16Length | src/main/java/com/passwordmanager/service/PasswordGenerator.java:50-51 | `length()` counts one unit per character up to U+FFFF and two beyond, so it lies between the number of characters and twice that |
| Text.Utf16LengthUnits | src/main/java/com/passwordmanager/crypto/CryptoUtil.java:103-107 | `length()` is the number of units `charAt` reads |
| Text.Utf16Append | src/main/java/com/passwordmanager/service/PasswordGenerator.java:50-51 | the UTF-16 units and the `length()` of a concatenation are those of its parts |
| Text.Utf16Bmp | src/main/java/com/passwordmanager/crypto/CryptoUtil.java:103-107 | a string without characters beyond U+FFFF has one unit per character, its code point, so `length()` is its number of characters |
| Text.SurrogatesCountTwice | src/main/java/com/passwordmanager/service/PasswordGenerator.java:50 | a character beyond U+FFFF counts twice in `length()`: four emoji and a letter have length 9 |
| Text.ToInt32 | src/main/java/com/passwordmanager/service/ImportExportService.java:96 | the `(int)` cast gives the 32-bit value congruent to its argument modulo 2^32, and leaves a value already in range unchanged |
| Text.Trim | src/main/java/com/passwordmanager/service/ImportExportService.java:166 | `trim()` never lengthens a string; what it keeps is stated by the three lemmas below |
| Text.TrimSlice | src/main/java/com/passwordmanager/service/ImportExportService.java:166 | `trim()` returns the slice of the string that starts after the trimmable prefix |
| Text.TrimSuffix | src/main/java/com/passwordmanager/service/ImportExportService.java:166 | everything after what `trim()` returns is a character at or below U+0020 |
| Text.TrimEnds | src/main/java/com/passwordmanager/service/ImportExportService.java:166 | neither end of what `trim()` returns is at or below U+0020 |
| Text.BlankVersusTrim | src/main/java/com/passwordmanager/model/EntryDto.java:29 | `isBlank` tests Java whitespace, not `trim`'s range: over ASCII a blank string trims to "", but U+2000 is blank and survives `trim`, and U+0000 trims away and is not blank |
| Text.TrimPadded | src/main/java/com/passwordmanager/config/ConfigLoader.java:43 | `trim()` strips any run of characters at or below U+0020 from both ends and leaves the inner text intact |
| Text.ParseInt | src/main/java/com/passwordmanager/config/ConfigLoader.java:43 | `Integer.parseInt` either yields a 32-bit value or throws `NumberFormatException` |
| Text.ParseIntRoundTrip | src/main/java/com/passwordmanager/config/ConfigLoader.java:43 | `Integer.parseInt(String.valueOf(n))` gives back `n` for every 32-bit `n` |
| Text.ParseIntAcceptsOnlyNumerals | src/main/java/com/passwordmanager/service/AuthService.java:88 | an accepted string is non-empty: an optional sign followed by decimal digits |
| Text.ZeroPadFour | src/main/java/com/passwordmanager/service/AuthService.java:75-76 | `%04d` of a number below 10000, under a Latin-digit locale, is exactly four ASCII digits and reads back as that number |
| Config.Load | src/main/java/com/passwordmanager/config/ConfigLoader.java:22-28 | after `init`, `get` of any key succeeds with the loaded value or `null`, and `get` with a default succeeds with the loaded value or the default |
| Config.Get | src/main/java/com/passwordmanager/config/ConfigLoader.java:30-33 | before `init` the call throws `IllegalStateException`; after it, the value is present exactly when the key is, and it is the stored value |
| Config.GetOr | src/main/java/com/passwordmanager/config/ConfigLoader.java:35-38 | throws before `init`; afterwards it gives the stored value, or the default exactly when the key is absent |
| Config.GetInt | src/main/java/com/passwordmanager/config/ConfigLoader.java:40-45 | throws before `init`; an absent or non-numeric value gives the default; otherwise the trimmed value parsed as a 32-bit integer |
| Config.ReadsBeforeInitFail | src/main/java/com/passwordmanager/config/ConfigLoader.java:66-68 | all three readers throw on a loader that was never initialised |
| Config.GetIntTrims | src/main/java/com/passwordmanager/config/ConfigLoader.java:43 | a number padded with whitespace on both sides is read as that number |
| Config.GetIntMalformedDefaults | src/main/java/com/passwordmanager/config/ConfigLoader.java:44 | a malformed value such as "12ab" gives the default and does not throw |
| Hex.ToHex | src/main/java/com/passwordmanager/crypto/CryptoUtil.java:96-100 | two lower-case hex digits per byte |
| Hex.Digit | src/main/java/com/passwordmanager/crypto/CryptoUtil.java:106-107 | `Character.digit(c, 16)` is -1 or a digit value; every lower-case hex digit has the value whose digit it is |
| Hex.UnitDigit | src/main/java/com/passwordmanager/crypto/CryptoUtil.java:106-107 | `Character.digit` of half a surrogate pair is -1 |
| Hex.FromHex | src/main/java/com/passwordmanager/crypto/CryptoUtil.java:102-110 | an odd `length()`, counted in UTF-16 units, is an `IllegalArgumentException`; otherwise one byte per pair of units |
| Hex.FromHexBmp | src/main/java/com/passwordmanager/crypto/CryptoUtil.java:102-110 | for a string without characters beyond U+FFFF, the length test and the pairs are over characters: byte `i` packs the digits of characters `2i` and `2i+1` |
| Hex.FromHexCountsUnits | src/main/java/com/passwordmanager/crypto/CryptoUtil.java:103-107 | one emoji is two units that are no digits, so it decodes to 0xFF; a letter before it makes the length odd |
| Hex.FromHexToHex | src/main/java/com/passwordmanager/crypto/CryptoUtil.java:96-110 | decoding the hex form of any byte string gives it back |
| Hex.ToHexFromHex | src/main/java/com/passwordmanager/crypto/CryptoUtil.java:96-110 | a lower-case hex string of even length is the hex form of what it decodes to |
| Hex.FromHexAcceptsNonHex | src/main/java/com/passwordmanager/crypto/CryptoUtil.java:106-107 | `Character.digit` yields -1 for a non-hex character, so "zz" decodes to 0xFF and "g0" to 0xF0 instead of failing |
| Hex.FromHexIgnoresCase | src/main/java/com/passwordmanager/crypto/CryptoUtil.java:106-107 | upper- and lower-case hex digits decode alike |
| Crypto.DeriveKey | src/main/java/com/passwordmanager/crypto/CryptoUtil.java:33-43 | the key is PBKDF2 of the password, salt and iteration count; an empty salt or a non-positive iteration count is an `IllegalArgumentException` |
| Crypto.GenerateSalt | src/main/java/com/passwordmanager/crypto/CryptoUtil.java:88-92 | a salt is 16 random bytes |
| Crypto.Encrypt | src/main/java/com/passwordmanager/crypto/CryptoUtil.java:13-14 | the blob is the 12-byte IV followed by the ciphertext and the 16-byte tag |
| Crypto.Decrypt | src/main/java/com/passwordmanager/crypto/CryptoUtil.java:70-78 | a blob of at most 12 bytes is "Ciphertext too short"; otherwise decryption succeeds exactly when GCM opening of the tail under the leading IV succeeds |
| Crypto.EncryptString | src/main/java/com/passwordmanager/crypto/CryptoUtil.java:63-65 | the blob of a string is always longer than the IV |
| Crypto.DecryptString | src/main/java/com/passwordmanager/crypto/CryptoUtil.java:81-83 | succeeds exactly when byte decryption does, with the same error otherwise |
| Crypto.DecryptEncrypt | src/main/java/com/passwordmanager/crypto/CryptoUtil.java:48-78 | decrypting an encryption under the same key gives back the plaintext |
| Crypto.DecryptStringEncryptString | src/main/java/com/passwordmanager/crypto/CryptoUtil.java:63-83 | the same round trip for strings through UTF-8 |
| Crypto.ShortBlobFailures | src/main/java/com/passwordmanager/crypto/CryptoUtil.java:71 | a blob shorter than IV plus tag never decrypts: up to 12 bytes it is the length check, above that it is a tag failure |
| Crypto.HexStoredRoundTrip | src/main/java/com/passwordmanager/service/AuthService.java:52-57 | a secret encrypted, stored as hex and read back decodes and decrypts to itself |
| MetaStore.Get | src/main/java/com/passwordmanager/dao/MetaDAO.java:10-19 | `null` exactly when the key has no row, otherwise the stored value |
| MetaStore.Set | src/main/java/com/passwordmanager/dao/MetaDAO.java:21-30 | an upsert: the key now reads the new value, every other key reads as before, and no key disappears |
| MetaStore.Exists | src/main/java/com/passwordmanager/dao/MetaDAO.java:32-34 | `exists` holds exactly when the table has a row for the key |
| MetaStore.ExistsAfterSet | src/main/java/com/passwordmanager/dao/MetaDAO.java:32-34 | after `set` the key exists, and the existence of other keys is unchanged |
| MetaStore.SetLastWins | src/main/java/com/passwordmanager/dao/MetaDAO.java:22-23 | a second `set` of a key overrides the first; `set`s of different keys commute |
| FieldStore.NonBlank | src/main/java/com/passwordmanager/dao/FieldDAO.java:31 | the fields kept are exactly those whose value is not blank, with their values |
| FieldStore.SetFields | src/main/java/com/passwordmanager/dao/FieldDAO.java:17-48 | the entry's rows are replaced by exactly its non-blank fields, each stored as its value encrypted under the key; other entries' rows are untouched |
| FieldStore.GetFields | src/main/java/com/passwordmanager/dao/FieldDAO.java:51-66 | succeeds exactly when every row of the entry decrypts, and then gives each field name its decrypted value; otherwise fails with the error of a row that does not decrypt |
| FieldStore.GetRawField | src/main/java/com/passwordmanager/dao/FieldDAO.java:69-79 | the stored encrypted bytes of one field, `null` exactly when there is no such row |
| FieldStore.GetAfterSet | src/main/java/com/passwordmanager/dao/FieldDAO.java:17-66 | reading an entry's fields after storing them under the same key gives back exactly the non-blank ones |
| FieldStore.SetFieldsKeepsSealed | src/main/java/com/passwordmanager/dao/FieldDAO.java:32 | if every stored field decrypts under the key, that stays so after `setFields` with the same key |
| FieldStore.SealedReadable | src/main/java/com/passwordmanager/dao/FieldDAO.java:61 | when every stored field decrypts under the key, `getFields` cannot fail |
| FieldStore.SetEmptyClears | src/main/java/com/passwordmanager/dao/FieldDAO.java:22-23 | storing an empty field map leaves the entry with no fields |
| HistoryStore.Insert | src/main/java/com/passwordmanager/dao/HistoryDAO.java:37 | placing a new row into the ordered list makes it one row longer |
| HistoryStore.InsertSpec | src/main/java/com/passwordmanager/dao/HistoryDAO.java:37 | inserting a row keeps a list ordered by `changed_at` descending, adds exactly that row, and puts a row with the latest time first |
| HistoryStore.Prune | src/main/java/com/passwordmanager/dao/HistoryDAO.java:57-76 | the newest five rows are kept, or all of them when there are fewer |
| HistoryStore.Save | src/main/java/com/passwordmanager/dao/HistoryDAO.java:20-31 | adds one row for the entry, never keeps more than five, leaves other entries' history alone and keeps the table well formed |
| HistoryStore.SavedRowsValid | src/main/java/com/passwordmanager/dao/HistoryDAO.java:20-31 | the new row with the next id, inserted and pruned, leaves every entry's rows well formed and newest first |
| HistoryStore.SaveKeepsNewest | src/main/java/com/passwordmanager/dao/HistoryDAO.java:58-67 | every row the prune deletes is older than every row it keeps |
| HistoryStore.SaveAtLatestTime | src/main/java/com/passwordmanager/dao/HistoryDAO.java:20-37 | a password saved no earlier than every row already stored is the newest row afterwards |
| HistoryStore.FindByEntry | src/main/java/com/passwordmanager/dao/HistoryDAO.java:34-54 | one decrypted password per row, in the rows' order, with id, entry and time kept; fails exactly when some row does not decrypt |
| HistoryStore.FindEntry | src/main/java/com/passwordmanager/service/VaultService.java:67-69 | an entry's history has at most five items, newest first |
| HistoryStore.SaveKeepsSealed | src/main/java/com/passwordmanager/dao/HistoryDAO.java:21 | if all history rows decrypt under the key, that stays so after `save` with the same key |
| HistoryStore.FindAfterSave | src/main/java/com/passwordmanager/dao/HistoryDAO.java:20-54 | reading the history right after saving a password gives that password first, stamped with the save time |
| HistoryStore.SaveStep | src/main/java/com/passwordmanager/dao/HistoryDAO.java:20-31 | one more save in time order keeps the history equal to the last five passwords saved, newest first |
| HistoryStore.SaveAll | src/main/java/com/passwordmanager/dao/HistoryDAO.java:20-31 | saving any sequence of passwords keeps the history table well formed |
| HistoryStore.SaveAllHolds | src/main/java/com/passwordmanager/dao/HistoryDAO.java:14-76 | after saving passwords in time order, the rows are the last five of them, newest first, all decryptable |
| HistoryStore.KeepsLastFive | src/main/java/com/passwordmanager/dao/HistoryDAO.java:33-37 | reading after any number of saves gives the last five passwords saved, newest first, with their times |
| BackupCodes.ReplaceAll | src/main/java/com/passwordmanager/dao/BackupCodeDAO.java:15-39 | every old code is gone; there is one unused row per new code, holding that code's hash |
| BackupCodes.CountUnused | src/main/java/com/passwordmanager/dao/BackupCodeDAO.java:66-73 | the number of unused codes never exceeds the number of codes |
| BackupCodes.MarkUsed | src/main/java/com/passwordmanager/dao/BackupCodeDAO.java:75-82 | exactly the row with that id becomes used; no row is added or removed |
| BackupCodes.FirstMatch | src/main/java/com/passwordmanager/dao/BackupCodeDAO.java:48-60 | the first unused row whose hash verifies the code, and none exactly when no unused row does |
| BackupCodes.Consume | src/main/java/com/passwordmanager/dao/BackupCodeDAO.java:47-63 | true exactly when some unused code matches; then one matching row becomes used; on false nothing changes |
| BackupCodes.VerifyAndConsume | src/main/java/com/passwordmanager/dao/BackupCodeDAO.java:47-63 | the row loop: true exactly when an unused code matches, marking it used; on false the store is unchanged |
| BackupCodes.CountMatchingPositive | src/main/java/com/passwordmanager/dao/BackupCodeDAO.java:52-59 | the count of unused codes matching a code is positive exactly when some unused row matches it |
| BackupCodes.ConsumeCounts | src/main/java/com/passwordmanager/dao/BackupCodeDAO.java:56-58 | a successful use lowers the unused count and the number of codes matching it by one each |
| BackupCodes.UsedStaysUsed | src/main/java/com/passwordmanager/dao/BackupCodeDAO.java:48 | a used code is never touched again |
| BackupCodes.ReplaceAllCounts | src/main/java/com/passwordmanager/dao/BackupCodeDAO.java:22-29 | after replacing, every code is unused and a code matches as many rows as it occurs in the list |
| BackupCodes.SingleUse | src/main/java/com/passwordmanager/dao/BackupCodeDAO.java:41-63 | a freshly stored code that occurs once is accepted once and then refused |
| Auth.Pow2Monotone | src/main/java/com/passwordmanager/service/AuthService.java:165 | the shift factor `1L << k` grows with `k` |
| Auth.LockoutWindow | src/main/java/com/passwordmanager/service/AuthService.java:149-168 | once a lockout is applied at `now`, `isLockedOut` holds at time `t` exactly when `t` is before `now` plus the delay: at `now` itself, never after 5120 seconds |
| Auth.Delay | src/main/java/com/passwordmanager/service/AuthService.java:165 | a lockout lasts between 5 seconds and 5120 seconds |
| Auth.DelayMonotone | src/main/java/com/passwordmanager/service/AuthService.java:165 | the delay doubles with each failure up to the tenth beyond the limit and is capped after that |
| Auth.ApplyBackoff | src/main/java/com/passwordmanager/service/AuthService.java:163-168 | below five attempts nothing changes; from five on the lockout ends `now` plus the delay; the key and counters are untouched |
| Auth.RecordPasswordFailure | src/main/java/com/passwordmanager/service/AuthService.java:153-168 | counts one password failure and leaves the TOTP counter and the key alone; from the fifth failure on `lockedUntil` becomes `now` plus the delay, before that it is unchanged |
| Auth.RecordTotpFailure | src/main/java/com/passwordmanager/service/AuthService.java:158-168 | counts one TOTP failure and leaves the password counter and the key alone; from the fifth failure on `lockedUntil` becomes `now` plus the delay, before that it is unchanged |
| Auth.ParseStored | src/main/java/com/passwordmanager/service/AuthService.java:88 | a missing iteration count is a `NumberFormatException`; otherwise the stored text is parsed |
| Auth.HexStored | src/main/java/com/passwordmanager/service/AuthService.java:89 | a missing hex value fails as a `null` dereference; otherwise the stored text is decoded |
| Auth.CandidateKey | src/main/java/com/passwordmanager/service/AuthService.java:87-91 | a key is derived exactly when the iteration count parses to a positive number and the salt decodes to non-empty bytes, and it is PBKDF2 of those |
| Auth.TotpSecret | src/main/java/com/passwordmanager/service/AuthService.java:173-177 | the stored TOTP secret is readable exactly when it is present, decodes and decrypts under the key |
| Auth.VerifyMasterPassword | src/main/java/com/passwordmanager/service/AuthService.java:84-108 | refused without effect while locked out; a KDF failure escapes with the session unchanged; otherwise accepted exactly when the candidate key decrypts the TOTP secret, which then becomes the session key with the counter reset; a rejection clears the key and counts a failure with backoff |
| Auth.VerifyTotp | src/main/java/com/passwordmanager/service/AuthService.java:113-124 | without a session key it is an `IllegalStateException`; while locked out it refuses without effect; a stored secret that cannot be read or decrypted escapes as that error with the session untouched, before any counter changes; true exactly when the TOTP check accepts the code for the decrypted secret, resetting the TOTP counter; a rejection counts a TOTP failure and applies the backoff to `lockedUntil` |
| Auth.VerifyBackupCode | src/main/java/com/passwordmanager/service/AuthService.java:127-130 | without a session key it is an `IllegalStateException`; otherwise true exactly when an unused code matches, and the store returned is the one `verifyAndConsume` leaves (that row marked used) or, on false, the store unchanged; it ignores the lockout |
| Auth.GetSessionKey | src/main/java/com/passwordmanager/service/AuthService.java:140-143 | gives the key exactly when the vault is unlocked, and "Vault is locked" otherwise |
| Auth.VaultSetupBySalt | src/main/java/com/passwordmanager/service/AuthService.java:134-136 | `isVaultSetup` is true exactly when the salt row exists: false on an empty table, unchanged by writes to other keys |
| Auth.LockedHasNoKey | src/main/java/com/passwordmanager/service/AuthService.java:138-145 | after `lock`, `isUnlocked` is false and `getSessionKey` throws "Vault is locked" |
| Auth.Lock | src/main/java/com/passwordmanager/service/AuthService.java:145 | drops the session key and leaves the counters and lockout |
| Auth.StoreKdf | src/main/java/com/passwordmanager/service/AuthService.java:55-57 | read back the way `verifyMasterPassword` and `getTotpSecret` read them, the salt decodes to the salt, the iteration count parses to 200000 and the TOTP entry decodes to the encrypted secret; no other key changes |
| Auth.SetupVault | src/main/java/com/passwordmanager/service/AuthService.java:45-63 | returns the TOTP secret, marks the vault as set up, holds the key derived from the fresh salt and touches no other meta key |
| Auth.StoredKdfUnlocks | src/main/java/com/passwordmanager/service/AuthService.java:55-57 | from the stored entries the same password derives the same key, and that key decrypts the stored secret |
| Auth.SetupThenVerify | src/main/java/com/passwordmanager/service/AuthService.java:45-108 | after setup, the setup password passes step 1 outside a lockout and yields the setup key |
| Auth.ChangeMasterPassword | src/main/java/com/passwordmanager/service/AuthService.java:188-202 | succeeds exactly when the old password verifies; a rejected old password is a `SecurityException` with the verify effects kept; on success the session key is derived from the new password and fresh salt, the stored salt and iteration count read back as that salt and 200000, and no meta key other than the three KDF and TOTP entries changes |
| Auth.ChangeThenVerify | src/main/java/com/passwordmanager/service/AuthService.java:188-202 | after a change the new password unlocks the vault with the new key, and that key decrypts the same TOTP secret as before |
| Auth.FiveFailuresLockOut | src/main/java/com/passwordmanager/service/AuthService.java:25-26 | four rejections do not lock; the fifth locks for 5 seconds; a sixth attempt in that window is refused without being counted |
| Auth.TotpLockoutBlocksPassword | src/main/java/com/passwordmanager/service/AuthService.java:149 | the lockout is shared: a TOTP failure at the limit also blocks the password step |
| Auth.GenerateBackupCodes | src/main/java/com/passwordmanager/service/AuthService.java:71-79 | under a default locale with Latin digits, `count` codes (none for a negative count), each three groups of four digits holding the three draws reduced below 10000 |
| Auth.FormatCodeShape | src/main/java/com/passwordmanager/service/AuthService.java:75 | `%04d-%04d-%04d` under a Latin-digit locale has the fixed shape, and each group reads back as its number |
| Entries.Name | src/main/java/com/passwordmanager/model/EntryType.java:5 | every type's name is a non-empty upper-case word |
| Entries.From | src/main/java/com/passwordmanager/model/EntryType.java:8-10 | succeeds exactly when the upper-cased name is a type's name, giving that type; otherwise an `IllegalArgumentException` |
| Entries.FromName | src/main/java/com/passwordmanager/model/EntryType.java:8-10 | a type is read back from its name in any letter case |
| Entries.NamesDistinct | src/main/java/com/passwordmanager/model/EntryType.java:5 | different types have different names |
| Entries.FromLowerCase | src/main/java/com/passwordmanager/model/EntryType.java:7 | "login" and "Note" are accepted; "secret" is refused |
| Entries.GetField | src/main/java/com/passwordmanager/model/EntryDto.java:24-26 | the stored value, or "" when the key is absent |
| Entries.SetField | src/main/java/com/passwordmanager/model/EntryDto.java:28-31 | a `null` or blank value removes the key, anything else is stored; other keys and the other attributes are unchanged |
| Entries.SetFieldKeepsNoBlank | src/main/java/com/passwordmanager/model/EntryDto.java:28-31 | `setField` never stores a blank value |
| Entries.SetFieldsNoBlank | src/main/java/com/passwordmanager/model/EntryDto.java:28-31 | a field map built only through `setField` never holds a blank value |
| Vault.IndexOf | src/main/java/com/passwordmanager/dao/CategoryDAO.java:46 | the position of the first category with that exact name, none exactly when there is none |
| Vault.FindOrCreate | src/main/java/com/passwordmanager/dao/CategoryDAO.java:45-58 | an existing name keeps the table and gives its id; a new name is appended and gets the next id |
| Vault.ResolveCategory | src/main/java/com/passwordmanager/service/VaultService.java:106-109 | no category exactly for a `null` or blank name; otherwise the category of the trimmed name, created only when missing |
| Vault.ResolveCategoryIdempotent | src/main/java/com/passwordmanager/service/VaultService.java:106-109 | resolving the same name twice gives the same id and creates nothing the second time |
| Vault.TagNames | src/main/java/com/passwordmanager/dao/TagDAO.java:71-72 | each tag name is trimmed, in the given order |
| Vault.CreateEntry | src/main/java/com/passwordmanager/service/VaultService.java:23-33 | a new id is returned and only that entry is added, carrying the dto's type, title, favourite flag, resolved category and `now` as both timestamps; other entries and the history are unchanged |
| Vault.CategoryName | src/main/java/com/passwordmanager/service/VaultService.java:122-125 | the name of the entry's category, `null` when it has none or it no longer exists |
| Vault.GetEntry | src/main/java/com/passwordmanager/service/VaultService.java:35-39 | `null` for an unknown id; otherwise succeeds exactly when the fields decrypt, giving the stored row's attributes, its category name, its tags and its decrypted fields |
| Vault.CreateThenGet | src/main/java/com/passwordmanager/service/VaultService.java:23-39 | a created entry reads back with the dto's type, title, favourite flag, trimmed tags and exactly its non-blank fields |
| Vault.UpdateEntry | src/main/java/com/passwordmanager/service/VaultService.java:73-92 | an unknown id is "Entry not found"; only a LOGIN whose fields fail to decrypt can fail otherwise; on success only that entry changes, with its creation time kept and `now` as its update time, and other entries' fields and history are untouched |
| Vault.UpdatePushesOldPassword | src/main/java/com/passwordmanager/service/VaultService.java:78-83 | for a LOGIN whose old password is not blank and differs from the new one, the old password becomes the newest history item |
| Vault.UpdateWithoutHistory | src/main/java/com/passwordmanager/service/VaultService.java:77-84 | a non-LOGIN entry, a blank old password or an unchanged one writes no history |
| Vault.UpdateReplacesFields | src/main/java/com/passwordmanager/service/VaultService.java:73-91 | an update of an existing entry succeeds unless it is a LOGIN whose stored fields do not decrypt; afterwards the entry reads back with exactly the dto's non-blank fields and its trimmed tags |
| PasswordGenerator.Selected | src/main/java/com/passwordmanager/service/PasswordGenerator.java:15-16 | at most four classes are selected |
| PasswordGenerator.Pool | src/main/java/com/passwordmanager/service/PasswordGenerator.java:19-24 | the alphabet holds exactly the characters of the selected classes, or the lower-case letters when none is selected |
| PasswordGenerator.Mandatory | src/main/java/com/passwordmanager/service/PasswordGenerator.java:29-33 | one character from each selected class, all from the pool |
| PasswordGenerator.Shuffle | src/main/java/com/passwordmanager/service/PasswordGenerator.java:37-42 | Fisher–Yates yields a permutation of its input |
| PasswordGenerator.Pad | src/main/java/com/passwordmanager/service/PasswordGenerator.java:35 | the prefix is kept and filled up to the length from the pool |
| PasswordGenerator.Generate | src/main/java/com/passwordmanager/service/PasswordGenerator.java:15-44 | a length below 1 is an `IllegalArgumentException`; otherwise the password has the requested length (or the class count when that is larger), only pool characters, and at least one character of each selected class |
| PasswordGenerator.ShuffleKeeps | src/main/java/com/passwordmanager/service/PasswordGenerator.java:37-43 | shuffling keeps every selected class represented and every character in the pool |
| PasswordGenerator.Criteria | src/main/java/com/passwordmanager/service/PasswordGenerator.java:49-54 | at most five criteria can be met |
| PasswordGenerator.Strength | src/main/java/com/passwordmanager/service/PasswordGenerator.java:47-56 | the score is between 0 and 4, and 0 for `null` or "" |
| PasswordGenerator.StrengthCountsUnits | src/main/java/com/passwordmanager/service/PasswordGenerator.java:50-51 | the length criteria count UTF-16 units: four emoji and a capital letter score 2 |
| PasswordGenerator.LowerCaseEarnsNothing | src/main/java/com/passwordmanager/service/PasswordGenerator.java:50-54 | an all-lower-case password scores by length alone |
| PasswordGenerator.StrengthMonotone | src/main/java/com/passwordmanager/service/PasswordGenerator.java:47-56 | appending characters never lowers the score |
| PasswordGenerator.GeneratedIsStrong | src/main/java/com/passwordmanager/service/PasswordGenerator.java:15-56 | a password of at least eight characters with upper case, digits and symbols represented scores 4 |
| Audit.EntryFindings | src/main/java/com/passwordmanager/service/AuditService.java:38-57 | per-entry findings carry the entry's id and title, are never reuse findings and never repeat an issue |
| Audit.EntryFindingsRules | src/main/java/com/passwordmanager/service/AuditService.java:38-57 | weak exactly when the password is not blank and scores below 2; old exactly when more than 90 days have passed since the last update; missing URL or TOTP exactly when that field is blank |
| Audit.AllEntryFindings | src/main/java/com/passwordmanager/service/AuditService.java:32-58 | the first phase reports exactly the findings of each entry |
| Audit.DistinctPasswords | src/main/java/com/passwordmanager/service/AuditService.java:60-62 | the map's keys are exactly the non-blank passwords in use, each listed once |
| Audit.TitlesFor | src/main/java/com/passwordmanager/service/AuditService.java:61 | the titles listed under a password are exactly those of the entries using it |
| Audit.TitlesForShared | src/main/java/com/passwordmanager/service/AuditService.java:68 | a password's list holds two or more titles exactly when two different entries use it |
| Audit.FirstWithTitle | src/main/java/com/passwordmanager/service/AuditService.java:72-76 | the first entry with the title, none exactly when no entry has it |
| Audit.FlagTitles | src/main/java/com/passwordmanager/service/AuditService.java:69-78 | each title not yet flagged is flagged and reported once, with the first entry bearing it |
| Audit.FlagAll | src/main/java/com/passwordmanager/service/AuditService.java:66-80 | the reuse phase reports each title of a shared password once, skipping titles already flagged |
| Audit.SharedTitlesAreReused | src/main/java/com/passwordmanager/service/AuditService.java:60-80 | the titles flagged are exactly those of entries whose non-blank password another entry also uses |
| Audit.Run | src/main/java/com/passwordmanager/service/AuditService.java:27-83 | `run` lists all per-entry findings first and the reuse findings after them: a finding is a reuse finding exactly when it comes after the per-entry ones |
| Audit.RunEntryPart | src/main/java/com/passwordmanager/service/AuditService.java:32-58 | the first part of `run`'s list holds exactly the findings of each entry |
| Audit.RunReusePart | src/main/java/com/passwordmanager/service/AuditService.java:60-80 | the rest of `run`'s list holds one reuse finding per reused title, none twice, each with the id of the first entry bearing that title |
| Importer.Path | src/main/java/com/passwordmanager/service/ImportExportService.java:87 | `path` gives the member when present, and the missing node otherwise |
| Importer.AbsentMemberDefaults | src/main/java/com/passwordmanager/service/ImportExportService.java:93-96 | an absent member reads as the default given to `asText`, `asInt` or `asBoolean` |
| Importer.AsText | src/main/java/com/passwordmanager/service/ImportExportService.java:93 | `asText(default)` gives the default for a missing or `null` node and "" for an array or object |
| Importer.AsInt | src/main/java/com/passwordmanager/service/ImportExportService.java:96 | `asInt(default)` is always an `int` when the default is, and is the default for a missing, `null` or container node |
| Importer.AsBoolean | src/main/java/com/passwordmanager/service/ImportExportService.java:94 | `asBoolean(default)` is the default for a missing, `null` or container node |
| Importer.PresentMembersRead | src/main/java/com/passwordmanager/service/ImportExportService.java:93-96 | a string member reads as its text; a number member reads as its value cast to `int`, which is the value itself when it fits |
| Importer.NewDto | src/main/java/com/passwordmanager/service/ImportExportService.java:92-94 | a new dto has the given type, title and favourite flag, with no fields, tags or category |
| Importer.SafeGet | src/main/java/com/passwordmanager/service/ImportExportService.java:165-167 | the trimmed cell when it exists and is not `null`, the default otherwise |
| Importer.SafeGetTrimmed | src/main/java/com/passwordmanager/service/ImportExportService.java:165-167 | a present cell is read trimmed |
| Importer.KeePassRow | src/main/java/com/passwordmanager/service/ImportExportService.java:130-137 | a row becomes an entry exactly when it has at least three cells |
| Importer.KeePassRowFields | src/main/java/com/passwordmanager/service/ImportExportService.java:131-137 | an accepted row is a LOGIN titled by its first cell, whose fields are exactly the non-blank cells of columns one to four under username, password, url and notes |
| Importer.KeePassEntries | src/main/java/com/passwordmanager/service/ImportExportService.java:126-127 | an empty file or a header alone yields no entries |
| Importer.KeePassEntriesSpec | src/main/java/com/passwordmanager/service/ImportExportService.java:129-140 | one entry per data row with at least three cells, and each entry comes from such a row |
| Importer.BitwardenItem | src/main/java/com/passwordmanager/service/ImportExportService.java:92-111 | an item becomes an entry exactly when its type (1 when absent) is 1 or 2, titled by its name ("Untitled" by default), with its favourite flag |
| Importer.BitwardenLogin | src/main/java/com/passwordmanager/service/ImportExportService.java:97-105 | a login item keeps exactly its non-blank username and password, and the first uri when `uris` is a non-empty array |
| Importer.BitwardenNote | src/main/java/com/passwordmanager/service/ImportExportService.java:106-108 | a note item keeps only its notes, as `body` |
| Importer.BitwardenTypes | src/main/java/com/passwordmanager/service/ImportExportService.java:96-111 | an item without a type is a login; types 3 and 4 are skipped; type 2^32 + 2 is cast to 2 and makes a note |
| Importer.BitwardenEntries | src/main/java/com/passwordmanager/service/ImportExportService.java:87-88 | a root whose `items` is not an array is "Not a valid Bitwarden export" |
| Importer.BitwardenEntriesSpec | src/main/java/com/passwordmanager/service/ImportExportService.java:91-114 | one entry per item of type 1 or 2, and each entry comes from such an item |
| Importer.CreateEntryAppends | src/main/java/com/passwordmanager/service/VaultService.java:23-33 | `createEntry` adds exactly one entry under the next id with the dto's type, title and favourite flag, keeps every existing entry, stores the dto's non-blank fields each encrypted under its own drawn IV, leaves every other entry's field rows alone, and the new entry's fields read back as the dto's non-blank fields |
| Importer.SealedFromReads | src/main/java/com/passwordmanager/dao/FieldDAO.java:17-66 | field rows holding a dto's non-blank fields, each encrypted under the vault key, read back through `getFields` as exactly those fields |
| Importer.CreateOne | src/main/java/com/passwordmanager/service/ImportExportService.java:112 | one `createEntry` call advances the id counter by one, appends its entry and stores its fields so that they read back as the dto's non-blank fields |
| Importer.CreateAll | src/main/java/com/passwordmanager/service/ImportExportService.java:112-113 | creating the dtos in order adds exactly one new entry per dto under consecutive ids, each with its dto's type, title and favourite flag, and keeps the old entries; the `k`-th dto's non-blank fields are stored encrypted under the IVs `ivs(k)` and read back as exactly those fields; no other entry's field rows change |
| Importer.ImportKeePass | src/main/java/com/passwordmanager/service/ImportExportService.java:123-143 | the count returned is the number of data rows with at least three cells and the number of entries added; entry `k` of the new ids has the type, title and favourite flag of the `k`-th mapped row and reads back its non-blank username, password, url and notes; old entries are kept; a header-only or empty file adds nothing |
| Importer.ImportBitwarden | src/main/java/com/passwordmanager/service/ImportExportService.java:85-116 | rejected exactly when `items` is not an array, before any entry is made; otherwise the count is the number of items of type 1 or 2 and the number of entries added, entry `k` of the new ids has the type, title and favourite flag of the `k`-th mapped item and reads back its non-blank login or note fields, and old entries are kept |

## Left out

- **SQL and the database.** Transactions, rollback and connection handling are not modelled (`FieldDAO` 41-43, `BackupCodeDAO` 32-34, `TagDAO` 80-82). Neither are SQL failures or concurrent access. Each DAO call is one atomic step.
- **MySQL behaviour.** Collation and case-insensitive matching of names are not modelled; category and tag names match exactly.
- **Unordered results.**
  - Tag de-duplication (`INSERT IGNORE`) and the `ORDER BY name` of tag reads are left out. An entry's tags are its trimmed names in the given order.
  - The `LinkedHashMap` field order is left out; fields are a map.
  - The `SELECT` order of backup-code rows is taken as insertion order.
  - History rows with equal `changed_at` are taken newest-id first. MySQL leaves that order open.
- Audit.RunReusePart: the order of reuse findings between passwords follows the first use of each password. Java's `HashMap` order is unspecified. The set of reported titles, their ids and their uniqueness do not depend on it.
- Audit.Run: the logins arrive with their fields already decrypted. A decryption failure inside `run` is not modelled.
- **The clock.** One `now` per service call stands for all of its `currentTimeMillis` reads. The history row and the entry update share it, and so do all entries of one import.
- **Randomness.** `SecureRandom.nextInt(bound)` and `Random.nextInt(bound)` are modelled as a draw reduced modulo the bound. Their distribution is not modelled.
- **Unicode.** Character classes (`isUpperCase`, `isDigit`, `toUpperCase`, `Character.digit`) are modelled over ASCII. `isBlank` uses Java's whitespace list. `length()` and `charAt` count UTF-16 units where the code depends on them (`strength`, `fromHex`).
- Text.ToUpper: only ASCII letters are mapped. Java's `toUpperCase()` uses the default locale and full Unicode case mapping, which can change the length ("ß" becomes "SS") and, under a Turkish locale, turns "i" into "İ". So "logın" is a LOGIN in Java (dotless ı upper-cases to I) but an `IllegalArgumentException` in `Entries.From`, and under a Turkish locale Java refuses "login" while the model accepts it.
- Hex.Digit: `Character.digit` also accepts non-ASCII digits and the full-width Latin letters A to F. The model gives -1 for them, so `Hex.FromHex` decodes such a string differently from Java.
- Text.ParseInt: `Integer.parseInt` also accepts non-ASCII decimal digits. The model refuses them.
- Auth.GenerateBackupCodes: `String.format` uses the default format locale, whose digits and zero padding it localises. Under a locale with other digits (Persian, or a `-u-nu-arab` extension) Java emits Arabic-Indic digit groups. The model formats as under a locale with Latin digits, as do Text.ZeroPadFour and Auth.FormatCodeShape.
- Auth.ApplyBackoff: the `int` failure counters are unbounded. Wrap-around after 2^31 failures is not modelled.
- **Crypto primitives.** AES-GCM, PBKDF2 and UTF-8 are abstract. Only the laws listed in `Crypto.Sound` are assumed.
  - That a wrong key fails the tag check is not assumed, so password acceptance is stated as "the candidate key opens the stored secret".
  - The bcrypt work factor and salt are folded into the abstract `Hasher`.
- **TOTP.** `TotpUtil` (RFC 6238 code generation and verification, Base32 secrets) is not part of this model. Its verify is a parameter and its generated secret an argument.
- **Memory wiping.** Clearing password arrays (`Arrays.fill`, `clearPassword`) has no counterpart in a value model.
- `getTotpSecretForSetup` is `getTotpSecret` under the session key, which `Auth.TotpSecret` models. `storeBackupCodes` is `BackupCodes.ReplaceAll`.
- `countUnused` is the query `BackupCodes.CountUnused`.
- **Other CRUD.** `listAll`, `search`, `listByCategory`, `listFavorites`, `listCategories`, `listTags`, `toggleFavorite` and `deleteEntry` are plain queries and updates that carry no security rule. They are left out.
- **Encrypted export and import.** `exportEncrypted`, `importEncrypted` and `importFromJsonArray` are left out. They are file I/O and JSON serialisation around the same `createEntry` calls.
- **Parsing.** File reading, CSV parsing and JSON parsing are left out. The importers take the parsed rows and the parsed tree.
- **Jackson conversions.** JSON numbers are integers. Floating-point numbers are left out. `asText` of an array or object is "", as in Jackson.
- Importer.AsInt: for a text node Jackson falls back to `parseDouble` when the trimmed text is not a plain decimal numeral, so "2.5" reads as 2. The model gives the default for such texts. Numbers outside the `int` range are cast to their low 32 bits, as Jackson does.
- `ConfigLoader.init`'s file lookup and reading are left out. `Config.Load` takes the loaded properties.
