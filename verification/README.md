# Password vault engine, modelled in Dafny

This project models the engine of a small single-user password manager
(`code.py`). The windowed screens are left out. What remains:

- **Encoder**: how every secret is stored. Each secret is Base64 (standard
  alphabet, `=` padding, section 4 of RFC 4648) of its UTF-8 bytes. Decoding
  fails closed and returns the empty text.
- **Vault store**: the dict from site to `{username, encoded password}`. It
  keeps insertion order and supports add/update, exact-key search,
  list-all and delete.
- **Persistence**: the data file. It holds the encoded JSON text of the whole
  vault. Loading degrades to the empty vault when the file is missing, empty
  or corrupt.
- **Master gate**: the master key file and the screens it unlocks. The flow
  is setup screen → login screen → main screen.
- **Password generator**: one letter, one digit, one punctuation character,
  then filler characters, then a Fisher-Yates shuffle.

Files, one module each:

- `wrappers.dfy`: `Option`.
- `base64.dfy`: `Encode` and a strict `Decode`.
- `utf8.dfy`: UTF-8 as an abstract lawful codec.
- `encoder.dfy`: `Encrypt`/`Decrypt`.
- `text.dfy`: Python's `str.strip()`.
- `store.dfy`: the ordered dict.
- `persistence.dfy`: load and save.
- `master.dfy`: the key file and its check.
- `generator.dfy`: the password generator.
- `app.dfy`: the session and the operations the screens call.

The model parameterises what it cannot see:

- UTF-8 is a `Codec` value restricted by `Lawful`.
- The JSON library is a `Json` value restricted by `Faithful`. Its round trip
  is an assumption (a `requires`), not a proved fact.
- Each file is an `Option<string>`, with `None` meaning the file is absent.
- Each write's outcome is a `Write` parameter. `Failed(residue)` carries
  whatever the failed write left on disk.
- Every random choice is an explicit index in `Draws`.
- Dialog answers are plain parameters: the prompt text (`None` when cancelled)
  and the yes/no confirmation.

Behaviour of the code worth knowing:

- `generate_password` with `length < 3` neither fails nor clamps to
  `length`. It returns 3 characters, because `range(length - 3)` is empty.
- `add_entry` stores the stripped username and the stripped password, not
  the text as typed.
- Search and delete look the site up exactly as typed, without stripping.
- The listing order survives a save and a reload. JSON keeps object order,
  and `LoadAfterSave` proves the vault comes back with the same order.

## Model

| member | source | states |
|---|---|---|
| Base64.Encode | code.py:16-17 | the encoding of n bytes has 4*ceil(n/3) characters: alphabet characters, then (3 - n mod 3) mod 3 `=` characters at the end |
| Base64.Decode | code.py:23 | a string whose length is not a multiple of four is rejected |
| Base64.DecodeEncode | code.py:16-23 | decoding the encoding of any byte sequence, the empty one included, gives it back |
| Base64.EncodeDecode | code.py:23 | whatever the strict decoder accepts is exactly the encoding of the bytes it returns (it accepts only canonical encodings) |
| Base64.DecodeAcceptsExactlyEncodings | code.py:23 | the strict decoder succeeds on a string if and only if the string is the encoding of some bytes |
| Base64.EncodeInjective | code.py:17 | different byte sequences have different encodings |
| Base64.EncodeEmpty | code.py:17 | only the empty byte sequence encodes to the empty string |
| Utf8.EncodeEmptyOnlyForEmpty | code.py:16 | a lawful codec encodes only the empty text to no bytes |
| Utf8.EncodeInjective | code.py:16 | a lawful codec encodes different texts to different bytes |
| Encoder.Encrypt | code.py:15-18 | the encoded text uses only the Base64 alphabet plus `=`, and its length is 4*ceil(n/3) for n UTF-8 bytes, so a multiple of four |
| Encoder.Decrypt | code.py:21-26 | malformed Base64 gives the empty text, and so do bytes that are not valid UTF-8; it never fails |
| Encoder.DecryptEncrypt | code.py:15-26 | decrypt(encrypt(s)) == s for every text, the empty one included |
| Encoder.EncryptDecrypt | code.py:15-26 | a string that decodes to non-empty text is exactly the encoding of that text |
| Encoder.DecryptIsExactlyEncrypt | code.py:15-26 | for non-empty s, t decodes to s if and only if t is the encoding of s |
| Encoder.EncryptInjective | code.py:15-18 | different texts have different encodings |
| Encoder.EncryptEmpty | code.py:15-18 | the encoding is empty if and only if the text is |
| Encoder.DecryptShortOrEmpty | code.py:21-26 | under the strict decoder, the empty string and any string whose length is not a multiple of four decode to the empty text |
| Text.SkipStart | code.py:206-208 | the returned index stays in range, every character it skips is whitespace, and it stops at the end or at a non-whitespace character |
| Text.SkipEnd | code.py:206-208 | the returned index stays between the bounds, every character it skips is whitespace, and it stops at the lower bound or after a non-whitespace character |
| Text.Strip | code.py:206-208 | the result is a slice of the input surrounded only by whitespace, and it neither starts nor ends with whitespace |
| Text.StripEmptyIffAllSpace | code.py:206-210 | a field counts as empty after stripping exactly when it is all whitespace |
| Text.StripUntrimmed | code.py:206-208 | a string with no whitespace at either end strips to itself |
| Text.StripIdempotent | code.py:206-208 | stripping twice is the same as stripping once |
| Store.Put | code.py:215-218 | after `data[site] = e` the site maps to e, every other key keeps its entry, and the order still lists every key once |
| Store.PutExistingKeepsOrder | code.py:215 | overwriting a present key leaves the insertion order unchanged |
| Store.Remove | code.py:282 | `del` removes exactly that key and every other key keeps its entry; on an absent key `Remove` changes nothing, and code.py:275 checks presence before `del` |
| Store.Without | code.py:282 | removing a key from the order keeps every other key, and keeps the order free of duplicates |
| Store.WithoutAt | code.py:282 | in a duplicate-free order, removing the key at position i removes exactly that position |
| Store.Items | code.py:246 | `items()` yields one row per key in insertion order: row i is the i-th inserted site with its entry |
| Store.PutKeepsPosition | code.py:215 | overwriting a present site changes only its row, in place |
| Store.PutAppends | code.py:215 | adding a new site appends one row at the end |
| Store.RemoveDropsRow | code.py:282 | deleting a site removes its row and keeps the other rows in order |
| Store.FromItems | code.py:38 | building a dict from parsed items always gives a valid vault: every key listed once in the order, and the order lists exactly the keys |
| Store.FromItemsKeys | code.py:38 | the keys of the dict built from items are exactly the items' sites |
| Store.FromItemsLastWins | code.py:38 | a site that occurs several times among the items holds the entry of its last occurrence |
| Store.FromItemsOrder | code.py:38 | of two keys in the built dict, the earlier one occurs among the items before the later one first occurs, so a repeated site keeps its first position |
| Store.FromItemsOfItems | code.py:38 | reading back a vault's own items rebuilds the same keys, entries and order |
| Persistence.Load | code.py:31-46 | a missing file, an empty file and an unparsable file all give the empty vault; only the last is reported as corrupt; the result is always valid |
| Persistence.Save | code.py:49-58 | save reports success exactly when the write succeeded; a failed write is reported and leaves its residue |
| Persistence.LoadAfterSave | code.py:31-58 | loading a saved vault gives back the same vault, order included, with status loaded |
| Persistence.GarbageIsCorrupt | code.py:35-43 | a non-empty file that the strict decoder rejects, or that is not valid UTF-8, loads as the empty vault with status corrupt |
| MasterGate.Setup | code.py:62-69 | the setup reports success exactly when the key file was written |
| MasterGate.CheckAsWritten | code.py:72-79 | without a key file nothing is admitted; with one, a candidate is admitted exactly when it equals the decoded key file |
| MasterGate.AsWrittenAdmitsEmptyOnBlankKeyFile | code.py:72-79 | an empty key file admits the empty password |
| MasterGate.AsWrittenAdmitsEmptyOnGarbageKeyFile | code.py:72-79 | a key file holding `!!!!` admits the empty password |
| MasterGate.Check | code.py:72-79 | without a key file nothing is admitted, and the empty password is never admitted |
| MasterGate.CheckOnlyFromSetup | code.py:62-79 | a candidate is admitted exactly when it is non-empty and the key file is what setting it up writes |
| MasterGate.SetupThenCheck | code.py:62-79 | after a successful setup of a non-empty P, exactly P is admitted (so P + "x" is refused) |
| MasterGate.SetupThenCheckAsWritten | code.py:62-79 | after a successful setup of P, the check as written admits exactly P |
| Generator.ClassContents | code.py:85-88 | the letters, digits and punctuation classes have 52, 10 and 32 characters, 94 in all |
| Generator.ClassesDisjoint | code.py:85-87 | no character is in two of the classes |
| Generator.Chosen | code.py:89-95 | the pre-shuffle list has 3 + max(length - 3, 0) characters |
| Generator.ChosenCoversClasses | code.py:89-95 | every chosen character is in the union of the classes, and the first three are a letter, a digit and a punctuation character |
| Generator.Shuffle | code.py:96 | the shuffle keeps the length and the multiset of characters |
| Generator.Generate | code.py:84-97 | for every valid draw, the password has max(length, 3) characters, all from the classes, at least one letter, one digit and one punctuation character, and it is a rearrangement of the chosen characters |
| App.Start | code.py:102-110 | start-up has an empty vault, keeps both files as found, and shows the setup screen exactly when there is no key file |
| App.SetMaster | code.py:127-136 | the empty password is refused and changes nothing; otherwise the login screen is shown exactly when the write succeeds; a successful write leaves the encoded password in the key file, and a failed one leaves what the write left behind |
| App.AttemptLogin | code.py:147-153 | the main screen opens, with the loaded vault, exactly when `check_master_password` as written admits the password; otherwise nothing changes |
| App.AddEntry | code.py:204-224 | if any stripped field is empty, nothing changes; otherwise the stripped site maps to the stripped username and the encoded stripped password, no other site changes, memory changes whether or not the save succeeds, and the result is Added exactly when the write succeeded |
| App.SearchEntry | code.py:226-241 | a cancelled or empty prompt does nothing; the untrimmed query is found exactly when it is a stored key, and a hit shows the stored username and the decoded password |
| App.ViewAll | code.py:243-253 | the listing has one row per site, in insertion order |
| App.DeleteEntry | code.py:268-286 | a cancelled prompt, an absent site or a declined confirmation change nothing; a confirmed delete removes exactly that site, and memory changes whether or not the save succeeds |
| App.LoginAttempts | code.py:147-153 | any run of login attempts keeps the session consistent |
| App.NoKeyFileNeverUnlocks | code.py:107-110 | with no key file, no sequence of login attempts leaves the setup screen |
| App.SetupThenLogin | code.py:127-153 | after the master password P is set, a login opens the main screen exactly when it uses P |
| App.BlankKeyFileOpensVault | code.py:147-153 | with a key file that is empty or that the strict decoder rejects, the empty password opens the main screen |
| App.FailedSetupOpensVault | code.py:62-69 | a setup write that fails after truncating the key file reports failure, and after a restart the empty password opens the main screen |
| App.FilledIsAccepted | code.py:206-210 | an add is refused as missing a field exactly when one of the three fields is all whitespace; otherwise it is accepted |
| App.AddThenSearch | code.py:204-241 | after an accepted add, searching the stripped site shows the stripped username and the stripped password |
| App.ViewAllAgreesWithSearch | code.py:226-251 | every listed row with a non-empty site is what searching it shows (an empty query is cancelled before the lookup), the listed sites are distinct, and every search hit is listed |
| App.AddNewAppendsRow | code.py:204-251 | adding a new site appends its row to the end of the listing |
| App.AddExistingOverwritesRow | code.py:204-251 | re-adding a stored site replaces its row in place and keeps the listing order |
| App.AddTwiceKeepsOneEntry | code.py:204-241 | two adds for the same site leave one entry for it, holding the second username and password |
| App.SingleRow | code.py:246 | a stored site has exactly one row in the listing |
| App.DeleteRemovesRow | code.py:243-286 | a confirmed delete removes that site's row, keeps the other rows in order, and a later search finds nothing |
| App.RowsOfItems | code.py:246-251 | removing one item removes the matching listing row |
| App.SavedChangesSync | code.py:215-220 | after a saved add or delete, loading the data file gives back the in-memory vault |
| App.FailedSaveLeavesMemoryAhead | code.py:214-220 | when the save fails and leaves the old file, a new site is in memory but not in what the file loads to |
| App.FirstRunScenario | code.py:102-286 | first run with any non-empty master password and any whitespace-free fields: setup succeeds, login opens an empty vault with no data file, the add is saved and found, the confirmed delete is saved and the site is then not found |
| App.FirstRunExample | code.py:102-286 | the same run with `Tr0ub4dor` and `example.com`/`alice`/`s3cret!` finds the entry after adding it |

## Left out

- The tkinter screens, message boxes and dialogs (code.py:1-2, 101-294) are left out. They only present things. Dialog answers are parameters. The screen is reduced to which of the three forms is showing.
- Clearing the entry fields after a successful save (code.py:222-224) and the text of each message box are left out. Both are presentation.
- `fill_generated_password` (code.py:198-202) is left out. It only puts the result of `generate_password()` with length 12 into an entry field.
- The report text built by `view_all_passwords` (code.py:245-251) is left out. `ViewAll` returns its rows (site, username, decoded password), not the formatted text.
- Base64.Decode: it is strict and rejects non-canonical strings. Python's `b64decode` drops non-alphabet ASCII characters (a non-ASCII character is an error, which `decrypt_data` turns into the empty text), tolerates non-zero pad bits and stops at the first complete padding, so it accepts more. On every string `Encode` produces, the two decoders agree.
- Encoder.Decrypt: because `Base64.Decode` is strict, `Decrypt` returns the empty text for a non-canonical string that Python would still decode. Hand-edited files are the only source of such strings. So Encoder.DecryptShortOrEmpty, Persistence.GarbageIsCorrupt and App.BlankKeyFileOpensVault hold under the strict decoder; App.FailedSetupOpensVault uses the empty key file, which both decoders read as the empty text. For instance, Python reads the key file `"QQ==\n"` as `b"A"`, while the model rejects it. Python also gives the empty text for a file made only of ASCII characters that are neither alphabet nor `=`, such as `"!!!!"`.
- UTF-8 byte rules are left out. `Utf8.Codec` is abstract, restricted by `Utf8.Lawful`.
- Lone surrogates are left out. Python strings can contain them, and encoding them raises. Dafny strings cannot contain them.
- The JSON library is left out. `Persistence.Json` is abstract, and its round trip `Persistence.Faithful` is assumed, not proved.
- A JSON document that parses but is not an object of `{username, password}` entries is treated as corrupt. The program would keep it and fail later.
- File reads that fail for reasons other than absence are not modelled, because each file is `Option<string>`. `load_data` turns such failures into `{}` (code.py:44-46). `check_master_password` lets them escape (code.py:73-79).
- Write failures are a parameter, not real exceptions.
- The distribution of `random.choice` and `random.shuffle` is left out. The model proves its properties for every possible draw.
- Nothing about secrecy or strength is claimed. The encoding is keyless.
- The main-screen operations do not require the main screen in their contracts. The program only offers them there.

## Findings

| source | as written | input that shows it | evidently intended | confidence | as-written member | corrected member |
|---|---|---|---|---|---|---|
| code.py:72-79 | the check compares the candidate with the decoded key file; decoding fails closed to the empty text, so a key file that does not decode admits the empty password | key file content `""` (left by a setup write that failed after truncating the file) or `"!!!!"`, login password `""` | a key file that decodes to nothing admits no one, since `set_master` never stores the empty password (code.py:129, 135-136) | medium; not executed | App.BlankKeyFileOpensVault | MasterGate.CheckOnlyFromSetup |

The session (`App.AttemptLogin`) follows the code as written, so
`App.BlankKeyFileOpensVault` shows the empty password reaching the main
screen. `MasterGate.Check` is the corrected gate. `MasterGate.CheckOnlyFromSetup`
proves that it admits a password only from the key file that setting up that
same non-empty password writes.
