# vault_7 record model and persistence engine, in Dafny

vault_7 is a desktop vault with three kinds of records: passwords
(service, username, password), backup codes (account, username, code) and
quick notes (serial, text). An entry may be *obscured*. An obscured entry
keeps an encoded copy of its secret, made by XOR-ing every byte with 3 and
appending the two bytes `!@`. It reveals the plaintext only to the fixed
decryption key `turndownforwhat`. `SecureVault` keeps the entries in
memory and writes one `KEY=VALUE` text file per entry under
`vault_data/Passwords`, `vault_data/BackupCodes` and `vault_data/Notes`. A
file name is the entry's identifier with every byte outside `[A-Za-z0-9_.-]`
replaced by `_`. At start-up the vault reads the three directories back.

This project models that core as pure functions over immutable data:

- `bytes.dfy` (`Bytes`): bytes as an `int` newtype, `Option`, and byte
  literals.
- `codec.dfy` (`Codec`): `xorEnc`/`xorDec`.
- `sanitize.dfy` (`Sanitize`): `safeFile`.
- `decimal.dfy` (`Decimal`): `std::to_string` and `std::stoi` on `int`, for
  note serials.
- `entries.dfy` (`Entries`): the three entry classes as one datatype. It
  covers their rows, `edit`, `setEncrypted` and `getRowValue`.
- `records.dfy` (`Records`): the file formats `save*` write. It also covers
  the `getline`/first-`=` parsing of the loaders, the per-file loaders, and
  the save/load round trips.
- `vault.dfy` (`Vault`): `SecureVault`. The directory tree is a map from
  (category, file name) to file contents. The order `directory_iterator`
  visits files in is a parameter (`names`). A vault is its item list, its
  note counter and that map.

## Model

| member | source | states |
|---|---|---|
| Codec.XorEnc | src/main.cpp:70 | the encoding is two bytes longer than its input, ends in `!@`, and XOR-ing byte `i` with 3 gives back input byte `i` |
| Codec.XorDec | src/main.cpp:71 | inputs shorter than two bytes decode to the empty string; otherwise the last two bytes are dropped and every remaining byte is XOR-ed with 3 |
| Codec.DecodeEncode | src/main.cpp:70-71 | `xorDec(xorEnc(s)) == s` for every byte string |
| Codec.EncodeDecode | src/main.cpp:70-71 | `xorEnc(xorDec(s)) == s` exactly when `s` has at least two bytes and ends in `!@` |
| Codec.EncodedNewlineIffTab | src/main.cpp:70 | an encoding holds a line break exactly when its input holds a tab (0x09 XOR 3 is 0x0A), so only tab-free secrets survive a line-based file |
| Sanitize.SafeFile | src/main.cpp:72 | length is kept; every output byte is allowed; a byte is kept exactly when it is allowed, and otherwise becomes `_` |
| Sanitize.SafeFileIdentity | src/main.cpp:72 | `safeFile(s) == s` exactly when every byte of `s` is allowed |
| Sanitize.SafeFileIdempotent | src/main.cpp:72 | sanitizing twice is sanitizing once |
| Sanitize.SafeFileCollides | src/main.cpp:72 | replacing a disallowed byte by `_` yields a different identifier with the same file name, so two services can share one file |
| Decimal.IntToString | src/main.cpp:113 | non-empty; starts with `-` exactly for negative serials |
| Decimal.StoI | src/main.cpp:287 | a parsed value always fits an `int`; no value means `stoi` throws |
| Decimal.StoIOfIntToString | src/main.cpp:287 | `stoi(to_string(i)) == i` for every `int` |
| Decimal.IntToStringInjective | src/main.cpp:113 | two `int` serials give the same identifier exactly when they are equal |
| Entries.NewPassword | src/main.cpp:77 | fields as given; the encoded password is `xorEnc(pwd)` when obscured and empty otherwise |
| Entries.NewBackupCode | src/main.cpp:94 | fields as given; the encoded username and code are set only when obscured |
| Entries.NewQuickNote | src/main.cpp:111 | serial and text as given; the encoded text is set only when obscured |
| Entries.Identifier | src/main.cpp:79-113 | the service of a password, the account of a backup code, and for a note a non-empty decimal text that starts with `-` exactly for negative serials |
| Entries.NoteIdentifierParses | src/main.cpp:113 | `stoi` reads a note's identifier back as its serial whenever the serial fits an `int` |
| Entries.Title | src/main.cpp:80-114 | the identifier itself, or for a note the text `Note ` followed by the identifier |
| Entries.EncryptedRows | src/main.cpp:81-115 | a plain entry shows its plaintext; an obscured password shows the plain username and the encoded password; a backup code shows both encoded; a note shows `[ENCRYPTED]`; for obscured passwords and codes the secret row always differs from the plaintext row |
| Entries.DecryptedRows | src/main.cpp:82-119 | an obscured entry answers a wrong key with the single `Error` row; with the right key, or for a plain entry, it shows the plaintext rows |
| Entries.Edit | src/main.cpp:86-124 | a wrong key changes nothing; kind, identifier and flag never change; the right key makes the decrypted rows show the new values (`v1` for password and note; `v1` and `v2` for user and code) and keeps the encoded copies consistent |
| Entries.SetEncrypted | src/main.cpp:120 | serial and text are kept and the flag is set; consistency is preserved; what the right key reveals is unchanged; switching off reveals the text to any key |
| Entries.GetRowValue | src/main.cpp:129-132 | the value of the first row with the label, or the empty string when no row has it |
| Entries.PlainRowsLookup | src/main.cpp:129-132 | looking up each label in the plaintext rows returns that field of the entry |
| Records.PasswordRecord | src/main.cpp:150-164 | the file is `SERVICE=<title>`, `USERNAME=<plain user>`, `PASSWORD=<xorEnc(pwd)>`, one line each, whatever the in-memory flag |
| Records.BackupRecord | src/main.cpp:165-179 | the file is `ACCOUNT=<title>`, `USERNAME=<plain user>`, `CODE=<xorEnc(code)>`: the username is written in plaintext |
| Records.NoteRecord | src/main.cpp:180-192 | the file is `NOTE_ID=<to_string(serial)>`, `TEXT=<xorEnc(text)>` |
| Records.SplitLines | src/main.cpp:260 | no line returned by `getline` contains a line break |
| Records.ParseLine | src/main.cpp:260 | a line without `=` leaves the map alone; otherwise only the key before the first `=` can be added |
| Records.AssignLastWins | src/main.cpp:260 | when a key appears more than once, the last line carrying it decides its value |
| Records.ParseRender | src/main.cpp:260 | parsing the lines a save wrote gives back exactly its fields, when keys have no `=` or line break and values have no line break |
| Records.Lookup | src/main.cpp:261 | a key missing from the parsed map reads as the empty string, as `operator[]` does |
| Records.LoadPasswordFile | src/main.cpp:259-262 | a file loads nothing exactly when its `SERVICE` is missing or empty; otherwise it loads an obscured, consistent password whose service is the file's `SERVICE` |
| Records.LoadBackupFile | src/main.cpp:271-274 | a file loads nothing exactly when its `ACCOUNT` is missing or empty; otherwise it loads an obscured, consistent backup code whose account is the file's `ACCOUNT` |
| Records.LoadNoteFile | src/main.cpp:283-288 | a file loads nothing exactly when its `NOTE_ID` is missing or empty; otherwise it loads an obscured, consistent note whose serial is `stoi` of the file's `NOTE_ID` and fits an `int` |
| Records.PasswordRoundTrip | src/main.cpp:150-265 | loading a saved password gives an obscured password with the same service, user and password, revealing the same rows to the key; an obscured password comes back unchanged |
| Records.BackupRoundTrip | src/main.cpp:165-277 | the same for backup codes, the plaintext username included |
| Records.NoteRoundTrip | src/main.cpp:180-294 | a saved note's `NOTE_ID` is accepted by `stoi`, and the note comes back obscured with its serial and text |
| Vault.Fresh | src/main.cpp:135-138 | a new vault over a directory starts with no entries, the note counter at 1, and the directory as it is |
| Vault.FilePath | src/main.cpp:141-148 | the file is in the kind's directory, named `safeFile(id).txt`, or `note_safeFile(id).txt` for notes |
| Vault.Auth | src/main.cpp:195 | login succeeds exactly for the master password `ilovetohatethat` |
| Vault.ValidKey | src/main.cpp:196 | a key is valid exactly when it is `turndownforwhat`, the key every obscured entry opens to |
| Vault.SecretsDiffer | src/main.cpp:195-196 | the master password does not open entries, and the decryption key does not log in |
| Vault.ValidKeyIsTheGate | src/main.cpp:196 | for an obscured entry, a key reveals the plaintext exactly when `validKey` accepts it, and gets the error row exactly when it does not |
| Vault.Save | src/main.cpp:150-192 | an entry of another kind leaves the disk alone; otherwise its file is created or truncated to the entry's record and no other file changes |
| Vault.SaveWritesThrough | src/main.cpp:150-294 | after saving a consistent, storable entry, its file loads back to the entry's plaintext |
| Vault.AddPassword | src/main.cpp:200-203 | one entry is appended and earlier ones are untouched; exactly one file is added or overwritten, holding the entry's record; when the entry is storable the file reads back to its plaintext |
| Vault.AddBackup | src/main.cpp:204-207 | the same for backup codes |
| Vault.AddNote | src/main.cpp:208-211 | the note gets the current counter as its serial; the counter goes up by one; its file is `note_<serial>.txt`, holding the note's record, and reads back when the note is storable |
| Vault.FindFirst | src/main.cpp:214-216 | the position of the first entry of the kind with the identifier, or the end of the list when there is none |
| Vault.SaveById | src/main.cpp:214-216 | memory never changes; with no match the disk is unchanged; otherwise the first match's file is rewritten with its record, every other file is unchanged, and the file reads back when the entry is consistent and storable |
| Vault.EditItem | src/main.cpp:197 | only item `i` changes, to its edited self; the disk is untouched |
| Vault.EditThenSaveWritesThrough | src/main.cpp:214 | editing a password with the key, then `savePasswordByService`, leaves a file that loads back with the new password |
| Vault.Delete | src/main.cpp:219-251 | answers true exactly when an entry matches; false changes nothing; otherwise the first match is removed from the list, the identifier's file is removed, and the counter is kept |
| Vault.DeleteKeepsLaterDuplicates | src/main.cpp:219-251 | a later entry with the same kind and identifier stays in memory after its file is gone |
| Vault.SaveKeepsFilesInPlace | src/main.cpp:150-192 | saving a consistent, storable entry keeps every file that loads in the place `save*` would write its entry |
| Vault.DeleteKeepsFilesInPlace | src/main.cpp:219-251 | deleting keeps every file that loads in the place `save*` would write its entry |
| Vault.LoadedLocated | src/main.cpp:254-294 | in a directory whose loadable files are all in place, every loaded entry's own file is one of the directory's files |
| Vault.DeletedStaysGone | src/main.cpp:219-294 | after a successful delete on a directory whose loadable files are all in place (true of one written only by `save*` of storable entries), no listing order of the category loads an entry of that kind and identifier |
| Vault.DeleteRemovesFile | src/main.cpp:222-223 | deleting a present identifier removes exactly that file |
| Vault.LoadFile | src/main.cpp:259-288 | a loaded entry is obscured, consistent, of the directory's kind, and has a non-empty identifier |
| Vault.LoadFileSkips | src/main.cpp:259-288 | a file contributes nothing exactly when its `SERVICE`, `ACCOUNT` or `NOTE_ID` is missing or empty, or, for a note, `stoi` rejects it; a loaded entry's identifier or serial is taken from that key |
| Vault.Loaded | src/main.cpp:255-263 | a scan yields at most one entry per file, each obscured, consistent and of the directory's kind |
| Vault.CounterAfter | src/main.cpp:289 | the counter never goes down, and only notes move it |
| Vault.CounterAfterIsMax | src/main.cpp:289 | the counter after a scan is above every loaded serial, and equals its old value or one past some loaded serial, whatever the directory order |
| Vault.ScanFile | src/main.cpp:286-290 | one file appends its entry if it has one, adds one to the count, and for a note raises the counter to `max(counter, nid+1)` |
| Vault.Scan | src/main.cpp:254-293 | the loop appends exactly the loaded entries in listing order, counts them, and folds the counter over them |
| Vault.LoadCategory | src/main.cpp:254-294 | the disk is unchanged; the loaded entries are appended to the item list; the return value is their number, at most the number of files; only a note load moves the counter, and never down |
| Vault.OnlyNotesBump | src/main.cpp:254-277 | loading passwords or backup codes leaves the note counter as it was |
| Vault.LoadedContains | src/main.cpp:262-288 | every file that loads contributes its entry to the scan |
| Vault.LoadedFrom | src/main.cpp:262-288 | every loaded entry comes from some listed file |
| Vault.Reloaded | src/main.cpp:262-288 | the entry a saved file reads back as is obscured, of the same kind and identifier, and reveals the same rows to the key |
| Vault.LoadFileOfRecord | src/main.cpp:150-288 | the file a storable entry is saved to loads as that entry's obscured copy, and a note file's `NOTE_ID` parses |
| Vault.SavedEntrySurvivesReload | src/main.cpp:150-294 | in every listing order, reloading the category of a saved entry brings back its obscured copy with the same plaintext |
| Vault.AddPasswordSurvivesReload | src/main.cpp:200-265 | after `addPassword` and a restart, the password loads back and reveals `[Username, Password]` to the key |
| Vault.ReloadedCounterPassesSavedSerials | src/main.cpp:289 | after a restart the counter is above the serial of every note that was loaded |
| Vault.AddFirstNote | src/main.cpp:208-211 | the first note in an empty vault gets serial 1 and is the only file |
| Vault.AddTwoNotes | src/main.cpp:208-211 | two notes get serials 1 and 2, in two different files |
| Vault.ReloadSingleNote | src/main.cpp:278-294 | a restart over one note file loads that note alone and sets the counter to one past its serial, or leaves it at 1 when the serial is below 1 |
| Vault.SerialReusedAfterReload | src/main.cpp:208-294 | add notes 1 and 2, delete note 2, restart: the next note gets serial 2 again |
| Vault.ReloadTwoNotes | src/main.cpp:278-294 | a restart over the files of two saved notes brings both back |
| Vault.ReloadOnlyTwoNotes | src/main.cpp:278-294 | a restart over those two files loads nothing else |
| Vault.CounterOfOneAndTwo | src/main.cpp:289 | a scan that loads only serials 1 and 2 (2 at least once) leaves a counter starting at 1 at 3 |
| Vault.SerialsResumeAfterReload | src/main.cpp:208-294 | add two notes, restart in any listing order: both come back and the next serial is 3 |

Three behaviours of the code that a reader might not expect:

- An obscured entry keeps its plaintext fields next to the encoded copy.
  `Edit` and `SetEncrypted` rely on it.
- A backup code's username is written to disk in plaintext. `saveBackup`
  takes it from the decrypted rows and encodes only the code.
- A note serial can be handed out twice.
  `Vault.SerialReusedAfterReload` shows how.

## Left out

- Rendering, widgets, GLFW/OpenGL and the login/menu flow (main.cpp from
  line 296): user interface, not part of the record model.
- `getType`: it is the `Entries.Kind` of the entry datatype.
- `all()`: it is the `items` field of `Vault.Vault`. Edits through it are
  modelled by `Vault.EditItem`.
- `isEncrypted` and `id()` on notes: field reads (`enc`, `serial`).
- Console logging (`cout`, `fs::absolute`): output only.
- `fs::create_directories`, and `ofstream` or `ifstream` failing to open:
  the model assumes file operations succeed. A missing directory is a
  directory without files, so a load over it returns 0, as in the code.
- Directory entries that are not regular files: the disk map holds only
  regular files.
- The order of `directory_iterator` is unspecified. It is the `names`
  parameter of `Vault.LoadCategory`, and any duplicate-free listing of the
  category's files is accepted.
- Vault.LoadCategory: a `NOTE_ID` that `stoi` rejects throws an exception
  the program never catches. The model requires every note file's
  `NOTE_ID` to be empty or parseable. `Records.LoadNoteFile` has the same
  requirement.
- Vault.AddNote: `noteCounter++` on an `int` is not wrapped at `INT_MAX`.
  The counter is unbounded, and so is `nid + 1` in `Vault.CounterAfter`.
  A note whose serial left the `int` range is not `Storable`.
- Records.PasswordRoundTrip, Records.BackupRoundTrip, Records.NoteRoundTrip:
  the round trips need an identifier and username without line breaks,
  and a non-empty identifier. The secret must contain no tab, because its
  encoding would then contain a line break. Other entries do not read back
  as saved, which is also true of the program.
- Vault.DeletedStaysGone: holds only when every loadable file is in place.
  A file made by hand, or written for an entry that is not storable, can
  load as another identifier than its name says. Deleting that identifier
  removes a different file, and a reload brings the entry back. The
  program behaves the same way.
- Bytes are modelled as unsigned. `char` may be signed in C++, but XOR
  with 3 and the byte comparisons of `safeFile` agree on both readings.

