# atlas.compass vault core, in Dafny

atlas.compass is a terminal password vault. The vault is a list of entries (title, user
name, password, URL, notes, two timestamps). It is kept as JSON and encrypted under a master
password in one file, `~/.atlas/compass.enc`. This project models the three layers that do
the real work and proves what each promises.

- **Container and cipher** (`crypto.dfy`, module `Crypto`). A container is `salt (16) ||
  nonce (12) || AES-256-GCM ciphertext and tag`. The key comes from Argon2id over the
  password and the salt.
  - `Encrypt` fills a freshly allocated buffer with three copies, which are kept as loops
    over an array.
  - `Decrypt` rejects short input, splits at offsets 16 and 28, and reports every
    authentication failure with one error.
  - Argon2id, AES-GCM and the random source are library code. They enter the model as a
    record of functions (`Primitives`), under the laws collected in `Primitives.Sound()`.
    `SoundIsSatisfiable` shows that those laws can all hold at once.
- **Entries and their JSON form** (`entry.dfy`, module `Model`). The model works on the
  JSON tree:
  - the keys an entry emits, in struct order;
  - `omitempty` on url and notes;
  - how Go fills a fresh struct back in: absent and null give zero values, a value of the
    wrong kind is an error, and of duplicate keys only the last member is read (Go reads
    every member; the differences are under "Left out").
  
  The byte-level JSON text and the text form of times are a `JsonCodec` of library
  functions with the laws in `JsonCodec.Sound()`. `CodecWitness.CodecIsSatisfiable`
  (`codec_witness.dfy`) shows that those laws can all hold at once, with a toy codec that
  formats every time, and `CodecWitness.ToyRoundTrip` that every vault round-trips under it.
- **The vault store** (`vault.dfy`, module `Store`). It runs over a modelled filesystem
  (`filesystem.dfy`, module `Os`, class `FileSystem`) that holds:
  - the home directory, or its absence;
  - directories and files with their permission bits;
  - paths whose every access fails.

  A path below a regular file fails with "not a directory" (ENOTDIR), which is not a
  not-exist error; a directory read or written as a file fails with "is a directory".
  `EnsureDir` and `Save` change that filesystem; `Load` and `Exists` read it. Each step's
  error is stated, and Save followed by Load gives back the vault.
- **The session** (`main_model.dfy`, module `Tui`, class `MainModel`). It covers:
  - unlocking;
  - saving the editor's entry: append a new one with a fresh hex ID (`hex.dfy`), or replace
    the first entry with the same ID;
  - confirming a deletion, a filter loop that drops every entry with the ID (`DeleteChosen`);
  - changing the master password, after an ordered chain of checks.

  The two forms are classes over arrays of text inputs: `editor.dfy` (module `Editor`) and
  `changepass.dfy` (module `ChangePass`). Both use the focus cycling and loops of
  `textinput.dfy` (module `TextInput`).

Random bytes and clock readings come in as parameters. `Tui.World` carries:
- the salt draw and nonce draw of a save;
- the eight bytes of a new ID;
- two clock readings.

A draw is either the bytes or the error the random source reported.

Behaviour of the code that the model keeps as written:
- After an editor save or a deletion, "Entry saved." or "Entry deleted." replaces the
  status that `saveVault` sets when the save fails. The save error is therefore never
  shown there. The disk is then unchanged, so the in-memory vault is ahead of the file.
  This is stated in `SaveEditorEntry` and `ConfirmDelete`.
- Unlocking reports "invalid password" for every load failure while the vault file
  exists. That includes a permission error or a corrupted file. When the file does not
  exist, the only load failure left is the missing home directory, as `Unlock` proves.
- `SetEntry` focuses Title without blurring the other inputs. It is only ever called on a
  fresh editor, where that leaves exactly one input focused (`SetEntry`'s last ensures).

## Model

| member | source | states |
|---|---|---|
| Crypto.DeriveKey | internal/crypto/crypto.go:13-25 | Argon2id with the fixed parameters (time 1, 64 MiB, 4 threads) yields a KeySize = 32 byte key under the library laws; it is a function of password and salt only |
| Crypto.Message | internal/crypto/crypto.go:32-101 | a random-source failure reads as the source's own error; a refused key reads "crypto/aes: invalid key size " followed by its size in decimal |
| Crypto.MessageInjective | internal/crypto/crypto.go:40-101 | apart from the random source's text, two errors with the same text are the same error, the key size included |
| Crypto.Decimal | internal/crypto/crypto.go:88-91 | the size in a key-size error is written as strconv.Itoa writes it: digits only, no leading zero, and they read back as the size |
| Crypto.Pack | internal/crypto/crypto.go:59-63 | the container is salt ‖ nonce ‖ sealed: length 16 + 12 + len(sealed), bytes 0..16 the salt, 16..28 the nonce, 28.. the sealed part |
| Crypto.Split | internal/crypto/crypto.go:75-82 | the salt is 16 bytes, the nonce 12 and the ciphertext the remaining len - 28, and in that order they make up the input |
| Crypto.SplitPack | internal/crypto/crypto.go:59-82 | splitting at offsets 16 and 28 recovers exactly the salt, nonce and sealed part that were packed |
| Crypto.PackSplit | internal/crypto/crypto.go:71-82 | every input of at least 28 bytes is the packing of its own three parts |
| Crypto.CopyInto | internal/crypto/crypto.go:61-63 | `copy` into a range writes src there and leaves every other byte of the buffer as it was |
| Crypto.Container | internal/crypto/crypto.go:56-63 | the container starts with the salt and then the nonce; with sound libraries it is 28 + len(plaintext) + 16 bytes long |
| Crypto.Encrypt | internal/crypto/crypto.go:29-66 | a failed salt or nonce draw returns that error and no container; with sound libraries it succeeds exactly when both draws succeed; the result is the container of the sealed plaintext under the derived key, of length 44 + len(plaintext) |
| Crypto.Decrypt | internal/crypto/crypto.go:70-105 | "invalid data length" exactly for inputs shorter than 28 bytes; otherwise, with sound libraries, the one "decryption failed" error exactly when GCM Open fails on the split parts, and success only with what Open returned |
| Crypto.ShortInputRejected | internal/crypto/crypto.go:71-73 | an input shorter than 28 bytes, the empty one included, is rejected the same way whatever the password or library functions, so no key is derived |
| Crypto.ContainerLength | internal/crypto/crypto.go:57-63 | a container is 44 bytes longer than its plaintext: 28 header bytes and the 16-byte tag |
| Crypto.DecryptEncrypt | internal/crypto/crypto.go:29-105 | round trip: decrypting the container of p under password w with w gives p, for every p, w, salt and nonce |
| Crypto.DecryptedIsAuthentic | internal/crypto/crypto.go:98-104 | whatever decrypts to p under w is exactly the container Encrypt would build from p, w and the stored salt and nonce |
| Crypto.TamperedNeverDecryptsToOriginal | internal/crypto/crypto.go:98-102 | any altered container with the same header never decrypts to the original plaintext |
| Model.EncodeTime | pkg/model/entry.go:15-16 | a timestamp encodes exactly when the time library can format it |
| Model.EncodeEntry | pkg/model/entry.go:8-17 | an entry encodes to an object exactly when both of its timestamps can be formatted; a failure names a timestamp that cannot be |
| Model.EncodeEntries | pkg/model/entry.go:20-22 | the entries encode element by element in sequence order, succeed exactly when every element does, and a failure names an unformattable timestamp of some entry |
| Model.Encode | pkg/model/entry.go:7-22 | json.Marshal of a vault succeeds exactly when every entry's two timestamps can be formatted; a failure names an unformattable timestamp of some entry |
| Model.DecodeEntry | pkg/model/entry.go:8-17 | null gives the zero entry; a value that is neither null nor an object is an error; the only errors are a wrong kind or an unparsable time; a decoded object's text fields are its string members, "" when absent or null |
| Model.DecodeEntries | pkg/model/entry.go:20-22 | an array decodes exactly when every element does, into one entry per element in order; the only errors are decoding errors |
| Model.DecodeVault | pkg/model/entry.go:19-22 | null, an object without "entries" or with a null "entries" give the empty vault; an "entries" array decodes exactly when each element does, element by element; the only errors are decoding errors |
| Model.Decode | pkg/model/entry.go:7-22 | json.Unmarshal into a vault: a syntax error exactly when the bytes are not JSON; otherwise the decoding of the tree, whose only errors are decoding errors |
| Model.EncodedKeys | pkg/model/entry.go:8-17 | an encoded entry has the keys id, title, username, password, [url], [notes], created_at, updated_at, in that order |
| Model.OptionalFieldsOmittedIffEmpty | pkg/model/entry.go:13-14 | url is emitted exactly when non-empty, and so is notes |
| Model.RequiredFieldsAlwaysEmitted | pkg/model/entry.go:9-16 | id, title, username, password, created_at and updated_at are always emitted, even empty or zero |
| Model.EntryRoundTrip | pkg/model/entry.go:8-17 | decoding an encoded entry gives the same entry, an omitted url or notes coming back as "" |
| Model.EntriesRoundTrip | pkg/model/entry.go:20-22 | decoding the encoded entries gives the same sequence |
| Model.VaultRoundTrip | pkg/model/entry.go:7-22 | with sound libraries Decode(Encode(v)) == v for every encodable vault |
| Model.VaultShape | pkg/model/entry.go:20-22 | a vault encodes as an object with the single key entries holding each entry's encoding in sequence order |
| Os.FileSystem.UserHomeDir | internal/store/vault.go:20-23 | home resolves exactly when it is defined |
| Os.FileSystem.Stat | internal/store/vault.go:96-97 | succeeds exactly when the path is a directory or a file, has no fault and lies below no regular file; reports not-exist exactly when nothing is there and no ancestor is a regular file (that case is ENOTDIR) |
| Os.FileSystem.ReadFile | internal/store/vault.go:44-51 | gives the file's bytes exactly when the path is a reachable regular file without fault; a directory is an error; it reports not-exist exactly when Stat does |
| Os.FileSystem.MkdirAllError | internal/store/vault.go:33-34 | no error exactly when there is no fault on the path and it is already a directory or no prefix of it is a regular file; otherwise, without a fault, ENOTDIR naming a prefix that is a regular file |
| Os.FileSystem.WriteFileError | internal/store/vault.go:87 | no error exactly when there is no fault, no regular file above the path, the path is not a directory, and the file exists or its parent directory does |
| Os.FileSystem.MkdirAll | internal/store/vault.go:33-34 | succeeds exactly when MkdirAllError says so and fails with that error; does nothing when the path is already a directory, or else creates only prefixes of the path, with the mode; files and faults are untouched and nothing changes on failure |
| Os.FileSystem.WriteFile | internal/store/vault.go:87 | replaces the file's contents, keeping an existing file's mode or else using the given one; fails with WriteFileError's error (a fault, ENOTDIR below a file, a directory, a missing parent) and then changes nothing |
| Store.VaultFile | internal/store/vault.go:13-16 | the vault file sits directly inside the vault directory |
| Store.Message | internal/store/vault.go:60 | a crypto error reads as crypto's own text; a decode failure reads "corrupted vault data: " and more; a path error reads as its reason |
| Store.GetVaultPath | internal/store/vault.go:18-25 | home/.atlas/compass.enc, and an error exactly when the home directory cannot be resolved |
| Store.EnsureDir | internal/store/vault.go:27-35 | no home: the home error; otherwise it succeeds exactly when home/.atlas has no fault and is already a directory or has no prefix that is a regular file, and fails with MkdirAll's error; creates only prefixes of home/.atlas, with mode 0700; nothing is created on failure |
| Store.Load | internal/store/vault.go:37-64 | no home: the home error; nothing at the path: the empty vault, without decrypting; a read error is returned as is; a decryption error as is; a decode failure wrapped as corrupted data; otherwise the decoded vault; an encoding error is never produced |
| Store.SaveOutcome | internal/store/vault.go:66-88 | the outcome Save gives from a state and the two random draws: Pass exactly when home resolves, the directory can be made, the vault encodes, both draws succeed and the file path has no fault, no file above it and is not a directory; a write error is the one os.WriteFile reports |
| Store.Save | internal/store/vault.go:66-88 | the first failing step decides the result: the MkdirAll error, the encoding error, the salt or nonce draw error, then the write error (a fault, ENOTDIR, a directory); with sound primitives the result is SaveOutcome of the state before, so it succeeds exactly when none of them fails; on failure the files are unchanged; on success the file holds exactly the container of the encoded vault, Exists holds and Load gives the vault back |
| Store.WriteVault | internal/store/vault.go:77-87 | with the directory in place: the encoding error, then the salt or nonce draw error, then the write error (a fault, ENOTDIR, a directory), else success; directories untouched and files unchanged on failure; on success the file holds exactly the container of the encoded vault with mode 0600 for a new file, Exists holds and Load gives the vault back |
| Store.LoadAfterSave | internal/store/vault.go:38-88 | Save-then-Load round trip: a vault file holding the container of the encoded vault loads as that vault |
| Store.Exists | internal/store/vault.go:90-98 | false exactly when the home directory is unknown or nothing is at the path; any other stat error, ENOTDIR included, counts as existing |
| Store.FileInPlaceOfDir | internal/store/vault.go:44-51 | when a regular file sits where home/.atlas should be, Load fails with "not a directory" on the vault path instead of giving the empty vault, and Exists holds |
| TextInput.Input.SetValue | internal/tui/editor.go:55-64 | the value becomes the given string, cut to the character limit when there is one |
| TextInput.Input.Update | internal/tui/editor.go:114-120 | an input without focus ignores every key; a focused one appends a character within its limit and deletes on backspace; the limit is never exceeded |
| TextInput.Cycle | internal/tui/editor.go:86-96 | one step forward is +1 and one step backward is -1, modulo the field count, and the result stays in range |
| TextInput.CycleInverse | internal/tui/changepass.go:70-80 | a forward step undoes a backward step and the other way round |
| TextInput.CycleVisitsAll | internal/tui/changepass.go:70-80 | n forward steps land n fields further, wrapping once; after count steps the focus is back where it started |
| TextInput.FocusOnly | internal/tui/editor.go:98-105 | afterwards exactly the input at the index has focus and nothing else about any input changed |
| TextInput.UpdateAll | internal/tui/changepass.go:98-104 | every input receives the key |
| TextInput.OnlyFocusedReacts | internal/tui/editor.go:110-120 | when exactly one input has focus, handing a key to all of them changes at most that one |
| Editor.EditorModel.constructor | internal/tui/editor.go:28-53 | five empty inputs, focus on Title and only there, no entry recorded |
| Editor.EditorModel.SetEntry | internal/tui/editor.go:55-64 | records the entry, loads its five fields, puts focus on Title; GetEntry then gives the entry back with a zero update time |
| Editor.EditorModel.Update | internal/tui/editor.go:70-112 | Enter on Notes changes nothing; other navigation keys move focus one step with wrap-around, leave exactly that input focused and keep every value; other keys go to the inputs |
| Editor.EditorModel.GetEntry | internal/tui/editor.go:159-172 | the five text fields from the inputs; ID and creation time from the recorded entry or empty and zero; update time always zero |
| ChangePass.ChangePassModel.constructor | internal/tui/changepass.go:25-49 | four empty inputs in the order Confirm, Current, New, NewConfirm; focus on Confirm only; Confirm limited to 3 characters, the others masked |
| ChangePass.ChangePassModel.ConfirmAtMostThree | internal/tui/changepass.go:28-31 | the confirmation never holds more than three characters |
| ChangePass.ChangePassModel.Update | internal/tui/changepass.go:55-96 | Enter on NewConfirm changes nothing; other navigation keys move focus one step over 0..3 with wrap-around and leave exactly that input focused; other keys go to the inputs |
| Hex.Encode | internal/tui/main_model.go:411-415 | two lower-case hexadecimal digits per byte |
| Hex.Decode | internal/tui/main_model.go:411-415 | two digits read back per byte |
| Hex.DecodeEncode | internal/tui/main_model.go:411-415 | decoding the encoding gives the bytes back, so the encoding loses nothing |
| Hex.GenerateId | internal/tui/main_model.go:411-415 | an ID is 16 lower-case hexadecimal characters, never empty, and it determines the eight random bytes |
| Tui.FirstIndex | internal/tui/main_model.go:225-231 | the first index holding the ID: it holds it and no earlier one does; None when none does |
| Tui.ReplaceFirst | internal/tui/main_model.go:225-231 | the entries keep their number, and each one is either unchanged or, carrying the edited entry's ID, is the edited entry |
| Tui.ReplaceFirstAt | internal/tui/main_model.go:223-232 | replacing by ID changes exactly the first matching index, and nothing when no entry matches |
| Tui.WithoutId | internal/tui/main_model.go:401-409 | deletion never lengthens the entries |
| Tui.WithoutIdMembers | internal/tui/main_model.go:401-409 | an entry survives exactly when it was present and carries another ID |
| Tui.WithoutIdConcat | internal/tui/main_model.go:401-409 | deletion distributes over concatenation, so survivors keep their original order |
| Tui.WithoutIdAbsent | internal/tui/main_model.go:401-409 | nothing is removed when no entry carries the ID |
| Tui.WithoutIdLength | internal/tui/main_model.go:401-409 | exactly the entries carrying the ID are removed |
| Tui.Validate | internal/tui/main_model.go:259-274 | the checks in order (YES, current password, non-empty, retyped): each message appears exactly when its check is the first to fail, and none exactly when all pass |
| Tui.MainModel.constructor | internal/tui/main_model.go:43-49 | starts on the unlock screen with an empty, focused, masked input limited to 156 characters, no vault |
| Tui.MainModel.Unlock | internal/tui/main_model.go:77-104 | empty password: "password cannot be empty", no load, still on auth; load failure with the file present: "invalid password" and the input cleared; load failure otherwise: the raw error, which can only be the missing home; success: vault and master password set, list shown |
| Tui.MainModel.SaveVault | internal/tui/main_model.go:390-394 | the save's outcome is Store.SaveOutcome of the vault in memory; on failure the status shows the error and the files are unchanged; on success the file loads as the vault under the master password |
| Tui.MainModel.SaveUnder | internal/tui/main_model.go:277 | store.Save of the vault under a password, its outcome Store.SaveOutcome of the state before: home and faults untouched, no directory lost; on failure the files are unchanged; on success the file loads as the vault under that password |
| Tui.MainModel.ReplaceInPlace | internal/tui/main_model.go:223-232 | the in-place loop yields ReplaceFirst of the entries with the stamped entry |
| Tui.MainModel.DeleteEntry | internal/tui/main_model.go:401-409 | the filter loop leaves exactly WithoutId of the entries |
| Tui.MainModel.SaveEditorEntry | internal/tui/main_model.go:209-237 | empty title: error status, vault and disk untouched; new entry: fresh ID, both timestamps, appended at the end; edited entry: replaces the first with its ID, stamped; then saved: when Store.SaveOutcome of the new vault passes the file loads as it, when it fails the disk is unchanged; list shown, "Entry saved." either way |
| Tui.MainModel.StoreAndSave | internal/tui/main_model.go:217-233 | an entry without ID gets the fresh ID and both timestamps and is appended; one with an ID replaces the first entry carrying it, stamped; then saved: the file loads as the new vault when Store.SaveOutcome of it passes, and is unchanged when it fails |
| Tui.MainModel.ConfirmDelete | internal/tui/main_model.go:294-313 | y/Y with a chosen entry deletes its ID, saves (the file loads as the new vault when Store.SaveOutcome of it passes, and is unchanged when it fails) and returns to the list with "Entry deleted."; n/N/Esc returns to the list untouched; both clear the chosen entry; other keys change nothing |
| Tui.MainModel.DeleteChosen | internal/tui/main_model.go:298-306 | the vault loses every entry with the chosen ID, is saved (the file loads as it when Store.SaveOutcome of it passes, and is unchanged when it fails), and the list is shown with "Entry deleted." and no chosen entry |
| Tui.MainModel.DeleteAndSave | internal/tui/main_model.go:300-301 | deleteEntry then saveVault: the vault is WithoutId of the entries; the file loads as it when Store.SaveOutcome of it passes, and is unchanged when it fails |
| Tui.MainModel.SubmitChangePassword | internal/tui/main_model.go:252-286 | the first failing check sets its message and nothing is saved; when all pass the vault is saved under the new password, with Store.SaveOutcome of the state before as the outcome; the master password changes only when that save succeeded, and then the file loads under it |
| Tui.MainModel.CommitPassword | internal/tui/main_model.go:276-286 | the save's outcome is Store.SaveOutcome of the state before; a failed save keeps the old master password and screen, leaves the files and shows "CRITICAL ERROR: Failed to save vault: " with the error; a successful one adopts the new password, shows the list with the success message, and the file loads under it |
| Tui.MainModel.OpenNewEditor | internal/tui/main_model.go:127-130 | "a" opens a fresh editor with no recorded entry |
| Tui.MainModel.OpenChangePass | internal/tui/main_model.go:131-134 | "P" opens a fresh password form with focus on the confirmation |
| Tui.MainModel.OpenEditor | internal/tui/main_model.go:142-149 | "e" opens a fresh editor loaded with the selected entry |
| Tui.MainModel.RequestDelete | internal/tui/main_model.go:164-170 | "d" records the selected entry and asks for confirmation |
| Tui.MainModel.HandleKey | internal/tui/main_model.go:72-314 | routes a key by screen and keeps the session invariant; on the auth screen a key other than Enter goes to the input; Esc leaves the forms; the master password changes only by unlocking or a password change, which land on the list |
| Tui.MainModel.EditorKey | internal/tui/main_model.go:201-243 | on the editor, Esc returns to the list without touching the disk; the session invariant holds afterwards |
| Tui.MainModel.ChangePassKey | internal/tui/main_model.go:245-292 | on the password form, Esc returns to the list without touching the disk; the master password changes only on landing on the list |

## Left out

- Argon2id, AES and GCM internals, and `crypto/rand`, are library code. They are the functions of `Crypto.Primitives`, and the model relies only on the laws in `Sound()`.
- Crypto.Decrypt: it does not promise that a wrong password fails. GCM only makes that overwhelmingly likely, and as a law it would contradict the others by counting. What is proved instead is that only the exact container decrypts to a given plaintext (`DecryptedIsAuthentic`, `TamperedNeverDecryptsToOriginal`).
- Crypto.Decrypt: `aes.NewCipher` also accepts 16- and 24-byte keys, but the model refuses every key that is not 32 bytes long (and so does Crypto.Encrypt). Under `Sound()` the derived key is always 32 bytes, so the difference cannot show with sound primitives. `cipher.NewGCM` cannot fail for an AES block and is not modelled.
- The JSON text, and the text form of times, are behind `Model.JsonCodec`. Go's case-insensitive matching of object keys to struct fields is not modelled: keys match exactly.
- Model.DecodeVault: Go decodes a repeated "entries" array into the elements the earlier one already filled, so a field missing from the later object keeps its earlier value. `{"entries":[{"id":"a","url":"x"}],"entries":[{"id":"b"}]}` gives ID "b" with URL "x" in Go. The model reads only the last "entries" member, which gives URL "".
- Model.DecodeVault: Go also decodes every earlier "entries" member and keeps the first type error it meets, returning it once the whole object is read. `{"entries":5,"entries":[]}` fails in Go, so Load reports "corrupted vault data"; the model reads only the last member and gives the empty vault.
- Model.DecodeEntry: in Go a null has no effect on a string or time field, so a key repeated with null keeps the earlier value. The model reads only the last member of a key and gives "" or the zero time.
- Model.DecodeEntry: Go decodes every member of a repeated key, and an earlier member of the wrong kind or with an unparsable time is an error that Unmarshal returns at the end. `{"id":5,"id":"x"}` fails in Go, and Load reports "corrupted vault data"; the model reads only the last member and accepts the entry.
- A nil slice of entries encodes as `null` in Go and an empty one as `[]`. The model has one empty sequence. Both decode to no entries.
- Model.VaultRoundTrip: equality is of instants only. Go's round trip through RFC 3339 text also drops the monotonic clock reading and may change the time's location.
- The `os` package is `Os.FileSystem`. Permission bits are recorded as given: there is no umask and no permission checking beyond the modelled faults. Paths are sequences of components, with no cleaning of `..` or separators.
- Store.Message: it is a stand-in for `err.Error()`. Crypto's own texts, each path error's reason and Load's "corrupted vault data: " wrapping are kept. The "open <path>: " prefix of a path error and the texts of the JSON library are not reproduced.
- A fault is recorded on one path and affects only that path. A fault on a directory does not make the paths below it fail.
- Store.Save: faults are modelled only as whole-operation failures. A write that fails half-way and leaves a truncated file is not modelled, so "files unchanged on failure" is stronger than what `os.WriteFile` guarantees.
- Another process racing on the vault file is not modelled: all access is sequential.
- Rendering is not modelled. That covers every `View` method, styles, the detail screen, the auth screen's layout and the list widget's filtering, help and selection. The list's selected entry and its filtering flag are parameters of `HandleKey`. Enter on the list, which opens the detail screen in Go, is not routed, so the detail screen (with its Esc/backspace back to the list and "e" to the editor) is never reached in the model, and it ignores keys.
- Clipboard writes, status-clearing timers, `Init` and cursor blinking, window resizing, `q` and `ctrl+c` quitting are not modelled.
- The text input is reduced to value, focus, character limit and masking. Cursor movement, paste, sanitising and the other editing keys are not modelled: typing appends at the end and backspace deletes the last character. `textinput.New()` is taken to give no character limit.
- Before the first "a", "e" or "P", Go's zero-valued editor and password form have no inputs. The model starts with fresh forms instead; they are replaced by fresh ones whenever a form is opened, as in Go.
- `time.Now()` becomes the two readings `World.now` and `World.later`. A new entry's creation and update times are the two calls in order; an edit's update time is `now`.
- `generateID` ignores `rand.Read`'s error. The eight bytes are a parameter, and nothing guarantees that two IDs differ.
- `refreshList` only rebuilds the list widget from the entries, and is left out with the widget.
