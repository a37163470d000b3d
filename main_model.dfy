/**
 * internal/tui/main_model.go: the session around the vault.
 *
 * The main model holds the screen being shown, the unlock input and its error, the two
 * forms, the unlocked vault, the entry awaiting deletion, the master password and the status
 * line. The branches modelled are the ones that unlock, change or save the vault: unlocking,
 * saving the editor's entry (append a new one or replace the first with the same ID),
 * confirming a deletion (drop every entry with the ID), and changing the master password
 * after an ordered chain of checks. The list screen's key bindings that open these screens
 * are modelled too. Random bytes and clock readings come in through a `World` value.
 */
module Tui {
  import opened Wrappers
  import opened TextInput
  import opened Os
  import Crypto
  import Model
  import Store
  import Hex
  import Editor
  import ChangePass

  datatype State = StateAuth | StateList | StateDetail | StateEditor | StateChangePass | StateDeleteConfirm

  /**
   * What the outside world supplies while one key press is handled: the salt and nonce
   * draws of a save, the eight random bytes of a new ID and two clock readings.
   */
  datatype World = World(saltDraw: Result<seq<byte>, string>, nonceDraw: Result<seq<byte>, string>,
                         idBytes: seq<byte>, now: Model.Timestamp, later: Model.Timestamp)
  {
    predicate Valid() {
      && (saltDraw.Success? ==> |saltDraw.value| == Crypto.SaltSize)
      && (nonceDraw.Success? ==> |nonceDraw.value| == Crypto.NonceSize)
      && |idBytes| == Hex.IdBytes
    }
  }

  /** The unlock input's character limit. */
  const AuthCharLimit := 156

  const ErrEmptyPassword := "password cannot be empty"
  const ErrInvalidPassword := "invalid password"
  const ErrEmptyTitle := "Error: Title cannot be empty!"
  const MsgEntrySaved := "Entry saved."
  const MsgEntryDeleted := "Entry deleted."
  const ErrConfirm := "Error: You must type YES to confirm."
  const ErrCurrent := "Error: Current password incorrect."
  const ErrNewEmpty := "Error: New password cannot be empty."
  const ErrMismatch := "Error: New passwords do not match."
  const MsgPasswordChanged := "Success! Master Password Changed."
  const SaveVaultPrefix := "Error saving vault: "
  const CriticalPrefix := "CRITICAL ERROR: Failed to save vault: "

  // ---------------------------------------------------------------------------------------
  // Entry sequence updates, as reference definitions

  /** The first index holding the ID, if any. */
  function FirstIndex(es: seq<Model.Entry>, id: string): (r: Option<nat>)
    ensures r.Some? ==> r.value < |es| && es[r.value].id == id
    ensures r.Some? ==> forall j :: 0 <= j < r.value ==> es[j].id != id
    ensures r.None? ==> forall j :: 0 <= j < |es| ==> es[j].id != id
  {
    if es == [] then None
    else if es[0].id == id then Some(0)
    else match FirstIndex(es[1..], id)
      case None => None
      case Some(i) => Some(i + 1)
  }

  /**
   * The entries with the first one carrying e's ID replaced by e: the length is kept, and
   * each position holds its old entry or, where that carried e's ID, e.
   */
  function ReplaceFirst(es: seq<Model.Entry>, e: Model.Entry): (r: seq<Model.Entry>)
    ensures |r| == |es|
    ensures forall i :: 0 <= i < |es| ==> r[i] == es[i] || (es[i].id == e.id && r[i] == e)
  {
    if es == [] then []
    else if es[0].id == e.id then [e] + es[1..]
    else [es[0]] + ReplaceFirst(es[1..], e)
  }

  /** Replacing the first match changes exactly that one index, and nothing when there is none. */
  lemma {:induction false} ReplaceFirstAt(es: seq<Model.Entry>, e: Model.Entry)
    ensures FirstIndex(es, e.id).None? ==> ReplaceFirst(es, e) == es
    ensures FirstIndex(es, e.id).Some? ==> ReplaceFirst(es, e) == es[FirstIndex(es, e.id).value := e]
  {
    if es != [] && es[0].id != e.id {
      ReplaceFirstAt(es[1..], e);
      assert es == [es[0]] + es[1..];
    }
  }

  /** The entries whose ID differs from `id`, in their original order. */
  function WithoutId(es: seq<Model.Entry>, id: string): (r: seq<Model.Entry>)
    ensures |r| <= |es|
  {
    if es == [] then []
    else WithoutId(es[..|es| - 1], id) + (if es[|es| - 1].id != id then [es[|es| - 1]] else [])
  }

  /** An entry survives the deletion exactly when it was there and carries another ID. */
  lemma {:induction false} WithoutIdMembers(es: seq<Model.Entry>, id: string, e: Model.Entry)
    ensures e in WithoutId(es, id) <==> e in es && e.id != id
  {
    if es != [] {
      var init, last := es[..|es| - 1], es[|es| - 1];
      WithoutIdMembers(init, id, e);
      assert es == init + [last];
    }
  }

  /** Deleting from a concatenation deletes from each part and keeps the parts in order. */
  lemma {:induction false} WithoutIdConcat(a: seq<Model.Entry>, b: seq<Model.Entry>, id: string)
    ensures WithoutId(a + b, id) == WithoutId(a, id) + WithoutId(b, id)
  {
    if b != [] {
      var init, last := b[..|b| - 1], b[|b| - 1];
      assert (a + b)[..|a + b| - 1] == a + init;
      WithoutIdConcat(a, init, id);
    } else {
      assert a + b == a;
    }
  }

  /** Nothing is deleted when no entry carries the ID. */
  lemma {:induction false} WithoutIdAbsent(es: seq<Model.Entry>, id: string)
    requires forall i :: 0 <= i < |es| ==> es[i].id != id
    ensures WithoutId(es, id) == es
  {
    if es != [] {
      WithoutIdAbsent(es[..|es| - 1], id);
    }
  }

  /** The number of entries carrying the ID. */
  function CountId(es: seq<Model.Entry>, id: string): nat {
    if es == [] then 0 else CountId(es[..|es| - 1], id) + (if es[|es| - 1].id == id then 1 else 0)
  }

  /** Deletion removes exactly the entries carrying the ID. */
  lemma {:induction false} WithoutIdLength(es: seq<Model.Entry>, id: string)
    ensures |WithoutId(es, id)| == |es| - CountId(es, id)
  {
    if es != [] {
      WithoutIdLength(es[..|es| - 1], id);
    }
  }

  /**
   * The password change checks, in order: the confirmation reads YES, the current password
   * is the master password, the new password is not empty, and it was retyped identically.
   * The result is the message of the first check that fails.
   */
  function Validate(confirm: string, current: string, master: string, newPass: string, newConfirm: string)
    : (r: Option<string>)
    ensures r.None? <==> confirm == "YES" && current == master && newPass != "" && newPass == newConfirm
    ensures r == Some(ErrConfirm) <==> confirm != "YES"
    ensures r == Some(ErrCurrent) <==> confirm == "YES" && current != master
    ensures r == Some(ErrNewEmpty) <==> confirm == "YES" && current == master && newPass == ""
    ensures r == Some(ErrMismatch) <==> confirm == "YES" && current == master && newPass != "" && newPass != newConfirm
  {
    if confirm != "YES" then Some(ErrConfirm)
    else if current != master then Some(ErrCurrent)
    else if newPass == "" then Some(ErrNewEmpty)
    else if newPass != newConfirm then Some(ErrMismatch)
    else None
  }

  // ---------------------------------------------------------------------------------------
  // The main model

  class MainModel {
    var state: State
    var authInput: Input
    var authErr: Option<string>
    var editor: Editor.EditorModel
    var changePass: ChangePass.ChangePassModel
    var vault: Option<Model.Vault>
    var entryToDelete: Option<Model.Entry>
    var masterPassword: string
    var statusMsg: string
    const fs: FileSystem
    const prims: Crypto.Primitives
    const codec: Model.JsonCodec

    predicate Valid()
      reads this`state, this`authInput, this`editor, this`changePass, this`vault
      reads editor, editor.inputs, changePass, changePass.inputs
    {
      && editor.Valid() && changePass.Valid()
      && editor.inputs != changePass.inputs
      && authInput.charLimit == AuthCharLimit && authInput.masked && authInput.focused && authInput.Fits()
      && (state != StateAuth ==> vault.Some?)
    }

    /** The cipher and codec keep their laws. */
    ghost predicate Sound() {
      prims.Sound() && codec.Sound()
    }

    /** The vault file loads, under the password, as the vault in memory. */
    ghost predicate Persisted(password: string)
      reads this`vault, fs
    {
      vault.Some? && Store.Load(fs, password, prims, codec) == Success(vault.value)
    }

    /** NewMainModel: the unlock screen with an empty, focused, masked input. */
    constructor (fs: FileSystem, prims: Crypto.Primitives, codec: Model.JsonCodec)
      ensures Valid() && this.fs == fs && this.prims == prims && this.codec == codec
      ensures state == StateAuth && authInput.value == "" && authErr.None?
      ensures vault.None? && entryToDelete.None? && masterPassword == "" && statusMsg == ""
    {
      this.fs := fs;
      this.prims := prims;
      this.codec := codec;
      state := StateAuth;
      authInput := Blank.Focus().(charLimit := AuthCharLimit, masked := true);
      authErr := None;
      editor := new Editor.EditorModel();
      changePass := new ChangePass.ChangePassModel();
      vault := None;
      entryToDelete := None;
      masterPassword := "";
      statusMsg := "";
    }

    /**
     * Enter on the unlock screen. An empty password is refused without touching the disk.
     * A failed load reads as a wrong password whenever the vault file exists; otherwise the
     * load error is shown, and that can only be the missing home directory. A successful
     * load unlocks the vault under that password and shows the list.
     */
    method Unlock()
      requires Valid() && state == StateAuth
      modifies this`authErr, this`authInput, this`vault, this`masterPassword, this`state
      ensures Valid()
      ensures old(authInput.value) == "" ==>
                && authErr == Some(ErrEmptyPassword) && state == StateAuth && authInput == old(authInput)
                && vault == old(vault) && masterPassword == old(masterPassword)
      ensures var pass := old(authInput.value);
              var loaded := Store.Load(fs, pass, prims, codec);
              pass != "" && loaded.Failure? && Store.Exists(fs) ==>
                && authErr == Some(ErrInvalidPassword) && authInput == old(authInput).SetValue("")
                && state == StateAuth && vault == old(vault) && masterPassword == old(masterPassword)
      ensures var pass := old(authInput.value);
              var loaded := Store.Load(fs, pass, prims, codec);
              pass != "" && loaded.Failure? && !Store.Exists(fs) ==>
                && loaded.error == Store.Os(NoHome)
                && authErr == Some(Store.Message(loaded.error)) && authInput == old(authInput)
                && state == StateAuth && vault == old(vault) && masterPassword == old(masterPassword)
      ensures var pass := old(authInput.value);
              var loaded := Store.Load(fs, pass, prims, codec);
              pass != "" && loaded.Success? ==>
                && vault == Some(loaded.value) && masterPassword == pass && state == StateList
                && authErr == old(authErr) && authInput == old(authInput)
    {
      var pass := authInput.value;
      if pass == "" {
        authErr := Some(ErrEmptyPassword);
        return;
      }
      var loaded := Store.Load(fs, pass, prims, codec);
      if loaded.Failure? {
        if Store.Exists(fs) {
          authErr := Some(ErrInvalidPassword);
          authInput := authInput.SetValue("");
          return;
        }
        authErr := Some(Store.Message(loaded.error));
        return;
      }
      vault := Some(loaded.value);
      masterPassword := pass;
      state := StateList;
    }

    /**
     * saveVault: save the vault under the master password; on failure the status line
     * shows the error. `status` is what the save returned.
     */
    method SaveVault(w: World) returns (ghost status: Outcome<Store.StoreError>)
      requires vault.Some? && w.Valid()
      modifies fs, this`statusMsg
      ensures fs.home == old(fs.home) && fs.faults == old(fs.faults)
      ensures forall q :: q in old(fs.dirs) ==> q in fs.dirs && fs.dirs[q] == old(fs.dirs[q])
      ensures status.Fail? ==> fs.files == old(fs.files) && statusMsg == SaveVaultPrefix + Store.Message(status.error)
      ensures status.Pass? ==> statusMsg == old(statusMsg)
      ensures status.Pass? && Sound() ==> Persisted(masterPassword)
      ensures Sound() ==> fs.files == old(fs.files) || Persisted(masterPassword)
      ensures prims.Sound() ==> status == old(Store.SaveOutcome(fs, vault.value, codec, w.saltDraw, w.nonceDraw))
    {
      var r := SaveUnder(masterPassword, w);
      status := r;
      if r.Fail? {
        statusMsg := SaveVaultPrefix + Store.Message(r.error);
      }
    }

    /**
     * Store.Save of the vault in memory under `password`, as both saveVault and the
     * password change call it: the outcome is Save's, a failed save leaves the files alone,
     * and a successful one loads back under that password.
     */
    method SaveUnder(password: string, w: World) returns (r: Outcome<Store.StoreError>)
      requires vault.Some? && w.Valid()
      modifies fs
      ensures fs.home == old(fs.home) && fs.faults == old(fs.faults)
      ensures forall q :: q in old(fs.dirs) ==> q in fs.dirs && fs.dirs[q] == old(fs.dirs[q])
      ensures r.Fail? ==> fs.files == old(fs.files)
      ensures r.Pass? && Sound() ==> Store.Load(fs, password, prims, codec) == Success(vault.value)
      ensures prims.Sound() ==> r == old(Store.SaveOutcome(fs, vault.value, codec, w.saltDraw, w.nonceDraw))
    {
      r := Store.Save(fs, vault.value, password, prims, codec, w.saltDraw, w.nonceDraw);
    }

    /** The update loop: the first entry carrying e's ID becomes e stamped with `now`. */
    method ReplaceInPlace(e: Model.Entry, now: Model.Timestamp)
      requires vault.Some?
      modifies this`vault
      ensures vault == Some(Model.Vault(ReplaceFirst(old(vault.value.entries), e.(updatedAt := now))))
    {
      var es := vault.value.entries;
      var stamped := e.(updatedAt := now);
      var i := 0;
      while i < |es|
        invariant 0 <= i <= |es|
        invariant forall j :: 0 <= j < i ==> es[j].id != e.id
        invariant vault == old(vault)
      {
        if es[i].id == e.id {
          vault := Some(Model.Vault(es[i := stamped]));
          break;
        }
        i := i + 1;
      }
      ReplaceFirstAt(es, stamped);
    }

    /** deleteEntry: keep, in order, every entry whose ID is not `id`. */
    method DeleteEntry(id: string)
      requires vault.Some?
      modifies this`vault
      ensures vault == Some(Model.Vault(WithoutId(old(vault.value.entries), id)))
    {
      var es := vault.value.entries;
      var kept: seq<Model.Entry> := [];
      for i := 0 to |es|
        invariant kept == WithoutId(es[..i], id)
      {
        assert es[..i + 1][..i] == es[..i];
        if es[i].id != id {
          kept := kept + [es[i]];
        }
      }
      assert es[..|es|] == es;
      vault := Some(Model.Vault(kept));
    }

    /**
     * Enter on the editor's last field. An empty title is refused and nothing is saved.
     * Otherwise an entry without ID gets a fresh one and both timestamps and is appended;
     * an entry with an ID replaces the first entry carrying it, stamped with the update
     * time (no match: the entries stay as they are). Either way the vault is saved and the
     * list is shown with "Entry saved.", which replaces any save error.
     */
    method SaveEditorEntry(w: World)
      requires Valid() && state == StateEditor && editor.focused == Editor.FieldNotes && w.Valid()
      modifies this`vault, this`state, this`statusMsg, fs
      ensures Valid()
      ensures editor.GetEntry().title == "" ==>
                && statusMsg == ErrEmptyTitle && vault == old(vault) && state == old(state) && unchanged(fs)
      ensures var e := editor.GetEntry();
              e.title != "" && e.id == "" ==>
                vault == Some(Model.Vault(old(vault.value.entries) +
                  [e.(id := Hex.GenerateId(w.idBytes), createdAt := w.now, updatedAt := w.later)]))
      ensures var e := editor.GetEntry();
              e.title != "" && e.id != "" ==>
                vault == Some(Model.Vault(ReplaceFirst(old(vault.value.entries), e.(updatedAt := w.now))))
      ensures editor.GetEntry().title != "" ==>
                && state == StateList && statusMsg == MsgEntrySaved
                && fs.home == old(fs.home) && fs.faults == old(fs.faults)
                && (Sound() ==> fs.files == old(fs.files) || Persisted(masterPassword))
                && (var v := vault.value;
                    var saved := old(Store.SaveOutcome(fs, v, codec, w.saltDraw, w.nonceDraw));
                    Sound() ==> (saved.Pass? ==> Persisted(masterPassword)) && (saved.Fail? ==> fs.files == old(fs.files)))
    {
      var e := editor.GetEntry();
      if e.title == "" {
        statusMsg := ErrEmptyTitle;
        return;
      }
      StoreAndSave(e, w);
      state := StateList;
      statusMsg := MsgEntrySaved;
    }

    /**
     * An entry without ID gets a fresh one and both timestamps and is appended; one with an
     * ID replaces the first entry carrying it. Then the vault is saved.
     */
    method StoreAndSave(e: Model.Entry, w: World)
      requires vault.Some? && w.Valid()
      modifies this`vault, this`statusMsg, fs
      ensures e.id == "" ==>
                vault == Some(Model.Vault(old(vault.value.entries) +
                  [e.(id := Hex.GenerateId(w.idBytes), createdAt := w.now, updatedAt := w.later)]))
      ensures e.id != "" ==> vault == Some(Model.Vault(ReplaceFirst(old(vault.value.entries), e.(updatedAt := w.now))))
      ensures fs.home == old(fs.home) && fs.faults == old(fs.faults)
      ensures Sound() ==> fs.files == old(fs.files) || Persisted(masterPassword)
      ensures (var v := vault.value;
               var saved := old(Store.SaveOutcome(fs, v, codec, w.saltDraw, w.nonceDraw));
               Sound() ==> (saved.Pass? ==> Persisted(masterPassword)) && (saved.Fail? ==> fs.files == old(fs.files)))
    {
      if e.id == "" {
        var stamped := e.(id := Hex.GenerateId(w.idBytes), createdAt := w.now, updatedAt := w.later);
        vault := Some(Model.Vault(vault.value.entries + [stamped]));
      } else {
        ReplaceInPlace(e, w.now);
      }
      ghost var status := SaveVault(w);
    }

    /** y on the delete confirmation: drop the chosen ID, save, and return to the list. */
    method DeleteChosen(w: World)
      requires Valid() && state == StateDeleteConfirm && entryToDelete.Some? && w.Valid()
      modifies this`vault, this`state, this`statusMsg, this`entryToDelete, fs
      ensures Valid()
      ensures vault == Some(Model.Vault(WithoutId(old(vault.value.entries), old(entryToDelete.value.id))))
      ensures state == StateList && entryToDelete.None? && statusMsg == MsgEntryDeleted
      ensures fs.home == old(fs.home) && fs.faults == old(fs.faults)
      ensures Sound() ==> fs.files == old(fs.files) || Persisted(masterPassword)
      ensures (var v := vault.value;
               var saved := old(Store.SaveOutcome(fs, v, codec, w.saltDraw, w.nonceDraw));
               Sound() ==> (saved.Pass? ==> Persisted(masterPassword)) && (saved.Fail? ==> fs.files == old(fs.files)))
    {
      DeleteAndSave(entryToDelete.value.id, w);
      statusMsg := MsgEntryDeleted;
      state := StateList;
      entryToDelete := None;
    }

    /** deleteEntry followed by saveVault. */
    method DeleteAndSave(id: string, w: World)
      requires vault.Some? && w.Valid()
      modifies this`vault, this`statusMsg, fs
      ensures vault == Some(Model.Vault(WithoutId(old(vault.value.entries), id)))
      ensures fs.home == old(fs.home) && fs.faults == old(fs.faults)
      ensures Sound() ==> fs.files == old(fs.files) || Persisted(masterPassword)
      ensures (var v := vault.value;
               var saved := old(Store.SaveOutcome(fs, v, codec, w.saltDraw, w.nonceDraw));
               Sound() ==> (saved.Pass? ==> Persisted(masterPassword)) && (saved.Fail? ==> fs.files == old(fs.files)))
    {
      DeleteEntry(id);
      ghost var status := SaveVault(w);
    }

    /**
     * A key on the delete confirmation. y or Y drops every entry carrying the chosen ID,
     * saves and returns to the list with "Entry deleted."; n, N or Esc returns to the list
     * untouched. Both forget the chosen entry; every other key changes nothing.
     */
    method ConfirmDelete(key: Key, w: World)
      requires Valid() && state == StateDeleteConfirm && w.Valid()
      modifies this`vault, this`state, this`statusMsg, this`entryToDelete, fs
      ensures Valid()
      ensures (key == Rune('y') || key == Rune('Y')) && old(entryToDelete).Some? ==>
                && vault == Some(Model.Vault(WithoutId(old(vault.value.entries), old(entryToDelete.value.id))))
                && state == StateList && entryToDelete.None? && statusMsg == MsgEntryDeleted
                && fs.home == old(fs.home) && fs.faults == old(fs.faults)
                && (Sound() ==> fs.files == old(fs.files) || Persisted(masterPassword))
                && (var v := vault.value;
                    var saved := old(Store.SaveOutcome(fs, v, codec, w.saltDraw, w.nonceDraw));
                    Sound() ==> (saved.Pass? ==> Persisted(masterPassword)) && (saved.Fail? ==> fs.files == old(fs.files)))
      ensures key == Rune('n') || key == Rune('N') || key.Esc? ==>
                && state == StateList && entryToDelete.None?
                && vault == old(vault) && statusMsg == old(statusMsg) && unchanged(fs)
      ensures !((key == Rune('y') || key == Rune('Y')) && old(entryToDelete).Some?) &&
              !(key == Rune('n') || key == Rune('N') || key.Esc?) ==>
                && state == old(state) && entryToDelete == old(entryToDelete)
                && vault == old(vault) && statusMsg == old(statusMsg) && unchanged(fs)
    {
      if key == Rune('y') || key == Rune('Y') {
        if entryToDelete.Some? {
          DeleteChosen(w);
        }
        return;
      }
      if key == Rune('n') || key == Rune('N') || key.Esc? {
        state := StateList;
        entryToDelete := None;
      }
    }

    /**
     * Enter on the last field of the password change form. The checks run in order and
     * the first failure is shown with nothing saved. When all pass, the vault is saved
     * under the new password; only if that succeeds does the master password change and the
     * list return. `saved` is None when a check failed, else what the save returned.
     */
    method SubmitChangePassword(w: World) returns (ghost saved: Option<Outcome<Store.StoreError>>)
      requires Valid() && state == StateChangePass && changePass.focused == ChangePass.FieldNewConfirm && w.Valid()
      modifies this`masterPassword, this`state, this`statusMsg, fs
      ensures Valid() && vault == old(vault)
      ensures var check := Validate(changePass.inputs[ChangePass.FieldConfirm].value,
                                    changePass.inputs[ChangePass.FieldCurrent].value, old(masterPassword),
                                    changePass.inputs[ChangePass.FieldNew].value,
                                    changePass.inputs[ChangePass.FieldNewConfirm].value);
              && (saved.None? <==> check.Some?)
              && (check.Some? ==> statusMsg == check.value && masterPassword == old(masterPassword)
                                  && state == old(state) && unchanged(fs))
              && (check.None? && prims.Sound() ==>
                    saved == Some(old(Store.SaveOutcome(fs, vault.value, codec, w.saltDraw, w.nonceDraw))))
      ensures saved == Some(Pass) ==>
                && masterPassword == changePass.inputs[ChangePass.FieldNew].value
                && state == StateList && statusMsg == MsgPasswordChanged
                && (Sound() ==> Persisted(masterPassword))
      ensures saved.Some? && saved.value.Fail? ==>
                && masterPassword == old(masterPassword) && state == old(state) && fs.files == old(fs.files)
                && statusMsg == CriticalPrefix + Store.Message(saved.value.error)
      ensures masterPassword != old(masterPassword) ==> saved == Some(Pass)
    {
      var confirm := changePass.inputs[ChangePass.FieldConfirm].value;
      var current := changePass.inputs[ChangePass.FieldCurrent].value;
      var newPass := changePass.inputs[ChangePass.FieldNew].value;
      var newConfirm := changePass.inputs[ChangePass.FieldNewConfirm].value;
      if confirm != "YES" {
        statusMsg := ErrConfirm;
        return None;
      }
      if current != masterPassword {
        statusMsg := ErrCurrent;
        return None;
      }
      if newPass == "" {
        statusMsg := ErrNewEmpty;
        return None;
      }
      if newPass != newConfirm {
        statusMsg := ErrMismatch;
        return None;
      }
      var r := CommitPassword(newPass, w);
      saved := Some(r);
    }

    /**
     * The checks passed: save under the new password. Only a successful save adopts it and
     * returns to the list; a failed one keeps the old password and reports a critical error.
     */
    method CommitPassword(newPass: string, w: World) returns (r: Outcome<Store.StoreError>)
      requires vault.Some? && w.Valid()
      modifies this`masterPassword, this`state, this`statusMsg, fs
      ensures r.Pass? ==>
                && masterPassword == newPass && state == StateList && statusMsg == MsgPasswordChanged
                && (Sound() ==> Persisted(masterPassword))
      ensures r.Fail? ==>
                && masterPassword == old(masterPassword) && state == old(state) && fs.files == old(fs.files)
                && statusMsg == CriticalPrefix + Store.Message(r.error)
      ensures prims.Sound() ==> r == old(Store.SaveOutcome(fs, vault.value, codec, w.saltDraw, w.nonceDraw))
    {
      r := SaveUnder(newPass, w);
      if r.Fail? {
        statusMsg := CriticalPrefix + Store.Message(r.error);
        return;
      }
      masterPassword := newPass;
      state := StateList;
      statusMsg := MsgPasswordChanged;
    }

    /** "a" on the list: a fresh editor for a new entry. */
    method OpenNewEditor()
      requires Valid() && state == StateList
      modifies this`state, this`editor
      ensures Valid() && state == StateEditor && fresh(editor)
      ensures editor.entry.None? && editor.focused == Editor.FieldTitle && editor.FocusShown()
      ensures editor.GetEntry() == Model.ZeroEntry
    {
      state := StateEditor;
      editor := new Editor.EditorModel();
    }

    /** "e" on the list with an entry selected: a fresh editor loaded with that entry. */
    method OpenEditor(e: Model.Entry)
      requires Valid() && state == StateList
      modifies this`state, this`editor
      ensures Valid() && state == StateEditor && fresh(editor)
      ensures editor.entry == Some(e) && editor.focused == Editor.FieldTitle && editor.FocusShown()
      ensures editor.GetEntry() == e.(updatedAt := Model.ZeroTime)
    {
      state := StateEditor;
      editor := new Editor.EditorModel();
      editor.SetEntry(e);
    }

    /** "P" on the list: a fresh password change form. */
    method OpenChangePass()
      requires Valid() && state == StateList
      modifies this`state, this`changePass
      ensures Valid() && state == StateChangePass && fresh(changePass)
      ensures changePass.focused == ChangePass.FieldConfirm && changePass.FocusShown()
      ensures forall i :: 0 <= i < ChangePass.FieldCount ==> changePass.inputs[i].value == ""
    {
      state := StateChangePass;
      changePass := new ChangePass.ChangePassModel();
    }

    /** "d" on the list with an entry selected: ask for confirmation. */
    method RequestDelete(e: Model.Entry)
      requires Valid() && state == StateList
      modifies this`state, this`entryToDelete
      ensures Valid() && state == StateDeleteConfirm && entryToDelete == Some(e)
    {
      state := StateDeleteConfirm;
      entryToDelete := Some(e);
    }

    /**
     * Update, for a key press: route it by screen. `selected` is the entry the list has
     * selected, if any, and `filtering` whether the list is taking filter input.
     */
    method HandleKey(key: Key, selected: Option<Model.Entry>, filtering: bool, w: World)
      requires Valid() && w.Valid()
      modifies this, fs, editor, editor.inputs, changePass, changePass.inputs
      ensures Valid()
      ensures old(state) == StateAuth && !key.Enter? ==>
                state == StateAuth && authInput == old(authInput).Update(key) && unchanged(fs)
      ensures old(state) in {StateEditor, StateChangePass} && key.Esc? ==> state == StateList && unchanged(fs)
      ensures masterPassword != old(masterPassword) ==>
                old(state) in {StateAuth, StateChangePass} && state == StateList
    {
      match state
      case StateAuth =>
        if key.Enter? {
          Unlock();
        } else {
          authInput := authInput.Update(key);
        }
      case StateList =>
        if !filtering {
          if key == Rune('a') {
            OpenNewEditor();
          } else if key == Rune('P') {
            OpenChangePass();
          } else if key == Rune('e') && selected.Some? {
            OpenEditor(selected.value);
          } else if key == Rune('d') && selected.Some? {
            RequestDelete(selected.value);
          }
        }
      case StateDetail =>
      case StateEditor =>
        EditorKey(key, w);
      case StateChangePass =>
        ChangePassKey(key, w);
      case StateDeleteConfirm =>
        ConfirmDelete(key, w);
    }

    /** A key on the editor: Esc back to the list, Enter on the notes saves, others edit. */
    method EditorKey(key: Key, w: World)
      requires Valid() && state == StateEditor && w.Valid()
      modifies this`vault, this`state, this`statusMsg, fs, editor, editor.inputs
      ensures Valid()
      ensures key.Esc? ==> state == StateList && unchanged(fs)
    {
      if key.Esc? {
        state := StateList;
      } else if key.Enter? && editor.focused == Editor.FieldNotes {
        SaveEditorEntry(w);
      } else {
        editor.Update(key);
      }
    }

    /**
     * A key on the password form: Esc back to the list, Enter on the retyped password
     * submits, others edit. Only a submission that saved changes the master password.
     */
    method ChangePassKey(key: Key, w: World)
      requires Valid() && state == StateChangePass && w.Valid()
      modifies this`masterPassword, this`state, this`statusMsg, fs, changePass, changePass.inputs
      ensures Valid()
      ensures key.Esc? ==> state == StateList && unchanged(fs)
      ensures masterPassword != old(masterPassword) ==> state == StateList
    {
      if key.Esc? {
        state := StateList;
      } else if key.Enter? && changePass.focused == ChangePass.FieldNewConfirm {
        ghost var saved := SubmitChangePassword(w);
      } else {
        changePass.Update(key);
      }
    }
  }
}
