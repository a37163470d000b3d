/**
 * internal/tui/editor.go: the five-field form that creates or edits an entry.
 *
 * The form holds one text input per field, the index of the field with focus, and the entry
 * being edited (none when a new entry is being created). Navigation keys move focus one
 * field with wrap-around; Enter on the last field is left to the parent; any other key goes
 * to the inputs, where only the focused one reacts.
 */
module Editor {
  import opened Wrappers
  import opened TextInput
  import Model

  const FieldTitle := 0
  const FieldUsername := 1
  const FieldPassword := 2
  const FieldURL := 3
  const FieldNotes := 4
  const FieldCount := 5

  class EditorModel {
    var inputs: array<Input>
    var focused: int
    /** The entry being edited; None while a new entry is being created. */
    var entry: Option<Model.Entry>

    /** Five unlimited inputs, none masked, and focus on one of them. */
    predicate Valid()
      reads this, inputs
    {
      && inputs.Length == FieldCount
      && 0 <= focused < FieldCount
      && forall i :: 0 <= i < FieldCount ==> inputs[i].charLimit == 0 && !inputs[i].masked
    }

    /** Exactly the input at `focused` has focus. */
    predicate FocusShown()
      reads this, inputs
    {
      FocusedOnly(inputs[..], focused)
    }

    /** NewEditorModel: five empty inputs, focus on Title, no entry recorded. */
    constructor ()
      ensures Valid() && FocusShown() && fresh(inputs)
      ensures focused == FieldTitle && entry.None?
      ensures forall i :: 0 <= i < FieldCount ==> inputs[i].value == ""
    {
      var a := new Input[FieldCount](_ => Blank);
      a[FieldTitle] := a[FieldTitle].Focus();
      inputs := a;
      focused := FieldTitle;
      entry := None;
    }

    /**
     * SetEntry: record the entry, load its five text fields, and put focus on Title. The
     * other inputs are not blurred.
     */
    method SetEntry(e: Model.Entry)
      requires Valid()
      modifies this, inputs
      ensures Valid() && inputs == old(inputs)
      ensures entry == Some(e) && focused == FieldTitle
      ensures GetEntry() == e.(updatedAt := Model.ZeroTime)
      ensures inputs[FieldTitle].focused
      ensures forall i :: FieldTitle < i < FieldCount ==> inputs[i].focused == old(inputs[i].focused)
      ensures old(focused) == FieldTitle && old(FocusShown()) ==> FocusShown()
    {
      entry := Some(e);
      inputs[FieldTitle] := inputs[FieldTitle].SetValue(e.title);
      inputs[FieldUsername] := inputs[FieldUsername].SetValue(e.username);
      inputs[FieldPassword] := inputs[FieldPassword].SetValue(e.password);
      inputs[FieldURL] := inputs[FieldURL].SetValue(e.url);
      inputs[FieldNotes] := inputs[FieldNotes].SetValue(e.notes);
      focused := FieldTitle;
      inputs[FieldTitle] := inputs[FieldTitle].Focus();
    }

    /**
     * Update: a navigation key moves focus one field (backward for up and shift+tab) with
     * wrap-around and leaves exactly that input focused, except Enter on Notes, which
     * changes nothing. Every other key is handed to the inputs.
     */
    method Update(key: Key)
      requires Valid()
      modifies this, inputs
      ensures Valid() && inputs == old(inputs) && entry == old(entry)
      ensures key.Enter? && old(focused) == FieldNotes ==> focused == old(focused) && inputs[..] == old(inputs[..])
      ensures IsNavigation(key) && !(key.Enter? && old(focused) == FieldNotes) ==>
                && focused == Cycle(old(focused), FieldCount, IsBackward(key))
                && FocusShown()
                && forall i :: 0 <= i < FieldCount ==> inputs[i].value == old(inputs[i].value)
      ensures !IsNavigation(key) ==>
                && focused == old(focused)
                && forall i :: 0 <= i < FieldCount ==> inputs[i] == old(inputs[i]).Update(key)
      ensures old(FocusShown()) ==> FocusShown()
    {
      if IsNavigation(key) {
        if key.Enter? && focused == FieldCount - 1 {
          return;
        }
        if key.Up? || key.ShiftTab? {
          focused := focused - 1;
        } else {
          focused := focused + 1;
        }
        if focused > FieldCount - 1 {
          focused := 0;
        } else if focused < 0 {
          focused := FieldCount - 1;
        }
        FocusOnly(inputs, focused);
        return;
      }
      UpdateAll(inputs, key);
    }

    /**
     * GetEntry: the five text fields from the inputs; ID and creation time from the recorded
     * entry, or empty and zero when there is none; the update time is always zero.
     */
    function GetEntry(): (e: Model.Entry)
      requires Valid()
      reads this, inputs
      ensures e.title == inputs[FieldTitle].value && e.username == inputs[FieldUsername].value
      ensures e.password == inputs[FieldPassword].value && e.url == inputs[FieldURL].value
      ensures e.notes == inputs[FieldNotes].value
      ensures entry.Some? ==> e.id == entry.value.id && e.createdAt == entry.value.createdAt
      ensures entry.None? ==> e.id == "" && e.createdAt == Model.ZeroTime
      ensures e.updatedAt == Model.ZeroTime
    {
      var e := Model.Entry("", inputs[FieldTitle].value, inputs[FieldUsername].value,
                           inputs[FieldPassword].value, inputs[FieldURL].value, inputs[FieldNotes].value,
                           Model.ZeroTime, Model.ZeroTime);
      match entry
      case Some(recorded) => e.(id := recorded.id, createdAt := recorded.createdAt)
      case None => e
    }
  }
}
