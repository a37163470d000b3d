/**
 * internal/tui/changepass.go: the four-field form for changing the master password.
 *
 * The fields are, in order, the "YES" confirmation (at most three characters), the current
 * password, the new password and its retyping; the last three echo as passwords. Focus moves
 * as in the entry editor, over four fields.
 */
module ChangePass {
  import opened TextInput

  const FieldConfirm := 0
  const FieldCurrent := 1
  const FieldNew := 2
  const FieldNewConfirm := 3
  const FieldCount := 4

  /** The character limit of the confirmation input. */
  const ConfirmLimit := 3

  class ChangePassModel {
    var inputs: array<Input>
    var focused: int

    /**
     * Four inputs: the confirmation limited to three characters and shown, the three
     * password inputs unlimited and masked; every value within its limit.
     */
    predicate Valid()
      reads this, inputs
    {
      && inputs.Length == FieldCount
      && 0 <= focused < FieldCount
      && inputs[FieldConfirm].charLimit == ConfirmLimit && !inputs[FieldConfirm].masked
      && (forall i :: FieldCurrent <= i < FieldCount ==> inputs[i].charLimit == 0 && inputs[i].masked)
      && forall i :: 0 <= i < FieldCount ==> inputs[i].Fits()
    }

    /** Exactly the input at `focused` has focus. */
    predicate FocusShown()
      reads this, inputs
    {
      FocusedOnly(inputs[..], focused)
    }

    /** NewChangePassModel: four empty inputs, focus on the confirmation. */
    constructor ()
      ensures Valid() && FocusShown() && fresh(inputs)
      ensures focused == FieldConfirm
      ensures forall i :: 0 <= i < FieldCount ==> inputs[i].value == ""
    {
      var a := new Input[FieldCount](_ => Blank);
      a[FieldConfirm] := a[FieldConfirm].Focus().(charLimit := ConfirmLimit);
      a[FieldCurrent] := a[FieldCurrent].(masked := true);
      a[FieldNew] := a[FieldNew].(masked := true);
      a[FieldNewConfirm] := a[FieldNewConfirm].(masked := true);
      inputs := a;
      focused := FieldConfirm;
    }

    /** The confirmation never holds more than three characters. */
    lemma ConfirmAtMostThree()
      requires Valid()
      ensures |inputs[FieldConfirm].value| <= ConfirmLimit
    {
    }

    /**
     * Update: a navigation key moves focus one field (backward for up and shift+tab) with
     * wrap-around and leaves exactly that input focused, except Enter on the retyped new
     * password, which changes nothing. Every other key is handed to the inputs.
     */
    method Update(key: Key)
      requires Valid()
      modifies this, inputs
      ensures Valid() && inputs == old(inputs)
      ensures key.Enter? && old(focused) == FieldNewConfirm ==> focused == old(focused) && inputs[..] == old(inputs[..])
      ensures IsNavigation(key) && !(key.Enter? && old(focused) == FieldNewConfirm) ==>
                && focused == Cycle(old(focused), FieldCount, IsBackward(key))
                && FocusShown()
                && forall i :: 0 <= i < FieldCount ==> inputs[i].value == old(inputs[i].value)
      ensures !IsNavigation(key) ==>
                && focused == old(focused)
                && forall i :: 0 <= i < FieldCount ==> inputs[i] == old(inputs[i]).Update(key)
      ensures old(FocusShown()) ==> FocusShown()
    {
      if IsNavigation(key) {
        if key.Enter? && focused == FieldCount - 1 {
          return;
        }
        if key.Up? || key.ShiftTab? {
          focused := focused - 1;
        } else {
          focused := focused + 1;
        }
        if focused > FieldCount - 1 {
          focused := 0;
        } else if focused < 0 {
          focused := FieldCount - 1;
        }
        FocusOnly(inputs, focused);
        return;
      }
      UpdateAll(inputs, key);
    }
  }
}
