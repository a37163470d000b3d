/**
 * The part of the bubbles `textinput` widget and of Bubble Tea's key messages that the two
 * forms (internal/tui/editor.go, internal/tui/changepass.go) and the unlock screen rely on,
 * together with the focus handling both forms share: one step of focus cycling with
 * wrap-around, the loop that focuses exactly one input, and the loop that hands a key to
 * every input.
 */
module TextInput {

  /** A key press, named as Bubble Tea's `msg.String()` names it. */
  datatype Key = Tab | ShiftTab | Enter | Up | Down | Esc | Backspace | Rune(c: char) | Other

  /** The keys the forms treat as navigation: "tab", "shift+tab", "enter", "up", "down". */
  predicate IsNavigation(k: Key) {
    k.Tab? || k.ShiftTab? || k.Enter? || k.Up? || k.Down?
  }

  /** "up" and "shift+tab" move focus backward; the other navigation keys move it forward. */
  predicate IsBackward(k: Key) {
    k.Up? || k.ShiftTab?
  }

  /**
   * A text input: its value, whether it has focus, its character limit (0: no limit) and
   * whether it echoes as a password. The cursor is taken to stay at the end of the value.
   */
  datatype Input = Input(value: string, focused: bool, charLimit: nat, masked: bool) {

    /** The value respects the character limit. */
    predicate Fits() {
      charLimit == 0 || |value| <= charLimit
    }

    /** SetValue: the new value, cut to the character limit when it has one. */
    function SetValue(s: string): (r: Input)
      ensures r.Fits()
      ensures r.value <= s
      ensures charLimit == 0 || |s| <= charLimit ==> r.value == s
      ensures r.focused == focused && r.charLimit == charLimit && r.masked == masked
    {
      if 0 < charLimit < |s| then this.(value := s[..charLimit]) else this.(value := s)
    }

    function Focus(): (r: Input)
      ensures r.focused && r.value == value && r.charLimit == charLimit && r.masked == masked
    {
      this.(focused := true)
    }

    function Blur(): (r: Input)
      ensures !r.focused && r.value == value && r.charLimit == charLimit && r.masked == masked
    {
      this.(focused := false)
    }

    /**
     * Update: an input without focus ignores every key. A focused input appends a typed
     * character while there is room under the limit, drops the last character on
     * backspace and ignores everything else.
     */
    function Update(k: Key): (r: Input)
      ensures !focused ==> r == this
      ensures r.focused == focused && r.charLimit == charLimit && r.masked == masked
      ensures Fits() ==> r.Fits()
      ensures focused && k.Rune? && (charLimit == 0 || |value| < charLimit) ==> r.value == value + [k.c]
      ensures focused && k.Rune? && 0 < charLimit <= |value| ==> r.value == value
      ensures focused && k.Backspace? && |value| > 0 ==> r.value == value[..|value| - 1]
      ensures !k.Rune? && !k.Backspace? ==> r == this
    {
      if !focused then this
      else match k
        case Rune(c) => if charLimit == 0 || |value| < charLimit then this.(value := value + [c]) else this
        case Backspace => if |value| > 0 then this.(value := value[..|value| - 1]) else this
        case _ => this
    }
  }

  /** textinput.New(): empty, without focus, unlimited, echoing normally. */
  const Blank := Input("", false, 0, false)

  /**
   * One navigation step over `count` fields: decrement or increment, then wrap a value past
   * the last field to 0 and a value below 0 to the last field.
   */
  function Cycle(f: int, count: nat, backward: bool): (g: int)
    requires 0 <= f < count
    ensures 0 <= g < count
    ensures backward ==> g == (f + count - 1) % count
    ensures !backward ==> g == (f + 1) % count
  {
    var g := if backward then f - 1 else f + 1;
    ModOfStep(if backward then f + count - 1 else f + 1, count);
    if g > count - 1 then 0 else if g < 0 then count - 1 else g
  }

  /** x % n for 0 <= x < 2n: x below n, x - n from n on. */
  lemma ModOfStep(x: int, n: int)
    requires 0 <= x < 2 * n
    ensures x < n ==> x % n == x
    ensures n <= x ==> x % n == x - n
  {
    if n <= x {
      assert x == 1 * n + (x - n);
    }
  }

  /** A forward step undoes a backward step, and the other way round. */
  lemma CycleInverse(f: int, count: nat)
    requires 0 <= f < count
    ensures Cycle(Cycle(f, count, true), count, false) == f
    ensures Cycle(Cycle(f, count, false), count, true) == f
  {
  }

  /**
   * Forward steps visit the fields in order, wrapping once past the last one; after `count`
   * steps the focus is back where it started.
   */
  lemma {:induction false} CycleVisitsAll(f: int, count: nat, n: nat)
    requires 0 <= f < count && n <= count
    ensures Steps(f, count, n) == if f + n < count then f + n else f + n - count
  {
    if n > 0 {
      CycleVisitsAll(f, count, n - 1);
    }
  }

  /** The field reached after `n` forward steps. */
  function Steps(f: int, count: nat, n: nat): (g: int)
    requires 0 <= f < count
    ensures 0 <= g < count
  {
    if n == 0 then f else Cycle(Steps(f, count, n - 1), count, false)
  }

  /** Exactly the input at index k has focus. */
  predicate FocusedOnly(s: seq<Input>, k: int) {
    forall i :: 0 <= i < |s| ==> s[i].focused == (i == k)
  }

  /** The loop of both forms' Update: focus the input at k and blur every other input. */
  method FocusOnly(inputs: array<Input>, k: int)
    requires 0 <= k < inputs.Length
    modifies inputs
    ensures forall i :: 0 <= i < inputs.Length ==> inputs[i] == old(inputs[i]).(focused := i == k)
    ensures FocusedOnly(inputs[..], k)
  {
    for i := 0 to inputs.Length
      invariant forall j :: 0 <= j < i ==> inputs[j] == old(inputs[j]).(focused := j == k)
      invariant forall j :: i <= j < inputs.Length ==> inputs[j] == old(inputs[j])
    {
      if i == k {
        inputs[i] := inputs[i].Focus();
      } else {
        inputs[i] := inputs[i].Blur();
      }
    }
  }

  /** updateInputs: hand the key to every input in turn. */
  method UpdateAll(inputs: array<Input>, k: Key)
    modifies inputs
    ensures forall i :: 0 <= i < inputs.Length ==> inputs[i] == old(inputs[i]).Update(k)
  {
    for i := 0 to inputs.Length
      invariant forall j :: 0 <= j < i ==> inputs[j] == old(inputs[j]).Update(k)
      invariant forall j :: i <= j < inputs.Length ==> inputs[j] == old(inputs[j])
    {
      inputs[i] := inputs[i].Update(k);
    }
  }

  /** When one input has focus, handing a key to every input changes at most that one. */
  lemma OnlyFocusedReacts(before: seq<Input>, after: seq<Input>, k: int, key: Key)
    requires |before| == |after| && FocusedOnly(before, k)
    requires forall i :: 0 <= i < |before| ==> after[i] == before[i].Update(key)
    ensures forall i :: 0 <= i < |before| && i != k ==> after[i] == before[i]
    ensures FocusedOnly(after, k)
  {
  }
}
