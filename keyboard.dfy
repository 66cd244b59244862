/** The `keydown` dispatch of hooks/use-keyboard-shortcuts.ts as a pure function. */
module Keyboard {
  import opened Wrappers

  /** The optional callbacks of `KeyboardShortcuts`. */
  datatype Shortcut = OnSpace | OnLeft | OnRight | OnRestart | OnSettings | OnKeyboard | OnEscape

  /** What the event's target is, as far as the guard distinguishes. */
  datatype Target = InputElement | TextAreaElement | OtherElement

  /** The effect of one key event: the callback that ran, and whether `preventDefault` was called. */
  datatype KeyOutcome = KeyOutcome(fired: Option<Shortcut>, preventDefault: bool)

  /** Every `e.key` value the `switch` has a case for. */
  const LISTED_KEYS: set<string> := {" ", "ArrowLeft", "ArrowRight", "r", "R", "s", "S", "k", "K", "Escape"}

  predicate IsTextField(target: Target)
  {
    target == InputElement || target == TextAreaElement
  }

  /** The `switch (e.key)`: which callback a key selects. */
  function ShortcutFor(key: string): (a: Option<Shortcut>)
    ensures a.Some? <==> key in LISTED_KEYS
  {
    if key == " " then Some(OnSpace)
    else if key == "ArrowLeft" then Some(OnLeft)
    else if key == "ArrowRight" then Some(OnRight)
    else if key == "r" || key == "R" then Some(OnRestart)
    else if key == "s" || key == "S" then Some(OnSettings)
    else if key == "k" || key == "K" then Some(OnKeyboard)
    else if key == "Escape" then Some(OnEscape)
    else None
  }

  /**
   * `handleKeyDown`: nothing happens while typing in an input or a textarea;
   * otherwise a listed key calls `preventDefault` and then its callback, if the
   * caller supplied one (`provided`).
   */
  function HandleKeyDown(key: string, target: Target, provided: set<Shortcut>): (r: KeyOutcome)
    ensures r.preventDefault <==> !IsTextField(target) && key in LISTED_KEYS
    ensures r.fired.Some? ==> r.preventDefault && r.fired.value in provided
    ensures r.fired.Some? ==> r.fired == ShortcutFor(key)
    ensures r.fired.Some? <==> !IsTextField(target) && ShortcutFor(key).Some? && ShortcutFor(key).value in provided
  {
    if IsTextField(target) then KeyOutcome(None, false)
    else
      match ShortcutFor(key)
      case None => KeyOutcome(None, false)
      case Some(a) => KeyOutcome(if a in provided then Some(a) else None, true)
  }

  /** Typing in a text field triggers nothing and leaves the default action alone. */
  lemma TextFieldsIgnored(key: string, target: Target, provided: set<Shortcut>)
    requires IsTextField(target)
    ensures HandleKeyDown(key, target, provided) == KeyOutcome(None, false)
  {
  }

  lemma NamedKeys()
    ensures ShortcutFor(" ") == Some(OnSpace)
    ensures ShortcutFor("ArrowLeft") == Some(OnLeft)
    ensures ShortcutFor("ArrowRight") == Some(OnRight)
    ensures ShortcutFor("Escape") == Some(OnEscape)
  {
  }

  /** The letter shortcuts answer to either case. */
  lemma LettersCaseInsensitive()
    ensures ShortcutFor("r") == ShortcutFor("R") == Some(OnRestart)
    ensures ShortcutFor("s") == ShortcutFor("S") == Some(OnSettings)
    ensures ShortcutFor("k") == ShortcutFor("K") == Some(OnKeyboard)
  {
  }

  /** A key without a case triggers nothing and leaves the default action alone. */
  lemma UnlistedKeysIgnored(key: string, target: Target, provided: set<Shortcut>)
    requires key !in LISTED_KEYS
    ensures HandleKeyDown(key, target, provided) == KeyOutcome(None, false)
  {
  }

  /** A listed key outside a text field calls `preventDefault` even when its callback is absent. */
  lemma MissingCallbackStillPrevents(key: string, target: Target, provided: set<Shortcut>)
    requires key in LISTED_KEYS && !IsTextField(target)
    requires ShortcutFor(key).value !in provided
    ensures HandleKeyDown(key, target, provided) == KeyOutcome(None, true)
  {
  }
}
