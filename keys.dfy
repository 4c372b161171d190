/** The key events the editor reacts to, and the guard that asks for repeated
    Ctrl-X presses before quitting with unsaved changes. */
module Keys {

  /** CTRL_KEY(k): the key code of Ctrl together with the letter `k`, its low
      five bits. */
  function CtrlKey(k: char): (r: int)
    ensures 0 <= r < 32
    ensures 'a' <= k <= 'z' ==> r == k as int - 'a' as int + 1
  {
    (k as int) % 32
  }

  const ENTER: int := 13
  const ESC: int := 27
  const BACKSPACE: int := 127
  const ARROW_UP: int := 1000
  const ARROW_DOWN: int := 1001
  const ARROW_LEFT: int := 1002
  const ARROW_RIGHT: int := 1003
  const DEL_KEY: int := 1004
  const HOME_KEY: int := 1005
  const END_KEY: int := 1006
  const PAGE_UP: int := 1007
  const PAGE_DOWN: int := 1008

  const CTRL_H: int := 8
  const CTRL_L: int := 12
  const CTRL_S: int := 19
  const CTRL_X: int := 24

  /** The Ctrl key codes above are CTRL_KEY of their letters. */
  lemma CtrlKeyCodes()
    ensures CTRL_H == CtrlKey('h') && CTRL_L == CtrlKey('l')
    ensures CTRL_S == CtrlKey('s') && CTRL_X == CtrlKey('x')
  {
  }

  /** How many extra Ctrl-X presses quitting with unsaved changes takes. */
  const QUIT_TIMES: nat := 3

  /** The codes the key reader delivers: a byte, or one of the named keys. */
  predicate IsKey(k: int)
  {
    0 <= k < 256 || ARROW_UP <= k <= PAGE_DOWN
  }

  /** Keys that only move the cursor or do nothing. */
  predicate IsNavigationKey(k: int)
  {
    k == ARROW_UP || k == ARROW_DOWN || k == ARROW_LEFT || k == ARROW_RIGHT ||
    k == PAGE_UP || k == PAGE_DOWN || k == HOME_KEY || k == END_KEY || k == CTRL_L || k == ESC
  }

  /** Keys that no case of the dispatcher names, so they are typed into the
      document. */
  predicate IsInsertKey(k: int)
  {
    0 <= k < 256 && k != ENTER && k != CTRL_X && k != CTRL_S &&
    k != BACKSPACE && k != CTRL_H && k != CTRL_L && k != ESC
  }

  /** Keys that edit the document. */
  predicate IsEditKey(k: int)
  {
    k == ENTER || k == BACKSPACE || k == CTRL_H || k == DEL_KEY || IsInsertKey(k)
  }

  /** Every key is Ctrl-X, Ctrl-S, a key that only moves the cursor, or a key
      that edits the document, and exactly one of these. */
  lemma KeyClasses(k: int)
    requires IsKey(k)
    ensures k == CTRL_X || k == CTRL_S || IsNavigationKey(k) || IsEditKey(k)
    ensures IsNavigationKey(k) ==> k != CTRL_X && k != CTRL_S && !IsEditKey(k)
    ensures IsEditKey(k) ==> k != CTRL_X && k != CTRL_S
  {
  }

  /** What key `key` does to the quit counter: whether the editor quits, and
      the counter afterwards. Ctrl-X with unsaved changes and presses left
      only counts down; every other key restores the counter. */
  function QuitGuard(dirty: nat, times: int, key: int): (r: (bool, int))
    ensures r.0 <==> key == CTRL_X && (dirty == 0 || times <= 0)
    ensures 0 <= times <= QUIT_TIMES ==> 0 <= r.1 <= QUIT_TIMES
  {
    if key == CTRL_X then
      if dirty != 0 && times > 0 then (false, times - 1) else (true, times)
    else (false, QUIT_TIMES)
  }

  /** Whether `n` Ctrl-X presses in a row, from counter `times`, quit. */
  function QuitWithin(dirty: nat, times: int, n: nat): bool
  {
    if n == 0 then false
    else
      var (quit, left) := QuitGuard(dirty, times, CTRL_X);
      quit || QuitWithin(dirty, left, n - 1)
  }

  /** With unsaved changes the editor quits on press `times + 1` and not
      before; with none it quits on the first press. */
  lemma {:induction false} QuitNeedsConfirmation(dirty: nat, times: nat, n: nat)
    ensures QuitWithin(dirty, times, n) <==> n > (if dirty != 0 then times else 0)
  {
    if n > 0 && dirty != 0 && times > 0 {
      QuitNeedsConfirmation(dirty, times - 1, n - 1);
    }
  }
}
