/** The X11 pointer stubs: the cursor position relative to a window and the
    pressed state of one button. Both are read from the reply of a single
    `XQueryPointer` request, which the model takes as a value. */
module X11Mouse {

  /** The reply of one `XQueryPointer` request: the pointer position relative
      to the root window and to the queried window, and the key and button
      state mask (an `unsigned int`). The root and child window ids of the
      reply are not used by the stubs and are left out. */
  datatype PointerSnapshot = PointerSnapshot(
    rootX: int, rootY: int,
    winX: int, winY: int,
    mask: bv32)

  /** The button masks of the X Window System core protocol (SETofKEYBUTMASK):
      Button1 is bit 8, ..., Button5 is bit 12. */
  const Button1Mask: bv32 := 0x0100
  const Button2Mask: bv32 := 0x0200
  const Button3Mask: bv32 := 0x0400
  const Button4Mask: bv32 := 0x0800
  const Button5Mask: bv32 := 0x1000

  /** All five button bits together. */
  const ButtonBits: bv32 := 0x1F00

  /** The mask bit that reports button `button`, by table. */
  function ButtonMask(button: int): (bit: bv32)
    requires 1 <= button <= 5
    ensures bit & ButtonBits == bit && bit != 0
  {
    if button == 1 then Button1Mask
    else if button == 2 then Button2Mask
    else if button == 3 then Button3Mask
    else if button == 4 then Button4Mask
    else Button5Mask
  }

  /** The test bit `1 << (button + 7)` of `caml_xquery_button_down` is the
      protocol's mask for that button. */
  lemma ButtonShiftIsButtonMask(button: int)
    requires 1 <= button <= 5
    ensures (1 as bv32) << (button + 7) == ButtonMask(button)
  {
    if button == 1 {
    } else if button == 2 {
    } else if button == 3 {
    } else if button == 4 {
    } else {
    }
  }

  /** `caml_xquery_pointer_position`: the cursor position relative to the
      queried window's origin, as the reply reports it. */
  function PointerPosition(snapshot: PointerSnapshot): (position: (int, int))
    ensures position.0 == snapshot.winX && position.1 == snapshot.winY
  {
    (snapshot.winX, snapshot.winY)
  }

  /** `caml_xquery_button_down`: whether button `button` is pressed. A button
      outside 1..5 is reported as not pressed, not as an error; a button in
      1..5 is pressed iff its protocol button mask is set in the reply's mask. */
  function ButtonDown(snapshot: PointerSnapshot, button: int): (pressed: bool)
    ensures !(1 <= button <= 5) ==> !pressed
    ensures 1 <= button <= 5 ==> (pressed <==> snapshot.mask & ButtonMask(button) != 0)
  {
    if 1 <= button <= 5 then
      ButtonShiftIsButtonMask(button);
      ((1 as bv32) << (button + 7)) & snapshot.mask != 0
    else
      false
  }

  /** A named form of the contract of `PointerPosition`, stated across two
      replies: the position depends only on the window-relative pair, the
      root-relative pair and the state mask play no part, and no clamping to
      the window takes place. */
  lemma PositionIsWindowRelative(s: PointerSnapshot, t: PointerSnapshot)
    requires s.winX == t.winX && s.winY == t.winY
    ensures PointerPosition(s) == PointerPosition(t)
    ensures PointerPosition(s) == (t.winX, t.winY)
  {
  }

  /** Only the five button bits of the mask are read: changing any other bit
      (a modifier key, say) leaves every button's state unchanged. */
  lemma ButtonDownReadsOnlyButtonBits(s: PointerSnapshot, t: PointerSnapshot, button: int)
    requires s.mask & ButtonBits == t.mask & ButtonBits
    ensures ButtonDown(s, button) == ButtonDown(t, button)
  {
    if 1 <= button <= 5 {
      var bit := ButtonMask(button);
      assert s.mask & bit == (s.mask & ButtonBits) & bit;
      assert t.mask & bit == (t.mask & ButtonBits) & bit;
    }
  }

  /** The masks of two distinct buttons share no bit. */
  lemma ButtonMasksDisjoint(b: int, c: int)
    requires 1 <= b <= 5 && 1 <= c <= 5 && b != c
    ensures ButtonMask(b) & ButtonMask(c) == 0
  {
  }

  /** A button in 1..5 reads its own mask bit and nothing else: two replies
      whose masks agree on that bit give the same answer for it. */
  lemma ButtonDownReadsOnlyItsBit(s: PointerSnapshot, t: PointerSnapshot, button: int)
    requires 1 <= button <= 5
    requires s.mask & ButtonMask(button) == t.mask & ButtonMask(button)
    ensures ButtonDown(s, button) == ButtonDown(t, button)
  {
  }

  /** Setting a button's bit in the mask makes that button report pressed. */
  lemma SettingButtonBitPresses(s: PointerSnapshot, b: int)
    requires 1 <= b <= 5
    ensures ButtonDown(s.(mask := s.mask | ButtonMask(b)), b)
  {
    assert (s.mask | ButtonMask(b)) & ButtonMask(b) == ButtonMask(b);
  }

  /** Setting the bit of button `b` leaves the answer for another button `c`
      in 1..5 as it was: their masks share no bit. */
  lemma PressingLeavesOther(s: PointerSnapshot, b: int, c: int)
    requires 1 <= b <= 5 && 1 <= c <= 5 && b != c
    ensures ButtonDown(s.(mask := s.mask | ButtonMask(b)), c) == ButtonDown(s, c)
  {
    ButtonMasksDisjoint(b, c);
    var m := s.mask | ButtonMask(b);
    assert m & ButtonMask(c) == (s.mask & ButtonMask(c)) | (ButtonMask(b) & ButtonMask(c));
    ButtonDownReadsOnlyItsBit(s.(mask := m), s, c);
  }

  /** Distinct buttons read distinct bits: pressing button `b` makes `b` report
      pressed and leaves the report of every other button as it was. */
  lemma PressingOneButtonLeavesOthers(s: PointerSnapshot, b: int, c: int)
    requires 1 <= b <= 5 && b != c
    ensures ButtonDown(s.(mask := s.mask | ButtonMask(b)), b)
    ensures ButtonDown(s.(mask := s.mask | ButtonMask(b)), c) == ButtonDown(s, c)
  {
    SettingButtonBitPresses(s, b);
    if 1 <= c <= 5 {
      PressingLeavesOther(s, b, c);
    }
  }

  /** A named special case of `ButtonDownReadsOnlyButtonBits` (equal masks):
      the position fields of the reply play no part in a button's state. */
  lemma ButtonDownIgnoresPosition(s: PointerSnapshot, t: PointerSnapshot, button: int)
    requires s.mask == t.mask
    ensures ButtonDown(s, button) == ButtonDown(t, button)
  {
    ButtonDownReadsOnlyButtonBits(s, t, button);
  }
}
