# ogaml native stubs: style mask, pointer query, ALC device

A Dafny model of the three small pieces of logic inside ogaml's native glue:

- **Cocoa window style mask** (`CocoaApplication`, `cocoa_application.dfy`).
  `caml_cocoa_create_window` walks the host's list of style flags and ORs
  `1L << (flag - 1)` for each flag into the `int` mask it hands to `NSWindow`.
  The loop is the method `BuildStyleMask`. It is proved against the
  specification function `MaskOf`. The lemmas show that the mask decodes back
  to the flag set and ignores order and repetition, and that appending flags
  only sets bits. The application delegate's two fixed replies are here too:
  terminate now, and terminate after the last window closes.
- **X11 pointer query** (`X11Mouse`, `x11_mouse.dfy`). The reply of one
  `XQueryPointer` request is the value `PointerSnapshot` (root pair, window pair,
  state mask). `caml_xquery_pointer_position` and `caml_xquery_button_down`
  are functions of one snapshot. Buttons 1..5 are checked against the
  Button1Mask..Button5Mask bits (bits 8..12) of the SETofKEYBUTMASK encoding
  in the X Window System core protocol. Any other button reads as not pressed.
- **OpenAL device stubs** (`AlcDevice`, `alc_device.dfy`). `Val_alcerror`
  maps the six ALC error codes of OpenAL 1.1 (0 and 0xA001..0xA005) to the
  indices 0..5 of the host's error variant. Every other code maps to 0.
  Opening turns the optional device name into NULL or a C string. Closing
  reports whether the native call returned ALC_TRUE. The native calls
  `alcOpenDevice`, `alcCloseDevice` and `alcGetError` are function-valued
  parameters.

The three modules are independent; none imports another.

Two facts about the code shape the model:

- Open: `caml_alc_open_device` does not check the handle that `alcOpenDevice`
  returns. It hands it back as it is, NULL included, and `OpenDevice` does the
  same.
- Style flags: the loop in `caml_cocoa_create_window` rejects no flag value. A
  flag outside the enumeration simply shifts by a different amount.
  `BuildStyleMask` instead requires every flag to lie in 0..31 (see "Left out").

## Model

| member | source | states |
|---|---|---|
| `CocoaApplication.BuildStyleMask` | src/wm/cocoa/stubs/application_stubs.c:141-148 | the loop's mask is the OR of the bits of every flag in the list (0 for the empty list); bit k is set iff flag k+1 is in the list; the sign bit stays clear |
| `CocoaApplication.MaskDecodes` | src/wm/cocoa/stubs/application_stubs.c:146-147 | for every list of flags in 0..31, bit k (0..30) of its mask is set iff flag k+1 occurs in it; bit 31 is never set |
| `CocoaApplication.DecodeRecoversFlags` | src/wm/cocoa/stubs/application_stubs.c:141-148 | decoding the mask gives back exactly the set of flags of the list, Borderless excepted |
| `CocoaApplication.SameMaskIffSameFlags` | src/wm/cocoa/stubs/application_stubs.c:143-148 | two lists give the same mask iff they hold the same flags other than Borderless |
| `CocoaApplication.MaskIgnoresOrder` | src/wm/cocoa/stubs/application_stubs.c:143-148 | a permutation of the flag list gives the same mask |
| `CocoaApplication.MaskIgnoresRepetition` | src/wm/cocoa/stubs/application_stubs.c:147 | appending a flag that is already in the list leaves the mask unchanged |
| `CocoaApplication.AppendOnlyAddsBits` | src/wm/cocoa/stubs/application_stubs.c:147 | every bit set for a list stays set after more flags are appended |
| `CocoaApplication.EmptyMaskIffBorderless` | src/wm/cocoa/stubs/application_stubs.c:141-148 | the mask is 0 iff the list holds no flag but Borderless, so the empty list gives 0 |
| `CocoaApplication.WrittenFlagBit` | src/wm/cocoa/stubs/application_stubs.c:146-147 | for flags 1..31 (shift counts 0..30, inside C's defined range 0..62 and inside the `int` mask) the as-written step `1L << (f - 1)` has exactly bit f-1 set |
| `CocoaApplication.BorderlessShiftUndefined` | src/wm/cocoa/stubs/application_stubs.c:146-147 | the as-written step's shift count for Borderless (-1) lies outside C's defined range |
| `CocoaApplication.FlagBit` | src/wm/cocoa/stubs/application_stubs.c:146-147 | a flag's bit is 0 iff the flag is Borderless; otherwise it has exactly bit f-1 set |
| `CocoaApplication.ApplicationShouldTerminate` | src/wm/cocoa/stubs/application_stubs.c:101-107 | the reply to a termination request is neither Cancel nor Later, whatever the sender |
| `CocoaApplication.ApplicationShouldTerminateAfterLastWindowClosed` | src/wm/cocoa/stubs/application_stubs.c:109-113 | closing the last window always asks for termination |
| `X11Mouse.PointerPosition` | src/core/x11/stubs/mouse_stubs.c:19-28 | the position is the window-relative pair (wx, wy) of the one reply |
| `X11Mouse.PositionIsWindowRelative` | src/core/x11/stubs/mouse_stubs.c:24-27 | the position depends on the window-relative pair alone, not on the root pair or the mask, and is not clamped |
| `X11Mouse.ButtonShiftIsButtonMask` | src/core/x11/stubs/mouse_stubs.c:42-43 | for a button in 1..5 the bit the stub checks, `1 << (b + 7)`, is exactly that button's protocol mask, Button1Mask..Button5Mask |
| `X11Mouse.ButtonDown` | src/core/x11/stubs/mouse_stubs.c:33-47 | a button outside 1..5 is never pressed; a button in 1..5 is pressed iff its protocol button mask (bit b+7) is set in the reply's mask |
| `X11Mouse.ButtonDownReadsOnlyButtonBits` | src/core/x11/stubs/mouse_stubs.c:43 | two masks that agree on bits 8..12 give the same answer for every button, whatever the modifier bits |
| `X11Mouse.ButtonMasksDisjoint` | src/core/x11/stubs/mouse_stubs.c:42-43 | the mask bits of two distinct buttons in 1..5 share no bit |
| `X11Mouse.ButtonDownReadsOnlyItsBit` | src/core/x11/stubs/mouse_stubs.c:43 | a button in 1..5 gives the same answer for any two masks that agree on its own bit |
| `X11Mouse.SettingButtonBitPresses` | src/core/x11/stubs/mouse_stubs.c:43-44 | once a button's bit is set in the mask, that button reports pressed |
| `X11Mouse.PressingLeavesOther` | src/core/x11/stubs/mouse_stubs.c:43 | setting button b's bit leaves the answer for every other button c in 1..5 unchanged |
| `X11Mouse.PressingOneButtonLeavesOthers` | src/core/x11/stubs/mouse_stubs.c:43 | setting button b's bit makes b pressed and leaves every other button's answer unchanged |
| `X11Mouse.ButtonDownIgnoresPosition` | src/core/x11/stubs/mouse_stubs.c:39-45 | the button answer depends on the reply's mask alone |
| `AlcDevice.ValAlcError` | src/audio/stubs/device_stubs.c:12-37 | the result lies in 0..5; each of the six ALC codes gives the index of its own variant; every other code gives 0 |
| `AlcDevice.NonZeroIndexHasOneCode` | src/audio/stubs/device_stubs.c:14-33 | each index 1..5 comes from exactly one native code, the code of the variant with that index |
| `AlcDevice.ZeroIndexIsNoErrorOrUnmapped` | src/audio/stubs/device_stubs.c:14-35 | index 0 comes exactly from ALC_NO_ERROR and from codes outside the table |
| `AlcDevice.MappedCodesAreVariantCodes` | src/audio/stubs/device_stubs.c:14-33 | the table's six codes are exactly the codes of the six variants |
| `AlcDevice.DeviceNameArgument` | src/audio/stubs/device_stubs.c:44-49 | an absent name becomes NULL and a present name is passed on unchanged |
| `AlcDevice.DeviceNameRoundTrip` | src/audio/stubs/device_stubs.c:44-49 | the name argument and the optional name determine each other in both directions |
| `AlcDevice.OpenDevice` | src/audio/stubs/device_stubs.c:39-52 | the native open is called with NULL for no name and with the name otherwise, and its handle is returned unchecked |
| `AlcDevice.CloseDevice` | src/audio/stubs/device_stubs.c:54-62 | close reports true exactly when the native close returns ALC_TRUE |
| `AlcDevice.DeviceErrorIndex` | src/audio/stubs/device_stubs.c:64-70 | the error query applies the table to the device's one native error value: the variant's index for a code in the table, 0 otherwise |

## Left out

- Cocoa object lifecycle: `caml_cocoa_create_app`, `caml_cocoa_create_appdgt`, the
  activation policy, delegate wiring, `NSWindow` allocation, background colour,
  `makeKeyAndOrderFront` and `makeMainWindow`. These are AppKit calls with no
  logic of their own.
- The event pump `processEvent`, `caml_cocoa_run_app` and the `sendEvent:`
  override. Their behaviour is AppKit's event queue and run loop.
- `setUpMenuBar`: when no main menu exists it allocates an empty `NSMenu` and
  installs it with `setMainMenu:`; otherwise it returns early. The menu's items
  are commented out. These are AppKit calls with no logic of their own.
- The `NSRect` geometry (floating point), the backing-store integer and the
  `defer:NO` argument of the window initialiser are passed through unchanged
  and not modelled.
- BuildStyleMask: requires every flag to lie in 0..31. In C, flags 32..63 set bits
  that do not fit the `int` mask; converting the `long` result back to `int` is
  implementation-defined. A flag of 64 or more, or a negative one, is an undefined
  shift. None of these cases is modelled.
- BuildStyleMask: gives Borderless (flag 0) no bit, where the code as written shifts
  by -1 (see "Findings").
- `caml_xwarp_pointer` (`XWarpPointer` and `XFlush`) and the `XQueryPointer`
  request itself are X server I/O. Only the reply is modelled, as a
  `PointerSnapshot`. The reply's root and child window ids and its Bool
  result are not used by the stubs and are not modelled either.
- PointerPosition: that each call issues exactly one `XQueryPointer` request is
  carried by the signature (one snapshot argument), not by a contract.
- PointerPosition: the C `int` coordinates are modelled as unbounded integers.
- `alcOpenDevice`, `alcCloseDevice` and `alcGetError` themselves are foreign
  OpenAL calls, taken as parameters.
- DeviceNameArgument: a host string containing a NUL character reaches OpenAL
  cut short at that character. The model passes the whole string.
- OCaml value marshalling (`CAMLparam`, `Val_int`, `Field`, `Int_val`,
  `String_val`, handle casts) is runtime plumbing and is not modelled.
- ButtonDown: the button index is an unbounded integer. In the code `Int_val`
  narrows the host's integer to a C `int`, so on the usual compilers an index
  such as 2^32 + 1 wraps to 1 and tests Button1's bit. "Outside 1..5 is never
  pressed" therefore holds only for indices in the C `int` range.

## Findings

| source | as written | input that shows it | evidently intended | confidence | as-written member | corrected member |
|---|---|---|---|---|---|---|
| src/wm/cocoa/stubs/application_stubs.c:146-147 | every flag, Borderless (index 0) included, adds `1L << (flag - 1)` | the style list `[Borderless]`: the shift count is -1, which is undefined in C (`BorderlessShiftUndefined`) | Borderless adds no bit, since AppKit's borderless style is the empty mask (`EmptyMaskIffBorderless`) | not executed; high that the shift is undefined, medium on the intended value | `CocoaApplication.WrittenFlagBit` | `CocoaApplication.FlagBit` |
