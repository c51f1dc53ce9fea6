/** The Cocoa window-manager stubs: the style mask that `caml_cocoa_create_window`
    folds out of the host's list of style flags, and the two fixed answers of the
    application delegate.

    A style flag is the index of a constructor of the host's style enumeration,
    Borderless being index 0; flag `f >= 1` stands for AppKit's style bit `f - 1`
    (Titled is bit 0, Closable bit 1, ...). The mask is the C `int` handed to
    `-[NSWindow initWithContentRect:styleMask:backing:defer:]`. */
module CocoaApplication {

  /** Index of the Borderless constructor of the style enumeration. */
  const Borderless: int := 0
  /** Largest flag whose bit `1 << (flag - 1)` stays inside a 32-bit `int`
      without touching its sign bit. */
  const MaxFlag: int := 31

  predicate ValidFlag(f: int) { Borderless <= f <= MaxFlag }

  predicate ValidFlags(flags: seq<int>) { forall f :: f in flags ==> ValidFlag(f) }

  /** Bit `k` (0 = least significant) of a mask. */
  predicate HasBit(mask: bv32, k: nat)
    requires k < 32
  {
    mask & ((1 as bv32) << k) != 0
  }

  /** The bit that stands for flag `f >= 1` is set in a mask. */
  predicate HasFlagBit(mask: bv32, f: int)
    requires 1 <= f <= 32
  {
    HasBit(mask, f - 1)
  }

  /** C's rule for `1L << n` with a 64-bit `long`: the count must be non-negative
      and the result representable, so `n` lies in 0..62. */
  predicate ShiftCountDefined(n: int) { 0 <= n <= 62 }

  /** The bit the loop ORs in for one flag, exactly as written: `1L << (f - 1)`,
      kept to the flags whose bit lands inside the `int` mask. */
  function WrittenFlagBit(f: int): (bit: bv32)
    requires ShiftCountDefined(f - 1) && f <= MaxFlag
    ensures forall k :: 0 <= k < 32 ==> (HasBit(bit, k) <==> k == f - 1)
  {
    (1 as bv32) << (f - 1)
  }

  /** The as-written step has no defined value for Borderless: its shift count
      is -1. */
  lemma BorderlessShiftUndefined()
    ensures !ShiftCountDefined(Borderless - 1)
  {
  }

  /** The bit a flag contributes, with Borderless contributing none (AppKit's
      borderless style is the empty mask); every other flag uses the as-written
      step. */
  function FlagBit(f: int): (bit: bv32)
    requires ValidFlag(f)
    ensures bit == 0 <==> f == Borderless
    ensures forall k :: 0 <= k < 32 ==> (HasBit(bit, k) <==> k == f - 1)
  {
    if f == Borderless then 0 else WrittenFlagBit(f)
  }

  /** The mask of a flag list: the OR of the bits of its flags, taken in list
      order. */
  function MaskOf(flags: seq<int>): bv32
    requires ValidFlags(flags)
  {
    if flags == [] then 0
    else MaskOf(flags[..|flags| - 1]) | FlagBit(flags[|flags| - 1])
  }

  /** Bit `k` of `a | b` is set iff it is set in `a` or in `b`. */
  lemma HasBitOr(a: bv32, b: bv32, k: nat)
    requires k < 32
    ensures HasBit(a | b, k) <==> HasBit(a, k) || HasBit(b, k)
  {
    var bit := (1 as bv32) << k;
    assert (a | b) & bit == (a & bit) | (b & bit);
  }

  /** Decoding a mask bit by bit gives back the flags of the list: bit `k` is set
      iff flag `k + 1` occurs, and the sign bit is never set. */
  lemma {:induction false} MaskDecodes(flags: seq<int>)
    requires ValidFlags(flags)
    ensures forall k :: 0 <= k < MaxFlag ==> (HasBit(MaskOf(flags), k) <==> k + 1 in flags)
    ensures !HasBit(MaskOf(flags), 31)
  {
    if flags == [] {
      forall k | 0 <= k < 32 ensures !HasBit(MaskOf(flags), k) {
        assert MaskOf(flags) == 0;
      }
    } else {
      var init, last := flags[..|flags| - 1], flags[|flags| - 1];
      assert flags == init + [last];
      MaskDecodes(init);
      forall k | 0 <= k < 32
        ensures HasBit(MaskOf(flags), k) <==> HasBit(MaskOf(init), k) || k == last - 1
      {
        HasBitOr(MaskOf(init), FlagBit(last), k);
      }
      HasBitOr(MaskOf(init), FlagBit(last), 31);
    }
  }

  /** The loop of `caml_cocoa_create_window` that walks the host's list of style
      flags and ORs each flag's bit into `mask`. */
  method BuildStyleMask(styleMask: seq<int>) returns (mask: bv32)
    requires ValidFlags(styleMask)
    ensures mask == MaskOf(styleMask)
    ensures forall k :: 0 <= k < MaxFlag ==> (HasBit(mask, k) <==> k + 1 in styleMask)
    ensures !HasBit(mask, 31)
  {
    mask := 0;
    // `styleMask[consumed..]` is the list cursor `tl` of `caml_cocoa_create_window`
    var consumed := 0;
    while consumed < |styleMask|
      invariant 0 <= consumed <= |styleMask|
      invariant mask == MaskOf(styleMask[..consumed])
    {
      var hd := styleMask[consumed];
      assert styleMask[..consumed + 1][..consumed] == styleMask[..consumed];
      consumed := consumed + 1;
      mask := mask | FlagBit(hd);
    }
    assert styleMask[..consumed] == styleMask;
    MaskDecodes(styleMask);
  }

  /** The flags a mask stands for. */
  function DecodeFlags(mask: bv32): (flags: set<int>)
    ensures forall f :: f in flags ==> 1 <= f <= MaxFlag
  {
    set f | 1 <= f <= MaxFlag && HasFlagBit(mask, f)
  }

  /** Decoding the mask recovers exactly the set of non-Borderless flags of the
      list. */
  lemma DecodeRecoversFlags(flags: seq<int>)
    requires ValidFlags(flags)
    ensures DecodeFlags(MaskOf(flags)) == set f | f in flags && f != Borderless
  {
    MaskDecodes(flags);
  }

  /** ORing in the bit of a flag that is already in the list changes nothing. */
  lemma {:induction false} MaskAbsorbs(flags: seq<int>, f: int)
    requires ValidFlags(flags) && f in flags
    ensures MaskOf(flags) | FlagBit(f) == MaskOf(flags)
  {
    var init, last := flags[..|flags| - 1], flags[|flags| - 1];
    assert flags == init + [last];
    if f != last {
      MaskAbsorbs(init, f);
    }
  }

  /** A list whose non-Borderless flags all occur in `flags` adds no bit to the
      mask of `flags`. */
  lemma {:induction false} MaskCovers(flags: seq<int>, sub: seq<int>)
    requires ValidFlags(flags) && ValidFlags(sub)
    requires forall f :: f in sub && f != Borderless ==> f in flags
    ensures MaskOf(flags) | MaskOf(sub) == MaskOf(flags)
  {
    if sub != [] {
      var init, last := sub[..|sub| - 1], sub[|sub| - 1];
      assert sub == init + [last];
      MaskCovers(flags, init);
      if last != Borderless {
        MaskAbsorbs(flags, last);
      }
    }
  }

  /** Two flag lists give the same mask iff they hold the same non-Borderless
      flags: order and repetition do not matter, and the mask determines the
      flag set. */
  lemma SameMaskIffSameFlags(s: seq<int>, t: seq<int>)
    requires ValidFlags(s) && ValidFlags(t)
    ensures MaskOf(s) == MaskOf(t) <==>
            (forall f :: f != Borderless ==> (f in s <==> f in t))
  {
    if forall f :: f != Borderless ==> (f in s <==> f in t) {
      MaskCovers(s, t);
      MaskCovers(t, s);
    }
    DecodeRecoversFlags(s);
    DecodeRecoversFlags(t);
    if MaskOf(s) == MaskOf(t) {
      var flagsS, flagsT := set g | g in s && g != Borderless, set g | g in t && g != Borderless;
      assert flagsS == flagsT;
      forall f | f != Borderless ensures f in s <==> f in t {
        assert f in s <==> f in flagsS;
        assert f in t <==> f in flagsT;
      }
    }
  }

  /** Reordering the flag list does not change the mask. */
  lemma MaskIgnoresOrder(s: seq<int>, t: seq<int>)
    requires ValidFlags(s) && multiset(s) == multiset(t)
    ensures ValidFlags(t) && MaskOf(s) == MaskOf(t)
  {
    assert forall f :: f in s <==> f in multiset(t);
    SameMaskIffSameFlags(s, t);
  }

  /** Repeating a flag that is already in the list does not change the mask. */
  lemma MaskIgnoresRepetition(flags: seq<int>, f: int)
    requires ValidFlags(flags) && f in flags
    ensures ValidFlags(flags + [f]) && MaskOf(flags + [f]) == MaskOf(flags)
  {
    assert (flags + [f])[..|flags|] == flags;
    MaskAbsorbs(flags, f);
  }

  /** Appending flags to the list only sets bits, never clears one. */
  lemma AppendOnlyAddsBits(flags: seq<int>, more: seq<int>)
    requires ValidFlags(flags) && ValidFlags(more)
    ensures ValidFlags(flags + more)
    ensures forall k :: 0 <= k < 32 && HasBit(MaskOf(flags), k) ==> HasBit(MaskOf(flags + more), k)
  {
    MaskCovers(flags + more, flags);
    forall k | 0 <= k < 32 && HasBit(MaskOf(flags), k)
      ensures HasBit(MaskOf(flags + more), k)
    {
      HasBitOr(MaskOf(flags + more), MaskOf(flags), k);
    }
  }

  /** The mask is empty (AppKit's borderless style) iff the list holds no flag
      other than Borderless; in particular the empty list gives 0. */
  lemma EmptyMaskIffBorderless(flags: seq<int>)
    requires ValidFlags(flags)
    ensures MaskOf(flags) == 0 <==> forall f :: f in flags ==> f == Borderless
  {
    SameMaskIffSameFlags(flags, []);
  }

  /** What `-[NSApplicationDelegate applicationShouldTerminate:]` may answer. */
  datatype TerminateReply = TerminateCancel | TerminateNow | TerminateLater

  /** The delegate's answer to a termination request: terminate now, whatever
      the state of the sending application; it never vetoes or defers. */
  function ApplicationShouldTerminate<App>(sender: App): (reply: TerminateReply)
    ensures reply != TerminateCancel && reply != TerminateLater
  {
    TerminateNow
  }

  /** The delegate's answer once the last window has closed: always ask AppKit
      to terminate. */
  function ApplicationShouldTerminateAfterLastWindowClosed<App>(app: App): (terminate: bool)
    ensures terminate
  {
    true
  }
}
