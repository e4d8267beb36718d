/**
 Page table and page directory entries: the macros of paging.h.

 An entry is a 32-bit word of a 20-bit frame number over 12 flag bits. The model keeps the
 two fields apart; the lemmas on raw words say that the macros act on the fields so.
 */
module Entries {

  const FRAMES: nat := 0x10_0000

  type Frame = f: nat | f < FRAMES

  datatype Entry = Entry(frame: Frame, flags: bv12)

  const PRESENT: bv12 := 0x01
  const RW: bv12 := 0x02
  const USER: bv12 := 0x04
  const WRITE_THROUGH: bv12 := 0x08

  function SetAttr(e: Entry, attr: bv12): Entry {
    e.(flags := e.flags | attr)
  }

  predicate CheckAttr(e: Entry, attr: bv12) {
    e.flags & attr != 0
  }

  predicate Present(e: Entry) {
    CheckAttr(e, PRESENT)
  }

  /** SET_FRAME with the page-aligned address of a frame. */
  function SetFrame(e: Entry, frame: Frame): Entry {
    e.(frame := frame)
  }

  lemma Attributes(e: Entry, attr: bv12)
    ensures SetAttr(e, attr).frame == e.frame
    ensures Present(SetAttr(e, PRESENT))
    ensures Present(e) ==> Present(SetAttr(e, attr))
    ensures attr & PRESENT == 0 ==> (Present(SetAttr(e, attr)) <==> Present(e))
  {
  }

  // ----- raw words --------------------------------------------------------------------

  function High(w: bv32): bv20 { (w >> 12) as bv20 }

  function Low(w: bv32): bv12 { (w & 0xFFF) as bv12 }

  function RawSetAttr(w: bv32, attr: bv32): bv32 { w | attr }

  function RawPhysAddress(w: bv32): bv32 { w & 0xFFFF_F000 }

  function RawSetFrame(w: bv32, address: bv32): bv32 { (w & 0x0000_0FFF) | address }

  /** The two fields determine the word. */
  lemma FieldsDetermine(v: bv32, w: bv32)
    requires High(v) == High(w) && Low(v) == Low(w)
    ensures v == w
  {
    assert (v >> 12) as bv20 == (w >> 12) as bv20;
    assert v >> 12 == w >> 12;
    assert v & 0xFFF == w & 0xFFF;
  }

  /** SET_ATTR with a flag of the low 12 bits ors the flags and keeps the frame. */
  lemma RawAttrActsOnFlags(w: bv32, attr: bv32)
    requires attr & 0xFFFF_F000 == 0
    ensures High(RawSetAttr(w, attr)) == High(w)
    ensures Low(RawSetAttr(w, attr)) == Low(w) | Low(attr)
  {
  }

  /** CHECK_ATTR sees the flags only. */
  lemma RawCheckSeesFlags(w: bv32, attr: bv32)
    requires attr & 0xFFFF_F000 == 0
    ensures w & attr != 0 <==> Low(w) & Low(attr) != 0
  {
  }

  /** SET_FRAME with a page-aligned address replaces the frame and keeps the flags. */
  lemma RawFrameActsOnFrame(w: bv32, address: bv32)
    requires address & 0xFFF == 0
    ensures High(RawSetFrame(w, address)) == High(address)
    ensures Low(RawSetFrame(w, address)) == Low(w)
  {
  }

  /** With an unaligned address SET_FRAME leaks the low address bits into the flags. */
  lemma RawFrameKeepsFlagsIff(w: bv32, address: bv32)
    ensures Low(RawSetFrame(w, address)) == Low(w) <==> Low(address) & !Low(w) == 0
  {
  }

  /** GET_PAGE_PHYS_ADDRESS is the frame with all flags cleared. */
  lemma RawPhysIsFrame(w: bv32)
    ensures High(RawPhysAddress(w)) == High(w) && Low(RawPhysAddress(w)) == 0
  {
  }

  /** The entry that a raw word stands for. */
  function Decode(w: bv32): Entry {
    Entry(High(w) as int, Low(w))
  }

  /** Words and entries correspond one to one, so the model loses nothing. */
  lemma DecodeInjective(v: bv32, w: bv32)
    ensures Decode(v) == Decode(w) ==> v == w
  {
    hide High, Low;
    if Decode(v) == Decode(w) {
      SameNumber(High(v), High(w));
      FieldsDetermine(v, w);
    }
  }

  lemma SameNumber(a: bv20, b: bv20)
    requires a as int == b as int
    ensures a == b
  {
    var n := a as int;
    assert n as bv20 == a;
  }

  /** SET_ATTR on the word is SetAttr on its entry. */
  lemma DecodeSetAttr(w: bv32, attr: bv32)
    requires attr & 0xFFFF_F000 == 0
    ensures Decode(RawSetAttr(w, attr)) == SetAttr(Decode(w), Low(attr))
  {
    hide High, Low, RawSetAttr;
    RawAttrActsOnFlags(w, attr);
  }

  /** CHECK_ATTR on the word is CheckAttr on its entry. */
  lemma DecodeCheckAttr(w: bv32, attr: bv32)
    requires attr & 0xFFFF_F000 == 0
    ensures w & attr != 0 <==> CheckAttr(Decode(w), Low(attr))
  {
    hide High, Low;
    RawCheckSeesFlags(w, attr);
  }

  /** SET_FRAME with a page-aligned address is SetFrame with the frame of that address. */
  lemma DecodeSetFrame(w: bv32, address: bv32)
    requires address & 0xFFF == 0
    ensures Decode(RawSetFrame(w, address)) == SetFrame(Decode(w), Decode(address).frame)
  {
    hide High, Low, RawSetFrame;
    RawFrameActsOnFrame(w, address);
  }

  /** GET_PAGE_PHYS_ADDRESS gives the address that SET_FRAME takes: reading it back is exact. */
  lemma DecodePhysAddress(w: bv32, address: bv32)
    requires address & 0xFFF == 0
    ensures RawPhysAddress(RawSetFrame(w, address)) == address
    ensures Decode(RawPhysAddress(w)) == Entry(Decode(w).frame, 0)
  {
    RawPhysIsFrame(w);
  }
}
