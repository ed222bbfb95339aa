/** Table entries as the 64-bit words they are, and addresses as machine words: the
    shifts and masks of the code are the divisions and remainders, and the field
    updates, that the rest of the model is written in. */
module EntryBits {
  import opened Arithmetic
  import opened PageTables

  // ----- words as numbers -----
  // Facts about words alone and facts about numbers alone are proved apart: the
  // lemmas that join them hide the word operations.

  function Half(w: bv64): bv64 { w >> 1 }

  predicate Odd(w: bv64) { w & 1 == 1 }

  function And(w: bv64, m: bv64): bv64 { w & m }

  function Shr(w: bv64, n: bv7): bv64
    requires n < 64
  {
    w >> n
  }

  /** The number a word stands for. */
  function Value(w: bv64): nat
    decreases w
  {
    if w == 0 then 0 else 2 * Value(Half(w)) + (if Odd(w) then 1 else 0)
  }

  function Power(k: nat): (r: nat)
    ensures r > 0
  {
    if k == 0 then 1 else 2 * Power(k - 1)
  }

  /** m has its low k bits set and no others. */
  predicate LowBits(m: bv64, k: nat) {
    if k == 0 then m == 0 else Odd(m) && LowBits(Half(m), k - 1)
  }

  lemma Halves(w: bv64)
    ensures Value(w) == 2 * Value(Half(w)) + if Odd(w) then 1 else 0
    ensures Value(Half(w)) == Value(w) / 2
  {
    assert w == 0 ==> Half(w) == 0 && !Odd(w);
  }

  lemma MaskOdd(w: bv64, m: bv64)
    requires Odd(m)
    ensures Odd(And(w, m)) == Odd(w)
  {
  }

  lemma MaskHalf(w: bv64, m: bv64)
    ensures Half(And(w, m)) == And(Half(w), Half(m))
  {
  }

  lemma MaskNone(w: bv64)
    ensures Value(And(w, 0)) == 0
  {
    assert And(w, 0) == 0;
  }

  lemma LowStep(m: bv64, k: nat)
    requires LowBits(m, k)
    ensures if k == 0 then m == 0 else Odd(m) && LowBits(Half(m), k - 1)
    ensures if k == 0 then Power(k) == 1 else Power(k) == 2 * Power(k - 1)
  {
  }

  lemma ModStep(a: nat, b: nat, bit: nat, p: nat)
    requires p > 0 && bit <= 1 && b == a % p
    ensures (2 * a + bit) % (2 * p) == 2 * b + bit
  {
    var q := a / p;
    assert 2 * a + bit == q * (2 * p) + (2 * b + bit);
    DivUnique(2 * a + bit, 2 * p, q, 2 * b + bit);
  }

  /** Masking with k low bits is the remainder modulo 2 to the k. */
  lemma {:induction false} MaskIsRemainder(w: bv64, m: bv64, k: nat)
    requires LowBits(m, k)
    ensures Value(And(w, m)) == Value(w) % Power(k)
    decreases k
  {
    hide *;
    LowStep(m, k);
    if k == 0 {
      MaskNone(w);
    } else {
      MaskIsRemainder(Half(w), Half(m), k - 1);
      MaskOdd(w, m);
      MaskHalf(w, m);
      Halves(w);
      Halves(And(w, m));
      ModStep(Value(Half(w)), Value(And(Half(w), Half(m))), if Odd(w) then 1 else 0, Power(k - 1));
    }
  }

  lemma OneMore(m: bv64, k: nat)
    requires Odd(m) && LowBits(Half(m), k)
    ensures LowBits(m, k + 1) && Power(k + 1) == 2 * Power(k)
  {
    hide Odd, Half;
  }

  lemma FourHalves(m: bv64)
    ensures Half(Half(Half(Half(m)))) == Shr(m, 4)
    ensures And(m, 0xF) == 0xF ==> Odd(m) && Odd(Half(m)) && Odd(Half(Half(m))) && Odd(Half(Half(Half(m))))
  {
  }

  lemma FourMore(m: bv64, k: nat)
    requires And(m, 0xF) == 0xF && LowBits(Shr(m, 4), k)
    ensures LowBits(m, k + 4) && Power(k + 4) == 16 * Power(k)
  {
    hide *;
    FourHalves(m);
    OneMore(Half(Half(Half(m))), k);
    OneMore(Half(Half(m)), k + 1);
    OneMore(Half(m), k + 2);
    OneMore(m, k + 3);
  }

  lemma NineBits()
    ensures LowBits(0x1FF, 9) && Power(9) == 512
  {
    assert LowBits(0, 0) && LowBits(1, 1) && Power(1) == 2;
    FourMore(0x1F, 1);
    FourMore(0x1FF, 5);
  }

  lemma TwelveBits()
    ensures LowBits(0xFFF, 12) && Power(12) == 0x1000
  {
    assert LowBits(0, 0) && Power(0) == 1;
    FourMore(0xF, 0);
    FourMore(0xFF, 4);
    FourMore(0xFFF, 8);
  }

  lemma FortyBits()
    ensures LowBits(0xFF_FFFF_FFFF, 40) && Power(40) == 0x100_0000_0000
  {
    assert LowBits(0, 0) && Power(0) == 1;
    FourMore(0xF, 0);
    FourMore(0xFF, 4);
    FourMore(0xFFF, 8);
    FourMore(0xFFFF, 12);
    FourMore(0xF_FFFF, 16);
    FourMore(0xFF_FFFF, 20);
    FourMore(0xFFF_FFFF, 24);
    FourMore(0xFFFF_FFFF, 28);
    FourMore(0xF_FFFF_FFFF, 32);
    FourMore(0xFF_FFFF_FFFF, 36);
  }

  lemma ThreeHalves(w: bv64)
    ensures Shr(w, 3) == Half(Half(Half(w)))
  {
  }

  lemma ShiftThree(w: bv64)
    ensures Value(Shr(w, 3)) == Value(w) / 8
  {
    hide *;
    ThreeHalves(w);
    Halves(w);
    Halves(Half(w));
    Halves(Half(Half(w)));
  }

  lemma ThreeThrees(w: bv64)
    ensures Shr(w, 9) == Shr(Shr(Shr(w, 3), 3), 3)
  {
  }

  lemma ShiftNine(w: bv64)
    ensures Value(Shr(w, 9)) == Value(w) / 512
  {
    hide *;
    ThreeThrees(w);
    ShiftThree(w);
    ShiftThree(Shr(w, 3));
    ShiftThree(Shr(Shr(w, 3), 3));
  }

  lemma Shift12(w: bv64)
    ensures Shr(w, 12) == Shr(Shr(w, 3), 9)
  {
  }

  lemma Shift21(w: bv64)
    ensures Shr(w, 21) == Shr(Shr(w, 12), 9)
  {
  }

  lemma Shift30(w: bv64)
    ensures Shr(w, 30) == Shr(Shr(w, 21), 9)
  {
  }

  lemma Shift39(w: bv64)
    ensures Shr(w, 39) == Shr(Shr(w, 30), 9)
  {
  }

  /** The shifts by 12, 21, 30 and 39 bits. */
  lemma Shifts(w: bv64)
    ensures Value(Shr(w, 12)) == Value(w) / 0x1000
    ensures Value(Shr(w, 21)) == Value(w) / 0x20_0000
    ensures Value(Shr(w, 30)) == Value(w) / 0x4000_0000
    ensures Value(Shr(w, 39)) == Value(w) / 0x80_0000_0000
  {
    hide *;
    Shift12(w);
    Shift21(w);
    Shift30(w);
    Shift39(w);
    ShiftThree(w);
    ShiftNine(Shr(w, 3));
    ShiftNine(Shr(w, 12));
    ShiftNine(Shr(w, 21));
    ShiftNine(Shr(w, 30));
  }

  /** The index macros: `(v >> shift) & 0x1FF`. */
  function IndexMacro(address: bv64, shift: bv7): bv64
    requires shift < 64
  {
    And(Shr(address, shift), 0x1FF)
  }

  lemma NineMasked(w: bv64)
    ensures Value(And(w, 0x1FF)) == Value(w) % 512
  {
    hide *;
    NineBits();
    MaskIsRemainder(w, 0x1FF, 9);
  }

  lemma IndexDigits(address: bv64)
    ensures Value(IndexMacro(address, 39)) == Value(address) / 0x80_0000_0000 % 512
    ensures Value(IndexMacro(address, 30)) == Value(address) / 0x4000_0000 % 512
    ensures Value(IndexMacro(address, 21)) == Value(address) / 0x20_0000 % 512
    ensures Value(IndexMacro(address, 12)) == Value(address) / 0x1000 % 512
  {
    hide And, Shr, Value;
    Shifts(address);
    NineMasked(Shr(address, 39));
    NineMasked(Shr(address, 30));
    NineMasked(Shr(address, 21));
    NineMasked(Shr(address, 12));
  }

  /** The macros PML4_INDEX, PDPT_INDEX, PD_INDEX and PT_INDEX give the four digits
      in base 512 of the page an address lies in. */
  lemma IndexMacros(address: bv64)
    ensures Value(IndexMacro(address, 39)) == Index(4, PageOfAddress(Value(address)))
    ensures Value(IndexMacro(address, 30)) == Index(3, PageOfAddress(Value(address)))
    ensures Value(IndexMacro(address, 21)) == Index(2, PageOfAddress(Value(address)))
    ensures Value(IndexMacro(address, 12)) == Index(1, PageOfAddress(Value(address)))
  {
    hide And, Shr, Value, IndexMacro;
    IndexDigits(address);
    IndexOfAddress(Value(address), 4);
    IndexOfAddress(Value(address), 3);
    IndexOfAddress(Value(address), 2);
    IndexOfAddress(Value(address), 1);
  }

  // ----- entries -----

  /** vmm_pt_entry_get_address. */
  function GetAddress(value: bv64): bv64 {
    And(value, 0x000F_FFFF_FFFF_F000)
  }

  /** vmm_pt_entry_set_address. */
  function SetAddressBits(value: bv64, address: bv64): bv64 {
    (value & 0xFFF0_0000_0000_0FFF) | ((address & 0x000F_FFFF_FFFF_FFFF) & 0x000F_FFFF_FFFF_F000)
  }

  predicate Bit(value: bv64, flag: bv64) {
    value & flag != 0
  }

  function Others(value: bv64): bv64 {
    value & 0xFFF0_0000_0000_0F7C
  }

  /** The entry a word stands for. */
  function Unpack(value: bv64): Entry {
    Entry(Bit(value, 1), Bit(value, 2), Bit(value, 0x80), Others(value), Value(Shr(GetAddress(value), 12)))
  }

  function Above(w: bv64): bv64 { w >> 12 }

  lemma AboveIs(w: bv64)
    ensures Above(w) == w >> 12
  {
  }

  lemma AndIs(w: bv64, m: bv64)
    ensures And(w, m) == w & m
  {
  }

  lemma AddressIs(w: bv64)
    ensures GetAddress(w) == w & 0x000F_FFFF_FFFF_F000
  {
  }

  lemma AddressAbove(value: bv64)
    ensures Above(GetAddress(value)) == And(Above(value), 0xFF_FFFF_FFFF)
  {
    hide *;
    AddressIs(value);
    AboveIs(value);
    AboveIs(GetAddress(value));
    AndIs(Above(value), 0xFF_FFFF_FFFF);
  }

  lemma AboveShift(w: bv64)
    ensures Shr(w, 12) == Above(w)
  {
  }

  lemma AddressShift(value: bv64)
    ensures Shr(GetAddress(value), 12) == And(Shr(value, 12), 0xFF_FFFF_FFFF)
  {
    hide *;
    AddressAbove(value);
    AboveShift(value);
    AboveShift(GetAddress(value));
  }

  lemma FortyMasked(w: bv64)
    ensures Value(And(w, 0xFF_FFFF_FFFF)) == Value(w) % 0x100_0000_0000
  {
    hide *;
    FortyBits();
    MaskIsRemainder(w, 0xFF_FFFF_FFFF, 40);
  }

  lemma AddressLow(value: bv64)
    ensures And(GetAddress(value), 0xFFF) == 0
  {
  }

  lemma ZeroIsZero()
    ensures Value(0) == 0
  {
  }

  lemma AddressAligned(value: bv64)
    ensures Value(GetAddress(value)) % 0x1000 == 0
  {
    hide *;
    TwelveBits();
    ZeroIsZero();
    MaskIsRemainder(GetAddress(value), 0xFFF, 12);
    AddressLow(value);
  }

  /** The frame number is bits 12 to 51 of the word, and the address field is that
      number times the page size. */
  lemma AddressIsFrame(value: bv64)
    ensures Value(Shr(GetAddress(value), 12)) == Value(value) / 0x1000 % FRAME_LIMIT
    ensures Value(GetAddress(value)) == Unpack(value).frame * 0x1000
  {
    hide And, Shr, GetAddress, Value;
    AddressAligned(value);
    AddressShift(value);
    Shifts(value);
    Shifts(GetAddress(value));
    FortyMasked(Shr(value, 12));
  }

  lemma SetGivesAddress(value: bv64, address: bv64)
    ensures GetAddress(SetAddressBits(value, address)) == GetAddress(address)
  {
  }

  lemma FlagOfSet(value: bv64, address: bv64, flag: bv64)
    requires flag & 0xFFF0_0000_0000_0FFF == flag
    ensures ((value & 0xFFF0_0000_0000_0FFF) | (address & 0x000F_FFFF_FFFF_F000)) & flag == value & flag
  {
  }

  lemma SetKeepsFlag(value: bv64, address: bv64, flag: bv64)
    requires flag & 0xFFF0_0000_0000_0FFF == flag
    ensures Bit(SetAddressBits(value, address), flag) == Bit(value, flag)
  {
    hide *;
    FlagOfSet(value, address, flag);
    SetIs(value, address);
    BitIs(value, flag);
    BitIs(SetAddressBits(value, address), flag);
  }

  lemma SetIs(value: bv64, address: bv64)
    ensures SetAddressBits(value, address) ==
            (value & 0xFFF0_0000_0000_0FFF) | (address & 0x000F_FFFF_FFFF_F000)
  {
  }

  lemma SetKeepsOthers(value: bv64, address: bv64)
    ensures Others(SetAddressBits(value, address)) == Others(value)
  {
    hide *;
    SetIs(value, address);
    OthersIs(value);
    OthersIs(SetAddressBits(value, address));
  }

  /** Setting the address keeps every flag and every other bit of the entry. */
  lemma SetAddressUnpacked(value: bv64, address: bv64)
    ensures Unpack(SetAddressBits(value, address)) == SetAddress(Unpack(value), Value(address) / 0x1000)
  {
    hide And, Shr, GetAddress, Value, Bit, Others, SetAddressBits;
    SetGivesAddress(value, address);
    SetKeepsFlag(value, address, 1);
    SetKeepsFlag(value, address, 2);
    SetKeepsFlag(value, address, 0x80);
    SetKeepsOthers(value, address);
    AddressIsFrame(address);
  }

  function Widen(flags: bv8): bv64 {
    flags as bv64
  }

  function Or(v: bv64, f: bv64): bv64 {
    v | f
  }

  lemma OrKeepsAddress(value: bv64, flags: bv8)
    ensures GetAddress(Or(value, Widen(flags))) == GetAddress(value)
  {
  }

  lemma OrOthers(v: bv64, f: bv64)
    ensures Others(Or(v, f)) == Or(Others(v), Others(f))
  {
    hide *;
    OrIs(v, f);
    OrIs(Others(v), Others(f));
    OthersIs(Or(v, f));
    OthersIs(v);
    OthersIs(f);
  }

  lemma BitIs(w: bv64, flag: bv64)
    ensures Bit(w, flag) == (w & flag != 0)
  {
  }

  lemma OrIs(v: bv64, f: bv64)
    ensures Or(v, f) == v | f
  {
  }

  lemma OthersIs(w: bv64)
    ensures Others(w) == w & 0xFFF0_0000_0000_0F7C
  {
  }

  lemma OrPresent(v: bv64, f: bv64)
    ensures Bit(Or(v, f), 1) <==> Bit(v, 1) || Bit(f, 1)
  {
    hide *;
    OrIs(v, f);
    BitIs(Or(v, f), 1);
    BitIs(v, 1);
    BitIs(f, 1);
  }

  lemma OrWritable(v: bv64, f: bv64)
    ensures Bit(Or(v, f), 2) <==> Bit(v, 2) || Bit(f, 2)
  {
    hide *;
    OrIs(v, f);
    BitIs(Or(v, f), 2);
    BitIs(v, 2);
    BitIs(f, 2);
  }

  lemma OrLarge(v: bv64, f: bv64)
    ensures Bit(Or(v, f), 0x80) <==> Bit(v, 0x80) || Bit(f, 0x80)
  {
    hide *;
    OrIs(v, f);
    BitIs(Or(v, f), 0x80);
    BitIs(v, 0x80);
    BitIs(f, 0x80);
  }

  lemma WideBit(flags: bv8)
    ensures Bit(Widen(flags), 1) == (flags & 1 != 0)
    ensures Bit(Widen(flags), 2) == (flags & 2 != 0)
    ensures Bit(Widen(flags), 0x80) == (flags & 0x80 != 0)
  {
  }

  lemma WideOthers(flags: bv8)
    ensures Others(Widen(flags)) == (flags & 0x7C) as bv64
  {
  }

  lemma OrFlagsFields(e: Entry, flags: bv8)
    ensures var r, f := OrFlags(e, flags), Widen(flags);
      && r.present == (e.present || Bit(f, 1)) && r.writable == (e.writable || Bit(f, 2))
      && r.large == (e.large || Bit(f, 0x80)) && r.other == Or(e.other, Others(f)) && r.frame == e.frame
  {
    hide Bit, Widen, Others;
    WideBit(flags);
    WideOthers(flags);
  }

  /** Setting flag bits in the word is setting them in the entry. */
  lemma FlagsUnpacked(value: bv64, flags: bv8)
    ensures Unpack(Or(value, Widen(flags))) == OrFlags(Unpack(value), flags)
  {
    hide And, Shr, GetAddress, Value, Bit, Others, Or, Widen, OrFlags;
    OrKeepsAddress(value, flags);
    OrOthers(value, Widen(flags));
    OrPresent(value, Widen(flags));
    OrWritable(value, Widen(flags));
    OrLarge(value, Widen(flags));
    OrFlagsFields(Unpack(value), flags);
  }

  lemma {:induction false} OnlyZero(w: bv64)
    requires Value(w) == 0
    ensures w == 0
    decreases w
  {
    Halves(w);
    HalfSmaller(w);
    if w != 0 {
      Nonzero(w);
      OnlyZero(Half(w));
    }
  }

  lemma Nonzero(w: bv64)
    requires w != 0 && !Odd(w)
    ensures Half(w) != 0
  {
  }

  lemma HalfDecides(v: bv64, w: bv64)
    requires Half(v) == Half(w) && Odd(v) == Odd(w)
    ensures v == w
  {
  }

  lemma HalfSmaller(v: bv64)
    ensures v == 0 || Half(v) < v
    ensures Half(0) == 0
  {
  }

  lemma {:induction false} ValueInjective(v: bv64, w: bv64)
    requires Value(v) == Value(w)
    ensures v == w
    decreases Value(v)
  {
    hide *;
    Halves(v);
    Halves(w);
    if Value(v) == 0 {
      OnlyZero(v);
      OnlyZero(w);
    } else {
      ValueInjective(Half(v), Half(w));
      HalfDecides(v, w);
    }
  }

  lemma FieldsDecide(v: bv64, w: bv64)
    requires Shr(GetAddress(v), 12) == Shr(GetAddress(w), 12) && Others(v) == Others(w)
    requires Bit(v, 1) == Bit(w, 1) && Bit(v, 2) == Bit(w, 2) && Bit(v, 0x80) == Bit(w, 0x80)
    ensures v == w
  {
  }

  /** Two words that stand for the same entry are the same word: decoding loses
      nothing. */
  lemma UnpackInjective(v: bv64, w: bv64)
    requires Unpack(v) == Unpack(w)
    ensures v == w
  {
    hide And, Shr, GetAddress, Value, Bit, Others;
    ValueInjective(Shr(GetAddress(v), 12), Shr(GetAddress(w), 12));
    FieldsDecide(v, w);
  }

  // ----- the entry writes of the code, on words -----

  lemma ZeroParts()
    ensures !Bit(0, 1) && !Bit(0, 2) && !Bit(0, 0x80) && Others(0) == 0 && Shr(GetAddress(0), 12) == 0
  {
  }

  /** A zeroed table is a table of zero entries. */
  lemma ZeroUnpacked()
    ensures Unpack(0) == ZERO_ENTRY
  {
    hide And, Shr, GetAddress, Value, Bit, Others;
    ZeroParts();
    ZeroIsZero();
  }

  /** The address is set, then the writable flag, then the present flag. */
  function LinkWord(value: bv64, address: bv64): bv64 {
    Or(Or(SetAddressBits(value, address), Widen(2)), Widen(1))
  }

  /** The same with the flags a mapping request asks for. */
  function MappedWord(address: bv64, flags: bv8): bv64 {
    Or(Or(SetAddressBits(0, address), Widen(flags)), Widen(1))
  }

  /** The large-page flag, then the address. */
  function LargeWord(value: bv64, address: bv64): bv64 {
    SetAddressBits(Or(value, Widen(0x80)), address)
  }

  lemma LinkFlags(e: Entry)
    ensures OrFlags(OrFlags(e, 2), 1) == e.(present := true, writable := true)
  {
    hide OrFlags;
    WritableFlag(e);
    PresentFlag(e.(writable := true));
  }

  lemma PresentFlag(e: Entry)
    ensures OrFlags(e, 1) == e.(present := true)
  {
    NoOtherFlag(e.other);
  }

  lemma WritableFlag(e: Entry)
    ensures OrFlags(e, 2) == e.(writable := true)
  {
    NoOtherFlag(e.other);
  }

  lemma NoOtherFlag(w: bv64)
    ensures w | ((1 as bv8 & 0x7C) as bv64) == w
    ensures w | ((2 as bv8 & 0x7C) as bv64) == w
    ensures w | ((0x80 as bv8 & 0x7C) as bv64) == w
  {
  }

  /** Pointing an entry at a table, on the word and on the entry. */
  lemma LinkUnpacked(value: bv64, address: bv64)
    ensures Unpack(LinkWord(value, address)) == LinkEntry(Unpack(value), Value(address) / 0x1000)
  {
    hide Unpack, Value, Or, Widen, SetAddressBits, OrFlags;
    var word := SetAddressBits(value, address);
    SetAddressUnpacked(value, address);
    FlagsUnpacked(word, 2);
    FlagsUnpacked(Or(word, Widen(2)), 1);
    LinkFlags(Unpack(word));
  }

  lemma MappedFlags(e: Entry, flags: bv8)
    ensures OrFlags(OrFlags(e, flags), 1) == OrFlags(e, flags).(present := true)
  {
    hide OrFlags;
    PresentFlag(OrFlags(e, flags));
  }

  /** The entry a mapping request writes. */
  lemma MappedUnpacked(address: bv64, flags: bv8)
    ensures Unpack(MappedWord(address, flags)) == MappedEntry(Value(address) / 0x1000, flags)
  {
    hide Unpack, Value, Or, Widen, SetAddressBits, OrFlags;
    var word := SetAddressBits(0, address);
    ZeroUnpacked();
    SetAddressUnpacked(0, address);
    FlagsUnpacked(word, flags);
    FlagsUnpacked(Or(word, Widen(flags)), 1);
    MappedFlags(Unpack(word), flags);
  }

  lemma LargeFlag(e: Entry)
    ensures OrFlags(e, 0x80) == e.(large := true)
  {
    NoOtherFlag(e.other);
  }

  /** The entry the range mapper turns into a large leaf. */
  lemma LargeUnpacked(value: bv64, address: bv64)
    ensures Unpack(LargeWord(value, address)) == LargeEntry(Unpack(value), Value(address) / 0x1000)
  {
    hide Unpack, Value, Or, Widen, SetAddressBits, OrFlags;
    FlagsUnpacked(value, 0x80);
    LargeFlag(Unpack(value));
    SetAddressUnpacked(Or(value, Widen(0x80)), address);
  }

  // ----- the addresses of the pieces of a large page -----

  function Sum(a: bv64, b: bv64): bv64 { a + b }

  /** Adding 1 where there is room. */
  lemma {:induction false} Successor(a: bv64)
    requires a != 0xFFFF_FFFF_FFFF_FFFF
    ensures Value(Sum(a, 1)) == Value(a) + 1
    decreases Value(a)
  {
    hide *;
    Halves(a);
    Halves(Sum(a, 1));
    SuccessorBits(a);
    if Odd(a) {
      Successor(Half(a));
    }
  }

  lemma SuccessorBits(a: bv64)
    requires a != 0xFFFF_FFFF_FFFF_FFFF
    ensures Odd(a) ==> !Odd(Sum(a, 1)) && Half(Sum(a, 1)) == Sum(Half(a), 1)
    ensures !Odd(a) ==> Odd(Sum(a, 1)) && Half(Sum(a, 1)) == Half(a)
    ensures Half(a) != 0xFFFF_FFFF_FFFF_FFFF
  {
  }

  /** The top bit is clear. */
  predicate Short(w: bv64) {
    w & 0x8000_0000_0000_0000 == 0
  }

  function Less(b: bv64): bv64 { b - 1 }

  lemma LessFits(b: bv64)
    requires b != 0
    ensures Less(b) != 0xFFFF_FFFF_FFFF_FFFF && Sum(Less(b), 1) == b
    ensures Short(b) ==> Short(Less(b))
  {
  }

  lemma SumFits(a: bv64, b: bv64)
    requires Short(a) && Short(b)
    ensures Sum(a, b) != 0xFFFF_FFFF_FFFF_FFFF
  {
  }

  lemma SumIs(a: bv64, b: bv64)
    ensures Sum(a, b) == a + b
    ensures Sum(a, 0) == a
  {
  }

  lemma Regroup(a: bv64, c: bv64, t: bv64)
    requires t == c + 1
    ensures Sum(a, t) == Sum(a, c) + 1
  {
  }

  lemma OneAtATime(a: bv64, c: bv64, t: bv64)
    requires t == Sum(c, 1)
    ensures Sum(Sum(a, c), 1) == Sum(a, t)
  {
    hide *;
    SumIs(c, 1);
    Regroup(a, c, t);
    SumIs(Sum(a, c), 1);
  }

  /** Where nothing is carried out of the word, adding words is adding numbers. */
  lemma {:induction false} SumIsSum(a: bv64, b: bv64)
    requires Short(a) && Short(b)
    ensures Value(Sum(a, b)) == Value(a) + Value(b)
    decreases Value(b)
  {
    hide *;
    if b == 0 {
      SumIs(a, b);
      ZeroIsZero();
    } else {
      LessFits(b);
      OneAtATime(a, Less(b), b);
      Successor(Less(b));
      SumIsSum(a, Less(b));
      SumFits(a, Less(b));
      Successor(Sum(a, Less(b)));
    }
  }

  /** Where piece i lies behind the start of the page: `i * 0x1000` for the pieces of
      a 2 MiB page, `i * 0x1000 * 512` for those of a 1 GiB page. */
  function PieceOffset(level: nat, i: bv64): bv64
    requires 2 <= level <= 3
  {
    if level == 2 then i * 0x1000 else i * 0x1000 * 512
  }

  lemma SmallPiece(i: bv64)
    requires i < 512
    ensures Shr(PieceOffset(2, i), 12) == i && And(PieceOffset(2, i), 0xFFF) == 0
    ensures Short(PieceOffset(2, i))
  {
  }

  lemma BigPiece(i: bv64)
    requires i < 512
    ensures Shr(PieceOffset(3, i), 21) == i && And(PieceOffset(3, i), 0x1F_FFFF) == 0
    ensures Short(PieceOffset(3, i))
  {
  }

  lemma TwentyOneBits()
    ensures LowBits(0x1F_FFFF, 21) && Power(21) == 0x20_0000
  {
    assert LowBits(0, 0) && LowBits(1, 1) && Power(1) == 2;
    FourMore(0x1F, 1);
    FourMore(0x1FF, 5);
    FourMore(0x1FFF, 9);
    FourMore(0x1_FFFF, 13);
    FourMore(0x1F_FFFF, 17);
  }

  lemma PieceValue(level: nat, i: bv64)
    requires 2 <= level <= 3 && i < 512
    ensures Value(PieceOffset(level, i)) == Value(i) * Span(level - 2) * 0x1000
    ensures Short(PieceOffset(level, i))
  {
    hide And, Shr, Value, PieceOffset, LowBits, Power, Short;
    Shifts(PieceOffset(level, i));
    ZeroIsZero();
    if level == 2 {
      SmallPiece(i);
      TwelveBits();
      MaskIsRemainder(PieceOffset(level, i), 0xFFF, 12);
    } else {
      BigPiece(i);
      TwentyOneBits();
      MaskIsRemainder(PieceOffset(level, i), 0x1F_FFFF, 21);
    }
  }

  /** The entry the splitting loop writes for piece i of the page whose entry is the
      word `value`; `large` stands for the flag the repair adds. */
  function PieceWord(level: nat, value: bv64, i: bv64, large: bool): bv64
    requires 2 <= level <= 3
  {
    var word := LinkWord(0, Sum(GetAddress(value), PieceOffset(level, i)));
    if large then Or(word, Widen(0x80)) else word
  }

  lemma AddressRoom(value: bv64)
    ensures Short(GetAddress(value))
  {
  }

  lemma PieceAddress(level: nat, value: bv64, i: bv64)
    requires 2 <= level <= 3 && i < 512
    ensures Value(Sum(GetAddress(value), PieceOffset(level, i))) / 0x1000 == Unpack(value).frame + Value(i) * Span(level - 2)
  {
    hide *;
    AddressRoom(value);
    PieceValue(level, i);
    SumIsSum(GetAddress(value), PieceOffset(level, i));
    AddressIsFrame(value);
  }

  lemma PieceEntry(level: nat, base: nat, k: nat)
    requires 2 <= level <= 3
    ensures LinkEntry(ZERO_ENTRY, base + k * Span(level - 2)) == SplitPiece(level, base, false, k)
    ensures SplitPiece(3, base, true, k) == SplitPiece(3, base, false, k).(large := true)
  {
  }

  /** The word of piece i is the entry of piece i, as the code stands and repaired. */
  lemma PieceUnpacked(level: nat, value: bv64, i: bv64, large: bool)
    requires 2 <= level <= 3 && i < 512 && (large ==> level == 3)
    ensures Unpack(PieceWord(level, value, i, large)) == SplitPiece(level, Unpack(value).frame, large, Value(i))
  {
    hide Unpack, Value, Or, Widen, OrFlags, LinkWord, LinkEntry, Sum, GetAddress, PieceOffset, SplitPiece;
    var address := Sum(GetAddress(value), PieceOffset(level, i));
    PieceAddress(level, value, i);
    LinkUnpacked(0, address);
    ZeroUnpacked();
    PieceEntry(level, Unpack(value).frame, Value(i));
    FlagsUnpacked(LinkWord(0, address), 0x80);
    LargeFlag(Unpack(LinkWord(0, address)));
  }
}
