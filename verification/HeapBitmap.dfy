/**
 The mark bitmap of a heap (jni/hook/alloc/HeapBitmap.h,
 jni/hook/alloc/HeapBitmapInlines.h): one bit for every 8-aligned address, packed
 backwards so that CLZ delivers the bits of a word in address order.
 */
module HeapBitmaps {
  import opened Words

  const HB_OBJECT_ALIGNMENT := 8
  const HB_BITS_PER_WORD := 32

  function OffsetToIndex(offset: nat): nat {
    offset / HB_OBJECT_ALIGNMENT / HB_BITS_PER_WORD
  }

  function IndexToOffset(index: nat): nat {
    index * HB_OBJECT_ALIGNMENT * HB_BITS_PER_WORD
  }

  /** 1 << (31 - offset / 8 % 32): bit number n from the low end is position 31 - n. */
  function OffsetToMask(offset: nat): Word {
    var shift := 31 - (offset / HB_OBJECT_ALIGNMENT) % HB_BITS_PER_WORD;
    Bit(31 - shift)
  }

  // ----- The bitmap as a value -----

  /** "max" is below "base" while nothing was ever set. */
  datatype Bitmap = Bitmap(bits: seq<Word>, base: nat, max: int) {

    /** The address is an object address the bitmap has a bit for. */
    predicate Covers(addr: nat) {
      && base <= addr
      && (addr - base) % HB_OBJECT_ALIGNMENT == 0
      && OffsetToIndex(addr - base) < |bits|
    }

    predicate Has(addr: nat)
      requires Covers(addr)
    {
      bits[OffsetToIndex(addr - base)][(addr - base) / HB_OBJECT_ALIGNMENT % HB_BITS_PER_WORD]
    }

    /** The set of addresses the bitmap stands for. */
    ghost function Members(): set<nat> {
      MembersBelow(32 * |bits|)
    }

    ghost function MembersBelow(n: nat): set<nat>
      requires n <= 32 * |bits|
    {
      if n == 0 then {}
      else MembersBelow(n - 1) + if bits[(n - 1) / 32][(n - 1) % 32] then {base + 8 * (n - 1)} else {}
    }

    /** Every set bit belongs to an address up to "max". */
    ghost predicate Valid() {
      forall addr | addr in Members() :: addr <= max
    }
  }

  lemma {:induction false} MembersBelowAre(hb: Bitmap, n: nat, addr: nat)
    requires n <= 32 * |hb.bits|
    ensures addr in hb.MembersBelow(n) <==>
            exists k: nat :: k < n && hb.bits[k / 32][k % 32] && addr == hb.base + 8 * k
  {
    if n > 0 {
      MembersBelowAre(hb, n - 1, addr);
      assert hb.bits[(n - 1) / 32][(n - 1) % 32] == hb.bits[(n - 1) / 32][(n - 1) % 32];
    }
  }

  lemma {:induction false} ZeroedIsEmpty(hb: Bitmap, n: nat)
    requires n <= 32 * |hb.bits| && forall w | w in hb.bits :: w == ZERO
    ensures hb.MembersBelow(n) == {}
  {
    if n > 0 {
      ZeroedIsEmpty(hb, n - 1);
      assert hb.bits[(n - 1) / 32] in hb.bits;
    }
  }

  /** Membership asks for one bit. */
  lemma MembersAre(hb: Bitmap, addr: nat)
    ensures addr in hb.Members() <==> hb.Covers(addr) && hb.Has(addr)
  {
    MembersBelowAre(hb, 32 * |hb.bits|, addr);
    if addr in hb.Members() {
      var n: nat :| n < 32 * |hb.bits| && hb.bits[n / 32][n % 32] && addr == hb.base + 8 * n;
      assert (addr - hb.base) / 8 == n;
    }
    if hb.Covers(addr) && hb.Has(addr) {
      var n := (addr - hb.base) / 8;
      assert n / 32 < |hb.bits|;
      assert addr == hb.base + 8 * n;
    }
  }

  /** _heapBitmapModifyObjectBit on values: the new bitmap and the old bit. */
  function Modify(hb: Bitmap, addr: nat, setBit: bool): (Bitmap, Word)
    requires hb.Covers(addr)
  {
    var index := OffsetToIndex(addr - hb.base);
    var mask := OffsetToMask(addr - hb.base);
    if setBit then
      (hb.(bits := hb.bits[index := Or(hb.bits[index], mask)], max := if addr > hb.max then addr else hb.max),
       And(hb.bits[index], mask))
    else
      (hb.(bits := hb.bits[index := And(hb.bits[index], Not(mask))]), ZERO)
  }

  /** dvmHeapBitmapIsObjectBitSet, with its early exit. */
  function IsObjectBitSet(hb: Bitmap, addr: nat): Word
    requires hb.Covers(addr)
  {
    if addr <= hb.max then
      And(hb.bits[OffsetToIndex(addr - hb.base)], OffsetToMask(addr - hb.base))
    else
      ZERO
  }

  // ----- It refines a set -----

  lemma MaskedBit(w: Word, i: nat)
    requires i < 32
    ensures And(w, Bit(i)) != ZERO <==> w[i]
  {
    if w[i] {
      assert And(w, Bit(i))[i];
    } else {
      assert And(w, Bit(i)) == ZERO;
    }
  }

  /** The test is nonzero exactly for members: leaving early above "max" is sound. */
  lemma TestIsMembership(hb: Bitmap, addr: nat)
    requires hb.Covers(addr) && hb.Valid()
    ensures IsObjectBitSet(hb, addr) != ZERO <==> addr in hb.Members()
  {
    MembersAre(hb, addr);
    MaskedBit(hb.bits[OffsetToIndex(addr - hb.base)], (addr - hb.base) / 8 % 32);
  }

  /** Two covered addresses share a bit only if they are equal. */
  lemma BitsAreDistinct(hb: Bitmap, a: nat, b: nat)
    requires hb.Covers(a) && hb.Covers(b)
    requires OffsetToIndex(a - hb.base) == OffsetToIndex(b - hb.base)
    requires (a - hb.base) / 8 % 32 == (b - hb.base) / 8 % 32
    ensures a == b
  {
  }

  lemma ModifyOneBit(hb: Bitmap, addr: nat, setBit: bool, a: nat)
    requires hb.Covers(addr) && hb.Covers(a)
    ensures var hb' := Modify(hb, addr, setBit).0;
            && hb'.Covers(a)
            && (hb'.Has(a) <==> if a == addr then setBit else hb.Has(a))
  {
    if a != addr && OffsetToIndex(a - hb.base) == OffsetToIndex(addr - hb.base) {
      if (a - hb.base) / 8 % 32 == (addr - hb.base) / 8 % 32 {
        BitsAreDistinct(hb, a, addr);
      }
    }
  }

  lemma ModifyMembers(hb: Bitmap, addr: nat, setBit: bool)
    requires hb.Covers(addr)
    ensures Modify(hb, addr, setBit).0.Members()
            == if setBit then hb.Members() + {addr} else hb.Members() - {addr}
  {
    var hb' := Modify(hb, addr, setBit).0;
    forall a: nat
      ensures a in hb'.Members() <==> if setBit then a in hb.Members() || a == addr else a in hb.Members() && a != addr
    {
      MembersAre(hb, a);
      MembersAre(hb', a);
      if hb.Covers(a) {
        ModifyOneBit(hb, addr, setBit, a);
      }
    }
  }

  /** Setting and clearing a bit adds and removes one address; the word returned by a
      set is nonzero exactly when the address was there. */
  lemma ModifyRefinesSet(hb: Bitmap, addr: nat, setBit: bool)
    requires hb.Covers(addr) && hb.Valid()
    ensures var (hb', old') := Modify(hb, addr, setBit);
            && hb'.Valid()
            && hb'.base == hb.base && |hb'.bits| == |hb.bits|
            && hb'.Members() == (if setBit then hb.Members() + {addr} else hb.Members() - {addr})
            && (setBit ==> (old' != ZERO <==> addr in hb.Members()))
  {
    ModifyMembers(hb, addr, setBit);
    MembersAre(hb, addr);
    MaskedBit(hb.bits[OffsetToIndex(addr - hb.base)], (addr - hb.base) / 8 % 32);
  }

  // ----- Runs -----

  datatype Op = Set(addr: nat) | Clear(addr: nat)

  ghost predicate AllCovered(hb: Bitmap, ops: seq<Op>) {
    forall op | op in ops :: hb.Covers(op.addr)
  }

  ghost function Replay(hb: Bitmap, ops: seq<Op>): Bitmap
    requires AllCovered(hb, ops)
    decreases |ops|
  {
    if ops == [] then hb
    else
      var hb' := Modify(hb, ops[0].addr, ops[0].Set?).0;
      assert forall a :: hb'.Covers(a) <==> hb.Covers(a);
      Replay(hb', ops[1..])
  }

  /** What the operations mean: the addresses whose last operation is a Set, and those
      left alone that were there before. */
  ghost predicate Present(start: set<nat>, ops: seq<Op>, addr: nat) {
    if exists i :: 0 <= i < |ops| && ops[i].addr == addr then
      exists i :: 0 <= i < |ops| && ops[i] == Set(addr) && forall j | i < j < |ops| :: ops[j].addr != addr
    else
      addr in start
  }

  lemma PresentStep(start: set<nat>, ops: seq<Op>, addr: nat)
    requires ops != []
    ensures var next := if ops[0].Set? then start + {ops[0].addr} else start - {ops[0].addr};
            Present(start, ops, addr) <==> Present(next, ops[1..], addr)
  {
    var next := if ops[0].Set? then start + {ops[0].addr} else start - {ops[0].addr};
    var rest := ops[1..];
    if exists i :: 0 <= i < |rest| && rest[i].addr == addr {
      var i :| 0 <= i < |rest| && rest[i].addr == addr;
      assert ops[i + 1].addr == addr;
      if Present(start, ops, addr) {
        var k :| 0 <= k < |ops| && ops[k] == Set(addr) && forall j | k < j < |ops| :: ops[j].addr != addr;
        assert k > 0;
        assert rest[k - 1] == Set(addr);
        assert forall j | k - 1 < j < |rest| :: rest[j] == ops[j + 1];
      }
      if Present(next, rest, addr) {
        var k :| 0 <= k < |rest| && rest[k] == Set(addr) && forall j | k < j < |rest| :: rest[j].addr != addr;
        assert ops[k + 1] == Set(addr);
        forall j | k + 1 < j < |ops|
          ensures ops[j].addr != addr
        {
          assert ops[j] == rest[j - 1];
        }
      }
    } else if ops[0].addr == addr {
      forall j | 0 < j < |ops|
        ensures ops[j].addr != addr
      {
        assert ops[j] == rest[j - 1];
      }
    } else {
      forall i | 0 <= i < |ops|
        ensures ops[i].addr != addr
      {
        if i > 0 {
          assert ops[i] == rest[i - 1];
        }
      }
    }
  }

  /** After any run the bitmap holds exactly the addresses last set, and testing a bit
      asks that question. */
  lemma {:induction false} ReplayRefinesSet(hb: Bitmap, ops: seq<Op>, addr: nat)
    requires AllCovered(hb, ops) && hb.Valid()
    ensures var hb' := Replay(hb, ops);
            && hb'.Valid()
            && hb'.base == hb.base && |hb'.bits| == |hb.bits|
            && (addr in hb'.Members() <==> Present(hb.Members(), ops, addr))
            && (hb.Covers(addr) ==> (IsObjectBitSet(hb', addr) != ZERO <==> Present(hb.Members(), ops, addr)))
    decreases |ops|
  {
    if ops == [] {
      if hb.Covers(addr) {
        TestIsMembership(hb, addr);
      }
    } else {
      ModifyRefinesSet(hb, ops[0].addr, ops[0].Set?);
      var next := Modify(hb, ops[0].addr, ops[0].Set?).0;
      assert forall a :: next.Covers(a) <==> hb.Covers(a);
      ReplayRefinesSet(next, ops[1..], addr);
      PresentStep(hb.Members(), ops, addr);
    }
  }

  ghost predicate HasSet(ops: seq<Op>) {
    exists i :: 0 <= i < |ops| && ops[i].Set?
  }

  lemma HasSetStep(ops: seq<Op>)
    requires ops != []
    ensures HasSet(ops) <==> ops[0].Set? || HasSet(ops[1..])
  {
    if HasSet(ops) && !ops[0].Set? {
      var i :| 0 <= i < |ops| && ops[i].Set?;
      assert ops[1..][i - 1] == ops[i];
    }
    if HasSet(ops[1..]) {
      var i :| 0 <= i < |ops[1..]| && ops[1..][i].Set?;
      assert ops[i + 1].Set?;
    }
  }

  /** After any run "max" is below "base" exactly when it was so before and the run set
      nothing: no clear brings it back. */
  lemma {:induction false} MaxIsNeverLowered(hb: Bitmap, ops: seq<Op>)
    requires AllCovered(hb, ops)
    ensures Replay(hb, ops).base == hb.base
    ensures Replay(hb, ops).max < hb.base <==> hb.max < hb.base && !HasSet(ops)
    decreases |ops|
  {
    if ops != [] {
      var next := Modify(hb, ops[0].addr, ops[0].Set?).0;
      assert forall a :: next.Covers(a) <==> hb.Covers(a);
      assert hb.Covers(ops[0].addr);
      MaxIsNeverLowered(next, ops[1..]);
      HasSetStep(ops);
    }
  }

  /** "If there are no bits set, (max < base)", as the struct documents it. */
  ghost predicate DocumentedMax(hb: Bitmap) {
    hb.Members() == {} ==> hb.max < hb.base
  }

  /** Exactly when the documented rule holds after a run on an empty bitmap: when a bit is
      set, or when none ever was. */
  lemma DocumentedMaxIsExact(hb: Bitmap, ops: seq<Op>)
    requires AllCovered(hb, ops) && hb.max < hb.base
    ensures DocumentedMax(Replay(hb, ops)) <==> Replay(hb, ops).Members() != {} || !HasSet(ops)
  {
    MaxIsNeverLowered(hb, ops);
  }

  /** One run for which it fails: set a bit and clear it. */
  lemma MaxIsNotLowered(hb: Bitmap, addr: nat)
    requires hb.Covers(addr) && hb.Valid() && hb.Members() == {}
    ensures !DocumentedMax(Replay(hb, [Set(addr), Clear(addr)]))
  {
    var ops := [Set(addr), Clear(addr)];
    var hb1 := Modify(hb, addr, true).0;
    ModifyRefinesSet(hb, addr, true);
    assert forall a :: hb1.Covers(a) <==> hb.Covers(a);
    assert ops[1..] == [Clear(addr)];
    ModifyRefinesSet(hb1, addr, false);
    assert Replay(hb1, ops[1..]) == Modify(hb1, addr, false).0 by {
      assert ops[1..][1..] == [];
    }
  }

  // ----- Decoding in address order -----

  /** An address is recovered from the index of its word and the CLZ of its mask. */
  lemma DecodeRoundTrip(offset: nat)
    requires offset % HB_OBJECT_ALIGNMENT == 0
    ensures OffsetToMask(offset) != ZERO
    ensures IndexToOffset(OffsetToIndex(offset)) + Clz(OffsetToMask(offset)) * HB_OBJECT_ALIGNMENT == offset
  {
    assert OffsetToMask(offset)[offset / 8 % 32];
  }

  /** Words in ascending index, bits in ascending CLZ: ascending addresses. */
  lemma DecodeIsMonotone(a: nat, b: nat)
    requires a % HB_OBJECT_ALIGNMENT == 0 && b % HB_OBJECT_ALIGNMENT == 0
    ensures OffsetToMask(a) != ZERO && OffsetToMask(b) != ZERO
    ensures a < b <==>
            || OffsetToIndex(a) < OffsetToIndex(b)
            || (OffsetToIndex(a) == OffsetToIndex(b) && Clz(OffsetToMask(a)) < Clz(OffsetToMask(b)))
  {
    DecodeRoundTrip(a);
    DecodeRoundTrip(b);
  }

  // ----- The bitmap as the program keeps it -----

  class HeapBitmap {
    const bits: array<Word>
    const base: nat
    var max: int

    /** A zeroed bitmap of n words. */
    constructor (base: nat, n: nat)
      ensures fresh(bits) && State().Valid() && State().Members() == {}
      ensures bits.Length == n && this.base == base && max < base
    {
      this.bits := new Word[n](_ => ZERO);
      this.base := base;
      this.max := base - 1;
      new;
      ZeroedIsEmpty(State(), 32 * n);
    }

    ghost function State(): Bitmap
      reads this, bits
    {
      Bitmap(bits[..], base, max)
    }

    method ModifyObjectBit(obj: nat, setBit: bool, returnOld: bool) returns (r: Word)
      requires State().Covers(obj) && State().Valid()
      modifies this, bits
      ensures State() == Modify(old(State()), obj, setBit).0
      ensures State().Valid()
      ensures State().Members() == if setBit then old(State().Members()) + {obj} else old(State().Members()) - {obj}
      ensures setBit && returnOld ==> (r != ZERO <==> obj in old(State().Members()))
      ensures !(setBit && returnOld) ==> r == ZERO
    {
      ModifyRefinesSet(State(), obj, setBit);
      var offset := obj - base;
      var index := OffsetToIndex(offset);
      var mask := OffsetToMask(offset);
      if setBit {
        if obj > max {
          max := obj;
        }
        if returnOld {
          var word := bits[index];
          bits[index] := Or(bits[index], mask);
          return And(word, mask);
        } else {
          bits[index] := Or(bits[index], mask);
        }
      } else {
        bits[index] := And(bits[index], Not(mask));
      }
      return ZERO;
    }

    /** dvmHeapBitmapSetAndReturnObjectBit. */
    method SetAndReturnObjectBit(obj: nat) returns (r: Word)
      requires State().Covers(obj) && State().Valid()
      modifies this, bits
      ensures State() == Modify(old(State()), obj, true).0
      ensures State().Valid()
      ensures State().Members() == old(State().Members()) + {obj}
      ensures r != ZERO <==> obj in old(State().Members())
    {
      r := ModifyObjectBit(obj, true, true);
    }

    /** dvmHeapBitmapSetObjectBit. */
    method SetObjectBit(obj: nat)
      requires State().Covers(obj) && State().Valid()
      modifies this, bits
      ensures State() == Modify(old(State()), obj, true).0
      ensures State().Valid()
      ensures State().Members() == old(State().Members()) + {obj}
    {
      var _ := ModifyObjectBit(obj, true, false);
    }

    /** dvmHeapBitmapClearObjectBit. */
    method ClearObjectBit(obj: nat)
      requires State().Covers(obj) && State().Valid()
      modifies this, bits
      ensures State() == Modify(old(State()), obj, false).0
      ensures State().Valid()
      ensures State().Members() == old(State().Members()) - {obj}
    {
      var _ := ModifyObjectBit(obj, false, false);
    }

    /** dvmHeapBitmapIsObjectBitSet. */
    method TestObjectBit(obj: nat) returns (r: Word)
      requires State().Covers(obj) && State().Valid()
      ensures r != ZERO <==> obj in State().Members()
    {
      TestIsMembership(State(), obj);
      if obj <= max {
        var offset := obj - base;
        r := And(bits[OffsetToIndex(offset)], OffsetToMask(offset));
      } else {
        r := ZERO;
      }
    }
  }
}
