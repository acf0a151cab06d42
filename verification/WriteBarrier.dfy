/**
 The write barrier: reference stores and the card table (jni/hook/alloc/WriteBarrier.h,
 jni/hook/alloc/CardTable.h, jni/hook/oo/ObjectInlines.h).

 Every accessor that stores a non-NULL reference dirties the card of the header of the
 object it stores into. After the cards are cleared and any run of such stores, no edge
 of the object graph is new unless it leaves an object on a dirty card.
 */
module WriteBarrier {
  import opened ClassModel
  import opened ObjectVisit
  import opened MarkSweep

  const GC_CARD_SIZE := 128
  const GC_CARD_CLEAN: nat := 0
  const GC_CARD_DIRTY: nat := 0x70

  /** The heap, its card table, and the address the first card stands for. */
  datatype GcState = GcState(w: World, cards: seq<nat>, cardBase: nat) {

    /** dvmCardFromAddr, as an index into the table. */
    function CardFromAddr(addr: Ref): int {
      (addr - cardBase) / GC_CARD_SIZE
    }

    predicate HasCard(addr: Ref) {
      addr >= cardBase && CardFromAddr(addr) < |cards|
    }

    predicate Dirty(addr: Ref) {
      HasCard(addr) && cards[CardFromAddr(addr)] == GC_CARD_DIRTY
    }

    ghost predicate Valid() {
      && WorldOk(w)
      && forall o | o in w.objects :: HasCard(o)
    }
  }

  /** dvmClearCardTable. */
  function Cleared(s: GcState): GcState {
    s.(cards := seq(|s.cards|, _ => GC_CARD_CLEAN))
  }

  /** dvmMarkCard. */
  function Marked(s: GcState, addr: Ref): GcState
    requires s.HasCard(addr)
  {
    s.(cards := s.cards[s.CardFromAddr(addr) := GC_CARD_DIRTY])
  }

  // ----- The stores -----

  /** The accessors that store a reference, and the initialisation of a new object. */
  datatype Store =
    | SetObjectArrayElement(obj: Ref, index: nat, val: Ref)
    | SetFieldObject(obj: Ref, offset: nat, val: Ref)
    | SetStaticFieldObject(obj: Ref, field: nat, val: Ref)
    | ObjectInit(obj: Ref, init: Obj)

  /** The object has the slot, and an initialised object is a new one whose references
      are all NULL but for its class. */
  ghost predicate Legal(s: GcState, op: Store)
    requires s.Valid()
  {
    match op
    case SetObjectArrayElement(o, i, _) => o in s.w.objects && i < |s.w.objects[o].elements|
    case SetFieldObject(o, off, _) => o in s.w.objects && off in s.w.objects[o].fields
    case SetStaticFieldObject(o, f, _) => o in s.w.objects && f < |s.w.objects[o].statics|
    case ObjectInit(o, obj) =>
      && o !in s.w.objects && o != NULL && o !in s.w.classes
      && s.HasCard(o)
      && ObjOk(s.w.(objects := s.w.objects[o := obj]), o)
      && (forall off | off in obj.fields :: obj.fields[off] == NULL)
      && (forall r | r in obj.elements || r in obj.statics :: r == NULL)
  }

  function WithSlot(w: World, op: Store): World {
    match op
    case SetObjectArrayElement(o, i, v) =>
      if o in w.objects && i < |w.objects[o].elements| then
        w.(objects := w.objects[o := w.objects[o].(elements := w.objects[o].elements[i := v])])
      else w
    case SetFieldObject(o, off, v) =>
      if o in w.objects then
        w.(objects := w.objects[o := w.objects[o].(fields := w.objects[o].fields[off := v])])
      else w
    case SetStaticFieldObject(o, f, v) =>
      if o in w.objects && f < |w.objects[o].statics| then
        w.(objects := w.objects[o := w.objects[o].(statics := w.objects[o].statics[f := v])])
      else w
    case ObjectInit(o, obj) => w.(objects := w.objects[o := obj])
  }

  /** The value an accessor stores, which decides whether the barrier runs. */
  function Stored(op: Store): Ref {
    match op
    case ObjectInit(_, obj) => obj.clazz
    case _ => op.val
  }

  ghost function Apply(s: GcState, op: Store): GcState
    requires s.Valid() && Legal(s, op)
  {
    var s' := s.(w := WithSlot(s.w, op));
    if Stored(op) != NULL then Marked(s', op.obj) else s'
  }

  // ----- One store -----

  /** Same class, same fields, same lengths: only the references may differ. */
  predicate SameShape(a: Obj, b: Obj) {
    && a.clazz == b.clazz
    && a.fields.Keys == b.fields.Keys
    && |a.elements| == |b.elements|
    && |a.statics| == |b.statics|
  }

  lemma ShapeDecidesObjOk(w: World, w': World, o: Ref)
    requires Acyclic(w.classes) && w'.classes == w.classes && w'.referent == w.referent
    requires ObjOk(w, o) && o in w'.objects && SameShape(w.objects[o], w'.objects[o])
    ensures ObjOk(w', o)
  {
  }

  lemma ShapeDecidesRefSlots(w: World, w': World, o: Ref, slot: Slot)
    requires WorldOk(w) && WorldOk(w') && w'.classes == w.classes && w'.referent == w.referent
    requires o in w.objects && o in w'.objects && SameShape(w.objects[o], w'.objects[o])
    ensures IsRefSlot(w', o, slot) <==> IsRefSlot(w, o, slot)
  {
    assert ObjOk(w, o);
  }

  /** A store into an object changes one slot of it and no other object. */
  lemma StoreKeepsShape(w: World, op: Store, o: Ref)
    requires o in w.objects && (op.ObjectInit? ==> op.obj !in w.objects)
    requires op.SetFieldObject? && op.obj in w.objects ==> op.offset in w.objects[op.obj].fields
    ensures WithSlot(w, op).classes == w.classes && WithSlot(w, op).referent == w.referent
    ensures o in WithSlot(w, op).objects && SameShape(w.objects[o], WithSlot(w, op).objects[o])
  {
  }

  lemma StoreKeepsClasses(w: World, op: Store)
    ensures WithSlot(w, op).classes == w.classes && WithSlot(w, op).referent == w.referent
  {
  }

  lemma StoreKeepsWorldOk(s: GcState, op: Store)
    requires s.Valid() && Legal(s, op)
    ensures WorldOk(WithSlot(s.w, op))
    ensures forall o | o in WithSlot(s.w, op).objects :: s.HasCard(o)
  {
    var w' := WithSlot(s.w, op);
    StoreKeepsClasses(s.w, op);
    forall o | o in w'.objects
      ensures ObjOk(w', o) && s.HasCard(o)
    {
      StoreKeepsObjOk(s, op, o);
    }
  }

  /** Whatever is stored, the heap stays well formed and no class changes. */
  lemma StoreKeepsValid(s: GcState, op: Store)
    requires s.Valid() && Legal(s, op)
    ensures Apply(s, op).Valid()
    ensures Apply(s, op).w.classes == s.w.classes && Apply(s, op).w.referent == s.w.referent
  {
    StoreKeepsClasses(s.w, op);
    StoreKeepsWorldOk(s, op);
    HasCardFrame(s, op);
    assert Apply(s, op).w == WithSlot(s.w, op);
  }

  lemma StoreKeepsObjOk(s: GcState, op: Store, o: Ref)
    requires s.Valid() && Legal(s, op) && o in WithSlot(s.w, op).objects
    ensures ObjOk(WithSlot(s.w, op), o) && s.HasCard(o)
  {
    if o in s.w.objects {
      assert ObjOk(s.w, o);
      StoreKeepsShape(s.w, op, o);
      ShapeDecidesObjOk(s.w, WithSlot(s.w, op), o);
    } else {
      InitIsOk(s, op);
    }
  }

  lemma InitIsOk(s: GcState, op: Store)
    requires s.Valid() && Legal(s, op) && op.ObjectInit?
    ensures ObjOk(WithSlot(s.w, op), op.obj)
  {
  }

  lemma HasCardFrame(s: GcState, op: Store)
    requires s.Valid() && Legal(s, op)
    ensures forall a :: Apply(s, op).HasCard(a) <==> s.HasCard(a)
  {
  }

  lemma StoreKeepsDirty(s: GcState, op: Store, addr: Ref)
    requires s.Valid() && Legal(s, op)
    ensures s.Dirty(addr) ==> Apply(s, op).Dirty(addr)
    ensures Stored(op) != NULL ==> Apply(s, op).Dirty(op.obj)
  {
    StoreKeepsValid(s, op);
  }

  /** A slot that a store did not write still holds what it held. */
  lemma OtherSlots(w: World, op: Store, o: Ref, slot: Slot)
    requires o in w.objects && (op.ObjectInit? ==> op.obj !in w.objects)
    requires op.SetFieldObject? && op.obj in w.objects ==> op.offset in w.objects[op.obj].fields
    requires SlotExists(WithSlot(w, op), o, slot)
    ensures SlotExists(w, o, slot)
    ensures || Load(WithSlot(w, op), o, slot) == Load(w, o, slot)
            || (o == op.obj && Load(WithSlot(w, op), o, slot) == Stored(op))
  {
    StoreKeepsShape(w, op, o);
  }

  /** A store adds no edge but one leaving an object whose card it dirties. */
  lemma StoreEdges(s: GcState, op: Store, o: Ref, p: Ref)
    requires s.Valid() && Legal(s, op) && Apply(s, op).Valid()
    requires Edge(Apply(s, op).w, o, p)
    ensures Edge(s.w, o, p) || Apply(s, op).Dirty(o)
  {
    var s' := Apply(s, op);
    StoreKeepsDirty(s, op, o);
    if o in s.w.objects {
      var slot :| IsRefSlot(s'.w, o, slot) && SlotExists(s'.w, o, slot) && Load(s'.w, o, slot) == p;
      StoreKeepsShape(s.w, op, o);
      ShapeDecidesRefSlots(s.w, s'.w, o, slot);
      OtherSlots(s.w, op, o, slot);
    } else {
      InitDirties(s, op, o);
    }
  }

  lemma InitDirties(s: GcState, op: Store, o: Ref)
    requires s.Valid() && Legal(s, op) && Apply(s, op).Valid()
    requires o in Apply(s, op).w.objects && o !in s.w.objects
    ensures Apply(s, op).Dirty(o)
  {
    StoreKeepsDirty(s, op, o);
  }

  /** A store stores: the slot it names holds the value afterwards, and every other slot of
      every object what it held. */
  lemma StoreStores(s: GcState, op: Store, o: Ref, slot: Slot)
    requires s.Valid() && Legal(s, op) && SlotExists(s.w, o, slot)
    ensures SlotExists(Apply(s, op).w, o, slot)
    ensures Load(Apply(s, op).w, o, slot) ==
            match op
            case SetObjectArrayElement(obj, i, val) =>
              if o == obj && slot == ElementSlot(i) then val else Load(s.w, o, slot)
            case SetFieldObject(obj, off, val) =>
              if o == obj && slot == FieldSlot(off) then val else Load(s.w, o, slot)
            case SetStaticFieldObject(obj, f, val) =>
              if o == obj && slot == StaticSlot(f) then val else Load(s.w, o, slot)
            case ObjectInit(_, _) => Load(s.w, o, slot)
  {
    WithSlotStores(s.w, op, o, slot);
    assert Apply(s, op).w == WithSlot(s.w, op);
  }

  lemma WithSlotStores(w: World, op: Store, o: Ref, slot: Slot)
    requires SlotExists(w, o, slot) && (op.ObjectInit? ==> op.obj !in w.objects)
    requires op.SetObjectArrayElement? ==> op.obj in w.objects && op.index < |w.objects[op.obj].elements|
    requires op.SetFieldObject? ==> op.obj in w.objects
    requires op.SetStaticFieldObject? ==> op.obj in w.objects && op.field < |w.objects[op.obj].statics|
    ensures SlotExists(WithSlot(w, op), o, slot)
    ensures Load(WithSlot(w, op), o, slot) ==
            match op
            case SetObjectArrayElement(obj, i, val) =>
              if o == obj && slot == ElementSlot(i) then val else Load(w, o, slot)
            case SetFieldObject(obj, off, val) =>
              if o == obj && slot == FieldSlot(off) then val else Load(w, o, slot)
            case SetStaticFieldObject(obj, f, val) =>
              if o == obj && slot == StaticSlot(f) then val else Load(w, o, slot)
            case ObjectInit(_, _) => Load(w, o, slot)
  {
  }

  /** Initialising adds the one object, with its class in place and no other reference. */
  lemma InitStores(s: GcState, op: Store, slot: Slot)
    requires s.Valid() && Legal(s, op) && op.ObjectInit? && SlotExists(Apply(s, op).w, op.obj, slot)
    ensures Apply(s, op).w.objects.Keys == s.w.objects.Keys + {op.obj}
    ensures Load(Apply(s, op).w, op.obj, slot) == if slot == ClazzSlot then op.init.clazz else NULL
  {
    match slot
    case ElementSlot(i) => assert op.init.elements[i] in op.init.elements;
    case StaticSlot(i) => assert op.init.statics[i] in op.init.statics;
    case _ =>
  }

  /** A card is 128 bytes, clean 0 and dirty 0x70: a store dirties the card of the object it
      stores a non-NULL reference into, and that is the one byte of the table it changes. */
  lemma CardsAfterStore(s: GcState, op: Store, i: nat)
    requires s.Valid() && Legal(s, op) && i < |s.cards|
    ensures |Apply(s, op).cards| == |s.cards|
    ensures Apply(s, op).cards[i] ==
            if Stored(op) != NULL && i == (op.obj - s.cardBase) / 128 then 0x70 else s.cards[i]
  {
  }

  lemma ClearedIsClean(s: GcState, addr: Ref)
    ensures !Cleared(s).Dirty(addr)
    ensures |Cleared(s).cards| == |s.cards| && forall i | 0 <= i < |s.cards| :: Cleared(s).cards[i] == 0
  {
  }

  // ----- Runs of stores -----

  ghost predicate AllLegal(s: GcState, ops: seq<Store>)
    requires s.Valid()
    decreases |ops|
  {
    ops == [] ||
    (Legal(s, ops[0]) &&
     (StoreKeepsValid(s, ops[0]);
      AllLegal(Apply(s, ops[0]), ops[1..])))
  }

  ghost function Run(s: GcState, ops: seq<Store>): (r: GcState)
    requires s.Valid() && AllLegal(s, ops)
    ensures r.Valid()
    decreases |ops|
  {
    if ops == [] then s
    else
      StoreKeepsValid(s, ops[0]);
      Run(Apply(s, ops[0]), ops[1..])
  }

  lemma {:induction false} RunKeepsDirty(s: GcState, ops: seq<Store>, addr: Ref)
    requires s.Valid() && AllLegal(s, ops)
    ensures s.Dirty(addr) ==> Run(s, ops).Dirty(addr)
    decreases |ops|
  {
    if ops != [] {
      StoreKeepsValid(s, ops[0]);
      StoreKeepsDirty(s, ops[0], addr);
      RunKeepsDirty(Apply(s, ops[0]), ops[1..], addr);
    }
  }

  /** No edge is lost from sight: after any run, every edge was there at the start or
      leaves an object whose header card is dirty. */
  lemma {:induction false} EdgesOldOrDirty(s: GcState, ops: seq<Store>, o: Ref, p: Ref)
    requires s.Valid() && AllLegal(s, ops)
    requires Edge(Run(s, ops).w, o, p)
    ensures Edge(s.w, o, p) || Run(s, ops).Dirty(o)
    decreases |ops|
  {
    if ops != [] {
      StoreKeepsValid(s, ops[0]);
      var s1 := Apply(s, ops[0]);
      EdgesOldOrDirty(s1, ops[1..], o, p);
      if Edge(s1.w, o, p) {
        StoreEdges(s, ops[0], o, p);
        RunKeepsDirty(s1, ops[1..], o);
      }
    }
  }

  /** Everything reachable at the end is found by closing a set under the edges there
      were when the cards were cleared and the present edges of dirty-card objects. */
  lemma NoLostReference(s0: GcState, ops: seq<Store>, roots: set<Ref>, seen: set<Ref>, p: Ref)
    requires s0.Valid() && AllLegal(Cleared(s0), ops)
    requires roots <= seen
    requires forall x, y | x in seen && Edge(s0.w, x, y) :: y in seen
    requires forall x, y |
               x in seen && Run(Cleared(s0), ops).Dirty(x) && Edge(Run(Cleared(s0), ops).w, x, y) :: y in seen
    requires Reachable(Run(Cleared(s0), ops).w, roots, p)
    ensures p in seen
  {
    var s1 := Run(Cleared(s0), ops);
    forall x, y | x in seen && Edge(s1.w, x, y)
      ensures y in seen
    {
      EdgesOldOrDirty(Cleared(s0), ops, x, y);
    }
    ClosedContainsReachable(s1.w, roots, seen, p);
  }

  // ----- The accessors, as the program -----

  class Heap {
    var w: World
    const cards: array<nat>
    const cardBase: nat

    constructor (w: World, cardBase: nat, n: nat)
      ensures fresh(cards)
      ensures State() == GcState(w, seq(n, _ => GC_CARD_CLEAN), cardBase)
    {
      this.w := w;
      this.cardBase := cardBase;
      cards := new nat[n](_ => GC_CARD_CLEAN);
    }

    ghost function State(): GcState
      reads this, cards
    {
      GcState(w, cards[..], cardBase)
    }

    method ClearCardTable()
      modifies cards
      ensures State() == Cleared(old(State()))
    {
      forall i | 0 <= i < cards.Length {
        cards[i] := GC_CARD_CLEAN;
      }
    }

    method MarkCard(addr: Ref)
      requires State().HasCard(addr)
      modifies cards
      ensures State() == Marked(old(State()), addr)
    {
      cards[(addr - cardBase) / GC_CARD_SIZE] := GC_CARD_DIRTY;
    }

    /** dvmWriteBarrierField. */
    method BarrierField(obj: Ref)
      requires State().HasCard(obj)
      modifies cards
      ensures State() == Marked(old(State()), obj)
    {
      MarkCard(obj);
    }

    /** dvmWriteBarrierArray. */
    method BarrierArray(obj: Ref, start: nat, end: nat)
      requires State().HasCard(obj)
      modifies cards
      ensures State() == Marked(old(State()), obj)
    {
      MarkCard(obj);
    }

    method SetObjectArrayElement(obj: Ref, index: nat, val: Ref)
      requires State().Valid() && Legal(State(), Store.SetObjectArrayElement(obj, index, val))
      modifies this, cards
      ensures State() == Apply(old(State()), Store.SetObjectArrayElement(obj, index, val))
    {
      StoreKeepsValid(State(), Store.SetObjectArrayElement(obj, index, val));
      w := w.(objects := w.objects[obj := w.objects[obj].(elements := w.objects[obj].elements[index := val])]);
      if val != NULL {
        BarrierArray(obj, index, index + 1);
      }
    }

    /** dvmSetFieldObject and dvmSetFieldObjectVolatile. */
    method SetFieldObject(obj: Ref, offset: nat, val: Ref)
      requires State().Valid() && Legal(State(), Store.SetFieldObject(obj, offset, val))
      modifies this, cards
      ensures State() == Apply(old(State()), Store.SetFieldObject(obj, offset, val))
    {
      StoreKeepsValid(State(), Store.SetFieldObject(obj, offset, val));
      w := w.(objects := w.objects[obj := w.objects[obj].(fields := w.objects[obj].fields[offset := val])]);
      if val != NULL {
        BarrierField(obj);
      }
    }

    /** dvmSetStaticFieldObject and dvmSetStaticFieldObjectVolatile: the static field is
        stored in its class object, whose card is marked. */
    method SetStaticFieldObject(clazz: Ref, field: nat, val: Ref)
      requires State().Valid() && Legal(State(), Store.SetStaticFieldObject(clazz, field, val))
      modifies this, cards
      ensures State() == Apply(old(State()), Store.SetStaticFieldObject(clazz, field, val))
    {
      StoreKeepsValid(State(), Store.SetStaticFieldObject(clazz, field, val));
      w := w.(objects := w.objects[clazz := w.objects[clazz].(statics := w.objects[clazz].statics[field := val])]);
      if val != NULL {
        BarrierField(clazz);
      }
    }
  }
}
