/**
 The references of an object and the visitor that enumerates them
 (jni/hook/alloc/VisitInlines.h).

 A visitor receives the address of a reference. Here an address inside an object is a
 Slot, and the visitor is an object that records the slots it was handed, in order.
 */
module ObjectVisit {
  import opened Words
  import opened ClassModel

  /** The words of an object that hold references. "statics" and the descriptor in
      Classes are present for class objects only. */
  datatype Obj = Obj(clazz: Ref, fields: map<nat, Ref>, elements: seq<Ref>, statics: seq<Ref>)

  /** "referent" is gDvm.offJavaLangRefReference_referent. */
  datatype World = World(classes: Classes, objects: map<Ref, Obj>, referent: nat)

  datatype Slot =
    | ClazzSlot
    | FieldSlot(byteOffset: nat)
    | ElementSlot(i: nat)
    | StaticSlot(i: nat)
    | InterfaceSlot(i: nat)
    | SuperSlot
    | ElementClassSlot
    | LoaderSlot

  // ----- Well-formed objects -----

  ghost predicate ObjOk(w: World, o: Ref)
    requires Acyclic(w.classes)
  {
    && o in w.objects
    && Linked(w.classes, w.objects[o].clazz)
    && Packed(w.classes, w.objects[o].clazz)
    && (forall off | off in SlowWalk(w.classes, w.objects[o].clazz) :: off in w.objects[o].fields)
    && (w.classes[w.objects[o].clazz].isReference ==> w.referent in w.objects[o].fields)
    && (w.classes[w.objects[o].clazz].isClass ==>
          o in w.classes && |w.objects[o].statics| == |w.classes[o].sfieldSignatures|)
  }

  ghost predicate WorldOk(w: World) {
    && Acyclic(w.classes)
    && NULL !in w.objects
    && (forall o | o in w.objects :: ObjOk(w, o))
  }

  function ClassOf(w: World, o: Ref): ClassInfo
    requires o in w.objects && w.objects[o].clazz in w.classes
  {
    w.classes[w.objects[o].clazz]
  }

  // ----- What is a reference slot -----

  /** The slots of an object that hold references, without any order. */
  ghost predicate IsRefSlot(w: World, o: Ref, s: Slot)
    requires WorldOk(w) && o in w.objects
  {
    var k := ClassOf(w, o);
    match s
    case ClazzSlot => true
    case FieldSlot(off) =>
      && (k.isClass || !k.isArray)
      && (off in SlowWalk(w.classes, w.objects[o].clazz) ||
          (!k.isClass && k.isReference && off == w.referent))
    case ElementSlot(i) => !k.isClass && k.isArray && k.isObjectArray && i < |w.objects[o].elements|
    case StaticSlot(i) =>
      && k.isClass
      && i < |w.classes[o].sfieldSignatures|
      && IsReferenceSignature(w.classes[o].sfieldSignatures[i])
    case InterfaceSlot(i) => k.isClass && w.classes[o].status > CLASS_IDX && i < |w.classes[o].interfaces|
    case SuperSlot => k.isClass && w.classes[o].status > CLASS_IDX
    case ElementClassSlot => k.isClass && w.classes[o].isArray
    case LoaderSlot => k.isClass
  }

  /** The slot lies inside the object. */
  predicate SlotExists(w: World, o: Ref, s: Slot) {
    && o in w.objects
    && match s
       case ClazzSlot => true
       case FieldSlot(off) => off in w.objects[o].fields
       case ElementSlot(i) => i < |w.objects[o].elements|
       case StaticSlot(i) => i < |w.objects[o].statics|
       case InterfaceSlot(i) => o in w.classes && i < |w.classes[o].interfaces|
       case _ => o in w.classes
  }

  /** The reference a slot holds. */
  function Load(w: World, o: Ref, s: Slot): Ref
    requires SlotExists(w, o, s)
  {
    match s
    case ClazzSlot => w.objects[o].clazz
    case FieldSlot(off) => w.objects[o].fields[off]
    case ElementSlot(i) => w.objects[o].elements[i]
    case StaticSlot(i) => w.objects[o].statics[i]
    case InterfaceSlot(i) => w.classes[o].interfaces[i]
    case SuperSlot => w.classes[o].super
    case ElementClassSlot => w.classes[o].elementClass
    case LoaderSlot => w.classes[o].classLoader
  }

  lemma RefSlotExists(w: World, o: Ref, s: Slot)
    requires WorldOk(w) && o in w.objects && IsRefSlot(w, o, s)
    ensures SlotExists(w, o, s)
  {
    assert ObjOk(w, o);
  }

  /** The edges of the object graph. */
  ghost predicate Edge(w: World, o: Ref, p: Ref)
    requires WorldOk(w)
  {
    && o in w.objects
    && p != NULL
    && exists s :: IsRefSlot(w, o, s) && SlotExists(w, o, s) && Load(w, o, s) == p
  }

  // ----- The visit, as lists of slots -----

  function FieldSlots(offsets: seq<nat>): (r: seq<Slot>)
    ensures |r| == |offsets|
    ensures forall i | 0 <= i < |r| :: r[i] == FieldSlot(offsets[i])
  {
    seq(|offsets|, i requires 0 <= i < |offsets| => FieldSlot(offsets[i]))
  }

  function ElementSlots(n: nat): (r: seq<Slot>)
    ensures |r| == n
    ensures forall i | 0 <= i < n :: r[i] == ElementSlot(i)
  {
    seq(n, i requires 0 <= i < n => ElementSlot(i))
  }

  function InterfaceSlots(n: nat): (r: seq<Slot>)
    ensures |r| == n
    ensures forall i | 0 <= i < n :: r[i] == InterfaceSlot(i)
  {
    seq(n, i requires 0 <= i < n => InterfaceSlot(i))
  }

  function StaticSlots(signatures: string, n: nat): (r: seq<Slot>)
    requires n <= |signatures|
    ensures forall s :: s in r <==> s.StaticSlot? && s.i < n && IsReferenceSignature(signatures[s.i])
  {
    if n == 0 then []
    else StaticSlots(signatures, n - 1) + if IsReferenceSignature(signatures[n - 1]) then [StaticSlot(n - 1)] else []
  }

  ghost function DataSlots(w: World, o: Ref): seq<Slot>
    requires WorldOk(w) && o in w.objects
  {
    [ClazzSlot] + FieldSlots(FieldWalk(w.classes, w.objects[o].clazz))
  }

  function ClassHeader(k: ClassInfo): seq<Slot> {
    [ClazzSlot]
    + (if k.isArray then [ElementClassSlot] else [])
    + (if k.status > CLASS_IDX then [SuperSlot] else [])
    + [LoaderSlot]
  }

  ghost function ClassSlots(w: World, o: Ref): seq<Slot>
    requires WorldOk(w) && o in w.objects && o in w.classes
  {
    var k := w.classes[o];
    ClassHeader(k)
    + FieldSlots(FieldWalk(w.classes, w.objects[o].clazz))
    + StaticSlots(k.sfieldSignatures, |k.sfieldSignatures|)
    + (if k.status > CLASS_IDX then InterfaceSlots(|k.interfaces|) else [])
  }

  /** The slots visitObject hands to the visitor, in order. */
  ghost function VisitSlots(w: World, o: Ref): seq<Slot>
    requires WorldOk(w) && o in w.objects
  {
    assert ObjOk(w, o);
    var k := ClassOf(w, o);
    if k.isClass then ClassSlots(w, o)
    else if k.isArray then
      [ClazzSlot] + if k.isObjectArray then ElementSlots(|w.objects[o].elements|) else []
    else if k.isReference then DataSlots(w, o) + [FieldSlot(w.referent)]
    else DataSlots(w, o)
  }

  lemma FieldSlotsMembers(offsets: seq<nat>, s: Slot)
    ensures s in FieldSlots(offsets) <==> s.FieldSlot? && s.byteOffset in offsets
  {
    if s.FieldSlot? && s.byteOffset in offsets {
      var i :| 0 <= i < |offsets| && offsets[i] == s.byteOffset;
      assert FieldSlots(offsets)[i] == s;
    }
  }

  lemma ElementSlotsMembers(n: nat, s: Slot)
    ensures s in ElementSlots(n) <==> s.ElementSlot? && s.i < n
    ensures s in InterfaceSlots(n) <==> s.InterfaceSlot? && s.i < n
  {
    if s.ElementSlot? && s.i < n {
      assert ElementSlots(n)[s.i] == s;
    }
    if s.InterfaceSlot? && s.i < n {
      assert InterfaceSlots(n)[s.i] == s;
    }
  }

  /** The visitor sees every reference slot of every kind of object, and nothing else. */
  lemma VisitIsExact(w: World, o: Ref, s: Slot)
    requires WorldOk(w) && o in w.objects
    ensures s in VisitSlots(w, o) <==> IsRefSlot(w, o, s)
  {
    assert ObjOk(w, o);
    var c := w.objects[o].clazz;
    FieldWalkVisitsChain(w.classes, c);
    FieldSlotsMembers(FieldWalk(w.classes, c), s);
    ElementSlotsMembers(|w.objects[o].elements|, s);
    if s.FieldSlot? {
      assert s.byteOffset in Offsets(FieldWalk(w.classes, c)) <==> s.byteOffset in Offsets(SlowWalk(w.classes, c));
    }
    if ClassOf(w, o).isClass {
      ElementSlotsMembers(|w.classes[o].interfaces|, s);
    }
  }

  /** The slots of a class object that are visited, spelt out: the fields of the class
      Class along its chain, and static fields by the first character of their signature. */
  lemma VisitedInClass(w: World, o: Ref, s: Slot)
    requires WorldOk(w) && o in w.objects && ClassOf(w, o).isClass
    ensures o in w.classes
    ensures var k := w.classes[o];
            s in VisitSlots(w, o) <==>
              match s
              case ClazzSlot => true
              case LoaderSlot => true
              case ElementClassSlot => k.isArray
              case SuperSlot => k.status > 1
              case InterfaceSlot(i) => k.status > 1 && i < |k.interfaces|
              case StaticSlot(i) =>
                i < |k.sfieldSignatures| && (k.sfieldSignatures[i] == '[' || k.sfieldSignatures[i] == 'L')
              case FieldSlot(off) =>
                InChain(w.classes, w.objects[o].clazz, off)
              case ElementSlot(_) => false
  {
    assert ObjOk(w, o);
    VisitIsExact(w, o, s);
    if s.FieldSlot? {
      SlowWalkIsChain(w.classes, w.objects[o].clazz, s.byteOffset);
    }
  }

  /** The same for any other object: the elements of an object array, or the fields along
      the chain and the referent of a reference object. */
  lemma VisitedInInstance(w: World, o: Ref, s: Slot)
    requires WorldOk(w) && o in w.objects && !ClassOf(w, o).isClass
    ensures var k := ClassOf(w, o);
            s in VisitSlots(w, o) <==>
              match s
              case ClazzSlot => true
              case ElementSlot(i) => k.isArray && k.isObjectArray && i < |w.objects[o].elements|
              case FieldSlot(off) =>
                !k.isArray && (InChain(w.classes, w.objects[o].clazz, off) || (k.isReference && off == w.referent))
              case _ => false
  {
    assert ObjOk(w, o);
    VisitIsExact(w, o, s);
    if s.FieldSlot? {
      SlowWalkIsChain(w.classes, w.objects[o].clazz, s.byteOffset);
    }
  }

  /** The edges out of a class object, spelt out. */
  lemma EdgeFromClass(w: World, o: Ref, p: Ref)
    requires WorldOk(w) && o in w.objects && ClassOf(w, o).isClass && p != NULL
    ensures o in w.classes && |w.objects[o].statics| == |w.classes[o].sfieldSignatures|
    ensures var k := w.classes[o];
            Edge(w, o, p) <==>
              || p == w.objects[o].clazz || p == k.classLoader
              || (k.isArray && p == k.elementClass)
              || (k.status > 1 && (p == k.super || p in k.interfaces))
              || (exists i :: 0 <= i < |k.sfieldSignatures| && w.objects[o].statics[i] == p
                              && (k.sfieldSignatures[i] == '[' || k.sfieldSignatures[i] == 'L'))
              || (exists off | off in w.objects[o].fields ::
                    InChain(w.classes, w.objects[o].clazz, off) && w.objects[o].fields[off] == p)
  {
    assert ObjOk(w, o);
    var k := w.classes[o];
    if Edge(w, o, p) {
      var s :| IsRefSlot(w, o, s) && SlotExists(w, o, s) && Load(w, o, s) == p;
      VisitIsExact(w, o, s);
      VisitedInClass(w, o, s);
    }
    if p == w.objects[o].clazz {
      EdgeBy(w, o, p, ClazzSlot);
    }
    if p == k.classLoader {
      EdgeBy(w, o, p, LoaderSlot);
    }
    if k.isArray && p == k.elementClass {
      EdgeBy(w, o, p, ElementClassSlot);
    }
    if k.status > 1 && p == k.super {
      EdgeBy(w, o, p, SuperSlot);
    }
    if k.status > 1 && p in k.interfaces {
      var i :| 0 <= i < |k.interfaces| && k.interfaces[i] == p;
      EdgeBy(w, o, p, InterfaceSlot(i));
    }
    forall i | 0 <= i < |k.sfieldSignatures| && w.objects[o].statics[i] == p
               && (k.sfieldSignatures[i] == '[' || k.sfieldSignatures[i] == 'L')
      ensures Edge(w, o, p)
    {
      EdgeBy(w, o, p, StaticSlot(i));
    }
    forall off | off in w.objects[o].fields && w.objects[o].fields[off] == p
                 && InChain(w.classes, w.objects[o].clazz, off)
      ensures Edge(w, o, p)
    {
      SlowWalkIsChain(w.classes, w.objects[o].clazz, off);
      EdgeBy(w, o, p, FieldSlot(off));
    }
  }

  lemma EdgeBy(w: World, o: Ref, p: Ref, s: Slot)
    requires WorldOk(w) && o in w.objects && p != NULL
    requires IsRefSlot(w, o, s) && SlotExists(w, o, s) && Load(w, o, s) == p
    ensures Edge(w, o, p)
  {
  }

  /** The edges out of any other object. */
  lemma EdgeFromInstance(w: World, o: Ref, p: Ref)
    requires WorldOk(w) && o in w.objects && !ClassOf(w, o).isClass && p != NULL
    ensures var k := ClassOf(w, o);
            Edge(w, o, p) <==>
              || p == w.objects[o].clazz
              || (k.isArray && k.isObjectArray && p in w.objects[o].elements)
              || (!k.isArray && exists off | off in w.objects[o].fields ::
                    (InChain(w.classes, w.objects[o].clazz, off) || (k.isReference && off == w.referent))
                    && w.objects[o].fields[off] == p)
  {
    assert ObjOk(w, o);
    var k := ClassOf(w, o);
    if Edge(w, o, p) {
      var s :| IsRefSlot(w, o, s) && SlotExists(w, o, s) && Load(w, o, s) == p;
      VisitIsExact(w, o, s);
      VisitedInInstance(w, o, s);
    }
    if p == w.objects[o].clazz {
      EdgeBy(w, o, p, ClazzSlot);
    }
    if k.isArray && k.isObjectArray && p in w.objects[o].elements {
      var i :| 0 <= i < |w.objects[o].elements| && w.objects[o].elements[i] == p;
      EdgeBy(w, o, p, ElementSlot(i));
    }
    forall off | off in w.objects[o].fields && !k.isArray && w.objects[o].fields[off] == p
                 && (InChain(w.classes, w.objects[o].clazz, off) || (k.isReference && off == w.referent))
      ensures Edge(w, o, p)
    {
      SlowWalkIsChain(w.classes, w.objects[o].clazz, off);
      EdgeBy(w, o, p, FieldSlot(off));
    }
  }

  // ----- The visit, as the program -----

  class Visitor {
    var slots: seq<Slot>

    constructor ()
      ensures slots == []
    {
      slots := [];
    }

    method Visit(s: Slot)
      modifies this
      ensures slots == old(slots) + [s]
    {
      slots := slots + [s];
    }
  }

  lemma FieldSlotsCons(o: nat, s: seq<nat>)
    ensures FieldSlots([o] + s) == [FieldSlot(o)] + FieldSlots(s)
  {
  }

  lemma FieldSlotsConcat(s: seq<nat>, t: seq<nat>)
    ensures FieldSlots(s + t) == FieldSlots(s) + FieldSlots(t)
  {
  }

  /** visitFields: either the CLZ loop over the bitmap or the walk up the super chain. */
  method VisitFields(v: Visitor, w: World, o: Ref)
    requires WorldOk(w) && o in w.objects
    modifies v
    ensures v.slots == old(v.slots) + FieldSlots(FieldWalk(w.classes, w.objects[o].clazz))
  {
    assert ObjOk(w, o);
    var k := ClassOf(w, o);
    if k.refOffsets != CLASS_WALK_SUPER {
      VisitPackedFields(v, k.refOffsets);
    } else {
      VisitChainFields(v, w.classes, w.objects[o].clazz);
    }
  }

  method VisitPackedFields(v: Visitor, packed: Word)
    modifies v
    ensures v.slots == old(v.slots) + FieldSlots(FastWalk(packed))
  {
    var refOffsets := packed;
    while refOffsets != ZERO
      invariant v.slots + FieldSlots(FastWalk(refOffsets)) == old(v.slots) + FieldSlots(FastWalk(packed))
      decreases |Positions(refOffsets)|
    {
      var rshift := Clz(refOffsets);
      var offset := OffsetFromClz(rshift);
      PositionsClear(refOffsets, rshift);
      ghost var rest := FastWalk(And(refOffsets, Not(Bit(rshift))));
      FieldSlotsCons(offset, rest);
      assert v.slots + ([FieldSlot(offset)] + FieldSlots(rest)) == v.slots + [FieldSlot(offset)] + FieldSlots(rest);
      v.Visit(FieldSlot(offset));
      refOffsets := And(refOffsets, Not(Bit(rshift)));
    }
  }

  method VisitChainFields(v: Visitor, cs: Classes, c: Ref)
    requires Acyclic(cs) && Linked(cs, c)
    modifies v
    ensures v.slots == old(v.slots) + FieldSlots(SlowWalk(cs, c))
  {
    var clazz := c;
    while clazz != NULL
      invariant ClassOrNull(cs, clazz)
      invariant v.slots + FieldSlots(SlowWalk(cs, clazz)) == old(v.slots) + FieldSlots(SlowWalk(cs, c))
      decreases Rank(cs, clazz)
    {
      var fields := cs[clazz].ifieldRefs;
      ghost var before := v.slots;
      for i := 0 to |fields|
        invariant v.slots == before + FieldSlots(fields[..i])
      {
        v.Visit(FieldSlot(fields[i]));
        assert FieldSlots(fields[..i + 1]) == FieldSlots(fields[..i]) + [FieldSlot(fields[i])];
      }
      assert fields[..|fields|] == fields;
      FieldSlotsConcat(fields, SlowWalk(cs, cs[clazz].super));
      clazz := cs[clazz].super;
    }
  }

  method VisitStaticFields(v: Visitor, w: World, o: Ref)
    requires o in w.classes
    modifies v
    ensures v.slots == old(v.slots)
                       + StaticSlots(w.classes[o].sfieldSignatures, |w.classes[o].sfieldSignatures|)
  {
    var signatures := w.classes[o].sfieldSignatures;
    for i := 0 to |signatures|
      invariant v.slots == old(v.slots) + StaticSlots(signatures, i)
    {
      if IsReferenceSignature(signatures[i]) {
        v.Visit(StaticSlot(i));
      }
    }
  }

  method VisitInterfaces(v: Visitor, w: World, o: Ref)
    requires o in w.classes
    modifies v
    ensures v.slots == old(v.slots) + InterfaceSlots(|w.classes[o].interfaces|)
  {
    for i := 0 to |w.classes[o].interfaces|
      invariant v.slots == old(v.slots) + InterfaceSlots(i)
    {
      v.Visit(InterfaceSlot(i));
    }
  }

  method VisitClassHeader(v: Visitor, asClass: ClassInfo)
    modifies v
    ensures v.slots == old(v.slots) + ClassHeader(asClass)
  {
    v.Visit(ClazzSlot);
    if asClass.isArray {
      v.Visit(ElementClassSlot);
    }
    if asClass.status > CLASS_IDX {
      v.Visit(SuperSlot);
    }
    v.Visit(LoaderSlot);
  }

  method VisitClassObject(v: Visitor, w: World, o: Ref)
    requires WorldOk(w) && o in w.objects && o in w.classes
    modifies v
    ensures v.slots == old(v.slots) + ClassSlots(w, o)
  {
    ghost var k := w.classes[o];
    ghost var header, fields := ClassHeader(k), FieldSlots(FieldWalk(w.classes, w.objects[o].clazz));
    ghost var statics := StaticSlots(k.sfieldSignatures, |k.sfieldSignatures|);
    VisitClassHeader(v, w.classes[o]);
    VisitFields(v, w, o);
    VisitStaticFields(v, w, o);
    Regroup(old(v.slots), header, fields, statics);
    if w.classes[o].status > CLASS_IDX {
      VisitInterfaces(v, w, o);
      Regroup(old(v.slots), header + fields, statics, InterfaceSlots(|k.interfaces|));
    } else {
      assert header + fields + statics + [] == header + fields + statics;
    }
  }

  lemma Regroup(a: seq<Slot>, b: seq<Slot>, c: seq<Slot>, d: seq<Slot>)
    ensures a + b + c + d == a + (b + c + d)
  {
  }

  method VisitArrayObject(v: Visitor, w: World, o: Ref)
    requires WorldOk(w) && o in w.objects
    requires !ClassOf(w, o).isClass && ClassOf(w, o).isArray
    modifies v
    ensures v.slots == old(v.slots) + VisitSlots(w, o)
  {
    v.Visit(ClazzSlot);
    if ClassOf(w, o).isObjectArray {
      for i := 0 to |w.objects[o].elements|
        invariant v.slots == old(v.slots) + [ClazzSlot] + ElementSlots(i)
      {
        v.Visit(ElementSlot(i));
      }
    }
  }

  method VisitDataObject(v: Visitor, w: World, o: Ref)
    requires WorldOk(w) && o in w.objects
    modifies v
    ensures v.slots == old(v.slots) + DataSlots(w, o)
  {
    v.Visit(ClazzSlot);
    VisitFields(v, w, o);
  }

  method VisitReferenceObject(v: Visitor, w: World, o: Ref)
    requires WorldOk(w) && o in w.objects
    modifies v
    ensures v.slots == old(v.slots) + DataSlots(w, o) + [FieldSlot(w.referent)]
  {
    VisitDataObject(v, w, o);
    v.Visit(FieldSlot(w.referent));
  }

  method VisitObject(v: Visitor, w: World, o: Ref)
    requires WorldOk(w) && o in w.objects
    modifies v
    ensures v.slots == old(v.slots) + VisitSlots(w, o)
  {
    assert ObjOk(w, o);
    var k := ClassOf(w, o);
    if k.isClass {
      VisitClassObject(v, w, o);
    } else if k.isArray {
      VisitArrayObject(v, w, o);
    } else if k.isReference {
      VisitReferenceObject(v, w, o);
    } else {
      VisitDataObject(v, w, o);
    }
  }
}
