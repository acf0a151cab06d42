/**
 Marking: a worklist that tests and sets mark bits and scans objects with visitObject
 (jni/hook/alloc/MarkSweep.h, jni/hook/alloc/HeapBitmapInlines.h,
 jni/hook/alloc/VisitInlines.h).

 The bodies of the mark steps are not in the repository. This is the worklist the
 declared pieces compose to: an object is pushed when setting its bit finds the bit
 clear, and scanned when it is popped.
 */
module MarkSweep {
  import opened Words
  import opened ClassModel
  import opened ObjectVisit
  import opened HeapBitmaps

  // ----- Reachability -----

  /** A path of edges of the object graph. */
  ghost predicate IsPath(w: World, path: seq<Ref>)
    requires WorldOk(w)
  {
    && path != []
    && forall i | 0 <= i < |path| - 1 :: Edge(w, path[i], path[i + 1])
  }

  ghost predicate PathFrom(w: World, roots: set<Ref>, path: seq<Ref>, p: Ref)
    requires WorldOk(w)
  {
    && IsPath(w, path)
    && path[0] in roots
    && path[|path| - 1] == p
  }

  ghost predicate Reachable(w: World, roots: set<Ref>, p: Ref)
    requires WorldOk(w)
  {
    exists path :: PathFrom(w, roots, path, p)
  }

  ghost predicate ClosedUnderEdges(w: World, s: set<Ref>)
    requires WorldOk(w)
  {
    forall o, p | o in s && Edge(w, o, p) :: p in s
  }

  lemma {:induction false} ClosedContainsPath(w: World, s: set<Ref>, path: seq<Ref>)
    requires WorldOk(w) && ClosedUnderEdges(w, s)
    requires IsPath(w, path) && path[0] in s
    ensures path[|path| - 1] in s
    decreases |path|
  {
    if |path| > 1 {
      assert Edge(w, path[0], path[1]);
      var rest := path[1..];
      forall i | 0 <= i < |rest| - 1
        ensures Edge(w, rest[i], rest[i + 1])
      {
        assert Edge(w, path[i + 1], path[i + 2]);
      }
      ClosedContainsPath(w, s, rest);
    }
  }

  /** A closed set that contains the roots contains everything reachable. */
  lemma ClosedContainsReachable(w: World, roots: set<Ref>, s: set<Ref>, p: Ref)
    requires WorldOk(w) && ClosedUnderEdges(w, s) && roots <= s
    requires Reachable(w, roots, p)
    ensures p in s
  {
    var path :| PathFrom(w, roots, path, p);
    ClosedContainsPath(w, s, path);
  }

  lemma ReachableRoot(w: World, roots: set<Ref>, r: Ref)
    requires WorldOk(w) && r in roots
    ensures Reachable(w, roots, r)
  {
    assert PathFrom(w, roots, [r], r);
  }

  lemma ReachableStep(w: World, roots: set<Ref>, o: Ref, p: Ref)
    requires WorldOk(w) && Reachable(w, roots, o) && Edge(w, o, p)
    ensures Reachable(w, roots, p)
  {
    var path :| PathFrom(w, roots, path, o);
    var longer := path + [p];
    forall i | 0 <= i < |longer| - 1
      ensures Edge(w, longer[i], longer[i + 1])
    {
      if i < |path| - 1 {
        assert Edge(w, path[i], path[i + 1]);
      }
    }
    assert PathFrom(w, roots, longer, p);
  }

  // ----- The mark stack and the worklist -----

  /** The bitmap has a bit for every object. */
  ghost predicate Covered(objects: set<Ref>, hb: Bitmap) {
    forall o | o in objects :: hb.Covers(o)
  }

  /** Every reference leads to an object. */
  ghost predicate EdgesClosed(w: World)
    requires WorldOk(w)
  {
    ClosedUnderEdges(w, w.objects.Keys)
  }

  ghost predicate NoDuplicates(s: seq<Ref>) {
    forall i, j | 0 <= i < j < |s| :: s[i] != s[j]
  }

  /** Marked objects, the ones among them still to be scanned, and all that were pushed so
      far: the marked ones, once each. */
  ghost predicate Consistent(objects: set<Ref>, marked: set<Ref>, stack: seq<Ref>, pushed: seq<Ref>, limit: nat) {
    && marked <= objects
    && NoDuplicates(pushed)
    && (forall o :: o in pushed <==> o in marked)
    && |stack| <= |pushed| == |marked|
    && |objects| <= limit
    && (forall o | o in stack :: o in marked)
  }

  lemma MarkKeepsConsistent(objects: set<Ref>, marked: set<Ref>, stack: seq<Ref>, pushed: seq<Ref>, limit: nat,
                            obj: Ref)
    requires Consistent(objects, marked, stack, pushed, limit) && obj in objects
    ensures obj in marked ==> Consistent(objects, marked + {obj}, stack, pushed, limit)
    ensures obj !in marked ==>
              |stack| < limit && Consistent(objects, marked + {obj}, stack + [obj], pushed + [obj], limit)
  {
    if obj in marked {
      assert marked + {obj} == marked;
    } else {
      StrictlySmaller(marked, obj, objects);
    }
  }

  class MarkContext {
    const bitmap: HeapBitmap
    const stack: array<Ref>
    var top: nat
    ghost var pushed: seq<Ref>     // every object ever pushed, in order

    constructor (bitmap: HeapBitmap, limit: nat)
      ensures fresh(stack) && this.bitmap == bitmap && stack.Length == limit
      ensures top == 0 && pushed == []
    {
      this.bitmap := bitmap;
      stack := new Ref[limit];
      top, pushed := 0, [];
    }

    ghost function Marked(): set<Ref>
      reads bitmap, bitmap.bits
    {
      bitmap.State().Members()
    }

    ghost function Pending(): seq<Ref>
      requires top <= stack.Length
      reads this, stack
    {
      stack[..top]
    }

    ghost predicate Valid(objects: set<Ref>)
      reads this, stack, bitmap, bitmap.bits
    {
      && stack as object != bitmap.bits
      && top <= stack.Length
      && Covered(objects, bitmap.State())
      && bitmap.State().Valid()
      && Consistent(objects, Marked(), Pending(), pushed, stack.Length)
    }

    method Push(obj: Ref)
      requires top < stack.Length && stack as object != bitmap.bits
      modifies this, stack
      ensures top == old(top) + 1 <= stack.Length && pushed == old(pushed) + [obj]
      ensures Pending() == old(Pending()) + [obj]
      ensures bitmap.State() == old(bitmap.State())
    {
      stack[top] := obj;
      top := top + 1;
      pushed := pushed + [obj];
    }

    /** Set the mark bit; tell whether it was clear. */
    method TestAndSet(obj: Ref, ghost objects: set<Ref>) returns (wasClear: bool)
      requires top <= stack.Length && stack as object != bitmap.bits
      requires Covered(objects, bitmap.State()) && bitmap.State().Valid() && obj in objects
      modifies bitmap, bitmap.bits
      ensures Covered(objects, bitmap.State()) && bitmap.State().Valid()
      ensures Marked() == old(Marked()) + {obj} && Pending() == old(Pending())
      ensures wasClear <==> obj !in old(Marked())
    {
      var word := bitmap.SetAndReturnObjectBit(obj);
      wasClear := word == ZERO;
    }

    /** Mark one object: push it when its bit was clear. NULL is ignored. The stack
        never overflows if it has room for every object. */
    method MarkObject(obj: Ref, ghost objects: set<Ref>)
      requires Valid(objects)
      requires obj == NULL || obj in objects
      modifies this, stack, bitmap, bitmap.bits
      ensures Valid(objects)
      ensures Marked() == old(Marked()) + if obj == NULL then {} else {obj}
      ensures Pending() == old(Pending()) + if obj == NULL || obj in old(Marked()) then [] else [obj]
    {
      if obj != NULL {
        ghost var marked, pending, before := Marked(), Pending(), pushed;
        MarkKeepsConsistent(objects, marked, pending, before, stack.Length, obj);
        var wasClear := TestAndSet(obj, objects);
        assert Pending() == pending && pushed == before && Marked() == marked + {obj};
        if wasClear {
          Push(obj);
          assert Marked() == marked + {obj};
          assert Consistent(objects, Marked(), Pending(), pushed, stack.Length);
        } else {
          assert Consistent(objects, Marked(), Pending(), pushed, stack.Length);
        }
      }
    }

    /** Mark every reference in a list. */
    method MarkAll(refs: seq<Ref>, ghost objects: set<Ref>)
      requires Valid(objects)
      requires forall r | r in refs :: r == NULL || r in objects
      modifies this, stack, bitmap, bitmap.bits
      ensures Valid(objects)
      ensures Grown(refs, old(Marked()), old(Pending()), Marked(), Pending())
    {
      ghost var m0, p0 := Marked(), Pending();
      GrownNone(m0, p0);
      for i := 0 to |refs|
        invariant Valid(objects)
        invariant Grown(refs[..i], m0, p0, Marked(), Pending())
      {
        assert refs[i] in refs && refs[..i + 1] == refs[..i] + [refs[i]];
        MarkNext(refs[..i], refs[i], objects, m0, p0);
      }
      assert refs[..|refs|] == refs;
    }

    method MarkNext(ghost done: seq<Ref>, r: Ref, ghost objects: set<Ref>, ghost m0: set<Ref>, ghost p0: seq<Ref>)
      requires Valid(objects) && (r == NULL || r in objects)
      requires Grown(done, m0, p0, Marked(), Pending())
      modifies this, stack, bitmap, bitmap.bits
      ensures Valid(objects)
      ensures Grown(done + [r], m0, p0, Marked(), Pending())
    {
      ghost var marked, pending := Marked(), Pending();
      MarkObject(r, objects);
      GrownStep(done, r, m0, p0, marked, pending, Marked(), Pending());
    }

    method Pop(ghost objects: set<Ref>) returns (o: Ref)
      requires Valid(objects) && top > 0
      modifies this
      ensures Valid(objects)
      ensures Marked() == old(Marked()) && o in Marked() && o in objects
      ensures old(Pending()) == Pending() + [o]
      ensures top == old(top) - 1
    {
      assert stack[top - 1] in Pending();
      top := top - 1;
      o := stack[top];
      assert old(Pending()) == Pending() + [o];
    }

    /** Pop one object and scan it with visitObject. */
    method ScanTop(w: World, visitor: Visitor) returns (ghost o: Ref)
      requires WorldOk(w) && EdgesClosed(w) && Valid(w.objects.Keys) && top > 0
      modifies this, stack, bitmap, bitmap.bits, visitor
      ensures Valid(w.objects.Keys)
      ensures o in old(Marked())
      ensures old(Pending()) == old(Pending())[..old(top) - 1] + [o]
      ensures Scanned(w, o, old(Marked()), old(Pending())[..old(top) - 1], Marked(), Pending())
    {
      var obj := Pop(w.objects.Keys);
      o := obj;
      ghost var marked, pending := Marked(), Pending();
      var refs := References(w, obj, visitor);
      MarkAll(refs, w.objects.Keys);
      GrownIsScanned(w, o, refs, marked, pending, Marked(), Pending());
    }
  }

  /** The references of an object are its successors, and possibly NULL. */
  ghost predicate AreSuccessors(w: World, o: Ref, refs: seq<Ref>)
    requires WorldOk(w)
  {
    forall p | p != NULL :: p in refs <==> Edge(w, o, p)
  }

  /** What the visitor finds in an object. */
  method References(w: World, o: Ref, visitor: Visitor) returns (refs: seq<Ref>)
    requires WorldOk(w) && EdgesClosed(w) && o in w.objects
    modifies visitor
    ensures AreSuccessors(w, o, refs)
    ensures forall r | r in refs :: r == NULL || r in w.objects.Keys
  {
    visitor.slots := [];
    VisitObject(visitor, w, o);
    var slots := visitor.slots;
    ghost var visited := VisitSlots(w, o);
    assert slots == visited;
    refs := LoadSlots(w, o, slots, visited);
    SuccessorsAreObjects(w, o, refs);
  }

  method LoadSlots(w: World, o: Ref, slots: seq<Slot>, ghost visited: seq<Slot>) returns (refs: seq<Ref>)
    requires WorldOk(w) && o in w.objects && visited == VisitSlots(w, o) && slots == visited
    ensures AreSuccessors(w, o, refs)
  {
    VisitedSlotsExist(w, o);
    refs := LoadAll(w, o, slots);
    LoadedAreSuccessors(w, o);
  }

  lemma SuccessorsAreObjects(w: World, o: Ref, refs: seq<Ref>)
    requires WorldOk(w) && EdgesClosed(w) && o in w.objects && AreSuccessors(w, o, refs)
    ensures forall r | r in refs :: r == NULL || r in w.objects.Keys
  {
    forall r | r in refs && r != NULL
      ensures r in w.objects.Keys
    {
      assert Edge(w, o, r);
    }
  }

  function LoadAll(w: World, o: Ref, slots: seq<Slot>): (refs: seq<Ref>)
    requires forall s | s in slots :: SlotExists(w, o, s)
    ensures |refs| == |slots| && forall i | 0 <= i < |refs| :: refs[i] == Load(w, o, slots[i])
  {
    if slots == [] then [] else
    assert forall s | s in slots[1..] :: s in slots;
    [Load(w, o, slots[0])] + LoadAll(w, o, slots[1..])
  }

  lemma VisitedSlotsExist(w: World, o: Ref)
    requires WorldOk(w) && o in w.objects
    ensures forall s | s in VisitSlots(w, o) :: SlotExists(w, o, s)
  {
    forall s | s in VisitSlots(w, o)
      ensures SlotExists(w, o, s)
    {
      VisitIsExact(w, o, s);
      RefSlotExists(w, o, s);
    }
  }

  lemma LoadedAreSuccessors(w: World, o: Ref)
    requires WorldOk(w) && o in w.objects
    requires forall s | s in VisitSlots(w, o) :: SlotExists(w, o, s)
    ensures AreSuccessors(w, o, LoadAll(w, o, VisitSlots(w, o)))
  {
    var slots := VisitSlots(w, o);
    var refs := LoadAll(w, o, slots);
    forall p | p != NULL
      ensures p in refs <==> Edge(w, o, p)
    {
      if p in refs {
        var i :| 0 <= i < |refs| && refs[i] == p;
        VisitIsExact(w, o, slots[i]);
      }
      if Edge(w, o, p) {
        var s :| IsRefSlot(w, o, s) && SlotExists(w, o, s) && Load(w, o, s) == p;
        VisitIsExact(w, o, s);
        var i :| 0 <= i < |slots| && slots[i] == s;
        assert refs[i] == p;
      }
    }
  }

  /** From one moment to another, exactly the references in the list were marked, and
      those newly marked were pushed, once each, on top of what was pending. */
  ghost predicate Grown(refs: seq<Ref>, marked: set<Ref>, pending: seq<Ref>, marked': set<Ref>, pending': seq<Ref>) {
    && (forall p :: p in marked' <==> p in marked || (p in refs && p != NULL))
    && pending <= pending'
    && |pending'| + |marked| == |pending| + |marked'|
    && (forall q | q in marked' && q !in marked :: q in pending'[|pending|..])
  }

  lemma GrownNone(marked: set<Ref>, pending: seq<Ref>)
    ensures Grown([], marked, pending, marked, pending)
  {
  }

  lemma GrownStep(refs: seq<Ref>, r: Ref, marked0: set<Ref>, pending0: seq<Ref>,
                  marked: set<Ref>, pending: seq<Ref>, marked': set<Ref>, pending': seq<Ref>)
    requires Grown(refs, marked0, pending0, marked, pending)
    requires marked' == marked + if r == NULL then {} else {r}
    requires pending' == pending + if r == NULL || r in marked then [] else [r]
    ensures Grown(refs + [r], marked0, pending0, marked', pending')
  {
    if r == NULL || r in marked {
      assert marked' == marked && pending' == pending;
    } else {
      assert pending'[|pending0|..] == pending[|pending0|..] + [r];
    }
  }

  /** Scanning an object marks exactly its successors. */
  ghost predicate Scanned(w: World, o: Ref, marked: set<Ref>, pending: seq<Ref>, marked': set<Ref>, pending': seq<Ref>)
    requires WorldOk(w)
  {
    && (forall p :: p in marked' <==> p in marked || Edge(w, o, p))
    && pending <= pending'
    && |pending'| + |marked| == |pending| + |marked'|
    && (forall q | q in marked' && q !in marked :: q in pending'[|pending|..])
  }

  lemma GrownIsScanned(w: World, o: Ref, refs: seq<Ref>,
                       marked: set<Ref>, pending: seq<Ref>, marked': set<Ref>, pending': seq<Ref>)
    requires WorldOk(w) && AreSuccessors(w, o, refs)
    requires Grown(refs, marked, pending, marked', pending')
    ensures Scanned(w, o, marked, pending, marked', pending')
  {
  }

  // ----- The closure theorem -----

  /** Marked objects that are not waiting have had all their successors marked. */
  ghost predicate Explored(w: World, roots: set<Ref>, marked: set<Ref>, pending: seq<Ref>)
    requires WorldOk(w)
  {
    && roots <= marked
    && (forall p | p in marked :: Reachable(w, roots, p))
    && (forall o, p | o in marked && o !in pending && Edge(w, o, p) :: p in marked)
  }

  lemma ScannedKeepsExplored(w: World, roots: set<Ref>, o: Ref, marked: set<Ref>, pending: seq<Ref>,
                             marked': set<Ref>, pending': seq<Ref>)
    requires WorldOk(w) && Explored(w, roots, marked, pending + [o]) && o in marked
    requires Scanned(w, o, marked, pending, marked', pending')
    ensures Explored(w, roots, marked', pending')
  {
    forall p | p in marked'
      ensures Reachable(w, roots, p)
    {
      if p !in marked {
        ReachableStep(w, roots, o, p);
      }
    }
    forall x, p | x in marked' && x !in pending' && Edge(w, x, p)
      ensures p in marked'
    {
      if x in marked && x != o {
        assert x !in pending + [o] by {
          assert forall y | y in pending :: y in pending';
        }
      }
    }
  }

  lemma RootsExplored(w: World, roots: seq<Ref>, marked: set<Ref>, pending: seq<Ref>)
    requires WorldOk(w) && Grown(roots, {}, [], marked, pending)
    ensures Explored(w, RootSet(roots), marked, pending)
  {
    forall p | p in marked
      ensures Reachable(w, RootSet(roots), p)
    {
      ReachableRoot(w, RootSet(roots), p);
    }
  }

  lemma ExploredIsReachable(w: World, roots: set<Ref>, marked: set<Ref>)
    requires WorldOk(w) && Explored(w, roots, marked, [])
    ensures forall p :: p in marked <==> Reachable(w, roots, p)
  {
    forall p
      ensures p in marked <==> Reachable(w, roots, p)
    {
      if Reachable(w, roots, p) {
        ClosedContainsReachable(w, roots, marked, p);
      }
    }
  }

  ghost function RootSet(roots: seq<Ref>): set<Ref> {
    set r | r in roots && r != NULL
  }

  /** How much is left to do: unmarked objects first, then the height of the stack. */
  ghost predicate Progress(marked: set<Ref>, pending: seq<Ref>, marked': set<Ref>, pending': seq<Ref>) {
    |marked| < |marked'| || (|marked| == |marked'| && |pending'| < |pending|)
  }

  lemma ScannedIsProgress(w: World, o: Ref, marked: set<Ref>, pending: seq<Ref>,
                          marked': set<Ref>, pending': seq<Ref>)
    requires WorldOk(w) && Scanned(w, o, marked, pending, marked', pending')
    ensures Progress(marked, pending + [o], marked', pending')
  {
    CardinalityMonotone(marked, marked');
  }

  method ScanOne(w: World, ghost roots: set<Ref>, cx: MarkContext, visitor: Visitor)
    requires WorldOk(w) && EdgesClosed(w)
    requires cx.Valid(w.objects.Keys) && cx.top > 0
    requires Explored(w, roots, cx.Marked(), cx.Pending())
    modifies cx, cx.stack, cx.bitmap, cx.bitmap.bits, visitor
    ensures cx.Valid(w.objects.Keys)
    ensures Explored(w, roots, cx.Marked(), cx.Pending())
    ensures Progress(old(cx.Marked()), old(cx.Pending()), cx.Marked(), cx.Pending())
  {
    ghost var marked, pending := cx.Marked(), cx.Pending()[..cx.top - 1];
    var o := cx.ScanTop(w, visitor);
    ScannedKeepsExplored(w, roots, o, marked, pending, cx.Marked(), cx.Pending());
    ScannedIsProgress(w, o, marked, pending, cx.Marked(), cx.Pending());
  }

  /** Scan until the stack is empty. */
  method ScanMarkedObjects(w: World, ghost roots: set<Ref>, cx: MarkContext, visitor: Visitor)
    requires WorldOk(w) && EdgesClosed(w)
    requires cx.Valid(w.objects.Keys)
    requires Explored(w, roots, cx.Marked(), cx.Pending())
    modifies cx, cx.stack, cx.bitmap, cx.bitmap.bits, visitor
    ensures cx.Valid(w.objects.Keys) && cx.top == 0
    ensures Explored(w, roots, cx.Marked(), [])
  {
    while cx.top > 0
      invariant cx.Valid(w.objects.Keys)
      invariant Explored(w, roots, cx.Marked(), cx.Pending())
      decreases |w.objects.Keys| - |cx.Marked()|, cx.top
    {
      ScanOne(w, roots, cx, visitor);
      CardinalityMonotone(cx.Marked(), w.objects.Keys);
    }
    assert cx.Pending() == [];
  }

  /** Mark the root set. */
  method MarkRootSet(w: World, roots: seq<Ref>, cx: MarkContext)
    requires WorldOk(w)
    requires cx.Valid(w.objects.Keys) && cx.Marked() == {} && cx.top == 0
    requires forall r | r in roots :: r == NULL || r in w.objects.Keys
    modifies cx, cx.stack, cx.bitmap, cx.bitmap.bits
    ensures cx.Valid(w.objects.Keys)
    ensures cx.Marked() == RootSet(roots)
    ensures |cx.Pending()| == |RootSet(roots)| && forall o :: o in cx.Pending() <==> o in RootSet(roots)
    ensures Explored(w, RootSet(roots), cx.Marked(), cx.Pending())
  {
    assert cx.Pending() == [];
    cx.MarkAll(roots, w.objects.Keys);
    assert cx.Marked() == RootSet(roots);
    RootsExplored(w, roots, cx.Marked(), cx.Pending());
  }

  /** Marking from the roots: terminates, pushes every reachable object once and no other,
      and leaves the bitmap holding exactly the reachable objects. */
  method Mark(w: World, roots: seq<Ref>, cx: MarkContext)
    requires WorldOk(w) && EdgesClosed(w)
    requires cx.Valid(w.objects.Keys) && cx.Marked() == {} && cx.top == 0
    requires forall r | r in roots :: r == NULL || r in w.objects.Keys
    modifies cx, cx.stack, cx.bitmap, cx.bitmap.bits
    ensures cx.Valid(w.objects.Keys) && cx.top == 0
    ensures forall p :: p in cx.Marked() <==> Reachable(w, RootSet(roots), p)
    ensures NoDuplicates(cx.pushed) && forall p :: p in cx.pushed <==> p in cx.Marked()
  {
    MarkRootSet(w, roots, cx);
    var visitor := new Visitor();
    ScanMarkedObjects(w, RootSet(roots), cx, visitor);
    ExploredIsReachable(w, RootSet(roots), cx.Marked());
  }

  lemma CardinalityMonotone<T>(a: set<T>, b: set<T>)
    requires a <= b
    ensures |a| <= |b|
  {
    assert b == a + (b - a);
  }

  lemma StrictlySmaller<T>(a: set<T>, x: T, b: set<T>)
    requires a <= b && x in b && x !in a
    ensures |a| < |b|
  {
    CardinalityMonotone(a + {x}, b);
  }
}
