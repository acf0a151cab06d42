# Verified models of a Dalvik hooking layer

The repository hooks Dalvik methods: a ptrace injector loads a library into a process, native
code redirects method records, Java code dispatches to callbacks, and all of it sits on Dalvik's
own headers. This project models the parts that carry real logic and proves what they are for.

* **Lock-free cache** (`AtomicCache`). Any number of threads run the lookup macro and the documented
  update one load or store at a time, in any interleaving. A lookup returns the computed value as
  long as its entry saw fewer than 2^31 updates meanwhile, for all keys exactly when a zeroed entry
  tells the truth about them; at exactly 2^31 updates a wrong value can come back.
* **Garbage collector** (`ClassModel`, `ObjectVisit`, `HeapBitmap`, `MarkSweep`, `WriteBarrier`). The bitmap
  walk over a class's reference fields refines the walk up its super chain; the visitor sees exactly the
  reference slots of an object; the mark bitmap refines a set of addresses over every run; a worklist
  over both terminates and marks exactly what is reachable; and after any run of reference stores
  every edge is old or leaves an object on a dirty card, so no reference is lost.
* **Indirect references** (`IndirectRefTable`). Hole counts and saved cookies stay exact over every run;
  popping a frame restores the table below it; a handle yields its own object until it is removed, and is
  invalid from then until its slot has been filled 4096 times more.
* **Hooking** (`MethodHook`, `ArgBoxing`, `HookManager`). The saved original of a hooked method is the method
  before its first hook, in every run of hooks, callbacks and nested dispatches; arguments are boxed
  without loss.
* **Injection and codecs** (`Injector`, `Bits`). Blocks pushed for a remote call stay disjoint and intact,
  nothing at or above the stack pointer saved at attach is written, and detach restores every register;
  integers and strings written to a buffer are read back, in sequence, by the moving cursor.

`Words` is the 32-bit word as a vector of bits, shared by both bitmaps. Code that the repository writes
as updates in place is a class or a method over arrays here, proved against a function on values; the
runs are sequences of such functions' steps. The target is 32-bit and little-endian, built for Thumb.

Where code and documentation disagree, the model follows the code, gives a failing input, and proves
exactly when the documented behaviour holds:

* `HeapBitmap.h` says `max < base` when no bit is set. After any run from an empty bitmap that holds
  exactly when a bit is set or no operation ever set one, because clearing never lowers `max`
  (`HeapBitmaps.DocumentedMaxIsExact`, failing run in `HeapBitmaps.MaxIsNotLowered`).
* `IndirectRefTable.h` speaks of a 64K-entry cap. Tables keep every handle valid until it is removed, over
  every run from `init`, exactly when their maximum is below 65536: at 65536 entries the 16-bit top index
  wraps (`IndirectRefTables.CapIsExact`, `IndirectRefTables.TopIndexWraps`).
* `setMethodHooked` is documented to set the callback of a method. `generateKey` names the Java classes that
  implement the types of a method, not the types, so methods of one class and name whose types are pairwise of
  the same sort share a key (`HookManagers.KeyIsExact`). A method gets hooked exactly when it is the first of
  its key to have a callback set; a caller can ask `getHookedCallback` first
  (`HookManagers.FirstOfKeyIsHooked`, `HookManagers.SetHooksItsMethod`).
* `Bits.h` says `readUtf8String` returns the length of the original string. It does exactly below 2^31, since it
  returns it as an `int` (`Bits.LengthSurvives`).
* `AtomicCache.h` promises "the value". A zeroed entry answers zero for the keys 0 and 0, so the promise
  holds exactly for other keys or if zero is the value (`AtomicCache.TransparentIffSound`).

## Model

| member | source | states |
|---|---|---|
| `AtomicCache.ExecInv` | jni/hook/AtomicCache.h:62-80 | in every interleaving at most one updater owns an entry, its version is odd exactly while one does, and an even entry is untouched or its value is the one computed for its keys; every thread's readings are good while the version is the one it saw |
| `AtomicCache.EntryHoldsLastUpdate` | jni/hook/AtomicCache.h:69-76 | in every interleaving an entry with an even version holds key1, key2 and value of the last completed update on it, all three of that one update, or zeroes if there was none, and the version counts the completed updates twice |
| `AtomicCache.StepUpdates` | jni/hook/AtomicCache.h:69-76 | a step leaves an even entry as it was, or completes one update whose keys and value the entry then holds |
| `AtomicCache.RunInv` | jni/hook/AtomicCache.h:95-143 | the invariant holds after every run from the zeroed cache |
| `AtomicCache.TransparentIffSound` | jni/hook/AtomicCache.h:95-143 | every completed lookup of a pair of keys, in every run with fewer than 2^31 updates of its entry during it, returns the computed value, if and only if the keys are not 0 and 0 or zero is their value |
| `AtomicCache.ZeroKeysHit` | jni/hook/AtomicCache.h:107-130 | a first lookup of keys 0 and 0 is a hit on the zeroed entry and answers 0 |
| `AtomicCache.IndexBits` | jni/hook/AtomicCache.h:101-103 | the entry index, bit by bit, is (key1 >> 2) ^ key2 masked with the number of entries minus one |
| `AtomicCache.QuietBetweenEqualVersions` | jni/hook/AtomicCache.h:105-117 | equal even versions around any stretch of a run: no store to the entry fell between |
| `AtomicCache.WindowIsExact` | jni/hook/AtomicCache.h:105-130 | for any two pairs of keys that share an entry and differ in key1 there is a run with exactly 2^31 updates inside one lookup that returns the other pair's value |
| `AtomicCache.WindowIffWrap` | jni/hook/AtomicCache.h:105-130 | for sound keys that share an entry with a pair of another value: lookups fewer than bound increments long all return the computed value if and only if bound is at most 2^32, two increments to an update |
| `AtomicCache.VersionInjective` | jni/hook/AtomicCache.h:117 | version words agree only for equal counts while fewer than 2^32 increments apart |
| `AtomicCache.StepInv` | jni/hook/AtomicCache.h:69-76 | each load, store, claim or release by any thread keeps the invariant |
| `AtomicCache.AdvanceThread` | jni/hook/AtomicCache.h:105-141 | a step of a thread keeps what the thread relies on: what it has read matches the entry while the version is the one it saw |
| `AtomicCache.AdvanceOther` | jni/hook/AtomicCache.h:69-76 | a step of one thread keeps what every other thread on the entry relies on |
| `AtomicCache.Cache.Lookup` | jni/hook/AtomicCache.h:95-143 | the macro run alone: a hit answers from the entry and changes nothing, a miss computes the value and leaves keys, value and a version two higher in the entry |
| `AtomicCache.Cache.Update` | jni/hook/AtomicCache.h:69-76 | the update run alone: the entry is claimed, filled and released, or untouched when its version is odd or has moved |
| `ClassModel.OffsetRoundTrip` | jni/hook/oo/Object.h:150-177 | the bit of an encodable offset, counted with CLZ, gives the offset back |
| `ClassModel.WalkSuperIsThree` | jni/hook/oo/Object.h:150 | the magic word is the number 3 |
| `ClassModel.FastWalkRefinesSlowWalk` | jni/hook/alloc/VisitInlines.h:28-48 | for every list of encodable offsets the CLZ walk over the OR of their bits visits exactly them, each once, ascending |
| `ClassModel.FieldWalkVisitsChain` | jni/hook/alloc/VisitInlines.h:28-48 | whatever the bitmap is, also a natural value equal to CLASS_WALK_SUPER, the walk visits the slots of the super chain and no others |
| `ClassModel.FastWalkIsPositions` | jni/hook/alloc/VisitInlines.h:29-36 | the CLZ loop yields exactly the offsets of the set bits, strictly ascending |
| `ClassModel.SlowWalkIsChain` | jni/hook/alloc/VisitInlines.h:38-47 | the chain walk meets exactly the reference fields of the class and of every class n steps above it |
| `ClassModel.SlowWalkMeetsOnce` | jni/hook/alloc/VisitInlines.h:38-47 | where no two fields of the chain share an offset, each is met once |
| `ClassModel.DvmIsSubClass` | jni/hook/oo/TypeCheck.h:58-67 | on an acyclic chain the loop terminates and decides the reflexive transitive closure of super |
| `ClassModel.SubClassIsPartialOrder` | jni/hook/oo/TypeCheck.h:58-67 | the relation is reflexive, transitive and antisymmetric |
| `ClassModel.SubClassVisitsMore` | jni/hook/alloc/VisitInlines.h:38-46 | a subclass instance has every slot visited that an instance of the superclass has |
| `ObjectVisit.VisitIsExact` | jni/hook/alloc/VisitInlines.h:83-171 | a slot is visited if and only if it is a reference slot of the object, for class objects, arrays, reference objects and data objects |
| `ObjectVisit.VisitedInClass` | jni/hook/alloc/VisitInlines.h:83-105 | kind by kind, the slots of a class object that are visited: static fields whose signature starts with '[' or 'L', super and interfaces when the status is above 1, the fields along the chain |
| `ObjectVisit.VisitedInInstance` | jni/hook/alloc/VisitInlines.h:111-171 | kind by kind, the slots of any other object that are visited: elements of object arrays, fields along the chain, the referent of reference objects |
| `ObjectVisit.EdgeFromClass` | jni/hook/alloc/VisitInlines.h:83-105 | the objects a class object refers to: class, loader, element class, super, interfaces, static and instance references, and no others |
| `ObjectVisit.EdgeFromInstance` | jni/hook/alloc/VisitInlines.h:111-171 | the objects any other object refers to: class, elements, fields along the chain, referent, and no others |
| `ObjectVisit.VisitFields` | jni/hook/alloc/VisitInlines.h:23-49 | hands the visitor the slots of the field walk, in order |
| `ObjectVisit.VisitPackedFields` | jni/hook/alloc/VisitInlines.h:28-36 | the loop that clears bits visits the offsets of the bitmap |
| `ObjectVisit.VisitChainFields` | jni/hook/alloc/VisitInlines.h:38-48 | the loops over the chain and over ifields visit the slots of the chain |
| `ObjectVisit.VisitStaticFields` | jni/hook/alloc/VisitInlines.h:54-65 | visits the static fields whose signature starts with [ or L |
| `ObjectVisit.VisitInterfaces` | jni/hook/alloc/VisitInlines.h:70-78 | visits every interface slot, in order |
| `ObjectVisit.VisitClassObject` | jni/hook/alloc/VisitInlines.h:83-105 | class, element class of arrays, super and interfaces past CLASS_IDX, loader, instance and static fields |
| `ObjectVisit.VisitArrayObject` | jni/hook/alloc/VisitInlines.h:111-124 | the class slot and, for object arrays only, every element |
| `ObjectVisit.VisitDataObject` | jni/hook/alloc/VisitInlines.h:130-137 | the class slot and the instance fields |
| `ObjectVisit.VisitReferenceObject` | jni/hook/alloc/VisitInlines.h:143-152 | the slots of a data object and the referent |
| `ObjectVisit.VisitObject` | jni/hook/alloc/VisitInlines.h:157-171 | the four-way dispatch visits the slot list that VisitIsExact is about |
| `HeapBitmaps.ReplayRefinesSet` | jni/hook/alloc/HeapBitmapInlines.h:27-105 | after any run of set and clear the bitmap holds exactly the addresses last set, the test is nonzero exactly for them, and max bounds them |
| `HeapBitmaps.ModifyRefinesSet` | jni/hook/alloc/HeapBitmapInlines.h:27-53 | one operation adds or removes exactly one address, and the returned word is nonzero exactly when it was there |
| `HeapBitmaps.TestIsMembership` | jni/hook/alloc/HeapBitmapInlines.h:93-105 | the test is nonzero exactly for members, so the early exit above max is sound |
| `HeapBitmaps.BitsAreDistinct` | jni/hook/alloc/HeapBitmap.h:29-42 | no two covered addresses share a bit |
| `HeapBitmaps.DecodeRoundTrip` | jni/hook/alloc/HeapBitmap.h:29-42 | word index and CLZ of the mask give the offset back |
| `HeapBitmaps.DecodeIsMonotone` | jni/hook/alloc/HeapBitmap.h:37-42 | ascending index and CLZ deliver ascending offsets |
| `HeapBitmaps.DocumentedMaxIsExact` | jni/hook/alloc/HeapBitmap.h:66-70 | after any run the documented rule, no bit set implies max < base, holds if and only if a bit is set or the run set none |
| `HeapBitmaps.MaxIsNeverLowered` | jni/hook/alloc/HeapBitmapInlines.h:37-51 | after any run max is below base if and only if it was so before and the run set nothing |
| `HeapBitmaps.MaxIsNotLowered` | jni/hook/alloc/HeapBitmap.h:66-70 | setting and clearing one bit of an empty bitmap breaks the documented max rule |
| `HeapBitmaps.HeapBitmap.ModifyObjectBit` | jni/hook/alloc/HeapBitmapInlines.h:27-53 | the array of words and max end as the value function says, every other word unchanged |
| `HeapBitmaps.HeapBitmap.SetAndReturnObjectBit` | jni/hook/alloc/HeapBitmapInlines.h:63-67 | adds the address; nonzero exactly when it was a member |
| `HeapBitmaps.HeapBitmap.SetObjectBit` | jni/hook/alloc/HeapBitmapInlines.h:73-76 | adds the address and nothing else |
| `HeapBitmaps.HeapBitmap.ClearObjectBit` | jni/hook/alloc/HeapBitmapInlines.h:81-84 | removes the address and nothing else |
| `HeapBitmaps.HeapBitmap.TestObjectBit` | jni/hook/alloc/HeapBitmapInlines.h:93-105 | nonzero exactly for members |
| `MarkSweep.Mark` | jni/hook/alloc/MarkSweep.h:49-53 | marking from the roots terminates, never overflows a stack of one place per object, and ends with the bitmap equal to the reachable set; the sequence of all pushes has no duplicates and the reachable objects as its elements |
| `MarkSweep.ScanMarkedObjects` | jni/hook/alloc/MarkSweep.h:52 | scanning empties the stack and leaves every successor of a marked object marked |
| `MarkSweep.MarkRootSet` | jni/hook/alloc/MarkSweep.h:50 | the marked objects are the roots, and the stack holds each of them once |
| `MarkSweep.MarkContext.MarkObject` | jni/hook/alloc/HeapBitmapInlines.h:63-67 | marks, and pushes exactly when the bit was clear |
| `MarkSweep.References` | jni/hook/alloc/VisitInlines.h:157-171 | what the visitor loads from an object are its successors in the object graph |
| `MarkSweep.ClosedContainsReachable` | jni/hook/alloc/MarkSweep.h:49-58 | a set closed under edges that holds the roots holds everything reachable |
| `WriteBarrier.NoLostReference` | jni/hook/alloc/WriteBarrier.h:20-51 | after clearing the cards and any run of reference stores, a set closed under the old edges and under the new edges of dirty-card objects contains everything reachable |
| `WriteBarrier.EdgesOldOrDirty` | jni/hook/alloc/WriteBarrier.h:20-51 | after any run every edge was there before or leaves an object whose header card is dirty |
| `WriteBarrier.StoreEdges` | jni/hook/oo/ObjectInlines.h:149-155 | one store adds no edge but one leaving the object whose card it dirties |
| `WriteBarrier.StoreStores` | jni/hook/oo/ObjectInlines.h:149-155 | for every accessor: the slot it names loads the value afterwards, every other slot of every object what it did |
| `WriteBarrier.InitStores` | jni/hook/alloc/WriteBarrier.h:34-40 | initialising adds one object, which has its class and no other reference |
| `WriteBarrier.CardsAfterStore` | jni/hook/alloc/CardTable.h:26-29 | a store of a non-NULL value writes 0x70 to the card of its object, at 128 bytes a card, and no other card changes; a store of NULL changes none |
| `WriteBarrier.ClearedIsClean` | jni/hook/alloc/CardTable.h:42-45 | after clearing, every card is 0 and no address is dirty |
| `WriteBarrier.StoreKeepsValid` | jni/hook/oo/ObjectInlines.h:27-33 | a store keeps the heap well formed and every class as it is |
| `WriteBarrier.RunKeepsDirty` | jni/hook/alloc/CardTable.h:63-66 | no store makes a dirty card clean |
| `WriteBarrier.Heap.SetObjectArrayElement` | jni/hook/oo/ObjectInlines.h:27-33 | one element stored, its array's card dirty exactly if the value is not NULL, all else unchanged |
| `WriteBarrier.Heap.SetFieldObject` | jni/hook/oo/ObjectInlines.h:149-155 | one field stored, its object's card dirty exactly if the value is not NULL, all else unchanged |
| `WriteBarrier.Heap.SetStaticFieldObject` | jni/hook/oo/ObjectInlines.h:305-310 | one static field stored, the card of its class object dirty exactly if the value is not NULL |
| `WriteBarrier.Heap.BarrierArray` | jni/hook/alloc/WriteBarrier.h:47-51 | the header card is dirtied, whatever the range |
| `WriteBarrier.Heap.BarrierField` | jni/hook/alloc/WriteBarrier.h:29-32 | the header card is dirtied, whatever the field |
| `WriteBarrier.Heap.MarkCard` | jni/hook/alloc/CardTable.h:63-66 | the one card of the address becomes dirty |
| `WriteBarrier.Heap.ClearCardTable` | jni/hook/alloc/CardTable.h:42-45 | every card becomes clean |
| `IndirectRefTables.HandleRoundTrip` | jni/hook/IndirectRefTable.h:347-364 | handles of indices below 65536 and serials below 4096 are not NULL, fit 32 bits and unpack without loss |
| `IndirectRefTables.PackRoundTrip` | jni/hook/IndirectRefTable.h:194-200 | a cookie keeps top index and hole count |
| `IndirectRefTables.ExecInv` | jni/hook/IndirectRefTable.h:140-161 | over every run of add, remove, push and pop the hole count equals the empty slots below the top index, also for every saved cookie, and no segment ends in a hole |
| `IndirectRefTables.StepInv` | jni/hook/IndirectRefTable.h:140-161 | each operation keeps that invariant |
| `IndirectRefTables.HolesExist` | jni/hook/IndirectRefTable.h:140-142 | a hole count above the cookie's means the segment has a hole to fill |
| `IndirectRefTables.StepBelowBottom` | jni/hook/IndirectRefTable.h:288-297 | no operation changes a slot below the current bottom |
| `IndirectRefTables.FrameRestores` | jni/hook/IndirectRefTable.h:148-161 | push a frame, do anything in it, pop it: the segment state and every entry below are as they were |
| `IndirectRefTables.HandleFate` | jni/hook/IndirectRefTable.h:79-86 | over any run a handle yields its object until its entry is removed or popped; then it yields 0xdead4321 unless the slot is live again a multiple of 0x1000 fills later |
| `IndirectRefTables.EntryFate` | jni/hook/IndirectRefTable.h:79-86 | an entry stays unchanged until an operation ends its life, and its slot comes back only under a new serial |
| `IndirectRefTables.SerialWindowIsExact` | jni/hook/IndirectRefTable.h:357-359 | filling its slot exactly 0x1000 times more makes a removed handle yield the new object |
| `IndirectRefTables.AddThenGet` | jni/hook/IndirectRefTable.h:266-281 | the handle add returns is valid and yields the object added |
| `IndirectRefTables.GetIsExact` | jni/hook/IndirectRefTable.h:276-281 | in numbers: the object, if kind, index, liveness and serial of the handle's bits fit, and else 0xdead4321 |
| `IndirectRefTables.RemoveAnswers` | jni/hook/IndirectRefTable.h:288-297 | remove answers true exactly for a handle of the segment, which is invalid afterwards, and else changes nothing |
| `IndirectRefTables.AddFailsOnlyWhenFull` | jni/hook/IndirectRefTable.h:271-274 | NULL exactly when there is no hole in the segment and no room to expand |
| `IndirectRefTables.TopIndexWraps` | jni/hook/IndirectRefTable.h:157-159 | the append at top index 0xFFFF wraps the index to 0 and makes every handle invalid |
| `IndirectRefTables.TopIndexStep` | jni/hook/IndirectRefTable.h:194-200 | an append moves the top index on by one if and only if it is below 0xFFFF |
| `IndirectRefTables.CapIsExact` | jni/hook/IndirectRefTable.h:157-161 | over every run from init, every handle yields its object until removed or popped, if and only if the table's maximum is below 65536; a run of 65536 adds is the failing one |
| `IndirectRefTables.AddGivesHandle` | jni/hook/IndirectRefTable.h:361-364 | the handle add returns is that of the live slot it filled |
| `IndirectRefTables.FillTakesNextSerial` | jni/hook/IndirectRefTable.h:357-359 | a filled slot carries the next serial, one more modulo 0x1000 |
| `IndirectRefTables.Iterate` | jni/hook/IndirectRefTable.h:202-235 | the loop from begin to end terminates and yields the visible slots |
| `IndirectRefTables.VisibleBelowIsExact` | jni/hook/IndirectRefTable.h:224-230 | those are exactly the slots below the top index that are neither NULL nor 0xdead1234, once each, ascending |
| `IndirectRefTables.IrefIterator.SkipNullsAndTombstones` | jni/hook/IndirectRefTable.h:224-230 | stops at the next visible slot or at the capacity |
| `IndirectRefTables.IrefIterator.Next` | jni/hook/IndirectRefTable.h:209-213 | moves on to the next visible slot |
| `IndirectRefTables.IndirectRefTable.AddEntry` | jni/hook/IndirectRefTable.h:266-274 | the table ends as the step machine's add says, hole search and expansion included |
| `IndirectRefTables.IndirectRefTable.GetEntry` | jni/hook/IndirectRefTable.h:276-281 | the slot's object, or 0xdead4321 |
| `IndirectRefTables.IndirectRefTable.RemoveEntry` | jni/hook/IndirectRefTable.h:288-297 | nothing outside the segment is removed; removing the topmost entry gives up the holes below it |
| `ArgBoxing.UnmarshalLayout` | jni/hook/Proxy.cpp:37-63 | every list of arguments laid out in words is recovered from shorty and words, whatever follows |
| `ArgBoxing.LayoutUnmarshal` | jni/hook/Proxy.cpp:37-63 | every block of words with a valid shorty is the layout of what is recovered |
| `ArgBoxing.LayoutSize` | jni/hook/libdex/DexProto.h:156-162 | a layout has as many words as the prototype's argument size |
| `ArgBoxing.BoxMethodArgs` | jni/hook/Proxy.cpp:12-66 | null when there is no room for the array; otherwise it is as long as the parameter list and holds the boxed arguments, and exactly the argument words are consumed |
| `ArgBoxing.BoxingLosesNothing` | jni/hook/Proxy.cpp:41-62 | arguments of 32-bit words with the same shorty and the same boxed objects are the same |
| `ArgBoxing.BoxedValue` | jni/hook/Proxy.cpp:41-62 | for J and D the 64 bits whose low word comes first, for the other primitives the word, for references the reference |
| `ArgBoxing.BoxAll` | jni/hook/Proxy.cpp:35-63 | the loop fills every element once and stays inside both arrays |
| `ArgBoxing.BoxOne` | jni/hook/Proxy.cpp:41-62 | the switch boxes one argument and steps over one word, or two for J and D |
| `MethodHook.OriginalSurvives` | jni/hook/Proxy.cpp:137-174 | after any sequence of hooks a method is hooked exactly when it is in it; its original is the method before its first hook and is never hooked itself; registersSize is insSize, outsSize 0, and class, index, name, prototype, shorty and every flag but the native one are unchanged, while the method no longer counts as bytecode |
| `MethodHook.FlagValues` | jni/hook/Proxy.cpp:173 | the three access flags are the numbers 0x8, 0x100 and 0x400 |
| `MethodHook.FlagPredicates` | jni/hook/oo/Object.h:714-716 | static asks for bit 0x8; bytecode for 0x100 and 0x400 both clear |
| `MethodHook.HookAllInv` | jni/hook/Proxy.cpp:158-173 | hooked methods are redirected to private, distinct copies; all others are as they were; no copy is ever hooked |
| `MethodHook.HookKeepsInv` | jni/hook/Proxy.cpp:158-173 | one more hook keeps that |
| `MethodHook.HandlerSeesTheCall` | jni/hook/Proxy.cpp:80-99 | the handler passes on the receiver and arguments of the caller, because hooking leaves the static flag and shorty alone |
| `MethodHook.MethodArea.HookMethod` | jni/hook/Proxy.cpp:141-174 | NULL and unknown methods change nothing and report the error; a hooked method is left alone; otherwise the record is saved and redirected |
| `MethodHook.MethodArea.HandleArguments` | jni/hook/Proxy.cpp:80-99 | the receiver of a non-static method and the boxed arguments behind it, or null for want of room |
| `HookManagers.InvokeRunsTheOriginal` | src/com/catfish/undercover/HookedMethod.java:23-25 | in every run with nested dispatches, invoke runs the method being dispatched, as it was before its first hook, never the handler |
| `HookManagers.OneHookPerKey` | src/com/catfish/undercover/HookManager.java:37-53 | in every run exactly one method is natively hooked for each key with a callback, none for the others |
| `HookManagers.CallbackIsLastSet` | src/com/catfish/undercover/HookManager.java:37-62 | a key's callback is the last non-null one set for it |
| `HookManagers.ExecInv` | src/com/catfish/undercover/HookManager.java:37-95 | over every run: one hook per cached key, callbacks not null, and each dispatch on the stack finds its own method in mMethod |
| `HookManagers.SetKeepsInv` | src/com/catfish/undercover/HookManager.java:37-53 | setting a callback keeps that, in the middle of any dispatch |
| `HookManagers.OverloadsShareKeys` | src/com/catfish/undercover/HookManager.java:70-75 | the different methods f(String) and f(Integer) of one class have the same key |
| `HookManagers.KeyIsExact` | src/com/catfish/undercover/HookManager.java:64-77 | for names without a colon two methods share a key if and only if class, name, arity and, pairwise, the implementing classes of their types agree |
| `HookManagers.ImplNameIsSort` | src/com/catfish/undercover/HookManager.java:70-75 | with five different implementing classes, equal ones mean types of the same sort |
| `HookManagers.FirstOfKeyIsHooked` | src/com/catfish/undercover/HookManager.java:37-53 | in every run a method is hooked if and only if it is the method of the first non-null callback set for its key |
| `HookManagers.SetHooksItsMethod` | src/com/catfish/undercover/HookManager.java:37-62 | in every state a call with a callback leaves its method hooked if and only if the key had no callback or the method was hooked before |
| `HookManagers.FallbackRunsTheOriginal` | src/com/catfish/undercover/HookManager.java:84-93 | in every run, for every dispatch on the stack: the answer is the callback's, or after its exception that of the dispatched method as it was before its first hook |
| `HookManagers.OverloadStealsCallback` | src/com/catfish/undercover/HookManager.java:42-47 | in every state, setting a callback for an overload of a hooked method replaces that method's callback and hooks nothing |
| `HookManagers.GenerateKey` | src/com/catfish/undercover/HookManager.java:64-77 | the appending loop builds the key |
| `HookManagers.HookManager.SetMethodHooked` | src/com/catfish/undercover/HookManager.java:37-53 | the cache and the method records end as the step machine says |
| `HookManagers.HookManager.GetHookedCallback` | src/com/catfish/undercover/HookManager.java:55-62 | the callback of the key, or null |
| `HookManagers.HookManager.HandleHookedMethod` | src/com/catfish/undercover/HookManager.java:79-86 | mMethod is the method dispatched when the callback is entered |
| `HookManagers.HookManager.FinishDispatch` | src/com/catfish/undercover/HookManager.java:84-93 | the callback's answer; without a callback or after an Exception the original of the method dispatched; any other Throwable passes through |
| `Injector.CallFindsBlocks` | jni/inject/ptrace.c:300-308 | a called function finds every string and memory block whole, with its padding, at the 8-aligned address it is passed |
| `Injector.CallFindsWords` | jni/inject/ptrace.c:322-333 | argument k >= 4 lies at sp + 8 * (k - 4), not packed |
| `Injector.CallFindsRegisters` | jni/inject/ptrace.c:309-320 | arguments 0 to 3 are in r0 to r3, registers beyond the argument count unchanged |
| `Injector.CallSees` | jni/inject/ptrace.c:300-342 | a called function reads every argument, in r0 to r3 or on its stack, as its number, or as an 8-aligned pointer to the string with its NUL or to the block; it returns to address 1 |
| `Injector.DlopenSees` | jni/inject/ptrace.c:212-229 | dlopen is entered with a pointer to the file name and its NUL in r0 and the flag in r1 |
| `Injector.DlsymSees` | jni/inject/ptrace.c:238-258 | dlsym is entered with the handle in r0 and a pointer to the symbol and its NUL in r1 |
| `Injector.ThumbBitsAre` | jni/inject/ptrace.c:58-60 | bits 4 and 5 of cpsr get set and no others change |
| `Injector.BlocksAreDisjoint` | jni/inject/ptrace.c:180-188 | whole-word writes of different blocks never overlap |
| `Injector.BlockIsIntact` | jni/inject/ptrace.c:99-113 | no later push changes a block or its padding |
| `Injector.CallsAreAligned` | jni/inject/ptrace.c:180-188 | a call is entered with sp a multiple of 8, as section 5.2.1.2 of the AAPCS asks, exactly when something was pushed or sp was so before |
| `Injector.WordAlignmentIsNeeded` | jni/inject/ptrace.c:99-113 | pushes of every size stay below the old sp if and only if sp is word-aligned |
| `Injector.PushStaysBelow` | jni/inject/ptrace.c:180-188 | a single push does exactly when rounding sp down makes up for rounding the size up |
| `Injector.PushIsTight` | jni/inject/ptrace.c:180-188 | a block gets the highest 8-aligned place that fits below the stack pointer |
| `Injector.RunStaysBelow` | jni/inject/ptrace.c:212-353 | in every run of dlopen, dlsym and calls the injector writes only between the last and the first stack pointer, so no call overwrites what an earlier one pushed |
| `Injector.ReadBackIsUnchanged` | jni/inject/ptrace.c:115-127 | reading back a block the target left alone returns its bytes and its padding |
| `Injector.UntouchedCallChangesNothing` | jni/inject/ptrace.c:346-353 | a call whose target leaves the memory blocks alone leaves the injector's whole memory as it was, bytes behind the buffers included, whether arguments share a buffer or not |
| `Injector.ReceivedAt` | jni/inject/ptrace.c:346-353 | after a call, a byte in the buffer of a memory argument and of none after it is the target's, and one in no buffer is as before |
| `Injector.ReadStaysInside` | jni/inject/ptrace.c:115-127 | a read of len bytes stays inside a buffer of len bytes if and only if len is a multiple of 4 |
| `Injector.Tracer.Write` | jni/inject/ptrace.c:99-113 | the loop of word pokes stores the block and up to three bytes behind it, and nothing else |
| `Injector.Tracer.Read` | jni/inject/ptrace.c:115-127 | the loop of word peeks stores the target's bytes, up to a whole word, in the injector's own memory, and changes nothing else there |
| `Injector.Tracer.PushBlock` | jni/inject/ptrace.c:180-188 | sp and memory after a push |
| `Injector.Tracer.Attach` | jni/inject/ptrace.c:42-71 | the registers are saved and the target is let run at 0x11 in Thumb state |
| `Injector.Tracer.Detach` | jni/inject/ptrace.c:90-97 | the saved registers are back |
| `Injector.Tracer.DlopenCall` | jni/inject/ptrace.c:212-236 | the target is let run as DlopenSees says; the result is r0 at the next stop |
| `Injector.Tracer.DlsymCall` | jni/inject/ptrace.c:238-264 | the target is let run as DlsymSees says; the result is r0 at the next stop |
| `Injector.Tracer.PtraceCall` | jni/inject/ptrace.c:292-353 | the target is let run as CallSees says; every memory argument is read back in order into the buffer it came from, which two may share |
| `Injector.Tracer.Inject` | jni/inject/inject.c:97-116 | attach, dlopen, dlsym, call, detach with callees that give sp back: dlopen gets directory and library name, dlsym that handle and hook, the function found the process name, # and the extra argument; the registers end as at attach, and every write is strictly below the sp at attach |
| `Bits.DecodeAllEncodeAll` | jni/hook/Bits.h:117-356 | any list of integers in either byte order and strings, written in sequence, is read back whole and the cursor stops right behind it |
| `Bits.EncodeAllDecodeAll` | jni/hook/Bits.h:117-356 | any bytes that can be read as fields are the encoding of what is read |
| `Bits.BytesThenValue` | jni/hook/Bits.h:272-345 | writing n bytes and reading them gives every value below 256^n back |
| `Bits.ValueThenBytes` | jni/hook/Bits.h:33-112 | reading n bytes and writing them gives every byte string back |
| `Bits.LittleIsBigReversed` | jni/hook/Bits.h:272-345 | little-endian output is big-endian output reversed |
| `Bits.Values4` | jni/hook/Bits.h:49-94 | what four bytes mean, high or low byte first, as a sum of powers of 256 |
| `Bits.Values8` | jni/hook/Bits.h:57-112 | what eight bytes mean, as two halves |
| `Bits.LowBytes4` | jni/hook/Bits.h:289-330 | the four low bytes of a number, high or low byte first |
| `Bits.Shifted8` | jni/hook/Bits.h:300-345 | the eight low bytes of a number, high or low byte first |
| `Bits.BoundedIsPrefix` | jni/hook/Bits.h:234-244 | the bounded read yields the prefix of length min(len, bufLen - 1), the whole string exactly when it fits |
| `Bits.BoundedReadFits` | jni/hook/Bits.h:237-240 | copy and NUL fit into the buffer if and only if it has at least one byte |
| `Bits.StringRoundTrip` | jni/hook/Bits.h:350-356 | a string written anywhere decodes to itself and leaves the rest of the buffer to read |
| `Bits.StringBytes` | jni/hook/Bits.h:350-356 | a string is its length in four bytes, high byte first, and its bytes |
| `Bits.TerminatedIsItself` | jni/hook/Bits.h:252-266 | the allocated copy is the string as a C string |
| `Bits.LengthSurvives` | jni/hook/Bits.h:229-244 | the returned int is the length exactly below 2^31, and 2^32 less above |
| `Bits.Get4BE` | jni/hook/Bits.h:49-52 | the positional value of the four bytes, high byte first |
| `Bits.Get8BE` | jni/hook/Bits.h:57-71 | two halves make the positional value of eight bytes |
| `Bits.Get4LE` | jni/hook/Bits.h:84-94 | the positional value of the four bytes, low byte first |
| `Bits.Get8LE` | jni/hook/Bits.h:99-112 | two halves make the positional value of eight bytes, low byte first |
| `Bits.Get1` | jni/hook/Bits.h:33-36 | one byte, in either order |
| `Bits.Get2BE` | jni/hook/Bits.h:41-44 | the positional value of two bytes, high byte first |
| `Bits.Get2LE` | jni/hook/Bits.h:76-79 | the positional value of two bytes, low byte first |
| `Bits.Set4BE` | jni/hook/Bits.h:289-295 | the four low bytes in place, high byte first, the rest of the buffer untouched |
| `Bits.Set8BE` | jni/hook/Bits.h:300-310 | the eight low bytes in place, high byte first |
| `Bits.Set8LE` | jni/hook/Bits.h:335-345 | the eight low bytes in place, low byte first |
| `Bits.Set1` | jni/hook/Bits.h:272-275 | the low byte in place |
| `Bits.Set2BE` | jni/hook/Bits.h:280-284 | the two low bytes in place, high byte first |
| `Bits.Set2LE` | jni/hook/Bits.h:315-319 | the two low bytes in place, low byte first |
| `Bits.Set4LE` | jni/hook/Bits.h:324-330 | the four low bytes in place, low byte first |
| `Bits.SetUtf8String` | jni/hook/Bits.h:350-356 | length and bytes of the C string, without its NUL |
| `Bits.Strlen` | jni/hook/Bits.h:352 | the index of the first NUL |
| `Bits.Reader.Read4BE` | jni/hook/Bits.h:136-147 | reads what decoding finds at the cursor and moves four bytes on |
| `Bits.Reader.Read8LE` | jni/hook/Bits.h:201-217 | reads what decoding finds at the cursor and moves eight bytes on |
| `Bits.Reader.Read1` | jni/hook/Bits.h:117-120 | reads one byte and moves one on |
| `Bits.Reader.Read2BE` | jni/hook/Bits.h:125-131 | reads what decoding finds at the cursor and moves two bytes on |
| `Bits.Reader.Read8BE` | jni/hook/Bits.h:153-169 | reads what decoding finds at the cursor and moves eight bytes on |
| `Bits.Reader.Read2LE` | jni/hook/Bits.h:174-179 | reads what decoding finds at the cursor and moves two bytes on |
| `Bits.Reader.Read4LE` | jni/hook/Bits.h:184-196 | reads what decoding finds at the cursor and moves four bytes on |
| `Bits.Reader.SkipUtf8String` | jni/hook/Bits.h:222-227 | leaves the cursor where the two reading functions leave it |
| `Bits.Reader.ReadUtf8String` | jni/hook/Bits.h:234-244 | bounded prefix and NUL in the buffer, its rest untouched, the cursor behind the whole string |
| `Bits.Reader.ReadNewUtf8String` | jni/hook/Bits.h:252-266 | the whole string and a NUL in a fresh buffer, the cursor behind it |

## Left out

- Weak memory: cache steps are sequentially consistent, in the order of the loads as written.
- The order of the update's three stores is not in the source; the model lets them happen in any order.
- Cache statistics counters, and aligning the entries' allocation.
- AtomicCache.Cache.Lookup: states the macro run by one thread; interleavings are the subject of the step machine.
- HeapBitmap start-up, shrinking, sweep walks, and `HB_OFFSET_TO_BYTE_INDEX`.
- Class linking: `refOffsets` is an input, either CLASS_WALK_SUPER or the OR of the bits of the chain's reference fields.
- Classes as class descriptors (super, interfaces, element class, loader) do not change during a run of stores; `dvmWriteBarrierObject` appears as the initialisation of a new object only.
- Instance volatile 32-bit setters: their store is commented out in the source (jni/hook/oo/ObjectInlines.h:156-166), so nothing is claimed about them.
- The raw element stores of the argument boxing loop (jni/hook/Proxy.cpp:43-60) do not go through the write barrier and are not among the stores of NoLostReference.
- MarkSweep.Mark: marks with an explicit stack only; the finger, immune objects, reference processing and sweeping are not modelled, and the mark steps' bodies are not in the source.
- IndirectRefTables.IndirectRefTable.AddEntry: bodies of add, get and remove are not in the source; they follow the header's comments. Which hole is filled is left open in the step machine and is the topmost one in the class.
- Kinds: a table holds one kind of handle; weak-global handles inside the global table are not modelled.
- ArgBoxing.BoxMethodArgs: characters that no shorty contains are excluded; failure to box a single primitive is not modelled.
- Result conversion in the hook handler (unboxing, null results, exceptions) and `dvmInvokeMethod` itself.
- Races between two threads calling `setMethodHooked`. The names of the platform's classes for generic types are parameters.
- Injector.Tracer.PtraceCall: unknown argument types and negative sizes are excluded; all of the target's memory is taken to be writable.
- The ARM (non-Thumb) and x86 branches of the injector, `ptrace_readstr`, `ptrace_stack_alloc`, `ptrace_mymath_add`, process and linker lookup.
- Bits.Reader.ReadUtf8String: a buffer of zero bytes is excluded, since no memory can meet the copy the source then asks for (BoundedReadFits).
- Injector.Tracer.Inject: the fixed size of the buffer that the call's string is built in is not modelled.
- Loader, JNI registration, reflection, the Android UI, dex, zip, JIT, JDWP and the debugger: declarations or foreign effects only.
