/**
 Redirecting methods to the hook handler (hookMethod, methodHookHandler and
 realInvokeOriginalMethodNative in jni/hook/Proxy.cpp, the method predicates of
 jni/hook/oo/Object.h).

 Method records live in a memory area keyed by address. "insns" is a raw address: for a
 method with bytecode the address of its code, for a hooked method the address of the
 record saved by hookMethod.
 */
module MethodHook {
  import opened Words
  import opened ArgBoxing

  type Ptr = nat

  const NULL: Ptr := 0

  /** &methodHookHandler. */
  const HANDLER: Ptr := 1

  // Access flags: 0x8, 0x100 and 0x400, as positions from the high end.
  const ACC_STATIC: Word := Bit(28)
  const ACC_NATIVE: Word := Bit(23)
  const ACC_ABSTRACT: Word := Bit(21)

  lemma {:induction false} PrefixOfBit(i: nat, k: nat)
    requires i < 32 && k <= 32
    ensures k <= i ==> Prefix(Bit(i), k) == 0
    decreases k
  {
    if 0 < k <= i {
      PrefixOfBit(i, k - 1);
    }
  }

  lemma FlagValues()
    ensures Value(ACC_STATIC) == 0x8 && Value(ACC_NATIVE) == 0x100 && Value(ACC_ABSTRACT) == 0x400
  {
    PrefixOfBit(28, 28);
    assert Prefix(ACC_STATIC, 29) == 1 && Prefix(ACC_STATIC, 30) == 2 && Prefix(ACC_STATIC, 31) == 4;
    PrefixOfBit(23, 23);
    assert Prefix(ACC_NATIVE, 24) == 1 && Prefix(ACC_NATIVE, 25) == 2 && Prefix(ACC_NATIVE, 26) == 4;
    assert Prefix(ACC_NATIVE, 27) == 8 && Prefix(ACC_NATIVE, 28) == 16 && Prefix(ACC_NATIVE, 29) == 32;
    assert Prefix(ACC_NATIVE, 30) == 64 && Prefix(ACC_NATIVE, 31) == 128;
    PrefixOfBit(21, 21);
    assert Prefix(ACC_ABSTRACT, 22) == 1 && Prefix(ACC_ABSTRACT, 23) == 2 && Prefix(ACC_ABSTRACT, 24) == 4;
    assert Prefix(ACC_ABSTRACT, 25) == 8 && Prefix(ACC_ABSTRACT, 26) == 16 && Prefix(ACC_ABSTRACT, 27) == 32;
    assert Prefix(ACC_ABSTRACT, 28) == 64 && Prefix(ACC_ABSTRACT, 29) == 128 && Prefix(ACC_ABSTRACT, 30) == 256;
    assert Prefix(ACC_ABSTRACT, 31) == 512;
  }

  /** The fields of a Method that hooking reads, writes or must leave alone. */
  datatype Method = Method(
    clazz: Ptr,
    accessFlags: Word,
    methodIndex: nat,
    registersSize: nat,
    outsSize: nat,
    insSize: nat,
    name: string,
    prototype: Ptr,
    shorty: string,
    insns: Ptr,
    nativeFunc: Ptr)

  predicate IsFlagSet(m: Method, flag: Word) {
    And(m.accessFlags, flag) != ZERO
  }

  predicate IsStaticMethod(m: Method) {
    IsFlagSet(m, ACC_STATIC)
  }

  predicate IsBytecodeMethod(m: Method) {
    !IsFlagSet(m, Or(ACC_NATIVE, ACC_ABSTRACT))
  }

  predicate MethodIsHooked(m: Method) {
    m.nativeFunc == HANDLER
  }

  /** Records by address; every address from "free" on is unused. */
  datatype Area = Area(records: map<Ptr, Method>, free: Ptr)

  ghost predicate AreaOk(a: Area) {
    NULL !in a.records && a.free != NULL && forall p | p in a.records :: p < a.free
  }

  /** What the handler's record says after its fields were overwritten. */
  function Redirected(m: Method, hookInfo: Ptr): Method {
    m.(nativeFunc := HANDLER,
       insns := hookInfo,
       registersSize := m.insSize,
       outsSize := 0,
       accessFlags := Or(m.accessFlags, ACC_NATIVE))
  }

  /** hookMethod on values: nothing if there is no such method or it is hooked already. */
  function Hook(a: Area, m: Ptr): Area {
    if m !in a.records || MethodIsHooked(a.records[m]) then a
    else Area(a.records[a.free := a.records[m]][m := Redirected(a.records[m], a.free)], a.free + 1)
  }

  /** The record realInvokeOriginalMethodNative runs: (Method*) meth->insns. */
  predicate HasOriginal(a: Area, m: Ptr) {
    m in a.records && a.records[m].insns in a.records
  }

  function Original(a: Area, m: Ptr): Method
    requires HasOriginal(a, m)
  {
    a.records[a.records[m].insns]
  }

  // ----- Runs of hookMethod -----

  function HookAll(a: Area, ms: seq<Ptr>): Area
    decreases |ms|
  {
    if ms == [] then a else HookAll(Hook(a, ms[0]), ms[1..])
  }

  /** Where the methods of a VM start: none of them is hooked. */
  ghost predicate Pristine(a: Area) {
    AreaOk(a) && forall p | p in a.records :: !MethodIsHooked(a.records[p])
  }

  /** The method is redirected to a copy, outside the original records, of what it was. */
  ghost predicate Saved(a0: Area, a: Area, p: Ptr) {
    && p in a0.records && p in a.records
    && a0.free <= a.records[p].insns < a.free
    && HasOriginal(a, p)
    && a.records[p] == Redirected(a0.records[p], a.records[p].insns)
    && Original(a, p) == a0.records[p]
  }

  ghost predicate Untouched(a0: Area, a: Area, p: Ptr) {
    p in a0.records && p in a.records && a.records[p] == a0.records[p]
  }

  /** How the area stands to the one before any hook: hooked methods are redirected to
      private copies, the others are as they were. */
  ghost predicate HookInv(a0: Area, a: Area, hooked: set<Ptr>) {
    && AreaOk(a) && a0.free <= a.free
    && (forall p | p in hooked :: Saved(a0, a, p))
    && (forall p | p in a0.records && p !in hooked :: Untouched(a0, a, p))
    && (forall p | p in a.records && p !in a0.records :: !MethodIsHooked(a.records[p]))
    && (forall p, q | p in hooked && q in hooked && p != q :: a.records[p].insns != a.records[q].insns)
  }

  lemma PristineInv(a0: Area)
    requires Pristine(a0)
    ensures HookInv(a0, a0, {})
  {
  }

  lemma HookSaves(a0: Area, a: Area, m: Ptr)
    requires AreaOk(a) && AreaOk(a0) && a0.free <= a.free && Untouched(a0, a, m) && !MethodIsHooked(a.records[m])
    ensures Saved(a0, Hook(a, m), m) && Hook(a, m).records[m].insns == a.free
    ensures AreaOk(Hook(a, m)) && a.free <= Hook(a, m).free
  {
  }

  lemma HookKeepsSaved(a0: Area, a: Area, m: Ptr, p: Ptr)
    requires AreaOk(a) && AreaOk(a0) && a0.free <= a.free && Untouched(a0, a, m) && p != m
    ensures Saved(a0, a, p) ==> Saved(a0, Hook(a, m), p) && Hook(a, m).records[p] == a.records[p]
    ensures Untouched(a0, a, p) ==> Untouched(a0, Hook(a, m), p)
  {
  }

  /** What one more hook does to each record. */
  lemma HookKeepsEach(a0: Area, a: Area, hooked: set<Ptr>, m: Ptr, p: Ptr)
    requires Pristine(a0) && HookInv(a0, a, hooked) && m in a0.records && m !in hooked
    ensures p in hooked ==>
              && Saved(a0, Hook(a, m), p)
              && p in a.records && Hook(a, m).records[p] == a.records[p] && a.records[p].insns < a.free
    ensures p == m ==> Saved(a0, Hook(a, m), p) && Hook(a, m).records[p].insns == a.free
    ensures p in a0.records && p !in hooked && p != m ==> Untouched(a0, Hook(a, m), p)
  {
    assert Untouched(a0, a, m);
    HookSaves(a0, a, m);
    if p in hooked {
      assert Saved(a0, a, p);
    } else if p in a0.records {
      assert Untouched(a0, a, p);
    }
    if p != m {
      HookKeepsSaved(a0, a, m, p);
    }
  }

  lemma HookKeepsCopies(a0: Area, a: Area, hooked: set<Ptr>, m: Ptr)
    requires Pristine(a0) && HookInv(a0, a, hooked) && m in a0.records && m !in hooked
    ensures AreaOk(Hook(a, m)) && a0.free <= Hook(a, m).free
    ensures forall p | p in Hook(a, m).records && p !in a0.records :: !MethodIsHooked(Hook(a, m).records[p])
  {
    assert Untouched(a0, a, m);
    HookSaves(a0, a, m);
  }

  lemma HookKeepsInv(a0: Area, a: Area, hooked: set<Ptr>, m: Ptr)
    requires Pristine(a0) && HookInv(a0, a, hooked) && m in a0.records
    ensures HookInv(a0, Hook(a, m), hooked + {m})
  {
    if m in hooked {
      assert Saved(a0, a, m);
      assert hooked + {m} == hooked;
    } else {
      HookKeepsCopies(a0, a, hooked, m);
      var a', now := Hook(a, m), hooked + {m};
      forall p | p in now
        ensures Saved(a0, a', p)
      {
        HookKeepsEach(a0, a, hooked, m, p);
      }
      forall p | p in a0.records && p !in now
        ensures Untouched(a0, a', p)
      {
        HookKeepsEach(a0, a, hooked, m, p);
      }
      HookKeepsDistinct(a0, a, hooked, m);
    }
  }

  lemma HookKeepsDistinct(a0: Area, a: Area, hooked: set<Ptr>, m: Ptr)
    requires Pristine(a0) && HookInv(a0, a, hooked) && m in a0.records && m !in hooked
    ensures forall p | p in hooked + {m} :: p in Hook(a, m).records
    ensures forall p, q | p in hooked + {m} && q in hooked + {m} && p != q ::
              Hook(a, m).records[p].insns != Hook(a, m).records[q].insns
  {
    forall p | p in hooked + {m}
      ensures p in Hook(a, m).records
    {
      HookKeepsEach(a0, a, hooked, m, p);
    }
    forall p, q | p in hooked + {m} && q in hooked + {m} && p != q
      ensures Hook(a, m).records[p].insns != Hook(a, m).records[q].insns
    {
      HookKeepsEach(a0, a, hooked, m, p);
      HookKeepsEach(a0, a, hooked, m, q);
    }
  }

  /** Being hooked is being in the set, and no saved copy is ever hooked. */
  lemma HookedAre(a0: Area, a: Area, hooked: set<Ptr>, p: Ptr)
    requires Pristine(a0) && HookInv(a0, a, hooked)
    ensures p in a.records && MethodIsHooked(a.records[p]) <==> p in hooked
    ensures p in a0.records ==> p in a.records
  {
    if p in hooked {
      assert Saved(a0, a, p);
    } else if p in a0.records {
      assert Untouched(a0, a, p);
    }
  }

  lemma {:induction false} HookAllInv(a0: Area, a: Area, hooked: set<Ptr>, ms: seq<Ptr>)
    requires Pristine(a0) && HookInv(a0, a, hooked) && forall m | m in ms :: m in a0.records
    ensures HookInv(a0, HookAll(a, ms), hooked + Members(ms))
    decreases |ms|
  {
    if ms == [] {
      assert hooked + Members(ms) == hooked;
    } else {
      assert ms[0] in ms;
      HookKeepsInv(a0, a, hooked, ms[0]);
      HookAllInv(a0, Hook(a, ms[0]), hooked + {ms[0]}, ms[1..]);
      MembersStep(hooked, ms);
    }
  }

  ghost function Members(ms: seq<Ptr>): set<Ptr> {
    set m | m in ms
  }

  lemma MembersStep(hooked: set<Ptr>, ms: seq<Ptr>)
    requires ms != []
    ensures hooked + {ms[0]} + Members(ms[1..]) == hooked + Members(ms)
  {
  }

  /** After any sequence of hooks: a method is hooked exactly when it is in the sequence;
      its original is the method as it was before its first hook, and is not hooked
      itself, so running the original never ends up in the handler; its frame is
      its arguments; all else, and all flags but ACC_NATIVE, is unchanged; and a hooked
      method no longer counts as bytecode. */
  lemma OriginalSurvives(a0: Area, ms: seq<Ptr>, p: Ptr)
    requires Pristine(a0) && (forall m | m in ms :: m in a0.records) && p in a0.records
    ensures var a := HookAll(a0, ms);
            && p in a.records
            && (MethodIsHooked(a.records[p]) <==> p in ms)
            && (p !in ms ==> a.records[p] == a0.records[p])
            && (p in ms ==>
                  && HasOriginal(a, p)
                  && Original(a, p) == a0.records[p]
                  && !MethodIsHooked(Original(a, p))
                  && a.records[p].insns !in a0.records
                  && !IsBytecodeMethod(a.records[p])
                  && a.records[p].shorty == a0.records[p].shorty
                  && a.records[p].prototype == a0.records[p].prototype
                  && a.records[p].registersSize == a.records[p].insSize == a0.records[p].insSize
                  && a.records[p].outsSize == 0
                  && a.records[p].clazz == a0.records[p].clazz
                  && a.records[p].methodIndex == a0.records[p].methodIndex
                  && a.records[p].name == a0.records[p].name
                  && (forall j: nat | j < 32 && j != 23 ::
                        a.records[p].accessFlags[j] == a0.records[p].accessFlags[j])
                  && (IsStaticMethod(a.records[p]) <==> IsStaticMethod(a0.records[p])))
  {
    PristineInv(a0);
    HookAllInv(a0, a0, {}, ms);
    var a := HookAll(a0, ms);
    assert {} + Members(ms) == Members(ms);
    if p in ms {
      assert p in Members(ms) && Saved(a0, a, p);
      RedirectedFlags(a0.records[p], a.records[p].insns);
    } else {
      assert p !in Members(ms) && Untouched(a0, a, p);
    }
  }

  /** The predicates ask for single bits: 0x8, and 0x100 and 0x400. */
  lemma FlagPredicates(m: Method)
    ensures IsStaticMethod(m) <==> m.accessFlags[28]
    ensures IsBytecodeMethod(m) <==> !m.accessFlags[23] && !m.accessFlags[21]
  {
    FlagBit(m.accessFlags, 28);
    var both := And(m.accessFlags, Or(ACC_NATIVE, ACC_ABSTRACT));
    if m.accessFlags[23] || m.accessFlags[21] {
      assert both[23] || both[21];
    } else {
      assert both == ZERO;
    }
  }

  lemma FlagBit(w: Word, i: nat)
    requires i < 32
    ensures And(w, Bit(i)) != ZERO <==> w[i]
  {
    if w[i] {
      assert And(w, Bit(i))[i];
    } else {
      assert And(w, Bit(i)) == ZERO;
    }
  }

  lemma RedirectedFlags(m: Method, hookInfo: Ptr)
    ensures !IsBytecodeMethod(Redirected(m, hookInfo))
    ensures IsStaticMethod(Redirected(m, hookInfo)) <==> IsStaticMethod(m)
    ensures forall j: nat | j < 32 && j != 23 :: Redirected(m, hookInfo).accessFlags[j] == m.accessFlags[j]
  {
    var flags := Or(m.accessFlags, ACC_NATIVE);
    assert And(flags, Or(ACC_NATIVE, ACC_ABSTRACT))[23];
    assert And(flags, ACC_STATIC) == And(m.accessFlags, ACC_STATIC);
  }

  // ----- As the program -----

  datatype Status = Done | IllegalArgument | NoSuchMethod

  class MethodArea {
    var records: map<Ptr, Method>
    var free: Ptr

    constructor (a: Area)
      ensures State() == a
    {
      records, free := a.records, a.free;
    }

    ghost function State(): Area
      reads this
    {
      Area(records, free)
    }

    /** hookMethod: "reflected" is the reflected method, NULL or not, and "method" what
        FromReflectedMethod makes of it. */
    method HookMethod(reflected: Ptr, method_: Ptr) returns (status: Status)
      requires AreaOk(State())
      modifies this
      ensures AreaOk(State())
      ensures status == if reflected == NULL then IllegalArgument
                        else if method_ !in old(records) then NoSuchMethod
                        else Done
      ensures State() == if status.Done? then Hook(old(State()), method_) else old(State())
    {
      if reflected == NULL {
        return IllegalArgument;
      }
      if method_ !in records {
        return NoSuchMethod;
      }
      if MethodIsHooked(records[method_]) {
        return Done;
      }
      // calloc and memcpy: the saved copy
      var hookInfo := free;
      free := free + 1;
      records := records[hookInfo := records[method_]];
      // overwrite the method, field by field
      records := records[method_ := records[method_].(nativeFunc := HANDLER)];
      records := records[method_ := records[method_].(insns := hookInfo)];
      records := records[method_ := records[method_].(registersSize := records[method_].insSize)];
      records := records[method_ := records[method_].(outsSize := 0)];
      records := records[method_ := records[method_].(accessFlags := Or(records[method_].accessFlags, ACC_NATIVE))];
      return Done;
    }

    /** The front half of methodHookHandler: the receiver and the boxed arguments that are
        passed on to Java. */
    method HandleArguments(m: Ptr, args: seq<u4>, room: bool) returns (thisObject: Ptr, boxed: array?<Boxed>)
      requires m in records && records[m].shorty != "" && ValidDescriptors(records[m].shorty[1..])
      requires |args| >= (if IsStaticMethod(records[m]) then 0 else 1) + ArgsSize(records[m].shorty[1..])
      ensures thisObject == if IsStaticMethod(records[m]) then NULL else args[0]
      ensures boxed == null <==> !room
      ensures boxed != null ==>
                && fresh(boxed)
                && boxed[..] == Boxes(Unmarshal(records[m].shorty[1..],
                                                args[if IsStaticMethod(records[m]) then 0 else 1..]))
    {
      thisObject := NULL;
      var argsIndex := 0;
      if !IsStaticMethod(records[m]) {
        thisObject := args[0];
        argsIndex := argsIndex + 1;
      }
      assert argsIndex == if IsStaticMethod(records[m]) then 0 else 1;
      var consumed;
      boxed, consumed := BoxMethodArgs(records[m].shorty, args[argsIndex..], room);
    }
  }

  /** A call of a hooked method delivers the caller's receiver and arguments, because
      hooking leaves the static flag and the shorty alone. */
  lemma HandlerSeesTheCall(a0: Area, ms: seq<Ptr>, p: Ptr, ret: char, receiver: u4, args: seq<Arg>)
    requires Pristine(a0) && (forall m | m in ms :: m in a0.records) && p in ms
    requires a0.records[p].shorty == [ret] + Descriptors(args)
    requires forall a | a in args :: ValidArg(a)
    ensures p in HookAll(a0, ms).records
    ensures var m := HookAll(a0, ms).records[p];
            var words := (if IsStaticMethod(a0.records[p]) then [] else [receiver]) + Layout(args);
            var first := if IsStaticMethod(m) then 0 else 1;
            && m.shorty != ""
            && |words| == first + ArgsSize(m.shorty[1..])
            && ValidDescriptors(m.shorty[1..])
            && (first == 1 ==> words[0] == receiver)
            && Boxes(Unmarshal(m.shorty[1..], words[first..])) == Boxes(args)
  {
    OriginalSurvives(a0, ms, p);
    UnmarshalLayout(args, []);
    assert ([ret] + Descriptors(args))[1..] == Descriptors(args);
    assert Layout(args) + [] == Layout(args);
    var words := (if IsStaticMethod(a0.records[p]) then [] else [receiver]) + Layout(args);
    assert words[if IsStaticMethod(a0.records[p]) then 0 else 1..] == Layout(args);
  }
}
