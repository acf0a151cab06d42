/**
 The Java side of hooking (src/com/catfish/undercover/HookManager.java and
 HookedMethod.java): one cached HookedMethod per key, shared by nested dispatches.

 A HookedMethod is created once per key and never replaced, so a key stands for it.
 Methods are the addresses of their records; callbacks are references, NULL or not.
 */
module HookManagers {
  import opened MethodHook

  type Callback = nat

  // ----- Keys -----

  /** A java.lang.reflect.Type: a plain class or array class, or one of the generic kinds. */
  datatype JavaType =
    | Class(name: string)
    | Parameterized(raw: string, arguments: seq<JavaType>)
    | TypeVariable(name: string)
    | GenericArray(component: JavaType)
    | Wildcard(bounds: seq<JavaType>)

  /** The names of the platform's classes that implement the generic kinds. */
  datatype Platform = Platform(parameterized: string, typeVariable: string, genericArray: string, wildcard: string)

  const CLASS_NAME: string := "java.lang.Class"

  /** t.getClass().getName(): the implementing class, whatever type it stands for. */
  function ImplName(p: Platform, t: JavaType): string {
    match t
    case Class(_) => CLASS_NAME
    case Parameterized(_, _) => p.parameterized
    case TypeVariable(_) => p.typeVariable
    case GenericArray(_) => p.genericArray
    case Wildcard(_) => p.wildcard
  }

  function ImplNames(p: Platform, ts: seq<JavaType>): (names: seq<string>)
    ensures |names| == |ts| && forall i | 0 <= i < |ts| :: names[i] == ImplName(p, ts[i])
  {
    if ts == [] then [] else [ImplName(p, ts[0])] + ImplNames(p, ts[1..])
  }

  /** What tells methods apart, as far as reflection goes. */
  datatype Signature = Signature(declaringClass: string, name: string, params: seq<JavaType>, result: JavaType)

  /** The first n of the names, each with a colon behind it. */
  function Prefixed(names: seq<string>, n: nat): string
    requires n <= |names|
  {
    if n == 0 then "" else Prefixed(names, n - 1) + names[n - 1] + ":"
  }

  function Key(p: Platform, s: Signature): string {
    s.declaringClass + ":" + s.name + ":" + Prefixed(ImplNames(p, s.params), |s.params|) + ImplName(p, s.result)
  }

  /** generateKey: the buffer is appended to in a loop. */
  method GenerateKey(p: Platform, s: Signature) returns (key: string)
    ensures key == Key(p, s)
  {
    var sb := s.declaringClass;
    sb := sb + ":";
    sb := sb + s.name;
    sb := sb + ":";
    var front := sb;
    for i := 0 to |s.params|
      invariant sb == front + Prefixed(ImplNames(p, s.params), i)
    {
      sb := sb + ImplName(p, s.params[i]);
      sb := sb + ":";
    }
    sb := sb + ImplName(p, s.result);
    assert sb == Key(p, s);
    key := sb;
  }

  predicate NoColon(s: string) {
    forall i | 0 <= i < |s| :: s[i] != ':'
  }

  predicate NoColons(names: seq<string>) {
    forall n | n in names :: NoColon(n)
  }

  /** The parts a key is made of. */
  function Parts(p: Platform, s: Signature): seq<string> {
    [s.declaringClass, s.name] + ImplNames(p, s.params) + [ImplName(p, s.result)]
  }

  function Joined(parts: seq<string>): string
    requires parts != []
  {
    if |parts| == 1 then parts[0] else parts[0] + ":" + Joined(parts[1..])
  }

  /** The first colon ends the first part. */
  lemma FirstColon(x: string, r: string)
    requires NoColon(x)
    ensures (x + ":" + r)[|x|] == ':'
    ensures forall i | 0 <= i < |x| :: (x + ":" + r)[i] != ':'
    ensures (x + ":" + r)[..|x|] == x && (x + ":" + r)[|x| + 1..] == r
  {
  }

  lemma SplitAtColon(x: string, r: string, y: string, q: string)
    requires NoColon(x) && NoColon(y) && x + ":" + r == y + ":" + q
    ensures x == y && r == q
  {
    FirstColon(x, r);
    FirstColon(y, q);
  }

  lemma SinglePart(parts: seq<string>)
    requires parts != [] && NoColon(parts[0])
    ensures NoColon(Joined(parts)) <==> |parts| == 1
  {
    if |parts| > 1 {
      FirstColon(parts[0], Joined(parts[1..]));
    }
  }

  /** Parts without a colon can be told from their joined string. */
  lemma {:induction false} JoinedIsInjective(a: seq<string>, b: seq<string>)
    requires a != [] && b != [] && NoColons(a) && NoColons(b)
    requires Joined(a) == Joined(b)
    ensures a == b
    decreases |a|
  {
    assert NoColon(a[0]) && NoColon(b[0]);
    SinglePart(a);
    SinglePart(b);
    assert a == [a[0]] + a[1..] && b == [b[0]] + b[1..];
    if |a| > 1 {
      SplitAtColon(a[0], Joined(a[1..]), b[0], Joined(b[1..]));
      JoinedIsInjective(a[1..], b[1..]);
    }
  }

  lemma Regroup(a: string, b: string, c: string, d: string)
    ensures a + (b + c + d) == a + b + c + d
  {
  }

  lemma {:induction false} PrefixedCons(x: string, names: seq<string>, all: seq<string>, n: nat)
    requires n <= |names| && all == [x] + names
    ensures Prefixed(all, n + 1) == x + ":" + Prefixed(names, n)
    decreases n
  {
    if n == 0 {
      assert Prefixed(all, 0) == "";
    } else {
      PrefixedCons(x, names, all, n - 1);
      assert Prefixed(all, n + 1) == Prefixed(all, n) + all[n] + ":" && all[n] == names[n - 1];
      assert Prefixed(names, n) == Prefixed(names, n - 1) + names[n - 1] + ":";
      Regroup(x + ":", Prefixed(names, n - 1), names[n - 1], ":");
    }
  }

  lemma {:induction false} PrefixedIsJoined(names: seq<string>, last: string)
    ensures Prefixed(names, |names|) + last == Joined(names + [last])
    decreases |names|
  {
    if names == [] {
      assert names + [last] == [last];
    } else {
      PrefixedIsJoined(names[1..], last);
      PrefixedCons(names[0], names[1..], names, |names| - 1);
      assert (names + [last])[1..] == names[1..] + [last];
    }
  }

  lemma KeyIsJoined(p: Platform, s: Signature)
    ensures Key(p, s) == Joined(Parts(p, s))
  {
    var names, last := ImplNames(p, s.params), ImplName(p, s.result);
    var named := [s.name] + names;
    var all := [s.declaringClass] + named;
    PrefixedCons(s.name, names, named, |names|);
    PrefixedCons(s.declaringClass, named, all, |named|);
    Regroup(s.declaringClass + ":", s.name, ":", Prefixed(names, |names|));
    PrefixedIsJoined(all, last);
    assert Parts(p, s) == all + [last];
  }

  /** Exactly which methods share a key, when no name contains a colon: those of the same
      class, name and arity whose types are pairwise implemented by the same classes. */
  lemma KeyIsExact(p: Platform, s: Signature, t: Signature)
    requires NoColons(Parts(p, s)) && NoColons(Parts(p, t))
    ensures Key(p, s) == Key(p, t) <==>
            && s.declaringClass == t.declaringClass && s.name == t.name
            && |s.params| == |t.params|
            && (forall i | 0 <= i < |s.params| :: ImplName(p, s.params[i]) == ImplName(p, t.params[i]))
            && ImplName(p, s.result) == ImplName(p, t.result)
  {
    KeyIsJoined(p, s);
    KeyIsJoined(p, t);
    var a, b := Parts(p, s), Parts(p, t);
    if Key(p, s) == Key(p, t) {
      JoinedIsInjective(a, b);
      assert a[0] == b[0] && a[1] == b[1] && a[|a| - 1] == b[|b| - 1];
      forall i | 0 <= i < |s.params|
        ensures ImplName(p, s.params[i]) == ImplName(p, t.params[i])
      {
        assert a[i + 2] == b[i + 2];
      }
    }
    if |s.params| == |t.params| &&
       forall i | 0 <= i < |s.params| :: ImplName(p, s.params[i]) == ImplName(p, t.params[i])
    {
      assert ImplNames(p, s.params) == ImplNames(p, t.params);
    }
  }

  /** The five implementing classes are different ones. */
  predicate DistinctNames(p: Platform) {
    && p.parameterized != CLASS_NAME && p.typeVariable != CLASS_NAME
    && p.genericArray != CLASS_NAME && p.wildcard != CLASS_NAME
    && p.parameterized != p.typeVariable && p.parameterized != p.genericArray && p.parameterized != p.wildcard
    && p.typeVariable != p.genericArray && p.typeVariable != p.wildcard
    && p.genericArray != p.wildcard
  }

  /** Then equal implementing classes mean types of the same sort, whatever the types. */
  lemma ImplNameIsSort(p: Platform, t: JavaType, u: JavaType)
    requires DistinctNames(p)
    ensures ImplName(p, t) == ImplName(p, u) <==>
            && (t.Class? <==> u.Class?) && (t.Parameterized? <==> u.Parameterized?)
            && (t.TypeVariable? <==> u.TypeVariable?) && (t.GenericArray? <==> u.GenericArray?)
            && (t.Wildcard? <==> u.Wildcard?)
    ensures t.Class? ==> ImplName(p, t) == "java.lang.Class"
  {
  }

  /** Two methods f(String) and f(Integer) of one class: different methods, one key. */
  lemma OverloadsShareKeys(p: Platform, declaringClass: string, result: JavaType) returns (s: Signature, t: Signature)
    ensures s.declaringClass == t.declaringClass == declaringClass
    ensures s.name == t.name == "f" && s.result == t.result == result
    ensures s.params == [Class("java.lang.String")] && t.params == [Class("java.lang.Integer")]
    ensures s != t && Key(p, s) == Key(p, t)
  {
    s := Signature(declaringClass, "f", [Class("java.lang.String")], result);
    t := Signature(declaringClass, "f", [Class("java.lang.Integer")], result);
    assert |"java.lang.String"| == 16 && |"java.lang.Integer"| == 17;
    assert s.params[0] != t.params[0];
    assert ImplNames(p, s.params) == ImplNames(p, t.params);
  }

  // ----- State -----

  /** The fields of a HookedMethod. */
  datatype Hooked = Hooked(mMethod: Ptr, mCallback: Callback)

  /** A dispatch in progress: the method that was called, and the key of the HookedMethod
      its callback was handed. */
  datatype Frame = Frame(m: Ptr, key: string)

  /** "frames" is the stack of dispatches whose callback is running, innermost last. */
  datatype Manager = Manager(area: Area, cache: map<string, Hooked>, frames: seq<Frame>)

  datatype Event =
    | SetMethodHooked(m: Ptr, callback: Callback)
    | Dispatch(m: Ptr)       // a natively hooked method is called: handleHookedMethod
    | Leave                  // the innermost callback returns or throws

  type Keys = Ptr -> string

  /** setMethodHooked. */
  function SetHooked(keys: Keys, s: Manager, m: Ptr, callback: Callback): Manager {
    if callback == NULL then s
    else
      var key := keys(m);
      if key in s.cache then
        s.(cache := s.cache[key := s.cache[key].(mCallback := callback)])
      else
        s.(area := Hook(s.area, m), cache := s.cache[key := Hooked(NULL, callback)])
  }

  /** handleHookedMethod up to the call of the callback. Only a method whose record leads
      to the native handler ever gets here. */
  function Enter(keys: Keys, s: Manager, m: Ptr): Manager {
    if m in s.area.records && MethodIsHooked(s.area.records[m]) && keys(m) in s.cache then
      s.(cache := s.cache[keys(m) := s.cache[keys(m)].(mMethod := m)],
         frames := s.frames + [Frame(m, keys(m))])
    else s
  }

  function Step(keys: Keys, s: Manager, e: Event): Manager {
    match e
    case SetMethodHooked(m, cb) => if m in s.area.records then SetHooked(keys, s, m, cb) else s
    case Dispatch(m) => Enter(keys, s, m)
    case Leave => if s.frames == [] then s else s.(frames := s.frames[..|s.frames| - 1])
  }

  function Exec(keys: Keys, s: Manager, es: seq<Event>): Manager
    decreases |es|
  {
    if es == [] then s else Exec(keys, Step(keys, s, es[0]), es[1..])
  }

  /** HookedMethod.invoke, called from the innermost callback: the method whose original
      is run. */
  function InvokeTarget(s: Manager): Ptr
    requires s.frames != []
  {
    var key := s.frames[|s.frames| - 1].key;
    if key in s.cache then s.cache[key].mMethod else NULL
  }

  // ----- The invariant -----

  ghost predicate IsHooked(s: Manager, m: Ptr) {
    m in s.area.records && MethodIsHooked(s.area.records[m])
  }

  /** One natively hooked method for every cached key, and the reverse. */
  ghost predicate OnePerKey(keys: Keys, cached: set<string>, hooked: set<Ptr>) {
    && (forall m | m in hooked :: keys(m) in cached)
    && (forall m, n | m in hooked && n in hooked && keys(m) == keys(n) :: m == n)
    && (forall k | k in cached :: exists m :: m in hooked && keys(m) == k)
  }

  lemma OneMoreKey(keys: Keys, cached: set<string>, hooked: set<Ptr>, m: Ptr)
    requires OnePerKey(keys, cached, hooked) && keys(m) !in cached
    ensures OnePerKey(keys, cached + {keys(m)}, hooked + {m})
  {
    forall k | k in cached + {keys(m)}
      ensures exists p :: p in hooked + {m} && keys(p) == k
    {
      if k in cached {
        var p :| p in hooked && keys(p) == k;
        assert p in hooked + {m};
      } else {
        assert m in hooked + {m};
      }
    }
  }

  ghost predicate FrameOk(keys: Keys, cache: map<string, Hooked>, hooked: set<Ptr>, f: Frame) {
    && f.m in hooked
    && f.key == keys(f.m)
    && f.key in cache
    && cache[f.key].mMethod == f.m
  }

  ghost predicate FramesOk(keys: Keys, cache: map<string, Hooked>, hooked: set<Ptr>, frames: seq<Frame>) {
    forall f | f in frames :: FrameOk(keys, cache, hooked, f)
  }

  ghost predicate CallbacksSet(cache: map<string, Hooked>) {
    forall k | k in cache :: cache[k].mCallback != NULL
  }

  /** "hooked" are the methods hookMethodNative has redirected. */
  ghost predicate Inv(keys: Keys, a0: Area, s: Manager, hooked: set<Ptr>) {
    && Pristine(a0)
    && HookInv(a0, s.area, hooked)
    && OnePerKey(keys, s.cache.Keys, hooked)
    && CallbacksSet(s.cache)
    && FramesOk(keys, s.cache, hooked, s.frames)
  }

  /** Events name the VM's own methods, never a saved copy. */
  ghost predicate Real(a0: Area, e: Event) {
    !e.Leave? ==> e.m in a0.records
  }

  const NOBODY: set<Ptr> := {}

  function Start(a0: Area): Manager {
    Manager(a0, map[], [])
  }

  lemma StartInv(keys: Keys, a0: Area)
    requires Pristine(a0)
    ensures Inv(keys, a0, Start(a0), NOBODY)
  {
    PristineInv(a0);
  }

  /** The methods hooked after an event. */
  ghost function HookedBy(keys: Keys, s: Manager, hooked: set<Ptr>, e: Event): set<Ptr> {
    if e.SetMethodHooked? && e.callback != NULL && keys(e.m) !in s.cache then hooked + {e.m} else hooked
  }

  lemma NewCallbackKeepsInv(keys: Keys, cache: map<string, Hooked>, hooked: set<Ptr>, frames: seq<Frame>,
                            key: string, cb: Callback)
    requires CallbacksSet(cache) && FramesOk(keys, cache, hooked, frames)
    requires key in cache && cb != NULL
    ensures var cache' := cache[key := cache[key].(mCallback := cb)];
            cache'.Keys == cache.Keys && CallbacksSet(cache') && FramesOk(keys, cache', hooked, frames)
  {
    var cache' := cache[key := cache[key].(mCallback := cb)];
    forall f | f in frames
      ensures FrameOk(keys, cache', hooked, f)
    {
      assert FrameOk(keys, cache, hooked, f);
    }
  }

  lemma NewEntryKeepsInv(keys: Keys, cache: map<string, Hooked>, hooked: set<Ptr>, frames: seq<Frame>,
                         m: Ptr, cb: Callback)
    requires CallbacksSet(cache) && FramesOk(keys, cache, hooked, frames)
    requires keys(m) !in cache && cb != NULL
    ensures var cache' := cache[keys(m) := Hooked(NULL, cb)];
            && cache'.Keys == cache.Keys + {keys(m)}
            && CallbacksSet(cache') && FramesOk(keys, cache', hooked + {m}, frames)
  {
    var cache' := cache[keys(m) := Hooked(NULL, cb)];
    forall f | f in frames
      ensures FrameOk(keys, cache', hooked + {m}, f)
    {
      assert FrameOk(keys, cache, hooked, f);
    }
  }

  lemma SetKeepsInv(keys: Keys, a0: Area, s: Manager, hooked: set<Ptr>, m: Ptr, cb: Callback)
    requires Inv(keys, a0, s, hooked) && m in a0.records
    ensures Inv(keys, a0, SetHooked(keys, s, m, cb), HookedBy(keys, s, hooked, SetMethodHooked(m, cb)))
  {
    if cb != NULL {
      if keys(m) in s.cache {
        NewCallbackKeepsInv(keys, s.cache, hooked, s.frames, keys(m), cb);
      } else {
        assert m !in hooked;
        HookKeepsInv(a0, s.area, hooked, m);
        OneMoreKey(keys, s.cache.Keys, hooked, m);
        NewEntryKeepsInv(keys, s.cache, hooked, s.frames, m, cb);
      }
    }
  }

  lemma EnterKeepsInv(keys: Keys, a0: Area, s: Manager, hooked: set<Ptr>, m: Ptr)
    requires Inv(keys, a0, s, hooked)
    ensures Inv(keys, a0, Enter(keys, s, m), hooked)
  {
    var s' := Enter(keys, s, m);
    if s' != s {
      HookedAre(a0, s.area, hooked, m);
      assert s'.cache.Keys == s.cache.Keys;
      forall f | f in s'.frames
        ensures FrameOk(keys, s'.cache, hooked, f)
      {
        if f in s.frames {
          assert FrameOk(keys, s.cache, hooked, f);
        }
      }
    }
  }

  lemma StepInv(keys: Keys, a0: Area, s: Manager, hooked: set<Ptr>, e: Event)
    requires Inv(keys, a0, s, hooked) && Real(a0, e)
    ensures Inv(keys, a0, Step(keys, s, e), HookedBy(keys, s, hooked, e))
  {
    match e
    case SetMethodHooked(m, cb) =>
      HookedAre(a0, s.area, hooked, m);
      SetKeepsInv(keys, a0, s, hooked, m, cb);
    case Dispatch(m) =>
      EnterKeepsInv(keys, a0, s, hooked, m);
    case Leave =>
      assert forall f | f in Step(keys, s, e).frames :: f in s.frames;
  }

  lemma {:induction false} ExecInv(keys: Keys, a0: Area, s: Manager, hooked: set<Ptr>, es: seq<Event>)
    returns (after: set<Ptr>)
    requires Inv(keys, a0, s, hooked) && forall e | e in es :: Real(a0, e)
    ensures Inv(keys, a0, Exec(keys, s, es), after)
    decreases |es|
  {
    after := hooked;
    if es != [] {
      assert es[0] in es;
      StepInv(keys, a0, s, hooked, es[0]);
      after := ExecInv(keys, a0, Step(keys, s, es[0]), HookedBy(keys, s, hooked, es[0]), es[1..]);
    }
  }

  // ----- What every run keeps -----

  function CallbackOf(cache: map<string, Hooked>, key: string): Callback {
    if key in cache then cache[key].mCallback else NULL
  }

  /** The last non-null callback that events set for a key. */
  function LastCallback(keys: Keys, start: Callback, es: seq<Event>, key: string): Callback
    decreases |es|
  {
    if es == [] then start
    else
      LastCallback(keys,
                   if es[0].SetMethodHooked? && es[0].callback != NULL && keys(es[0].m) == key
                   then es[0].callback else start,
                   es[1..], key)
  }

  lemma StepCallback(keys: Keys, a0: Area, s: Manager, hooked: set<Ptr>, e: Event, key: string)
    requires Inv(keys, a0, s, hooked) && Real(a0, e)
    ensures CallbackOf(Step(keys, s, e).cache, key) ==
            if e.SetMethodHooked? && e.callback != NULL && keys(e.m) == key then e.callback
            else CallbackOf(s.cache, key)
  {
    if e.SetMethodHooked? {
      HookedAre(a0, s.area, hooked, e.m);
    }
  }

  /** getHookedCallback answers with the last non-null callback set for the key. */
  lemma {:induction false} CallbackIsLastSet(keys: Keys, a0: Area, s: Manager, hooked: set<Ptr>,
                                             es: seq<Event>, key: string)
    requires Inv(keys, a0, s, hooked) && forall e | e in es :: Real(a0, e)
    ensures CallbackOf(Exec(keys, s, es).cache, key) == LastCallback(keys, CallbackOf(s.cache, key), es, key)
    decreases |es|
  {
    if es != [] {
      assert es[0] in es;
      StepInv(keys, a0, s, hooked, es[0]);
      StepCallback(keys, a0, s, hooked, es[0], key);
      CallbackIsLastSet(keys, a0, Step(keys, s, es[0]), HookedBy(keys, s, hooked, es[0]), es[1..], key);
    }
  }

  lemma FrameFacts(keys: Keys, a0: Area, es: seq<Event>, f: Frame)
    requires Pristine(a0) && forall e | e in es :: Real(a0, e)
    requires f in Exec(keys, Start(a0), es).frames
    ensures var s := Exec(keys, Start(a0), es);
            && f.key in s.cache && s.cache[f.key].mMethod == f.m
            && f.m in a0.records && HasOriginal(s.area, f.m)
            && Original(s.area, f.m) == a0.records[f.m] && !MethodIsHooked(a0.records[f.m])
  {
    StartInv(keys, a0);
    var hooked := ExecInv(keys, a0, Start(a0), NOBODY, es);
    var s := Exec(keys, Start(a0), es);
    assert FrameOk(keys, s.cache, hooked, f);
    assert Saved(a0, s.area, f.m);
  }

  /** In every run, wherever a callback calls invoke on the HookedMethod it was handed, in
      whatever nesting of dispatches: the method invoked is the one being dispatched, and
      what runs is that method as it was before its first hook, not the handler. */
  lemma InvokeRunsTheOriginal(keys: Keys, a0: Area, es: seq<Event>)
    requires Pristine(a0) && forall e | e in es :: Real(a0, e)
    ensures var s := Exec(keys, Start(a0), es);
            s.frames != [] ==>
              var m := InvokeTarget(s);
              && m == s.frames[|s.frames| - 1].m
              && m in a0.records
              && HasOriginal(s.area, m)
              && Original(s.area, m) == a0.records[m]
              && !MethodIsHooked(Original(s.area, m))
  {
    var s := Exec(keys, Start(a0), es);
    if s.frames != [] {
      FrameFacts(keys, a0, es, s.frames[|s.frames| - 1]);
    }
  }

  /** In every run exactly one method is natively hooked for each key that has a callback,
      and none for any other key. */
  lemma OneHookPerKey(keys: Keys, a0: Area, es: seq<Event>, key: string)
    requires Pristine(a0) && forall e | e in es :: Real(a0, e)
    ensures var s := Exec(keys, Start(a0), es);
            && (LastCallback(keys, NULL, es, key) != NULL <==> exists m :: IsHooked(s, m) && keys(m) == key)
            && (forall m, n | IsHooked(s, m) && IsHooked(s, n) && keys(m) == key && keys(n) == key :: m == n)
  {
    StartInv(keys, a0);
    var hooked := ExecInv(keys, a0, Start(a0), NOBODY, es);
    CallbackIsLastSet(keys, a0, Start(a0), NOBODY, es, key);
    var s := Exec(keys, Start(a0), es);
    forall m
      ensures IsHooked(s, m) <==> m in hooked
    {
      HookedAre(a0, s.area, hooked, m);
    }
    if key in s.cache {
      var m :| m in hooked && keys(m) == key;
      assert IsHooked(s, m);
    }
  }

  /** m is the method of the first event that sets a non-null callback for its key. */
  predicate IsFirst(keys: Keys, es: seq<Event>, m: Ptr)
    decreases |es|
  {
    es != [] &&
    if es[0].SetMethodHooked? && es[0].callback != NULL && keys(es[0].m) == keys(m) then es[0].m == m
    else IsFirst(keys, es[1..], m)
  }

  lemma HookedIs(keys: Keys, a0: Area, s: Manager, hooked: set<Ptr>, m: Ptr)
    requires Inv(keys, a0, s, hooked)
    ensures IsHooked(s, m) <==> m in hooked
    ensures CallbackOf(s.cache, keys(m)) == NULL <==> keys(m) !in s.cache
    ensures m in hooked ==> keys(m) in s.cache
  {
    HookedAre(a0, s.area, hooked, m);
  }

  /** One call of setMethodHooked hooks its method exactly when the key had no callback,
      which getHookedCallback tells, or the method was hooked before. */
  lemma SetHooksItsMethod(keys: Keys, a0: Area, s: Manager, hooked: set<Ptr>, m: Ptr, cb: Callback)
    requires Inv(keys, a0, s, hooked) && m in a0.records && cb != NULL
    ensures IsHooked(SetHooked(keys, s, m, cb), m) <==> CallbackOf(s.cache, keys(m)) == NULL || IsHooked(s, m)
  {
    HookedIs(keys, a0, s, hooked, m);
    SetKeepsInv(keys, a0, s, hooked, m, cb);
    HookedIs(keys, a0, SetHooked(keys, s, m, cb), HookedBy(keys, s, hooked, SetMethodHooked(m, cb)), m);
  }

  lemma StepHooks(keys: Keys, a0: Area, s: Manager, hooked: set<Ptr>, e: Event, m: Ptr)
    requires Inv(keys, a0, s, hooked) && Real(a0, e)
    ensures IsHooked(Step(keys, s, e), m) <==>
            || IsHooked(s, m)
            || (e.SetMethodHooked? && e.callback != NULL && e.m == m && CallbackOf(s.cache, keys(m)) == NULL)
  {
    StepInv(keys, a0, s, hooked, e);
    HookedIs(keys, a0, s, hooked, m);
    HookedIs(keys, a0, Step(keys, s, e), HookedBy(keys, s, hooked, e), m);
  }

  lemma {:induction false} HookedFrom(keys: Keys, a0: Area, s: Manager, hooked: set<Ptr>, es: seq<Event>, m: Ptr)
    requires Inv(keys, a0, s, hooked) && forall e | e in es :: Real(a0, e)
    ensures IsHooked(Exec(keys, s, es), m) <==>
            IsHooked(s, m) || (CallbackOf(s.cache, keys(m)) == NULL && IsFirst(keys, es, m))
    decreases |es|
  {
    if es != [] {
      assert es[0] in es;
      StepInv(keys, a0, s, hooked, es[0]);
      StepHooks(keys, a0, s, hooked, es[0], m);
      StepCallback(keys, a0, s, hooked, es[0], keys(m));
      HookedFrom(keys, a0, Step(keys, s, es[0]), HookedBy(keys, s, hooked, es[0]), es[1..], m);
    }
  }

  /** In every run a method is natively hooked exactly when it is the first one a non-null
      callback was set for under its key. */
  lemma FirstOfKeyIsHooked(keys: Keys, a0: Area, es: seq<Event>, m: Ptr)
    requires Pristine(a0) && forall e | e in es :: Real(a0, e)
    ensures IsHooked(Exec(keys, Start(a0), es), m) <==> IsFirst(keys, es, m)
  {
    StartInv(keys, a0);
    HookedFrom(keys, a0, Start(a0), NOBODY, es, m);
    HookedAre(a0, a0, NOBODY, m);
  }

  /** Overloads that share a key, in any state: setting a callback for one of them while
      the other is hooked replaces the other's callback and hooks nothing. */
  lemma OverloadStealsCallback(keys: Keys, a0: Area, s: Manager, hooked: set<Ptr>, m: Ptr, n: Ptr, cb: Callback)
    requires Inv(keys, a0, s, hooked) && n in a0.records && cb != NULL
    requires IsHooked(s, m) && m != n && keys(m) == keys(n)
    ensures var s' := SetHooked(keys, s, n, cb);
            && s'.area == s.area && IsHooked(s', m) && !IsHooked(s', n)
            && CallbackOf(s'.cache, keys(m)) == cb
  {
    HookedAre(a0, s.area, hooked, m);
    HookedAre(a0, s.area, hooked, n);
  }

  // ----- How a dispatch ends -----

  /** How the callback ended. handleHookedMethod catches an Exception, no other Throwable. */
  datatype CallbackEnd = Returned | ThrewException | ThrewOther

  datatype Answer = OfCallback | OfOriginal(record: Method) | Thrown

  /** The rest of handleHookedMethod, with the area as the callback left it. */
  function Finish(a: Area, m: Ptr, callback: Callback, end: CallbackEnd): Answer
    requires HasOriginal(a, m)
  {
    if callback == NULL || end.ThrewException? then OfOriginal(Original(a, m))
    else if end.Returned? then OfCallback
    else Thrown
  }

  /** In every run, for each dispatch on the stack and whatever the callbacks inside it did:
      the answer is the callback's, or if that failed with an exception the original's. */
  lemma FallbackRunsTheOriginal(keys: Keys, a0: Area, es: seq<Event>, f: Frame, callback: Callback, end: CallbackEnd)
    requires Pristine(a0) && forall e | e in es :: Real(a0, e)
    requires f in Exec(keys, Start(a0), es).frames
    ensures f.m in a0.records && HasOriginal(Exec(keys, Start(a0), es).area, f.m)
    ensures Finish(Exec(keys, Start(a0), es).area, f.m, callback, end)
            == if callback != NULL && end.Returned? then OfCallback
               else if callback != NULL && end.ThrewOther? then Thrown
               else OfOriginal(a0.records[f.m])
  {
    FrameFacts(keys, a0, es, f);
  }

  // ----- As the program -----

  class HookedMethod {
    var mMethod: Ptr
    var mCallback: Callback

    constructor (callback: Callback)
      ensures mMethod == NULL && mCallback == callback
    {
      mMethod := NULL;
      mCallback := callback;
    }
  }

  class HookManager {
    const area: MethodArea
    var sMethodCache: map<string, HookedMethod>

    constructor (area: MethodArea)
      ensures this.area == area && sMethodCache == map[]
    {
      this.area := area;
      sMethodCache := map[];
    }

    /** Distinct keys have distinct HookedMethods. */
    ghost predicate Valid()
      reads this
    {
      forall j, k | j in sMethodCache && k in sMethodCache && j != k :: sMethodCache[j] != sMethodCache[k]
    }

    ghost function Footprint(): set<object>
      reads this
    {
      sMethodCache.Values
    }

    ghost function Cache(): map<string, Hooked>
      reads this, Footprint()
    {
      map k | k in sMethodCache :: Hooked(sMethodCache[k].mMethod, sMethodCache[k].mCallback)
    }

    ghost function State(frames: seq<Frame>): Manager
      reads this, area, Footprint()
    {
      Manager(area.State(), Cache(), frames)
    }

    /** setMethodHooked. "reflected" is the java.lang.reflect.Method object. */
    method SetMethodHooked(hookMethod: Ptr, reflected: Ptr, key: string, callback: Callback, ghost keys: Keys)
      requires Valid() && AreaOk(area.State()) && hookMethod in area.records && reflected != NULL
      requires key == keys(hookMethod)
      modifies this, area, Footprint()
      ensures Valid() && AreaOk(area.State())
      ensures forall frames :: State(frames) == SetHooked(keys, old(State(frames)), hookMethod, callback)
    {
      if callback == NULL {
        return;
      }
      if key in sMethodCache {
        var fake := sMethodCache[key];
        fake.mCallback := callback;
        return;
      }
      var status := area.HookMethod(reflected, hookMethod);
      var entry := new HookedMethod(callback);
      sMethodCache := sMethodCache[key := entry];
    }

    /** getHookedCallback. */
    method GetHookedCallback(key: string) returns (callback: Callback)
      ensures callback == CallbackOf(Cache(), key)
    {
      if key in sMethodCache {
        return sMethodCache[key].mCallback;
      }
      return NULL;
    }

    /** handleHookedMethod behind the callback: its answer, or that of the original of the
        method the dispatch was for, whatever mMethod has become. */
    method FinishDispatch(m: Ptr, callback: Callback, end: CallbackEnd) returns (answer: Answer)
      requires HasOriginal(area.State(), m)
      ensures answer == Finish(area.State(), m, callback, end)
    {
      if callback != NULL {
        match end
        case Returned => return OfCallback;
        case ThrewOther => return Thrown;
        case ThrewException =>
      }
      answer := OfOriginal(area.records[area.records[m].insns]);
    }

    /** handleHookedMethod up to the call of the callback: the callback to call, or NULL
        when the original is run at once. */
    method HandleHookedMethod(m: Ptr, key: string, ghost keys: Keys) returns (callback: Callback)
      requires Valid() && key == keys(m) && m in area.records && MethodIsHooked(area.records[m])
      modifies Footprint()
      ensures Valid()
      ensures callback == CallbackOf(old(Cache()), key)
      ensures forall frames ::
                State(if key in sMethodCache then frames + [Frame(m, key)] else frames)
                == Enter(keys, old(State(frames)), m)
    {
      if key in sMethodCache {
        var hookedMethod := sMethodCache[key];
        hookedMethod.mMethod := m;
        return hookedMethod.mCallback;
      }
      return NULL;
    }
  }
}
