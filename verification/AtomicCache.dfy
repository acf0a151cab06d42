/**
 The mutex-free two-key cache (jni/hook/AtomicCache.h).

 ATOMIC_CACHE_LOOKUP is cut into its loads and stores, one shared access per step, and
 any number of threads interleave those steps. The body of dvmUpdateAtomicCache is not
 in the repository: it is modelled from the header comment. An updater claims the entry
 atomically, and only when the version it first read is even and still in place; it then
 stores the three fields in any order and increments the version again.

 Memory holds the version as an unsigned 32-bit word. "bumps" is the number of
 increments an entry has seen; the word in memory is that number modulo 2^32, and the
 code only ever compares words. Where the wrap-around matters is part of the theorems.
 */
module AtomicCache {
  import opened Words

  const WRAP: nat := 0x1_0000_0000

  /** One entry: AtomicCacheEntry. */
  datatype Entry = Entry(key1: Word, key2: Word, value: Word, bumps: nat)

  function Version(bumps: nat): nat {
    bumps % WRAP
  }

  /** The function the cache speeds up, and the number of entries minus one. */
  datatype Config = Config(compute: (Word, Word) -> Word, mask: Word)

  datatype Field = KEY1 | KEY2 | VALUE

  const FIELDS: set<Field> := {KEY1, KEY2, VALUE}

  /** Where a thread stands in the macro. "first" and "last" are the increments the entry
      had seen at its two version loads; the thread itself holds Version(first). */
  datatype Thread =
    | Idle
    | LoadVersion(key1: Word, key2: Word)
    | LoadKey1(key1: Word, key2: Word, first: nat)
    | LoadKey2(key1: Word, key2: Word, first: nat)
    | LoadValue(key1: Word, key2: Word, first: nat)
    | LoadVersionAgain(key1: Word, key2: Word, first: nat, value: Word)
    | Miss(key1: Word, key2: Word, first: nat)
    | Claim(key1: Word, key2: Word, first: nat, value: Word)
    | Fill(key1: Word, key2: Word, value: Word, done: set<Field>)
    | Finished(key1: Word, key2: Word, value: Word, hit: bool, first: nat, last: nat)
  {
    predicate Active() {
      !Idle?
    }

    predicate Reading() {
      LoadKey1? || LoadKey2? || LoadValue? || LoadVersionAgain? || Miss? || Claim?
    }
  }

  datatype State = State(entries: seq<Entry>, threads: map<nat, Thread>) {
    function Thread(t: nat): Thread {
      if t in threads then threads[t] else Idle
    }
  }

  // ----- The hash function -----

  function ShiftRight2(w: Word): Word {
    [false, false] + w[..30]
  }

  function Xor(a: Word, b: Word): Word {
    seq(32, j requires 0 <= j < 32 => a[j] != b[j])
  }

  lemma {:induction false} PrefixAnd(a: Word, b: Word, k: nat)
    requires k <= 32
    ensures Prefix(And(a, b), k) <= Prefix(b, k)
  {
    if k > 0 {
      PrefixAnd(a, b, k - 1);
    }
  }

  /** The masked hash is always an index of the entry array. */
  function Index(c: Config, key1: Word, key2: Word): (i: nat)
    ensures i <= Value(c.mask)
  {
    PrefixAnd(Xor(ShiftRight2(key1), key2), c.mask, 32);
    Value(And(Xor(ShiftRight2(key1), key2), c.mask))
  }

  /** The index bit by bit: (key1 >> 2) ^ key2, masked; bit j counts from the high end. */
  lemma IndexBits(c: Config, key1: Word, key2: Word) returns (w: Word)
    ensures Index(c, key1, key2) == Value(w)
    ensures forall j: nat | j < 32 :: w[j] <==> c.mask[j] && ((j >= 2 && key1[j - 2]) != key2[j])
  {
    w := And(Xor(ShiftRight2(key1), key2), c.mask);
  }

  // ----- Steps -----

  const EMPTY: Entry := Entry(ZERO, ZERO, ZERO, 0)

  function Initial(c: Config): State {
    State(seq(Value(c.mask) + 1, _ => EMPTY), map[])
  }

  /** One step of a thread on the entry its keys select. "f" picks which field an
      updater stores next. */
  function Advance(c: Config, th: Thread, e: Entry, f: Field): (Thread, Entry) {
    match th
    case Idle => (th, e)
    case Finished(_, _, _, _, _, _) => (th, e)
    case LoadVersion(k1, k2) => (LoadKey1(k1, k2, e.bumps), e)
    case LoadKey1(k1, k2, first) =>
      (if e.key1 == k1 then LoadKey2(k1, k2, first) else Miss(k1, k2, first), e)
    case LoadKey2(k1, k2, first) =>
      (if e.key2 == k2 then LoadValue(k1, k2, first) else Miss(k1, k2, first), e)
    case LoadValue(k1, k2, first) =>
      (LoadVersionAgain(k1, k2, first, e.value), e)
    case LoadVersionAgain(k1, k2, first, v) =>
      if Version(first) % 2 != 0 || Version(first) != Version(e.bumps) then
        (Finished(k1, k2, c.compute(k1, k2), false, first, e.bumps), e)
      else
        (Finished(k1, k2, v, true, first, e.bumps), e)
    case Miss(k1, k2, first) =>
      (Claim(k1, k2, first, c.compute(k1, k2)), e)
    case Claim(k1, k2, first, v) =>
      if Version(first) % 2 == 0 && Version(e.bumps) == Version(first) then
        (Fill(k1, k2, v, {}), e.(bumps := e.bumps + 1))
      else
        (Finished(k1, k2, v, false, first, e.bumps), e)
    case Fill(k1, k2, v, done) =>
      if done == FIELDS then
        (Finished(k1, k2, v, false, e.bumps, e.bumps + 1), e.(bumps := e.bumps + 1))
      else if f in done then
        (th, e)
      else
        (Fill(k1, k2, v, done + {f}),
         match f
         case KEY1 => e.(key1 := k1)
         case KEY2 => e.(key2 := k2)
         case VALUE => e.(value := v))
  }

  datatype Action =
    | Call(t: nat, key1: Word, key2: Word)
    | Run(t: nat, f: Field)

  /** One step of the whole system; a thread in the middle of a lookup ignores a call. */
  function Step(c: Config, s: State, a: Action): (r: State)
    requires |s.entries| == Value(c.mask) + 1
    ensures |r.entries| == |s.entries|
  {
    match a
    case Call(t, k1, k2) =>
      if s.Thread(t).Idle? || s.Thread(t).Finished? then
        s.(threads := s.threads[t := LoadVersion(k1, k2)])
      else
        s
    case Run(t, f) =>
      var th := s.Thread(t);
      if th.Idle? then
        s
      else
        var i := Index(c, th.key1, th.key2);
        var (th', e') := Advance(c, th, s.entries[i], f);
        State(s.entries[i := e'], s.threads[t := th'])
  }

  function Exec(c: Config, s: State, acts: seq<Action>): (r: State)
    requires |s.entries| == Value(c.mask) + 1
    ensures |r.entries| == Value(c.mask) + 1
    decreases |acts|
  {
    if acts == [] then s else Exec(c, Step(c, s, acts[0]), acts[1..])
  }

  // ----- The invariant -----

  /** Nobody is writing: the entry is untouched or its value is that of its keys. */
  predicate Settled(c: Config, e: Entry) {
    e == EMPTY || e.value == c.compute(e.key1, e.key2)
  }

  ghost predicate Owns(c: Config, s: State, t: nat, i: nat) {
    t in s.threads && s.threads[t].Fill? && Index(c, s.threads[t].key1, s.threads[t].key2) == i
  }

  ghost predicate EntryOk(c: Config, s: State, i: nat)
    requires i < |s.entries|
  {
    if s.entries[i].bumps % 2 == 0 then Settled(c, s.entries[i]) else exists t :: Owns(c, s, t, i)
  }

  /** What a thread may rely on, given the entry its keys select. */
  predicate ThreadOk(c: Config, th: Thread, e: Entry) {
    && (th.Reading() ==> th.first <= e.bumps)
    && (th.Reading() && th.first == e.bumps && e.bumps % 2 == 0 ==>
          && (th.LoadKey2? ==> e.key1 == th.key1)
          && (th.LoadValue? ==> e.key1 == th.key1 && e.key2 == th.key2)
          && (th.LoadVersionAgain? ==> e.key1 == th.key1 && e.key2 == th.key2 && e.value == th.value))
    && (th.Claim? || th.Fill? ==> th.value == c.compute(th.key1, th.key2))
    && (th.Fill? ==>
          && e.bumps % 2 == 1
          && (KEY1 in th.done ==> e.key1 == th.key1)
          && (KEY2 in th.done ==> e.key2 == th.key2)
          && (VALUE in th.done ==> e.value == th.value))
    && (th.Finished? ==>
          && th.first <= th.last
          && (!th.hit || (th.last - th.first < WRAP && Sound(c, th.key1, th.key2)) ==>
                th.value == c.compute(th.key1, th.key2)))
  }

  /** A zeroed entry reads as "keys 0 and 0, value 0": that had better be true. */
  predicate Sound(c: Config, key1: Word, key2: Word) {
    key1 == ZERO && key2 == ZERO ==> c.compute(key1, key2) == ZERO
  }

  ghost predicate ThreadInv(c: Config, s: State, th: Thread)
    requires |s.entries| == Value(c.mask) + 1
  {
    th.Active() ==>
      && Index(c, th.key1, th.key2) < |s.entries|
      && ThreadOk(c, th, s.entries[Index(c, th.key1, th.key2)])
  }

  ghost predicate Inv(c: Config, s: State) {
    && |s.entries| == Value(c.mask) + 1
    && (forall i: nat | i < |s.entries| :: EntryOk(c, s, i))
    && (forall t | t in s.threads :: ThreadInv(c, s, s.threads[t]))
    && (forall t, u, i | Owns(c, s, t, i) && Owns(c, s, u, i) :: t == u)
  }

  lemma InitialInv(c: Config)
    ensures Inv(c, Initial(c))
  {
  }

  /** An odd version stays odd as a word: 2^32 is even. */
  lemma VersionParity(bumps: nat)
    ensures Version(bumps) % 2 == bumps % 2
  {
  }

  /** Fewer than 2^32 increments apart, equal words mean equal counts. */
  lemma VersionInjective(m: nat, n: nat)
    requires m <= n < m + WRAP && Version(m) == Version(n)
    ensures m == n
  {
  }

  lemma LookupEndsWell(c: Config, th: Thread, e: Entry, f: Field)
    requires th.LoadVersionAgain? && ThreadOk(c, th, e)
    requires e.bumps % 2 == 0 ==> Settled(c, e)
    ensures ThreadOk(c, Advance(c, th, e, f).0, Advance(c, th, e, f).1)
  {
    VersionParity(th.first);
    if Version(th.first) == Version(e.bumps) && e.bumps - th.first < WRAP {
      VersionInjective(th.first, e.bumps);
    }
  }

  /** The thread that steps keeps its own part of the invariant. */
  lemma AdvanceThread(c: Config, th: Thread, e: Entry, f: Field)
    requires th.Active() && ThreadOk(c, th, e)
    requires e.bumps % 2 == 0 ==> Settled(c, e)
    ensures ThreadOk(c, Advance(c, th, e, f).0, Advance(c, th, e, f).1)
  {
    if th.LoadVersionAgain? {
      LookupEndsWell(c, th, e, f);
    }
  }

  /** The other threads on the entry keep theirs, unless they own it too. */
  lemma AdvanceOther(c: Config, th: Thread, e: Entry, f: Field, other: Thread)
    requires th.Active() && ThreadOk(c, th, e) && ThreadOk(c, other, e)
    requires !(th.Fill? && other.Fill?)
    ensures ThreadOk(c, other, Advance(c, th, e, f).1)
  {
    if th.Claim? {
      VersionParity(th.first);
      VersionParity(e.bumps);
    }
  }

  lemma AdvanceEntry(c: Config, th: Thread, e: Entry, f: Field)
    requires th.Active() && ThreadOk(c, th, e)
    requires e.bumps % 2 == 0 ==> Settled(c, e)
    ensures var (th', e') := Advance(c, th, e, f);
            && e.bumps <= e'.bumps
            && (e'.bumps % 2 == 0 ==> Settled(c, e'))
            && (e != e' ==> (if th.Fill? then e.bumps % 2 == 1 else th'.Fill? && e.bumps % 2 == 0))
            && (th'.Fill? <==> if th.Fill? then e'.bumps == e.bumps else e'.bumps == e.bumps + 1)
  {
    if th.Claim? {
      VersionParity(th.first);
      VersionParity(e.bumps);
    }
  }

  lemma RunKeepsThreads(c: Config, s: State, t: nat, f: Field)
    requires Inv(c, s) && s.Thread(t).Active()
    ensures var s' := Step(c, s, Run(t, f));
            forall u | u in s'.threads :: ThreadInv(c, s', s'.threads[u])
  {
    var s' := Step(c, s, Run(t, f));
    var th := s.threads[t];
    var i := Index(c, th.key1, th.key2);
    assert ThreadInv(c, s, th);
    assert EntryOk(c, s, i);
    AdvanceThread(c, th, s.entries[i], f);
    forall u | u in s'.threads && u != t && s.threads[u].Active()
      ensures ThreadInv(c, s', s'.threads[u])
    {
      var other := s.threads[u];
      assert ThreadInv(c, s, other);
      if Index(c, other.key1, other.key2) == i {
        assert !(Owns(c, s, t, i) && Owns(c, s, u, i));
        AdvanceOther(c, th, s.entries[i], f, other);
      }
    }
  }

  /** Nobody can own an entry beside the thread that has just stepped and owns it. */
  lemma SoleOwner(c: Config, s: State, t: nat, f: Field, u: nat)
    requires Inv(c, s) && s.Thread(t).Active() && u != t
    requires ThreadInv(c, s, s.threads[t])
    requires Advance(c, s.threads[t], s.entries[Index(c, s.threads[t].key1, s.threads[t].key2)], f).0.Fill?
    ensures !Owns(c, s, u, Index(c, s.threads[t].key1, s.threads[t].key2))
  {
    var th := s.threads[t];
    var i := Index(c, th.key1, th.key2);
    assert ThreadInv(c, s, th) && EntryOk(c, s, i);
    if Owns(c, s, u, i) {
      assert ThreadInv(c, s, s.threads[u]);
      assert th.Fill? ==> Owns(c, s, t, i);
      AdvanceEntry(c, th, s.entries[i], f);
    }
  }

  lemma RunKeepsEntries(c: Config, s: State, t: nat, f: Field)
    requires Inv(c, s) && s.Thread(t).Active()
    ensures var s' := Step(c, s, Run(t, f));
            && (forall j: nat | j < |s'.entries| :: EntryOk(c, s', j))
            && (forall u, v, j | Owns(c, s', u, j) && Owns(c, s', v, j) :: u == v)
  {
    var s' := Step(c, s, Run(t, f));
    var th := s.threads[t];
    var i := Index(c, th.key1, th.key2);
    assert ThreadInv(c, s, th);
    assert EntryOk(c, s, i);
    AdvanceEntry(c, th, s.entries[i], f);
    assert forall u, j | u != t :: Owns(c, s', u, j) <==> Owns(c, s, u, j);
    forall j: nat | j < |s'.entries|
      ensures EntryOk(c, s', j)
    {
      assert EntryOk(c, s, j);
      if s'.entries[j].bumps % 2 == 1 {
        if j == i && (th.Fill? || s'.threads[t].Fill?) {
          assert Owns(c, s', t, i);
        } else {
          var u :| Owns(c, s, u, j);
          assert Owns(c, s', u, j);
        }
      }
    }
    forall u, v, j | Owns(c, s', u, j) && Owns(c, s', v, j)
      ensures u == v
    {
      if u != t && v == t {
        SoleOwner(c, s, t, f, u);
      } else if u == t && v != t {
        SoleOwner(c, s, t, f, v);
      }
    }
  }

  lemma StepInv(c: Config, s: State, a: Action)
    requires Inv(c, s)
    ensures Inv(c, Step(c, s, a))
  {
    match a
    case Call(t, k1, k2) =>
      var s' := Step(c, s, a);
      if s' != s {
        assert forall u, j :: Owns(c, s', u, j) <==> Owns(c, s, u, j);
        forall j: nat | j < |s'.entries|
          ensures EntryOk(c, s', j)
        {
          assert EntryOk(c, s, j);
        }
      }
    case Run(t, f) =>
      if s.Thread(t).Active() {
        RunKeepsThreads(c, s, t, f);
        RunKeepsEntries(c, s, t, f);
      }
  }

  /** The invariant holds in every interleaving: at most one updater owns an entry, the
      version is odd exactly while one does, and otherwise the entry is untouched or its
      value is the one computed for its keys. */
  lemma {:induction false} ExecInv(c: Config, s: State, acts: seq<Action>)
    requires Inv(c, s)
    ensures Inv(c, Exec(c, s, acts))
    decreases |acts|
  {
    if acts != [] {
      StepInv(c, s, acts[0]);
      ExecInv(c, Step(c, s, acts[0]), acts[1..]);
    }
  }

  // ----- Lookups agree with the computation -----

  /** In every run, every completed lookup with these keys whose two version loads lie
      fewer than "bound" increments apart returned the computed value. */
  ghost predicate TransparentWithin(c: Config, key1: Word, key2: Word, bound: nat) {
    forall acts: seq<Action>, t: nat | Answers(c, acts, t, key1, key2, bound) ::
      Exec(c, Initial(c), acts).threads[t].value == c.compute(key1, key2)
  }

  /** ... as long as the entry was updated fewer than 2^31 times during the lookup. */
  ghost predicate Transparent(c: Config, key1: Word, key2: Word) {
    TransparentWithin(c, key1, key2, WRAP)
  }

  ghost predicate Answers(c: Config, acts: seq<Action>, t: nat, key1: Word, key2: Word, bound: nat) {
    var s := Exec(c, Initial(c), acts);
    && t in s.threads
    && s.threads[t].Finished?
    && s.threads[t].key1 == key1
    && s.threads[t].key2 == key2
    && s.threads[t].last < s.threads[t].first + bound
  }

  lemma RunInv(c: Config, acts: seq<Action>)
    ensures Inv(c, Exec(c, Initial(c), acts))
  {
    InitialInv(c);
    ExecInv(c, Initial(c), acts);
  }

  /** A first lookup of the two zero keys hits the zeroed entry and answers zero. */
  lemma ZeroKeysHit(c: Config) returns (acts: seq<Action>)
    ensures Answers(c, acts, 0, ZERO, ZERO, WRAP)
    ensures Exec(c, Initial(c), acts).threads[0].value == ZERO
    ensures Exec(c, Initial(c), acts).threads[0].hit && |acts| == 6
  {
    var s0 := Initial(c);
    acts := [Call(0, ZERO, ZERO)];
    var s1 := Step(c, s0, acts[0]);
    assert Exec(c, s0, acts) == s1 by {
      assert acts[1..] == [];
    }
    while |acts| < 6
      invariant 1 <= |acts| <= 6
      invariant var s := Exec(c, s0, acts);
                && s.entries == s0.entries
                && 0 in s.threads
                && s.threads[0] ==
                   match |acts|
                   case 1 => LoadVersion(ZERO, ZERO)
                   case 2 => LoadKey1(ZERO, ZERO, 0)
                   case 3 => LoadKey2(ZERO, ZERO, 0)
                   case 4 => LoadValue(ZERO, ZERO, 0)
                   case 5 => LoadVersionAgain(ZERO, ZERO, 0, ZERO)
                   case _ => Finished(ZERO, ZERO, ZERO, true, 0, 0)
    {
      ExecSnoc(c, s0, acts, Run(0, KEY1));
      acts := acts + [Run(0, KEY1)];
    }
  }

  lemma {:induction false} ExecSnoc(c: Config, s: State, acts: seq<Action>, a: Action)
    requires |s.entries| == Value(c.mask) + 1
    ensures Exec(c, s, acts + [a]) == Step(c, Exec(c, s, acts), a)
    decreases |acts|
  {
    if acts == [] {
      assert (acts + [a])[1..] == [];
    } else {
      assert (acts + [a])[1..] == acts[1..] + [a];
      ExecSnoc(c, Step(c, s, acts[0]), acts[1..], a);
    }
  }

  /** The cache is invisible to a caller exactly when the keys do not read as a zeroed
      entry, or zero happens to be their value. */
  lemma TransparentIffSound(c: Config, key1: Word, key2: Word)
    ensures Transparent(c, key1, key2) <==> Sound(c, key1, key2)
  {
    if Sound(c, key1, key2) {
      SoundIsTransparent(c, key1, key2, WRAP);
    } else {
      var acts := ZeroKeysHit(c);
    }
  }

  lemma SoundIsTransparent(c: Config, key1: Word, key2: Word, bound: nat)
    requires Sound(c, key1, key2) && bound <= WRAP
    ensures TransparentWithin(c, key1, key2, bound)
  {
    forall acts: seq<Action>, t: nat | Answers(c, acts, t, key1, key2, bound)
      ensures Exec(c, Initial(c), acts).threads[t].value == c.compute(key1, key2)
    {
      var s := Exec(c, Initial(c), acts);
      RunInv(c, acts);
      assert ThreadInv(c, s, s.threads[t]);
    }
  }

  // ----- The seqlock argument -----

  lemma StepMonotone(c: Config, s: State, a: Action, i: nat)
    requires Inv(c, s) && i < |s.entries|
    ensures var e := s.entries[i];
            var e' := Step(c, s, a).entries[i];
            && e.bumps <= e'.bumps
            && (e.bumps == e'.bumps && e.bumps % 2 == 0 ==> e == e')
  {
    if a.Run? && s.Thread(a.t).Active() {
      var th := s.threads[a.t];
      assert ThreadInv(c, s, th);
      assert EntryOk(c, s, Index(c, th.key1, th.key2));
      AdvanceEntry(c, th, s.entries[Index(c, th.key1, th.key2)], a.f);
    }
  }

  lemma {:induction false} ExecMonotone(c: Config, s: State, acts: seq<Action>, i: nat)
    requires Inv(c, s) && i < |s.entries|
    ensures s.entries[i].bumps <= Exec(c, s, acts).entries[i].bumps
    decreases |acts|
  {
    if acts != [] {
      StepMonotone(c, s, acts[0], i);
      StepInv(c, s, acts[0]);
      ExecMonotone(c, Step(c, s, acts[0]), acts[1..], i);
    }
  }

  /** Equal even versions around any stretch of a run: no store to the entry fell
      between, so its fields were constant throughout. */
  lemma {:induction false} QuietBetweenEqualVersions(c: Config, s: State, acts: seq<Action>, i: nat, n: nat)
    requires Inv(c, s) && i < |s.entries| && n <= |acts|
    requires s.entries[i].bumps % 2 == 0
    requires Exec(c, s, acts).entries[i].bumps < s.entries[i].bumps + WRAP
    requires Version(Exec(c, s, acts).entries[i].bumps) == Version(s.entries[i].bumps)
    ensures Exec(c, s, acts[..n]).entries[i] == s.entries[i]
    decreases |acts|
  {
    ExecMonotone(c, s, acts, i);
    VersionInjective(s.entries[i].bumps, Exec(c, s, acts).entries[i].bumps);
    if n > 0 {
      var s1 := Step(c, s, acts[0]);
      StepInv(c, s, acts[0]);
      StepMonotone(c, s, acts[0], i);
      ExecMonotone(c, s1, acts[1..], i);
      QuietBetweenEqualVersions(c, s1, acts[1..], i, n - 1);
      assert acts[..n][1..] == acts[1..][..n - 1];
    }
  }

  // ----- Which update an entry holds -----

  datatype Update = Update(key1: Word, key2: Word, value: Word)

  function Contents(e: Entry): Update {
    Update(e.key1, e.key2, e.value)
  }

  /** The action is an updater's last: it has stored all fields and releases entry i. */
  predicate Completes(c: Config, s: State, a: Action, i: nat) {
    && a.Run?
    && s.Thread(a.t).Fill? && s.Thread(a.t).done == FIELDS
    && Index(c, s.Thread(a.t).key1, s.Thread(a.t).key2) == i
  }

  /** What the update that an action completes was for. */
  function Completed(s: State, a: Action): Update
    requires a.Run? && s.Thread(a.t).Fill?
  {
    var th := s.Thread(a.t);
    Update(th.key1, th.key2, th.value)
  }

  /** The log of updates of an entry that a run completes, in order. */
  function Updates(c: Config, s: State, acts: seq<Action>, i: nat): seq<Update>
    requires |s.entries| == Value(c.mask) + 1
    decreases |acts|
  {
    if acts == [] then []
    else
      (if Completes(c, s, acts[0], i) then [Completed(s, acts[0])] else [])
      + Updates(c, Step(c, s, acts[0]), acts[1..], i)
  }

  function LastOf(start: Update, us: seq<Update>): Update {
    if us == [] then start else us[|us| - 1]
  }

  predicate ForEntry(c: Config, u: Update, i: nat) {
    Index(c, u.key1, u.key2) == i && u.value == c.compute(u.key1, u.key2)
  }

  lemma StepUpdates(c: Config, s: State, a: Action, i: nat)
    requires Inv(c, s) && i < |s.entries|
    ensures var e, e' := s.entries[i], Step(c, s, a).entries[i];
            if Completes(c, s, a, i) then
              && e'.bumps % 2 == 0 && e'.bumps / 2 == e.bumps / 2 + 1
              && Contents(e') == Completed(s, a) && ForEntry(c, Completed(s, a), i)
            else
              e'.bumps / 2 == e.bumps / 2 && (e'.bumps % 2 == 0 ==> e' == e)
  {
    if a.Run? && s.Thread(a.t).Active() {
      var th := s.threads[a.t];
      assert ThreadInv(c, s, th);
      if th.Claim? {
        VersionParity(th.first);
        VersionParity(s.entries[Index(c, th.key1, th.key2)].bumps);
      }
    }
  }

  lemma {:induction false} UpdatesFrom(c: Config, s: State, acts: seq<Action>, i: nat, start: Update)
    requires Inv(c, s) && i < |s.entries|
    requires s.entries[i].bumps % 2 == 0 ==> Contents(s.entries[i]) == start
    ensures var e, us := Exec(c, s, acts).entries[i], Updates(c, s, acts, i);
            && (e.bumps % 2 == 0 ==> Contents(e) == LastOf(start, us))
            && e.bumps / 2 == s.entries[i].bumps / 2 + |us|
            && forall u | u in us :: ForEntry(c, u, i)
    decreases |acts|
  {
    if acts != [] {
      StepUpdates(c, s, acts[0], i);
      StepInv(c, s, acts[0]);
      var next := if Completes(c, s, acts[0], i) then Completed(s, acts[0]) else start;
      UpdatesFrom(c, Step(c, s, acts[0]), acts[1..], i, next);
    }
  }

  /** In every interleaving an entry with an even version holds the keys and the value of
      the last update completed on it, all three of that one update, or zeroes if there
      was none; its version counts the updates twice. */
  lemma EntryHoldsLastUpdate(c: Config, acts: seq<Action>, i: nat)
    requires i <= Value(c.mask)
    ensures var e, us := Exec(c, Initial(c), acts).entries[i], Updates(c, Initial(c), acts, i);
            && (e.bumps % 2 == 0 ==> Contents(e) == LastOf(Update(ZERO, ZERO, ZERO), us))
            && e.bumps / 2 == |us|
            && forall u | u in us :: ForEntry(c, u, i)
  {
    InitialInv(c);
    UpdatesFrom(c, Initial(c), acts, i, Update(ZERO, ZERO, ZERO));
  }

  // ----- The window of 2^31 updates is exact -----

  lemma {:induction false} ExecAppend(c: Config, s: State, a: seq<Action>, b: seq<Action>)
    requires |s.entries| == Value(c.mask) + 1
    ensures Exec(c, s, a + b) == Exec(c, Exec(c, s, a), b)
    decreases |a|
  {
    if a == [] {
      assert a + b == b;
    } else {
      assert (a + b)[1..] == a[1..] + b;
      ExecAppend(c, Step(c, s, a[0]), a[1..], b);
    }
  }

  predicate Free(th: Thread) {
    th.Idle? || th.Finished?
  }

  ghost function InstallThread(c: Config, k1: Word, k2: Word, e: Entry, n: nat): Thread {
    var v := c.compute(k1, k2);
    match n
    case 0 => Idle
    case 1 => LoadVersion(k1, k2)
    case 2 => LoadKey1(k1, k2, e.bumps)
    case 3 => Miss(k1, k2, e.bumps)
    case 4 => Claim(k1, k2, e.bumps, v)
    case 5 => Fill(k1, k2, v, {})
    case 6 => Fill(k1, k2, v, {KEY1})
    case 7 => Fill(k1, k2, v, {KEY1, KEY2})
    case 8 => Fill(k1, k2, v, {KEY1, KEY2, VALUE})
    case _ => Finished(k1, k2, v, false, e.bumps + 1, e.bumps + 2)
  }

  ghost function InstallEntry(c: Config, k1: Word, k2: Word, e: Entry, n: nat): Entry {
    Entry(if n < 6 then e.key1 else k1,
          if n < 7 then e.key2 else k2,
          if n < 8 then e.value else c.compute(k1, k2),
          if n < 5 then e.bumps else if n < 9 then e.bumps + 1 else e.bumps + 2)
  }

  ghost function InstallAction(k1: Word, k2: Word, n: nat): Action {
    if n == 0 then Call(1, k1, k2)
    else Run(1, if n == 6 then KEY2 else if n == 7 then VALUE else KEY1)
  }

  ghost predicate Installing(c: Config, s: State, s': State, k1: Word, k2: Word, n: nat)
    requires |s.entries| == Value(c.mask) + 1
  {
    var i := Index(c, k1, k2);
    && s'.Thread(0) == s.Thread(0)
    && s'.Thread(1) == InstallThread(c, k1, k2, s.entries[i], n)
    && s'.entries == s.entries[i := InstallEntry(c, k1, k2, s.entries[i], n)]
  }

  lemma InstallStep(c: Config, s: State, s': State, k1: Word, k2: Word, n: nat)
    requires |s.entries| == Value(c.mask) + 1 && 1 <= n < 9
    requires var e := s.entries[Index(c, k1, k2)];
             e.bumps % 2 == 0 && e.key1 != k1
    requires Installing(c, s, s', k1, k2, n)
    ensures Installing(c, s, Step(c, s', InstallAction(k1, k2, n)), k1, k2, n + 1)
  {
    VersionParity(s.entries[Index(c, k1, k2)].bumps);
  }

  /** Thread 1 looks a pair of keys up alone and installs it. */
  lemma Install(c: Config, s: State, key1: Word, key2: Word) returns (acts: seq<Action>)
    requires |s.entries| == Value(c.mask) + 1 && Free(s.Thread(1))
    requires var e := s.entries[Index(c, key1, key2)];
             e.bumps % 2 == 0 && e.key1 != key1
    ensures var s' := Exec(c, s, acts);
            var i := Index(c, key1, key2);
            && s'.entries == s.entries[i := Entry(key1, key2, c.compute(key1, key2), s.entries[i].bumps + 2)]
            && Free(s'.Thread(1))
            && s'.Thread(0) == s.Thread(0)
  {
    var i := Index(c, key1, key2);
    var e := s.entries[i];
    acts := [InstallAction(key1, key2, 0)];
    assert acts[1..] == [];
    while |acts| < 9
      invariant 1 <= |acts| <= 9
      invariant Installing(c, s, Exec(c, s, acts), key1, key2, |acts|)
    {
      ExecSnoc(c, s, acts, InstallAction(key1, key2, |acts|));
      InstallStep(c, s, Exec(c, s, acts), key1, key2, |acts|);
      acts := acts + [InstallAction(key1, key2, |acts|)];
    }
  }


  /** n updates that alternate between two pairs of keys, starting with the first. */
  lemma {:induction false} Alternate(c: Config, s: State, k1: Word, k2: Word, j1: Word, j2: Word, n: nat)
    returns (acts: seq<Action>)
    requires |s.entries| == Value(c.mask) + 1 && Free(s.Thread(1))
    requires Index(c, k1, k2) == Index(c, j1, j2) && k1 != j1
    requires s.entries[Index(c, k1, k2)].bumps % 2 == 0
    requires s.entries[Index(c, k1, k2)].key1 == j1
    ensures var s' := Exec(c, s, acts);
            && s'.Thread(0) == s.Thread(0)
            && s'.entries[Index(c, k1, k2)].bumps == s.entries[Index(c, k1, k2)].bumps + 2 * n
    decreases n
  {
    if n == 0 {
      acts := [];
    } else {
      var first := Install(c, s, k1, k2);
      var rest := Alternate(c, Exec(c, s, first), j1, j2, k1, k2, n - 1);
      ExecAppend(c, s, first, rest);
      acts := first + rest;
    }
  }

  /** A run after which the entry of k holds k's own update. */
  lemma Warm(c: Config, k1: Word, k2: Word, j1: Word, j2: Word) returns (acts: seq<Action>)
    requires Index(c, k1, k2) == Index(c, j1, j2) && k1 != j1
    ensures var s := Exec(c, Initial(c), acts);
            && Free(s.Thread(1))
            && s.Thread(0) == Idle
            && s.entries[Index(c, k1, k2)].bumps % 2 == 0
            && s.entries[Index(c, k1, k2)].key1 == k1
            && s.entries[Index(c, k1, k2)].key2 == k2
  {
    var s := Initial(c);
    if k1 != ZERO {
      acts := Install(c, s, k1, k2);
    } else {
      var other := Install(c, s, j1, j2);
      var own := Install(c, Exec(c, s, other), k1, k2);
      ExecAppend(c, s, other, own);
      acts := other + own;
    }
  }

  /** Thread 0 looks k up and stops before it loads the value. */
  lemma Approach(c: Config, s: State, k1: Word, k2: Word) returns (acts: seq<Action>)
    requires |s.entries| == Value(c.mask) + 1 && s.Thread(0) == Idle
    requires s.entries[Index(c, k1, k2)].key1 == k1
    requires s.entries[Index(c, k1, k2)].key2 == k2
    ensures var s' := Exec(c, s, acts);
            && s'.Thread(0) == LoadValue(k1, k2, s.entries[Index(c, k1, k2)].bumps)
            && s'.entries == s.entries
            && s'.Thread(1) == s.Thread(1)
  {
    var run := Run(0, KEY1);
    acts := [Call(0, k1, k2)];
    assert acts[1..] == [];
    ExecSnoc(c, s, acts, run);
    ExecSnoc(c, s, acts + [run], run);
    ExecSnoc(c, s, acts + [run] + [run], run);
    acts := acts + [run] + [run] + [run];
  }

  /** Thread 0 stands before its second version load, holding the value of other keys
      that were installed under its feet. */
  lemma Straddle(c: Config, k1: Word, k2: Word, j1: Word, j2: Word)
    returns (acts: seq<Action>, first: nat)
    requires Index(c, k1, k2) == Index(c, j1, j2) && k1 != j1
    ensures var s := Exec(c, Initial(c), acts);
            var e := s.entries[Index(c, k1, k2)];
            && Free(s.Thread(1))
            && s.Thread(0) == LoadVersionAgain(k1, k2, first, c.compute(j1, j2))
            && e.bumps == first + 2 && e.key1 == j1 && first % 2 == 0
  {
    var s0 := Initial(c);
    var warm := Warm(c, k1, k2, j1, j2);
    var s1 := Exec(c, s0, warm);
    first := s1.entries[Index(c, k1, k2)].bumps;
    var approach := Approach(c, s1, k1, k2);
    ExecAppend(c, s0, warm, approach);
    acts := warm + approach;
    var other := Install(c, Exec(c, s0, acts), j1, j2);
    ExecAppend(c, s0, acts, other);
    acts := acts + other;
    ExecSnoc(c, s0, acts, Run(0, KEY1));
    acts := acts + [Run(0, KEY1)];
  }

  /** With exactly 2^31 updates inside one lookup the version words agree again, and the
      lookup hands out the value of other keys. */
  lemma WindowIsExact(c: Config, k1: Word, k2: Word, j1: Word, j2: Word) returns (acts: seq<Action>)
    requires Index(c, k1, k2) == Index(c, j1, j2) && k1 != j1
    ensures var th := Exec(c, Initial(c), acts).Thread(0);
            && th.Finished? && th.hit
            && th.key1 == k1 && th.key2 == k2
            && th.value == c.compute(j1, j2)
            && th.last == th.first + WRAP
  {
    var s0 := Initial(c);
    var before, first := Straddle(c, k1, k2, j1, j2);
    var rest := Alternate(c, Exec(c, s0, before), k1, k2, j1, j2, 0x7FFF_FFFF);
    ExecAppend(c, s0, before, rest);
    acts := before + rest;
    assert Exec(c, s0, acts).entries[Index(c, k1, k2)].bumps == first + WRAP;
    VersionParity(first);
    ExecSnoc(c, s0, acts, Run(0, KEY1));
    acts := acts + [Run(0, KEY1)];
  }

  /** Lookups may miss exactly so many increments, two for each update, before a cached
      value can go wrong: 2^32. */
  lemma WindowIffWrap(c: Config, k1: Word, k2: Word, j1: Word, j2: Word, bound: nat)
    requires Sound(c, k1, k2)
    requires Index(c, k1, k2) == Index(c, j1, j2) && k1 != j1 && c.compute(k1, k2) != c.compute(j1, j2)
    ensures TransparentWithin(c, k1, k2, bound) <==> bound <= WRAP
  {
    if bound <= WRAP {
      SoundIsTransparent(c, k1, k2, bound);
    } else {
      var acts := WindowIsExact(c, k1, k2, j1, j2);
      assert Answers(c, acts, 0, k1, k2, bound);
    }
  }

  // ----- One thread alone -----

  /** The macro as a program, run by one thread without interruption. Here an entry's
      "bumps" is the version word itself. */
  class Cache {
    const c: Config
    const entries: array<Entry>

    constructor (c: Config)
      ensures Valid() && fresh(entries) && this.c == c
      ensures entries[..] == Initial(c).entries
    {
      this.c := c;
      entries := new Entry[Value(c.mask) + 1](_ => EMPTY);
    }

    ghost predicate Valid()
      reads entries
    {
      && entries.Length == Value(c.mask) + 1
      && forall i: nat | i < entries.Length ::
           entries[i].bumps < WRAP && entries[i].bumps % 2 == 0 && Settled(c, entries[i])
    }

    /** ATOMIC_CACHE_LOOKUP. */
    method Lookup(key1: Word, key2: Word) returns (value: Word)
      requires Valid()
      modifies entries
      ensures Valid()
      ensures Sound(c, key1, key2) ==> value == c.compute(key1, key2)
      ensures var i := Index(c, key1, key2);
              var e := old(entries[i]);
              if e.key1 == key1 && e.key2 == key2 then
                value == e.value && entries[..] == old(entries[..])
              else
                entries[..] == old(entries[..])[i :=
                  Entry(key1, key2, c.compute(key1, key2), Version(e.bumps + 2))]
    {
      var hash := Index(c, key1, key2);
      var firstVersion := entries[hash].bumps;
      if entries[hash].key1 == key1 && entries[hash].key2 == key2 {
        value := entries[hash].value;
        var secondVersion := entries[hash].bumps;
        if firstVersion % 2 != 0 || firstVersion != secondVersion {
          value := c.compute(key1, key2);
        }
      } else {
        value := c.compute(key1, key2);
        Update(key1, key2, value, hash, firstVersion);
      }
    }

    /** dvmUpdateAtomicCache: nothing happens unless the entry can be claimed. */
    method Update(key1: Word, key2: Word, value: Word, hash: nat, firstVersion: nat)
      requires hash < entries.Length && entries[hash].bumps < WRAP
      modifies entries
      ensures entries[..] ==
              if firstVersion % 2 == 0 && old(entries[hash]).bumps == firstVersion then
                old(entries[..])[hash := Entry(key1, key2, value, Version(firstVersion + 2))]
              else
                old(entries[..])
    {
      if firstVersion % 2 == 0 && entries[hash].bumps == firstVersion {
        entries[hash] := entries[hash].(bumps := Version(firstVersion + 1));
        entries[hash] := entries[hash].(key1 := key1);
        entries[hash] := entries[hash].(key2 := key2);
        entries[hash] := entries[hash].(value := value);
        entries[hash] := entries[hash].(bumps := Version(firstVersion + 2));
      }
    }
  }
}
