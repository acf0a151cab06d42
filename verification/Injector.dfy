/**
 Calling functions in a traced process (jni/inject/ptrace.c, jni/inject/inject.c).

 The injector stops the target, pushes blocks of bytes below its stack pointer in whole
 words, sets argument registers, lets the target run into a fault and looks at the
 result. What the target does while it runs is a parameter, the Response. This is the
 Thumb build: a call returns to address 1, and the first stop is provoked at 0x11.
 */
module Injector {
  import opened Bits

  const SPACE := 0x1_0000_0000

  // ----- Memory and registers of the target -----

  /** "poked" are the addresses the injector has written so far. */
  datatype Memory = Memory(bytes: map<nat, u1>, poked: set<nat>)

  datatype Registers = Registers(r: seq<nat>, sp: nat, lr: nat, pc: nat, cpsr: nat, others: seq<nat>)

  datatype Target = Target(regs: Registers, memory: Memory)

  ghost predicate RegistersOk(regs: Registers) {
    |regs.r| == 4 && regs.sp < SPACE
  }

  function At(m: Memory, a: nat): u1 {
    if a in m.bytes then m.bytes[a] else 0
  }

  /** Addresses and differences of addresses have 32 bits. */
  function Wrap(a: nat): nat {
    if a < SPACE then a else a % SPACE
  }

  function Minus(a: nat, b: nat): nat {
    if b <= a then a - b else (a - b) % SPACE
  }

  /** Bytes stored one behind the other. */
  function Overlay(m: Memory, addr: nat, data: seq<u1>): Memory {
    if data == [] then m
    else
      var a := Wrap(addr + |data| - 1);
      var front := Overlay(m, addr, data[..|data| - 1]);
      Memory(front.bytes[a := data[|data| - 1]], front.poked + {a})
  }

  function ReadBytes(m: Memory, addr: nat, n: nat): (s: seq<u1>)
    ensures |s| == n
  {
    if n == 0 then [] else ReadBytes(m, addr, n - 1) + [At(m, Wrap(addr + n - 1))]
  }

  lemma {:induction false} OverlayAt(m: Memory, addr: nat, data: seq<u1>, a: nat)
    requires addr + |data| <= SPACE
    ensures At(Overlay(m, addr, data), a) == if addr <= a < addr + |data| then data[a - addr] else At(m, a)
    ensures a in Overlay(m, addr, data).poked <==> a in m.poked || addr <= a < addr + |data|
    decreases |data|
  {
    if data != [] {
      OverlayAt(m, addr, data[..|data| - 1], a);
    }
  }

  lemma {:induction false} OverlayAppend(m: Memory, addr: nat, s: seq<u1>, t: seq<u1>)
    ensures Overlay(Overlay(m, addr, s), addr + |s|, t) == Overlay(m, addr, s + t)
    decreases |t|
  {
    if t == [] {
      assert s + t == s;
    } else {
      OverlayAppend(m, addr, s, t[..|t| - 1]);
      assert (s + t)[..|s + t| - 1] == s + t[..|t| - 1];
    }
  }

  // ----- Pushing -----

  function RoundUp4(n: nat): nat {
    (n + 3) / 4 * 4
  }

  /** A block to push and the bytes that happen to lie behind it in the injector, which
      copying whole words picks up; or nothing. */
  datatype Item = Nothing | Push(bytes: seq<u1>, beyond: seq<u1>)

  predicate ItemOk(i: Item) {
    i.Push? ==> |i.bytes| + |i.beyond| >= RoundUp4(|i.bytes|)
  }

  predicate ItemsOk(items: seq<Item>) {
    forall i | i in items :: ItemOk(i)
  }

  /** What is written for a block. */
  function Padded(i: Item): (s: seq<u1>)
    requires ItemOk(i)
    ensures i.Push? ==> |s| == RoundUp4(|i.bytes|) && i.bytes <= s
  {
    if i.Push? then (i.bytes + i.beyond)[..RoundUp4(|i.bytes|)] else []
  }

  /** sp -= size; sp -= sp % 8, in 32 bits. */
  function PushSp(sp: nat, size: nat): nat {
    var s := Minus(sp, size);
    s - s % 8
  }

  function ItemSp(sp: nat, i: Item): nat {
    if i.Push? then PushSp(sp, |i.bytes|) else sp
  }

  /** The stack pointer before the first push and after each. */
  function Tops(sp: nat, items: seq<Item>): (tops: seq<nat>)
    ensures |tops| == |items| + 1 && tops[0] == sp
  {
    if items == [] then [sp]
    else
      var n := |items| - 1;
      var front := Tops(sp, items[..n]);
      front + [ItemSp(front[n], items[n])]
  }

  /** Memory after the first k pushes. */
  function MemoryAt(m: Memory, tops: seq<nat>, items: seq<Item>, k: nat): Memory
    requires k <= |items| < |tops| && ItemsOk(items)
  {
    if k == 0 then m
    else Overlay(MemoryAt(m, tops, items, k - 1), tops[k], Padded(items[k - 1]))
  }

  /** No push takes the stack pointer below zero. */
  predicate Fits(items: seq<Item>, tops: seq<nat>)
    requires |tops| > |items|
  {
    forall k | 0 <= k < |items| :: |Body(items[k])| <= tops[k]
  }

  function Body(i: Item): seq<u1> {
    if i.Push? then i.bytes else []
  }

  /** What the source demands of a caller, and of the stack pointer it starts from. */
  predicate Ready(sp: nat, items: seq<Item>) {
    sp % 4 == 0 && sp < SPACE && ItemsOk(items) && Fits(items, Tops(sp, items))
  }

  lemma PushBelow(sp: nat, size: nat)
    requires sp % 4 == 0 && size <= sp < SPACE
    ensures PushSp(sp, size) % 8 == 0
    ensures PushSp(sp, size) + RoundUp4(size) <= sp
  {
  }

  /** A block gets the highest double-word aligned place below the stack pointer. */
  lemma PushIsTight(sp: nat, size: nat, a: nat)
    requires size <= sp < SPACE
    ensures PushSp(sp, size) % 8 == 0 && PushSp(sp, size) + size <= sp
    ensures a % 8 == 0 && a + size <= sp ==> a <= PushSp(sp, size)
  {
  }

  /** All words written for a block are below the old stack pointer. */
  predicate StaysBelow(sp: nat, size: nat) {
    PushSp(sp, size) + RoundUp4(size) <= sp
  }

  /** A single push does exactly when the bytes lost to rounding the stack pointer cover
      the bytes gained by writing whole words. */
  lemma PushStaysBelow(sp: nat, size: nat)
    requires size <= sp < SPACE
    ensures StaysBelow(sp, size) <==> (sp - size) % 8 >= (4 - size % 4) % 4
  {
    assert PushSp(sp, size) == sp - size - (sp - size) % 8;
    assert RoundUp4(size) == size + (4 - size % 4) % 4;
  }

  lemma RoundingDown(sp: nat)
    requires sp < SPACE
    ensures PushSp(sp, sp % 8) == sp - sp % 8
  {
  }

  lemma RoundingUp(size: nat)
    requires size % 4 != 0
    ensures RoundUp4(size) > size
  {
  }

  lemma RemainderOfRemainder(sp: nat)
    ensures sp % 8 % 4 == sp % 4
  {
  }

  lemma Overruns(sp: nat, size: nat)
    requires PushSp(sp, size) + size == sp && RoundUp4(size) > size
    ensures !StaysBelow(sp, size)
  {
  }

  lemma UnalignedPushOverruns(sp: nat)
    requires sp % 4 != 0 && sp < SPACE
    ensures sp % 8 <= sp && !StaysBelow(sp, sp % 8)
  {
    RoundingDown(sp);
    RemainderOfRemainder(sp);
    RoundingUp(sp % 8);
    Overruns(sp, sp % 8);
  }

  lemma AlignedPushesStay(sp: nat)
    requires sp % 4 == 0 && sp < SPACE
    ensures forall size: nat | size <= sp :: StaysBelow(sp, size)
  {
    forall size: nat | size <= sp
      ensures StaysBelow(sp, size)
    {
      PushBelow(sp, size);
    }
  }

  /** Every push does, whatever its size, exactly when the stack pointer is word-aligned. */
  lemma WordAlignmentIsNeeded(sp: nat)
    requires sp < SPACE
    ensures sp % 4 == 0 <==> forall size: nat | size <= sp :: StaysBelow(sp, size)
  {
    if sp % 4 == 0 {
      AlignedPushesStay(sp);
    } else {
      UnalignedPushOverruns(sp);
    }
  }

  // ----- The layout of any sequence of pushes -----

  lemma {:induction false} TopsAt(sp: nat, items: seq<Item>, k: nat)
    requires k < |items|
    ensures Tops(sp, items)[k + 1] == ItemSp(Tops(sp, items)[k], items[k])
    decreases |items|
  {
    var n := |items| - 1;
    if k < n {
      TopsAt(sp, items[..n], k);
    }
  }

  predicate Aligned(a: nat) {
    a % 8 == 0
  }

  /** A push: the words of the block lie between the new and the old stack pointer. */
  predicate Rung(i: Item, hi: nat, lo: nat) {
    && ItemOk(i)
    && lo + |Padded(i)| <= hi
    && (if i.Push? then Aligned(lo) else lo == hi)
  }

  predicate Ladder(items: seq<Item>, tops: seq<nat>) {
    && |tops| == |items| + 1
    && (forall i | i in items :: ItemOk(i))
    && forall k | 0 <= k < |items| :: Rung(items[k], tops[k], tops[k + 1])
  }

  lemma ItemIsRung(sp: nat, i: Item)
    requires sp % 4 == 0 && sp < SPACE && ItemOk(i) && |Body(i)| <= sp
    ensures Rung(i, sp, ItemSp(sp, i)) && ItemSp(sp, i) % 4 == 0
  {
    if i.Push? {
      PushBelow(sp, |i.bytes|);
    }
  }

  lemma {:induction false} TopsAreWords(sp: nat, items: seq<Item>, tops: seq<nat>, k: nat)
    requires Ready(sp, items) && tops == Tops(sp, items) && k <= |items|
    ensures tops[k] % 4 == 0 && tops[k] <= sp
    ensures k > 0 ==> Rung(items[k - 1], tops[k - 1], tops[k])
    decreases k
  {
    if k > 0 {
      TopsAreWords(sp, items, tops, k - 1);
      TopsAt(sp, items, k - 1);
      assert items[k - 1] in items;
      ItemIsRung(tops[k - 1], items[k - 1]);
    }
  }

  lemma TopsAreLadder(sp: nat, items: seq<Item>)
    requires Ready(sp, items)
    ensures Ladder(items, Tops(sp, items))
  {
    var tops := Tops(sp, items);
    forall k | 0 <= k < |items|
      ensures Rung(items[k], tops[k], tops[k + 1])
    {
      TopsAreWords(sp, items, tops, k + 1);
    }
  }

  lemma {:induction false} LadderDescends(items: seq<Item>, tops: seq<nat>, j: nat, k: nat)
    requires Ladder(items, tops) && j <= k <= |items|
    ensures tops[k] <= tops[j]
    decreases k
  {
    if j < k {
      LadderDescends(items, tops, j, k - 1);
      assert Rung(items[k - 1], tops[k - 1], tops[k]);
    }
  }

  /** The words written for different blocks never overlap. */
  lemma BlocksAreDisjoint(sp: nat, items: seq<Item>, j: nat, k: nat)
    requires Ready(sp, items) && j < k < |items|
    ensures ItemOk(items[j]) && ItemOk(items[k])
    ensures var tops := Tops(sp, items);
            tops[k + 1] + |Padded(items[k])| <= tops[j + 1] <= tops[j + 1] + |Padded(items[j])| <= sp
  {
    TopsAreLadder(sp, items);
    LadderDescends(items, Tops(sp, items), j + 1, k);
    LadderDescends(items, Tops(sp, items), 0, j);
    assert Rung(items[j], Tops(sp, items)[j], Tops(sp, items)[j + 1]);
    assert Rung(items[k], Tops(sp, items)[k], Tops(sp, items)[k + 1]);
  }

  /** All of the bytes lie in memory from the address on. */
  ghost predicate Holds(m: Memory, addr: nat, bytes: seq<u1>) {
    forall i | 0 <= i < |bytes| :: At(m, addr + i) == bytes[i]
  }

  /** Memory differs, and has been written, between lo and hi only. */
  ghost predicate SameOutside(m: Memory, m': Memory, lo: nat, hi: nat) {
    && (forall a: nat | a < lo || hi <= a :: At(m', a) == At(m, a))
    && (forall a | a in m'.poked :: a in m.poked || lo <= a < hi)
  }

  lemma OverlayHolds(m: Memory, addr: nat, data: seq<u1>)
    requires addr + |data| <= SPACE
    ensures Holds(Overlay(m, addr, data), addr, data)
    ensures SameOutside(m, Overlay(m, addr, data), addr, addr + |data|)
  {
    forall a: nat
      ensures At(Overlay(m, addr, data), a) == if addr <= a < addr + |data| then data[a - addr] else At(m, a)
      ensures a in Overlay(m, addr, data).poked <==> a in m.poked || addr <= a < addr + |data|
    {
      OverlayAt(m, addr, data, a);
    }
  }

  lemma HoldsFrame(m: Memory, m': Memory, lo: nat, hi: nat, addr: nat, data: seq<u1>)
    requires SameOutside(m, m', lo, hi) && Holds(m, addr, data) && hi <= addr
    ensures Holds(m', addr, data)
  {
  }

  lemma ItemWrites(m: Memory, items: seq<Item>, tops: seq<nat>, k: nat)
    requires Ladder(items, tops) && tops[0] <= SPACE && k < |items|
    ensures ItemOk(items[k])
    ensures Holds(MemoryAt(m, tops, items, k + 1), tops[k + 1], Padded(items[k]))
  {
    LadderDescends(items, tops, 0, k);
    assert Rung(items[k], tops[k], tops[k + 1]);
    OverlayHolds(MemoryAt(m, tops, items, k), tops[k + 1], Padded(items[k]));
  }

  /** The byte at an address, and whether it was ever written. */
  function View(m: Memory, a: nat): (u1, bool) {
    (At(m, a), a in m.poked)
  }

  lemma ItemSpares(m: Memory, items: seq<Item>, tops: seq<nat>, k: nat, a: nat)
    requires Ladder(items, tops) && tops[0] <= SPACE && k < |items|
    requires a < tops[k + 1] || tops[k] <= a
    ensures View(MemoryAt(m, tops, items, k + 1), a) == View(MemoryAt(m, tops, items, k), a)
  {
    assert Rung(items[k], tops[k], tops[k + 1]);
    LadderDescends(items, tops, 0, k);
    OverlayAt(MemoryAt(m, tops, items, k), tops[k + 1], Padded(items[k]), a);
  }

  lemma {:induction false} PushesSpare(m: Memory, items: seq<Item>, tops: seq<nat>, j: nat, k: nat, a: nat)
    requires Ladder(items, tops) && tops[0] <= SPACE && j <= k <= |items|
    requires a < tops[k] || tops[j] <= a
    ensures View(MemoryAt(m, tops, items, k), a) == View(MemoryAt(m, tops, items, j), a)
    decreases k - j
  {
    if j < k {
      LadderDescends(items, tops, j, j + 1);
      LadderDescends(items, tops, j + 1, k);
      ItemSpares(m, items, tops, j, a);
      PushesSpare(m, items, tops, j + 1, k, a);
    }
  }

  /** Nothing is written outside the stack between the new and the old stack pointer. */
  lemma PushesStayBelow(m: Memory, items: seq<Item>, tops: seq<nat>, j: nat, k: nat)
    requires Ladder(items, tops) && tops[0] <= SPACE && j <= k <= |items|
    ensures SameOutside(MemoryAt(m, tops, items, j), MemoryAt(m, tops, items, k), tops[k], tops[j])
  {
    var before, after := MemoryAt(m, tops, items, j), MemoryAt(m, tops, items, k);
    forall a: nat | a < tops[k] || tops[j] <= a
      ensures At(after, a) == At(before, a)
      ensures a in after.poked <==> a in before.poked
    {
      PushesSpare(m, items, tops, j, k, a);
      assert View(after, a) == View(before, a);
    }
  }

  /** Every block is intact, with its padding, after all pushes. */
  lemma BlockIsIntact(m: Memory, items: seq<Item>, tops: seq<nat>, k: nat)
    requires Ladder(items, tops) && tops[0] <= SPACE && k < |items|
    ensures ItemOk(items[k])
    ensures Holds(MemoryAt(m, tops, items, |items|), tops[k + 1], Padded(items[k]))
  {
    ItemWrites(m, items, tops, k);
    PushesStayBelow(m, items, tops, k + 1, |items|);
    HoldsFrame(MemoryAt(m, tops, items, k + 1), MemoryAt(m, tops, items, |items|),
               tops[|items|], tops[k + 1], tops[k + 1], Padded(items[k]));
  }

  /** The stack pointer ends up double-word aligned exactly when something was pushed or
      it was so before. */
  lemma {:induction false} StackIsAligned(items: seq<Item>, tops: seq<nat>, k: nat)
    requires Ladder(items, tops) && k <= |items|
    ensures Aligned(tops[k]) <==> Aligned(tops[0]) || exists j :: 0 <= j < k && items[j].Push?
    decreases k
  {
    if k > 0 {
      StackIsAligned(items, tops, k - 1);
      assert Rung(items[k - 1], tops[k - 1], tops[k]);
    }
  }

  // ----- Arguments of a call -----

  datatype Arg =
    | PatInt(i: nat)
    | PatStr(s: seq<u1>, afterStr: seq<u1>)
    | PatMem(mem: seq<u1>, afterMem: seq<u1>)

  function ItemOf(a: Arg): Item {
    match a
    case PatInt(_) => Nothing
    case PatStr(s, after) => Push(s + [0], after)
    case PatMem(bytes, after) => Push(bytes, after)
  }

  function Blocks(args: seq<Arg>): (items: seq<Item>)
    ensures |items| == |args| && forall k | 0 <= k < |args| :: items[k] == ItemOf(args[k])
  {
    seq(|args|, k requires 0 <= k < |args| => ItemOf(args[k]))
  }

  /** The word an argument is passed as: its number, or the address of its block. */
  function ArgWord(sp: nat, args: seq<Arg>, k: nat): nat
    requires k < |args|
  {
    if args[k].PatInt? then args[k].i else Tops(sp, Blocks(args))[k + 1]
  }

  function WordPush(sp: nat, args: seq<Arg>, k: nat): Item
    requires k < |args|
  {
    Push(BytesLE(ArgWord(sp, args, k), 4), [])
  }

  /** The arguments behind the fourth, last one first. */
  function StackWords(sp: nat, args: seq<Arg>): (items: seq<Item>)
    ensures |items| == if |args| > 4 then |args| - 4 else 0
    ensures forall j | 0 <= j < |items| :: items[j] == WordPush(sp, args, |args| - 1 - j)
  {
    if |args| <= 4 then [] else seq(|args| - 4, j requires 0 <= j < |args| - 4 => WordPush(sp, args, |args| - 1 - j))
  }

  function Items(sp: nat, args: seq<Arg>): seq<Item> {
    Blocks(args) + StackWords(sp, args)
  }

  lemma {:induction false} TopsPrefix(sp: nat, a: seq<Item>, b: seq<Item>, k: nat)
    requires k <= |a|
    ensures Tops(sp, a + b)[k] == Tops(sp, a)[k]
    decreases |b|
  {
    if b == [] {
      assert a + b == a;
    } else {
      TopsPrefix(sp, a, b[..|b| - 1], k);
      assert (a + b)[..|a + b| - 1] == a + b[..|b| - 1];
    }
  }

  lemma PushOfWord(sp: nat)
    requires Aligned(sp) && 4 <= sp < SPACE
    ensures PushSp(sp, 4) == sp - 8
  {
  }

  ghost predicate WordsFrom(items: seq<Item>, n: nat) {
    forall i | n <= i < |items| :: items[i].Push? && |items[i].bytes| == 4
  }

  /** Behind the first, a word lowers the stack pointer by eight, not by four. */
  lemma {:induction false} WordsAreEightApart(sp: nat, items: seq<Item>, tops: seq<nat>, first: nat, n: nat)
    requires Ready(sp, items) && tops == Tops(sp, items)
    requires WordsFrom(items, first) && first <= n < |items|
    ensures tops[first + 1] == tops[n + 1] + 8 * (n - first)
    decreases n
  {
    if n > first {
      WordsAreEightApart(sp, items, tops, first, n - 1);
      TopsAt(sp, items, n);
      TopsAreWords(sp, items, tops, n);
      assert items[n - 1].Push? && items[n].Push? && |Body(items[n])| == 4 <= tops[n];
      PushOfWord(tops[n]);
    }
  }

  /** The word pushed as number n is found as the word that many places from the top. */
  lemma WordOnStack(m: Memory, sp: nat, items: seq<Item>, tops: seq<nat>, n: nat,
                    word: seq<u1>, addr: nat)
    requires Ready(sp, items) && tops == Tops(sp, items)
    requires n < |items| && WordsFrom(items, n)
    requires |word| == 4 && items[n] == Push(word, [])
    requires addr == tops[|items|] + 8 * (|items| - 1 - n)
    ensures Holds(MemoryAt(m, tops, items, |items|), addr, word)
    ensures addr + 4 <= sp
  {
    WordsAreEightApart(sp, items, tops, n, |items| - 1);
    TopsAreLadder(sp, items);
    LadderDescends(items, tops, 0, n);
    assert Rung(items[n], tops[n], tops[n + 1]);
    BlockIsIntact(m, items, tops, n);
    assert Padded(items[n]) == word && addr == tops[n + 1];
  }

  lemma WordItem(sp: nat, args: seq<Arg>, k: nat)
    requires 4 <= k < |args|
    ensures |Items(sp, args)| == 2 * |args| - 4
    ensures Items(sp, args)[2 * |args| - 1 - k] == Push(BytesLE(ArgWord(sp, args, k), 4), [])
    ensures WordsFrom(Items(sp, args), |args|)
  {
    var j := |args| - 1 - k;
    assert Items(sp, args)[|args| + j] == StackWords(sp, args)[j];
    forall i | |args| <= i < |Items(sp, args)|
      ensures Items(sp, args)[i].Push? && |Items(sp, args)[i].bytes| == 4
    {
      assert Items(sp, args)[i] == StackWords(sp, args)[i - |args|];
    }
  }

  // ----- What the target sees -----

  /** Registers and memory when the call is let run. */
  function Prepared(t: Target, r: seq<nat>, pc: nat, items: seq<Item>): Target
    requires ItemsOk(items)
  {
    var tops := Tops(t.regs.sp, items);
    Target(t.regs.(r := r, sp := tops[|items|], lr := 1, pc := pc), MemoryAt(t.memory, tops, items, |items|))
  }

  datatype Op =
    | Dlopen(dlopen: nat, filename: seq<u1>, afterName: seq<u1>, flag: nat)
    | Dlsym(dlsym: nat, handle: nat, symbol: seq<u1>, afterSymbol: seq<u1>)
    | Call(proc: nat, args: seq<Arg>)

  function OpItems(sp: nat, op: Op): seq<Item> {
    match op
    case Dlopen(_, name, after, _) => [Push(name + [0], after)]
    case Dlsym(_, _, symbol, after) => [Push(symbol + [0], after)]
    case Call(_, args) => Items(sp, args)
  }

  function ArgWords(sp: nat, args: seq<Arg>): (ws: seq<nat>)
    ensures |ws| == |args| && forall k | 0 <= k < |args| :: ws[k] == ArgWord(sp, args, k)
  {
    seq(|args|, k requires 0 <= k < |args| => ArgWord(sp, args, k))
  }

  /** Registers with up to four of the words in front. */
  function LoadWords(r: seq<nat>, words: seq<nat>): (r': seq<nat>)
    requires |r| == 4
    ensures |r'| == 4
    ensures forall k | 0 <= k < 4 :: r'[k] == if k < |words| then words[k] else r[k]
  {
    if |words| < 4 then words + r[|words|..] else words[..4]
  }

  /** r0 to r3. */
  function OpRegisters(regs: Registers, op: Op): seq<nat>
    requires |regs.r| == 4
  {
    match op
    case Dlopen(_, name, _, flag) => [PushSp(regs.sp, |name| + 1), flag] + regs.r[2..]
    case Dlsym(_, handle, symbol, _) => [handle, PushSp(regs.sp, |symbol| + 1)] + regs.r[2..]
    case Call(_, args) => LoadWords(regs.r, ArgWords(regs.sp, args))
  }

  function OpTarget(op: Op): nat {
    match op
    case Dlopen(f, _, _, _) => f
    case Dlsym(f, _, _, _) => f
    case Call(f, _) => f
  }

  function Setup(t: Target, op: Op): Target
    requires |t.regs.r| == 4 && ItemsOk(OpItems(t.regs.sp, op))
  {
    Prepared(t, OpRegisters(t.regs, op), OpTarget(op), OpItems(t.regs.sp, op))
  }

  lemma SetupOfCall(t: Target, proc: nat, args: seq<Arg>, items: seq<Item>, tops: seq<nat>)
    requires |t.regs.r| == 4 && items == Items(t.regs.sp, args) && ItemsOk(items)
    requires tops == Tops(t.regs.sp, items)
    ensures Setup(t, Call(proc, args)).memory == MemoryAt(t.memory, tops, items, |items|)
    ensures Setup(t, Call(proc, args)).regs.sp == tops[|items|]
  {
  }

  lemma BlockInMemory(m: Memory, sp: nat, args: seq<Arg>, items: seq<Item>, tops: seq<nat>, k: nat)
    requires items == Items(sp, args) && tops == Tops(sp, items)
    requires Ready(sp, items) && k < |args| && !args[k].PatInt?
    ensures ItemOk(ItemOf(args[k]))
    ensures Aligned(ArgWord(sp, args, k))
    ensures Holds(MemoryAt(m, tops, items, |items|), ArgWord(sp, args, k), Padded(ItemOf(args[k])))
  {
    TopsPrefix(sp, Blocks(args), StackWords(sp, args), k + 1);
    assert items[k] == ItemOf(args[k]);
    TopsAreLadder(sp, items);
    assert Rung(items[k], tops[k], tops[k + 1]);
    BlockIsIntact(m, items, tops, k);
  }

  /** A called function finds every string and memory block whole, with its padding, at
      the double-word aligned address it is passed. */
  lemma CallFindsBlocks(t: Target, proc: nat, args: seq<Arg>, k: nat)
    requires RegistersOk(t.regs) && Ready(t.regs.sp, Items(t.regs.sp, args))
    requires k < |args| && !args[k].PatInt?
    ensures var w := ArgWord(t.regs.sp, args, k);
            Aligned(w) && ItemOk(ItemOf(args[k]))
            && Holds(Setup(t, Call(proc, args)).memory, w, Padded(ItemOf(args[k])))
  {
    var items := Items(t.regs.sp, args);
    var tops := Tops(t.regs.sp, items);
    SetupOfCall(t, proc, args, items, tops);
    BlockInMemory(t.memory, t.regs.sp, args, items, tops, k);
  }

  lemma WordItemAt(sp: nat, args: seq<Arg>, items: seq<Item>, k: nat, n: nat, word: seq<u1>)
    requires items == Items(sp, args) && 4 <= k < |args| && n == 2 * |args| - 1 - k
    requires word == BytesLE(ArgWord(sp, args, k), 4)
    ensures n < |items| && |items| - 1 - n == k - 4
    ensures items[n] == Push(word, []) && WordsFrom(items, n)
  {
    WordItem(sp, args, k);
  }

  lemma ArgumentInMemory(m: Memory, sp: nat, args: seq<Arg>, items: seq<Item>, tops: seq<nat>, k: nat, addr: nat)
    requires items == Items(sp, args) && tops == Tops(sp, items) && Ready(sp, items)
    requires 4 <= k < |args| && addr == tops[|items|] + 8 * (k - 4)
    ensures Holds(MemoryAt(m, tops, items, |items|), addr, BytesLE(ArgWord(sp, args, k), 4))
    ensures addr + 4 <= sp
  {
    var n, word := 2 * |args| - 1 - k, BytesLE(ArgWord(sp, args, k), 4);
    WordItemAt(sp, args, items, k, n, word);
    WordOnStack(m, sp, items, tops, n, word, addr);
  }

  /** A called function finds argument k >= 4 in the word 8 * (k - 4) above its stack
      pointer. */
  lemma CallFindsWords(t: Target, proc: nat, args: seq<Arg>, k: nat, addr: nat)
    requires RegistersOk(t.regs) && Ready(t.regs.sp, Items(t.regs.sp, args)) && 4 <= k < |args|
    requires addr == Setup(t, Call(proc, args)).regs.sp + 8 * (k - 4)
    ensures Holds(Setup(t, Call(proc, args)).memory, addr, BytesLE(ArgWord(t.regs.sp, args, k), 4))
    ensures addr + 4 <= t.regs.sp
  {
    var items := Items(t.regs.sp, args);
    var tops := Tops(t.regs.sp, items);
    SetupOfCall(t, proc, args, items, tops);
    ArgumentInMemory(t.memory, t.regs.sp, args, items, tops, k, addr);
  }

  /** ... and the first four arguments in registers, the other registers unchanged. */
  lemma CallFindsRegisters(t: Target, proc: nat, args: seq<Arg>, k: nat)
    requires RegistersOk(t.regs) && ItemsOk(Items(t.regs.sp, args)) && k < 4
    ensures Setup(t, Call(proc, args)).regs.r[k] == if k < |args| then ArgWord(t.regs.sp, args, k) else t.regs.r[k]
  {
  }

  lemma HoldsFront(m: Memory, addr: nat, data: seq<u1>, front: seq<u1>)
    requires Holds(m, addr, data) && front <= data
    ensures Holds(m, addr, front)
  {
  }

  /** What a callee reads as argument k: a register, or a word of its stack. */
  function WordSeen(s: Target, k: nat): nat
    requires |s.regs.r| == 4
  {
    if k < 4 then s.regs.r[k] else ValueLE(ReadBytes(s.memory, s.regs.sp + 8 * (k - 4), 4))
  }

  lemma WordHeld(m: Memory, addr: nat, w: nat)
    requires addr + 4 <= SPACE && w < SPACE && Holds(m, addr, BytesLE(w, 4))
    ensures ValueLE(ReadBytes(m, addr, 4)) == w
  {
    ReadBytesHeld(m, addr, BytesLE(w, 4));
    RangeOf4();
    BytesThenValue(w, 4, false);
  }

  lemma BlockFound(t: Target, proc: nat, args: seq<Arg>, k: nat, seen: Target, w: nat)
    requires RegistersOk(t.regs) && Ready(t.regs.sp, Items(t.regs.sp, args)) && k < |args| && !args[k].PatInt?
    requires seen == Setup(t, Call(proc, args)) && w == ArgWord(t.regs.sp, args, k)
    ensures w < SPACE && w % 8 == 0 && Holds(seen.memory, w, ItemOf(args[k]).bytes)
  {
    CallFindsBlocks(t, proc, args, k);
    HoldsFront(seen.memory, w, Padded(ItemOf(args[k])), ItemOf(args[k]).bytes);
    BlockIsInSpace(t.regs.sp, args, k);
  }

  lemma WordFound(t: Target, proc: nat, args: seq<Arg>, k: nat, seen: Target, w: nat, addr: nat)
    requires RegistersOk(t.regs) && Ready(t.regs.sp, Items(t.regs.sp, args)) && k < |args|
    requires seen == Setup(t, Call(proc, args)) && w == ArgWord(t.regs.sp, args, k) < SPACE
    requires k >= 4 ==> addr == seen.regs.sp + 8 * (k - 4)
    ensures k < 4 ==> seen.regs.r[k] == w
    ensures k >= 4 ==> ValueLE(ReadBytes(seen.memory, addr, 4)) == w
  {
    if k >= 4 {
      CallFindsWords(t, proc, args, k, addr);
      WordHeld(seen.memory, addr, w);
    } else {
      CallFindsRegisters(t, proc, args, k);
    }
  }

  lemma WordSeenIs(s: Target, k: nat, w: nat, addr: nat)
    requires |s.regs.r| == 4
    requires k < 4 ==> s.regs.r[k] == w
    requires k >= 4 ==> addr == s.regs.sp + 8 * (k - 4) && ValueLE(ReadBytes(s.memory, addr, 4)) == w
    ensures WordSeen(s, k) == w
  {
  }

  lemma SetupCalls(t: Target, proc: nat, args: seq<Arg>)
    requires |t.regs.r| == 4 && ItemsOk(Items(t.regs.sp, args))
    ensures var s := Setup(t, Call(proc, args)); s.regs.pc == proc && s.regs.lr == 1 && |s.regs.r| == 4
  {
  }

  /** Argument k is passed as w: a number as itself, anything else as its address. */
  ghost predicate SeenAs(s: Target, a: Arg, w: nat) {
    match a
    case PatInt(i) => w == i
    case PatStr(text, _) => w % 8 == 0 && Holds(s.memory, w, text + [0])
    case PatMem(mem, _) => w % 8 == 0 && Holds(s.memory, w, mem)
  }

  /** What a called function makes of its arguments when it is let run, wherever they are
      passed: the numbers, and pointers to the strings with their NUL and to the blocks. */
  lemma CallSees(t: Target, proc: nat, args: seq<Arg>, k: nat, seen: Target)
    requires RegistersOk(t.regs) && Ready(t.regs.sp, Items(t.regs.sp, args)) && k < |args|
    requires args[k].PatInt? ==> args[k].i < SPACE
    requires seen == Setup(t, Call(proc, args))
    ensures seen.regs.pc == proc && seen.regs.lr == 1 && |seen.regs.r| == 4
    ensures SeenAs(seen, args[k], WordSeen(seen, k))
  {
    var w, addr := ArgWord(t.regs.sp, args, k), if k < 4 then 0 else seen.regs.sp + 8 * (k - 4);
    SetupCalls(t, proc, args);
    if !args[k].PatInt? {
      BlockFound(t, proc, args, k, seen, w);
    }
    WordFound(t, proc, args, k, seen, w, addr);
    WordSeenIs(seen, k, w, addr);
  }

  /** A single block is whole at the stack pointer. */
  lemma OneBlock(t: Target, i: Item, m': Memory)
    requires RegistersOk(t.regs) && Ready(t.regs.sp, [i]) && i.Push?
    requires m' == MemoryAt(t.memory, Tops(t.regs.sp, [i]), [i], 1)
    ensures Tops(t.regs.sp, [i])[1] == PushSp(t.regs.sp, |i.bytes|)
    ensures PushSp(t.regs.sp, |i.bytes|) % 8 == 0
    ensures Holds(m', PushSp(t.regs.sp, |i.bytes|), i.bytes)
  {
    var tops := Tops(t.regs.sp, [i]);
    OneItem(t, i);
    assert i in [i];
    TopsAreLadder(t.regs.sp, [i]);
    BlockIsIntact(t.memory, [i], tops, 0);
    assert Rung([i][0], tops[0], tops[1]);
    HoldsFront(m', tops[1], Padded(i), i.bytes);
  }

  /** dlopen is entered with the file name in r0 and the flag in r1. */
  lemma DlopenSees(t: Target, dlopen: nat, filename: seq<u1>, after: seq<u1>, flag: nat, seen: Target)
    requires RegistersOk(t.regs) && Ready(t.regs.sp, [Push(filename + [0], after)])
    requires seen == Setup(t, Dlopen(dlopen, filename, after, flag))
    ensures Holds(seen.memory, seen.regs.r[0], filename + [0])
    ensures seen.regs.r[0] == seen.regs.sp && seen.regs.r[0] % 8 == 0
    ensures seen.regs.r[1] == flag && seen.regs.r[2..] == t.regs.r[2..]
    ensures seen.regs.pc == dlopen && seen.regs.lr == 1 && seen.regs.cpsr == t.regs.cpsr
  {
    OneBlock(t, Push(filename + [0], after), seen.memory);
  }

  /** dlsym is entered with the handle in r0 and the symbol in r1. */
  lemma DlsymSees(t: Target, dlsym: nat, handle: nat, symbol: seq<u1>, after: seq<u1>, seen: Target)
    requires RegistersOk(t.regs) && Ready(t.regs.sp, [Push(symbol + [0], after)])
    requires seen == Setup(t, Dlsym(dlsym, handle, symbol, after))
    ensures seen.regs.r[0] == handle
    ensures Holds(seen.memory, seen.regs.r[1], symbol + [0])
    ensures seen.regs.r[1] == seen.regs.sp && seen.regs.r[1] % 8 == 0
    ensures seen.regs.r[2..] == t.regs.r[2..]
    ensures seen.regs.pc == dlsym && seen.regs.lr == 1 && seen.regs.cpsr == t.regs.cpsr
  {
    OneBlock(t, Push(symbol + [0], after), seen.memory);
  }

  ghost predicate Pushes(items: seq<Item>) {
    exists j :: 0 <= j < |items| && items[j].Push?
  }

  /** Every call is entered with the alignment section 5.2.1.2 of the AAPCS asks for as
      soon as anything was pushed. */
  lemma CallsAreAligned(t: Target, op: Op)
    requires RegistersOk(t.regs) && Ready(t.regs.sp, OpItems(t.regs.sp, op))
    ensures Aligned(Setup(t, op).regs.sp) <==> Aligned(t.regs.sp) || Pushes(OpItems(t.regs.sp, op))
  {
    var items := OpItems(t.regs.sp, op);
    TopsAreLadder(t.regs.sp, items);
    StackIsAligned(items, Tops(t.regs.sp, items), |items|);
  }

  // ----- Runs -----

  /** Registers and memory when the target has stopped again. */
  datatype Response = Response(regs: Registers, bytes: map<nat, u1>)

  datatype Exchange = Exchange(op: Op, response: Response)

  function Resumed(t: Target, response: Response): Target {
    Target(response.regs, Memory(response.bytes, t.memory.poked))
  }

  /** cpsr |= 0x30. */
  function ThumbBits(cpsr: nat): nat {
    cpsr / 0x40 * 0x40 + 0x30 + cpsr % 0x10
  }

  /** Bits 4 and 5 are set, and no other bit changes. */
  lemma ThumbBitsAre(cpsr: nat)
    ensures ThumbBits(cpsr) / 0x10 % 2 == 1 && ThumbBits(cpsr) / 0x20 % 2 == 1
    ensures ThumbBits(cpsr) % 0x10 == cpsr % 0x10 && ThumbBits(cpsr) / 0x40 == cpsr / 0x40
  {
    BitsOf(cpsr / 0x40, 1, 1, cpsr % 0x10, ThumbBits(cpsr));
  }

  lemma BitsOf(q: nat, b: nat, a: nat, r: nat, c: nat)
    requires b < 2 && a < 2 && r < 0x10 && c == 0x40 * q + 0x20 * b + 0x10 * a + r
    ensures c / 0x40 == q && c / 0x20 % 2 == b && c / 0x10 % 2 == a && c % 0x10 == r
  {
    assert c / 0x10 == 4 * q + 2 * b + a && c / 0x20 == 2 * q + b;
  }

  /** ptrace_attach: the target is sent to an address that faults. */
  function Stopped(t: Target): Target {
    t.(regs := t.regs.(pc := 0x11, cpsr := ThumbBits(t.regs.cpsr)))
  }

  function Attached(t: Target, response: Response): Target {
    Resumed(Stopped(t), response)
  }

  /** There is room on the stack, and the target gives the stack pointer back. */
  ghost predicate Behaves(t: Target, x: Exchange) {
    && RegistersOk(t.regs) && Ready(t.regs.sp, OpItems(t.regs.sp, x.op))
    && RegistersOk(x.response.regs)
    && x.response.regs.sp == Setup(t, x.op).regs.sp
  }

  ghost predicate AllBehave(t: Target, xs: seq<Exchange>)
    decreases |xs|
  {
    xs == [] || (Behaves(t, xs[0]) && AllBehave(Resumed(Setup(t, xs[0].op), xs[0].response), xs[1..]))
  }

  ghost function Run(t: Target, xs: seq<Exchange>): Target
    requires AllBehave(t, xs)
    decreases |xs|
  {
    if xs == [] then t else Run(Resumed(Setup(t, xs[0].op), xs[0].response), xs[1..])
  }

  lemma SetupStaysBelow(t: Target, op: Op)
    requires RegistersOk(t.regs) && Ready(t.regs.sp, OpItems(t.regs.sp, op))
    ensures Setup(t, op).regs.sp <= t.regs.sp
    ensures SameOutside(t.memory, Setup(t, op).memory, Setup(t, op).regs.sp, t.regs.sp)
  {
    var items := OpItems(t.regs.sp, op);
    var tops := Tops(t.regs.sp, items);
    TopsAreLadder(t.regs.sp, items);
    LadderDescends(items, tops, 0, |items|);
    PushesStayBelow(t.memory, items, tops, 0, |items|);
  }

  ghost predicate PokedBetween(m: Memory, m': Memory, lo: nat, hi: nat) {
    forall a | a in m'.poked :: a in m.poked || lo <= a < hi
  }

  /** In every run of calls the injector writes between the last and the first stack
      pointer only, so nothing a call pushed is overwritten by a later one. */
  lemma {:induction false} RunStaysBelow(t: Target, xs: seq<Exchange>)
    requires AllBehave(t, xs)
    ensures Run(t, xs).regs.sp <= t.regs.sp
    ensures PokedBetween(t.memory, Run(t, xs).memory, Run(t, xs).regs.sp, t.regs.sp)
    decreases |xs|
  {
    if xs != [] {
      SetupStaysBelow(t, xs[0].op);
      RunStaysBelow(Resumed(Setup(t, xs[0].op), xs[0].response), xs[1..]);
    }
  }

  // ----- Reading back -----

  lemma {:induction false} ReadBytesHeld(m: Memory, addr: nat, data: seq<u1>)
    requires addr + |data| <= SPACE && Holds(m, addr, data)
    ensures ReadBytes(m, addr, |data|) == data
    decreases |data|
  {
    if data != [] {
      var n := |data| - 1;
      assert forall i | 0 <= i < n :: At(m, addr + i) == data[..n][i];
      ReadBytesHeld(m, addr, data[..n]);
      assert data == data[..n] + [data[n]];
    }
  }

  lemma {:induction false} ReadBytesAppend(m: Memory, addr: nat, k: nat, n: nat)
    ensures ReadBytes(m, addr, k + n) == ReadBytes(m, addr, k) + ReadBytes(m, addr + k, n)
    decreases n
  {
    if n > 0 {
      ReadBytesAppend(m, addr, k, n - 1);
    }
  }

  ghost predicate SameIn(m: Memory, m': Memory, lo: nat, n: nat) {
    forall a: nat | lo <= a < lo + n :: At(m', a) == At(m, a)
  }

  lemma ReadBackHeld(m: Memory, m': Memory, addr: nat, data: seq<u1>)
    requires Holds(m, addr, data) && SameIn(m, m', addr, |data|) && addr + |data| <= SPACE
    ensures ReadBytes(m', addr, |data|) == data
  {
    assert Holds(m', addr, data);
    ReadBytesHeld(m', addr, data);
  }

  /** What is read back of a block the target left alone is the block, and the bytes
      behind it up to a whole word. */
  lemma ReadBackIsUnchanged(t: Target, proc: nat, args: seq<Arg>, k: nat, m': Memory, data: seq<u1>)
    requires RegistersOk(t.regs) && Ready(t.regs.sp, Items(t.regs.sp, args))
    requires k < |args| && !args[k].PatInt? && ItemOk(ItemOf(args[k])) && data == Padded(ItemOf(args[k]))
    requires SameIn(Setup(t, Call(proc, args)).memory, m', ArgWord(t.regs.sp, args, k), |data|)
    ensures ReadBytes(m', ArgWord(t.regs.sp, args, k), |data|) == data
  {
    CallFindsBlocks(t, proc, args, k);
    BlockIsInSpace(t.regs.sp, args, k);
    ReadBackHeld(Setup(t, Call(proc, args)).memory, m', ArgWord(t.regs.sp, args, k), data);
  }

  lemma BlockIsInSpace(sp: nat, args: seq<Arg>, k: nat)
    requires Ready(sp, Items(sp, args)) && k < |args| && !args[k].PatInt? && ItemOk(ItemOf(args[k]))
    ensures ArgWord(sp, args, k) + |Padded(ItemOf(args[k]))| <= sp
  {
    var items := Items(sp, args);
    TopsPrefix(sp, Blocks(args), StackWords(sp, args), k + 1);
    TopsAreLadder(sp, items);
    assert items[k] == ItemOf(args[k]);
    assert Rung(items[k], Tops(sp, items)[k], Tops(sp, items)[k + 1]);
    LadderDescends(items, Tops(sp, items), 0, k);
  }

  /** Whole words stay inside a buffer of exactly "len" bytes just when that is whole words. */
  lemma ReadStaysInside(len: nat)
    ensures RoundUp4(len) <= len <==> len % 4 == 0
  {
  }

  ghost predicate BuffersFit(args: seq<Arg>, buffers: seq<nat>, length: nat) {
    && |buffers| == |args|
    && forall k | 0 <= k < |args| :: args[k].PatMem? ==> buffers[k] + RoundUp4(|args[k].mem|) <= length
  }

  /** The memory arguments, and what lies behind them, are what the injector's memory holds. */
  ghost predicate BuffersHold(args: seq<Arg>, buffers: seq<nat>, local: seq<u1>)
    requires BuffersFit(args, buffers, |local|)
  {
    forall k | 0 <= k < |args| :: args[k].PatMem? ==> HoldsLocally(local, buffers[k], args[k])
  }

  ghost predicate HoldsLocally(local: seq<u1>, at: nat, a: Arg)
    requires a.PatMem? && at + RoundUp4(|a.mem|) <= |local|
  {
    ItemOk(ItemOf(a)) && local[at..at + RoundUp4(|a.mem|)] == Padded(ItemOf(a))
  }

  /** The injector's memory when the first k memory blocks have been read back. */
  ghost function Received(m: Memory, args: seq<Arg>, words: seq<nat>, buffers: seq<nat>, local: seq<u1>, k: nat)
    : (r: seq<u1>)
    requires BuffersFit(args, buffers, |local|) && k <= |args| == |words|
    ensures |r| == |local|
  {
    if k == 0 then local
    else
      var before := Received(m, args, words, buffers, local, k - 1);
      if args[k - 1].PatMem? then
        Put(before, buffers[k - 1], ReadBytes(m, words[k - 1], RoundUp4(|args[k - 1].mem|)))
      else before
  }

  lemma PutSame(local: seq<u1>, at: nat, bytes: seq<u1>)
    requires at + |bytes| <= |local| && local[at..at + |bytes|] == bytes
    ensures Put(local, at, bytes) == local
  {
  }

  lemma {:induction false} ReceivedSame(m: Memory, args: seq<Arg>, words: seq<nat>, buffers: seq<nat>,
                                        local: seq<u1>, k: nat)
    requires BuffersFit(args, buffers, |local|) && BuffersHold(args, buffers, local) && k <= |args| == |words|
    requires forall j | 0 <= j < k && args[j].PatMem? ::
               ReadBytes(m, words[j], RoundUp4(|args[j].mem|)) == Padded(ItemOf(args[j]))
    ensures Received(m, args, words, buffers, local, k) == local
    decreases k
  {
    if k > 0 {
      ReceivedSame(m, args, words, buffers, local, k - 1);
      if args[k - 1].PatMem? {
        assert HoldsLocally(local, buffers[k - 1], args[k - 1]);
        PutSame(local, buffers[k - 1], Padded(ItemOf(args[k - 1])));
      }
    }
  }

  predicate InBuffer(args: seq<Arg>, buffers: seq<nat>, k: nat, x: nat)
    requires k < |args| == |buffers|
  {
    args[k].PatMem? && buffers[k] <= x < buffers[k] + RoundUp4(|args[k].mem|)
  }

  lemma ReceivedStep(m: Memory, args: seq<Arg>, words: seq<nat>, buffers: seq<nat>, local: seq<u1>, k: nat, x: nat)
    requires BuffersFit(args, buffers, |local|) && k < |args| == |words| && x < |local|
    ensures Received(m, args, words, buffers, local, k + 1)[x] ==
            if InBuffer(args, buffers, k, x) then ReadBytes(m, words[k], RoundUp4(|args[k].mem|))[x - buffers[k]]
            else Received(m, args, words, buffers, local, k)[x]
  {
    var before := Received(m, args, words, buffers, local, k);
    if args[k].PatMem? {
      PutAt(before, buffers[k], ReadBytes(m, words[k], RoundUp4(|args[k].mem|)), x);
    }
  }

  lemma {:induction false} ReceivedBetween(m: Memory, args: seq<Arg>, words: seq<nat>, buffers: seq<nat>,
                                           local: seq<u1>, k: nat, n: nat, x: nat)
    requires BuffersFit(args, buffers, |local|) && k <= n <= |args| == |words| && x < |local|
    requires forall j | k <= j < n :: !InBuffer(args, buffers, j, x)
    ensures Received(m, args, words, buffers, local, n)[x] == Received(m, args, words, buffers, local, k)[x]
    decreases n
  {
    if k < n {
      ReceivedBetween(m, args, words, buffers, local, k, n - 1, x);
      ReceivedStep(m, args, words, buffers, local, n - 1, x);
    }
  }

  /** After reading back, a byte of the injector's memory that lies in the buffer of memory
      argument k, and of none after it, is the target's; one in no buffer is as before. */
  lemma ReceivedAt(m: Memory, args: seq<Arg>, words: seq<nat>, buffers: seq<nat>, local: seq<u1>, k: nat, x: nat)
    requires BuffersFit(args, buffers, |local|) && k < |args| == |words| && x < |local|
    ensures InBuffer(args, buffers, k, x) && (forall j | k < j < |args| :: !InBuffer(args, buffers, j, x)) ==>
              Received(m, args, words, buffers, local, |args|)[x]
              == ReadBytes(m, words[k], RoundUp4(|args[k].mem|))[x - buffers[k]]
    ensures (forall j | 0 <= j < |args| :: !InBuffer(args, buffers, j, x)) ==>
              Received(m, args, words, buffers, local, |args|)[x] == local[x]
  {
    if InBuffer(args, buffers, k, x) && forall j | k < j < |args| :: !InBuffer(args, buffers, j, x) {
      ReceivedStep(m, args, words, buffers, local, k, x);
      ReceivedBetween(m, args, words, buffers, local, k + 1, |args|, x);
    }
    if forall j | 0 <= j < |args| :: !InBuffer(args, buffers, j, x) {
      ReceivedBetween(m, args, words, buffers, local, 0, |args|, x);
    }
  }

  lemma PutAt(was: seq<u1>, at: nat, bytes: seq<u1>, x: nat)
    requires at + |bytes| <= |was| && x < |was|
    ensures Put(was, at, bytes)[x] == if at <= x < at + |bytes| then bytes[x - at] else was[x]
  {
  }

  /** A call whose target leaves every memory block alone leaves the injector's whole memory
      as it was, the bytes behind the buffers included and shared buffers or not. */
  lemma UntouchedCallChangesNothing(t: Target, proc: nat, args: seq<Arg>, m': Memory, buffers: seq<nat>,
                                    local: seq<u1>)
    requires RegistersOk(t.regs) && Ready(t.regs.sp, Items(t.regs.sp, args))
    requires BuffersFit(args, buffers, |local|) && BuffersHold(args, buffers, local)
    requires forall k | 0 <= k < |args| && args[k].PatMem? ::
               SameIn(Setup(t, Call(proc, args)).memory, m', ArgWord(t.regs.sp, args, k), RoundUp4(|args[k].mem|))
    ensures Received(m', args, ArgWords(t.regs.sp, args), buffers, local, |args|) == local
  {
    var words := ArgWords(t.regs.sp, args);
    forall k | 0 <= k < |args| && args[k].PatMem?
      ensures ReadBytes(m', words[k], RoundUp4(|args[k].mem|)) == Padded(ItemOf(args[k]))
    {
      assert HoldsLocally(local, buffers[k], args[k]);
      ReadBackIsUnchanged(t, proc, args, k, m', Padded(ItemOf(args[k])));
    }
    ReceivedSame(m', args, words, buffers, local, |args|);
  }

  // ----- As the program -----

  lemma PutNothing(was: seq<u1>, at: nat, m: Memory, addr: nat)
    requires at <= |was|
    ensures Put(was, at, ReadBytes(m, addr, 0)) == was
  {
  }

  lemma PutMore(was: seq<u1>, at: nat, m: Memory, addr: nat, count: nat)
    requires at + count + 4 <= |was|
    ensures Put(Put(was, at, ReadBytes(m, addr, count)), at + count, ReadBytes(m, addr + count, 4))
            == Put(was, at, ReadBytes(m, addr, count + 4))
  {
    ReadBytesAppend(m, addr, count, 4);
    PutPut(was, at, ReadBytes(m, addr, count), ReadBytes(m, addr + count, 4));
  }

  lemma WholeWord(count: nat, len: nat)
    requires count % 4 == 0 && count < len
    ensures count + 4 <= RoundUp4(len)
  {
  }

  lemma WholeWords(count: nat, len: nat)
    requires count % 4 == 0 && len <= count < len + 4
    ensures count == RoundUp4(len)
  {
  }

  /** An argument, the word it is passed as, and the pushing of its block. */
  ghost predicate PlannedBlock(a: Arg, word: nat, hi: nat, lo: nat, m: Memory, m': Memory) {
    && ItemOk(ItemOf(a)) && lo == ItemSp(hi, ItemOf(a))
    && m' == Overlay(m, lo, Padded(ItemOf(a)))
    && word == if a.PatInt? then a.i else lo
  }

  ghost predicate PlanBlocks(args: seq<Arg>, words: seq<nat>, tops: seq<nat>, ms: seq<Memory>) {
    && |words| == |args| < |tops| == |ms|
    && forall k | 0 <= k < |args| :: PlannedBlock(args[k], words[k], tops[k], tops[k + 1], ms[k], ms[k + 1])
  }

  ghost predicate PlannedWord(word: nat, hi: nat, lo: nat, m: Memory, m': Memory) {
    lo == PushSp(hi, 4) && m' == Overlay(m, lo, BytesLE(word, 4))
  }

  /** The last word is pushed right behind the blocks, the fifth at the end. */
  ghost predicate PlanWords(words: seq<nat>, tops: seq<nat>, ms: seq<Memory>) {
    && |words| > 4 && |tops| == |ms| == 2 * |words| - 3
    && forall k | 4 <= k < |words| :: var n := 2 * |words| - 1 - k;
         PlannedWord(words[k], tops[n], tops[n + 1], ms[n], ms[n + 1])
  }

  ghost predicate PushStep(i: Item, lo: nat, m: Memory, m': Memory) {
    ItemOk(i) && m' == Overlay(m, lo, Padded(i))
  }

  /** Memory after each of the pushes. */
  ghost predicate Histories(m: Memory, tops: seq<nat>, items: seq<Item>, ms: seq<Memory>) {
    && |ms| == |items| + 1 == |tops| && ms[0] == m
    && forall k | 0 <= k < |items| :: PushStep(items[k], tops[k + 1], ms[k], ms[k + 1])
  }

  lemma HistoryOf(m: Memory, tops: seq<nat>, items: seq<Item>) returns (ms: seq<Memory>)
    requires |tops| == |items| + 1 && ItemsOk(items)
    ensures Histories(m, tops, items, ms)
    ensures ms[|items|] == MemoryAt(m, tops, items, |items|)
  {
    ms := [m];
    var last := m;
    for i := 0 to |items|
      invariant |ms| == i + 1 && ms[0] == m && ms[i] == last == MemoryAt(m, tops, items, i)
      invariant forall k | 0 <= k < i :: PushStep(items[k], tops[k + 1], ms[k], ms[k + 1])
    {
      var next := MemoryAt(m, tops, items, i + 1);
      assert items[i] in items;
      assert PushStep(items[i], tops[i + 1], last, next);
      ms := ms + [next];
      last := next;
    }
  }

  lemma BlocksPlan(sp: nat, args: seq<Arg>, items: seq<Item>, tops: seq<nat>, words: seq<nat>, ms: seq<Memory>)
    requires items == Items(sp, args) && tops == Tops(sp, items) && |ms| > 0 && Histories(ms[0], tops, items, ms)
    requires words == ArgWords(sp, args)
    ensures PlanBlocks(args, words, tops, ms)
  {
    forall k | 0 <= k < |args|
      ensures PlannedBlock(args[k], words[k], tops[k], tops[k + 1], ms[k], ms[k + 1])
    {
      assert PushStep(items[k], tops[k + 1], ms[k], ms[k + 1]);
      assert items[k] == ItemOf(args[k]);
      TopsPrefix(sp, Blocks(args), StackWords(sp, args), k + 1);
      TopsAt(sp, items, k);
    }
  }

  lemma WordPlan(i: Item, hi: nat, lo: nat, m: Memory, m': Memory, word: nat)
    requires PushStep(i, lo, m, m') && i == Push(BytesLE(word, 4), []) && lo == ItemSp(hi, i)
    ensures PlannedWord(word, hi, lo, m, m')
  {
    assert Padded(i) == BytesLE(word, 4);
  }

  ghost predicate ItemsAreWords(words: seq<nat>, items: seq<Item>) {
    && |items| == 2 * |words| - 4
    && forall k | 4 <= k < |words| :: items[2 * |words| - 1 - k] == Push(BytesLE(words[k], 4), [])
  }

  lemma ItemsOfWords(sp: nat, args: seq<Arg>)
    requires |args| > 4
    ensures ItemsAreWords(ArgWords(sp, args), Items(sp, args))
  {
    forall k | 4 <= k < |args|
      ensures Items(sp, args)[2 * |args| - 1 - k] == Push(BytesLE(ArgWords(sp, args)[k], 4), [])
    {
      WordItem(sp, args, k);
    }
  }

  lemma WordsPlan(sp: nat, items: seq<Item>, tops: seq<nat>, words: seq<nat>, ms: seq<Memory>)
    requires tops == Tops(sp, items) && |ms| > 0 && Histories(ms[0], tops, items, ms)
    requires |words| > 4 && ItemsAreWords(words, items)
    ensures PlanWords(words, tops, ms)
  {
    forall k | 4 <= k < |words|
      ensures var n := 2 * |words| - 1 - k; PlannedWord(words[k], tops[n], tops[n + 1], ms[n], ms[n + 1])
    {
      var n := 2 * |words| - 1 - k;
      assert items[n] == Push(BytesLE(words[k], 4), []);
      TopsAt(sp, items, n);
      assert PushStep(items[n], tops[n + 1], ms[n], ms[n + 1]);
      WordPlan(items[n], tops[n], tops[n + 1], ms[n], ms[n + 1], words[k]);
    }
  }

  lemma SetupIs(t: Target, proc: nat, args: seq<Arg>, items: seq<Item>, tops: seq<nat>, s: Target)
    requires |t.regs.r| == 4 && items == Items(t.regs.sp, args) && ItemsOk(items) && tops == Tops(t.regs.sp, items)
    requires s.regs == t.regs.(r := LoadWords(t.regs.r, ArgWords(t.regs.sp, args)),
                               sp := tops[|items|], lr := 1, pc := proc)
    requires s.memory == MemoryAt(t.memory, tops, items, |items|)
    ensures Setup(t, Call(proc, args)) == s
  {
    SetupOfCall(t, proc, args, items, tops);
  }

  /** What ptrace_call works through, the stack pointer and memory along its pushes and the
      word each argument is passed as, and that it ends in what the target sees. */
  lemma PlanOf(t: Target, proc: nat, args: seq<Arg>) returns (words: seq<nat>, tops: seq<nat>, ms: seq<Memory>)
    requires |t.regs.r| == 4 && ItemsOk(Items(t.regs.sp, args))
    ensures words == ArgWords(t.regs.sp, args)
    ensures PlanBlocks(args, words, tops, ms)
    ensures if |args| > 4 then PlanWords(words, tops, ms) else |tops| == |args| + 1
    ensures tops[0] == t.regs.sp && ms[0] == t.memory
    ensures Setup(t, Call(proc, args))
            == Target(t.regs.(r := LoadWords(t.regs.r, words), sp := tops[|tops| - 1], lr := 1, pc := proc),
                      ms[|ms| - 1])
  {
    var items := Items(t.regs.sp, args);
    tops := Tops(t.regs.sp, items);
    words := ArgWords(t.regs.sp, args);
    ms := HistoryOf(t.memory, tops, items);
    BlocksPlan(t.regs.sp, args, items, tops, words, ms);
    if |args| > 4 {
      ItemsOfWords(t.regs.sp, args);
      WordsPlan(t.regs.sp, items, tops, words, ms);
    }
    SetupIs(t, proc, args, items, tops,
            Target(t.regs.(r := LoadWords(t.regs.r, words), sp := tops[|tops| - 1], lr := 1, pc := proc),
                   ms[|ms| - 1]));
  }

  /** The injector and the process it traces. */
  class Tracer {
    var regs: Registers      // of the target
    var memory: Memory       // of the target
    var oldregs: Registers

    function State(): Target
      reads this
    {
      Target(regs, memory)
    }

    constructor (t: Target)
      ensures State() == t
    {
      regs := t.regs;
      memory := t.memory;
      oldregs := t.regs;
    }

    /** PTRACE_POKETEXT: one word. */
    method Poke(addr: nat, word: seq<u1>)
      requires |word| == 4
      modifies this`memory
      ensures memory == Overlay(old(memory), addr, word)
    {
      memory := Overlay(memory, addr, word);
    }

    /** ptrace_write. */
    method Write(addr: nat, i: Item)
      requires i.Push? && ItemOk(i)
      modifies this`memory
      ensures memory == Overlay(old(memory), addr, Padded(i))
    {
      var src := i.bytes + i.beyond;
      var count := 0;
      while count < |i.bytes|
        invariant count % 4 == 0 && count < |i.bytes| + 4 && count <= |src|
        invariant memory == Overlay(old(memory), addr, src[..count])
      {
        WholeWord(count, |i.bytes|);
        var word := src[count..count + 4];
        OverlayAppend(old(memory), addr, src[..count], word);
        assert src[..count] + word == src[..count + 4];
        Poke(addr + count, word);
        count := count + 4;
      }
      WholeWords(count, |i.bytes|);
    }

    /** ptrace_read: whole words, to address "at" of the injector's own memory. */
    method Read(addr: nat, local: array<u1>, at: nat, len: nat)
      requires at + RoundUp4(len) <= local.Length
      modifies local
      ensures local[..] == Put(old(local[..]), at, ReadBytes(memory, addr, RoundUp4(len)))
    {
      ghost var was := local[..];
      PutNothing(was, at, memory, addr);
      var count := 0;
      while count < len
        invariant count % 4 == 0 && count < len + 4 && at + count <= local.Length
        invariant local[..] == Put(was, at, ReadBytes(memory, addr, count))
      {
        WholeWord(count, len);
        PutMore(was, at, memory, addr, count);
        PeekWord(addr, local, at, count);
        count := count + 4;
      }
      WholeWords(count, len);
    }

    /** PTRACE_PEEKTEXT, and the store of the word. */
    method PeekWord(addr: nat, local: array<u1>, at: nat, count: nat)
      requires at + count + 4 <= local.Length
      modifies local
      ensures local[..] == Put(old(local[..]), at + count, ReadBytes(memory, addr + count, 4))
    {
      var word := ReadBytes(memory, addr + count, 4);
      CopyInto(local, at + count, word);
    }

    /** ptrace_push, on the caller's copy of the registers. */
    method PushBlock(copy: Registers, i: Item) returns (copy': Registers, addr: nat)
      requires i.Push? && ItemOk(i)
      modifies this`memory
      ensures addr == ItemSp(copy.sp, i) && copy' == copy.(sp := addr)
      ensures memory == Overlay(old(memory), addr, Padded(i))
    {
      var armSp := Minus(copy.sp, |i.bytes|);
      armSp := armSp - armSp % 8;
      copy' := copy.(sp := armSp);
      addr := armSp;
      Write(armSp, i);
    }

    /** PTRACE_CONT and the wait for the fault. */
    method Continue(response: Response)
      modifies this`regs, this`memory
      ensures State() == Resumed(old(State()), response)
    {
      regs := response.regs;
      memory := Memory(response.bytes, memory.poked);
    }

    /** ptrace_attach. */
    method Attach(response: Response) returns (ghost seen: Target)
      modifies this
      ensures State() == Attached(old(State()), response) && oldregs == old(regs)
      ensures seen == Stopped(old(State())) && seen.regs.pc == 0x11
    {
      oldregs := regs;
      regs := regs.(pc := 0x11, cpsr := ThumbBits(regs.cpsr));
      seen := State();
      Continue(response);
    }

    /** ptrace_detach. */
    method Detach()
      modifies this`regs
      ensures regs == oldregs
    {
      regs := oldregs;
    }

    /** ptrace_dlopen. */
    method DlopenCall(dlopen: nat, filename: seq<u1>, afterName: seq<u1>, flag: nat, response: Response)
      returns (r0: nat, ghost seen: Target)
      requires RegistersOk(regs) && ItemOk(Push(filename + [0], afterName)) && RegistersOk(response.regs)
      modifies this`regs, this`memory
      ensures seen == Setup(old(State()), Dlopen(dlopen, filename, afterName, flag))
      ensures State() == Resumed(seen, response)
      ensures r0 == response.regs.r[0]
    {
      ghost var i := Push(filename + [0], afterName);
      OneItem(State(), i);
      var copy := regs.(lr := 1);
      var addr;
      copy, addr := PushBlock(copy, Push(filename + [0], afterName));
      copy := copy.(r := copy.r[0 := addr]);
      copy := copy.(r := copy.r[1 := flag]);
      copy := copy.(pc := dlopen);
      assert copy.r == [addr, flag] + regs.r[2..];
      regs := copy;
      seen := State();
      Continue(response);
      r0 := regs.r[0];
    }

    /** ptrace_dlsym. */
    method DlsymCall(dlsym: nat, handle: nat, symbol: seq<u1>, afterSymbol: seq<u1>, response: Response)
      returns (r0: nat, ghost seen: Target)
      requires RegistersOk(regs) && ItemOk(Push(symbol + [0], afterSymbol)) && RegistersOk(response.regs)
      modifies this`regs, this`memory
      ensures seen == Setup(old(State()), Dlsym(dlsym, handle, symbol, afterSymbol))
      ensures State() == Resumed(seen, response)
      ensures r0 == response.regs.r[0]
    {
      ghost var i := Push(symbol + [0], afterSymbol);
      OneItem(State(), i);
      var copy := regs.(lr := 1);
      copy := copy.(r := copy.r[0 := handle]);
      var addr;
      copy, addr := PushBlock(copy, Push(symbol + [0], afterSymbol));
      copy := copy.(r := copy.r[1 := addr]);
      copy := copy.(pc := dlsym);
      assert copy.r == [handle, addr] + regs.r[2..];
      regs := copy;
      seen := State();
      Continue(response);
      r0 := regs.r[0];
    }

    /** The first loop of ptrace_call. */
    method PushBlocks(copy: Registers, args: seq<Arg>, ghost words: seq<nat>, ghost tops: seq<nat>,
                      ghost ms: seq<Memory>) returns (copy': Registers, ids: seq<nat>)
      requires PlanBlocks(args, words, tops, ms) && copy.sp == tops[0] && memory == ms[0]
      modifies this`memory
      ensures copy' == copy.(sp := tops[|args|]) && memory == ms[|args|]
      ensures |ids| == |args| && forall k | 0 <= k < |args| :: words[k] == if args[k].PatInt? then args[k].i else ids[k]
    {
      copy' := copy;
      ids := [];
      for i := 0 to |args|
        invariant copy' == copy.(sp := tops[i]) && memory == ms[i]
        invariant |ids| == i
        invariant forall k | 0 <= k < i :: words[k] == if args[k].PatInt? then args[k].i else ids[k]
      {
        assert PlannedBlock(args[i], words[i], tops[i], tops[i + 1], ms[i], ms[i + 1]);
        var id := 0;
        if !args[i].PatInt? {
          copy', id := PushBlock(copy', ItemOf(args[i]));
        }
        ids := ids + [id];
      }
    }

    method PushWord(copy: Registers, word: nat) returns (copy': Registers)
      modifies this`memory
      ensures copy' == copy.(sp := PushSp(copy.sp, 4))
      ensures memory == Overlay(old(memory), copy'.sp, BytesLE(word, 4))
    {
      var addr;
      copy', addr := PushBlock(copy, Push(BytesLE(word, 4), []));
      assert Padded(Push(BytesLE(word, 4), [])) == BytesLE(word, 4);
    }

    /** The last loop before the call, from the last argument down to the fifth. */
    method PushWords(copy: Registers, args: seq<Arg>, ids: seq<nat>, ghost words: seq<nat>, ghost tops: seq<nat>,
                     ghost ms: seq<Memory>) returns (copy': Registers)
      requires PlanWords(words, tops, ms) && |ids| == |args| == |words|
      requires forall k | 0 <= k < |args| :: words[k] == if args[k].PatInt? then args[k].i else ids[k]
      requires copy.sp == tops[|args|] && memory == ms[|args|]
      modifies this`memory
      ensures copy' == copy.(sp := tops[|tops| - 1]) && memory == ms[|ms| - 1]
    {
      copy' := copy;
      var i := |args| - 1;
      ghost var n := |args|;
      while i >= 4
        invariant 3 <= i < |args| && n == 2 * |args| - 1 - i
        invariant copy' == copy.(sp := tops[n]) && memory == ms[n]
      {
        assert PlannedWord(words[i], tops[n], tops[n + 1], ms[n], ms[n + 1]);
        var word := if args[i].PatInt? then args[i].i else ids[i];
        copy' := PushWord(copy', word);
        i := i - 1;
        n := n + 1;
      }
    }

    /** The registers loop. */
    method SetRegisters(copy: Registers, args: seq<Arg>, ids: seq<nat>, ghost words: seq<nat>)
      returns (copy': Registers)
      requires |copy.r| == 4 && |ids| == |args| == |words|
      requires forall k | 0 <= k < |args| :: words[k] == if args[k].PatInt? then args[k].i else ids[k]
      ensures copy' == copy.(r := LoadWords(copy.r, words))
    {
      copy' := copy;
      var i := 0;
      while i < 4 && i < |args|
        invariant i <= 4 && i <= |args|
        invariant copy' == copy.(r := LoadWords(copy.r, words[..i]))
      {
        var word := if args[i].PatInt? then args[i].i else ids[i];
        copy' := copy'.(r := copy'.r[i := word]);
        assert copy'.r == LoadWords(copy.r, words[..i + 1]);
        i := i + 1;
      }
      assert copy'.r == LoadWords(copy.r, words);
    }

    /** ptrace_call up to the point where the target is let run. */
    method Prepare(proc: nat, args: seq<Arg>, ghost words: seq<nat>, ghost tops: seq<nat>, ghost ms: seq<Memory>)
      returns (ids: seq<nat>)
      requires |regs.r| == 4 && PlanBlocks(args, words, tops, ms) && regs.sp == tops[0] && memory == ms[0]
      requires if |args| > 4 then PlanWords(words, tops, ms) else |tops| == |args| + 1
      modifies this`regs, this`memory
      ensures regs == old(regs).(r := LoadWords(old(regs).r, words), sp := tops[|tops| - 1], lr := 1, pc := proc)
      ensures memory == ms[|ms| - 1]
      ensures |ids| == |args| && forall k | 0 <= k < |args| :: words[k] == if args[k].PatInt? then args[k].i else ids[k]
    {
      var copy;
      copy, ids := PushBlocks(regs, args, words, tops, ms);
      copy := SetRegisters(copy, args, ids, words);
      if |args| > 4 {
        copy := PushWords(copy, args, ids, words, tops, ms);
      }
      copy := copy.(lr := 1, pc := proc);
      regs := copy;
    }

    /** ptrace_call behind that point: every memory block is read back, in order, into the
        buffer it came from. */
    method ReadBack(args: seq<Arg>, ids: seq<nat>, ghost words: seq<nat>, local: array<u1>, buffers: seq<nat>)
      requires |ids| == |args| == |words| && BuffersFit(args, buffers, local.Length)
      requires forall k | 0 <= k < |args| :: args[k].PatMem? ==> ids[k] == words[k]
      modifies local
      ensures local[..] == Received(memory, args, words, buffers, old(local[..]), |args|)
    {
      for i := 0 to |args|
        invariant local[..] == Received(memory, args, words, buffers, old(local[..]), i)
      {
        if args[i].PatMem? {
          Read(ids[i], local, buffers[i], |args[i].mem|);
        }
      }
    }

    /** ptrace_call. "buffers" are the addresses, in the injector's own memory, of the memory
        arguments; two of them may be one. */
    method PtraceCall(proc: nat, args: seq<Arg>, local: array<u1>, buffers: seq<nat>, response: Response)
      returns (r0: nat, ghost seen: Target)
      requires RegistersOk(regs) && ItemsOk(Items(regs.sp, args)) && RegistersOk(response.regs)
      requires BuffersFit(args, buffers, local.Length) && BuffersHold(args, buffers, local[..])
      modifies this`regs, this`memory, local
      ensures seen == Setup(old(State()), Call(proc, args))
      ensures State() == Resumed(seen, response)
      ensures r0 == response.regs.r[0]
      ensures local[..] == Received(memory, args, ArgWords(old(regs.sp), args), buffers, old(local[..]), |args|)
    {
      ghost var words, tops, ms := PlanOf(State(), proc, args);
      var ids := Prepare(proc, args, words, tops, ms);
      seen := State();
      Continue(response);
      ReadBack(args, ids, words, local, buffers);
      r0 := regs.r[0];
    }

    /** The calls of main: dlopen, dlsym and the function found. */
    method CallHook(dlopen: nat, dlsym: nat, library: seq<u1>, argument: seq<u1>, behind: seq<u1>,
                    loaded: Response, found: Response, called: Response)
      returns (ghost opening: Target, ghost finding: Target, ghost calling: Target)
      requires RegistersOk(loaded.regs) && RegistersOk(found.regs)
      requires AllBehave(State(), InjectRun(dlopen, dlsym, library, argument, behind, loaded, found, called))
      modifies this`regs, this`memory
      ensures State() == Run(old(State()), InjectRun(dlopen, dlsym, library, argument, behind, loaded, found, called))
      ensures Opens(opening, dlopen, library)
      ensures Finds(finding, dlsym, loaded.regs.r[0])
      ensures Calls(calling, found.regs.r[0], argument)
    {
      ghost var xs := InjectRun(dlopen, dlsym, library, argument, behind, loaded, found, called);
      ghost var t := State();
      ghost var t1, t2 := RunOfThree(t, xs[0], xs[1], xs[2]);
      var handle;
      handle, opening := DlopenCall(dlopen, library, behind, 1, loaded);
      assert State() == t1;
      var proc;
      proc, finding := DlsymCall(dlsym, handle, HOOK, behind, found);
      assert State() == t2;
      var local := new u1[0];
      var r0;
      r0, calling := PtraceCall(proc, [PatStr(argument, behind)], local, [0], called);
      HookIsCalled(t, t1, t2, dlopen, dlsym, library, argument, behind, handle, proc, opening, finding, calling);
    }

    /** The part of main that concerns the target: attach, the calls, detach. The responses
        are the stops of the target, in order. */
    method Inject(dlopen: nat, dlsym: nat, process: seq<u1>, directory: seq<u1>, extra: seq<u1>, behind: seq<u1>,
                  first: Response, loaded: Response, found: Response, called: Response)
      returns (ghost lowest: nat, ghost opening: Target, ghost finding: Target, ghost calling: Target)
      requires RegistersOk(regs) && first.regs.sp == regs.sp
      requires RegistersOk(loaded.regs) && RegistersOk(found.regs)
      requires AllBehave(Attached(State(), first),
                         InjectRun(dlopen, dlsym, directory + HOOK_LIB, process + [0x23] + extra, behind,
                                   loaded, found, called))
      modifies this
      ensures regs == old(regs)
      ensures lowest <= old(regs).sp && PokedBetween(old(memory), memory, lowest, old(regs).sp)
      ensures Opens(opening, dlopen, directory + HOOK_LIB)
      ensures Finds(finding, dlsym, loaded.regs.r[0])
      ensures Calls(calling, found.regs.r[0], process + [0x23] + extra)
    {
      ghost var xs := InjectRun(dlopen, dlsym, directory + HOOK_LIB, process + [0x23] + extra, behind,
                                loaded, found, called);
      RunStaysBelow(Attached(State(), first), xs);
      ghost var stopped := Attach(first);
      var library := directory + HOOK_LIB;
      var buffer := process;
      buffer := buffer + [0x23];
      buffer := buffer + extra;
      opening, finding, calling := CallHook(dlopen, dlsym, library, buffer, behind, loaded, found, called);
      lowest := regs.sp;
      Detach();
    }
  }

  /** The target is let run into dlopen with the path and flag 1. */
  ghost predicate Opens(s: Target, dlopen: nat, path: seq<u1>) {
    && s.regs.pc == dlopen && |s.regs.r| == 4
    && Holds(s.memory, s.regs.r[0], path + [0]) && s.regs.r[1] == 1
  }

  /** ... into dlsym with the handle and the name "hook". */
  ghost predicate Finds(s: Target, dlsym: nat, handle: nat) {
    && s.regs.pc == dlsym && |s.regs.r| == 4
    && s.regs.r[0] == handle && Holds(s.memory, s.regs.r[1], [0x68, 0x6f, 0x6f, 0x6b, 0])
  }

  /** ... into the function found, with the string. */
  ghost predicate Calls(s: Target, proc: nat, argument: seq<u1>) {
    s.regs.pc == proc && |s.regs.r| == 4 && Holds(s.memory, s.regs.r[0], argument + [0])
  }

  lemma HookIsCalled(t: Target, t1: Target, t2: Target, dlopen: nat, dlsym: nat, library: seq<u1>,
                     argument: seq<u1>, behind: seq<u1>, handle: nat, proc: nat,
                     opening: Target, finding: Target, calling: Target)
    requires RegistersOk(t.regs) && Ready(t.regs.sp, [Push(library + [0], behind)])
    requires RegistersOk(t1.regs) && Ready(t1.regs.sp, [Push(HOOK + [0], behind)])
    requires RegistersOk(t2.regs) && Ready(t2.regs.sp, Items(t2.regs.sp, [PatStr(argument, behind)]))
    requires opening == Setup(t, Dlopen(dlopen, library, behind, 1))
    requires finding == Setup(t1, Dlsym(dlsym, handle, HOOK, behind))
    requires calling == Setup(t2, Call(proc, [PatStr(argument, behind)]))
    ensures Opens(opening, dlopen, library) && Finds(finding, dlsym, handle) && Calls(calling, proc, argument)
  {
    DlopenSees(t, dlopen, library, behind, 1, opening);
    DlsymSees(t1, dlsym, handle, HOOK, behind, finding);
    CallSees(t2, proc, [PatStr(argument, behind)], 0, calling);
    assert HOOK + [0] == [0x68, 0x6f, 0x6f, 0x6b, 0];
  }

  lemma RunFirst(t: Target, xs: seq<Exchange>) returns (t': Target)
    requires xs != [] && AllBehave(t, xs)
    ensures Behaves(t, xs[0]) && t' == Resumed(Setup(t, xs[0].op), xs[0].response)
    ensures AllBehave(t', xs[1..]) && Run(t, xs) == Run(t', xs[1..])
  {
    t' := Resumed(Setup(t, xs[0].op), xs[0].response);
  }

  lemma RunOfThree(t: Target, x: Exchange, y: Exchange, z: Exchange) returns (t1: Target, t2: Target)
    requires AllBehave(t, [x, y, z])
    ensures Behaves(t, x) && t1 == Resumed(Setup(t, x.op), x.response)
    ensures Behaves(t1, y) && t2 == Resumed(Setup(t1, y.op), y.response)
    ensures Behaves(t2, z) && Run(t, [x, y, z]) == Resumed(Setup(t2, z.op), z.response)
  {
    assert [x, y, z][1..] == [y, z] && [y, z][1..] == [z] && [z][1..] == [];
    t1 := RunFirst(t, [x, y, z]);
    t2 := RunFirst(t1, [y, z]);
    var t3 := RunFirst(t2, [z]);
    assert Run(t3, []) == t3;
  }

  /** The name "hook". */
  const HOOK: seq<u1> := [0x68, 0x6f, 0x6f, 0x6b]

  /** "libhook.so". */
  const HOOK_LIB: seq<u1> := [0x6c, 0x69, 0x62, 0x68, 0x6f, 0x6f, 0x6b, 0x2e, 0x73, 0x6f]

  function InjectRun(dlopen: nat, dlsym: nat, library: seq<u1>, argument: seq<u1>, behind: seq<u1>,
                     loaded: Response, found: Response, called: Response): seq<Exchange>
    requires |loaded.regs.r| == 4 && |found.regs.r| == 4
  {
    [Exchange(Dlopen(dlopen, library, behind, 1), loaded),
     Exchange(Dlsym(dlsym, loaded.regs.r[0], HOOK, behind), found),
     Exchange(Call(found.regs.r[0], [PatStr(argument, behind)]), called)]
  }

  lemma OneItem(t: Target, i: Item)
    requires ItemOk(i)
    ensures Tops(t.regs.sp, [i]) == [t.regs.sp, ItemSp(t.regs.sp, i)]
    ensures MemoryAt(t.memory, Tops(t.regs.sp, [i]), [i], 1)
            == Overlay(t.memory, ItemSp(t.regs.sp, i), Padded(i))
  {
    assert [i][..0] == [];
    assert Tops(t.regs.sp, []) == [t.regs.sp];
  }
}
