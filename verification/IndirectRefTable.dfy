/**
 The indirect reference table (jni/hook/IndirectRefTable.h).

 The packing of handles and the iterator are in the header. add, get, remove and the use
 of cookies are declared there with comments only, and are modelled as those say.

 A slot's serial is the number of times it was filled, modulo 4096; "gen" is that number
 without the modulus, and only gen % 4096 is ever stored in a handle or compared.
 */
module IndirectRefTables {

  type Ref = nat

  const NULL: Ref := 0
  const INVALID: Ref := 0xdead4321
  const TOMBSTONE: Ref := 0xdead1234

  const SERIALS := 4096
  const IRT_FIRST_SEGMENT: nat := 0

  // ----- Handles -----

  function ToIndirectRef(index: nat, serial: nat, kind: nat): nat {
    serial * 0x10_0000 + index * 4 + kind
  }

  function ExtractKind(iref: nat): nat {
    iref % 4
  }

  function ExtractIndex(iref: nat): nat {
    iref / 4 % 0x1_0000
  }

  function ExtractSerial(iref: nat): nat {
    iref / 0x10_0000
  }

  function NextSerial(serial: nat): nat {
    (serial + 1) % SERIALS
  }

  /** Packing loses nothing, fits in 32 bits, and never yields NULL. */
  lemma HandleRoundTrip(index: nat, serial: nat, kind: nat)
    requires index < 0x1_0000 && serial < 0x1000 && 1 <= kind <= 3
    ensures var iref := ToIndirectRef(index, serial, kind);
            && 0 < iref < 0x1_0000_0000
            && ExtractKind(iref) == kind
            && ExtractIndex(iref) == index
            && ExtractSerial(iref) == serial
  {
    var iref := ToIndirectRef(index, serial, kind);
    assert iref / 4 == serial * 0x4_0000 + index;
  }

  // ----- Segment state and cookies: topIndex:16, numHoles:16 -----

  function Top(all: nat): nat {
    all % 0x1_0000
  }

  function Holes(all: nat): nat {
    all / 0x1_0000
  }

  /** Storing into the two bit fields truncates to 16 bits. */
  function Pack(top: int, holes: int): nat {
    top % 0x1_0000 + holes % 0x1_0000 * 0x1_0000
  }

  lemma PackRoundTrip(top: nat, holes: nat)
    requires top < 0x1_0000 && holes < 0x1_0000
    ensures Top(Pack(top, holes)) == top && Holes(Pack(top, holes)) == holes
  {
  }

  lemma PackIs(top: nat, holes: int, n: nat)
    requires top < 0x1_0000 && holes == n < 0x1_0000
    ensures Top(Pack(top, holes)) == top && Holes(Pack(top, holes)) == n
  {
    PackRoundTrip(top, n);
  }

  // ----- The table as a value -----

  datatype Slot = Slot(obj: Ref, gen: nat)

  datatype Table = Table(slots: seq<Slot>, state: nat, kind: nat, max: nat)

  function CountNulls(s: seq<Slot>): nat {
    if s == [] then 0
    else CountNulls(s[..|s| - 1]) + if s[|s| - 1].obj == NULL then 1 else 0
  }

  predicate Live(t: Table, i: nat) {
    i < Top(t.state) && i < |t.slots| && t.slots[i].obj != NULL
  }

  function Handle(t: Table, i: nat): nat
    requires i < |t.slots|
  {
    ToIndirectRef(i, t.slots[i].gen % SERIALS, t.kind)
  }

  /** The handle names the slot's present entry, as far as the table can tell. */
  predicate Names(t: Table, iref: nat) {
    var i := ExtractIndex(iref);
    && ExtractKind(iref) == t.kind
    && Live(t, i)
    && ExtractSerial(iref) == t.slots[i].gen % SERIALS
  }

  function Get(t: Table, iref: nat): Ref {
    if Names(t, iref) then t.slots[ExtractIndex(iref)].obj else INVALID
  }

  function Fill(t: Table, i: nat, obj: Ref): Table
    requires i < |t.slots|
  {
    t.(slots := t.slots[i := Slot(obj, t.slots[i].gen + 1)])
  }

  /** Filling a slot gives it the next serial. */
  lemma FillTakesNextSerial(t: Table, i: nat, obj: Ref)
    requires i < |t.slots|
    ensures Fill(t, i, obj).slots[i].gen % SERIALS == NextSerial(t.slots[i].gen % SERIALS)
    ensures Fill(t, i, obj).slots[i].gen % SERIALS == (t.slots[i].gen % SERIALS + 1) % 0x1000
  {
  }

  /** A hole of the current segment. */
  predicate IsHole(t: Table, cookie: nat, i: nat) {
    Top(cookie) <= i < Top(t.state) && i < |t.slots| && t.slots[i].obj == NULL
  }

  predicate HasHoles(t: Table, cookie: nat) {
    Holes(t.state) > Holes(cookie)
  }

  /** The allocator grants "room" more entries when the table has to expand. */
  function Expanded(t: Table, room: nat): Table {
    if Top(t.state) == |t.slots| && |t.slots| + room <= t.max then
      t.(slots := t.slots + seq(room, _ => Slot(NULL, 0)))
    else
      t
  }

  /** add: fill a hole of the segment if it has one, else append. "hole" is the hole the
      search finds. The result is the new table and the handle, NULL if there is no room. */
  function Add(t: Table, cookie: nat, obj: Ref, hole: nat, room: nat): (Table, nat) {
    if HasHoles(t, cookie) then
      if IsHole(t, cookie, hole) then
        var t' := Fill(t, hole, obj).(state := Pack(Top(t.state), Holes(t.state) - 1));
        (t', Handle(t', hole))
      else (t, NULL)
    else
      var big := Expanded(t, room);
      var top := Top(t.state);
      if top < |big.slots| then
        var t' := Fill(big, top, obj).(state := Pack(top + 1, Holes(t.state)));
        (t', Handle(t', top))
      else (t, NULL)
  }

  /** The first index, going down from "top", whose entry below is in use or which is the
      bottom of the segment. */
  function Trim(s: seq<Slot>, bottom: nat, top: nat): (r: nat)
    requires top <= |s|
    ensures r <= top && (bottom <= top ==> bottom <= r)
    ensures r > bottom ==> s[r - 1].obj != NULL
    ensures forall i | r <= i < top :: s[i].obj == NULL
  {
    if top > bottom && s[top - 1].obj == NULL then Trim(s, bottom, top - 1) else top
  }

  /** remove: nothing happens unless the handle names an entry of the current segment.
      Removing the topmost entry also gives up the holes immediately below it. */
  function Remove(t: Table, cookie: nat, iref: nat): (Table, bool) {
    var i := ExtractIndex(iref);
    if Top(cookie) <= i && Names(t, iref) then
      var slots := t.slots[i := t.slots[i].(obj := NULL)];
      if i == Top(t.state) - 1 then
        var top := Trim(slots, Top(cookie), i);
        (t.(slots := slots, state := Pack(top, Holes(t.state) - (i - top))), true)
      else
        (t.(slots := slots, state := Pack(Top(t.state), Holes(t.state) + 1)), true)
    else (t, false)
  }

  // ----- Runs with frames -----

  /** "frames" holds the cookies of the segments on the stack; the last is current. */
  datatype Machine = Machine(t: Table, frames: seq<nat>)

  datatype Op =
    | AddOp(obj: Ref, hole: nat, room: nat)
    | RemoveOp(iref: nat)
    | PushFrame
    | PopFrame

  function Cookie(m: Machine): nat {
    if m.frames == [] then IRT_FIRST_SEGMENT else m.frames[|m.frames| - 1]
  }

  function Step(m: Machine, op: Op): Machine {
    match op
    case AddOp(obj, hole, room) => m.(t := Add(m.t, Cookie(m), obj, hole, room).0)
    case RemoveOp(iref) => m.(t := Remove(m.t, Cookie(m), iref).0)
    case PushFrame => m.(frames := m.frames + [m.t.state])
    case PopFrame =>
      if |m.frames| > 1 then
        Machine(m.t.(state := Cookie(m)), m.frames[..|m.frames| - 1])
      else m
  }

  // ----- The invariant -----

  /** A saved or current state counts the holes below its top index exactly. */
  predicate Exact(s: seq<Slot>, state: nat) {
    Top(state) <= |s| && CountNulls(s[..Top(state)]) == Holes(state)
  }

  /** Two neighbouring states delimit a segment that does not end in a hole. */
  predicate Segment(s: seq<Slot>, lower: nat, upper: nat) {
    && Top(lower) <= Top(upper) <= |s|
    && (Top(lower) < Top(upper) ==> s[Top(upper) - 1].obj != NULL)
  }

  function States(m: Machine): seq<nat> {
    m.frames + [m.t.state]
  }

  predicate Inv(m: Machine) {
    && 1 <= m.t.kind <= 3
    && |m.t.slots| <= m.t.max < 0x1_0000
    && m.frames != [] && m.frames[0] == IRT_FIRST_SEGMENT
    && Top(Cookie(m)) <= Top(m.t.state) <= |m.t.slots|
    && (forall k | 0 <= k < |States(m)| :: Exact(m.t.slots, States(m)[k]))
    && (forall k | 0 <= k < |States(m)| - 1 :: Segment(m.t.slots, States(m)[k], States(m)[k + 1]))
  }

  // ----- Counting -----

  lemma {:induction false} CountBound(s: seq<Slot>)
    ensures CountNulls(s) <= |s|
  {
    if s != [] {
      CountBound(s[..|s| - 1]);
    }
  }

  lemma {:induction false} CountUpdate(s: seq<Slot>, i: nat, x: Slot)
    requires i < |s|
    ensures CountNulls(s[i := x]) + (if s[i].obj == NULL then 1 else 0)
            == CountNulls(s) + (if x.obj == NULL then 1 else 0)
  {
    var last := |s| - 1;
    if i == last {
      assert s[i := x][..last] == s[..last];
    } else {
      CountUpdate(s[..last], i, x);
      assert s[i := x][..last] == s[..last][i := x];
    }
  }

  lemma {:induction false} CountNullTail(s: seq<Slot>, n: nat)
    requires n <= |s| && forall i | n <= i < |s| :: s[i].obj == NULL
    ensures CountNulls(s) == CountNulls(s[..n]) + (|s| - n)
  {
    if n < |s| {
      CountNullTail(s[..|s| - 1], n);
      assert s[..|s| - 1][..n] == s[..n];
    } else {
      assert s[..n] == s;
    }
  }

  lemma {:induction false} TopsAscend(m: Machine, j: nat, k: nat)
    requires forall i | 0 <= i < |States(m)| - 1 :: Segment(m.t.slots, States(m)[i], States(m)[i + 1])
    requires j <= k < |States(m)|
    ensures Top(States(m)[j]) <= Top(States(m)[k])
    decreases k
  {
    if j < k {
      TopsAscend(m, j, k - 1);
      assert Segment(m.t.slots, States(m)[k - 1], States(m)[k]);
    }
  }

  /** The present segment, as the invariant sees it. */
  lemma Current(m: Machine)
    requires Inv(m)
    ensures Exact(m.t.slots, Cookie(m)) && Exact(m.t.slots, m.t.state)
    ensures Segment(m.t.slots, Cookie(m), m.t.state)
    ensures forall k | 0 <= k < |m.frames| :: Top(m.frames[k]) <= Top(Cookie(m))
  {
    var last := |m.frames| - 1;
    assert States(m)[last] == Cookie(m) && States(m)[last + 1] == m.t.state;
    forall k | 0 <= k < |m.frames|
      ensures Top(m.frames[k]) <= Top(Cookie(m))
    {
      TopsAscend(m, k, last);
      assert States(m)[k] == m.frames[k];
    }
  }

  /** A change confined to the current segment keeps everything below it. */
  lemma ReplaceSegment(m: Machine, t: Table)
    requires Inv(m)
    requires t.kind == m.t.kind && t.max == m.t.max && |m.t.slots| <= |t.slots| <= t.max
    requires t.slots[..Top(Cookie(m))] == m.t.slots[..Top(Cookie(m))]
    requires Exact(t.slots, t.state) && Segment(t.slots, Cookie(m), t.state)
    ensures Inv(m.(t := t))
  {
    Current(m);
    var m' := m.(t := t);
    forall k | 0 <= k < |States(m')|
      ensures Exact(t.slots, States(m')[k])
    {
      if k < |m.frames| {
        assert States(m')[k] == m.frames[k] == States(m)[k];
        var n := Top(m.frames[k]);
        assert t.slots[..n] == t.slots[..Top(Cookie(m))][..n] == m.t.slots[..n];
      }
    }
    forall k | 0 <= k < |States(m')| - 1
      ensures Segment(t.slots, States(m')[k], States(m')[k + 1])
    {
      if k < |m.frames| - 1 {
        assert Segment(m.t.slots, States(m)[k], States(m)[k + 1]);
        var n := Top(m.frames[k + 1]);
        assert n > 0 ==> t.slots[n - 1] == t.slots[..Top(Cookie(m))][n - 1] == m.t.slots[n - 1];
      }
    }
  }

  // ----- Every operation keeps the invariant -----

  lemma FillHole(m: Machine, obj: Ref, hole: nat)
    requires Inv(m) && obj != NULL && HasHoles(m.t, Cookie(m)) && IsHole(m.t, Cookie(m), hole)
    ensures Inv(Step(m, AddOp(obj, hole, 0)))
  {
    Current(m);
    var t := m.t;
    var top := Top(t.state);
    var t' := Add(t, Cookie(m), obj, hole, 0).0;
    var x := Slot(obj, t.slots[hole].gen + 1);
    CountBound(t.slots[..top]);
    PackRoundTrip(top, Holes(t.state) - 1);
    CountUpdate(t.slots[..top], hole, x);
    assert t'.slots[..top] == t.slots[..top][hole := x];
    ReplaceSegment(m, t');
  }

  /** What an append does, by name. */
  lemma AppendIs(t: Table, cookie: nat, obj: Ref, hole: nat, room: nat, top: nat, holes: nat)
    requires !HasHoles(t, cookie) && Top(t.state) == top < |Expanded(t, room).slots| && Holes(t.state) == holes
    ensures Add(t, cookie, obj, hole, room).0
            == Fill(Expanded(t, room), top, obj).(state := Pack(top + 1, holes))
  {
  }

  lemma AppendShape(m: Machine, obj: Ref, room: nat)
    requires Inv(m) && !HasHoles(m.t, Cookie(m))
    requires Top(m.t.state) < |Expanded(m.t, room).slots|
    ensures var t, top := Add(m.t, Cookie(m), obj, 0, room).0, Top(m.t.state);
            && t.kind == m.t.kind && t.max == m.t.max && |m.t.slots| <= |t.slots| <= t.max
            && top < |t.slots| && t.slots[..top] == m.t.slots[..top] && t.slots[top].obj == obj
            && Top(t.state) == top + 1 && Holes(t.state) == Holes(m.t.state)
  {
    Current(m);
    CountBound(m.t.slots[..Top(m.t.state)]);
    PackRoundTrip(Top(m.t.state) + 1, Holes(m.t.state));
  }

  lemma Append(m: Machine, obj: Ref, room: nat)
    requires Inv(m) && obj != NULL && !HasHoles(m.t, Cookie(m))
    ensures Inv(m.(t := Add(m.t, Cookie(m), obj, 0, room).0))
  {
    var top := Top(m.t.state);
    if top < |Expanded(m.t, room).slots| {
      var t' := Add(m.t, Cookie(m), obj, 0, room).0;
      AppendShape(m, obj, room);
      Current(m);
      assert t'.slots[..top + 1][..top] == m.t.slots[..top];
      assert t'.slots[..Top(Cookie(m))] == t'.slots[..top][..Top(Cookie(m))] == m.t.slots[..Top(Cookie(m))];
      ReplaceSegment(m, t');
    }
  }

  lemma TrimCount(s: seq<Slot>, bottom: nat, i: nat)
    requires bottom <= i < |s| && s[i].obj != NULL
    ensures var slots := s[i := s[i].(obj := NULL)];
            var r := Trim(slots, bottom, i);
            CountNulls(slots[..r]) == CountNulls(s[..i + 1]) - (i - r)
  {
    var x := s[i].(obj := NULL);
    var slots := s[i := x];
    var r := Trim(slots, bottom, i);
    CountUpdate(s[..i + 1], i, x);
    assert slots[..i + 1] == s[..i + 1][i := x];
    CountNullTail(slots[..i + 1], r);
    assert slots[..i + 1][..r] == slots[..r];
  }

  /** Giving up the holes below a removed topmost entry leaves the exact number. */
  lemma TrimHoles(m: Machine, i: nat, slots: seq<Slot>, r: nat)
    requires Inv(m) && Top(Cookie(m)) <= i && i == Top(m.t.state) - 1 && Live(m.t, i)
    requires slots == m.t.slots[i := m.t.slots[i].(obj := NULL)] && r == Trim(slots, Top(Cookie(m)), i)
    ensures r < 0x1_0000 && CountNulls(slots[..r]) < 0x1_0000
    ensures Holes(m.t.state) - (i - r) == CountNulls(slots[..r])
  {
    Current(m);
    TrimCount(m.t.slots, Top(Cookie(m)), i);
    CountBound(slots[..r]);
  }

  lemma RemoveTopState(m: Machine, i: nat, slots: seq<Slot>, r: nat, holes: int)
    requires Inv(m) && Top(Cookie(m)) <= i && i == Top(m.t.state) - 1 && Live(m.t, i)
    requires slots == m.t.slots[i := m.t.slots[i].(obj := NULL)] && r == Trim(slots, Top(Cookie(m)), i)
    requires holes == Holes(m.t.state) - (i - r)
    ensures Top(Pack(r, holes)) == r && Holes(Pack(r, holes)) == CountNulls(slots[..r])
  {
    TrimHoles(m, i, slots, r);
    PackIs(r, holes, CountNulls(slots[..r]));
  }

  lemma RemoveTopmost(m: Machine, i: nat)
    requires Inv(m) && Top(Cookie(m)) <= i && i == Top(m.t.state) - 1 && Live(m.t, i)
    ensures var slots := m.t.slots[i := m.t.slots[i].(obj := NULL)];
            var top := Trim(slots, Top(Cookie(m)), i);
            Inv(m.(t := m.t.(slots := slots, state := Pack(top, Holes(m.t.state) - (i - top)))))
  {
    var slots := m.t.slots[i := m.t.slots[i].(obj := NULL)];
    var top := Trim(slots, Top(Cookie(m)), i);
    RemoveTopState(m, i, slots, top, Holes(m.t.state) - (i - top));
    assert slots[..Top(Cookie(m))] == m.t.slots[..Top(Cookie(m))];
    ReplaceSegment(m, m.t.(slots := slots, state := Pack(top, Holes(m.t.state) - (i - top))));
  }

  lemma RemoveInside(m: Machine, i: nat)
    requires Inv(m) && Top(Cookie(m)) <= i < Top(m.t.state) - 1 && Live(m.t, i)
    ensures var slots := m.t.slots[i := m.t.slots[i].(obj := NULL)];
            Inv(m.(t := m.t.(slots := slots, state := Pack(Top(m.t.state), Holes(m.t.state) + 1))))
  {
    Current(m);
    var t := m.t;
    var top := Top(t.state);
    var x := t.slots[i].(obj := NULL);
    var slots := t.slots[i := x];
    CountUpdate(t.slots[..top], i, x);
    assert slots[..top] == t.slots[..top][i := x];
    CountBound(slots[..top]);
    PackRoundTrip(top, Holes(t.state) + 1);
    ReplaceSegment(m, t.(slots := slots, state := Pack(top, Holes(t.state) + 1)));
  }

  lemma RemoveInv(m: Machine, iref: nat)
    requires Inv(m)
    ensures Inv(Step(m, RemoveOp(iref)))
  {
    var i := ExtractIndex(iref);
    if Top(Cookie(m)) <= i && Names(m.t, iref) {
      if i == Top(m.t.state) - 1 {
        RemoveTopmost(m, i);
      } else {
        RemoveInside(m, i);
      }
    }
  }

  lemma PushInv(m: Machine)
    requires Inv(m)
    ensures Inv(Step(m, PushFrame))
  {
    Current(m);
    var m' := Step(m, PushFrame);
    assert States(m') == States(m) + [m.t.state];
    forall k | 0 <= k < |States(m')| - 1
      ensures Segment(m'.t.slots, States(m')[k], States(m')[k + 1])
    {
      if k < |States(m)| - 1 {
        assert Segment(m.t.slots, States(m)[k], States(m)[k + 1]);
      }
    }
  }

  lemma PopInv(m: Machine)
    requires Inv(m)
    ensures Inv(Step(m, PopFrame))
  {
    if |m.frames| > 1 {
      var m' := Step(m, PopFrame);
      assert States(m') == States(m)[..|m.frames|];
    }
  }

  /** add demands a valid, non-NULL object. */
  predicate Allowed(op: Op) {
    op.AddOp? ==> op.obj != NULL
  }

  lemma StepInv(m: Machine, op: Op)
    requires Inv(m) && Allowed(op)
    ensures Inv(Step(m, op))
  {
    Current(m);
    match op
    case AddOp(obj, hole, room) =>
      if !HasHoles(m.t, Cookie(m)) {
        Append(m, obj, room);
      } else if IsHole(m.t, Cookie(m), hole) {
        FillHole(m, obj, hole);
      }
    case RemoveOp(iref) => RemoveInv(m, iref);
    case PushFrame => PushInv(m);
    case PopFrame => PopInv(m);
  }

  function Exec(m: Machine, ops: seq<Op>): Machine
    decreases |ops|
  {
    if ops == [] then m else Exec(Step(m, ops[0]), ops[1..])
  }

  /** Over every run the hole count is exact, for the whole table and below the bottom of
      every segment on the stack. */
  lemma {:induction false} ExecInv(m: Machine, ops: seq<Op>)
    requires Inv(m) && forall op | op in ops :: Allowed(op)
    ensures Inv(Exec(m, ops))
    decreases |ops|
  {
    if ops != [] {
      assert Allowed(ops[0]);
      StepInv(m, ops[0]);
      ExecInv(Step(m, ops[0]), ops[1..]);
    }
  }

  /** A count above the cookie's means the search for a hole succeeds. */
  lemma HolesExist(m: Machine)
    requires Inv(m) && HasHoles(m.t, Cookie(m))
    ensures exists i: nat :: IsHole(m.t, Cookie(m), i)
  {
    Current(m);
    var s := m.t.slots[..Top(m.t.state)];
    assert s[..Top(Cookie(m))] == m.t.slots[..Top(Cookie(m))];
    if forall i: nat :: !IsHole(m.t, Cookie(m), i) {
      forall i | Top(Cookie(m)) <= i < |s|
        ensures s[i].obj != NULL
      {
        assert !IsHole(m.t, Cookie(m), i);
      }
      NoHolesCount(s, Top(Cookie(m)));
    }
  }

  lemma {:induction false} NoHolesCount(s: seq<Slot>, n: nat)
    requires n <= |s| && forall i | n <= i < |s| :: s[i].obj != NULL
    ensures CountNulls(s) == CountNulls(s[..n])
  {
    if n < |s| {
      NoHolesCount(s[..|s| - 1], n);
      assert s[..|s| - 1][..n] == s[..n];
    } else {
      assert s[..n] == s;
    }
  }

  // ----- Segments protect what is below them -----

  lemma StepBelowBottom(m: Machine, op: Op)
    requires Inv(m)
    ensures var m' := Step(m, op);
            && |m.t.slots| <= |m'.t.slots|
            && m'.t.slots[..Top(Cookie(m))] == m.t.slots[..Top(Cookie(m))]
            && (op.PopFrame? ==> m'.t.slots == m.t.slots)
  {
    Current(m);
  }

  /** The stack never shrinks below d frames during the run. */
  predicate StaysAbove(m: Machine, ops: seq<Op>, d: nat)
    decreases |ops|
  {
    |m.frames| >= d && (ops != [] ==> StaysAbove(Step(m, ops[0]), ops[1..], d))
  }

  lemma {:induction false} RunBelowFrame(m: Machine, ops: seq<Op>, d: nat)
    requires Inv(m) && (forall op | op in ops :: Allowed(op))
    requires 0 < d && StaysAbove(m, ops, d)
    ensures var m' := Exec(m, ops);
            && |m'.frames| >= d && m'.frames[..d] == m.frames[..d]
            && |m.t.slots| <= |m'.t.slots|
            && Top(m.frames[d - 1]) <= |m.t.slots|
            && m'.t.slots[..Top(m.frames[d - 1])] == m.t.slots[..Top(m.frames[d - 1])]
    decreases |ops|
  {
    Current(m);
    if ops != [] {
      var m1 := Step(m, ops[0]);
      assert Allowed(ops[0]);
      StepInv(m, ops[0]);
      StepBelowBottom(m, ops[0]);
      assert m1.frames[..d] == m.frames[..d];
      assert m1.frames[d - 1] == m1.frames[..d][d - 1] == m.frames[d - 1];
      var n := Top(m.frames[d - 1]);
      assert m1.t.slots[..n] == m1.t.slots[..Top(Cookie(m))][..n] == m.t.slots[..n];
      RunBelowFrame(m1, ops[1..], d);
    }
  }

  lemma {:induction false} ExecAppend(m: Machine, a: seq<Op>, b: seq<Op>)
    ensures Exec(m, a + b) == Exec(Exec(m, a), b)
    decreases |a|
  {
    if a == [] {
      assert a + b == b;
    } else {
      assert (a + b)[1..] == a[1..] + b;
      ExecAppend(Step(m, a[0]), a[1..], b);
    }
  }

  /** Push a frame, do anything inside it, pop it: the segment state and every entry that
      was in the table are back as they were. */
  lemma FrameRestores(m: Machine, ops: seq<Op>)
    requires Inv(m) && (forall op | op in ops :: Allowed(op))
    requires StaysAbove(Step(m, PushFrame), ops, |m.frames| + 1)
    requires |Exec(Step(m, PushFrame), ops).frames| == |m.frames| + 1
    ensures var m' := Exec(m, [PushFrame] + ops + [PopFrame]);
            && m'.frames == m.frames && m'.t.state == m.t.state
            && |m.t.slots| <= |m'.t.slots|
            && m'.t.slots[..Top(m.t.state)] == m.t.slots[..Top(m.t.state)]
  {
    var m1 := Step(m, PushFrame);
    PushInv(m);
    RunBelowFrame(m1, ops, |m.frames| + 1);
    var m2 := Exec(m1, ops);
    assert m1.frames[..|m.frames| + 1] == m1.frames;
    assert m2.frames == m1.frames;
    assert ([PushFrame] + ops)[1..] == ops;
    ExecAppend(m, [PushFrame] + ops, [PopFrame]);
    assert [PopFrame][1..] == [];
    assert Exec(m2, [PopFrame]) == Step(m2, PopFrame);
  }

  // ----- What becomes of a handle -----

  /** The operation ends the life of the entry at index i. */
  predicate Kills(m: Machine, op: Op, i: nat) {
    match op
    case RemoveOp(iref) => ExtractIndex(iref) == i && Top(Cookie(m)) <= i && Names(m.t, iref)
    case PopFrame => |m.frames| > 1 && Top(Cookie(m)) <= i
    case _ => false
  }

  predicate Killed(m: Machine, ops: seq<Op>, i: nat)
    decreases |ops|
  {
    ops != [] && (Kills(m, ops[0], i) || Killed(Step(m, ops[0]), ops[1..], i))
  }

  lemma FilledFates(t: Table, t': Table, j: nat, obj: Ref, i: nat)
    requires obj != NULL && i < |t.slots| && |t.slots| <= |t'.slots| && j < |t'.slots|
    requires Top(t.state) <= |t.slots| && Top(t'.state) >= Top(t.state)
    requires forall k | 0 <= k < |t.slots| && k != j :: t'.slots[k] == t.slots[k]
    requires j < |t.slots| ==> !Live(t, j) && t'.slots[j] == Slot(obj, t.slots[j].gen + 1)
    requires Top(t'.state) == Top(t.state) || (Top(t'.state) == Top(t.state) + 1 && j == Top(t.state))
    ensures Live(t, i) ==> Live(t', i) && t'.slots[i] == t.slots[i]
    ensures !Live(t, i) && Live(t', i) ==> t'.slots[i].gen == t.slots[i].gen + 1
    ensures t'.slots[i].gen >= t.slots[i].gen
  {
  }

  lemma AddFates(m: Machine, obj: Ref, hole: nat, room: nat, i: nat)
    requires Inv(m) && obj != NULL && i < |m.t.slots|
    ensures var t := Add(m.t, Cookie(m), obj, hole, room).0;
            && i < |t.slots|
            && (Live(m.t, i) ==> Live(t, i) && t.slots[i] == m.t.slots[i])
            && (!Live(m.t, i) && Live(t, i) ==> t.slots[i].gen == m.t.slots[i].gen + 1)
            && t.slots[i].gen >= m.t.slots[i].gen
  {
    Current(m);
    var top, t := Top(m.t.state), Add(m.t, Cookie(m), obj, hole, room).0;
    CountBound(m.t.slots[..top]);
    if HasHoles(m.t, Cookie(m)) {
      if IsHole(m.t, Cookie(m), hole) {
        PackRoundTrip(top, Holes(m.t.state) - 1);
        FilledFates(m.t, t, hole, obj, i);
      }
    } else if top < |Expanded(m.t, room).slots| {
      AppendIs(m.t, Cookie(m), obj, hole, room, top, Holes(m.t.state));
      PackRoundTrip(top + 1, Holes(m.t.state));
      FilledFates(m.t, t, top, obj, i);
    }
  }

  /** Clearing slot j, with the top index falling over nothing but empty slots. */
  lemma ClearedFates(t: Table, t': Table, j: nat, top: nat, i: nat)
    requires Live(t, j) && i < |t.slots| && Top(t.state) <= |t.slots|
    requires t'.slots == t.slots[j := t.slots[j].(obj := NULL)]
    requires Top(t'.state) == top <= Top(t.state)
    requires forall k | top <= k < Top(t.state) :: t'.slots[k].obj == NULL
    ensures Live(t', i) <==> Live(t, i) && i != j
    ensures Live(t', i) ==> t'.slots[i] == t.slots[i]
    ensures t'.slots[i].gen == t.slots[i].gen
  {
  }

  lemma RemoveFates(m: Machine, iref: nat, i: nat)
    requires Inv(m) && i < |m.t.slots|
    ensures var t := Remove(m.t, Cookie(m), iref).0;
            && i < |t.slots|
            && (Live(t, i) <==> Live(m.t, i) && !Kills(m, RemoveOp(iref), i))
            && (Live(t, i) ==> t.slots[i] == m.t.slots[i])
            && t.slots[i].gen == m.t.slots[i].gen
  {
    var j := ExtractIndex(iref);
    if Top(Cookie(m)) <= j && Names(m.t, iref) {
      var t := Remove(m.t, Cookie(m), iref).0;
      if j == Top(m.t.state) - 1 {
        var slots := m.t.slots[j := m.t.slots[j].(obj := NULL)];
        var top := Trim(slots, Top(Cookie(m)), j);
        RemoveTopState(m, j, slots, top, Holes(m.t.state) - (j - top));
        ClearedFates(m.t, t, j, Top(t.state), i);
      } else {
        assert Top(t.state) == Top(m.t.state);
        ClearedFates(m.t, t, j, Top(t.state), i);
      }
    }
  }

  /** A live entry stays, unchanged, until an operation kills it; a dead slot comes back
      only under a new serial. */
  lemma StepFates(m: Machine, op: Op, i: nat)
    requires Inv(m) && Allowed(op) && i < |m.t.slots|
    ensures var t := Step(m, op).t;
            && i < |t.slots|
            && (Live(m.t, i) && !Kills(m, op, i) ==> Live(t, i) && t.slots[i] == m.t.slots[i])
            && (Live(m.t, i) && Kills(m, op, i) ==> !Live(t, i) && t.slots[i].gen == m.t.slots[i].gen)
            && (!Live(m.t, i) && Live(t, i) ==> t.slots[i].gen == m.t.slots[i].gen + 1)
            && t.slots[i].gen >= m.t.slots[i].gen
  {
    match op
    case AddOp(obj, hole, room) => AddFates(m, obj, hole, room, i);
    case RemoveOp(iref) => RemoveFates(m, iref, i);
    case PushFrame =>
    case PopFrame => Current(m);
  }

  /** What a handle issued with generation g for index i means in a table. */
  predicate Stale(t: Table, i: nat, g: nat) {
    i < |t.slots| && (t.slots[i].gen > g || (t.slots[i].gen == g && !Live(t, i)))
  }

  lemma {:induction false} StaleForGood(m: Machine, ops: seq<Op>, i: nat, g: nat)
    requires Inv(m) && (forall op | op in ops :: Allowed(op)) && Stale(m.t, i, g)
    ensures Stale(Exec(m, ops).t, i, g)
    decreases |ops|
  {
    if ops != [] {
      assert Allowed(ops[0]);
      StepInv(m, ops[0]);
      StepFates(m, ops[0], i);
      StaleForGood(Step(m, ops[0]), ops[1..], i, g);
    }
  }

  lemma {:induction false} EntryFate(m: Machine, ops: seq<Op>, i: nat)
    requires Inv(m) && (forall op | op in ops :: Allowed(op)) && Live(m.t, i)
    ensures var t := Exec(m, ops).t;
            if Killed(m, ops, i) then Stale(t, i, m.t.slots[i].gen)
            else Live(t, i) && t.slots[i] == m.t.slots[i]
    decreases |ops|
  {
    if ops != [] {
      assert Allowed(ops[0]);
      StepInv(m, ops[0]);
      StepFates(m, ops[0], i);
      var m1 := Step(m, ops[0]);
      if Kills(m, ops[0], i) {
        StaleForGood(m1, ops[1..], i, m.t.slots[i].gen);
      } else {
        EntryFate(m1, ops[1..], i);
      }
    }
  }

  lemma KindIsConstant(m: Machine, ops: seq<Op>)
    ensures Exec(m, ops).t.kind == m.t.kind
    decreases |ops|
  {
    if ops != [] {
      KindIsConstant(Step(m, ops[0]), ops[1..]);
    }
  }

  /** What a table of the same kind makes of the handle of generation g at index i. */
  lemma HandleIn(t: Table, i: nat, g: nat)
    requires i < |t.slots| && i < 0x1_0000 && 1 <= t.kind <= 3
    ensures var iref := ToIndirectRef(i, g % SERIALS, t.kind);
            Get(t, iref) == if Live(t, i) && g % SERIALS == t.slots[i].gen % SERIALS then t.slots[i].obj else INVALID
  {
    HandleRoundTrip(i, g % SERIALS, t.kind);
  }

  /** Over any run a handle yields its own object until its entry is removed or popped.
      From then on it is invalid until its slot has been filled another 4096 times, and
      after that it is valid exactly when the slot is live with its serial again. */
  lemma HandleFate(m: Machine, ops: seq<Op>, i: nat)
    requires Inv(m) && (forall op | op in ops :: Allowed(op)) && Live(m.t, i)
    ensures var t := Exec(m, ops).t;
            var iref := Handle(m.t, i);
            && i < |t.slots| && m.t.slots[i].gen <= t.slots[i].gen
            && (!Killed(m, ops, i) ==> Get(t, iref) == m.t.slots[i].obj)
            && (Killed(m, ops, i) ==>
                  Get(t, iref) ==
                  if Live(t, i) && (t.slots[i].gen - m.t.slots[i].gen) % 0x1000 == 0 then t.slots[i].obj
                  else 0xdead4321)
            && (Killed(m, ops, i) && Live(t, i) ==> t.slots[i].gen > m.t.slots[i].gen)
  {
    Current(m);
    EntryFate(m, ops, i);
    KindIsConstant(m, ops);
    HandleIn(Exec(m, ops).t, i, m.t.slots[i].gen);
    SameSerial(m.t.slots[i].gen, Exec(m, ops).t.slots[i].gen);
  }

  lemma SameSerial(g: nat, g': nat)
    requires g <= g'
    ensures g % SERIALS == g' % SERIALS <==> (g' - g) % SERIALS == 0
  {
  }

  /** The handle add returns reads back the object just added. */
  lemma AddThenGet(m: Machine, obj: Ref, hole: nat, room: nat)
    requires Inv(m) && obj != NULL
    ensures var (t, iref) := Add(m.t, Cookie(m), obj, hole, room);
            iref != NULL ==> Names(t, iref) && Get(t, iref) == obj
  {
    Current(m);
    var (t, iref) := Add(m.t, Cookie(m), obj, hole, room);
    var top := Top(m.t.state);
    CountBound(m.t.slots[..top]);
    if HasHoles(m.t, Cookie(m)) {
      if IsHole(m.t, Cookie(m), hole) {
        PackRoundTrip(top, Holes(m.t.state) - 1);
        HandleRoundTrip(hole, t.slots[hole].gen % SERIALS, t.kind);
      }
    } else if top < |Expanded(m.t, room).slots| {
      PackRoundTrip(top + 1, Holes(m.t.state));
      HandleRoundTrip(top, t.slots[top].gen % SERIALS, t.kind);
    }
  }

  /** What get answers, in numbers: kind in bits 0 and 1, index in bits 2 to 17, serial from
      bit 20 on. */
  lemma GetIsExact(t: Table, iref: nat)
    ensures Get(t, iref) ==
            var i := iref / 4 % 0x1_0000;
            if iref % 4 == t.kind && i < t.state % 0x1_0000 && i < |t.slots| && t.slots[i].obj != 0
               && iref / 0x10_0000 == t.slots[i].gen % 0x1000
            then t.slots[i].obj
            else 0xdead4321
  {
  }

  /** remove answers truly: either it removed nothing and changed nothing, or the handle
      named an entry of the segment and is invalid now. */
  lemma RemoveAnswers(m: Machine, iref: nat)
    requires Inv(m)
    ensures var (t, removed) := Remove(m.t, Cookie(m), iref);
            && (removed <==> Top(Cookie(m)) <= ExtractIndex(iref) && Names(m.t, iref))
            && (!removed ==> t == m.t)
            && (removed ==> Get(t, iref) == 0xdead4321)
  {
    if ExtractIndex(iref) < |m.t.slots| {
      RemoveFates(m, iref, ExtractIndex(iref));
    }
  }

  /** add fails only when the segment has no hole and the table cannot expand. */
  lemma AddFailsOnlyWhenFull(m: Machine, obj: Ref, hole: nat, room: nat)
    requires Inv(m) && obj != NULL
    requires HasHoles(m.t, Cookie(m)) ==> IsHole(m.t, Cookie(m), hole)
    ensures Add(m.t, Cookie(m), obj, hole, room).1 == NULL <==>
            && !HasHoles(m.t, Cookie(m))
            && Top(m.t.state) == |m.t.slots|
            && (room == 0 || |m.t.slots| + room > m.t.max)
  {
    Current(m);
    var t := Add(m.t, Cookie(m), obj, hole, room).0;
    if HasHoles(m.t, Cookie(m)) {
      HandleRoundTrip(hole, t.slots[hole].gen % SERIALS, t.kind);
    } else if Top(m.t.state) < |Expanded(m.t, room).slots| {
      HandleRoundTrip(Top(m.t.state), t.slots[Top(m.t.state)].gen % SERIALS, t.kind);
    }
  }

  // ----- The limits are exact -----

  ghost predicate Topmost(m: Machine, i: nat) {
    && Live(m.t, i)
    && i == Top(m.t.state) - 1
    && Top(Cookie(m)) <= i
    && !HasHoles(m.t, Cookie(m))
  }

  /** Removing the topmost entry of a segment without holes and adding again reuses its
      slot, as often as one likes. */
  lemma {:induction false} Recycle(m: Machine, i: nat, obj: Ref, n: nat) returns (ops: seq<Op>)
    requires Inv(m) && obj != NULL && Topmost(m, i)
    ensures forall op | op in ops :: Allowed(op)
    ensures Live(Exec(m, ops).t, i)
    ensures Exec(m, ops).t.slots[i] == if n == 0 then m.t.slots[i] else Slot(obj, m.t.slots[i].gen + n)
    decreases n
  {
    ops := [];
    if n > 0 {
      RecycleOnce(m, i, obj);
      var drop, add := RemoveOp(Handle(m.t, i)), AddOp(obj, 0, 0);
      var rest := Recycle(Refilled(m, i, obj), i, obj, n - 1);
      ops := [drop] + ([add] + rest);
      ExecTwo(m, drop, add, rest);
    }
  }

  lemma RecycleOnce(m: Machine, i: nat, obj: Ref)
    requires Inv(m) && obj != NULL && Topmost(m, i)
    ensures Step(Step(m, RemoveOp(Handle(m.t, i))), AddOp(obj, 0, 0)) == Refilled(m, i, obj)
    ensures Inv(Refilled(m, i, obj)) && Topmost(Refilled(m, i, obj), i)
  {
    Drop(m, i);
    Refill(m, i, obj);
    RecycleInv(m, RemoveOp(Handle(m.t, i)), AddOp(obj, 0, 0));
    RefilledTopmost(m, i, obj);
  }

  lemma RecycleInv(m: Machine, a: Op, b: Op)
    requires Inv(m) && Allowed(a) && Allowed(b)
    ensures Inv(Step(Step(m, a), b))
  {
    StepInv(m, a);
    StepInv(Step(m, a), b);
  }

  lemma RefilledTopmost(m: Machine, i: nat, obj: Ref)
    requires Topmost(m, i) && obj != NULL
    ensures Topmost(Refilled(m, i, obj), i)
  {
  }

  lemma ExecTwo(m: Machine, a: Op, b: Op, rest: seq<Op>)
    ensures Exec(m, [a] + ([b] + rest)) == Exec(Step(Step(m, a), b), rest)
  {
    assert ([a] + ([b] + rest))[1..] == [b] + rest;
    assert ([b] + rest)[1..] == rest;
  }

  ghost function Dropped(m: Machine, i: nat): Machine
    requires i < |m.t.slots|
  {
    m.(t := m.t.(slots := m.t.slots[i := m.t.slots[i].(obj := NULL)], state := Pack(i, Holes(m.t.state))))
  }

  ghost function Refilled(m: Machine, i: nat, obj: Ref): Machine
    requires i < |m.t.slots|
  {
    m.(t := m.t.(slots := m.t.slots[i := Slot(obj, m.t.slots[i].gen + 1)]))
  }

  lemma Drop(m: Machine, i: nat)
    requires Inv(m) && Live(m.t, i)
    requires i == Top(m.t.state) - 1 && Top(Cookie(m)) <= i && !HasHoles(m.t, Cookie(m))
    ensures Step(m, RemoveOp(Handle(m.t, i))) == Dropped(m, i)
  {
    HandleRoundTrip(i, m.t.slots[i].gen % SERIALS, m.t.kind);
    if i > Top(Cookie(m)) {
      SegmentHasNoHole(m, i - 1);
    }
    assert Trim(m.t.slots[i := m.t.slots[i].(obj := NULL)], Top(Cookie(m)), i) == i;
  }

  lemma RepackIs(all: nat)
    requires Holes(all) < 0x1_0000
    ensures Pack(Top(all), Holes(all)) == all
  {
  }

  lemma DroppedState(m: Machine, i: nat)
    requires Inv(m) && Live(m.t, i) && i == Top(m.t.state) - 1
    ensures Top(Dropped(m, i).t.state) == i && Holes(Dropped(m, i).t.state) == Holes(m.t.state)
    ensures Pack(i + 1, Holes(m.t.state)) == m.t.state
  {
    Current(m);
    CountBound(m.t.slots[..Top(m.t.state)]);
    PackRoundTrip(i, Holes(m.t.state));
    RepackIs(m.t.state);
  }

  lemma Refill(m: Machine, i: nat, obj: Ref)
    requires Inv(m) && Live(m.t, i)
    requires i == Top(m.t.state) - 1 && !HasHoles(m.t, Cookie(m))
    ensures Step(Dropped(m, i), AddOp(obj, 0, 0)) == Refilled(m, i, obj)
  {
    DroppedState(m, i);
    var d := Dropped(m, i);
    AppendIs(d.t, Cookie(d), obj, 0, 0, i, Holes(m.t.state));
    assert d.t.slots[i := Slot(obj, m.t.slots[i].gen + 1)] == m.t.slots[i := Slot(obj, m.t.slots[i].gen + 1)];
  }

  lemma SegmentHasNoHole(m: Machine, i: nat)
    requires Inv(m) && !HasHoles(m.t, Cookie(m)) && Top(Cookie(m)) <= i < Top(m.t.state)
    ensures m.t.slots[i].obj != NULL
  {
    Current(m);
    if m.t.slots[i].obj == NULL {
      var s := m.t.slots[..Top(m.t.state)];
      assert s[..Top(Cookie(m))] == m.t.slots[..Top(Cookie(m))];
      CountMonotone(s, Top(Cookie(m)), i);
    }
  }

  lemma {:induction false} CountMonotone(s: seq<Slot>, n: nat, i: nat)
    requires n <= i < |s| && s[i].obj == NULL
    ensures CountNulls(s) > CountNulls(s[..n])
  {
    var last := |s| - 1;
    assert s[..last][..n] == s[..n];
    if i < last {
      CountMonotone(s[..last], n, i);
    } else {
      CountPrefix(s[..last], n);
    }
  }

  lemma {:induction false} CountPrefix(s: seq<Slot>, n: nat)
    requires n <= |s|
    ensures CountNulls(s[..n]) <= CountNulls(s)
  {
    if n < |s| {
      CountPrefix(s[..|s| - 1], n);
      assert s[..|s| - 1][..n] == s[..n];
    } else {
      assert s[..n] == s;
    }
  }

  /** After exactly 4096 refills a removed handle is taken for the new entry. */
  lemma SerialWindowIsExact(m: Machine, i: nat, obj: Ref) returns (ops: seq<Op>)
    requires Inv(m) && obj != NULL && Topmost(m, i)
    ensures forall op | op in ops :: Allowed(op)
    ensures Killed(m, ops, i) && Get(Exec(m, ops).t, Handle(m.t, i)) == obj
    ensures i < |Exec(m, ops).t.slots| && Exec(m, ops).t.slots[i].gen == m.t.slots[i].gen + 0x1000
  {
    ops := Recycle(m, i, obj, SERIALS);
    EntryFate(m, ops, i);
    HandleFate(m, ops, i);
  }

  /** An append moves the 16-bit top index on exactly while it is below 0xFFFF. */
  lemma TopIndexStep(t: Table, cookie: nat, obj: Ref, room: nat)
    requires !HasHoles(t, cookie) && Top(t.state) < |Expanded(t, room).slots|
    ensures Top(Add(t, cookie, obj, 0, room).0.state) == Top(t.state) + 1 <==> Top(t.state) < 0xFFFF
  {
  }

  /** The append at 0xFFFF wraps the index, and every handle reads as invalid. */
  lemma TopIndexWraps(t: Table, cookie: nat, obj: Ref, room: nat, iref: nat)
    requires !HasHoles(t, cookie) && Top(t.state) == 0xFFFF < |Expanded(t, room).slots|
    ensures Top(Add(t, cookie, obj, 0, room).0.state) == 0
    ensures Get(Add(t, cookie, obj, 0, room).0, iref) == INVALID
  {
  }

  /** A table as init leaves it, and the one segment the VM starts with. */
  function Initial(initialCount: nat, max: nat, kind: nat): Machine {
    Machine(Table(seq(initialCount, _ => Slot(NULL, 0)), IRT_FIRST_SEGMENT, kind, max), [IRT_FIRST_SEGMENT])
  }

  lemma InitialInv(initialCount: nat, max: nat, kind: nat)
    requires initialCount <= max < 0x1_0000 && 1 <= kind <= 3
    ensures Inv(Initial(initialCount, max, kind))
  {
    assert Initial(initialCount, max, kind).t.slots[..0] == [];
  }

  predicate AllAllowed(ops: seq<Op>) {
    forall op | op in ops :: Allowed(op)
  }

  /** Run, add, run on: the handle of the add yields its object until it is removed or
      popped. */
  predicate HandleHolds(m0: Machine, before: seq<Op>, add: Op, after: seq<Op>)
    requires add.AddOp?
  {
    var m := Exec(m0, before);
    var iref := Add(m.t, Cookie(m), add.obj, add.hole, add.room).1;
    var m1 := Step(m, add);
    iref != NULL && !Killed(m1, after, ExtractIndex(iref)) ==> Get(Exec(m1, after).t, iref) == add.obj
  }

  ghost predicate HandlesHold(m0: Machine) {
    forall before, add: Op, after | AllAllowed(before) && add.AddOp? && Allowed(add) && AllAllowed(after) ::
      HandleHolds(m0, before, add, after)
  }

  /** The handle add returns is that of the live slot it filled. */
  lemma AddGivesHandle(m: Machine, obj: Ref, hole: nat, room: nat)
    requires Inv(m) && obj != NULL
    ensures var (t, iref) := Add(m.t, Cookie(m), obj, hole, room);
            var i := ExtractIndex(iref);
            iref != NULL ==> Live(t, i) && t.slots[i].obj == obj && iref == Handle(t, i)
  {
    Current(m);
    var (t, iref) := Add(m.t, Cookie(m), obj, hole, room);
    AddThenGet(m, obj, hole, room);
    var i := if HasHoles(m.t, Cookie(m)) then hole else Top(m.t.state);
    if iref != NULL {
      HandleRoundTrip(i, t.slots[i].gen % SERIALS, t.kind);
    }
  }

  lemma CappedTableHolds(m0: Machine, before: seq<Op>, add: Op, after: seq<Op>)
    requires Inv(m0) && AllAllowed(before) && add.AddOp? && Allowed(add) && AllAllowed(after)
    ensures HandleHolds(m0, before, add, after)
  {
    ExecInv(m0, before);
    var m := Exec(m0, before);
    StepInv(m, add);
    var iref := Add(m.t, Cookie(m), add.obj, add.hole, add.room).1;
    if iref != NULL {
      AddGivesHandle(m, add.obj, add.hole, add.room);
      HandleFate(Step(m, add), after, ExtractIndex(iref));
    }
  }

  // ----- Filling a table that may grow beyond 65535 entries -----

  const ONE_MORE: Op := AddOp(1, 0, 1)

  function Adds(n: nat): (ops: seq<Op>)
    ensures |ops| == n && forall i | 0 <= i < n :: ops[i] == ONE_MORE
  {
    seq(n, _ => ONE_MORE)
  }

  /** After k adds. */
  predicate FilledTo(m: Machine, k: nat) {
    && m.frames == [IRT_FIRST_SEGMENT]
    && Top(m.t.state) == k <= 0xFFFF && Holes(m.t.state) == 0
    && k <= |m.t.slots| && m.t.max >= 0x1_0000
  }

  lemma OneMoreFills(m: Machine, k: nat)
    requires FilledTo(m, k) && k < 0xFFFF
    ensures FilledTo(Step(m, ONE_MORE), k + 1)
  {
    AppendIs(m.t, Cookie(m), 1, 0, 1, k, 0);
    PackRoundTrip(k + 1, 0);
  }

  lemma {:induction false} AddsFill(m: Machine, k: nat, n: nat)
    requires FilledTo(m, k) && k + n <= 0xFFFF
    ensures FilledTo(Exec(m, Adds(n)), k + n)
    decreases n
  {
    if n > 0 {
      OneMoreFills(m, k);
      assert Adds(n)[1..] == Adds(n - 1);
      AddsFill(Step(m, ONE_MORE), k + 1, n - 1);
    }
  }

  lemma LastAddFails(m: Machine)
    requires FilledTo(m, 0xFFFF)
    ensures var (t, iref) := Add(m.t, Cookie(m), 1, 0, 1);
            iref != NULL && Get(t, iref) == INVALID
  {
    var t, iref := Add(m.t, Cookie(m), 1, 0, 1).0, Add(m.t, Cookie(m), 1, 0, 1).1;
    TopIndexWraps(m.t, Cookie(m), 1, 1, iref);
    HandleIsNotNull(0xFFFF, t.slots[0xFFFF].gen % SERIALS, t.kind);
  }

  lemma HandleIsNotNull(index: nat, serial: nat, kind: nat)
    requires index > 0
    ensures ToIndirectRef(index, serial, kind) != NULL
  {
  }

  /** Exactly which tables keep every handle they give out valid until it is removed or
      popped, over every run from init: those that may hold at most 65535 entries. */
  lemma CapIsExact(initialCount: nat, max: nat, kind: nat)
    requires initialCount <= max && 1 <= kind <= 3
    ensures HandlesHold(Initial(initialCount, max, kind)) <==> max < 0x1_0000
  {
    var m0 := Initial(initialCount, max, kind);
    if max < 0x1_0000 {
      InitialInv(initialCount, max, kind);
      forall before, add: Op, after | AllAllowed(before) && add.AddOp? && Allowed(add) && AllAllowed(after)
        ensures HandleHolds(m0, before, add, after)
      {
        CappedTableHolds(m0, before, add, after);
      }
    } else {
      AddsFill(m0, 0, 0xFFFF);
      LastAddFails(Exec(m0, Adds(0xFFFF)));
      assert AllAllowed(Adds(0xFFFF)) && AllAllowed([]);
      assert !HandleHolds(m0, Adds(0xFFFF), ONE_MORE, []);
    }
  }

  // ----- The iterator -----

  predicate Visible(x: Slot) {
    x.obj != NULL && x.obj != TOMBSTONE
  }

  /** The indices below n that a client gets to see, in order. */
  function VisibleBelow(s: seq<Slot>, n: nat): seq<nat>
    requires n <= |s|
  {
    if n == 0 then []
    else VisibleBelow(s, n - 1) + if Visible(s[n - 1]) then [n - 1] else []
  }

  lemma {:induction false} VisibleBelowIsExact(s: seq<Slot>, n: nat)
    requires n <= |s|
    ensures forall i: nat :: i in VisibleBelow(s, n) <==> i < n && s[i].obj != 0 && s[i].obj != 0xdead1234
    ensures forall j, k | 0 <= j < k < |VisibleBelow(s, n)| :: VisibleBelow(s, n)[j] < VisibleBelow(s, n)[k]
  {
    if n > 0 {
      VisibleBelowIsExact(s, n - 1);
      var before := VisibleBelow(s, n - 1);
      forall j | 0 <= j < |before|
        ensures before[j] < n - 1
      {
        assert before[j] in before;
      }
    }
  }

  lemma {:induction false} NothingVisible(s: seq<Slot>, m: nat, n: nat)
    requires m <= n <= |s| && forall i | m <= i < n :: !Visible(s[i])
    ensures VisibleBelow(s, n) == VisibleBelow(s, m)
  {
    if m < n {
      NothingVisible(s, m, n - 1);
    }
  }

  class IrefIterator {
    const table: array<Slot>
    var i: nat
    const capacity: nat

    /** Starts at the first visible slot from i on. */
    constructor (table: array<Slot>, i: nat, capacity: nat)
      requires i <= capacity <= table.Length
      ensures this.table == table && this.capacity == capacity
      ensures i <= this.i <= capacity
      ensures forall j | i <= j < this.i :: !Visible(table[j])
      ensures this.i < capacity ==> Visible(table[this.i])
    {
      this.table := table;
      this.i := i;
      this.capacity := capacity;
      new;
      SkipNullsAndTombstones();
    }

    method SkipNullsAndTombstones()
      requires i <= capacity <= table.Length
      modifies this`i
      ensures old(i) <= i <= capacity
      ensures forall j | old(i) <= j < i :: !Visible(table[j])
      ensures i < capacity ==> Visible(table[i])
    {
      while i < capacity && (table[i].obj == NULL || table[i].obj == TOMBSTONE)
        invariant old(i) <= i <= capacity
        invariant forall j | old(i) <= j < i :: !Visible(table[j])
      {
        i := i + 1;
      }
    }

    /** operator++. */
    method Next()
      requires i < capacity <= table.Length
      modifies this`i
      ensures old(i) < i <= capacity
      ensures forall j | old(i) < j < i :: !Visible(table[j])
      ensures i < capacity ==> Visible(table[i])
    {
      i := i + 1;
      SkipNullsAndTombstones();
    }
  }

  /** The client's loop: for (it = begin(); it != end(); ++it). It ends, and sees every
      entry below the top index that is neither NULL nor a tombstone, once, in order. */
  method Iterate(table: array<Slot>, capacity: nat) returns (seen: seq<nat>)
    requires capacity <= table.Length
    ensures seen == VisibleBelow(table[..], capacity)
  {
    var it := new IrefIterator(table, 0, capacity);
    var end := new IrefIterator(table, capacity, capacity);
    seen := [];
    NothingVisible(table[..], 0, it.i);
    while it.i != end.i
      invariant it.table == table && it.capacity == capacity && fresh(it) && end.i == capacity && end != it
      invariant it.i <= capacity && (it.i < capacity ==> Visible(table[it.i]))
      invariant seen == VisibleBelow(table[..], it.i)
      decreases capacity - it.i
    {
      ghost var here := it.i;
      seen := seen + [it.i];
      it.Next();
      NothingVisible(table[..], here + 1, it.i);
    }
  }

  // ----- The table as the program keeps it -----

  class IndirectRefTable {
    var table: array<Slot>
    var segmentState: nat
    const kind: nat
    const maxEntries: nat

    /** init. */
    constructor (initialCount: nat, maxCount: nat, kind: nat)
      requires initialCount <= maxCount
      ensures fresh(table) && State() == Initial(initialCount, maxCount, kind).t
      ensures maxCount < 0x1_0000 && 1 <= kind <= 3 ==> Inv(Machine(State(), [IRT_FIRST_SEGMENT]))
    {
      table := new Slot[initialCount](_ => Slot(NULL, 0));
      segmentState := IRT_FIRST_SEGMENT;
      this.kind := kind;
      maxEntries := maxCount;
      new;
      assert table[..] == seq(initialCount, _ => Slot(NULL, 0));
      if maxCount < 0x1_0000 && 1 <= kind <= 3 {
        InitialInv(initialCount, maxCount, kind);
      }
    }

    ghost function State(): Table
      reads this, table
    {
      Table(table[..], segmentState, kind, maxEntries)
    }

    /** The entry is found by searching down from the top of the segment. */
    method FindHole(cookie: nat) returns (i: nat)
      requires Top(segmentState) <= table.Length
      requires exists j: nat :: IsHole(State(), cookie, j)
      ensures IsHole(State(), cookie, i)
    {
      ghost var j: nat :| IsHole(State(), cookie, j);
      i := Top(segmentState) - 1;
      while table[i].obj != NULL
        invariant Top(cookie) <= j <= i < Top(segmentState)
        decreases i
      {
        i := i - 1;
      }
    }

    /** Grow the table by "room" entries; contents move to new memory. */
    method Expand(room: nat)
      requires Top(segmentState) == table.Length && table.Length + room <= maxEntries
      modifies this`table
      ensures fresh(table) && State() == Expanded(old(State()), room)
    {
      var old_ := table;
      var bigger := new Slot[old_.Length + room](_ => Slot(NULL, 0));
      forall j | 0 <= j < old_.Length {
        bigger[j] := old_[j];
      }
      table := bigger;
      assert table[..] == old(table[..]) + seq(room, _ => Slot(NULL, 0));
    }

    /** The slow half of add: fill a hole of the segment. */
    method FillEntry(cookie: nat, obj: Ref) returns (iref: nat, ghost hole: nat)
      requires Top(segmentState) <= table.Length && HasHoles(State(), cookie)
      requires exists j: nat :: IsHole(State(), cookie, j)
      modifies this`segmentState, table
      ensures IsHole(old(State()), cookie, hole)
      ensures (State(), iref) == Add(old(State()), cookie, obj, hole, 0)
    {
      var i := FindHole(cookie);
      hole := i;
      table[i] := Slot(obj, table[i].gen + 1);
      segmentState := Pack(Top(segmentState), Holes(segmentState) - 1);
      iref := ToIndirectRef(i, table[i].gen % SERIALS, kind);
      assert table[..] == old(table[..])[i := Slot(obj, old(table[i]).gen + 1)];
    }

    /** The quick half of add: append. */
    method AppendEntry(obj: Ref) returns (iref: nat)
      requires Top(segmentState) < table.Length
      modifies this`segmentState, table
      ensures var top := Top(old(segmentState));
              && State() == Fill(old(State()), top, obj).(state := Pack(top + 1, Holes(old(segmentState))))
              && iref == Handle(State(), top)
    {
      var top := Top(segmentState);
      table[top] := Slot(obj, table[top].gen + 1);
      segmentState := Pack(top + 1, Holes(segmentState));
      iref := ToIndirectRef(top, table[top].gen % SERIALS, kind);
    }

    /** add. "frames" are the cookies the VM keeps; "room" is what the allocator grants. */
    method AddEntry(cookie: nat, obj: Ref, room: nat, ghost frames: seq<nat>) returns (iref: nat, ghost hole: nat)
      requires Inv(Machine(State(), frames)) && Cookie(Machine(State(), frames)) == cookie && obj != NULL
      modifies this, table
      ensures (State(), iref) == Add(old(State()), cookie, obj, hole, room)
      ensures HasHoles(old(State()), cookie) ==> IsHole(old(State()), cookie, hole)
      ensures Inv(Machine(State(), frames))
    {
      ghost var m := Machine(State(), frames);
      if Holes(segmentState) > Holes(cookie) {
        HolesExist(m);
        iref, hole := FillEntry(cookie, obj);
        assert (State(), iref) == Add(m.t, cookie, obj, hole, room);
      } else {
        hole := 0;
        iref := NULL;
        if Top(segmentState) == table.Length && table.Length + room <= maxEntries {
          Expand(room);
          assert room == 0 ==> table[..] == m.t.slots;
        }
        if Top(segmentState) < table.Length {
          iref := AppendEntry(obj);
        }
        assert (State(), iref) == Add(m.t, cookie, obj, hole, room);
      }
      StepInv(m, AddOp(obj, hole, room));
    }

    /** Does the handle name an entry of this table? */
    method Check(iref: nat) returns (ok: bool)
      requires Top(segmentState) <= table.Length
      ensures ok <==> Names(State(), iref)
    {
      var i := ExtractIndex(iref);
      if ExtractKind(iref) != kind {
        return false;
      }
      if i >= Top(segmentState) || table[i].obj == NULL {
        return false;
      }
      return ExtractSerial(iref) == table[i].gen % SERIALS;
    }

    /** get. */
    method GetEntry(iref: nat) returns (obj: Ref)
      requires Top(segmentState) <= table.Length
      ensures obj == Get(State(), iref)
      ensures !Names(State(), iref) ==> obj == 0xdead4321
    {
      var ok := Check(iref);
      if !ok {
        return INVALID;
      }
      return table[ExtractIndex(iref)].obj;
    }

    method TrimTop(bottom: nat, top: nat) returns (r: nat)
      requires top <= table.Length
      ensures r == Trim(table[..], bottom, top)
    {
      r := top;
      while r > bottom && table[r - 1].obj == NULL
        invariant r <= top
        invariant Trim(table[..], bottom, r) == Trim(table[..], bottom, top)
      {
        r := r - 1;
      }
    }

    /** remove. */
    method RemoveEntry(cookie: nat, iref: nat, ghost frames: seq<nat>) returns (removed: bool)
      requires Inv(Machine(State(), frames)) && Cookie(Machine(State(), frames)) == cookie
      modifies this, table
      ensures (State(), removed) == Remove(old(State()), cookie, iref)
      ensures Inv(Machine(State(), frames))
    {
      ghost var m := Machine(State(), frames);
      StepInv(m, RemoveOp(iref));
      var i := ExtractIndex(iref);
      removed := Check(iref);
      if i < Top(cookie) {
        removed := false;
      }
      if removed {
        table[i] := table[i].(obj := NULL);
        assert table[..] == old(table[..])[i := old(table[i]).(obj := NULL)];
        if i == Top(segmentState) - 1 {
          var top := TrimTop(Top(cookie), i);
          segmentState := Pack(top, Holes(segmentState) - (i - top));
        } else {
          segmentState := Pack(Top(segmentState), Holes(segmentState) + 1);
        }
      }
    }
  }
}
