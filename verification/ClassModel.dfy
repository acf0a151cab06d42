/**
 Class descriptors: the superclass chain, the reference-offset bitmap and the two ways
 of walking the reference fields of an instance (jni/hook/oo/Object.h,
 jni/hook/oo/TypeCheck.h, jni/hook/alloc/VisitInlines.h).

 Addresses are natural numbers and NULL is 0. What a GC walk reads of a ClassObject and
 no reference store changes is its ClassInfo.
 */
module ClassModel {
  import opened Words

  type Ref = nat

  const NULL: Ref := 0

  /** A static field: the first character of its signature. */
  predicate IsReferenceSignature(ch: char) {
    ch == '[' || ch == 'L'
  }

  datatype ClassInfo = ClassInfo(
    super: Ref,
    ifieldRefs: seq<nat>,      // byteOffset of each of the first ifieldRefCount fields
    refOffsets: Word,
    isClass: bool,             // CLASS_ISCLASS
    isArray: bool,             // CLASS_ISARRAY
    isObjectArray: bool,       // CLASS_ISOBJECTARRAY
    isReference: bool,         // CLASS_ISREFERENCE
    status: int,
    elementClass: Ref,
    classLoader: Ref,
    interfaces: seq<Ref>,
    sfieldSignatures: string)

  type Classes = map<Ref, ClassInfo>

  // ----- Offsets -----

  const CLASS_SMALLEST_OFFSET := 8
  const CLASS_OFFSET_ALIGNMENT := 4

  /** CLASS_WALK_SUPER, the number 3: the two lowest bits. */
  const CLASS_WALK_SUPER: Word := Or(Bit(30), Bit(31))

  lemma {:induction false} PrefixOfNone(w: Word, k: nat)
    requires k <= 32 && forall j: nat | j < k :: !w[j]
    ensures Prefix(w, k) == 0
  {
    if k > 0 {
      PrefixOfNone(w, k - 1);
    }
  }

  lemma WalkSuperIsThree()
    ensures Value(CLASS_WALK_SUPER) == 3
  {
    var w := CLASS_WALK_SUPER;
    PrefixOfNone(w, 30);
    assert Prefix(w, 31) == 1;
  }

  function BitNumberFromOffset(byteOffset: nat): nat
    requires byteOffset >= CLASS_SMALLEST_OFFSET
  {
    (byteOffset - CLASS_SMALLEST_OFFSET) / CLASS_OFFSET_ALIGNMENT
  }

  /** CLASS_CAN_ENCODE_OFFSET, for offsets a field can have. */
  predicate CanEncodeOffset(byteOffset: nat) {
    && byteOffset >= CLASS_SMALLEST_OFFSET
    && byteOffset % CLASS_OFFSET_ALIGNMENT == 0
    && BitNumberFromOffset(byteOffset) < 32
  }

  function BitFromOffset(byteOffset: nat): Word
    requires CanEncodeOffset(byteOffset)
  {
    Bit(BitNumberFromOffset(byteOffset))
  }

  function OffsetFromClz(rshift: nat): nat {
    rshift * CLASS_OFFSET_ALIGNMENT + CLASS_SMALLEST_OFFSET
  }

  /** Encoding an offset as a bit and counting its leading zeroes gives it back. */
  lemma OffsetRoundTrip(byteOffset: nat)
    requires CanEncodeOffset(byteOffset)
    ensures BitFromOffset(byteOffset) != ZERO
    ensures OffsetFromClz(Clz(BitFromOffset(byteOffset))) == byteOffset
  {
    assert BitFromOffset(byteOffset)[BitNumberFromOffset(byteOffset)];
  }

  // ----- The super chain -----

  const CLASS_IDX := 1

  /** A class whose super and interfaces are references, not DEX indices. */
  predicate Linked(cs: Classes, c: Ref) {
    c in cs && cs[c].status > CLASS_IDX
  }

  /** "depth" decreases along super, and every super is a linked class. */
  ghost predicate IsDepth(cs: Classes, depth: map<Ref, nat>) {
    && depth.Keys == cs.Keys
    && forall c | Linked(cs, c) && cs[c].super != NULL ::
         Linked(cs, cs[c].super) && depth[cs[c].super] < depth[c]
  }

  ghost predicate Acyclic(cs: Classes) {
    NULL !in cs && exists depth :: IsDepth(cs, depth)
  }

  ghost function Depth(cs: Classes): (depth: map<Ref, nat>)
    requires Acyclic(cs)
    ensures IsDepth(cs, depth)
  {
    var depth :| IsDepth(cs, depth);
    depth
  }

  ghost predicate ClassOrNull(cs: Classes, c: Ref) {
    c == NULL || Linked(cs, c)
  }

  ghost function Rank(cs: Classes, c: Ref): nat
    requires Acyclic(cs) && ClassOrNull(cs, c)
  {
    if c == NULL then 0 else 1 + Depth(cs)[c]
  }

  /** The offsets met by walking the super chain: the class's own fields first. */
  ghost function SlowWalk(cs: Classes, c: Ref): seq<nat>
    requires Acyclic(cs) && ClassOrNull(cs, c)
    decreases Rank(cs, c)
  {
    if c == NULL then [] else cs[c].ifieldRefs + SlowWalk(cs, cs[c].super)
  }

  /** The offsets met by taking bits off a bitmap, highest first. */
  ghost function FastWalk(w: Word): seq<nat>
    decreases |Positions(w)|
  {
    if w == ZERO then
      []
    else
      PositionsClear(w, Clz(w));
      [OffsetFromClz(Clz(w))] + FastWalk(And(w, Not(Bit(Clz(w)))))
  }

  ghost function Offsets(s: seq<nat>): set<nat> {
    set o | o in s
  }

  // ----- The two walks agree -----

  /** The bitwise OR of the bits of a list of offsets. */
  ghost function PackOffsets(s: seq<nat>): Word
    requires forall o | o in s :: CanEncodeOffset(o)
  {
    if s == [] then ZERO else Or(BitFromOffset(s[0]), PackOffsets(s[1..]))
  }

  /** What the bitmap of a linked class is: the OR over every reference field of the
      chain, or the marker that says "walk the chain". */
  ghost predicate Packed(cs: Classes, c: Ref)
    requires Acyclic(cs) && Linked(cs, c)
  {
    cs[c].refOffsets == CLASS_WALK_SUPER ||
    ((forall o | o in SlowWalk(cs, c) :: CanEncodeOffset(o)) &&
     cs[c].refOffsets == PackOffsets(SlowWalk(cs, c)))
  }

  /** The offsets visitFields visits, in order. */
  ghost function FieldWalk(cs: Classes, c: Ref): seq<nat>
    requires Acyclic(cs) && Linked(cs, c)
  {
    if cs[c].refOffsets != CLASS_WALK_SUPER then FastWalk(cs[c].refOffsets) else SlowWalk(cs, c)
  }

  predicate Ascending(s: seq<nat>) {
    forall i, j | 0 <= i < j < |s| :: s[i] < s[j]
  }

  /** The offset of a set bit. */
  ghost predicate Encodes(w: Word, o: nat) {
    o >= 8 && o % 4 == 0 && (o - 8) / 4 in Positions(w)
  }

  lemma EncodesFirst(w: Word, o: nat)
    requires w != ZERO
    ensures Encodes(w, o) <==> o == OffsetFromClz(Clz(w)) || Encodes(And(w, Not(Bit(Clz(w)))), o)
    ensures Encodes(And(w, Not(Bit(Clz(w)))), o) ==> OffsetFromClz(Clz(w)) < o
  {
    PositionsClear(w, Clz(w));
    if o >= 8 && o % 4 == 0 {
      assert OffsetFromClz((o - 8) / 4) == o;
    }
  }

  lemma {:induction false} FastWalkIsPositions(w: Word)
    ensures forall o :: o in FastWalk(w) <==> Encodes(w, o)
    ensures Ascending(FastWalk(w))
    decreases |Positions(w)|
  {
    if w == ZERO {
      PositionsZero();
    } else {
      var rest := And(w, Not(Bit(Clz(w))));
      PositionsClear(w, Clz(w));
      FastWalkIsPositions(rest);
      forall o: nat
        ensures o in FastWalk(w) <==> Encodes(w, o)
        ensures o in FastWalk(rest) ==> OffsetFromClz(Clz(w)) < o
      {
        EncodesFirst(w, o);
      }
      Prepended(OffsetFromClz(Clz(w)), FastWalk(rest));
    }
  }

  lemma Prepended(o: nat, s: seq<nat>)
    requires Ascending(s) && forall x | x in s :: o < x
    ensures Ascending([o] + s)
  {
    var t := [o] + s;
    forall i, j | 0 <= i < j < |t|
      ensures t[i] < t[j]
    {
      assert t[j] == s[j - 1] && s[j - 1] in s;
      if i > 0 {
        assert t[i] == s[i - 1];
      }
    }
  }

  lemma {:induction false} PackIsPositions(s: seq<nat>)
    requires forall o | o in s :: CanEncodeOffset(o)
    ensures forall p :: p in Positions(PackOffsets(s)) <==> exists o :: o in s && BitNumberFromOffset(o) == p
  {
    if s == [] {
      PositionsZero();
    } else {
      PackIsPositions(s[1..]);
      PositionsOr(BitFromOffset(s[0]), PackOffsets(s[1..]));
      PositionsBit(BitNumberFromOffset(s[0]));
      assert s == [s[0]] + s[1..];
    }
  }

  /** The bitmap walk visits each slot of the chain walk exactly once, in ascending
      order of offset. */
  lemma FastWalkRefinesSlowWalk(s: seq<nat>)
    requires forall o | o in s :: CanEncodeOffset(o)
    ensures Offsets(FastWalk(PackOffsets(s))) == Offsets(s)
    ensures Ascending(FastWalk(PackOffsets(s)))
  {
    FastWalkIsPositions(PackOffsets(s));
    PackIsPositions(s);
    forall o
      ensures o in FastWalk(PackOffsets(s)) <==> o in s
    {
      if o in FastWalk(PackOffsets(s)) {
        var x :| x in s && BitNumberFromOffset(x) == (o - 8) / 4;
        assert x == o;
      }
      if o in s {
        assert BitNumberFromOffset(o) in Positions(PackOffsets(s));
      }
    }
  }

  /** Whatever the bitmap is (a packed one, one that happens to equal 3, or the marker)
      the walk of an instance visits the reference slots of its chain and no others. */
  lemma FieldWalkVisitsChain(cs: Classes, c: Ref)
    requires Acyclic(cs) && Linked(cs, c) && Packed(cs, c)
    ensures Offsets(FieldWalk(cs, c)) == Offsets(SlowWalk(cs, c))
    ensures cs[c].refOffsets != CLASS_WALK_SUPER ==> Ascending(FieldWalk(cs, c))
  {
    if cs[c].refOffsets != CLASS_WALK_SUPER {
      FastWalkRefinesSlowWalk(SlowWalk(cs, c));
    }
  }

  // ----- Subclasses -----

  /** The class n steps up the chain. */
  ghost function Up(cs: Classes, c: Ref, n: nat): Ref
    decreases n
  {
    if n == 0 then c
    else if Linked(cs, c) then Up(cs, cs[c].super, n - 1)
    else NULL
  }

  /** The reflexive transitive closure of super. */
  ghost predicate IsSubClass(cs: Classes, sub: Ref, clazz: Ref) {
    exists n: nat :: Up(cs, sub, n) == clazz
  }

  /** dvmIsSubClass. */
  method DvmIsSubClass(cs: Classes, sub: Ref, clazz: Ref) returns (r: bool)
    requires Acyclic(cs) && Linked(cs, sub)
    ensures r <==> clazz != NULL && IsSubClass(cs, sub, clazz)
  {
    var s := sub;
    ghost var n: nat := 0;
    while true
      invariant Linked(cs, s) && Up(cs, sub, n) == s
      invariant forall k: nat | k < n :: Up(cs, sub, k) != clazz
      decreases Rank(cs, s)
    {
      if s == clazz {
        return true;
      }
      UpStep(cs, sub, n);
      s := cs[s].super;
      n := n + 1;
      if s == NULL {
        break;
      }
    }
    forall k: nat | clazz != NULL
      ensures Up(cs, sub, k) != clazz
    {
      if k >= n {
        UpAdd(cs, sub, n, k - n);
        UpFromNull(cs, k - n);
      }
    }
    return false;
  }

  lemma {:induction false} UpStep(cs: Classes, c: Ref, n: nat)
    requires Acyclic(cs) && Linked(cs, Up(cs, c, n))
    ensures Up(cs, c, n + 1) == cs[Up(cs, c, n)].super
    decreases n
  {
    if n > 0 {
      UpStep(cs, cs[c].super, n - 1);
    }
  }

  lemma {:induction false} UpFromNull(cs: Classes, n: nat)
    requires NULL !in cs
    ensures Up(cs, NULL, n) == NULL
  {
  }

  lemma {:induction false} UpAdd(cs: Classes, c: Ref, m: nat, n: nat)
    requires NULL !in cs
    ensures Up(cs, c, m + n) == Up(cs, Up(cs, c, m), n)
    decreases m
  {
    if m > 0 {
      if Linked(cs, c) {
        UpAdd(cs, cs[c].super, m - 1, n);
      } else {
        UpFromNull(cs, n);
      }
    }
  }

  lemma {:induction false} UpDescends(cs: Classes, c: Ref, n: nat)
    requires Acyclic(cs) && Linked(cs, c) && Linked(cs, Up(cs, c, n))
    ensures Rank(cs, Up(cs, c, n)) + n <= Rank(cs, c)
    decreases n
  {
    if n > 0 {
      UpFromNull(cs, n - 1);
      UpDescends(cs, cs[c].super, n - 1);
    }
  }

  /** The subclass relation is a partial order. */
  lemma SubClassIsPartialOrder(cs: Classes, a: Ref, b: Ref, c: Ref)
    requires Acyclic(cs) && Linked(cs, a) && Linked(cs, b) && Linked(cs, c)
    ensures IsSubClass(cs, a, a)
    ensures IsSubClass(cs, a, b) && IsSubClass(cs, b, c) ==> IsSubClass(cs, a, c)
    ensures IsSubClass(cs, a, b) && IsSubClass(cs, b, a) ==> a == b
  {
    assert Up(cs, a, 0) == a;
    if IsSubClass(cs, a, b) {
      var m: nat :| Up(cs, a, m) == b;
      UpDescends(cs, a, m);
      if IsSubClass(cs, b, c) {
        var n: nat :| Up(cs, b, n) == c;
        UpAdd(cs, a, m, n);
      }
      if IsSubClass(cs, b, a) {
        var n: nat :| Up(cs, b, n) == a;
        UpDescends(cs, b, n);
      }
    }
  }

  /** The class n steps up the chain has the reference field. */
  ghost predicate FieldAt(cs: Classes, c: Ref, n: nat, o: nat) {
    Linked(cs, Up(cs, c, n)) && o in cs[Up(cs, c, n)].ifieldRefs
  }

  ghost predicate InChain(cs: Classes, c: Ref, o: nat) {
    exists n: nat :: FieldAt(cs, c, n, o)
  }

  lemma InChainStep(cs: Classes, c: Ref, o: nat)
    requires Acyclic(cs) && Linked(cs, c)
    ensures InChain(cs, c, o) <==> o in cs[c].ifieldRefs || InChain(cs, cs[c].super, o)
  {
    if o in cs[c].ifieldRefs {
      assert FieldAt(cs, c, 0, o);
    }
    if InChain(cs, cs[c].super, o) {
      var n: nat :| FieldAt(cs, cs[c].super, n, o);
      assert FieldAt(cs, c, n + 1, o);
    }
    if InChain(cs, c, o) && o !in cs[c].ifieldRefs {
      var n: nat :| FieldAt(cs, c, n, o);
      assert n > 0;
      assert FieldAt(cs, cs[c].super, n - 1, o);
    }
  }

  /** The chain walk meets exactly the reference fields of the class and of every class
      above it. */
  lemma {:induction false} SlowWalkIsChain(cs: Classes, c: Ref, o: nat)
    requires Acyclic(cs) && ClassOrNull(cs, c)
    ensures o in SlowWalk(cs, c) <==> InChain(cs, c, o)
    decreases Rank(cs, c)
  {
    if c == NULL {
      forall n: nat
        ensures !FieldAt(cs, c, n, o)
      {
        UpFromNull(cs, n);
      }
    } else {
      SlowWalkIsChain(cs, cs[c].super, o);
      InChainStep(cs, c, o);
    }
  }

  predicate NoDuplicates(s: seq<nat>) {
    forall i, j | 0 <= i < j < |s| :: s[i] != s[j]
  }

  /** No two fields of the chain lie at one offset. */
  ghost predicate DistinctFields(cs: Classes, c: Ref) {
    && (forall n: nat | Linked(cs, Up(cs, c, n)) :: NoDuplicates(cs[Up(cs, c, n)].ifieldRefs))
    && forall m: nat, n: nat, o: nat | m < n && FieldAt(cs, c, m, o) :: !FieldAt(cs, c, n, o)
  }

  lemma DistinctAbove(cs: Classes, c: Ref)
    requires Acyclic(cs) && Linked(cs, c) && DistinctFields(cs, c)
    ensures DistinctFields(cs, cs[c].super) && NoDuplicates(cs[c].ifieldRefs)
    ensures forall o | o in cs[c].ifieldRefs :: !InChain(cs, cs[c].super, o)
  {
    var s := cs[c].super;
    assert forall n: nat :: Up(cs, c, n + 1) == Up(cs, s, n);
    assert Up(cs, c, 0) == c;
    forall m: nat, n: nat, o: nat | m < n && FieldAt(cs, s, m, o)
      ensures !FieldAt(cs, s, n, o)
    {
      assert FieldAt(cs, c, m + 1, o);
      assert !FieldAt(cs, c, n + 1, o);
    }
    forall o | o in cs[c].ifieldRefs
      ensures !InChain(cs, s, o)
    {
      assert FieldAt(cs, c, 0, o);
      forall n: nat
        ensures !FieldAt(cs, s, n, o)
      {
        assert !FieldAt(cs, c, n + 1, o);
      }
    }
  }

  /** It meets each of them once. */
  lemma {:induction false} SlowWalkMeetsOnce(cs: Classes, c: Ref)
    requires Acyclic(cs) && ClassOrNull(cs, c) && DistinctFields(cs, c)
    ensures NoDuplicates(SlowWalk(cs, c))
    decreases Rank(cs, c)
  {
    if c != NULL {
      DistinctAbove(cs, c);
      var own, above := cs[c].ifieldRefs, SlowWalk(cs, cs[c].super);
      SlowWalkMeetsOnce(cs, cs[c].super);
      forall o | o in own
        ensures o !in above
      {
        SlowWalkIsChain(cs, cs[c].super, o);
      }
      Joined(own, above);
    }
  }

  lemma Joined(s: seq<nat>, t: seq<nat>)
    requires NoDuplicates(s) && NoDuplicates(t) && forall o | o in s :: o !in t
    ensures NoDuplicates(s + t)
  {
    forall i, j | 0 <= i < j < |s + t|
      ensures (s + t)[i] != (s + t)[j]
    {
      if i < |s| <= j {
        assert s[i] in s && t[j - |s|] in t;
      }
    }
  }

  lemma {:induction false} SlowWalkGrows(cs: Classes, sub: Ref, n: nat)
    requires Acyclic(cs) && Linked(cs, sub) && Linked(cs, Up(cs, sub, n))
    ensures Offsets(SlowWalk(cs, Up(cs, sub, n))) <= Offsets(SlowWalk(cs, sub))
    decreases n
  {
    if n > 0 {
      UpFromNull(cs, n - 1);
      SlowWalkGrows(cs, cs[sub].super, n - 1);
    }
  }

  /** An instance of a subclass has every reference slot of its superclasses visited. */
  lemma SubClassVisitsMore(cs: Classes, sub: Ref, clazz: Ref)
    requires Acyclic(cs) && Linked(cs, sub) && Linked(cs, clazz) && Packed(cs, sub) && Packed(cs, clazz)
    requires IsSubClass(cs, sub, clazz)
    ensures Offsets(FieldWalk(cs, clazz)) <= Offsets(FieldWalk(cs, sub))
  {
    var n: nat :| Up(cs, sub, n) == clazz;
    SlowWalkGrows(cs, sub, n);
    FieldWalkVisitsChain(cs, sub);
    FieldWalkVisitsChain(cs, clazz);
  }
}
