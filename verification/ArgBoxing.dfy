/**
 Unmarshalling the arguments of a hooked method (boxMethodArgs in jni/hook/Proxy.cpp).

 A native bridge receives its arguments as 32-bit words, two for a long or a double, and
 the shorty of the method says which is which. The loop walks the shorty with one index
 into the words and one into the array of boxed objects.
 */
module ArgBoxing {

  type u4 = nat

  /** One argument as the caller passed it. */
  datatype Arg =
    | Narrow(desc: char, word: u4)
    | Wide(desc: char, low: u4, high: u4)
    | Reference(desc: char, ref: u4)

  predicate IsNarrow(ch: char) {
    ch == 'Z' || ch == 'C' || ch == 'F' || ch == 'B' || ch == 'S' || ch == 'I'
  }

  predicate IsWide(ch: char) {
    ch == 'D' || ch == 'J'
  }

  predicate IsReference(ch: char) {
    ch == '[' || ch == 'L'
  }

  predicate ValidArg(a: Arg) {
    match a
    case Narrow(d, _) => IsNarrow(d)
    case Wide(d, _, _) => IsWide(d)
    case Reference(d, _) => IsReference(d)
  }

  /** An element of the resulting Object[]: a boxed primitive or the reference itself. */
  datatype Boxed = Primitive(desc: char, bits: nat) | Object(ref: u4)

  function Box(a: Arg): Boxed {
    match a
    case Narrow(d, w) => Primitive(d, w)
    case Wide(d, lo, hi) => Primitive(d, lo + hi * 0x1_0000_0000)
    case Reference(_, r) => Object(r)
  }

  function Boxes(args: seq<Arg>): (r: seq<Boxed>)
    ensures |r| == |args| && forall i | 0 <= i < |r| :: r[i] == Box(args[i])
  {
    if args == [] then [] else [Box(args[0])] + Boxes(args[1..])
  }

  // ----- How arguments are laid out -----

  function WordsOf(a: Arg): seq<u4> {
    match a
    case Narrow(_, w) => [w]
    case Wide(_, lo, hi) => [lo, hi]
    case Reference(_, r) => [r]
  }

  function Layout(args: seq<Arg>): seq<u4> {
    if args == [] then [] else WordsOf(args[0]) + Layout(args[1..])
  }

  function Descriptors(args: seq<Arg>): string {
    if args == [] then [] else [args[0].desc] + Descriptors(args[1..])
  }

  predicate ValidDescriptors(desc: string) {
    forall ch | ch in desc :: IsNarrow(ch) || IsWide(ch) || IsReference(ch)
  }

  /** dexProtoComputeArgsSize: two words for a long or a double, one for the rest. */
  function ArgsSize(desc: string): nat {
    if desc == "" then 0 else (if IsWide(desc[0]) then 2 else 1) + ArgsSize(desc[1..])
  }

  /** The argument that starts at the front of the words. */
  function FirstArg(ch: char, words: seq<u4>): Arg
    requires |words| >= if IsWide(ch) then 2 else 1
  {
    if IsWide(ch) then Wide(ch, words[0], words[1])
    else if IsNarrow(ch) then Narrow(ch, words[0])
    else Reference(ch, words[0])
  }

  /** The list of arguments a descriptor string and a block of words stand for. */
  function Unmarshal(desc: string, words: seq<u4>): (args: seq<Arg>)
    requires |words| >= ArgsSize(desc)
    ensures |args| == |desc|
  {
    if desc == "" then []
    else
      var a := FirstArg(desc[0], words);
      [a] + Unmarshal(desc[1..], words[|WordsOf(a)|..])
  }

  lemma ArgRoundTrip(a: Arg, rest: seq<u4>)
    requires ValidArg(a)
    ensures |WordsOf(a)| == if IsWide(a.desc) then 2 else 1
    ensures FirstArg(a.desc, WordsOf(a) + rest) == a
    ensures IsNarrow(a.desc) || IsWide(a.desc) || IsReference(a.desc)
  {
  }

  lemma UnmarshalFirst(desc: string, words: seq<u4>)
    requires desc != "" && |words| >= ArgsSize(desc)
    ensures |words| >= (if IsWide(desc[0]) then 2 else 1)
    ensures var n := |WordsOf(FirstArg(desc[0], words))|;
            && n == (if IsWide(desc[0]) then 2 else 1)
            && n + ArgsSize(desc[1..]) == ArgsSize(desc)
            && Unmarshal(desc, words)[0] == FirstArg(desc[0], words)
            && Unmarshal(desc, words)[1..] == Unmarshal(desc[1..], words[n..])
  {
  }

  lemma DescriptorsCons(args: seq<Arg>)
    requires args != []
    ensures Descriptors(args) == [args[0].desc] + Descriptors(args[1..])
    ensures Descriptors(args)[1..] == Descriptors(args[1..])
  {
  }

  lemma {:induction false} LayoutSize(args: seq<Arg>)
    requires forall a | a in args :: ValidArg(a)
    ensures |Layout(args)| == ArgsSize(Descriptors(args))
    ensures ValidDescriptors(Descriptors(args))
    decreases |args|
  {
    if args != [] {
      assert ValidArg(args[0]);
      ArgRoundTrip(args[0], []);
      LayoutSize(args[1..]);
      DescriptorsCons(args);
    }
  }

  lemma LayoutCons(args: seq<Arg>, rest: seq<u4>)
    requires args != []
    ensures Layout(args) + rest == WordsOf(args[0]) + (Layout(args[1..]) + rest)
  {
  }

  lemma UnmarshalCons(a: Arg, desc: string, words: seq<u4>)
    requires ValidArg(a) && |words| >= ArgsSize(desc)
    ensures ArgsSize([a.desc] + desc) <= |WordsOf(a) + words|
    ensures Unmarshal([a.desc] + desc, WordsOf(a) + words) == [a] + Unmarshal(desc, words)
  {
    var d, w := [a.desc] + desc, WordsOf(a) + words;
    assert d[1..] == desc && w[|WordsOf(a)|..] == words;
    ArgRoundTrip(a, words);
    UnmarshalFirst(d, w);
    assert Unmarshal(d, w) == [Unmarshal(d, w)[0]] + Unmarshal(d, w)[1..];
  }

  /** Every list of arguments is recovered from its descriptors and its words, whatever
      follows them. */
  lemma {:induction false} UnmarshalLayout(args: seq<Arg>, rest: seq<u4>)
    requires forall a | a in args :: ValidArg(a)
    ensures ValidDescriptors(Descriptors(args))
    ensures |Layout(args)| == ArgsSize(Descriptors(args))
    ensures Unmarshal(Descriptors(args), Layout(args) + rest) == args
    decreases |args|
  {
    LayoutSize(args);
    if args != [] {
      assert ValidArg(args[0]);
      UnmarshalLayout(args[1..], rest);
      LayoutCons(args, rest);
      LayoutSize(args[1..]);
      DescriptorsCons(args);
      UnmarshalCons(args[0], Descriptors(args[1..]), Layout(args[1..]) + rest);
    }
  }

  lemma FirstArgWords(ch: char, words: seq<u4>)
    requires IsNarrow(ch) || IsWide(ch) || IsReference(ch)
    requires |words| >= if IsWide(ch) then 2 else 1
    ensures var a := FirstArg(ch, words);
            && ValidArg(a) && a.desc == ch
            && words == WordsOf(a) + words[|WordsOf(a)|..]
  {
  }

  /** Every block of words with a valid descriptor string is the layout of some list. */
  lemma {:induction false} LayoutUnmarshal(desc: string, words: seq<u4>)
    requires ValidDescriptors(desc) && |words| == ArgsSize(desc)
    ensures Layout(Unmarshal(desc, words)) == words
    ensures Descriptors(Unmarshal(desc, words)) == desc
    ensures forall a | a in Unmarshal(desc, words) :: ValidArg(a)
    decreases |desc|
  {
    if desc != "" {
      var args := Unmarshal(desc, words);
      UnmarshalFirst(desc, words);
      assert desc[0] in desc;
      FirstArgWords(desc[0], words);
      assert forall ch | ch in desc[1..] :: ch in desc;
      LayoutUnmarshal(desc[1..], words[|WordsOf(args[0])|..]);
      DescriptorsCons(args);
      assert desc == [desc[0]] + desc[1..];
      assert args == [args[0]] + args[1..];
    }
  }

  /** What comes out of the words of an argument: for a long or a double the 64 bits whose
      low word comes first, for the other primitives the one word, and references as they
      are. */
  lemma BoxedValue(d: char, v: nat)
    ensures d == 'J' || d == 'D' ==>
              Box(FirstArg(d, [v % 0x1_0000_0000, v / 0x1_0000_0000])) == Primitive(d, v)
    ensures d == 'Z' || d == 'C' || d == 'F' || d == 'B' || d == 'S' || d == 'I' ==>
              Box(FirstArg(d, [v])) == Primitive(d, v)
    ensures d == '[' || d == 'L' ==> Box(FirstArg(d, [v])) == Object(v)
  {
  }

  /** The words really have 32 bits. */
  predicate Fits(a: Arg) {
    match a
    case Narrow(_, w) => w < 0x1_0000_0000
    case Wide(_, lo, hi) => lo < 0x1_0000_0000 && hi < 0x1_0000_0000
    case Reference(_, r) => r < 0x1_0000_0000
  }

  lemma BoxKeepsArg(a: Arg, b: Arg)
    requires ValidArg(a) && ValidArg(b) && Fits(a) && Fits(b)
    requires a.desc == b.desc && Box(a) == Box(b)
    ensures a == b
  {
  }

  predicate Sound(args: seq<Arg>) {
    forall a | a in args :: ValidArg(a) && Fits(a)
  }

  lemma FirstOfEach(a: seq<Arg>, b: seq<Arg>)
    requires a != [] && Sound(a) && Sound(b)
    requires Descriptors(a) == Descriptors(b) && Boxes(a) == Boxes(b)
    ensures b != [] && a[0] == b[0]
    ensures Sound(a[1..]) && Sound(b[1..])
    ensures Descriptors(a[1..]) == Descriptors(b[1..]) && Boxes(a[1..]) == Boxes(b[1..])
  {
    assert |Boxes(a)| == |Boxes(b)|;
    DescriptorsCons(a);
    DescriptorsCons(b);
    assert a[0] in a && b[0] in b;
    assert Boxes(a)[0] == Box(a[0]) && Boxes(b)[0] == Box(b[0]);
    BoxKeepsArg(a[0], b[0]);
    assert Boxes(a)[1..] == Boxes(a[1..]) && Boxes(b)[1..] == Boxes(b[1..]);
  }

  /** Boxing loses nothing: the boxed objects and the descriptors determine the arguments. */
  lemma {:induction false} BoxingLosesNothing(a: seq<Arg>, b: seq<Arg>)
    requires Sound(a) && Sound(b)
    requires Descriptors(a) == Descriptors(b) && Boxes(a) == Boxes(b)
    ensures a == b
    decreases |a|
  {
    if a == [] {
      assert |Boxes(b)| == |b|;
    } else {
      FirstOfEach(a, b);
      BoxingLosesNothing(a[1..], b[1..]);
      assert a == [a[0]] + a[1..] && b == [b[0]] + b[1..];
    }
  }

  // ----- The loop -----

  /** dvmGetArgLong: eight bytes from two little-endian words. */
  function GetArgLong(args: seq<u4>, elem: nat): nat
    requires elem + 1 < |args|
  {
    args[elem] + args[elem + 1] * 0x1_0000_0000
  }

  /** Where the loop stands: d descriptors done, s of the words consumed. */
  ghost predicate Boxing(desc: string, words: seq<u4>, size: nat, all: seq<Arg>, d: nat, s: nat) {
    && d <= |desc| == |all| && s <= |words|
    && |words| - s >= ArgsSize(desc[d..])
    && s + ArgsSize(desc[d..]) == size
    && Unmarshal(desc[d..], words[s..]) == all[d..]
  }

  lemma BoxingStart(desc: string, words: seq<u4>)
    requires |words| >= ArgsSize(desc)
    ensures Boxing(desc, words, ArgsSize(desc), Unmarshal(desc, words), 0, 0)
  {
    assert desc[0..] == desc && words[0..] == words;
  }

  lemma BoxingStep(desc: string, words: seq<u4>, size: nat, all: seq<Arg>, d: nat, s: nat)
    requires Boxing(desc, words, size, all, d, s) && d < |desc|
    ensures s + (if IsWide(desc[d]) then 2 else 1) <= |words|
    ensures all[d] == FirstArg(desc[d], words[s..])
    ensures Boxing(desc, words, size, all, d + 1, s + |WordsOf(all[d])|)
  {
    var rest, tail := desc[d..], words[s..];
    UnmarshalFirst(rest, tail);
    assert rest[1..] == desc[d + 1..];
    assert all[d..][0] == all[d] && all[d..][1..] == all[d + 1..];
    var n := |WordsOf(all[d])|;
    assert tail[n..] == words[s + n..];
  }

  lemma BoxingEnd(desc: string, words: seq<u4>, size: nat, all: seq<Arg>, s: nat)
    requires Boxing(desc, words, size, all, |desc|, s)
    ensures s == size
  {
    assert desc[|desc|..] == "";
  }

  /** The switch: box the argument at the source index and step over its words. */
  method BoxOne(descChar: char, args: seq<u4>, srcIndex: nat) returns (b: Boxed, next: nat)
    requires IsNarrow(descChar) || IsWide(descChar) || IsReference(descChar)
    requires srcIndex + (if IsWide(descChar) then 2 else 1) <= |args|
    ensures b == Box(FirstArg(descChar, args[srcIndex..]))
    ensures next == srcIndex + |WordsOf(FirstArg(descChar, args[srcIndex..]))|
  {
    if IsNarrow(descChar) {
      b := Primitive(descChar, args[srcIndex]);
      next := srcIndex + 1;
    } else if IsWide(descChar) {
      b := Primitive(descChar, GetArgLong(args, srcIndex));
      next := srcIndex + 2;
    } else {
      b := Object(args[srcIndex]);
      next := srcIndex + 1;
    }
  }

  /** Argument k starts at word o, and the next one at word o'. */
  ghost predicate StartsAt(desc: string, words: seq<u4>, all: seq<Arg>, k: nat, o: nat, o': nat) {
    && k < |desc| == |all|
    && o + (if IsWide(desc[k]) then 2 else 1) == o' <= |words|
    && all[k] == FirstArg(desc[k], words[o..])
  }

  ghost predicate Starts(desc: string, words: seq<u4>, all: seq<Arg>, offsets: seq<nat>) {
    && |offsets| == |desc| + 1 && offsets[0] == 0
    && forall k | 0 <= k < |desc| :: StartsAt(desc, words, all, k, offsets[k], offsets[k + 1])
  }

  /** Where the arguments start: each right behind the one before. */
  lemma ArgumentStarts(desc: string, words: seq<u4>, all: seq<Arg>) returns (offsets: seq<nat>)
    requires ArgsSize(desc) <= |words| && all == Unmarshal(desc, words)
    ensures Starts(desc, words, all, offsets)
    ensures offsets[|desc|] == ArgsSize(desc)
  {
    var size := ArgsSize(desc);
    BoxingStart(desc, words);
    offsets := [0];
    var s := 0;
    for d := 0 to |desc|
      invariant |offsets| == d + 1 && offsets[0] == 0 && offsets[d] == s
      invariant Boxing(desc, words, size, all, d, s)
      invariant forall k | 0 <= k < d :: StartsAt(desc, words, all, k, offsets[k], offsets[k + 1])
    {
      BoxingStep(desc, words, size, all, d, s);
      var s' := s + |WordsOf(all[d])|;
      assert StartsAt(desc, words, all, d, s, s');
      offsets := offsets + [s'];
      s := s';
    }
    BoxingEnd(desc, words, size, all, s);
  }

  /** boxMethodArgs. "shorty" starts with the return type; the array is as long as the
      prototype has parameters, or null when the allocator has no room for it. */
  method BoxMethodArgs(shorty: string, args: seq<u4>, room: bool)
    returns (argObjects: array?<Boxed>, consumed: nat)
    requires shorty != "" && ValidDescriptors(shorty[1..])
    requires ArgsSize(shorty[1..]) <= |args|
    ensures argObjects == null <==> !room
    ensures argObjects != null ==>
              && fresh(argObjects) && argObjects.Length == |shorty| - 1
              && argObjects[..] == Boxes(Unmarshal(shorty[1..], args))
    ensures consumed == if room then ArgsSize(shorty[1..]) else 0
  {
    if !room {
      return null, 0;
    }
    var desc := shorty[1..];
    ghost var all := Unmarshal(desc, args);
    ghost var offsets := ArgumentStarts(desc, args, all);
    var array_ := new Boxed[|desc|](_ => Object(0));
    consumed := BoxAll(desc, args, array_, all, offsets);
    argObjects := array_;
  }

  /** The loop itself, over the descriptors that follow the return type. */
  method BoxAll(desc: string, args: seq<u4>, argObjects: array<Boxed>, ghost all: seq<Arg>, ghost offsets: seq<nat>)
    returns (srcIndex: nat)
    requires ValidDescriptors(desc) && argObjects.Length == |desc| == |all|
    requires Starts(desc, args, all, offsets)
    modifies argObjects
    ensures argObjects[..] == Boxes(all)
    ensures srcIndex == offsets[|desc|]
  {
    srcIndex := 0;
    var dstIndex := 0;
    while dstIndex < |desc|
      invariant dstIndex <= |desc| && srcIndex == offsets[dstIndex]
      invariant forall k :: 0 <= k < dstIndex ==> argObjects[k] == Box(all[k])
    {
      assert StartsAt(desc, args, all, dstIndex, srcIndex, offsets[dstIndex + 1]);
      assert desc[dstIndex] in desc;
      var b, next := BoxOne(desc[dstIndex], args, srcIndex);
      argObjects[dstIndex] := b;
      srcIndex := next;
      dstIndex := dstIndex + 1;
    }
  }
}
