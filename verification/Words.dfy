/** What one slot of the page file holds: a biased, possibly tagged, byte-order-mapped offset. */
module Words {
  import Arith
  import opened Bits

  const SOF: nat := 8
  /** Words are 64-bit patterns; the patterns below OFFSETS are the non-negative offsets. */
  const WORDS: nat := 0x1_0000_0000_0000_0000
  const OFFSETS: nat := 0x8000_0000_0000_0000
  const VACANT: nat := 0
  const NOTFOUND: nat := WORDS - 1
  const TAGSHIFT: nat := 24

  predicate IsLong(n: int) {
    -0x8000_0000_0000_0000 <= n < 0x8000_0000_0000_0000
  }

  /** The bits of a long. */
  function Pattern(n: int): (p: nat)
    requires IsLong(n)
    ensures p < WORDS
  {
    if n < 0 then n + WORDS else n
  }

  /** The long with some bits. */
  function Signed(p: nat): (n: int)
    requires p < WORDS
    ensures IsLong(n) && Pattern(n) == p
  {
    if p < OFFSETS then p else p - WORDS
  }

  function Bias(o: nat): nat { (o + 1) % WORDS }

  function Unbias(o: nat): nat { (o + WORDS - 1) % WORDS }

  // ----- byte order

  /** A byte map names, for each significance, the byte of the word that carries it. */
  ghost predicate IsByteMap(m: seq<nat>) {
    && |m| == SOF
    && (forall i :: 0 <= i < SOF ==> m[i] < SOF)
    && (forall i, j :: 0 <= i < j < SOF ==> m[i] != m[j])
    && (forall b: nat :: b < SOF ==> b in m)
  }

  /** The byte map of a machine that stores the low-order byte first. */
  const MYBMAP: seq<nat> := [7, 6, 5, 4, 3, 2, 1, 0]

  lemma MybmapIsByteMap()
    ensures IsByteMap(MYBMAP)
  {
    assert 0 in MYBMAP && 1 in MYBMAP && 2 in MYBMAP && 3 in MYBMAP;
    assert 4 in MYBMAP && 5 in MYBMAP && 6 in MYBMAP && 7 in MYBMAP;
  }

  function ToBytes(o: nat, n: nat): (s: seq<nat>)
    ensures |s| == n
  {
    if n == 0 then [] else [o % 256] + ToBytes(o / 256, n - 1)
  }

  function FromBytes(s: seq<nat>): nat {
    if s == [] then 0 else s[0] + 256 * FromBytes(s[1..])
  }

  /** The first n moves of the copy loop: byte map2[i] of the output is byte map1[i] of the input. */
  function Moved(ino: seq<nat>, map1: seq<nat>, map2: seq<nat>, n: nat): (out: seq<nat>)
    requires |ino| == |map1| == |map2| == SOF && n <= SOF
    requires forall i :: 0 <= i < SOF ==> map1[i] < SOF && map2[i] < SOF
    ensures |out| == SOF
  {
    if n == 0 then [0, 0, 0, 0, 0, 0, 0, 0]
    else Moved(ino, map1, map2, n - 1)[map2[n - 1] := ino[map1[n - 1]]]
  }

  function ByteMap(ino: nat, map1: seq<nat>, map2: seq<nat>): nat
    requires |map1| == |map2| == SOF
    requires forall i :: 0 <= i < SOF ==> map1[i] < SOF && map2[i] < SOF
  {
    FromBytes(Moved(ToBytes(ino, SOF), map1, map2, SOF))
  }

  method ByteMapLoop(ino: nat, map1: seq<nat>, map2: seq<nat>) returns (out: nat)
    requires |map1| == |map2| == SOF
    requires forall i :: 0 <= i < SOF ==> map1[i] < SOF && map2[i] < SOF
    ensures out == ByteMap(ino, map1, map2)
  {
    var src := ToBytes(ino, SOF);
    var dst := new nat[SOF](_ => 0);
    for i := 0 to SOF
      invariant dst[..] == Moved(src, map1, map2, i)
    {
      dst[map2[i]] := src[map1[i]];
    }
    out := FromBytes(dst[..]);
  }

  lemma {:induction false} MovedBytes(ino: seq<nat>, map1: seq<nat>, map2: seq<nat>, n: nat)
    requires |ino| == SOF && IsByteMap(map1) && IsByteMap(map2) && n <= SOF
    ensures forall i :: 0 <= i < n ==> Moved(ino, map1, map2, n)[map2[i]] == ino[map1[i]]
    ensures forall b :: 0 <= b < SOF ==> Moved(ino, map1, map2, n)[b] == 0 || Moved(ino, map1, map2, n)[b] in ino
  {
    if n > 0 {
      MovedBytes(ino, map1, map2, n - 1);
    }
  }

  /** Copying there and back restores every byte. */
  lemma MovedBack(ino: seq<nat>, map1: seq<nat>, map2: seq<nat>)
    requires |ino| == SOF && IsByteMap(map1) && IsByteMap(map2)
    ensures Moved(Moved(ino, map1, map2, SOF), map2, map1, SOF) == ino
  {
    var mid := Moved(ino, map1, map2, SOF);
    var back := Moved(mid, map2, map1, SOF);
    MovedBytes(ino, map1, map2, SOF);
    MovedBytes(mid, map2, map1, SOF);
    forall b | 0 <= b < SOF
      ensures back[b] == ino[b]
    {
      assert b in map1;
      var i :| 0 <= i < SOF && map1[i] == b;
    }
  }

  lemma {:induction false} BytesOfWord(s: seq<nat>)
    requires forall i :: 0 <= i < |s| ==> s[i] < 256
    ensures ToBytes(FromBytes(s), |s|) == s
    ensures FromBytes(s) < Pow2(8 * |s|)
  {
    if s != [] {
      BytesOfWord(s[1..]);
      EightMore(8 * |s[1..]|);
      ByteOfWord(s[0], FromBytes(s[1..]));
    }
  }

  lemma EightMore(n: nat)
    ensures Pow2(n + 8) == 256 * Pow2(n)
  {
    Pow2Add(8, n);
    assert Pow2(8) == 256;
  }

  lemma ByteOfWord(b: nat, o: nat)
    requires b < 256
    ensures (b + 256 * o) % 256 == b && (b + 256 * o) / 256 == o
  {}

  lemma {:induction false} WordOfBytes(o: nat, n: nat)
    requires o < Pow2(8 * n)
    ensures FromBytes(ToBytes(o, n)) == o
    ensures forall i :: 0 <= i < n ==> ToBytes(o, n)[i] < 256
  {
    if n > 0 {
      EightMore(8 * (n - 1));
      WordOfBytes(o / 256, n - 1);
    }
  }

  /** Mapping a word to another byte order and back gives the word, and only 0 maps to 0. */
  lemma ByteMapRoundTrip(o: nat, map1: seq<nat>, map2: seq<nat>)
    requires o < WORDS && IsByteMap(map1) && IsByteMap(map2)
    ensures ByteMap(o, map1, map2) < WORDS
    ensures ByteMap(ByteMap(o, map1, map2), map2, map1) == o
  {
    Pow2Long();
    WordOfBytes(o, SOF);
    var s := ToBytes(o, SOF);
    MovedBytes(s, map1, map2, SOF);
    BytesOfWord(Moved(s, map1, map2, SOF));
    MovedBack(s, map1, map2);
  }

  lemma {:induction false} ZeroBytes(n: nat)
    ensures forall i :: 0 <= i < n ==> ToBytes(0, n)[i] == 0
  {
    if n > 0 {
      ZeroBytes(n - 1);
    }
  }

  lemma {:induction false} WordOfZeros(s: seq<nat>)
    requires forall i :: 0 <= i < |s| ==> s[i] == 0
    ensures FromBytes(s) == 0
  {
    if s != [] {
      WordOfZeros(s[1..]);
    }
  }

  /** An all-zero slot reads as vacant in every byte order. */
  lemma ByteMapOfZero(map1: seq<nat>, map2: seq<nat>)
    requires IsByteMap(map1) && IsByteMap(map2)
    ensures ByteMap(0, map1, map2) == 0
  {
    ZeroBytes(SOF);
    MovedBytes(ToBytes(0, SOF), map1, map2, SOF);
    WordOfZeros(Moved(ToBytes(0, SOF), map1, map2, SOF));
  }

  // ----- tags

  /** The tag and its marker where they stand in a word, and the byte order of the database. */
  datatype Coding = Coding(tagbits: nat, taghere: nat, olddbz: bool, bytemap: seq<nat>)
  {
    function Tagboth(): nat { Or(tagbits, taghere) }

    predicate HasTag(o: nat) { And(o, taghere) != 0 }

    predicate CanTag(o: nat) { And(o, Tagboth()) == 0 }

    ghost predicate Wellformed() {
      && IsByteMap(bytemap)
      && tagbits < WORDS && taghere < WORDS
    }

    /** The masks do not meet, and a tag is never written without its marker. */
    predicate TagsOk() {
      && And(tagbits, taghere) == 0
      && (tagbits != 0 ==> taghere != 0)
    }

    function MapIn(o: nat): nat
      requires Wellformed()
    {
      if bytemap == MYBMAP then o else ByteMap(o, bytemap, MYBMAP)
    }

    function MapOut(o: nat): nat
      requires Wellformed()
    {
      if bytemap == MYBMAP then o else ByteMap(o, MYBMAP, bytemap)
    }

    predicate IsTagged(value: nat, tag: nat) {
      CanTag(value) && !olddbz && Or(value, Or(tag, taghere)) != NOTFOUND
    }

    /** What set() makes of a value: tagged when that is possible, and else as it is. */
    function Tagged(value: nat, tag: nat): nat {
      if IsTagged(value, tag) then Or(value, Or(tag, taghere)) else value
    }

    /** MKTAG: the tag bits of a number. */
    function MakeTag(v: nat, tagshift: nat): nat {
      And(Shl(v, tagshift) % WORDS, tagbits)
    }

    /** okayvalue() for a seek offset. */
    predicate Storable(value: nat) {
      value < OFFSETS && !HasTag(value)
    }

    /** The word that set() writes. */
    function Encode(value: nat, tag: nat): nat
      requires Wellformed()
    {
      MapOut(Bias(Tagged(value, tag)))
    }

    /** What search() makes of a word when it looks for a tag. */
    function Decode(word: nat, tag: nat): Slot
      requires Wellformed()
    {
      var value := MapIn(word);
      if value == VACANT then Empty
      else
        var v := Unbias(value);
        if !HasTag(v) then Holds(v)
        else if And(v, tagbits) == tag then Holds(AndNot(v, Tagboth()))
        else Foreign
    }

    /** A stored value shows its tag, so that a search for another tag passes it by. */
    predicate Hides(value: nat, tag: nat, wanted: nat) {
      taghere != 0 && IsTagged(value, tag) && tag != wanted
    }
  }

  datatype Slot = Empty | Holds(value: nat) | Foreign

  lemma TagInside(c: Coding, v: nat, tagshift: nat)
    ensures AndNot(c.MakeTag(v, tagshift), c.tagbits) == 0
  {
    MaskedInside(Shl(v, tagshift) % WORDS, c.tagbits);
  }

  lemma MapRoundTrip(c: Coding, o: nat)
    requires c.Wellformed() && o < WORDS
    ensures c.MapIn(c.MapOut(o)) == o
    ensures c.MapIn(0) == 0
  {
    MybmapIsByteMap();
    if c.bytemap != MYBMAP {
      ByteMapRoundTrip(o, MYBMAP, c.bytemap);
      ByteMapOfZero(c.bytemap, MYBMAP);
    }
  }

  /** Whatever value is put under whatever tag: the slot is not vacant, a search for that tag reads the value
      back unchanged, and a search for another tag reads the value or passes the slot by. */
  lemma StoredSlot(c: Coding, value: nat, tag: nat, wanted: nat)
    requires c.Wellformed() && c.TagsOk() && c.Storable(value) && AndNot(tag, c.tagbits) == 0
    ensures c.Encode(value, tag) != VACANT
    ensures c.Decode(c.Encode(value, tag), wanted)
         == if c.Hides(value, tag, wanted) then Foreign else Holds(value)
  {
    var v := c.Tagged(value, tag);
    TaggedRange(c, value, tag);
    WordRoundTrip(c, v, c.Encode(value, tag));
    TaggedReading(c, value, tag, wanted);
  }

  /** Undoing the byte order and the bias of a word. */
  lemma WordRoundTrip(c: Coding, v: nat, word: nat)
    requires c.Wellformed() && v < WORDS - 1 && word == c.MapOut(Bias(v))
    ensures word != VACANT && c.MapIn(word) != VACANT && Unbias(c.MapIn(word)) == v
  {
    assert Bias(v) == v + 1 && Unbias(v + 1) == v;
    MapRoundTrip(c, v + 1);
  }

  /** The tag part of StoredSlot, after the bias and the byte map are undone. */
  lemma TaggedReading(c: Coding, value: nat, tag: nat, wanted: nat)
    requires c.TagsOk() && c.Storable(value) && AndNot(tag, c.tagbits) == 0
    ensures var v := c.Tagged(value, tag);
            && (!c.HasTag(v) ==> v == value && !c.Hides(value, tag, wanted))
            && (c.HasTag(v) ==> And(v, c.tagbits) == tag && AndNot(v, c.Tagboth()) == value)
            && (c.HasTag(v) && tag != wanted ==> c.Hides(value, tag, wanted))
  {
    if c.IsTagged(value, tag) {
      TaggedParts(value, tag, c.tagbits, c.taghere);
      AndZero(Or(value, Or(tag, c.taghere)));
      if c.taghere == 0 {
        SubMask(tag, c.tagbits);
      }
    }
  }

  lemma AndZero(v: nat)
    ensures And(v, 0) == 0
  {}

  lemma TaggedRange(c: Coding, value: nat, tag: nat)
    requires c.Wellformed() && c.Storable(value) && AndNot(tag, c.tagbits) == 0
    ensures c.Tagged(value, tag) < WORDS - 1
  {
    Pow2Long();
    SubMask(tag, c.tagbits);
    OrBound(tag, c.taghere, 64);
    OrBound(value, Or(tag, c.taghere), 64);
  }

  /** Reading the parts of value|tag|here, where the value uses no bit of either mask. */
  lemma {:induction false} TaggedParts(value: nat, tag: nat, bits: nat, here: nat)
    requires And(value, Or(bits, here)) == 0 && And(bits, here) == 0 && AndNot(tag, bits) == 0
    ensures And(Or(value, Or(tag, here)), here) == here
    ensures And(Or(value, Or(tag, here)), bits) == tag
    ensures AndNot(Or(value, Or(tag, here)), Or(bits, here)) == value
    decreases value + tag + bits + here
  {
    if value + tag + bits + here > 0 {
      var x := Or(value, Or(tag, here));
      MaskStep(tag, here);
      MaskStep(bits, here);
      MaskStep(tag, bits);
      MaskStep(value, Or(tag, here));
      MaskStep(value, Or(bits, here));
      TaggedParts(value / 2, tag / 2, bits / 2, here / 2);
      MaskStep(x, here);
      MaskStep(x, bits);
      MaskStep(x, Or(bits, here));
    }
  }

  // ----- which tag configurations are faithful

  /** Every storable value reads back under its own tag. */
  ghost predicate Faithful(c: Coding)
    requires c.Wellformed()
  {
    forall value: nat, tag: nat :: c.Storable(value) && AndNot(tag, c.tagbits) == 0
      ==> c.Decode(c.Encode(value, tag), tag) == Holds(value)
  }

  /** A tag configuration is faithful exactly when its masks are apart and no tag goes unmarked, or when
      it never tags at all. */
  lemma FaithfulExactly(c: Coding)
    requires c.Wellformed()
    ensures Faithful(c) <==> c.TagsOk() || c.olddbz || c.taghere == NOTFOUND
  {
    if c.TagsOk() || c.olddbz || c.taghere == NOTFOUND {
      forall value: nat, tag: nat | c.Storable(value) && AndNot(tag, c.tagbits) == 0
        ensures c.Decode(c.Encode(value, tag), tag) == Holds(value)
      {
        if c.TagsOk() {
          StoredSlot(c, value, tag, tag);
        } else {
          if c.taghere == NOTFOUND {
            SubMask(tag, c.tagbits);
            AllOnes(value, tag, c.taghere);
          }
          UntaggedSlot(c, value, tag, tag);
        }
      }
    } else if c.taghere == 0 {
      UnmarkedTag(c, if c.tagbits == NOTFOUND then 1 else c.tagbits);
    } else {
      OverlappingTag(c);
    }
  }

  lemma UntaggedSlot(c: Coding, value: nat, tag: nat, wanted: nat)
    requires c.Wellformed() && c.Storable(value) && !c.IsTagged(value, tag)
    ensures c.Decode(c.Encode(value, tag), wanted) == Holds(value)
  {
    MapRoundTrip(c, value + 1);
    assert Bias(value) == value + 1 && Unbias(value + 1) == value;
  }

  lemma {:induction false} OrOnes(a: nat, n: nat)
    requires a < Pow2(n)
    ensures Or(a, Pow2(n) - 1) == Pow2(n) - 1
  {
    if n > 0 {
      MaskStep(a, Pow2(n) - 1);
      OrOnes(a / 2, n - 1);
    }
  }

  /** With every bit a marker no value but 0 is storable and no word is ever tagged. */
  lemma AllOnes(value: nat, tag: nat, taghere: nat)
    requires taghere == NOTFOUND && tag < WORDS && value < WORDS
    ensures Or(value, Or(tag, taghere)) == NOTFOUND
  {
    Pow2Long();
    OrOnes(tag, 64);
    OrOnes(value, 64);
  }

  lemma UnmarkedTag(c: Coding, tag: nat)
    requires c.Wellformed() && !c.olddbz && c.taghere == 0 && c.tagbits != 0
    requires tag == if c.tagbits == NOTFOUND then 1 else c.tagbits
    ensures !Faithful(c)
  {
    MapRoundTrip(c, tag + 1);
    assert Bias(tag) == tag + 1 && Unbias(tag + 1) == tag;
    AndZero(tag);
    NothingOutside(tag, c.tagbits);
    assert c.Tagged(0, tag) == tag;
    assert c.Storable(0);
    assert c.Decode(c.Encode(0, tag), tag) == Holds(tag);
  }

  lemma {:induction false} NothingOutside(tag: nat, bits: nat)
    requires tag == bits || (tag == 1 && bits % 2 == 1)
    ensures AndNot(tag, bits) == 0
  {
    if tag == bits && tag != 0 {
      NothingOutside(tag / 2, bits / 2);
    }
  }

  lemma {:induction false} AndCommutes(a: nat, b: nat)
    ensures And(a, b) == And(b, a)
    ensures And(a, a) == a
  {
    if a != 0 && b != 0 {
      AndCommutes(a / 2, b / 2);
    } else if a != 0 {
      AndCommutes(a / 2, b);
    }
  }

  lemma OverlappingTag(c: Coding)
    requires c.Wellformed() && !c.olddbz && c.taghere != 0 && c.taghere != NOTFOUND
    requires And(c.tagbits, c.taghere) != 0
    ensures !Faithful(c)
  {
    var v := c.taghere;
    MapRoundTrip(c, v + 1);
    assert Bias(v) == v + 1 && Unbias(v + 1) == v;
    AndCommutes(v, c.tagbits);
    AndCommutes(v, v);
    assert c.Tagged(0, 0) == v;
    assert c.Storable(0) && AndNot(0, c.tagbits) == 0;
    assert c.Decode(c.Encode(0, 0), 0) == Foreign;
  }

  // ----- choosing a tag mask from the size of the base file

  /** The least power of two that is no less than size is Pow2(r). */
  ghost predicate IsLog(size: nat, r: nat) {
    size <= Pow2(r) && (r == 0 || Pow2(r - 1) < size)
  }

  /** The least power of two that is no less than a size, and its logarithm. */
  method SizeLog(size: nat) returns (m: nat, i: nat)
    requires size <= 0x4000_0000_0000_0000  // otherwise the loop does not end, see DoublingEnds
    ensures m == Pow2(i) && IsLog(size, i) && i <= 62
  {
    m, i := 1, 0;
    while m < size
      invariant m == Pow2(i) && (i == 0 || Pow2(i - 1) < size) && i <= 62
      decreases size - m
    {
      Pow2Order(i, 62);
      Pow2Long();
      m, i := 2 * m, i + 1;
    }
  }

  /** The loop does come to an end exactly for these sizes: for a larger one the doubled long turns negative and then
      stays zero. */
  lemma DoublingEnds(size: nat)
    ensures (exists i: nat :: Signed(Shl(1, i) % WORDS) >= size) <==> size <= 0x4000_0000_0000_0000
  {
    Doubled(62);
    assert size <= 0x4000_0000_0000_0000 ==> Signed(Shl(1, 62) % WORDS) >= size;
    forall i: nat
      ensures Signed(Shl(1, i) % WORDS) <= 0x4000_0000_0000_0000
    {
      Doubled(i);
    }
  }

  lemma Doubled(i: nat)
    ensures Signed(Shl(1, i) % WORDS) <= 0x4000_0000_0000_0000
    ensures i == 62 ==> Signed(Shl(1, i) % WORDS) == 0x4000_0000_0000_0000
  {
    TopBit();
    ShlOfPow2(0, i);
    if i < 64 {
      Pow2Monotone(i, 63);
      Arith.Remainder(Pow2(i), WORDS, 0, Pow2(i));
      if i < 63 {
        Pow2Monotone(i, 62);
      }
    } else {
      var j := ManyDoubled(i);
      Arith.Remainder(Pow2(i), WORDS, j, 0);
    }
  }

  lemma {:induction false} ManyDoubled(i: nat) returns (j: nat)
    requires i >= 64
    ensures Pow2(i) == WORDS * j
  {
    if i == 64 {
      Pow2Long();
      j := 1;
    } else {
      var k := ManyDoubled(i - 1);
      j := 2 * k;
    }
  }

  /** All the bits from r up to 62, or nothing when fewer than 24 bits would be left to the offset. */
  method DbzTagMask(size: int) returns (tagmask: nat, ghost r: nat)
    requires size <= 0x4000_0000_0000_0000
    ensures size <= 0 ==> tagmask == 0
    ensures size > 0 ==> IsLog(size, r) && tagmask == if r < TAGSHIFT then 0 else OFFSETS - Pow2(r)
  {
    r := 0;
    if size <= 0 {
      return 0, 0;
    }
    var m, i := SizeLog(size);
    r := i;
    Pow2Order(i, TAGSHIFT);
    Pow2Long();
    if m < 0x100_0000 {
      return 0, r;
    }
    TopBits(i);
    tagmask := Shl(Shr(WORDS - 1, i + 1), i) % WORDS;
  }

  lemma Pow2Order(i: nat, j: nat)
    ensures Pow2(i) < Pow2(j) <==> i < j
  {
    if i < j {
      Pow2Monotone(i, j - 1);
    } else {
      Pow2Monotone(j, i);
    }
  }

  lemma TopBits(i: nat)
    requires i <= 62
    ensures Shl(Shr(WORDS - 1, i + 1), i) % WORDS == OFFSETS - Pow2(i)
  {
    ShiftedOnes(i);
    OnesOnTop(i);
    Arith.Remainder(OFFSETS - Pow2(i), WORDS, 0, OFFSETS - Pow2(i));
  }

  lemma OnesOnTop(i: nat)
    requires i <= 62
    ensures Pow2(i) < OFFSETS && Shl(Pow2(63 - i) - 1, i) == OFFSETS - Pow2(i)
  {
    TopBit();
    ShlOfOnes(63 - i, i);
    Pow2Order(i, 63);
  }

  lemma ShiftedOnes(i: nat)
    requires i <= 62
    ensures Shr(WORDS - 1, i + 1) == Pow2(63 - i) - 1
  {
    Pow2Long();
    ShrOnes(64, i + 1);
  }

  lemma {:induction false} ShrOnes(n: nat, k: nat)
    requires k <= n
    ensures Shr(Pow2(n) - 1, k) == Pow2(n - k) - 1
  {
    if k > 0 {
      ShrOnes(n - 1, k - 1);
    }
  }

  /** A long that is converted to a 32-bit int, as far as its bits go. */
  function LowInt(v: int): nat {
    v % 0x1_0000_0000
  }

  /** given is m shifted to the left, with its sign. */
  ghost predicate IsShifted(given: int, m: int, shift: nat) {
    if m >= 0 then given == Shl(m, shift) else given == 0 - Shl(-m, shift)
  }

  /** dbzfresh: what becomes of a caller's mask. Its low half decides: 0 asks for the default, 1 for no tags, and
      otherwise it is split into mask and shift, with the marker bit above. */
  ghost predicate IsFresh(given: int, tagenb: int, tagmask: int, tagshift: nat) {
    && IsLong(tagmask) && IsLong(tagenb)
    && if LowInt(given) == 0 then (tagenb, tagmask, tagshift) == (0x80, 0x7f, TAGSHIFT)
       else if LowInt(given) == 1 then (tagenb, tagmask, tagshift) == (0, 0, 0)
       else IsShifted(given, tagmask, tagshift) && tagmask % 2 == 1
            && Pattern(tagenb) == AndNot(2 * Pattern(tagmask) % WORDS, Pattern(tagmask))
  }

  method FreshTags(given: int) returns (tagenb: int, tagmask: int, tagshift: nat)
    requires IsLong(given)
    ensures IsFresh(given, tagenb, tagmask, tagshift)
  {
    if LowInt(given) == 0 {
      return 0x80, 0x7f, TAGSHIFT;
    }
    if LowInt(given) == 1 {
      return 0, 0, 0;
    }
    var m := given;
    tagshift := 0;
    while m % 2 == 0
      invariant m != 0 && IsLong(m) && IsShifted(given, m, tagshift)
      decreases if m < 0 then -m else m
    {
      ShlOfDouble(if m < 0 then -m / 2 else m / 2, tagshift);
      m := m / 2;  // as m is even, the shift to the right is exact for either sign
      tagshift := tagshift + 1;
    }
    tagmask := m;
    MarkerIsWord(Pattern(m));
    tagenb := Signed(AndNot(2 * Pattern(m) % WORDS, Pattern(m)));
  }

  lemma MarkerIsWord(p: nat)
    ensures AndNot(2 * p % WORDS, p) < WORDS
  {
    AndNotIsApart(p, 2 * p % WORDS);
  }

  lemma {:induction false} AndNotIsApart(m: nat, y: nat)
    ensures And(m, AndNot(y, m)) == 0
    ensures AndNot(y, m) <= y
    decreases y
  {
    if y != 0 && m != 0 {
      MaskStep(y, m);
      AndNotIsApart(m / 2, y / 2);
      MaskStep(m, AndNot(y, m));
    }
  }

  /** The pre-shifted masks that dbminit makes of a configuration. */
  ghost predicate HasMasks(c: Coding, tagenb: int, tagmask: int, tagshift: nat) {
    && IsLong(tagmask) && IsLong(tagenb)
    && c.tagbits == Shl(Pattern(tagmask), tagshift) % WORDS && c.taghere == Shl(Pattern(tagenb), tagshift) % WORDS
  }

  /** The mask is a run of ones up to the sign bit. */
  predicate RunsToSign(given: int) {
    exists s :: 0 <= s < 32 && given == 0 - Pow2(s)
  }

  /** However dbzfresh splits a mask, the marker lies apart from the tag, and exists if there is a tag, unless the mask
      leaves no room for a marker above it. */
  lemma FreshTagsExactly(given: int, tagenb: int, tagmask: int, tagshift: nat, c: Coding)
    requires IsLong(given) && IsFresh(given, tagenb, tagmask, tagshift) && HasMasks(c, tagenb, tagmask, tagshift)
    ensures c.TagsOk() <==> !RunsToSign(given)
    ensures tagshift < 64
  {
    if LowInt(given) == 0 {
      DefaultTags(tagenb, tagmask, tagshift, c);
      NoRun(given);
    } else if LowInt(given) == 1 {
      NoMasksApart(tagenb, tagmask, tagshift);
      NoRun(given);
    } else if given >= 0 {
      PositiveTags(given, tagenb, tagmask, tagshift, c);
      PositiveIsNoRun(given);
    } else {
      NegativeTags(given, tagenb, 0 - tagmask, tagshift, c);
      RunIsOne(given, 0 - tagmask, tagshift);
    }
  }

  lemma DefaultTags(tagenb: int, tagmask: int, tagshift: nat, c: Coding)
    requires (tagenb, tagmask, tagshift) == (0x80, 0x7f, TAGSHIFT) && HasMasks(c, tagenb, tagmask, tagshift)
    ensures c.TagsOk()
  {
    DefaultMasksApart();
  }

  lemma PositiveTags(given: nat, tagenb: int, tagmask: int, tagshift: nat, c: Coding)
    requires 1 < given < OFFSETS && IsShifted(given, tagmask, tagshift) && tagmask % 2 == 1
    requires HasMasks(c, tagenb, tagmask, tagshift)
    requires Pattern(tagenb) == AndNot(2 * Pattern(tagmask) % WORDS, Pattern(tagmask))
    ensures c.TagsOk() && tagshift < 64
  {
    PositiveSplit(given, tagmask, tagshift);
    GivenTagsOk(given, Pattern(tagenb), tagmask, tagshift);
  }

  lemma PositiveIsNoRun(given: nat)
    ensures !RunsToSign(given)
  {}

  lemma NoRun(given: int)
    requires LowInt(given) <= 1
    ensures !RunsToSign(given)
  {
    forall s | 0 <= s < 32
      ensures given != 0 - Pow2(s)
    {
      LowOfRun(s);
    }
  }

  lemma LowHalf(v: int, q: int, r: nat)
    requires v == 0x1_0000_0000 * q + r && r < 0x1_0000_0000
    ensures LowInt(v) == r
  {}

  lemma LowOfRun(s: nat)
    requires s < 32
    ensures LowInt(0 - Pow2(s)) == 0x1_0000_0000 - Pow2(s) > 1
  {
    Pow2Long();
    Pow2Monotone(s, 31);
    LowHalf(0 - Pow2(s), -1, 0x1_0000_0000 - Pow2(s));
  }

  lemma RunIsOne(given: int, k: nat, s: nat)
    requires k % 2 == 1 && given == 0 - Shl(k, s) && LowInt(given) != 0
    ensures k == 1 <==> RunsToSign(given)
  {
    ShlOfPow2(0, s);
    if k == 1 {
      ShortRun(given, s);
    } else if RunsToSign(given) {
      var r :| 0 <= r < 32 && given == 0 - Pow2(r);
      ShlOfPow2(0, r);
      OddPart(k, s, 1, r);
    }
  }

  lemma ShortRun(given: int, s: nat)
    requires given == 0 - Pow2(s) && LowInt(given) != 0
    ensures s < 32
  {
    if s >= 32 {
      PowersAbove(s - 32);
      LowHalf(given, 0 - Pow2(s - 32), 0);
    }
  }

  lemma {:induction false} PowersAbove(s: nat)
    ensures Pow2(s + 32) == 0x1_0000_0000 * Pow2(s)
  {
    if s == 0 {
      Pow2Long();
    } else {
      PowersAbove(s - 1);
    }
  }

  /** The mask -k, shifted by s: its marker is the lowest bit above its lowest run of ones, and there is one unless
      k is 1. */
  lemma NegativeTags(given: int, tagenb: int, k: nat, s: nat, c: Coding)
    requires IsLong(given) && k > 0 && k % 2 == 1 && given == 0 - Shl(k, s) && IsLong(tagenb) && IsLong(0 - k)
    requires Pattern(tagenb) == AndNot(2 * Pattern(0 - k) % WORDS, Pattern(0 - k)) && HasMasks(c, tagenb, 0 - k, s)
    ensures s < 64 && (c.TagsOk() <==> k != 1)
  {
    var e := AndNot(k - 1, 2 * k - 1);
    NegativeMarker(k);
    NegativeWords(k, s, e, c);
    MarkerApart(k, s, e);
    ShlOfNothing(s);
    if k > 1 {
      OddMarkerExists((k - 1) / 2, k - 1, 2 * k - 1);
      ShlGrows(e, s);
    }
  }

  lemma NegativeWords(k: nat, s: nat, e: nat, c: Coding)
    requires k > 0 && Shl(k, s) <= OFFSETS && e == AndNot(k - 1, 2 * k - 1) && k <= OFFSETS
    requires c.tagbits == Shl(WORDS - k, s) % WORDS && c.taghere == Shl(e, s) % WORDS
    ensures s < 64 && c.tagbits == WORDS - Shl(k, s) && c.taghere == Shl(e, s)
  {
    ShlGrows(k, s);
    TopBit();
    Pow2Order(s, 64);
    NegativeMask(k, s, c.tagbits);
    AndNotIsApart(2 * k - 1, k - 1);
    ShlMonotone(e, k, s);
    Arith.Remainder(Shl(e, s), WORDS, 0, Shl(e, s));
  }

  lemma NegativeMarker(k: nat)
    requires k % 2 == 1 && k <= OFFSETS
    ensures AndNot(2 * Pattern(0 - k) % WORDS, Pattern(0 - k)) == AndNot(k - 1, 2 * k - 1)
  {
    Pow2Long();
    Arith.Remainder(2 * (WORDS - k), WORDS, 1, WORDS - 2 * k);
    AndNotOfComplements(k - 1, 2 * k - 1, 64);
  }

  lemma {:induction false} ShlOfNegative(k: nat, s: nat) returns (j: nat)
    requires k <= WORDS
    ensures Shl(WORDS - k, s) == WORDS * j + WORDS - Shl(k, s)
  {
    j := 0;
    if s > 0 {
      var i := ShlOfNegative(k, s - 1);
      j := 2 * i + 1;
    }
  }

  lemma NegativeMask(k: nat, s: nat, bits: nat)
    requires 0 < Shl(k, s) <= OFFSETS && k <= OFFSETS && bits == Shl(WORDS - k, s) % WORDS
    ensures bits == WORDS - Shl(k, s)
  {
    var j := ShlOfNegative(k, s);
    Arith.Remainder(Shl(WORDS - k, s), WORDS, j, WORDS - Shl(k, s));
  }

  lemma MarkerApart(k: nat, s: nat, e: nat)
    requires 0 < k && s < 64 && Shl(k, s) <= OFFSETS && e == AndNot(k - 1, 2 * k - 1)
    ensures And(WORDS - Shl(k, s), Shl(e, s)) == 0
  {
    MaskAsShift(k, s, 64 - s);
    ComplementApart(k - 1, 2 * k - 1, 64 - s);
    AndOfShifted(Pow2(64 - s) - k, e, s);
    ShlOfNothing(s);
  }

  lemma MaskAsShift(k: nat, s: nat, n: nat)
    requires s + n == 64 && 0 < k && Shl(k, s) <= OFFSETS
    ensures k < Pow2(n) && Shl(Pow2(n) - k, s) == WORDS - Shl(k, s)
  {
    TopBit();
    ShlOfPow2(n, s);
    if Pow2(n) <= k {
      ShlMonotone(Pow2(n), k, s);
    } else {
      ShlSub(Pow2(n), k, s);
    }
  }

  lemma OddMarkerExists(h: nat, x: nat, y: nat)
    requires h > 0 && x / 2 == h && y / 2 == 2 * h
    ensures AndNot(x, y) > 0
  {
    MaskStep(x, y);
    LowestStands(h);
  }

  lemma NoMasksApart(tagenb: int, tagmask: int, tagshift: nat)
    requires tagenb == tagmask == 0
    ensures And(Shl(tagmask, tagshift) % WORDS, Shl(tagenb, tagshift) % WORDS) == 0
    ensures Shl(tagmask, tagshift) % WORDS == 0
  {
    ShlOfNothing(tagshift);
    AndZero(0);
  }

  lemma GivenTagsOk(given: nat, tagenb: nat, tagmask: nat, tagshift: nat)
    requires 1 < given < OFFSETS
    requires given == Shl(tagmask, tagshift) && tagmask % 2 == 1 && tagenb == AndNot(2 * tagmask, tagmask)
    ensures And(Shl(tagmask, tagshift) % WORDS, Shl(tagenb, tagshift) % WORDS) == 0
    ensures Shl(tagenb, tagshift) % WORDS != 0
    ensures tagshift < 64
  {
    AndNotIsApart(tagmask, 2 * tagmask);
    AndOfShifted(tagmask, tagenb, tagshift);
    ShlOfNothing(tagshift);
    MarkerExists(tagmask, tagenb);
    MarkerFits(given, tagenb, tagmask, tagshift);
    MasksApart(given, Shl(tagenb, tagshift));
  }

  lemma MasksApart(bits: nat, here: nat)
    requires And(bits, here) == 0 && bits < WORDS && 0 < here < WORDS
    ensures And(bits % WORDS, here % WORDS) == 0 && here % WORDS != 0
  {
    Arith.Remainder(bits, WORDS, 0, bits);
    Arith.Remainder(here, WORDS, 0, here);
  }

  lemma DefaultMasksApart()
    ensures And(Shl(0x7f, TAGSHIFT) % WORDS, Shl(0x80, TAGSHIFT) % WORDS) == 0
    ensures Shl(0x80, TAGSHIFT) % WORDS != 0
  {
    var mask, marker, shift := 0x7f, 0x80, TAGSHIFT;
    DefaultApart(mask, marker);
    AndOfShifted(mask, marker, shift);
    ShlOfNothing(shift);
    DefaultSizes(mask, marker, shift);
    MasksApart(Shl(mask, shift), Shl(marker, shift));
  }

  lemma DefaultApart(mask: nat, marker: nat)
    requires mask == 0x7f && marker == 0x80
    ensures And(mask, marker) == 0
  {
    Pow2Long();
    ShlOfPow2(0, 7);
    AndOfMultiple(mask, 1, 7);
  }

  lemma DefaultSizes(mask: nat, marker: nat, shift: nat)
    requires mask == 0x7f && marker == 0x80 && shift == TAGSHIFT
    ensures Shl(mask, shift) < WORDS && Shl(marker, shift) == 0x8000_0000
  {
    Pow2Long();
    ShlOfPow2(7, shift);
    ShlMonotone(mask, marker, shift);
  }

  lemma {:induction false} ShlOfNothing(n: nat)
    ensures Shl(0, n) == 0
  {
    if n > 0 {
      ShlOfNothing(n - 1);
    }
  }

  lemma MarkerExists(m: nat, tagenb: nat)
    requires m > 0 && tagenb == AndNot(2 * m, m)
    ensures tagenb > 0
  {
    if tagenb == 0 {
      SubMask(2 * m, m);
    }
  }

  lemma MarkerFits(given: nat, tagenb: nat, m: nat, s: nat)
    requires 1 < given < OFFSETS && given == Shl(m, s) && m > 0 && 0 < tagenb <= 2 * m
    ensures s < 64 && 0 < Shl(tagenb, s) < WORDS
  {
    TopBit();
    ShlGrows(m, s);
    ShlGrows(tagenb, s);
    Pow2Order(s, 63);
    ShlMonotone(tagenb, 2 * m, s);
    ShlOfDouble(m, s);
  }

  lemma {:induction false} MarkerAboveOnes(k: nat)
    ensures AndNot(2 * (Pow2(k) - 1) + 1, Pow2(k) - 1) == Pow2(k)
  {
    if k > 0 {
      var ones := Pow2(k) - 1;
      MarkerAboveOnes(k - 1);
      MaskStep(2 * ones + 1, ones);
    }
  }

  /** A mask made by dbztagmask and split by dbzfresh is a faithful tag configuration, and every offset into
      a file of that size can be tagged and stored. */
  lemma TagMaskFits(size: nat, r: nat, tagenb: nat, tagmask: nat, tagshift: nat, c: Coding, offset: nat)
    requires 0 < size && IsLog(size, r) && TAGSHIFT <= r <= 62
    requires Shl(tagmask, tagshift) == OFFSETS - Pow2(r) && tagmask % 2 == 1
    requires tagenb == AndNot(2 * tagmask, tagmask)
    requires c.tagbits == Shl(tagmask, tagshift) % WORDS && c.taghere == Shl(tagenb, tagshift) % WORDS
    requires offset < size
    ensures c.TagsOk() && c.CanTag(offset) && c.Storable(offset)
  {
    MarkerIsTop(r, tagenb, tagmask, tagshift);
    FitsByValues(c, r, Shl(tagmask, tagshift), Shl(tagenb, tagshift), offset);
  }

  lemma MarkerIsTop(r: nat, tagenb: nat, tagmask: nat, tagshift: nat)
    requires r <= 62 && tagmask % 2 == 1 && tagenb == AndNot(2 * tagmask, tagmask)
    requires Shl(tagmask, tagshift) == OFFSETS - Pow2(r)
    ensures Shl(tagenb, tagshift) == OFFSETS
  {
    MaskParts(r, tagenb, tagmask, tagshift);
  }

  lemma FitsByValues(c: Coding, r: nat, bits: int, here: nat, offset: nat)
    requires r <= 62 && bits == OFFSETS - Pow2(r) && here == OFFSETS && offset < Pow2(r)
    requires bits >= 0 && c.tagbits == bits % WORDS && c.taghere == here % WORDS
    ensures c.TagsOk() && c.CanTag(offset) && c.Storable(offset)
  {
    MaskWords(c, r, bits, here);
    BelowTags(c, r, offset);
  }

  lemma BelowTags(c: Coding, r: nat, offset: nat)
    requires r <= 62 && offset < Pow2(r) && c.tagbits == OFFSETS - Pow2(r) && c.taghere == OFFSETS
    ensures c.CanTag(offset) && c.Storable(offset)
  {
    BelowMask(offset, r);
    AndOrZero(offset, c.tagbits, c.taghere);
  }

  /** Every offset below this size can be tagged and stored. */
  ghost predicate Takes(coding: Coding, size: nat) {
    forall offset: nat :: offset < size ==> coding.CanTag(offset) && coding.Storable(offset)
  }

  /** The tags that dbzfresh makes of the mask that dbztagmask gives for a file size suit every offset below the size
      exactly when these take less than 32 bits: the mask of a larger file has an empty low half, which asks for the
      default. */
  lemma TagMaskSuitsExactly(size: nat, r: nat, given: int, tagenb: int, tagmask: int, tagshift: nat, c: Coding)
    requires 0 < size && IsLog(size, r) && r <= 62
    requires given == if r < TAGSHIFT then 0 else OFFSETS - Pow2(r)
    requires IsFresh(given, tagenb, tagmask, tagshift) && HasMasks(c, tagenb, tagmask, tagshift)
    ensures Takes(c, size) <==> r < 32
  {
    if r < TAGSHIFT {
      DefaultMasks(c, tagenb, tagmask, tagshift);
      DefaultTakesSmall(c, size, r, tagenb, tagmask);
    } else if r < 32 {
      SmallMaskHasLowBits(r);
      PositiveSplit(given, tagmask, tagshift);
      SplitMaskTakes(size, r, Pattern(tagenb), tagmask, tagshift, c);
    } else {
      LargeMaskHasNone(r);
      DefaultMasks(c, tagenb, tagmask, tagshift);
      DefaultRefusesLarge(c, size, r);
    }
  }

  lemma SplitMaskTakes(size: nat, r: nat, tagenb: nat, tagmask: nat, tagshift: nat, c: Coding)
    requires 0 < size && IsLog(size, r) && TAGSHIFT <= r <= 62
    requires Shl(tagmask, tagshift) == OFFSETS - Pow2(r) && tagmask % 2 == 1 && tagenb == AndNot(2 * tagmask, tagmask)
    requires c.tagbits == Shl(tagmask, tagshift) % WORDS && c.taghere == Shl(tagenb, tagshift) % WORDS
    ensures Takes(c, size)
  {
    forall offset: nat | offset < size
      ensures c.CanTag(offset) && c.Storable(offset)
    {
      TagMaskFits(size, r, tagenb, tagmask, tagshift, c, offset);
    }
  }

  lemma PositiveSplit(given: nat, m: int, s: nat)
    requires IsShifted(given, m, s) && given > 0 && IsLong(m)
    ensures m > 0 && given == Shl(m, s) && 2 * Pattern(m) % WORDS == 2 * m
  {
    Arith.Remainder(2 * Pattern(m), WORDS, 0, 2 * Pattern(m));
    ShlOfNothing(s);
  }

  lemma SmallMaskHasLowBits(r: nat)
    requires TAGSHIFT <= r < 32
    ensures Pow2(r) <= 0x8000_0000 && LowInt(OFFSETS - Pow2(r)) == 0x1_0000_0000 - Pow2(r)
  {
    Pow2Long();
    Pow2Monotone(r, 31);
    Arith.Remainder(OFFSETS - Pow2(r), 0x1_0000_0000, 0x7fff_ffff, 0x1_0000_0000 - Pow2(r));
  }

  lemma LargeMaskHasNone(r: nat)
    requires 32 <= r <= 62
    ensures Pow2(r) < OFFSETS && LowInt(OFFSETS - Pow2(r)) == 0
  {
    Pow2Long();
    Pow2Order(r, 63);
    PowersAbove(r - 32);
    LowHalf(OFFSETS - Pow2(r), 0x8000_0000 - Pow2(r - 32), 0);
  }

  lemma DefaultMasks(c: Coding, tagenb: int, tagmask: int, tagshift: nat)
    requires (tagenb, tagmask, tagshift) == (0x80, 0x7f, TAGSHIFT) && HasMasks(c, tagenb, tagmask, tagshift)
    ensures c.tagbits == Shl(tagmask, tagshift) && c.taghere == Shl(tagenb, tagshift) == 0x8000_0000
  {
    DefaultSizes(tagmask, tagenb, tagshift);
    Arith.Remainder(Shl(tagmask, tagshift), WORDS, 0, Shl(tagmask, tagshift));
    Arith.Remainder(Shl(tagenb, tagshift), WORDS, 0, Shl(tagenb, tagshift));
  }

  lemma DefaultTakesSmall(c: Coding, size: nat, r: nat, tagenb: nat, tagmask: nat)
    requires IsLog(size, r) && r < TAGSHIFT && c.tagbits == Shl(tagmask, TAGSHIFT) && c.taghere == Shl(tagenb, TAGSHIFT)
    ensures Takes(c, size)
  {
    Pow2Order(r, TAGSHIFT);
    Pow2Long();
    forall offset: nat | offset < size
      ensures c.CanTag(offset) && c.Storable(offset)
    {
      AndOfMultiple(offset, tagmask, TAGSHIFT);
      AndOfMultiple(offset, tagenb, TAGSHIFT);
      AndOrZero(offset, c.tagbits, c.taghere);
    }
  }

  lemma DefaultRefusesLarge(c: Coding, size: nat, r: nat)
    requires IsLog(size, r) && r >= 32 && c.taghere == 0x8000_0000
    ensures !Takes(c, size)
  {
    Pow2Long();
    Pow2Monotone(31, r - 1);
    MarkedIsRefused(c, size, c.taghere);
  }

  /** An offset with the marker bit looks tagged. */
  lemma MarkedIsRefused(c: Coding, size: nat, offset: nat)
    requires c.taghere == offset && 0 < offset < size
    ensures !Takes(c, size)
  {
    AndCommutes(offset, offset);
    assert !c.Storable(offset);
  }

  lemma MaskWords(c: Coding, r: nat, bits: int, here: nat)
    requires r <= 62 && bits == OFFSETS - Pow2(r) && here == OFFSETS
    requires bits >= 0 && c.tagbits == bits % WORDS && c.taghere == here % WORDS
    ensures c.tagbits == OFFSETS - Pow2(r) && c.taghere == OFFSETS && c.TagsOk()
  {
    Arith.Remainder(bits, WORDS, 0, bits);
    BelowTopBit(bits);
  }

  lemma TopBit()
    ensures Pow2(63) == OFFSETS
  {
    Pow2Long();
  }

  lemma BelowTopBit(v: nat)
    requires v < OFFSETS
    ensures And(v, OFFSETS) == 0
  {
    TopBit();
    ShlOfPow2(0, 63);
    AndOfMultiple(v, 1, 63);
  }

  lemma BelowMask(offset: nat, r: nat)
    requires r <= 62 && offset < Pow2(r)
    ensures Pow2(r) < OFFSETS && And(offset, OFFSETS - Pow2(r)) == 0 && And(offset, OFFSETS) == 0
  {
    OnesOnTop(r);
    AndOfMultiple(offset, Pow2(63 - r) - 1, r);
    BelowTopBit(offset);
  }

  lemma MaskParts(r: nat, tagenb: nat, tagmask: nat, tagshift: nat)
    requires r <= 62 && tagmask % 2 == 1 && tagenb == AndNot(2 * tagmask, tagmask)
    requires Shl(tagmask, tagshift) == OFFSETS - Pow2(r)
    ensures tagshift == r && tagmask == Pow2(63 - r) - 1
    ensures Shl(tagenb, tagshift) == OFFSETS
  {
    OnesOnTop(r);
    OddOnes(63 - r);
    OddPart(tagmask, tagshift, Pow2(63 - r) - 1, r);
    MarkerOfOnes(63 - r);
    TopBit();
    ShlOfPow2(63 - r, r);
  }

  lemma OddOnes(k: nat)
    requires k > 0
    ensures (Pow2(k) - 1) % 2 == 1
  {
    OddBefore(Pow2(k - 1));
  }

  lemma OddBefore(p: nat)
    requires p > 0
    ensures (2 * p - 1) % 2 == 1
  {}

  lemma MarkerOfOnes(k: nat)
    requires k > 0
    ensures AndNot(2 * (Pow2(k) - 1), Pow2(k) - 1) == Pow2(k)
  {
    MarkerAboveOnes(k - 1);
    MaskStep(2 * (Pow2(k) - 1), Pow2(k) - 1);
  }

  lemma {:induction false} AndOrZero(v: nat, a: nat, b: nat)
    requires And(v, a) == 0 && And(v, b) == 0
    ensures And(v, Or(a, b)) == 0
  {
    if v != 0 && a != 0 && b != 0 {
      MaskStep(v, a);
      MaskStep(v, b);
      MaskStep(a, b);
      AndOrZero(v / 2, a / 2, b / 2);
      MaskStep(v, Or(a, b));
    }
  }
}
