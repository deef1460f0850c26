/** The key hash of dbz: a 31-bit shift register driven by a table of 128 entries. */
module CrcHash {
  import Arith
  import opened Bits
  import opened Text

  const POLY: nat := 0x4800_0000

  /** The part of a table entry contributed by bits k..6 of its index. */
  function Contribution(i: nat, k: nat): nat
    decreases 7 - k
  {
    if k >= 7 then 0
    else Xor(Contribution(i, k + 1), if Shr(i, k) % 2 == 1 then Shr(POLY, k) else 0)
  }

  function Table(i: nat): nat {
    Contribution(i, 0)
  }

  /** One turn of the register. */
  function Step(sum: nat, code: nat): nat {
    Xor(Shr(sum, 7), Table(Low(Xor(sum, code), 7)))
  }

  function HashCodes(sum: nat, codes: seq<nat>): nat
    decreases |codes|
  {
    if codes == [] then sum else HashCodes(Step(sum, codes[0]), codes[1..])
  }

  function Codes(name: Str): seq<nat> {
    seq(|name|, i requires 0 <= i < |name| => name[i] as nat)
  }

  /** The hash of a key. */
  function HashCode(name: Str): nat {
    HashCodes(0, Codes(name))
  }

  method CrcInit(crcTable: array<nat>)
    requires crcTable.Length == 128
    modifies crcTable
    ensures Initialised(crcTable[..])
  {
    for i := 0 to 128
      invariant forall k :: 0 <= k < i ==> crcTable[k] == Table(k)
    {
      var sum := 0;
      for j := 7 downto 0
        invariant sum == Contribution(i, j)
      {
        if Shr(i, j) % 2 == 1 {
          sum := Xor(sum, Shr(POLY, j));
        }
      }
      crcTable[i] := sum;
    }
  }

  /** The contents of an initialised table. */
  ghost predicate Initialised(crcTable: seq<nat>) {
    |crcTable| == 128 && forall i :: 0 <= i < 128 ==> crcTable[i] == Table(i)
  }

  method Hash(crcTable: seq<nat>, name: Str) returns (sum: nat)
    requires Initialised(crcTable)
    ensures sum == HashCode(name)
    ensures sum < Pow2(31)
  {
    sum := 0;
    ghost var codes := Codes(name);
    for i := 0 to |name|
      invariant HashCodes(sum, codes[i..]) == HashCode(name)
      invariant sum < Pow2(31)
    {
      StepRange(sum, name[i] as nat);
      Pow2Long();
      LowBound(Xor(sum, name[i] as nat), 7);
      sum := Xor(Shr(sum, 7), crcTable[Low(Xor(sum, name[i] as nat), 7)]);
      assert codes[i..][1..] == codes[i + 1..];
    }
  }

  // ----- the hash in arithmetic

  /** One more character: the register is divided by 128, and an entry chosen by its seven low digits comes in. */
  lemma {:induction false} CodesOneMore(sum: nat, codes: seq<nat>, code: nat)
    ensures HashCodes(sum, codes + [code]) == Step(HashCodes(sum, codes), code)
    decreases |codes|
  {
    if codes == [] {
      assert codes + [code] == [code] && [code][1..] == [];
      assert HashCodes(Step(sum, code), []) == Step(sum, code);
    } else {
      assert (codes + [code])[1..] == codes[1..] + [code];
      CodesOneMore(Step(sum, codes[0]), codes[1..], code);
    }
  }

  lemma StepArithmetic(sum: nat, code: nat)
    ensures Step(sum, code) == Xor(sum / 128, Table(Xor(sum, code) % 128))
  {
    Shr7(sum);
    Low7(Xor(sum, code));
  }

  lemma HashByCharacter(name: Str, c: Byte)
    ensures HashCode([]) == 0
    ensures HashCode(name + [c]) == Xor(HashCode(name) / 128, Table(Xor(HashCode(name), c as nat) % 128))
  {
    assert Codes(name + [c]) == Codes(name) + [c as nat];
    CodesOneMore(0, Codes(name), c as nat);
    StepArithmetic(HashCode(name), c as nat);
  }

  /** The entries for one digit are the polynomial, shifted; any other entry is the sum of those for its digits. */
  lemma TableEntries(a: nat, b: nat)
    ensures Table(Xor(a, b)) == Xor(Table(a), Table(b))
    ensures Table(0) == 0 && Table(1) == 0x4800_0000 && Table(2) == 0x2400_0000 && Table(4) == 0x1200_0000
    ensures Table(8) == 0x900_0000 && Table(16) == 0x480_0000 && Table(32) == 0x240_0000 && Table(64) == 0x120_0000
  {
    ContributionIsLinear(a, b, 0);
    TableZero();
    OneEntry(0, 1, 0x4800_0000);
    OneEntry(1, 2, 0x2400_0000);
    OneEntry(2, 4, 0x1200_0000);
    OneEntry(3, 8, 0x900_0000);
    OneEntry(4, 16, 0x480_0000);
    OneEntry(5, 32, 0x240_0000);
    OneEntry(6, 64, 0x120_0000);
  }

  lemma OneEntry(k: nat, i: nat, entry: nat)
    requires k < 7 && i == Pow2(k) && entry * i == 0x4800_0000
    ensures Table(i) == entry
  {
    OneBit(k, 0);
    ShrIsDiv(POLY, k);
    Arith.Remainder(POLY, i, entry, 0);
  }

  // ----- linearity

  lemma {:induction false} ContributionIsLinear(a: nat, b: nat, k: nat)
    ensures Contribution(Xor(a, b), k) == Xor(Contribution(a, k), Contribution(b, k))
    decreases 7 - k
  {
    if k < 7 {
      ContributionIsLinear(a, b, k + 1);
      XorShr(a, b, k);
      XorStep(Shr(a, k), Shr(b, k));
      var p := Shr(POLY, k);
      XorSelf(p);
      XorSwapsMiddle(Contribution(a, k + 1), Contribution(b, k + 1),
                     if Shr(a, k) % 2 == 1 then p else 0, if Shr(b, k) % 2 == 1 then p else 0);
    }
  }

  lemma StepIsLinear(s: nat, t: nat, c: nat, d: nat)
    ensures Step(Xor(s, t), Xor(c, d)) == Xor(Step(s, c), Step(t, d))
  {
    XorShr(s, t, 7);
    XorSwapsMiddle(s, t, c, d);
    XorLow(Xor(s, c), Xor(t, d), 7);
    var x, y := Low(Xor(s, c), 7), Low(Xor(t, d), 7);
    ContributionIsLinear(x, y, 0);
    XorSwapsMiddle(Shr(s, 7), Shr(t, 7), Table(x), Table(y));
  }

  function XorSeq(a: seq<nat>, b: seq<nat>): (c: seq<nat>)
    requires |a| == |b|
    ensures |c| == |a| && forall i :: 0 <= i < |a| ==> c[i] == Xor(a[i], b[i])
  {
    seq(|a|, i requires 0 <= i < |a| => Xor(a[i], b[i]))
  }

  /** The hash is XOR-linear on keys of equal length. */
  lemma {:induction false} HashIsLinear(s: nat, t: nat, a: seq<nat>, b: seq<nat>)
    requires |a| == |b|
    ensures HashCodes(Xor(s, t), XorSeq(a, b)) == Xor(HashCodes(s, a), HashCodes(t, b))
    decreases |a|
  {
    if a != [] {
      StepIsLinear(s, t, a[0], b[0]);
      HashIsLinear(Step(s, a[0]), Step(t, b[0]), a[1..], b[1..]);
      assert XorSeq(a, b)[1..] == XorSeq(a[1..], b[1..]);
    }
  }

  // ----- range

  lemma {:induction false} ContributionRange(i: nat, k: nat)
    ensures Contribution(i, k) < Pow2(31)
    decreases 7 - k
  {
    Pow2Long();
    if k < 7 {
      ContributionRange(i, k + 1);
      Pow2Add(k, 31);
      Pow2Monotone(31, k + 31);
      ShrBound(POLY, k, 31);
      XorBound(Contribution(i, k + 1), if Shr(i, k) % 2 == 1 then Shr(POLY, k) else 0, 31);
    }
  }

  lemma StepRange(sum: nat, code: nat)
    requires sum < Pow2(31)
    ensures Step(sum, code) < Pow2(31)
    ensures Shr(sum, 7) < Pow2(24)
  {
    ShrBound(sum, 7, 24);
    Pow2Monotone(24, 31);
    ContributionRange(Low(Xor(sum, code), 7), 0);
    XorBound(Shr(sum, 7), Table(Low(Xor(sum, code), 7)), 31);
  }

  /** The hash of every key lies in [0, 2^31). */
  lemma {:induction false} HashRange(sum: nat, codes: seq<nat>)
    requires sum < Pow2(31)
    ensures HashCodes(sum, codes) < 0x8000_0000
    decreases |codes|
  {
    if codes == [] {
      Pow2Long();
    } else {
      StepRange(sum, codes[0]);
      HashRange(Step(sum, codes[0]), codes[1..]);
    }
  }

  // ----- collisions

  lemma {:induction false} XorTopDigit(x: nat, c: nat, n: nat)
    requires x < Pow2(n) <= c
    ensures Xor(x, c) >= Pow2(n)
  {
    if n > 0 && x != 0 {
      XorTopDigit(x / 2, c / 2, n - 1);
    }
  }

  /** The seven top digits of a table entry: bit k of the index switches on digit 30-k and no higher one. */
  lemma {:induction false} TopOfContribution(i: nat, k: nat)
    requires k <= 7
    ensures Shr(Contribution(i, k), 24) < Pow2(7 - k)
    ensures k < 7 && Shr(i, k) % 2 == 1 ==> Shr(Contribution(i, k), 24) >= Pow2(6 - k)
    decreases 7 - k
  {
    ShrOfZero(24);
    if k < 7 {
      TopOfContribution(i, k + 1);
      var p := if Shr(i, k) % 2 == 1 then Shr(POLY, k) else 0;
      XorShr(Contribution(i, k + 1), p, 24);
      TopOfPoly(k);
      XorBound(Shr(Contribution(i, k + 1), 24), Shr(p, 24), 7 - k);
      if p != 0 {
        XorTopDigit(Shr(Contribution(i, k + 1), 24), Shr(p, 24), 6 - k);
      }
    }
  }

  lemma TopOfPoly(k: nat)
    requires k < 7
    ensures Pow2(6 - k) <= Shr(Shr(POLY, k), 24) < Pow2(7 - k)
  {
    PolyTop();
    ShrShr(POLY, k, 24);
    ShrShr(POLY, 24, k);
    assert Shr(72, 0) == 72 && Shr(72, 1) == 36 && Shr(72, 2) == 18 && Shr(72, 3) == 9;
    assert Shr(72, 4) == 4 && Shr(72, 5) == 2 && Shr(72, 6) == 1;
    assert Pow2(0) == 1 && Pow2(1) == 2 && Pow2(2) == 4 && Pow2(3) == 8;
    assert Pow2(4) == 16 && Pow2(5) == 32 && Pow2(6) == 64 && Pow2(7) == 128;
  }

  lemma PolyTop()
    ensures Shr(POLY, 24) == 72
  {
    ShrIsDiv(POLY, 24);
    Pow2Long();
  }

  /** Every table entry but the first has a digit in positions 24..30. */
  lemma {:induction false} TableTop(i: nat, k: nat)
    requires k <= 7 && 0 < Shr(i, k) < Pow2(7 - k)
    ensures Shr(Contribution(i, k), 24) > 0
    decreases 7 - k
  {
    if k < 7 {
      TopOfContribution(i, k);
      if Shr(i, k) % 2 == 0 {
        ShrStep(i, k);
        TableTop(i, k + 1);
      }
    }
  }

  lemma {:induction false} ShrStep(a: nat, n: nat)
    ensures Shr(a, n + 1) == Shr(a, n) / 2
  {
    if n > 0 {
      ShrStep(a / 2, n - 1);
    }
  }

  /** What a turn does to the top of the register. */
  lemma StepTop(s: nat, d: nat)
    requires s < Pow2(31)
    ensures Low(Xor(s, d), 7) != 0 ==> Shr(Step(s, d), 24) != 0
    ensures Low(Xor(s, d), 7) == 0 ==> Step(s, d) == Shr(s, 7)
  {
    ShrBound(s, 7, 24);
    LowBound(Xor(s, d), 7);
    if Low(Xor(s, d), 7) != 0 {
      TurnTop(Shr(s, 7), Low(Xor(s, d), 7));
    } else {
      TableZero();
    }
  }

  lemma TurnTop(low: nat, x: nat)
    requires low < Pow2(24) && 0 < x < Pow2(7)
    ensures Shr(Xor(low, Table(x)), 24) != 0
  {
    ShrBound(low, 24, 0);
    TableTop(x, 0);
    XorShr(low, Table(x), 24);
  }

  lemma TableZero()
    ensures Table(0) == 0
  {
    ContributionIsLinear(0, 0, 0);
    XorSelf(Table(0));
  }

  /** A turn on a zero code never reaches state 0 from another state. */
  lemma StepFromZero(s: nat, d: nat)
    requires s < Pow2(31) && Low(d, 7) == 0 && s != 0
    ensures Step(s, d) != 0
  {
    StepTop(s, d);
    ShrOfZero(24);
    XorLow(s, d, 7);
    NonZeroParts(s);
  }

  lemma NonZeroParts(s: nat)
    requires s != 0
    ensures Low(s, 7) != 0 || Shr(s, 7) != 0
  {
    if Low(s, 7) == 0 && Shr(s, 7) == 0 {
      ShrOfZero(7);
      HighAndLow(s, 0, 7);
    }
  }

  /** For a fixed character the register turn is one-to-one on 31-bit states. */
  lemma StepIsInjective(s: nat, t: nat, code: nat)
    requires s < Pow2(31) && t < Pow2(31) && Step(s, code) == Step(t, code)
    ensures s == t
  {
    StepIsLinear(s, t, code, code);
    XorSelf(code);
    XorSelf(Step(s, code));
    XorBound(s, t, 31);
    XorCancels(s, t);
    if s != t {
      StepFromZero(Xor(s, t), 0);
    }
  }

  lemma {:induction false} ZeroTail(s: nat, d: seq<nat>)
    requires 0 < s < Pow2(31) && forall i :: 0 <= i < |d| ==> Low(d[i], 7) == 0
    ensures HashCodes(s, d) != 0
    decreases |d|
  {
    if d != [] {
      StepFromZero(s, d[0]);
      StepRange(s, d[0]);
      ZeroTail(Step(s, d[0]), d[1..]);
    }
  }

  /** After a non-zero character the register needs more than three further turns to forget it. */
  lemma {:induction false} WindowTail(s: nat, d: seq<nat>, left: nat)
    requires left <= 3 && s < Pow2(31) && Shr(s, 3 + 7 * left) != 0
    requires forall i :: left <= i < |d| ==> Low(d[i], 7) == 0
    ensures HashCodes(s, d) != 0
    decreases left
  {
    ShrOfZero(3 + 7 * left);
    if left == 0 {
      ZeroTail(s, d);
    } else if d != [] {
      StepTop(s, d[0]);
      StepRange(s, d[0]);
      var t := Step(s, d[0]);
      ShrShr(s, 7, 3 + 7 * (left - 1));
      ShrShr(t, 3 + 7 * (left - 1), 24 - (3 + 7 * (left - 1)));
      ShrOfZero(24 - (3 + 7 * (left - 1)));
      WindowTail(t, d[1..], left - 1);
    }
  }

  lemma {:induction false} ShrOfZero(n: nat)
    ensures Shr(0, n) == 0
  {
    if n > 0 {
      ShrOfZero(n - 1);
    }
  }

  lemma {:induction false} ShrShr(a: nat, m: nat, n: nat)
    ensures Shr(Shr(a, m), n) == Shr(a, m + n)
  {
    if m > 0 {
      ShrShr(a / 2, m - 1, n);
    }
  }

  lemma {:induction false} NonZeroHash(d: seq<nat>, p: nat, w: nat)
    requires p <= w < p + 4 && w < |d| && Low(d[w], 7) != 0
    requires forall i :: 0 <= i < |d| && !(p <= i < p + 4) ==> Low(d[i], 7) == 0
    ensures HashCodes(0, d) != 0
    decreases |d|
  {
    StepTop(0, d[0]);
    StepRange(0, d[0]);
    ShrOfZero(7);
    if Low(d[0], 7) == 0 {
      NonZeroHash(d[1..], if p == 0 then 0 else p - 1, w - 1);
    } else {
      assert p == 0;
      WindowTail(Step(0, d[0]), d[1..], 3);
    }
  }

  /** Two keys of equal length whose 7-bit codes differ, but only inside one window of four
      consecutive characters, never collide. */
  lemma NearKeysNeverCollide(a: Str, b: Str, p: nat, w: nat)
    requires |a| == |b| && p <= w < p + 4 && w < |a|
    requires Low(a[w] as nat, 7) != Low(b[w] as nat, 7)
    requires forall i :: 0 <= i < |a| && !(p <= i < p + 4) ==> Low(a[i] as nat, 7) == Low(b[i] as nat, 7)
    ensures HashCode(a) != HashCode(b)
  {
    var d := XorSeq(Codes(a), Codes(b));
    HashIsLinear(0, 0, Codes(a), Codes(b));
    forall i | 0 <= i < |d|
      ensures Low(d[i], 7) == Xor(Low(a[i] as nat, 7), Low(b[i] as nat, 7))
      ensures Low(d[i], 7) == 0 <==> Low(a[i] as nat, 7) == Low(b[i] as nat, 7)
    {
      XorLow(a[i] as nat, b[i] as nat, 7);
      XorCancels(Low(a[i] as nat, 7), Low(b[i] as nat, 7));
    }
    NonZeroHash(d, p, w);
    XorCancels(HashCode(a), HashCode(b));
  }

  /** The window of four is the widest: keys that differ in the two ends of a window of five can collide. */
  lemma FiveCharacterCollision()
    ensures HashCode("a.id@") == HashCode("!.idI")
  {
    var a, b: Str := "a.id@", "!.idI";
    assert a[1..4] == b[1..4];
    assert Codes(a)[1..4] == Codes(b)[1..4];
    DifferenceOfExample(Codes(a), Codes(b));
    CollidingDifference(Codes(a), Codes(b));
  }

  lemma CollidingDifference(a: seq<nat>, b: seq<nat>)
    requires |a| == |b| && XorSeq(a, b) == [64, 0, 0, 0, 9]
    ensures HashCodes(0, a) == HashCodes(0, b)
  {
    HashIsLinear(0, 0, a, b);
    CollidingCodes();
    XorCancels(HashCodes(0, a), HashCodes(0, b));
  }

  lemma DifferenceOfExample(a: seq<nat>, b: seq<nat>)
    requires |a| == |b| == 5 && a[1..4] == b[1..4]
    requires a[0] == 97 && b[0] == 33 && a[4] == 64 && b[4] == 73
    ensures XorSeq(a, b) == [64, 0, 0, 0, 9]
  {
    assert a[1..4][0] == a[1] == b[1] && a[1..4][1] == a[2] == b[2] && a[1..4][2] == a[3] == b[3];
    XorSelf(a[1]);
    XorSelf(a[2]);
    XorSelf(a[3]);
    XorOfExample();
  }

  lemma XorOfExample()
    ensures Xor(97, 33) == 64 && Xor(64, 73) == 9
  {
    XorOfSplit(2, 3, 1);
    XorOfSplit(4, 6, 2);
    XorOfSplit(8, 12, 4);
    XorOfSplit(16, 24, 8);
    XorOfSplit(32, 48, 16);
    XorOfSplit(64, 97, 33);
    XorSelf(4);
    XorOfSplit(1, 8, 9);
    XorOfSplit(2, 16, 18);
    XorOfSplit(4, 32, 36);
    XorOfSplit(9, 64, 73);
  }

  lemma CollidingCodes()
    ensures HashCodes(0, [64, 0, 0, 0, 9]) == 0
  {
    var d := [64, 0, 0, 0, 9];
    ZeroTurn(9, 9);
    TurnToZero(9, d[4..], 0);
    ZeroTurn(0x480, 0);
    TurnToZero(0x480, d[3..], 9);
    ZeroTurn(0x2_4000, 0);
    TurnToZero(0x2_4000, d[2..], 0x480);
    ZeroTurn(0x120_0000, 0);
    TurnToZero(0x120_0000, d[1..], 0x2_4000);
    FirstTurn();
    TurnToZero(0, d, 0x120_0000);
  }

  lemma TurnToZero(s: nat, d: seq<nat>, t: nat)
    requires d != [] && Step(s, d[0]) == t && HashCodes(t, d[1..]) == 0
    ensures HashCodes(s, d) == 0
  {}

  lemma {:induction false} ShrOfPow2(n: nat, k: nat)
    requires k <= n
    ensures Shr(Pow2(n), k) == Pow2(n - k)
  {
    if k > 0 {
      ShrOfPow2(n - 1, k - 1);
    }
  }

  /** An index with one bit selects one shift of the polynomial. */
  lemma {:induction false} OneBit(n: nat, k: nat)
    requires k <= n < 7
    ensures Contribution(Pow2(n), k) == Shr(POLY, n)
    decreases n - k
  {
    ShrOfPow2(n, k);
    if k < n {
      OneBit(n, k + 1);
    } else {
      HighBits(n, n + 1);
    }
  }

  lemma {:induction false} HighBits(n: nat, k: nat)
    requires n < k <= 7
    ensures Contribution(Pow2(n), k) == 0
    decreases 7 - k
  {
    if k < 7 {
      HighBits(n, k + 1);
      ShrOfPow2(n, n);
      ShrShr(Pow2(n), n, k - n);
      ShrOfOne(k - n);
    }
  }

  lemma ShrOfOne(k: nat)
    requires k > 0
    ensures Shr(1, k) == 0
  {
    ShrOfZero(k - 1);
  }

  lemma FirstTurn()
    ensures Step(0, 64) == 0x120_0000
  {
    var i := Pow2(6);
    Pow2Add(3, 3);
    assert i == 64;
    Low7(i);
    ShrOfZero(7);
    OneBit(6, 0);
    ShrIsDiv(POLY, 6);
  }

  lemma ZeroTurn(s: nat, code: nat)
    requires s % 128 == code
    ensures Step(s, code) == s / 128
  {
    LowAgrees(s, code);
    SameLow(s, code);
    Shr7(s);
    ZeroIndexTurn(s, code);
  }

  lemma LowAgrees(s: nat, code: nat)
    requires s % 128 == code
    ensures Low(s, 7) == Low(code, 7)
  {
    assert code < 128;
    assert code % 128 == code;
    Low7(s);
    Low7(code);
  }

  lemma SameLow(s: nat, code: nat)
    requires Low(s, 7) == Low(code, 7)
    ensures Low(Xor(s, code), 7) == 0
  {
    XorLow(s, code, 7);
    XorSelf(Low(s, 7));
  }

  lemma ZeroIndexTurn(s: nat, code: nat)
    requires Low(Xor(s, code), 7) == 0
    ensures Step(s, code) == Shr(s, 7)
  {
    TableZero();
  }

  lemma Low7(a: nat)
    ensures Low(a, 7) == a % 128
  {
    LowIsMod(a, 7);
    Pow2Long();
  }

  lemma Shr7(a: nat)
    ensures Shr(a, 7) == a / 128
  {
    ShrIsDiv(a, 7);
    Pow2Long();
  }

  // ----- parity of the hash of very short keys

  lemma {:induction false} LowShr(a: nat, k: nat, n: nat)
    requires Low(a, k + n) == 0
    ensures Low(Shr(a, k), n) == 0
  {
    if k > 0 {
      LowStep(a, k + n);
      LowShr(a / 2, k - 1, n);
    }
  }

  lemma {:induction false} LowOfMultiple(x: nat, n: nat)
    ensures Low(x * Pow2(n), n) == 0
  {
    if n > 0 {
      LowOfMultiple(x, n - 1);
      assert x * Pow2(n) == 2 * (x * Pow2(n - 1));
    }
  }

  lemma {:induction false} LowOfContribution(i: nat, k: nat)
    ensures Low(Contribution(i, k), 20) == 0
    decreases 7 - k
  {
    LowOfZero(20);
    if k < 7 {
      LowOfContribution(i, k + 1);
      PolyLow();
      LowShr(POLY, k, 27 - k);
      LowFewer(Shr(POLY, k), 27 - k, 20);
      XorLow(Contribution(i, k + 1), if Shr(i, k) % 2 == 1 then Shr(POLY, k) else 0, 20);
    }
  }

  lemma {:induction false} LowOfZero(n: nat)
    ensures Low(0, n) == 0
  {
    if n > 0 {
      LowOfZero(n - 1);
    }
  }

  lemma {:induction false} LowFewer(a: nat, m: nat, n: nat)
    requires n <= m && Low(a, m) == 0
    ensures Low(a, n) == 0
  {
    if n > 0 {
      LowStep(a, m);
      LowFewer(a / 2, m - 1, n - 1);
    }
  }

  lemma PolyLow()
    ensures Low(POLY, 27) == 0
  {
    Pow2Long();
    Pow2Add(24, 3);
    assert Pow2(3) == 8;
    LowOfMultiple(9, 27);
  }

  /** One turn from a state whose low digits are zero leaves an even state. */
  lemma EvenTurn(s: nat, code: nat)
    requires Low(s, 20) == 0
    ensures Step(s, code) % 2 == 0
    ensures s == 0 ==> Low(Step(s, code), 20) == 0
  {
    var t := Table(Low(Xor(s, code), 7));
    LowOfContribution(Low(Xor(s, code), 7), 0);
    LowShr(s, 7, 13);
    LowStep(Shr(s, 7), 13);
    LowStep(t, 20);
    XorStep(Shr(s, 7), t);
    ShrOfZero(7);
  }

  lemma ShortKeysHashEven(name: Str)
    requires 1 <= |name| <= 2
    ensures HashCode(name) % 2 == 0
  {
    LowOfZero(20);
    var codes := Codes(name);
    var s := Step(0, codes[0]);
    EvenTurn(0, codes[0]);
    assert HashCodes(0, codes) == HashCodes(s, codes[1..]);
    if |name| == 2 {
      EvenTurn(s, codes[1]);
      assert HashCodes(s, codes[1..]) == HashCodes(Step(s, codes[1]), codes[1..][1..]);
    }
  }
}
