/** The table that finds a user's number by name: chains of numbers, one for each hash value, kept in two arrays. */
module UserHash {
  import opened Text
  import opened Bits
  import opened CaseMap

  const HASH_BITS: nat := 16
  const HASH_SIZE: nat := 0x1_0000
  const MAX_USERS: nat := 120000
  const UNSIGNED: nat := 0x1_0000_0000
  const NONE: int := -1

  // ----- hashing

  function Upper(c: Byte): Byte {
    if 97 <= c as int <= 122 then (c as int - 32) as char else c
  }

  predicate SameName(a: Str, b: Str) {
    LowerAll(a) == LowerAll(b)
  }

  /** v is rotated by eight bits and combined with a character. */
  function Mix(v: nat, c: Byte): nat {
    Xor(Or(v * 0x100 % UNSIGNED, Shr(v, 24)), Upper(c) as int)
  }

  function Mixed(v: nat, s: Str): nat
    decreases |s|
  {
    if s == [] then v else Mixed(Mix(v, s[0]), s[1..])
  }

  /** The top bits of a 32-bit product. */
  function Spread(v: nat): nat {
    Shr(v * 2654435769 % UNSIGNED, 32 - HASH_BITS)
  }

  function HashOf(s: Str): nat {
    Spread(Mixed(0, s))
  }

  method StringHash(s: Str) returns (h: nat)
    ensures h == HashOf(s) && h < HASH_SIZE
  {
    var v: nat, i: nat := 0, 0;
    while i < |s|
      invariant i <= |s| && v < UNSIGNED && Mixed(v, s[i..]) == Mixed(0, s)
    {
      assert s[i..][1..] == s[i + 1..];
      MixRange(v, s[i]);
      v := Or(v * 0x100 % UNSIGNED, Shr(v, 24));
      v := Xor(v, Upper(s[i]) as int);
      i := i + 1;
    }
    HashRange(s);
    h := Shr(v * 2654435769 % UNSIGNED, 32 - HASH_BITS);
  }

  // ----- the hash in arithmetic

  /** A multiple of 256 and a number below 256 have no digit in common. */
  lemma {:induction false} OrIsSum(a: nat, b: nat, n: nat)
    requires b < Pow2(n)
    ensures Or(a * Pow2(n), b) == a * Pow2(n) + b
  {
    if n > 0 && a > 0 && b > 0 {
      var m := a * Pow2(n - 1);
      assert a * Pow2(n) == 2 * m;
      OrIsSum(a, b / 2, n - 1);
      MaskStep(2 * m, b);
    }
  }

  /** Rotating is multiplying by 256, with what falls off at the top coming in at the bottom. */
  lemma MixArithmetic(v: nat, c: Byte)
    requires v < UNSIGNED
    ensures Mix(v, c) == Xor(v * 256 % 4294967296 + v / 16777216, Upper(c) as int)
  {
    Pow2Sizes();
    Pow2Long();
    ShrIsDiv(v, 24);
    var low := v % 16777216;
    assert v * 256 == 4294967296 * (v / 16777216) + low * 256;
    assert v * 256 % 4294967296 == low * 256;
    OrIsSum(low, v / 16777216, 8);
  }

  lemma {:induction false} MixedOneMore(v: nat, s: Str, c: Byte)
    requires v < UNSIGNED
    ensures Mixed(v, s) < UNSIGNED && Mixed(v, s + [c]) == Mix(Mixed(v, s), c)
    decreases |s|
  {
    if s == [] {
      assert s + [c] == [c] && [c][1..] == [];
      assert Mixed(Mix(v, c), []) == Mix(v, c);
    } else {
      assert (s + [c])[1..] == s[1..] + [c];
      MixRange(v, s[0]);
      MixedOneMore(Mix(v, s[0]), s[1..], c);
    }
  }

  /** The hash of a name: its characters, as capitals, go one by one into a word that is rotated by eight digits before
      each of them; the word is then multiplied, and the sixteen highest digits of 32 are the result. */
  lemma HashArithmetic(s: Str, c: Byte)
    ensures Mixed(0, []) == 0
    ensures Mixed(0, s + [c]) == Xor(Mixed(0, s) * 256 % 4294967296 + Mixed(0, s) / 16777216,
                                     if 'a' <= c <= 'z' then c as int - 32 else c as int)
    ensures HashOf(s) == Mixed(0, s) * 2654435769 % 4294967296 / 65536
  {
    MixedOneMore(0, s, c);
    MixArithmetic(Mixed(0, s), c);
    SpreadArithmetic(Mixed(0, s));
  }

  lemma SpreadArithmetic(v: nat)
    ensures Spread(v) == v * 2654435769 % 4294967296 / 65536
  {
    Pow2Sizes();
    ShrIsDiv(v * 2654435769 % UNSIGNED, 16);
  }

  /** Names are the same if they have the same characters, apart from the case of letters. */
  lemma SameNameMeans(a: Str, b: Str)
    ensures SameName(a, b) <==> |a| == |b| && forall i :: 0 <= i < |a| ==> SameLetter(a[i], b[i])
  {
    if |a| == |b| {
      assert forall i :: 0 <= i < |a| ==> LowerAll(a)[i] == Lower(a[i]) && LowerAll(b)[i] == Lower(b[i]);
    }
  }

  predicate SameLetter(c: Byte, d: Byte) {
    || c == d
    || ('A' <= c <= 'Z' && d as int == c as int + 32)
    || ('A' <= d <= 'Z' && c as int == d as int + 32)
  }

  /** The accumulator stays an unsigned int. */
  lemma MixRange(v: nat, c: Byte)
    requires v < UNSIGNED
    ensures Mix(v, c) < UNSIGNED
  {
    Pow2Sizes();
    ShrBound(v, 24, 8);
    OrBound(v * 0x100 % UNSIGNED, Shr(v, 24), 32);
    XorBound(Or(v * 0x100 % UNSIGNED, Shr(v, 24)), Upper(c) as int, 32);
  }

  lemma HashRange(s: Str)
    ensures HashOf(s) < HASH_SIZE
  {
    SpreadRange(Mixed(0, s));
  }

  lemma SpreadRange(v: nat)
    ensures Spread(v) < HASH_SIZE
  {
    Pow2Sizes();
    ShrBound(v * 2654435769 % UNSIGNED, 16, 16);
  }

  lemma Pow2Sizes()
    ensures Pow2(16) == HASH_SIZE && Pow2(32) == UNSIGNED && Pow2(8) == 0x100
  {
    Pow2Long();
    Pow2Add(8, 8);
    Pow2Add(16, 16);
  }

  lemma UpperOfLower(c: Byte, d: Byte)
    ensures Lower(c) == Lower(d) <==> Upper(c) == Upper(d)
  {}

  /** Names that differ in case only have the same hash. */
  lemma {:induction false} MixedIgnoresCase(v: nat, a: Str, b: Str)
    requires SameName(a, b)
    ensures Mixed(v, a) == Mixed(v, b)
    decreases |a|
  {
    if a != [] {
      assert LowerAll(a)[0] == LowerAll(b)[0];
      UpperOfLower(a[0], b[0]);
      assert LowerAll(a)[1..] == LowerAll(a[1..]) && LowerAll(b)[1..] == LowerAll(b[1..]);
      MixedIgnoresCase(Mix(v, a[0]), a[1..], b[1..]);
    }
  }

  lemma SameNameSameHash(a: Str, b: Str)
    requires SameName(a, b)
    ensures HashOf(a) == HashOf(b)
  {
    MixedIgnoresCase(0, a, b);
  }

  // ----- chains

  /** The i-th number of a chain, or the end mark. */
  function At(c: seq<nat>, i: nat): int {
    if i < |c| then c[i] else NONE
  }

  /** A chain begins at head, goes on through next and ends; its members are distinct and have its hash. */
  ghost predicate ChainOk(head: int, next: seq<int>, ids: seq<Str>, c: seq<nat>, h: nat) {
    && |next| == |ids|
    && head == At(c, 0)
    && (forall i :: 0 <= i < |c| ==> c[i] < |ids| && next[c[i]] == At(c, i + 1))
    && (forall i :: 0 <= i < |c| ==> c[i] < |ids| && HashOf(ids[c[i]]) == h)
    && (forall i, j :: 0 <= i < j < |c| ==> c[i] != c[j])
  }

  ghost predicate ChainsOk(heads: seq<int>, next: seq<int>, ids: seq<Str>, chain: seq<seq<nat>>) {
    && |heads| == |chain| == HASH_SIZE
    && forall h :: 0 <= h < HASH_SIZE ==> ChainOk(heads[h], next, ids, chain[h], h)
  }

  ghost predicate InSome(chain: seq<seq<nat>>, n: nat) {
    exists h :: 0 <= h < |chain| && n in chain[h]
  }

  lemma ChainLink(heads: seq<int>, next: seq<int>, ids: seq<Str>, chain: seq<seq<nat>>, h: nat, k: nat)
    requires ChainsOk(heads, next, ids, chain) && h < HASH_SIZE && k <= |chain[h]|
    ensures k == 0 ==> heads[h] == At(chain[h], 0)
    ensures k < |chain[h]| ==> chain[h][k] < |next| && |next| == |ids| && next[chain[h][k]] == At(chain[h], k + 1)
  {
    assert ChainOk(heads[h], next, ids, chain[h], h);
  }

  /** Nothing happens to a chain when nothing happens to its members. */
  lemma ChainFrame(head: int, next: seq<int>, next': seq<int>, ids: seq<Str>, ids': seq<Str>, c: seq<nat>, h: nat)
    requires ChainOk(head, next, ids, c, h) && |next'| == |ids'| == |ids|
    requires forall n :: n in c && n < |ids| ==> next'[n] == next[n] && ids'[n] == ids[n]
    ensures ChainOk(head, next', ids', c, h)
  {}

  /** Different chains have no member in common. */
  lemma Apart(heads: seq<int>, next: seq<int>, ids: seq<Str>, chain: seq<seq<nat>>, h: nat, g: nat, n: nat)
    requires ChainsOk(heads, next, ids, chain) && h < HASH_SIZE && g < HASH_SIZE && n in chain[h] && n in chain[g]
    ensures h == g && n < |ids| && HashOf(ids[n]) == h
  {
    assert ChainOk(heads[h], next, ids, chain[h], h) && ChainOk(heads[g], next, ids, chain[g], g);
  }

  /** The arrays after a number was put at the end of a chain. */
  lemma AppendToChain(heads: seq<int>, next: seq<int>, ids: seq<Str>, chain: seq<seq<nat>>, h: nat, n: nat, id: Str,
                      heads': seq<int>, next': seq<int>)
    requires ChainsOk(heads, next, ids, chain) && n < |ids| && h == HashOf(id) < HASH_SIZE && !InSome(chain, n)
    requires |next'| == |next| && |heads'| == HASH_SIZE
    requires heads' == if chain[h] == [] then heads[h := n] else heads
    requires forall m :: 0 <= m < |next| && m != n && (chain[h] == [] || m != chain[h][|chain[h]| - 1]) ==>
             next'[m] == next[m]
    requires next'[n] == NONE && (chain[h] != [] && chain[h][|chain[h]| - 1] < |next| ==>
             next'[chain[h][|chain[h]| - 1]] == n)
    ensures ChainsOk(heads', next', ids[n := id], chain[h := chain[h] + [n]])
  {
    var chain' := chain[h := chain[h] + [n]];
    forall g | 0 <= g < HASH_SIZE
      ensures ChainOk(heads'[g], next', ids[n := id], chain'[g], g)
    {
      assert ChainOk(heads[g], next, ids, chain[g], g) && ChainOk(heads[h], next, ids, chain[h], h);
      assert n !in chain[g] && n !in chain[h];
      if g != h {
        forall m | m in chain[g] && m < |ids|
          ensures next'[m] == next[m] && ids[n := id][m] == ids[m]
        {
          if m in chain[h] {
            Apart(heads, next, ids, chain, g, h, m);
          }
        }
        ChainFrame(heads[g], next, next', ids, ids[n := id], chain[g], g);
      } else {
        OneLonger(heads[h], next, ids, chain[h], h, n, id, heads'[h], next');
      }
    }
  }

  lemma OneLonger(head: int, next: seq<int>, ids: seq<Str>, c: seq<nat>, h: nat, n: nat, id: Str, head': int,
                  next': seq<int>)
    requires ChainOk(head, next, ids, c, h) && n < |ids| && HashOf(id) == h && n !in c && |next'| == |next|
    requires head' == if c == [] then n else head
    requires forall m :: 0 <= m < |next| && m != n && (c == [] || m != c[|c| - 1]) ==> next'[m] == next[m]
    requires next'[n] == NONE && (c != [] ==> next'[c[|c| - 1]] == n)
    ensures ChainOk(head', next', ids[n := id], c + [n], h)
  {
    var c' := c + [n];
    forall i | 0 <= i < |c'|
      ensures c'[i] < |ids| && next'[c'[i]] == At(c', i + 1) && HashOf(ids[n := id][c'[i]]) == h
    {
      if i < |c| {
        assert c'[i] == c[i] && c[i] in c;
      }
    }
    assert forall i, j :: 0 <= i < j < |c| ==> c'[i] == c[i] && c'[j] == c[j];
  }

  function Without(c: seq<nat>, k: nat): seq<nat>
    requires k < |c|
  {
    c[..k] + c[k + 1..]
  }

  function Dropped(c: seq<nat>, n: nat): seq<nat> {
    if c == [] then [] else if c[0] == n then c[1..] else [c[0]] + Dropped(c[1..], n)
  }

  lemma {:induction false} DroppedIsWithout(c: seq<nat>, n: nat, k: nat)
    requires k <= |c| && (forall i :: 0 <= i < k ==> c[i] != n) && (k < |c| ==> c[k] == n)
    ensures Dropped(c, n) == if k < |c| then Without(c, k) else c
    decreases |c|
  {
    if c != [] && k > 0 {
      DroppedIsWithout(c[1..], n, k - 1);
      ConsWithout(c, k);
    }
  }

  /** What the end of a walk says about the chain. */
  lemma WalkFinds(c: seq<nat>, n: nat, k: nat, v: int)
    requires k <= |c| && v == At(c, k) && n !in c[..k] && (v == NONE || v == n)
    ensures Dropped(c, n) == if v == n then Without(c, k) else c
    ensures if v == n then k < |c| && c[k] == n else n !in c
  {
    forall i | 0 <= i < k
      ensures c[i] != n
    {
      assert c[..k][i] == c[i];
    }
    DroppedIsWithout(c, n, k);
    if v != n {
      assert c[..k] == c;
    }
  }

  /** The chains without a user, after a walk through that of his name. */
  lemma Shorter(heads: seq<int>, next: seq<int>, ids: seq<Str>, chain: seq<seq<nat>>, h: nat, n: nat, k: nat, v: int)
      returns (shorter: seq<seq<nat>>)
    requires ChainsOk(heads, next, ids, chain) && n < |ids| && h == HashOf(ids[n]) < HASH_SIZE
    requires k <= |chain[h]| && v == At(chain[h], k) && n !in chain[h][..k] && (v == NONE || v == n)
    ensures shorter == chain[h := Dropped(chain[h], n)] == if v == n then chain[h := Without(chain[h], k)] else chain
    ensures v == n ==> k < |chain[h]| && chain[h][k] == n
    ensures v != n ==> !InSome(chain, n)
    ensures forall m :: m != n ==> (InSome(shorter, m) <==> InSome(chain, m))
  {
    shorter := chain[h := Dropped(chain[h], n)];
    WalkFinds(chain[h], n, k, v);
    DroppedEverywhere(chain, h, n);
    if v != n {
      NotElsewhere(heads, next, ids, chain, n);
    }
  }

  lemma ConsWithout(c: seq<nat>, k: nat)
    requires 0 < k <= |c|
    ensures k < |c| ==> [c[0]] + Without(c[1..], k - 1) == Without(c, k)
    ensures [c[0]] + c[1..] == c
  {}

  lemma {:induction false} DroppedMembers(c: seq<nat>, n: nat, m: nat)
    ensures m in Dropped(c, n) ==> m in c
    ensures m in c && m != n ==> m in Dropped(c, n)
  {
    if c != [] && c[0] != n {
      DroppedMembers(c[1..], n, m);
      assert c == [c[0]] + c[1..];
    }
  }

  /** Dropping a number takes it, and no other, out of the chains. */
  lemma DroppedEverywhere(chain: seq<seq<nat>>, h: nat, n: nat)
    requires h < |chain|
    ensures forall m :: m != n ==> (InSome(chain[h := Dropped(chain[h], n)], m) <==> InSome(chain, m))
  {
    var chain' := chain[h := Dropped(chain[h], n)];
    forall m | m != n
      ensures InSome(chain', m) <==> InSome(chain, m)
    {
      DroppedMembers(chain[h], n, m);
      if InSome(chain, m) {
        var g :| 0 <= g < |chain| && m in chain[g];
        assert m in chain'[g];
      }
      if InSome(chain', m) {
        var g :| 0 <= g < |chain'| && m in chain'[g];
        assert m in chain[g];
      }
    }
  }

  lemma NotElsewhere(heads: seq<int>, next: seq<int>, ids: seq<Str>, chain: seq<seq<nat>>, n: nat)
    requires ChainsOk(heads, next, ids, chain) && n < |ids| && HashOf(ids[n]) < HASH_SIZE
    requires n !in chain[HashOf(ids[n])]
    ensures !InSome(chain, n)
  {
    if InSome(chain, n) {
      var g :| 0 <= g < |chain| && n in chain[g];
      Apart(heads, next, ids, chain, g, g, n);
    }
  }

  /** The arrays after a number was taken out of a chain. */
  lemma TakeFromChain(heads: seq<int>, next: seq<int>, ids: seq<Str>, chain: seq<seq<nat>>, h: nat, k: nat,
                      heads': seq<int>, next': seq<int>)
    requires ChainsOk(heads, next, ids, chain) && h < HASH_SIZE && k < |chain[h]| && chain[h][k] < |next|
    requires |next'| == |next| && |heads'| == HASH_SIZE
    requires heads' == if k == 0 then heads[h := next[chain[h][k]]] else heads
    requires forall m :: 0 <= m < |next| ==>
               next'[m] == if k > 0 && m == chain[h][k - 1] then next[chain[h][k]] else next[m]
    ensures ChainsOk(heads', next', ids, chain[h := Without(chain[h], k)])
    ensures !InSome(chain[h := Without(chain[h], k)], chain[h][k])
  {
    var n, chain' := chain[h][k], chain[h := Without(chain[h], k)];
    forall g | 0 <= g < HASH_SIZE
      ensures ChainOk(heads'[g], next', ids, chain'[g], g) && n !in chain'[g]
    {
      assert ChainOk(heads[g], next, ids, chain[g], g) && ChainOk(heads[h], next, ids, chain[h], h);
      if g != h {
        Elsewhere(heads, next, ids, chain, h, k, g, next');
      } else {
        OneShorter(heads[h], next, ids, chain[h], h, k, heads'[h], next');
      }
    }
  }

  /** The other chains do not notice. */
  lemma Elsewhere(heads: seq<int>, next: seq<int>, ids: seq<Str>, chain: seq<seq<nat>>, h: nat, k: nat, g: nat,
                  next': seq<int>)
    requires ChainsOk(heads, next, ids, chain) && h < HASH_SIZE && g < HASH_SIZE && g != h
    requires k < |chain[h]| && |next'| == |next|
    requires forall m :: 0 <= m < |next| ==>
               next'[m] == if k > 0 && m == chain[h][k - 1] then next[chain[h][k]] else next[m]
    requires chain[h][k] < |next|
    ensures ChainOk(heads[g], next', ids, chain[g], g) && chain[h][k] !in chain[g]
  {
    assert ChainOk(heads[g], next, ids, chain[g], g);
    forall m | m in chain[g]
      ensures m !in chain[h]
    {
      if m in chain[h] {
        Apart(heads, next, ids, chain, g, h, m);
      }
    }
    assert chain[h][k] in chain[h] && (k > 0 ==> chain[h][k - 1] in chain[h]);
    ChainFrame(heads[g], next, next', ids, ids, chain[g], g);
  }

  lemma OneShorter(head: int, next: seq<int>, ids: seq<Str>, c: seq<nat>, h: nat, k: nat, head': int, next': seq<int>)
    requires ChainOk(head, next, ids, c, h) && k < |c| && |next'| == |next|
    requires head' == if k == 0 then next[c[k]] else head
    requires forall m :: 0 <= m < |next| ==> next'[m] == if k > 0 && m == c[k - 1] then next[c[k]] else next[m]
    ensures ChainOk(head', next', ids, Without(c, k), h) && c[k] !in Without(c, k)
  {
    var c' := Without(c, k);
    StillDistinct(c, k);
    forall i | 0 <= i < |c'|
      ensures c'[i] < |ids| && HashOf(ids[c'[i]]) == h
      ensures next'[c'[i]] == At(c', i + 1)
    {
      NextWithout(next, next', c, k, i, Skipping(k, i));
    }
  }

  /** Where the members of the shorter chain were. */
  function Skipping(k: nat, i: nat): nat {
    if i < k then i else i + 1
  }

  lemma WithoutAt(c: seq<nat>, k: nat, i: nat)
    requires k < |c| && i < |c| - 1
    ensures Without(c, k)[i] == c[Skipping(k, i)]
  {}

  lemma StillDistinct(c: seq<nat>, k: nat)
    requires k < |c| && forall i, j :: 0 <= i < j < |c| ==> c[i] != c[j]
    ensures c[k] !in Without(c, k)
    ensures forall i, j :: 0 <= i < j < |c| - 1 ==> Without(c, k)[i] != Without(c, k)[j]
  {
    forall i, j | 0 <= i < j < |c| - 1
      ensures Without(c, k)[i] != Without(c, k)[j]
    {
      WithoutAt(c, k, i);
      WithoutAt(c, k, j);
    }
  }

  /** The successor of member j, which comes to stand at place i: member k - 1 skips the one that is taken out. */
  lemma NextWithout(next: seq<int>, next': seq<int>, c: seq<nat>, k: nat, i: nat, j: nat)
    requires k < |c| && i < |c| - 1 && j == Skipping(k, i) && c[j] < |next| == |next'| && c[k] < |next|
    requires next[c[j]] == At(c, j + 1) && next[c[k]] == At(c, k + 1) && (k > 0 && c[j] == c[k - 1] ==> j == k - 1)
    requires next'[c[j]] == if k > 0 && c[j] == c[k - 1] then next[c[k]] else next[c[j]]
    ensures Without(c, k)[i] == c[j] && next'[c[j]] == At(Without(c, k), i + 1)
  {
    AtWithout(c, k, i);
  }

  lemma AtWithout(c: seq<nat>, k: nat, i: nat)
    requires k < |c| && i < |c| - 1
    ensures Without(c, k)[i] == c[Skipping(k, i)]
    ensures At(Without(c, k), i + 1) == At(c, if Skipping(k, i) + 1 == k then k + 1 else Skipping(k, i) + 1)
  {
    WithoutAt(c, k, i);
    if i + 1 < |c| - 1 {
      WithoutAt(c, k, i + 1);
    }
  }

  /** A pointer to a number: in the array of heads, or in the array of successors. */
  datatype Cell = Head(h: nat) | Next(n: nat)

  /** The cell that holds the i-th number of a chain. */
  ghost function CellAt(c: seq<nat>, h: nat, i: nat): Cell
    requires i <= |c|
  {
    if i == 0 then Head(h) else Next(c[i - 1])
  }

  /** The first member of a chain with some name, counted from 1; 0 if there is none. */
  function FirstMatch(ids: seq<Str>, c: seq<nat>, id: Str): nat
    requires forall i :: 0 <= i < |c| ==> c[i] < |ids|
  {
    if c == [] then 0 else if SameName(ids[c[0]], id) then c[0] + 1 else FirstMatch(ids, c[1..], id)
  }

  /** What FirstMatch finds is the name, and it misses none. */
  lemma {:induction false} FirstMatchFinds(ids: seq<Str>, c: seq<nat>, id: Str)
    requires forall i :: 0 <= i < |c| ==> c[i] < |ids|
    ensures var r := FirstMatch(ids, c, id);
            if r == 0 then forall n :: n in c ==> !SameName(ids[n], id)
            else r - 1 in c && SameName(ids[r - 1], id)
  {
    if c != [] {
      FirstMatchFinds(ids, c[1..], id);
      assert c == [c[0]] + c[1..];
    }
  }

  // ----- loading

  /** The users below n whose names have some hash, in increasing order. */
  function Bucket(ids: seq<Str>, n: nat, h: nat): seq<nat>
    requires n <= |ids|
  {
    if n == 0 then []
    else if HashOf(ids[n - 1]) == h then Bucket(ids, n - 1, h) + [n - 1] else Bucket(ids, n - 1, h)
  }

  /** Every user is in the bucket of his hash and in no other, and the buckets are strictly increasing. */
  lemma {:induction false} BucketsPartition(ids: seq<Str>, n: nat, h: nat)
    requires n <= |ids|
    ensures forall m: nat :: m in Bucket(ids, n, h) <==> m < n && HashOf(ids[m]) == h
    ensures forall i, j :: 0 <= i < j < |Bucket(ids, n, h)| ==> Bucket(ids, n, h)[i] < Bucket(ids, n, h)[j]
  {
    if n > 0 {
      BucketsPartition(ids, n - 1, h);
      var b := Bucket(ids, n - 1, h);
      forall j | 0 <= j < |b|
        ensures b[j] < n - 1
      {
        assert b[j] in b;
      }
    }
  }

  lemma {:induction false} BucketFrame(ids: seq<Str>, ids': seq<Str>, n: nat, h: nat)
    requires n <= |ids| && n <= |ids'| && forall m :: 0 <= m < n ==> ids'[m] == ids[m]
    ensures Bucket(ids', n, h) == Bucket(ids, n, h)
  {
    if n > 0 {
      BucketFrame(ids, ids', n - 1, h);
    }
  }

  /** The reference: look at the names one by one. */
  function FirstUser(ids: seq<Str>, n: nat, id: Str): nat
    requires n <= |ids|
  {
    if n == 0 then 0
    else
      var r := FirstUser(ids, n - 1, id);
      if r > 0 then r else if SameName(ids[n - 1], id) then n else 0
  }

  lemma {:induction false} FirstMatchOneMore(ids: seq<Str>, c: seq<nat>, n: nat, id: Str)
    requires (forall i :: 0 <= i < |c| ==> c[i] < |ids|) && n < |ids|
    ensures FirstMatch(ids, c + [n], id)
         == if FirstMatch(ids, c, id) > 0 then FirstMatch(ids, c, id) else if SameName(ids[n], id) then n + 1 else 0
  {
    if c != [] {
      assert (c + [n])[1..] == c[1..] + [n];
      FirstMatchOneMore(ids, c[1..], n, id);
    } else {
      assert c + [n] == [n];
    }
  }

  lemma BucketInRange(ids: seq<Str>, n: nat, h: nat)
    requires n <= |ids|
    ensures forall i :: 0 <= i < |Bucket(ids, n, h)| ==> Bucket(ids, n, h)[i] < |ids|
  {
    BucketsPartition(ids, n, h);
    var b := Bucket(ids, n, h);
    forall i | 0 <= i < |b|
      ensures b[i] < |ids|
    {
      assert b[i] in b;
    }
  }

  /** Looking in the right bucket finds what looking at all the names finds. */
  lemma {:induction false} BucketSearch(ids: seq<Str>, n: nat, id: Str, h: nat)
    requires n <= |ids| && h == HashOf(id)
    requires forall i :: 0 <= i < |Bucket(ids, n, h)| ==> Bucket(ids, n, h)[i] < |ids|
    ensures FirstMatch(ids, Bucket(ids, n, h), id) == FirstUser(ids, n, id)
  {
    if n > 0 {
      BucketInRange(ids, n - 1, h);
      BucketSearch(ids, n - 1, id, h);
      if SameName(ids[n - 1], id) {
        SameNameSameHash(ids[n - 1], id);
      }
      BucketOneMore(ids, n - 1, id, h, Bucket(ids, n - 1, h), HashOf(ids[n - 1]));
    }
  }

  lemma BucketOneMore(ids: seq<Str>, n: nat, id: Str, h: nat, b: seq<nat>, g: nat)
    requires n < |ids| && (forall i :: 0 <= i < |b| ==> b[i] < |ids|)
    requires FirstMatch(ids, b, id) == FirstUser(ids, n, id) && (SameName(ids[n], id) ==> g == h)
    ensures FirstMatch(ids, if g == h then b + [n] else b, id) == FirstUser(ids, n + 1, id)
  {
    FirstMatchOneMore(ids, b, n, id);
  }

  /** What Add does to the set of users in the table. */
  lemma AddedEverywhere(chain: seq<seq<nat>>, h: nat, n: nat)
    requires h < |chain|
    ensures forall m :: InSome(chain[h := chain[h] + [n]], m) <==> m == n || InSome(chain, m)
  {
    var chain' := chain[h := chain[h] + [n]];
    assert n in chain'[h];
    forall m
      ensures InSome(chain', m) <==> m == n || InSome(chain, m)
    {
      if InSome(chain, m) {
        var g :| 0 <= g < |chain| && m in chain[g];
        assert m in chain'[g];
      }
      if InSome(chain', m) {
        var g :| 0 <= g < |chain'| && m in chain'[g];
        assert m == n || m in chain[g];
      }
    }
  }

  /** After loading, every chain is a bucket. */
  ghost predicate Loaded(chain: seq<seq<nat>>, ids: seq<Str>, n: nat) {
    n <= |ids| && |chain| == HASH_SIZE && forall h :: 0 <= h < HASH_SIZE ==> chain[h] == Bucket(ids, n, h)
  }

  lemma LoadedOneMore(chain: seq<seq<nat>>, ids: seq<Str>, n: nat, id: Str)
    requires Loaded(chain, ids, n) && n < |ids| && HashOf(id) < HASH_SIZE
    ensures Loaded(chain[HashOf(id) := chain[HashOf(id)] + [n]], ids[n := id], n + 1)
  {
    forall h | 0 <= h < HASH_SIZE
      ensures Bucket(ids[n := id], n, h) == Bucket(ids, n, h)
    {
      BucketFrame(ids, ids[n := id], n, h);
    }
  }

  lemma SameSoFar(ids: seq<Str>, records: seq<Str>, n: nat)
    requires n < |ids| && n < |records| && ids[..n] == records[..n] && ids[n] == records[n]
    ensures ids[..n + 1] == records[..n + 1]
  {
    assert ids[..n + 1] == ids[..n] + [ids[n]] && records[..n + 1] == records[..n] + [records[n]];
  }

  lemma LoadedCount(chain: seq<seq<nat>>, ids: seq<Str>, n: nat)
    requires Loaded(chain, ids, n)
    ensures forall m: nat :: InSome(chain, m) <==> m < n
  {
    forall m: nat
      ensures InSome(chain, m) <==> m < n
    {
      if InSome(chain, m) {
        var h :| 0 <= h < |chain| && m in chain[h];
        BucketsPartition(ids, n, h);
      }
      if m < n {
        HashRange(ids[m]);
        BucketsPartition(ids, n, HashOf(ids[m]));
        assert m in chain[HashOf(ids[m])];
      }
    }
  }

  /** So a search in a table that was just loaded finds the first user with that name. */
  lemma LoadedSearch(chain: seq<seq<nat>>, ids: seq<Str>, n: nat, id: Str)
    requires Loaded(chain, ids, n) && HashOf(id) < HASH_SIZE
    requires forall i :: 0 <= i < |chain[HashOf(id)]| ==> chain[HashOf(id)][i] < |ids|
    ensures FirstMatch(ids, chain[HashOf(id)], id) == FirstUser(ids, n, id)
  {
    BucketSearch(ids, n, id, HashOf(id));
  }

  class Table {
    const userid: array<Str>
    const nextInHash: array<int>
    const hashHead: array<int>
    var number: nat
    ghost var chain: seq<seq<nat>>

    /** A new segment of shared memory is filled with zeros. */
    constructor ()
      ensures Shape() && fresh(userid) && fresh(nextInHash) && fresh(hashHead)
    {
      userid := new Str[MAX_USERS](_ => []);
      nextInHash := new int[MAX_USERS](_ => 0);
      hashHead := new int[HASH_SIZE](_ => 0);
      number, chain := 0, [];
    }

    predicate Shape() {
      userid.Length == nextInHash.Length == MAX_USERS && hashHead.Length == HASH_SIZE && nextInHash != hashHead
    }

    ghost predicate Valid()
      reads `chain, userid, nextInHash, hashHead
    {
      Shape() && ChainsOk(hashHead[..], nextInHash[..], userid[..], chain)
    }

    ghost predicate Linked(n: nat)
      reads `chain
    {
      InSome(chain, n)
    }

    /** Only users that are counted are in the table. */
    ghost predicate Counted()
      reads `chain, `number
    {
      number <= MAX_USERS && forall n: nat :: Linked(n) ==> n < number
    }

    method Load(p: Cell) returns (v: int)
      requires Shape() && match p case Head(h) => h < HASH_SIZE case Next(n) => n < MAX_USERS
      ensures v == match p case Head(h) => hashHead[h] case Next(n) => nextInHash[n]
    {
      match p
      case Head(h) => v := hashHead[h];
      case Next(n) => v := nextInHash[n];
    }

    /** Find a number in the chain of a hash value, or its end; p points to it there, and k says how far it is. */
    method Walk(h: nat, n: int) returns (p: Cell, v: int, ghost k: nat)
      requires Valid() && h < HASH_SIZE
      ensures k <= |chain[h]| && p == CellAt(chain[h], h, k) && v == At(chain[h], k)
      ensures v == NONE || v == n
      ensures n !in chain[h][..k]
    {
      p, v := First(h);
      k := 0;
      ghost var c := chain[h];
      while v != NONE && v != n
        invariant k <= |c| && p == CellAt(c, h, k) && v == At(c, k) && n !in c[..k]
        decreases |c| - k
      {
        PassedOneMore(c, k, n);
        p, v := Following(h, v, k);
        k := k + 1;
      }
    }

    lemma PassedOneMore(c: seq<nat>, k: nat, n: int)
      requires k < |c| && n !in c[..k] && c[k] != n
      ensures n !in c[..k + 1]
    {
      assert c[..k + 1] == c[..k] + [c[k]];
    }

    method First(h: nat) returns (p: Cell, v: int)
      requires Valid() && h < HASH_SIZE
      ensures p == CellAt(chain[h], h, 0) && v == At(chain[h], 0)
    {
      ChainLink(hashHead[..], nextInHash[..], userid[..], chain, h, 0);
      p := Head(h);
      v := Load(p);
    }

    method Following(h: nat, v: int, ghost k: nat) returns (p: Cell, v': int)
      requires Valid() && h < HASH_SIZE && k < |chain[h]| && v == chain[h][k]
      ensures p == CellAt(chain[h], h, k + 1) && v' == At(chain[h], k + 1)
    {
      ChainLink(hashHead[..], nextInHash[..], userid[..], chain, h, k);
      p := Next(v);
      v' := Load(p);
    }

    /** Store through a pointer. */
    method Store(p: Cell, v: int)
      requires Shape() && match p case Head(h) => h < HASH_SIZE case Next(n) => n < MAX_USERS
      modifies hashHead, nextInHash
      ensures hashHead[..] == match p case Head(h) => old(hashHead[..])[h := v] case Next(n) => old(hashHead[..])
      ensures nextInHash[..] == match p case Head(h) => old(nextInHash[..]) case Next(n) => old(nextInHash[..])[n := v]
    {
      match p
      case Head(h) => hashHead[h] := v;
      case Next(n) => nextInHash[n] := v;
    }

    /** Put a user that is not in the table at the end of the chain of his name. */
    method Add(n: nat, id: Str)
      requires Valid() && n < MAX_USERS && !Linked(n)
      modifies `chain, userid, nextInHash, hashHead
      ensures Valid()
      ensures userid[..] == old(userid[..])[n := id]
      ensures HashOf(id) < HASH_SIZE
      ensures chain == old(chain)[HashOf(id) := old(chain)[HashOf(id)] + [n]]
      ensures forall m: nat :: Linked(m) <==> m == n || old(Linked(m))
    {
      var h := StringHash(id);
      var p, v;
      ghost var k;
      p, v, k := Walk(h, NONE);
      userid[n] := id;
      Store(p, n);
      nextInHash[n] := NONE;
      AppendToChain(old(hashHead[..]), old(nextInHash[..]), old(userid[..]), chain, h, n, id,
                    hashHead[..], nextInHash[..]);
      AddedEverywhere(chain, h, n);
      chain := chain[h := chain[h] + [n]];
    }

    /** Take a user out of the table, if he is in it. */
    method Remove(n: nat)
      requires Valid() && n < MAX_USERS
      modifies `chain, nextInHash, hashHead
      ensures Valid() && !Linked(n)
      ensures HashOf(userid[n]) < HASH_SIZE
      ensures chain == old(chain)[HashOf(userid[n]) := Dropped(old(chain)[HashOf(userid[n])], n)]
      ensures forall m: nat :: Linked(m) <==> m != n && old(Linked(m))
    {
      var h := StringHash(userid[n]);
      var p, v;
      ghost var k;
      p, v, k := Walk(h, n);
      ghost var shorter := Shorter(hashHead[..], nextInHash[..], userid[..], chain, h, n, k, v);
      if v == n {
        Unlink(h, p, n, k);
      }
    }

    /** Let the cell that points to a user point to the one after him. */
    method Unlink(h: nat, p: Cell, n: nat, ghost k: nat)
      requires Valid() && n < MAX_USERS && h < HASH_SIZE && k < |chain[h]| && chain[h][k] == n
               && p == CellAt(chain[h], h, k)
      requires k > 0 ==> chain[h][k - 1] < MAX_USERS
      modifies `chain, nextInHash, hashHead
      ensures Valid() && !Linked(n)
      ensures chain == old(chain)[h := Without(old(chain)[h], k)]
    {
      Store(p, nextInHash[n]);
      TakeFromChain(old(hashHead[..]), old(nextInHash[..]), userid[..], chain, h, k, hashHead[..], nextInHash[..]);
      chain := chain[h := Without(chain[h], k)];
    }

    /** Find a user by name: his number, counted from 1, or 0. */
    method SearchUser(id: Str) returns (uid: nat)
      requires Valid()
      ensures Found(userid[..], chain, id, uid)
      ensures HashOf(id) < HASH_SIZE
      ensures ChainOk(hashHead[HashOf(id)], nextInHash[..], userid[..], chain[HashOf(id)], HashOf(id))
      ensures uid == FirstMatch(userid[..], chain[HashOf(id)], id)
    {
      var h := StringHash(id);
      uid := SearchChain(h, id);
      SearchFinds(hashHead[..], nextInHash[..], userid[..], chain, id, uid);
    }

    /** Go down a chain to the first user with this name. */
    method SearchChain(h: nat, id: Str) returns (uid: nat)
      requires Valid() && h < HASH_SIZE
      ensures ChainOk(hashHead[h], nextInHash[..], userid[..], chain[h], h)
      ensures uid == FirstMatch(userid[..], chain[h], id)
    {
      var p := hashHead[h];
      ghost var k, c := 0, chain[h];
      assert ChainOk(hashHead[..][h], nextInHash[..], userid[..], c, h);
      while p != NONE
        invariant k <= |c| && p == At(c, k)
        invariant FirstMatch(userid[..], c, id) == FirstMatch(userid[..], c[k..], id)
        decreases |c| - k
      {
        if SameName(userid[p], id) {
          return p + 1;
        }
        assert c[k..][1..] == c[k + 1..];
        p, k := nextInHash[p], k + 1;
      }
      return 0;
    }

    /** Load the names of the password file. */
    method Fill(records: seq<Str>)
      requires Shape()
      modifies this`number, this`chain, userid, nextInHash, hashHead
      ensures Valid() && Counted()
      ensures number == if |records| > MAX_USERS then MAX_USERS else |records|
      ensures userid[..number] == records[..number]
      ensures Loaded(chain, userid[..], number)
      ensures forall m: nat :: Linked(m) <==> m < number
    {
      ClearHeads();
      var fd := if |records| > MAX_USERS then MAX_USERS else |records|;
      var usernumber := 0;
      while usernumber < fd
        invariant usernumber <= fd && Valid()
        invariant userid[..usernumber] == records[..usernumber]
        invariant Loaded(chain, userid[..], usernumber)
      {
        LoadOne(usernumber, records[usernumber]);
        SameSoFar(userid[..], records, usernumber);
        usernumber := usernumber + 1;
      }
      LoadedCount(chain, userid[..], usernumber);
      number := usernumber;
    }

    /** Load the next name. */
    method LoadOne(usernumber: nat, id: Str)
      requires Valid() && usernumber < MAX_USERS && Loaded(chain, userid[..], usernumber)
      modifies this`chain, userid, nextInHash, hashHead
      ensures Valid() && Loaded(chain, userid[..], usernumber + 1)
      ensures userid[..] == old(userid[..])[usernumber := id]
    {
      LoadedCount(chain, userid[..], usernumber);
      HashRange(id);
      LoadedOneMore(chain, userid[..], usernumber, id);
      Add(usernumber, id);
    }

    method ClearHeads()
      requires Shape()
      modifies `chain, hashHead
      ensures Valid() && Loaded(chain, userid[..], 0)
    {
      for h := 0 to HASH_SIZE
        invariant forall g :: 0 <= g < h ==> hashHead[g] == NONE
      {
        hashHead[h] := NONE;
      }
      chain := seq(HASH_SIZE, _ => []);
    }

    /** Give a user number a name, old or new. The other users stay as they are. */
    method SetUserId(num: int, id: Str)
      requires Valid() && Counted()
      modifies this`number, this`chain, userid, nextInHash, hashHead
      ensures Valid() && Counted()
      ensures 0 < num <= MAX_USERS ==> Linked(num - 1) && userid[..] == old(userid[..])[num - 1 := id]
      ensures 0 < num <= MAX_USERS ==> number == if num > old(number) then num else old(number)
      ensures !(0 < num <= MAX_USERS) ==> userid[..] == old(userid[..]) && number == old(number) && chain == old(chain)
      ensures forall m: nat :: m != num - 1 ==> (Linked(m) <==> old(Linked(m)))
    {
      if 0 < num <= MAX_USERS {
        MakeRoom(num);
        Add(num - 1, id);
      }
    }

    /** Count a new number, or take its user out. */
    method MakeRoom(num: nat)
      requires Valid() && Counted() && 0 < num <= MAX_USERS
      modifies this`number, this`chain, nextInHash, hashHead
      ensures Valid() && Counted() && !Linked(num - 1)
      ensures number == if num > old(number) then num else old(number)
      ensures forall m: nat :: m != num - 1 ==> (Linked(m) <==> old(Linked(m)))
    {
      if num > number {
        number := num;
      } else {
        Remove(num - 1);
      }
    }
  }

  /** The answer to a search: 0 when no user in the table has the name, or else the number of one who has, counted
      from 1. */
  ghost predicate Found(ids: seq<Str>, chain: seq<seq<nat>>, id: Str, uid: nat) {
    if uid == 0 then forall n :: 0 <= n < |ids| && InSome(chain, n) ==> !SameName(ids[n], id)
    else uid <= |ids| && InSome(chain, uid - 1) && SameName(ids[uid - 1], id)
  }

  lemma SearchFinds(heads: seq<int>, next: seq<int>, ids: seq<Str>, chain: seq<seq<nat>>, id: Str, uid: nat)
    requires ChainsOk(heads, next, ids, chain) && HashOf(id) < HASH_SIZE
    requires InRange(chain[HashOf(id)], |ids|) && uid == FirstMatch(ids, chain[HashOf(id)], id)
    ensures Found(ids, chain, id, uid)
  {
    var h := HashOf(id);
    SearchHits(ids, chain, h, chain[h], id, uid);
    if uid == 0 {
      Missed(heads, next, ids, chain, id);
    }
  }

  ghost predicate InRange(c: seq<nat>, n: nat) {
    forall i :: 0 <= i < |c| ==> c[i] < n
  }

  lemma SearchHits(ids: seq<Str>, chain: seq<seq<nat>>, h: nat, c: seq<nat>, id: Str, uid: nat)
    requires h < |chain| && c == chain[h] && InRange(c, |ids|) && uid == FirstMatch(ids, c, id)
    ensures uid == 0 ==> forall n :: n in c && n < |ids| ==> !SameName(ids[n], id)
    ensures uid > 0 ==> Found(ids, chain, id, uid)
  {
    FirstMatchFinds(ids, c, id);
  }

  /** A name that is not in its chain is in no chain. */
  lemma Missed(heads: seq<int>, next: seq<int>, ids: seq<Str>, chain: seq<seq<nat>>, id: Str)
    requires ChainsOk(heads, next, ids, chain) && HashOf(id) < HASH_SIZE
    requires forall n :: n in chain[HashOf(id)] && n < |ids| ==> !SameName(ids[n], id)
    ensures forall n :: 0 <= n < |ids| && InSome(chain, n) ==> !SameName(ids[n], id)
  {
    forall n | 0 <= n < |ids| && InSome(chain, n)
      ensures !SameName(ids[n], id)
    {
      if SameName(ids[n], id) {
        var g :| 0 <= g < |chain| && n in chain[g];
        Apart(heads, next, ids, chain, g, g, n);
        SameNameSameHash(ids[n], id);
      }
    }
  }
}
