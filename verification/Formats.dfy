/** The formats of the files in plain characters and numbers: numerals, the .dir file, the words of the .pag file, and
    where they are put. */
module Formats {
  import Arith
  import opened Text
  import opened Decimal
  import CaseMap
  import opened Bits
  import opened Probe
  import opened Words
  import opened StoreLog
  import opened DirConfig
  import Dbz

  // ----- numerals

  /** Numerals are decimal, without leading zeros. */
  lemma NumeralsAreDecimal(n: int)
    ensures 0 <= n < 10 ==> Dec(n) == ["0123456789"[n]]
    ensures n >= 10 ==> Dec(n) == Dec(n / 10) + ["0123456789"[n % 10]]
    ensures n < 0 ==> Dec(n) == ['-'] + Dec(0 - n)
  {
    if 0 <= n < 10 {
      DigitIs(n);
    } else if n >= 10 {
      DigitIs(n % 10);
    }
  }

  lemma DigitIs(d: nat)
    requires d < 10
    ensures Digit(d) == "0123456789"[d]
  {}

  /** What may stand around the digits: white space and a sign before them, and anything but a digit behind them. */
  lemma NumeralsAreRead(n: nat, rest: Str, s: Str)
    requires s == Dec(n) + rest
    requires rest == [] || !('0' <= rest[0] <= '9')
    ensures Atol(s) == Atol(['+'] + s) == n && Atol(['-'] + s) == 0 - n
    ensures Atol(rest) == 0 || rest[0] in "+-" || rest[0] == ' ' || rest[0] as int in {9, 10, 11, 12, 13}
    ensures forall c: Byte :: c == ' ' || c as int in {9, 10, 11, 12, 13} ==> Atol([c] + s) == Atol(s)
  {
    AtolOfDec(n, rest, s);
    AtolOfDigits(s);
    assert (['+'] + s)[1..] == s && (['-'] + s)[1..] == s;
    forall c: Byte | c == ' ' || c as int in {9, 10, 11, 12, 13}
      ensures Atol([c] + s) == Atol(s)
    {
      assert ([c] + s)[1..] == s;
    }
  }

  // ----- the .dir file

  /** Numbers with a blank before each. */
  function Fields(xs: seq<int>): Str {
    if xs == [] then [] else [' '] + (Dec(xs[0]) + Fields(xs[1..]))
  }

  lemma {:induction false} FieldsAreListed(xs: seq<int>)
    ensures Fields(xs) == NumList(xs)
  {
    if xs != [] {
      FieldsAreListed(xs[1..]);
      NumListCons(xs[0], xs[1..]);
      assert [xs[0]] + xs[1..] == xs;
    }
  }

  /** The order of the fields. The separator is printed as a signed character. */
  lemma DirText(c: Config, separator: int)
    requires |c.used| == 11
    requires separator == if c.fieldsep as int < 128 then c.fieldsep as int else c.fieldsep as int - 256
    ensures PutConf(c)
         == "dbz" + (Fields([3, c.tsize, separator]) + ([' '] + ([c.casemap]
          + (Fields([c.tagenb, c.tagmask, c.tagshift, 8] + c.bytemap)
          + (['\n'] + (Dec(c.used[0]) + (Fields(c.used[1..]) + ['\n'])))))))
  {
    FieldsAreListed(FirstNumbers(c));
    FieldsAreListed(SecondNumbers(c));
    FieldsAreListed(c.used[1..]);
  }

  /** Such a file is read as it stands, and only with version 3 and words of 8 bytes. */
  lemma DirRead(c: Config, a: seq<int>, b: seq<int>, s: Str, pag: bool)
    requires Printable(c) && Longs(a, 3) && Longs(b, 12) && a[1] == c.tsize
    requires b == [c.tagenb, c.tagmask, c.tagshift, b[3]] + c.bytemap
    requires s == "dbz" + (Fields(a) + ([' '] + ([c.casemap] + (Fields(b)
                  + (['\n'] + (Dec(c.used[0]) + (Fields(c.used[1..]) + ['\n'])))))))
    ensures GetConf(s, pag)
         == if a[0] == 3 && b[3] == 8 then Some(c.(olddbz := false, fieldsep := (a[2] % 256) as char)) else None
  {
    FieldsAreListed(a);
    FieldsAreListed(b);
    FieldsAreListed(c.used[1..]);
    var r4: Str := ['\n'];
    var r3 := Dec(c.used[0]) + (NumList(c.used[1..]) + r4);
    var r2: Str := ['\n'] + r3;
    var t: Str := [c.casemap] + (NumList(b) + r2);
    DirParts(c, a, b, s, pag, r4, r3, r2, t, [' '] + t);
  }

  lemma DirParts(c: Config, a: seq<int>, b: seq<int>, s: Str, pag: bool, r4: Str, r3: Str, r2: Str, t: Str, r1: Str)
    requires Printable(c) && Longs(a, 3) && Longs(b, 12) && a[1] == c.tsize
    requires b == [c.tagenb, c.tagmask, c.tagshift, b[3]] + c.bytemap
    requires r4 == ['\n'] && r3 == Dec(c.used[0]) + (NumList(c.used[1..]) + r4) && r2 == ['\n'] + r3
    requires t == [c.casemap] + (NumList(b) + r2) && r1 == [' '] + t && s == "dbz" + (NumList(a) + r1)
    ensures GetConf(s, pag)
         == if a[0] == 3 && b[3] == 8 then Some(c.(olddbz := false, fieldsep := (a[2] % 256) as char)) else None
  {
    ConfigReading(c, pag, s, a, b, r4, r3, r2, t, r1);
    AssembledFrom(c, Numbers(a, true, r1), Numbers(b, true, r2), Numbers(c.used, true, r4));
  }

  lemma AssembledFrom(c: Config, first: Numbers, second: Numbers, third: Numbers)
    requires |first.values| == 3 && |second.values| == 12 && |third.values| == 11 && first.ok && second.ok && third.ok
    requires first.values[1] == c.tsize && third.values == c.used
    requires second.values == [c.tagenb, c.tagmask, c.tagshift, second.values[3]] + c.bytemap
    ensures Assembled(first, c.casemap, second, third)
         == if first.values[0] == 3 && second.values[3] == 8
            then Some(c.(olddbz := false, fieldsep := (first.values[2] % 256) as char)) else None
  {
    assert second.values[4..] == c.bytemap;
  }

  /** Without a .dir file there are 120011 slots to a table, no usage so far, words with the low-order byte first,
      RFC 822 case folding, a tab behind the key, and seven bits of tag below a marker in bit 31. */
  lemma EmptyDir(pag: bool)
    ensures GetConf([], pag)
         == Some(Config(pag, 120011, [0, 0, 0, 0, 0, 0, 0, 0, 0, 0, 0], [7, 6, 5, 4, 3, 2, 1, 0], 'C', '\t',
                        128, 127, 24))
  {
    assert seq(NUSEDS, _ => 0) == [0, 0, 0, 0, 0, 0, 0, 0, 0, 0, 0];
  }

  /** Of a word only the first 49 characters count. */
  lemma LongNumber(word: Str, more: Str, rest: Str)
    requires rest != [] && (rest[0] == ' ' || rest[0] == '\n') && |word| == 49
    requires forall i :: 0 <= i < |word| ==> IsDigit(word[i])
    requires forall i :: 0 <= i < |more| ==> IsDigit(more[i])
    ensures GetNo((word + more) + rest) == Token(Atol(word), true, rest)
  {
    var all := word + more;
    assert forall i :: 0 <= i < |all| ==> IsDigit(all[i]);
    WordLengthOf(all, rest);
    KeptOf(word, more, all);
    NumberOf(all, rest, word, all + rest);
  }

  /** What is no number: the end of a line, a word with anything but digits and minus signs in it, and one that ends
      with the file. */
  lemma BadNumbers(word: Str, i: nat, rest: Str)
    requires i < |word| < 50 && NUL !in word && forall k :: 0 <= k < |word| ==> word[k] != ' ' && word[k] != '\n'
    requires rest != [] && (rest[0] == ' ' || rest[0] == '\n')
    ensures GetNo([]) == Token(0, false, []) && GetNo(['\n'] + rest) == Token(0, false, rest)
    ensures word[i] != '-' && !('0' <= word[i] <= '9') ==> !GetNo(word + rest).ok && GetNo(word + rest).rest == rest
    ensures !GetNo(word).ok
  {
    WordLengthOf(word, rest);
    var s := word + rest;
    assert s[..|word|] == word && s[|word|..] == rest && s[0] == word[0];
    IndexOfUnique(word, NUL, |word|);
    assert word[..|word|] == word && (['\n'] + rest)[1..] == rest;
    WordToEnd(word);
  }

  lemma {:induction false} WordToEnd(word: Str)
    requires forall k :: 0 <= k < |word| ==> word[k] != ' ' && word[k] != '\n'
    ensures WordLength(word) == |word|
  {
    if word != [] {
      WordToEnd(word[1..]);
    }
  }

  lemma KeptOf(word: Str, more: Str, all: Str)
    requires all == word + more && |word| == 49 && forall i :: 0 <= i < |word| ==> IsDigit(word[i])
    ensures Buffered(all) == word
  {
    assert |more| == 0 ==> all == word;
    assert all[..49] == word;
    IndexOfUnique(word, NUL, 49);
  }

  lemma NumberOf(all: Str, rest: Str, kept: Str, s: Str)
    requires s == all + rest && all != [] && IsDigit(all[0]) && rest != [] && WordLength(s) == |all|
    requires Buffered(all) == kept && forall i :: 0 <= i < |kept| ==> IsDigit(kept[i])
    ensures GetNo(s) == Token(Atol(kept), true, rest)
  {
    assert s[..|all|] == all && s[|all|..] == rest;
  }

  // ----- words of the .pag file

  /** Parts without common bits are added. */
  lemma {:induction false} OrOfApart(value: nat, tag: nat, bits: nat, here: nat)
    requires And(value, Or(bits, here)) == 0 && And(bits, here) == 0 && AndNot(tag, bits) == 0
    ensures Or(value, Or(tag, here)) == value + tag + here
    decreases value + tag + bits + here
  {
    if value + tag + bits + here > 0 {
      MaskStep(tag, here);
      MaskStep(bits, here);
      MaskStep(tag, bits);
      MaskStep(value, Or(tag, here));
      MaskStep(value, Or(bits, here));
      OrOfApart(value / 2, tag / 2, bits / 2, here / 2);
    }
  }

  /** The word for an offset is one more than the offset, so that 0 is left for vacant slots; where tags are in use and
      the offset leaves their bits free, the tag and its marker are added. */
  lemma WordInNumbers(c: Coding, value: nat, tag: nat)
    requires c.Wellformed() && c.bytemap == [7, 6, 5, 4, 3, 2, 1, 0] && c.Storable(value)
    requires c.TagsOk() && AndNot(tag, c.tagbits) == 0
    ensures And(value, c.taghere) == 0 && value < 0x8000_0000_0000_0000
    ensures c.Encode(value, tag)
         == if !c.olddbz && And(value, Or(c.tagbits, c.taghere)) == 0 && value + tag + c.taghere != WORDS - 1
            then value + tag + c.taghere + 1 else value + 1
  {
    TaggedRange(c, value, tag);
    TaggedSum(c, value, tag);
    PlainWord(c, value, tag, c.Tagged(value, tag));
  }

  lemma TaggedSum(c: Coding, value: nat, tag: nat)
    requires c.TagsOk() && AndNot(tag, c.tagbits) == 0
    ensures c.Tagged(value, tag)
         == if !c.olddbz && And(value, Or(c.tagbits, c.taghere)) == 0 && value + tag + c.taghere != WORDS - 1
            then value + tag + c.taghere else value
  {
    if And(value, Or(c.tagbits, c.taghere)) == 0 {
      OrOfApart(value, tag, c.tagbits, c.taghere);
    }
  }

  lemma PlainWord(c: Coding, value: nat, tag: nat, v: nat)
    requires c.Wellformed() && c.bytemap == MYBMAP && v == c.Tagged(value, tag) < WORDS - 1
    ensures c.Encode(value, tag) == v + 1
  {
    assert Bias(v) == v + 1;
  }

  /** The byte map says where the bytes of a word go, the high-order one first. */
  lemma BytesOfWords(c: Coding, o: nat, i: nat)
    requires c.Wellformed() && o < WORDS && i < 8
    ensures ToBytes(c.MapOut(o), 8)[c.bytemap[i]] == ToBytes(o, 8)[7 - i]
  {
    MybmapIsByteMap();
    assert MYBMAP[i] == 7 - i;
    if c.bytemap != MYBMAP {
      BytesMoved(o, MYBMAP, c.bytemap, i);
    }
  }

  lemma BytesMoved(o: nat, map1: seq<nat>, map2: seq<nat>, i: nat)
    requires o < WORDS && IsByteMap(map1) && IsByteMap(map2) && i < SOF
    ensures ToBytes(ByteMap(o, map1, map2), SOF)[map2[i]] == ToBytes(o, SOF)[map1[i]]
  {
    var s := ToBytes(o, SOF);
    Pow2Long();
    WordOfBytes(o, SOF);
    MovedBytes(s, map1, map2, SOF);
    BytesOfWord(Moved(s, map1, map2, SOF));
  }

  lemma {:induction false} AndOfOnes(v: nat, k: nat)
    ensures And(v, Pow2(k) - 1) == Low(v, k)
  {
    if k > 0 {
      var half: nat := Pow2(k - 1) - 1;
      AndOfOnes(v / 2, k - 1);
      MaskStep(v, 2 * half + 1);
      assert Low(v, k) == 2 * Low(v / 2, k - 1) + v % 2;
    }
  }

  lemma {:induction false} ShlIsProduct(a: nat, n: nat)
    ensures Shl(a, n) == a * Pow2(n)
  {
    if n > 0 {
      ShlIsProduct(a, n - 1);
      assert a * Pow2(n) == 2 * (a * Pow2(n - 1));
    }
  }

  lemma ShiftedTag(v: nat, mask: nat, shift: nat)
    requires mask == 127 && shift == 24
    ensures And(Shl(v, shift), Shl(mask, shift)) == v % 128 * 0x100_0000
  {
    Pow2Long();
    AndOfShifted(v, mask, shift);
    AndOfOnes(v, 7);
    LowIsMod(v, 7);
    ShlIsProduct(v % 128, shift);
  }

  /** With the default masks a tag is made of the seven low bits of the quotient of hash and table size. */
  lemma DefaultTag(lay: Layout, h: nat)
    requires lay.coding.tagbits == 127 * 0x100_0000 && lay.tagshift == 24 && h < 0x8000_0000
    ensures lay.TagOf(h) == h / lay.geo.tsize % 128 * 0x100_0000
  {
    var v := h / lay.geo.tsize;
    QuotientIsLess(h, lay.geo.tsize);
    Pow2Long();
    ShlIsProduct(127, lay.tagshift);
    ShlIsProduct(v, lay.tagshift);
    SmallProduct(v);
    ShiftedTag(v, 127, lay.tagshift);
  }

  lemma SmallProduct(v: nat)
    requires v < 0x8000_0000
    ensures v * 0x100_0000 % WORDS == v * 0x100_0000
  {}

  lemma QuotientIsLess(h: nat, d: nat)
    requires d > 0
    ensures h / d <= h
  {
    if h / d > 0 {
      Arith.Multiple(h / d, d);
      assert h == d * (h / d) + h % d;
    }
  }

  // ----- the places of a search

  /** Runs of a hundred slots, one in each table, that go round at its end; those of an old database are as long as a
      table in the first one. The k-th table begins at k times the table size. */
  lemma PathInNumbers(g: Geometry, h: nat, k: nat, j: nat)
    requires g.Ok() && j < 100
    ensures !g.olddbz && k == 0 ==> g.Place(h, j) == (h + j) % g.tsize
    ensures !g.olddbz ==> g.Place(h, 100 * k + j) == (h + (100 * k + j)) % g.tsize + k * g.tsize
    ensures var i := g.tsize + 100 * k + j; g.olddbz ==> g.Place(h, i) == (h + i) % g.tsize + (k + 1) * g.tsize
    ensures forall i: nat :: g.olddbz && i < g.tsize ==> g.Place(h, i) == (h + i) % g.tsize
  {
    TableInNumbers(g, k, j);
  }

  lemma TableInNumbers(g: Geometry, k: nat, j: nat)
    requires g.Ok() && j < 100
    ensures !g.olddbz ==> g.Table(100 * k + j) == k
    ensures g.olddbz ==> g.Table(g.tsize + 100 * k + j) == k + 1
  {
    assert (100 * k + j) / 100 == k;
    if k > 0 {
      assert (100 * k + j - 100) / 100 == k - 1;
    }
  }

  // ----- case folding

  /** An address with the local part postmaster, in whatever case. */
  predicate ToPostmaster(s: Str) {
    && |s| > 11 && s[11] == '@' && '@' !in s[..11]
    && forall k :: 0 <= k < 10 ==> s[k + 1] == "postmaster"[k] || s[k + 1] as int + 32 == "postmaster"[k] as int
  }

  /** Capitals become small letters everywhere, or from the at-sign on, or nowhere. */
  predicate Folds(mode: Byte, s: Str, i: nat)
    requires i < |s|
  {
    || mode == '='
    || (mode == 'C' && ('@' in s[..i + 1] || ToPostmaster(s)))
  }

  lemma FoldInCharacters(mode: Byte, s: Str, i: nat)
    requires i < |s|
    ensures CaseMap.Fold(mode, s)[i]
         == if 'A' <= s[i] <= 'Z' && Folds(mode, s, i) then (s[i] as int + 32) as char else s[i]
  {
    if mode == 'C' {
      PostmasterInLetters(s);
      var p := IndexOf(s, '@');
      assert '@' in s[..i + 1] <==> p <= i by {
        if p <= i {
          assert s[..i + 1][p] == '@';
        } else {
          assert s[..i + 1] == s[..p][..i + 1];
        }
      }
      assert CaseMap.IsPostmaster(s) ==> '@' in s;
    }
    var c := CaseMap.CasePoint(mode, s);
    if c.Some? {
      CaseMap.FoldedAt(s, c.value, i);
    }
  }

  lemma PostmasterInLetters(s: Str)
    ensures CaseMap.IsPostmaster(s) <==> ToPostmaster(s)
  {
    if |s| > 11 {
      var part := s[1..11];
      assert forall k :: 0 <= k < 10 ==> part[k] == s[k + 1] && CaseMap.LowerAll(part)[k] == CaseMap.Lower(s[k + 1]);
      assert forall k :: 0 <= k < 10 ==> 97 <= "postmaster"[k] as int <= 122;
      assert CaseMap.LowerAll(part) == "postmaster" <==>
        forall k :: 0 <= k < 10 ==> CaseMap.LowerAll(part)[k] == "postmaster"[k];
    }
  }

  /** The code of a character as a small letter, where a char is signed. */
  function SmallCode(c: Byte): int {
    if 'A' <= c <= 'Z' then c as int + 32 else if c as int >= 128 then c as int - 256 else c as int
  }

  /** Strings are compared by the first of their characters that differ, with the end of a string below all. */
  lemma {:induction false} FirstDifferenceDecides(a: Str, b: Str, n: nat, i: nat)
    requires i < n <= |a| && n <= |b| && SmallCode(a[i]) != SmallCode(b[i])
    requires forall k :: 0 <= k < i ==> a[k] != NUL && SmallCode(a[k]) == SmallCode(b[k])
    ensures CaseMap.Collate(a, b, n)
         == if a[i] == NUL then -1 else if b[i] == NUL then 1 else SmallCode(a[i]) - SmallCode(b[i])
    decreases i
  {
    CaseMap.LowerByCode(a[0], b[0]);
    if i > 0 {
      FirstDifferenceDecides(a[1..], b[1..], n - 1, i - 1);
    }
  }

  /** Which of its characters make dbzfresh fold no letters, all of them, or those behind an at-sign. */
  lemma FreshFolding(cmap: Byte, s: Str)
    ensures Dbz.FreshCase(cmap) != None <==> cmap in "\00B=bC?"
    ensures cmap in "\00B" ==> CaseMap.Fold(Dbz.FreshCase(cmap).value, s) == s
    ensures cmap in "=b" ==> CaseMap.Fold(Dbz.FreshCase(cmap).value, s) == CaseMap.LowerAll(s)
    ensures cmap in "C?" && '@' !in s ==> CaseMap.Fold(Dbz.FreshCase(cmap).value, s) == s
  {
    assert s[..0] == [] && s[0..] == s;
    if '@' !in s {
      IndexOfUnique(s, '@', |s|);
    }
  }
}
