/** The .dir file of a database: its configuration in two lines of text. */
module DirConfig {
  import opened Text
  import opened Decimal
  import CaseMap
  import Bits
  import opened Words
  import opened Probe
  import opened StoreLog

  const DBZVERSION: int := 3
  const NUSEDS: nat := 11
  const MAXN: nat := 50

  /** The contents of a .dir file. An old database has none, although its .pag file is not empty. The counts say how
      many entries were made in this and in the preceding generations. The masks stand at bit 0, and the shift says
      where in an offset they go. */
  datatype Config = Config(
    olddbz: bool,
    tsize: int,
    used: seq<int>,
    bytemap: seq<int>,
    casemap: Byte,
    fieldsep: Byte,
    tagenb: int,
    tagmask: int,
    tagshift: int)
  {
    /** The numbers are of the kind that they ought to be. */
    ghost predicate Shaped() {
      && |used| == NUSEDS
      && |bytemap| == SOF && (forall i :: 0 <= i < SOF ==> bytemap[i] >= 0) && IsByteMap(ByteMap())
      && IsLong(tagenb) && IsLong(tagmask) && tagshift >= 0
    }

    /** They make sense, so that the database can be opened. */
    ghost predicate Usable() {
      Shaped() && tsize > 0 && CodingOf().TagsOk()
    }

    function ByteMap(): seq<nat>
      requires forall i :: 0 <= i < |bytemap| ==> bytemap[i] >= 0
    {
      seq(|bytemap|, i requires 0 <= i < |bytemap| => bytemap[i])
    }

    /** The pre-shifted masks that dbminit computes. */
    function CodingOf(): (coding: Coding)
      requires IsLong(tagenb) && IsLong(tagmask) && tagshift >= 0
      requires forall i :: 0 <= i < |bytemap| ==> bytemap[i] >= 0
      ensures HasMasks(coding, tagenb, tagmask, tagshift)
    {
      Coding(Bits.Shl(Pattern(tagmask), tagshift) % WORDS, Bits.Shl(Pattern(tagenb), tagshift) % WORDS,
             olddbz, ByteMap())
    }

    function LayoutOf(): AnyLayout
      requires tsize > 0 && IsLong(tagenb) && IsLong(tagmask) && tagshift >= 0
      requires forall i :: 0 <= i < |bytemap| ==> bytemap[i] >= 0
    {
      Layout(Geometry(tsize, olddbz), CodingOf(), tagshift, casemap, fieldsep)
    }
  }

  /** What a database without configuration gets. */
  function DefaultConfig(olddbz: bool): Config {
    Config(olddbz, DEFSIZE, seq(NUSEDS, _ => 0), MYBMAP, 'C', '\t', 0x80, 0x7f, TAGSHIFT)
  }

  /** Every number fits its C type, and the case map is not mistaken for a blank. */
  predicate Printable(c: Config) {
    && IsLong(c.tsize) && IsLong(c.tagenb) && IsLong(c.tagmask) && IsLong(c.tagshift)
    && |c.used| == NUSEDS && (forall i :: 0 <= i < NUSEDS ==> IsLong(c.used[i]))
    && |c.bytemap| == SOF && (forall i :: 0 <= i < SOF ==> IsLong(c.bytemap[i]))
    && c.casemap != ' '
  }

  // ----- reading

  function SkipSpaces(s: Str): (r: Str)
    ensures |r| <= |s|
  {
    if s != [] && s[0] == ' ' then SkipSpaces(s[1..]) else s
  }

  /** How many characters stand before the next blank, newline or end of file. */
  function WordLength(s: Str): (k: nat)
    ensures k <= |s|
  {
    if s == [] || s[0] == ' ' || s[0] == '\n' then 0 else 1 + WordLength(s[1..])
  }

  datatype Token = Token(value: int, ok: bool, rest: Str)

  predicate Numeric(c: Byte) {
    c == '-' || IsDigit(c)
  }

  /** At most MAXN-1 characters are kept, and a NUL ends the C string. */
  function Buffered(word: Str): Str {
    var b := if |word| < MAXN then word else word[..MAXN - 1];
    b[..IndexOf(b, NUL)]
  }

  function GetNo(s: Str): Token {
    var t := SkipSpaces(s);
    if t == [] then Token(0, false, [])
    else if t[0] == '\n' then Token(0, false, t[1..])
    else
      var k := WordLength(t);
      var b := Buffered(t[..k]);
      Token(Atol(b), k < |t| && forall i :: 0 <= i < |b| ==> Numeric(b[i]), t[k..])
  }

  datatype Numbers = Numbers(values: seq<int>, ok: bool, rest: Str)

  function GetNos(s: Str, n: nat): (r: Numbers)
    ensures |r.values| == n
  {
    if n == 0 then Numbers([], true, s)
    else
      var front := GetNos(s, n - 1);
      var last := GetNo(front.rest);
      Numbers(front.values + [last.value], front.ok && last.ok, last.rest)
  }

  function CharOf(n: int): Byte {
    (n % 256) as char
  }

  /** The configuration in a .dir file; pag tells whether the .pag file has any contents. */
  function GetConf(s: Str, pag: bool): Option<Config> {
    if s == [] then Some(DefaultConfig(pag))
    else if |s| < 3 || s[..3] != "dbz" then None
    else
      var first := GetNos(s[3..], 3);
      var t := SkipSpaces(first.rest);
      if t == [] then None
      else
        var second := GetNos(t[1..], 4 + SOF);
        if second.rest == [] || second.rest[0] != '\n' then None
        else
          var third := GetNos(second.rest[1..], NUSEDS);
          if third.rest == [] || third.rest[0] != '\n' then None
          else Assembled(first, t[0], second, third)
  }

  function Assembled(first: Numbers, casemap: Byte, second: Numbers, third: Numbers): Option<Config>
    requires |first.values| == 3 && |second.values| == 4 + SOF && |third.values| == NUSEDS
  {
    if !first.ok || !second.ok || !third.ok || first.values[0] != DBZVERSION || second.values[3] != SOF then None
    else Some(Config(false, first.values[1], third.values, second.values[4..], casemap, CharOf(first.values[2]),
                     second.values[0], second.values[1], second.values[2]))
  }

  // ----- writing

  function NumList(xs: seq<int>): Str {
    if xs == [] then [] else NumList(xs[..|xs| - 1]) + [' '] + Dec(xs[|xs| - 1])
  }

  function PutConf(c: Config): Str
    requires |c.used| == NUSEDS
  {
    "dbz" + (NumList(FirstNumbers(c)) + ([' '] + ([c.casemap]
    + (NumList(SecondNumbers(c)) + (['\n'] + (Dec(c.used[0]) + (NumList(c.used[1..]) + ['\n'])))))))
  }

  function FirstNumbers(c: Config): seq<int> {
    [DBZVERSION, c.tsize, CaseMap.Code(c.fieldsep)]
  }

  function SecondNumbers(c: Config): seq<int> {
    [c.tagenb, c.tagmask, c.tagshift, SOF] + c.bytemap
  }

  /** Writing at the start of a file that is not truncated. */
  function Overwrite(was: Str, text: Str): Str {
    text + (if |was| > |text| then was[|text|..] else [])
  }

  // ----- round trip

  lemma {:induction false} WordLengthOf(w: Str, rest: Str)
    requires forall i :: 0 <= i < |w| ==> w[i] != ' ' && w[i] != '\n'
    requires rest != [] && (rest[0] == ' ' || rest[0] == '\n')
    ensures WordLength(w + rest) == |w|
  {
    if w != [] {
      assert (w + rest)[1..] == w[1..] + rest;
      WordLengthOf(w[1..], rest);
    } else {
      assert w + rest == rest;
    }
  }

  lemma GetNoOfDec(n: int, rest: Str, s: Str)
    requires IsLong(n) && rest != [] && (rest[0] == ' ' || rest[0] == '\n')
    requires s == Dec(n) + rest
    ensures GetNo(s) == Token(n, true, rest) && GetNo([' '] + s) == Token(n, true, rest)
  {
    var w := Dec(n);
    assert ([' '] + s)[1..] == s;
    assert SkipSpaces([' '] + s) == SkipSpaces(s) == s;
    WordLengthOf(w, rest);
    LongLength(n);
    assert s[..|w|] == w && s[|w|..] == rest;
    IndexOfUnique(w, NUL, |w|);
    AtolOfDec(n, [], w);
  }

  lemma {:induction false} GetNosOfList(xs: seq<int>, rest: Str, s: Str)
    requires forall i :: 0 <= i < |xs| ==> IsLong(xs[i])
    requires rest != [] && (rest[0] == ' ' || rest[0] == '\n')
    requires s == NumList(xs) + rest
    ensures GetNos(s, |xs|) == Numbers(xs, true, rest)
    decreases |xs|
  {
    if xs == [] {
      assert s == rest;
    } else {
      var front, x := xs[..|xs| - 1], xs[|xs| - 1];
      var text := Dec(x) + rest;
      var tail: Str := [' '] + text;
      NumListLast(xs, rest, text);
      GetNosOfList(front, tail, s);
      GetNoOfDec(x, rest, text);
      GetNosStep(s, |front|, xs, rest);
    }
  }

  lemma NumListLast(xs: seq<int>, rest: Str, text: Str)
    requires xs != [] && text == Dec(xs[|xs| - 1]) + rest
    ensures NumList(xs) + rest == NumList(xs[..|xs| - 1]) + ([' '] + text)
  {
    var front, x := NumList(xs[..|xs| - 1]), Dec(xs[|xs| - 1]);
    Reassociate(front + [' '], x, rest);
    Reassociate(front, [' '], text);
  }

  lemma GetNosStep(s: Str, k: nat, xs: seq<int>, rest: Str)
    requires k + 1 == |xs| && GetNos(s, k).ok && GetNos(s, k).values == xs[..k]
    requires GetNo(GetNos(s, k).rest) == Token(xs[k], true, rest)
    ensures GetNos(s, |xs|) == Numbers(xs, true, rest)
  {
    assert xs[..k] + [xs[k]] == xs;
  }

  lemma NumListSnoc(xs: seq<int>, x: int)
    ensures NumList(xs + [x]) == NumList(xs) + [' '] + Dec(x)
  {
    assert (xs + [x])[..|xs|] == xs;
  }

  lemma {:induction false} NumListCons(x: int, xs: seq<int>)
    ensures NumList([x] + xs) == [' '] + Dec(x) + NumList(xs)
  {
    if xs != [] {
      var front := xs[..|xs| - 1];
      NumListCons(x, front);
      NumListSnoc([x] + front, xs[|xs| - 1]);
      assert ([x] + front) + [xs[|xs| - 1]] == [x] + xs;
      var a, n, b := [' '] + Dec(x), NumList(front), Dec(xs[|xs| - 1]);
      Reassociate(a, n, [' ']);
      Reassociate(a, n + [' '], b);
    } else {
      NumListSnoc([], x);
      assert [] + [x] == [x] + xs;
    }
  }

  lemma {:induction false} GetNosSkipsBlank(s: Str, n: nat)
    requires n > 0
    ensures GetNos([' '] + s, n) == GetNos(s, n)
  {
    if n == 1 {
      assert ([' '] + s)[1..] == s;
      assert GetNos([' '] + s, 0).rest == [' '] + s && GetNos(s, 0).rest == s;
    } else {
      GetNosSkipsBlank(s, n - 1);
    }
  }

  lemma UsagesRoundTrip(used: seq<int>, rest: Str, s: Str)
    requires used != [] && forall i :: 0 <= i < |used| ==> IsLong(used[i])
    requires rest != [] && rest[0] == '\n'
    requires s == Dec(used[0]) + NumList(used[1..]) + rest
    ensures GetNos(s, |used|) == Numbers(used, true, rest)
  {
    var x, tail := Dec(used[0]), NumList(used[1..]);
    NumListCons(used[0], used[1..]);
    assert [used[0]] + used[1..] == used;
    Reassociate([' '] + x, tail, rest);
    Reassociate([' '], x, tail + rest);
    Reassociate(x, tail, rest);
    GetNosOfList(used, rest, [' '] + s);
    GetNosSkipsBlank(s, |used|);
  }

  lemma GetConfByParts(s: Str, pag: bool, n1: nat, n2: nat, n3: nat,
                       t: Str, u: Str, first: Numbers, second: Numbers, third: Numbers)
    requires |s| >= 3 && s[..3] == "dbz" && n1 == 3 && n2 == 4 + SOF && n3 == NUSEDS
    requires first == GetNos(s[3..], n1) && t == SkipSpaces(first.rest) && t != []
    requires second == GetNos(t[1..], n2) && second.rest == ['\n'] + u
    requires third == GetNos(u, n3) && third.rest != [] && third.rest[0] == '\n'
    ensures GetConf(s, pag) == Assembled(first, t[0], second, third)
  {
    assert second.rest[1..] == u;
  }

  /** getconf() gives back what putconf() wrote, whatever follows it in the file. */
  lemma ConfigRoundTrip(c: Config, more: Str, pag: bool)
    requires Printable(c)
    ensures GetConf(PutConf(c) + more, pag) == Some(c.(olddbz := false))
  {
    var r4: Str := ['\n'] + more;
    var r3 := Dec(c.used[0]) + (NumList(c.used[1..]) + r4);
    var r2: Str := ['\n'] + r3;
    var t: Str := [c.casemap] + (NumList(SecondNumbers(c)) + r2);
    var r1: Str := [' '] + t;
    ConfigText(c, more, r4, r3, r2, t, r1);
    NumbersAreLong(c);
    ConfigReading(c, pag, PutConf(c) + more, FirstNumbers(c), SecondNumbers(c), r4, r3, r2, t, r1);
    AssembledParts(c, r1, r2, r4);
  }

  ghost predicate Longs(xs: seq<int>, n: nat) {
    |xs| == n && forall i :: 0 <= i < |xs| ==> IsLong(xs[i])
  }

  lemma NumbersAreLong(c: Config)
    requires Printable(c)
    ensures Longs(FirstNumbers(c), 3) && Longs(SecondNumbers(c), 4 + SOF) && Longs(c.used, NUSEDS)
  {}

  lemma ConfigReading(c: Config, pag: bool, s: Str, a: seq<int>, b: seq<int>, r4: Str, r3: Str, r2: Str, t: Str,
                      r1: Str)
    requires Longs(a, 3) && Longs(b, 4 + SOF) && Longs(c.used, NUSEDS) && c.casemap != ' '
    requires r4 != [] && r4[0] == '\n' && r3 == Dec(c.used[0]) + (NumList(c.used[1..]) + r4) && r2 == ['\n'] + r3
    requires t == [c.casemap] + (NumList(b) + r2) && r1 == [' '] + t && s == "dbz" + (NumList(a) + r1)
    ensures GetConf(s, pag)
         == Assembled(Numbers(a, true, r1), c.casemap, Numbers(b, true, r2), Numbers(c.used, true, r4))
  {
    AfterMagic(s, NumList(a) + r1);
    FieldAfterBlank(c.casemap, NumList(b) + r2, t, r1);
    Reassociate(Dec(c.used[0]), NumList(c.used[1..]), r4);
    GetNosOfList(a, r1, s[3..]);
    GetNosOfList(b, r2, t[1..]);
    UsagesRoundTrip(c.used, r4, r3);
    GetConfByParts(s, pag, |a|, |b|, |c.used|, t, r3,
                   Numbers(a, true, r1), Numbers(b, true, r2), Numbers(c.used, true, r4));
  }

  lemma AfterMagic(s: Str, rest: Str)
    requires s == "dbz" + rest
    ensures |s| >= 3 && s[..3] == "dbz" && s[3..] == rest
  {}

  lemma FieldAfterBlank(c: Byte, rest: Str, t: Str, s: Str)
    requires c != ' ' && t == [c] + rest && s == [' '] + t
    ensures SkipSpaces(s) == t && t[1..] == rest
  {
    assert s[1..] == t;
  }

  lemma AssembledParts(c: Config, r1: Str, r2: Str, r4: Str)
    requires Printable(c)
    ensures Assembled(Numbers(FirstNumbers(c), true, r1), c.casemap, Numbers(SecondNumbers(c), true, r2),
                      Numbers(c.used, true, r4)) == Some(c.(olddbz := false))
  {
    assert SecondNumbers(c)[4..] == c.bytemap;
    assert CharOf(CaseMap.Code(c.fieldsep)) == c.fieldsep;
  }

  /** What follows each part of a written configuration. */
  lemma ConfigText(c: Config, more: Str, r4: Str, r3: Str, r2: Str, t: Str, r1: Str)
    requires |c.used| == NUSEDS
    requires r4 == ['\n'] + more && r3 == Dec(c.used[0]) + (NumList(c.used[1..]) + r4) && r2 == ['\n'] + r3
    requires t == [c.casemap] + (NumList(SecondNumbers(c)) + r2) && r1 == [' '] + t
    ensures PutConf(c) + more == "dbz" + (NumList(FirstNumbers(c)) + r1)
  {
    var p4 := NumList(c.used[1..]) + ['\n'];
    Reassociate(NumList(c.used[1..]), ['\n'], more);
    var p3 := Dec(c.used[0]) + p4;
    Reassociate(Dec(c.used[0]), p4, more);
    var p2 := ['\n'] + p3;
    Reassociate(['\n'], p3, more);
    var p1 := NumList(SecondNumbers(c)) + p2;
    Reassociate(NumList(SecondNumbers(c)), p2, more);
    Reassociate([c.casemap], p1, more);
    Reassociate([' '], [c.casemap] + p1, more);
    Reassociate(NumList(FirstNumbers(c)), [' '] + ([c.casemap] + p1), more);
    Reassociate("dbz", NumList(FirstNumbers(c)) + ([' '] + ([c.casemap] + p1)), more);
  }

  /** Rewriting the .dir file in place, without truncating it, is therefore safe. */
  lemma RewriteIsSafe(was: Str, c: Config, pag: bool)
    requires Printable(c)
    ensures GetConf(Overwrite(was, PutConf(c)), pag) == Some(c.(olddbz := false))
  {
    ConfigRoundTrip(c, Overwrite(was, PutConf(c))[|PutConf(c)|..], pag);
    assert PutConf(c) + Overwrite(was, PutConf(c))[|PutConf(c)|..] == Overwrite(was, PutConf(c));
  }

  /** A freshly made configuration can be written, and used if its masks make sense. */
  lemma FreshIsUsable(c: Config)
    requires c == DefaultConfig(false).(fieldsep := c.fieldsep, casemap := c.casemap, tsize := c.tsize,
                                        tagenb := c.tagenb, tagmask := c.tagmask, tagshift := c.tagshift)
    requires c.tsize > 0 && IsLong(c.tsize) && c.casemap != ' '
    requires IsLong(c.tagenb) && IsLong(c.tagmask) && 0 <= c.tagshift < 64
    ensures Printable(c) && c.Shaped() && (c.Usable() <==> c.CodingOf().TagsOk())
  {
    MybmapIsByteMap();
    assert c.ByteMap() == MYBMAP;
  }

  /** The usage counts have no part in the layout of the table. */
  lemma UsedIsIrrelevant(c: Config, used: seq<int>)
    requires c.Usable() && |used| == NUSEDS
    ensures c.(used := used).Usable() && c.(used := used).LayoutOf() == c.LayoutOf()
  {
    assert c.(used := used).ByteMap() == c.ByteMap();
  }
}
