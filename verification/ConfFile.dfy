/** Reading and writing the .dir file, character by character. */
module ConfFile {
  import opened Text
  import opened Decimal
  import opened Words
  import opened DirConfig

  /** A file that is open for reading. */
  class InFile {
    const text: Str
    var pos: nat

    constructor (text: Str)
      ensures this.text == text && pos == 0
    {
      this.text, pos := text, 0;
    }

    function Rest(): Str
      requires pos <= |text|
      reads `pos
    {
      text[pos..]
    }

    method Getc() returns (c: Option<Byte>)
      requires pos <= |text|
      modifies `pos
      ensures old(pos) == |text| ==> c == None && pos == old(pos)
      ensures old(pos) < |text| ==> c == Some(text[old(pos)]) && pos == old(pos) + 1
    {
      if pos == |text| {
        return None;
      }
      c, pos := Some(text[pos]), pos + 1;
    }

    method Ungetc()
      requires pos > 0
      modifies `pos
      ensures pos == old(pos) - 1
    {
      pos := pos - 1;
    }

    /** The next character that is not a blank. */
    method SkipBlanks() returns (c: Option<Byte>)
      requires pos <= |text|
      modifies `pos
      ensures pos <= |text|
      ensures SkipSpaces(old(Rest())) == (if c.Some? then [c.value] else []) + Rest()
      ensures c.Some? ==> pos > 0 && text[pos - 1] == c.value != ' '
      ensures c.None? ==> pos == |text|
    {
      c := Getc();
      while c == Some(' ')
        invariant pos <= |text|
        invariant c.Some? ==> pos > 0 && text[pos - 1] == c.value
        invariant c.Some? ==> SkipSpaces(old(Rest())) == SkipSpaces(text[pos - 1..])
        invariant c.None? ==> pos == |text| && SkipSpaces(old(Rest())) == []
        decreases |text| - pos, c.Some?
      {
        assert text[pos - 1..][1..] == text[pos..];
        c := Getc();
      }
      if c.Some? {
        assert text[pos - 1..] == [c.value] + text[pos..];
      }
    }

    /** Read a number; ok says whether everything went well so far. */
    method ReadNo(ok: bool) returns (value: int, ok': bool)
      requires pos <= |text|
      modifies `pos
      ensures pos <= |text|
      ensures GetNo(old(Rest())) == Token(value, GetNo(old(Rest())).ok, Rest())
      ensures ok' == (ok && GetNo(old(Rest())).ok)
    {
      var c := SkipBlanks();
      if c.None? || c.value == '\n' {
        NoNumber(old(Rest()), c, Rest());
        return 0, false;
      }
      ghost var t := text[pos - 1..];
      assert t == [c.value] + Rest();
      var getbuf, complete := Word(c.value);
      getbuf := getbuf[..IndexOf(getbuf, NUL)];
      var n := Span(getbuf);
      WordIsNumber(old(Rest()), t, getbuf);
      ok' := ok && complete && n == |getbuf|;
      value := Atol(getbuf);
    }

    /** The rest of a word, of which one character was read; at most MAXN-1 characters are kept. */
    method Word(c: Byte) returns (getbuf: Str, complete: bool)
      requires 0 < pos <= |text| && text[pos - 1] == c && c != ' ' && c != '\n'
      modifies `pos
      ensures pos <= |text|
      ensures var t := text[old(pos) - 1..];
              var k := WordLength(t);
              && getbuf == Kept(t, k) && complete == (k < |t|) && Rest() == t[k..]
    {
      ghost var start := pos - 1;
      ghost var t := text[start..];
      getbuf := [c];
      var d := Getc();
      ghost var k := 1;
      while d.Some? && d.value != '\n' && d.value != ' '
        invariant d.Some? ==> start + k < |text| && pos == start + k + 1 && d.value == text[start + k]
        invariant d.None? ==> start + k == pos == |text|
        invariant k > 0 && WordLength(t) == k + WordLength(t[k..]) && getbuf == Kept(t, k)
        decreases |text| - pos, d.Some?
      {
        assert t[k..][1..] == t[k + 1..] && t[k] == d.value;
        KeptOneMore(t, k);
        if |getbuf| < MAXN - 1 {
          getbuf := getbuf + [d.value];
        }
        k := k + 1;
        d := Getc();
      }
      complete := d.Some?;
      if complete {
        Ungetc();
      }
    }

    /** Get some longs in a row. */
    method ReadNos(n: nat, ok: bool) returns (values: seq<int>, ok': bool)
      requires pos <= |text|
      modifies `pos
      ensures pos <= |text|
      ensures GetNos(old(Rest()), n) == Numbers(values, GetNos(old(Rest()), n).ok, Rest())
      ensures ok' == (ok && GetNos(old(Rest()), n).ok)
    {
      values, ok' := [], ok;
      for i := 0 to n
        invariant pos <= |text|
        invariant GetNos(old(Rest()), i) == Numbers(values, GetNos(old(Rest()), i).ok, Rest())
        invariant ok' == (ok && GetNos(old(Rest()), i).ok)
      {
        var value;
        value, ok' := ReadNo(ok');
        values := values + [value];
      }
    }

    method ReadMagic() returns (ok: bool)
      requires pos == 0
      modifies `pos
      ensures pos <= |text|
      ensures ok <==> |text| >= 3 && text[..3] == "dbz"
      ensures ok ==> pos == 3
    {
      var c := Getc();
      if c != Some('d') {
        return false;
      }
      c := Getc();
      if c != Some('b') {
        return false;
      }
      c := Getc();
      return c == Some('z');
    }

    method ReadNewline(ok: bool) returns (ok': bool)
      requires pos <= |text|
      modifies `pos
      ensures pos <= |text|
      ensures ok' == (ok && old(Rest()) != [] && old(Rest())[0] == '\n')
      ensures ok' ==> Rest() == old(Rest())[1..]
    {
      var c := Getc();
      ok' := ok && c == Some('\n');
    }

    /** Read a configuration. Without a .dir file, pag says whether there is an old database. Reading goes on after an
        error. */
    method ReadConf(pag: bool) returns (r: Option<Config>)
      requires pos == 0
      modifies `pos
      ensures r == GetConf(text, pag)
    {
      var c := Getc();
      if c.None? {
        return Some(DefaultConfig(pag));
      }
      Ungetc();
      var first, second, third, casemap;
      var ok := ReadMagic();
      first, ok := ReadNos(3, ok);
      if first[0] != DBZVERSION {
        ok := false;
      }
      casemap := SkipBlanks();
      second, ok := ReadNos(4 + SOF, ok);
      if casemap.None? {
        NoNumbers(4 + SOF);
        return None;
      }
      if second[3] != SOF {
        ok := false;
      }
      ok := ReadNewline(ok);
      third, ok := ReadNos(NUSEDS, ok);
      ok := ReadNewline(ok);
      return if !ok then None
             else Some(Config(false, first[1], third, second[4..], casemap.value, CharOf(first[2]),
                              second[0], second[1], second[2]));
    }
  }

  /** How many characters at the front are those of numbers. */
  method Span(s: Str) returns (n: nat)
    ensures n <= |s| && (n == |s| <==> forall i :: 0 <= i < |s| ==> Numeric(s[i]))
  {
    n := 0;
    while n < |s| && Numeric(s[n])
      invariant n <= |s| && forall i :: 0 <= i < n ==> Numeric(s[i])
    {
      n := n + 1;
    }
  }

  lemma NoNumbers(n: nat)
    requires n > 0
    ensures !GetNos([], n).ok
  {
    var front := GetNos([], n - 1);
    NothingLeft(n - 1);
  }

  lemma {:induction false} NothingLeft(n: nat)
    ensures GetNos([], n).rest == []
  {
    if n > 0 {
      NothingLeft(n - 1);
    }
  }

  /** What the buffer of getno() keeps of the first k characters. */
  ghost function Kept(t: Str, k: nat): Str
    requires k <= |t|
  {
    t[..if k < MAXN then k else MAXN - 1]
  }

  lemma KeptOneMore(t: Str, k: nat)
    requires k < |t|
    ensures Kept(t, k + 1) == if |Kept(t, k)| < MAXN - 1 then Kept(t, k) + [t[k]] else Kept(t, k)
  {}

  lemma NoNumber(s: Str, c: Option<Byte>, rest: Str)
    requires SkipSpaces(s) == (if c.Some? then [c.value] else []) + rest
    requires c.None? ==> rest == []
    requires c.Some? ==> c.value == '\n'
    ensures GetNo(s) == Token(0, false, rest)
  {
    if c.Some? {
      assert SkipSpaces(s)[1..] == rest;
    }
  }

  lemma KeptIsBuffered(t: Str, k: nat, word: Str)
    requires k <= |t| && word == t[..k]
    ensures Buffered(word) == Kept(t, k)[..IndexOf(Kept(t, k), NUL)]
  {
    var b := if |word| < MAXN then word else word[..MAXN - 1];
    assert b == Kept(t, k);
  }

  lemma WordIsNumber(s: Str, t: Str, b: Str)
    requires SkipSpaces(s) == t && t != [] && t[0] != '\n'
    requires var w := Kept(t, WordLength(t)); b == w[..IndexOf(w, NUL)]
    ensures GetNo(s) == Token(Atol(b), WordLength(t) < |t| && forall i :: 0 <= i < |b| ==> Numeric(b[i]),
                              t[WordLength(t)..])
  {
    KeptIsBuffered(t, WordLength(t), t[..WordLength(t)]);
  }

  /** Write the configuration to a .dir file. */
  method WriteConf(c: Config) returns (s: Str)
    requires |c.used| == NUSEDS
    ensures s == PutConf(c)
  {
    s := "dbz" + (NumList(FirstNumbers(c)) + ([' '] + [c.casemap]));
    ghost var vital := s;
    var numbers := WriteMap([c.tagenb, c.tagmask, c.tagshift, SOF], c.bytemap);
    s := s + (numbers + ['\n']);
    var usages := WriteUsages(c.used);
    s := s + usages;
    JoinLines(c, vital, numbers, usages);
  }

  lemma JoinLines(c: Config, vital: Str, numbers: Str, usages: Str)
    requires |c.used| == NUSEDS && vital == "dbz" + (NumList(FirstNumbers(c)) + ([' '] + [c.casemap]))
    requires numbers == NumList(SecondNumbers(c)) && usages == Dec(c.used[0]) + (NumList(c.used[1..]) + ['\n'])
    ensures (vital + (numbers + ['\n'])) + usages == PutConf(c)
  {
    var a, b: Str, m: Str := NumList(FirstNumbers(c)), [' '], [c.casemap];
    var tail := numbers + (['\n'] + usages);
    Reassociate(vital, numbers + ['\n'], usages);
    Reassociate(numbers, ['\n'], usages);
    Reassociate("dbz", a + (b + m), tail);
    Reassociate(a, b + m, tail);
    Reassociate(b, m, tail);
  }

  /** The numbers behind the case map, with the byte order last. */
  method WriteMap(tags: seq<int>, bytemap: seq<int>) returns (s: Str)
    ensures s == NumList(tags + bytemap)
  {
    s := NumList(tags);
    assert tags + bytemap[..0] == tags;
    for i := 0 to |bytemap|
      invariant s == NumList(tags + bytemap[..i])
    {
      MapStep(tags, bytemap, i);
      s := s + [' '] + Dec(bytemap[i]);
    }
    assert bytemap[..|bytemap|] == bytemap;
  }

  lemma MapStep(tags: seq<int>, bytemap: seq<int>, i: nat)
    requires i < |bytemap|
    ensures NumList(tags + bytemap[..i + 1]) == NumList(tags + bytemap[..i]) + [' '] + Dec(bytemap[i])
  {
    NumListSnoc(tags + bytemap[..i], bytemap[i]);
    TakeOneMore(tags, bytemap, i);
  }

  lemma TakeOneMore(tags: seq<int>, bytemap: seq<int>, i: nat)
    requires i < |bytemap|
    ensures tags + bytemap[..i + 1] == (tags + bytemap[..i]) + [bytemap[i]]
  {}

  /** The second line. */
  method WriteUsages(used: seq<int>) returns (s: Str)
    requires |used| == NUSEDS
    ensures s == Dec(used[0]) + (NumList(used[1..]) + ['\n'])
  {
    s := Dec(used[0]) + [Separator(0)];
    ghost var front := Dec(used[0]);
    assert used[1..1] == [];
    for i := 1 to NUSEDS
      invariant front == Dec(used[0]) + NumList(used[1..i]) && s == front + [Separator(i - 1)]
    {
      UsageStep(used, i, front);
      front := s + Dec(used[i]);
      s := s + Dec(used[i]) + [Separator(i)];
    }
    Reassociate(Dec(used[0]), NumList(used[1..NUSEDS]), ['\n']);
    assert used[1..NUSEDS] == used[1..];
  }

  function Separator(i: nat): Byte {
    if i < NUSEDS - 1 then ' ' else '\n'
  }

  lemma UsageStep(used: seq<int>, i: nat, front: Str)
    requires 1 <= i < |used| && front == Dec(used[0]) + NumList(used[1..i])
    ensures front + [' '] + Dec(used[i]) == Dec(used[0]) + NumList(used[1..i + 1])
  {
    NumListSnoc(used[1..i], used[i]);
    assert used[1..i + 1] == used[1..i] + [used[i]];
    Reassociate(Dec(used[0]), NumList(used[1..i]), [' ']);
    Reassociate(Dec(used[0]), NumList(used[1..i]) + [' '], Dec(used[i]));
  }
}
