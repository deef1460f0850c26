/** Case mapping of keys. Three modes: '0' maps nothing, '=' maps everything, and 'C' follows RFC 822: the part
    from the at-sign on is case-insensitive, and so is the whole of an address whose local part is postmaster. */
module CaseMap {
  import opened Text

  const POST: Str := "postmaster"

  function Lower(c: Byte): Byte {
    if 65 <= c as int <= 90 then (c as int + 32) as char else c
  }

  function LowerAll(s: Str): (r: Str)
    ensures |r| == |s|
  {
    seq(|s|, i requires 0 <= i < |s| => Lower(s[i]))
  }

  predicate IsPostmaster(s: Str) {
    |s| > 11 && s[11] == '@' && '@' !in s[..11] && LowerAll(s[1..11]) == POST
  }

  /** Where the case-insensitive part of a key begins. */
  function CasePoint(mode: Byte, s: Str): (c: Option<nat>)
    ensures c.Some? ==> c.value <= |s|
  {
    if mode == 'C' then
      var p := IndexOf(s, '@');
      if p == |s| then None
      else if IsPostmaster(s) then Some(0)
      else Some(p)
    else if mode == '=' then Some(0)
    else None
  }

  function Fold(mode: Byte, s: Str): (r: Str)
    ensures |r| == |s|
  {
    match CasePoint(mode, s)
    case None => s
    case Some(c) => s[..c] + LowerAll(s[c..])
  }

  // ----- laws

  lemma FoldAt(mode: Byte, s: Str, i: nat)
    requires i < |s|
    ensures Fold(mode, s)[i] == s[i] || Fold(mode, s)[i] == Lower(s[i])
  {
    match CasePoint(mode, s)
    case None =>
    case Some(c) => FoldedAt(s, c, i);
  }

  lemma FoldedAt(s: Str, c: nat, i: nat)
    requires c <= |s| && i < |s|
    ensures (s[..c] + LowerAll(s[c..]))[i] == if i < c then s[i] else Lower(s[i])
  {}

  /** A character that folding neither touches nor produces. */
  predicate Neutral(c: Byte) {
    !('A' <= c <= 'Z') && !('a' <= c <= 'z')
  }

  lemma LowerFacts(c: Byte, d: Byte)
    ensures Lower(Lower(c)) == Lower(c)
    ensures Neutral(d) ==> (Lower(c) == d <==> c == d)
  {}

  lemma FoldKeepsNeutral(mode: Byte, s: Str, i: nat, c: Byte)
    requires i < |s| && Neutral(c)
    ensures Fold(mode, s)[i] == c <==> s[i] == c
  {
    FoldAt(mode, s, i);
    LowerFacts(s[i], c);
  }

  lemma FoldKeepsAtSign(mode: Byte, s: Str)
    ensures IndexOf(Fold(mode, s), '@') == IndexOf(s, '@')
  {
    var f, p := Fold(mode, s), IndexOf(s, '@');
    forall i | 0 <= i < |s|
      ensures f[i] == '@' <==> s[i] == '@'
    {
      FoldKeepsNeutral(mode, s, i, '@');
    }
    assert forall i :: 0 <= i < p ==> s[i] == s[..p][i];
    IndexOfUnique(f, '@', p);
  }

  lemma LowerAllFacts(s: Str, i: nat)
    requires i <= |s|
    ensures LowerAll(s[i..]) == LowerAll(s)[i..]
    ensures LowerAll(LowerAll(s)) == LowerAll(s)
  {
    forall k | 0 <= k < |s|
      ensures Lower(Lower(s[k])) == Lower(s[k])
    {
      LowerFacts(s[k], s[k]);
    }
  }

  lemma FoldKeepsPostmaster(mode: Byte, s: Str)
    ensures IsPostmaster(Fold(mode, s)) == IsPostmaster(s)
  {
    var f := Fold(mode, s);
    forall i | 0 <= i < |s|
      ensures Lower(f[i]) == Lower(s[i]) && (f[i] == '@' <==> s[i] == '@')
    {
      FoldAt(mode, s, i);
      LowerFacts(s[i], '@');
    }
    if |s| > 11 {
      assert LowerAll(f[1..11]) == LowerAll(s[1..11]);
      assert forall i :: 0 <= i < 11 ==> f[..11][i] == f[i] && s[..11][i] == s[i];
    }
  }

  /** Folding twice is folding once. */
  lemma FoldIdempotent(mode: Byte, s: Str)
    ensures Fold(mode, Fold(mode, s)) == Fold(mode, s)
  {
    var f := Fold(mode, s);
    FoldKeepsAtSign(mode, s);
    FoldKeepsPostmaster(mode, s);
    assert CasePoint(mode, f) == CasePoint(mode, s);
    match CasePoint(mode, s)
    case None =>
    case Some(c) =>
      assert f[..c] == s[..c] && f[c..] == LowerAll(s[c..]);
      LowerAllFacts(s[c..], 0);
  }

  /** Appending one neutral character does not change how the rest folds. */
  lemma FoldAppend(mode: Byte, s: Str, c: Byte)
    requires Neutral(c) && c != '@'
    ensures Fold(mode, s + [c]) == Fold(mode, s) + [c]
  {
    CasePointAppend(mode, s, c);
    var p := CasePoint(mode, s);
    if p.Some? {
      assert (s + [c])[..p.value] == s[..p.value] && (s + [c])[p.value..] == s[p.value..] + [c];
      assert LowerAll(s[p.value..] + [c]) == LowerAll(s[p.value..]) + [c];
    }
  }

  lemma CasePointAppend(mode: Byte, s: Str, c: Byte)
    requires c != '@'
    ensures CasePoint(mode, s + [c]) == CasePoint(mode, s)
  {
    var t := s + [c];
    if mode == 'C' {
      var p := IndexOf(s, '@');
      assert t[..p] == s[..p];
      if p == |s| {
        IndexOfUnique(t, '@', |t|);
      } else {
        IndexOfUnique(t, '@', p);
        PostmasterAppend(s, c, p);
      }
    }
  }

  lemma PostmasterAppend(s: Str, c: Byte, p: nat)
    requires p < |s| && IndexOf(s, '@') == p
    ensures IsPostmaster(s + [c]) == IsPostmaster(s)
  {
    var t := s + [c];
    if |s| > 11 {
      PostmasterTake(t, s, |s|);
    } else if |s| == 11 {
      assert t[..11][p] == '@';
    }
  }

  lemma PostmasterTake(s: Str, t: Str, n: nat)
    requires 12 <= n <= |s| && t == s[..n]
    ensures IsPostmaster(t) == IsPostmaster(s)
  {
    assert t[11] == s[11] && t[1..11] == s[1..11] && t[..11] == s[..11];
  }

  lemma AtSignTake(s: Str, t: Str, n: nat, p: nat)
    requires n <= |s| && t == s[..n] && p == IndexOf(s, '@')
    ensures IndexOf(t, '@') == if p < n then p else n
  {
    if p < n {
      assert t[..p] == s[..p];
      IndexOfUnique(t, '@', p);
    } else {
      assert t == s[..p][..n];
      IndexOfUnique(t, '@', n);
    }
  }

  lemma CasePointTake(mode: Byte, s: Str, t: Str, n: nat)
    requires 12 <= n <= |s| && t == s[..n]
    ensures var c := CasePoint(mode, s); CasePoint(mode, t) == if c.Some? && c.value >= n then None else c
  {
    AtSignTake(s, t, n, IndexOf(s, '@'));
    PostmasterTake(s, t, n);
    if IsPostmaster(s) {
      IndexOfUnique(s, '@', 11);
    }
  }

  /** Twelve characters or more of a key fold alone as they do with what follows. */
  lemma FoldTake(mode: Byte, s: Str, n: nat)
    requires 12 <= n <= |s|
    ensures Fold(mode, s[..n]) == Fold(mode, s)[..n]
  {
    CasePointTake(mode, s, s[..n], n);
    match CasePoint(mode, s)
    case None =>
    case Some(c) =>
      if c < n {
        TakeFolded(s, n, c);
      } else {
        TakeBefore(s, n, c);
      }
  }

  lemma TakeBefore(s: Str, n: nat, c: nat)
    requires n <= c <= |s|
    ensures (s[..c] + LowerAll(s[c..]))[..n] == s[..n]
  {}

  lemma TakeFolded(s: Str, n: nat, c: nat)
    requires c <= n <= |s|
    ensures (s[..c] + LowerAll(s[c..]))[..n] == s[..n][..c] + LowerAll(s[..n][c..])
  {}

  // ----- the table-driven code

  const OFFSET: nat := 128
  const MAPSIZE: nat := 256 + OFFSET

  /** The value of a `char` on a machine where char is signed. */
  function Code(c: Byte): (i: int)
    ensures -128 <= i < 128
  {
    if c as int < 128 then c as int else c as int - 256
  }

  /** The table entry for a code: letters in lower case, and everything else as it is, as a char. */
  function LowerCode(i: int): int {
    if 65 <= i <= 90 then i + 32 else if i >= 128 then i - 256 else i
  }

  /** casencmp's notion of equality: up to n characters, but not past a NUL. */
  predicate SameFold(a: Str, b: Str, n: nat)
    requires n <= |a| && n <= |b|
  {
    if n == 0 then true
    else if a[0] == NUL || b[0] == NUL then a[0] == b[0]
    else Lower(a[0]) == Lower(b[0]) && SameFold(a[1..], b[1..], n - 1)
  }

  lemma LowerByCode(c: Byte, d: Byte)
    ensures LowerCode(Code(c)) == LowerCode(Code(d)) <==> Lower(c) == Lower(d)
    ensures LowerCode(Code(c)) == Code(Lower(c))
  {}

  /** casencmp's order: by mapped codes, with the end of a string below everything, even below negative codes. */
  function Collate(a: Str, b: Str, n: nat): int
    requires n <= |a| && n <= |b|
  {
    if n == 0 || (a[0] == NUL && b[0] == NUL) then 0
    else if a[0] == NUL then -1
    else if b[0] == NUL then 1
    else if Lower(a[0]) == Lower(b[0]) then Collate(a[1..], b[1..], n - 1)
    else LowerCode(Code(a[0])) - LowerCode(Code(b[0]))
  }

  /** The order is antisymmetric, and its equality is the folding one. */
  lemma {:induction false} CollateLaws(a: Str, b: Str, n: nat)
    requires n <= |a| && n <= |b|
    ensures Collate(b, a, n) == 0 - Collate(a, b, n)
    ensures Collate(a, b, n) == 0 <==> SameFold(a, b, n)
  {
    if n > 0 {
      CollateLaws(a[1..], b[1..], n - 1);
      LowerByCode(a[0], b[0]);
    }
  }

  lemma {:induction false} SameFoldIsLowerAll(a: Str, b: Str, n: nat)
    requires n <= |a| && n <= |b| && NUL !in b[..n]
    ensures SameFold(a, b, n) <==> LowerAll(a[..n]) == LowerAll(b[..n])
  {
    if n > 0 {
      assert b[..n] == [b[0]] + b[1..][..n - 1] && a[..n] == [a[0]] + a[1..][..n - 1];
      SameFoldIsLowerAll(a[1..], b[1..], n - 1);
      assert LowerAll(a[..n]) == [Lower(a[0])] + LowerAll(a[1..][..n - 1]);
      assert LowerAll(b[..n]) == [Lower(b[0])] + LowerAll(b[1..][..n - 1]);
      assert LowerAll(a[..n])[1..] == LowerAll(a[1..][..n - 1]);
      assert LowerAll(b[..n])[1..] == LowerAll(b[1..][..n - 1]);
      assert b[0] in b[..n];
    }
  }

  lemma OneMoreMapped(src: Str, c: nat, s: nat)
    requires c <= s < |src|
    ensures src[..c] + LowerAll(src[c..s]) + [Lower(src[s])] == src[..c] + LowerAll(src[c..s + 1])
  {
    assert LowerAll(src[c..s + 1]) == LowerAll(src[c..s]) + [Lower(src[s])];
  }

  class CaseTable {
    const cmap: array<int>
    var mprimed: bool

    ghost predicate Valid()
      reads this, cmap
    {
      && cmap.Length == MAPSIZE
      && (mprimed ==> forall i :: 0 <= i < MAPSIZE ==> cmap[i] == LowerCode(i - OFFSET))
      && (!mprimed ==> forall i :: 0 <= i < MAPSIZE ==> cmap[i] == 0)
    }

    constructor ()
      ensures Valid() && !mprimed && fresh(cmap)
    {
      cmap := new int[MAPSIZE](_ => 0);
      mprimed := false;
    }

    method MapPrime()
      requires Valid() && !mprimed
      modifies this, cmap
      ensures Valid() && mprimed
    {
      var lower, upper: Str := "abcdefghijklmnopqrstuvwxyz", "ABCDEFGHIJKLMNOPQRSTUVWXYZ";
      forall k | 0 <= k < 26
        ensures upper[k] as int == 65 + k && lower[k] as int == 97 + k
      {
        Alphabet(k);
      }
      for k := 0 to 26
        invariant forall i :: 0 <= i < MAPSIZE ==>
          cmap[i] == if 65 <= i - OFFSET < 65 + k || 97 <= i - OFFSET < 97 + k then LowerCode(i - OFFSET) else 0
      {
        var c := Code(lower[k]);
        cmap[c + OFFSET] := c;
        cmap[Code(upper[k]) + OFFSET] := c;
      }
      for i := 0 to MAPSIZE
        invariant forall k :: 0 <= k < i ==> cmap[k] == LowerCode(k - OFFSET)
        invariant forall k :: i <= k < MAPSIZE ==>
          cmap[k] == if 65 <= k - OFFSET < 91 || 97 <= k - OFFSET < 123 then LowerCode(k - OFFSET) else 0
      {
        if cmap[i] == 0 {
          cmap[i] := if i - OFFSET < 128 then i - OFFSET else i - OFFSET - 256;
        }
      }
      mprimed := true;
    }

    /** Compare up to len characters, whatever their case. */
    method CasenCmp(s1: Str, s2: Str, len: nat) returns (r: int)
      requires Valid() && len <= |s1| && len <= |s2|
      modifies this, cmap
      ensures Valid() && mprimed
      ensures r == Collate(s1, s2, len)
    {
      if !mprimed {
        MapPrime();
      }
      var n := 0;
      while n < len && s1[n] != NUL && cmap[Code(s1[n]) + OFFSET] == cmap[Code(s2[n]) + OFFSET]
        invariant n <= len && Valid() && mprimed
        invariant Collate(s1, s2, len) == Collate(s1[n..], s2[n..], len - n)
      {
        LowerByCode(s1[n], s2[n]);
        assert s1[n..][1..] == s1[n + 1..] && s2[n..][1..] == s2[n + 1..];
        n := n + 1;
      }
      if n == len {
        return 0;
      }
      LowerByCode(s1[n], s2[n]);
      if s1[n] == NUL && s2[n] == NUL {
        return 0;
      } else if s1[n] == NUL {
        return -1;
      } else if s2[n] == NUL {
        return 1;
      }
      return cmap[Code(s1[n]) + OFFSET] - cmap[Code(s2[n]) + OFFSET];
    }

    /** The answer is the same whether or not the table was primed before: an unprimed table makes the quick
        test of the first character succeed, and the full comparison then primes the table. */
    method CiPoint(mode: Byte, s: Str) returns (c: Option<nat>)
      requires Valid()
      modifies this, cmap
      ensures Valid()
      ensures c == CasePoint(mode, s)
    {
      if mode == 'C' {
        var p := IndexOf(s, '@');
        if |s| > 11 && s[11] == '@' && '@' !in s[..11] {
          IndexOfUnique(s, '@', 11);
        }
        if p == |s| {
          return None;
        }
        if p == |POST| + 1 && cmap[Code(s[1]) + OFFSET] == cmap[Code(POST[0]) + OFFSET] {
          assert s[..11] == s[..p];
          var r := CasenCmp(s[1..], POST, |POST|);
          CollateLaws(s[1..], POST, |POST|);
          SameFoldIsLowerAll(s[1..], POST, |POST|);
          assert s[1..][..10] == s[1..11] && POST[..10] == POST == LowerAll(POST);
          if r == 0 {
            return Some(0);
          }
        } else if p == |POST| + 1 {
          LowerByCode(s[1], POST[0]);
          assert LowerAll(s[1..11])[0] == Lower(s[1]) != POST[0];
        }
        return Some(p);
      }
      return if mode == '=' then Some(0) else None;
    }

    method MapCase(mode: Byte, src: Str) returns (dst: Str)
      requires Valid()
      modifies this, cmap
      ensures Valid()
      ensures dst == Fold(mode, src)
    {
      var c := CiPoint(mode, src);
      if c.None? {
        return src;
      }
      if !mprimed {
        MapPrime();
      }
      dst := [];
      var s := 0;
      while s < c.value
        invariant s <= c.value && dst == src[..s] && Valid() && mprimed
      {
        dst := dst + [src[s]];
        s := s + 1;
      }
      while s < |src|
        invariant c.value <= s <= |src| && Valid() && mprimed
        invariant dst == src[..c.value] + LowerAll(src[c.value..s])
      {
        var d := Mapped(src[s]);
        OneMoreMapped(src, c.value, s);
        dst := dst + [d];
        s := s + 1;
      }
      assert src[c.value..] == src[c.value..s];
    }

    /** Look a character up in the table. */
    method Mapped(c: Byte) returns (d: Byte)
      requires Valid() && mprimed
      ensures d == Lower(c)
    {
      LowerByCode(c, c);
      var low := cmap[Code(c) + OFFSET];
      d := if low < 0 then (low + 256) as char else low as char;
    }
  }

  lemma Alphabet(k: nat)
    requires k < 26
    ensures "ABCDEFGHIJKLMNOPQRSTUVWXYZ"[k] as int == 65 + k
    ensures "abcdefghijklmnopqrstuvwxyz"[k] as int == 97 + k
  {}
}
