/** Characters and strings as the C programs see them: `unsigned char` codes 0..255. */
module Text {
  type Byte = c: char | c as int < 256
  type Str = seq<Byte>

  const NUL: Byte := '\0'
  const NEWLINE: Byte := '\n'

  datatype Option<+T> = None | Some(value: T)

  /** The C library's strchr, with |s| for "not found". */
  function IndexOf(s: Str, c: Byte): (i: nat)
    ensures i <= |s|
    ensures i < |s| ==> s[i] == c
    ensures c !in s[..i]
  {
    if s == [] || s[0] == c then 0 else
      var i := 1 + IndexOf(s[1..], c);
      assert s[..i] == [s[0]] + s[1..][..i - 1];
      i
  }

  lemma {:induction false} IndexOfUnique(s: Str, c: Byte, i: nat)
    requires i <= |s| && c !in s[..i] && (i < |s| ==> s[i] == c)
    ensures IndexOf(s, c) == i
  {
    if i > 0 {
      assert s[0] == s[..i][0];
      assert s[..i] == [s[0]] + s[1..][..i - 1];
      IndexOfUnique(s[1..], c, i - 1);
    }
  }

  lemma Reassociate(a: Str, b: Str, c: Str)
    ensures (a + b) + c == a + (b + c)
  {}
}
