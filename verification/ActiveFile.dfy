/** The active file of the news puller: a line for each group, with numbers that are rewritten in place. */
module ActiveFile {
  import opened Text
  import opened Decimal
  import Arith

  /** Where the fields of a group are in the text. */
  datatype Fields = Fields(nameptr: nat, namelen: nat, highptr: nat, highlen: nat, lowptr: nat, lowlen: nat,
                           modeptr: nat)

  /** A group: its fields, and the numbers that were read there. */
  datatype Rc = Rc(at: Fields, high: int, low: int)

  // ----- updaterc

  /** The last digits of a number, with leading zeros. */
  function LastDigits(value: nat, len: nat): (s: Str)
    ensures |s| == len && forall i :: 0 <= i < len ==> IsDigit(s[i])
  {
    if len == 0 then [] else LastDigits(value / 10, len - 1) + [Digit(value % 10)]
  }

  function Patch(text: Str, ptr: nat, digits: Str): (r: Str)
    requires ptr + |digits| <= |text|
    ensures |r| == |text|
    ensures forall i :: 0 <= i < |text| ==> r[i] == if ptr <= i < ptr + |digits| then digits[i - ptr] else text[i]
  {
    text[..ptr] + digits + text[ptr + |digits|..]
  }

  /** Overwrite a field of the text with a number, from its last digit on. */
  method UpdateRc(act: array<Byte>, actptr: nat, len: nat, value: nat)
    requires actptr + len <= act.Length
    modifies act
    ensures act[..] == Patch(old(act[..]), actptr, LastDigits(value, len))
  {
    var left, v := len, value;
    ghost var digits: Str := [];  // what was written so far
    while left > 0
      invariant 0 <= left <= len && v >= 0 && |digits| == len - left
      invariant LastDigits(value, len) == LastDigits(v, left) + digits
      invariant act[..] == Patch(old(act[..]), actptr + left, digits)
    {
      left := left - 1;
      act[actptr + left] := Digit(v % 10);
      digits := [Digit(v % 10)] + digits;
      v := v / 10;
    }
  }

  /** The digits that stay are the number modulo a power of ten. */
  lemma {:induction false} LastDigitsValue(value: nat, len: nat)
    ensures DigitsFrom(0, LastDigits(value, len)) == value % Pow10(len)
    decreases len
  {
    if len > 0 {
      LastDigitsValue(value / 10, len - 1);
      DigitsSplit(0, LastDigits(value / 10, len - 1), [Digit(value % 10)]);
      OneDigit(DigitsFrom(0, LastDigits(value / 10, len - 1)), value % 10);
      Arith.DivideTwice(value, 10, Pow10(len - 1));
    }
  }

  lemma OneDigit(acc: nat, d: nat)
    requires d < 10
    ensures DigitsFrom(acc, [Digit(d)]) == 10 * acc + d
  {
    assert DigitsFrom(10 * acc + d, []) == 10 * acc + d;
  }

  // ----- initrcfiles

  /** What a character is to the parser. */
  datatype Class = Blank | Newline | Comment | Word

  function ClassAt(t: Str, i: nat): Class
    requires i < |t|
  {
    if t[i] == NEWLINE then Newline
    else if IsSpace(t[i]) then Blank
    else if t[i] == '#' && (i == 0 || t[i - 1] == NEWLINE) then Comment
    else Word
  }

  /** All that decides where the fields are. */
  function Shape(t: Str): (c: seq<Class>)
    ensures HasShape(t, c)
  {
    seq(|t|, i requires 0 <= i < |t| => ClassAt(t, i))
  }

  ghost predicate HasShape(t: Str, c: seq<Class>) {
    |c| == |t| && forall i {:trigger ClassAt(t, i)} :: 0 <= i < |t| ==> c[i] == ClassAt(t, i)
  }

  predicate Gap(c: Class) {
    c == Blank || c == Newline
  }

  function SkipSpace(c: seq<Class>, i: nat): (j: nat)
    requires i <= |c|
    ensures i <= j <= |c| && (j < |c| ==> !Gap(c[j])) && (i < j ==> Gap(c[j - 1]))
    decreases |c| - i
  {
    if i < |c| && Gap(c[i]) then SkipSpace(c, i + 1) else i
  }

  function SkipWord(c: seq<Class>, i: nat): (j: nat)
    requires i <= |c|
    ensures i <= j <= |c| && (j < |c| ==> Gap(c[j]))
    decreases |c| - i
  {
    if i < |c| && !Gap(c[i]) then SkipWord(c, i + 1) else i
  }

  function LineEnd(c: seq<Class>, i: nat): (j: nat)
    requires i <= |c|
    ensures i <= j <= |c| && (j < |c| ==> c[j] == Newline)
    decreases |c| - i
  {
    if i < |c| && c[i] != Newline then LineEnd(c, i + 1) else i
  }

  /** Where the next field begins, after one that ends at n; none when that is the end of the line. Blanks are skipped
      across newlines. */
  function NextField(c: seq<Class>, n: nat, eol: nat): (s: Option<nat>)
    ensures s.Some? ==> n < s.value < |c| && !Gap(c[s.value]) && (Gap(c[n]) ==> Gap(c[s.value - 1]))
  {
    if n == eol || n >= |c| then None
    else
      var s := SkipSpace(c, n + 1);
      if s == eol || s == |c| then None else Some(s)
  }

  function ParseLine(c: seq<Class>, ptr: nat, eol: nat): Option<Fields>
    requires ptr <= |c|
  {
    var n := SkipSpace(c, ptr);
    if n == eol || n == |c| then None
    else ParseNumbers(c, n, SkipWord(c, n + 1), eol)
  }

  function ParseNumbers(c: seq<Class>, name: nat, nameend: nat, eol: nat): Option<Fields>
    requires name <= nameend
  {
    var h := NextField(c, nameend, eol);
    if h == None then None
    else
      var highend := SkipWord(c, h.value + 1);
      var l := NextField(c, highend, eol);
      if l == None then None
      else
        var lowend := SkipWord(c, l.value + 1);
        var m := NextField(c, lowend, eol);
        if m == None then None
        else Some(Fields(name, nameend - name, h.value, highend - h.value, l.value, lowend - l.value, m.value))
  }

  predicate WordAt(c: seq<Class>, i: nat) {
    0 < i < |c| && Gap(c[i - 1]) && !Gap(c[i])
  }

  /** The numbers stand at the beginning of words. */
  predicate FieldsOk(c: seq<Class>, at: Fields) {
    WordAt(c, at.highptr) && WordAt(c, at.lowptr) && at.highptr + at.highlen <= |c| && at.lowptr + at.lowlen <= |c|
  }

  lemma LineIsOk(c: seq<Class>, ptr: nat, eol: nat)
    requires ptr <= |c| && ParseLine(c, ptr, eol) != None
    ensures FieldsOk(c, ParseLine(c, ptr, eol).value)
  {}

  function NumberAt(t: Str, i: nat): int {
    if i < |t| then Atol(t[i..]) else 0
  }

  /** The group on a line, if there is one; comments and empty lines are passed over. */
  function LineGroups(t: Str, c: seq<Class>, ptr: nat, eol: nat): seq<Rc>
    requires ptr < |c|
  {
    if c[ptr] == Newline || c[ptr] == Comment then []
    else
      match ParseLine(c, ptr, eol)
      case None => []
      case Some(at) => [Rc(at, NumberAt(t, at.highptr), NumberAt(t, at.lowptr))]
  }

  /** The groups on the lines from some position on. */
  function GroupsFrom(t: Str, c: seq<Class>, ptr: nat): seq<Rc>
    requires ptr <= |c|
    decreases |c| - ptr
  {
    var eol := LineEnd(c, ptr);
    if eol == |c| then [] else LineGroups(t, c, ptr, eol) + GroupsFrom(t, c, eol + 1)
  }

  /** The groups in a text. */
  function Groups(t: Str): seq<Rc> {
    GroupsFrom(t, Shape(t), 0)
  }

  method InitRcFiles(t: Str) returns (newsrc: seq<Rc>)
    ensures newsrc == Groups(t)
  {
    newsrc := ReadGroups(t, 0, Shape(t));
  }

  method ReadGroups(t: Str, start: nat, ghost c: seq<Class>) returns (newsrc: seq<Rc>)
    requires HasShape(t, c) && start <= |t| && (start == 0 || t[start - 1] == NEWLINE)
    ensures newsrc == GroupsFrom(t, c, start)
  {
    newsrc := [];
    var ptr: nat := start;
    ghost var all := GroupsFrom(t, c, start);
    assert [] + all == all;
    var actlistptr: nat := PassLine(t, ptr, c);
    while actlistptr < |t|
      invariant AtLine(t, c, ptr, actlistptr)
      invariant StillToCome(t, c, ptr, newsrc, all)
      decreases |t| - ptr
    {
      newsrc := TakeLine(t, ptr, actlistptr, c, newsrc, all);
      ptr, actlistptr := NextLine(t, ptr, actlistptr, c);
    }
    NoMore(t, c, ptr, newsrc, all);
  }

  /** What was read and what is still to come make up everything. */
  ghost predicate StillToCome(t: Str, c: seq<Class>, ptr: nat, newsrc: seq<Rc>, all: seq<Rc>) {
    exists rest :: ptr <= |c| && rest == GroupsFrom(t, c, ptr) && newsrc + rest == all
  }

  lemma NoMore(t: Str, c: seq<Class>, ptr: nat, newsrc: seq<Rc>, all: seq<Rc>)
    requires StillToCome(t, c, ptr, newsrc, all) && ptr <= |c| && LineEnd(c, ptr) == |c|
    ensures newsrc == all
  {}

  ghost predicate AtLine(t: Str, c: seq<Class>, ptr: nat, eol: nat)
    requires |c| == |t|
  {
    ptr <= |t| && eol == LineEnd(c, ptr) && (ptr == 0 || t[ptr - 1] == NEWLINE)
  }

  method NextLine(t: Str, ptr: nat, actlistptr: nat, ghost c: seq<Class>) returns (ptr': nat, actlistptr': nat)
    requires HasShape(t, c) && AtLine(t, c, ptr, actlistptr) && actlistptr < |t|
    ensures ptr' == actlistptr + 1 && AtLine(t, c, ptr', actlistptr')
  {
    assert ClassAt(t, actlistptr) == Newline;
    ptr' := actlistptr + 1;
    actlistptr' := PassLine(t, ptr', c);
  }

  method TakeLine(t: Str, ptr: nat, actlistptr: nat, ghost c: seq<Class>, newsrc: seq<Rc>, ghost all: seq<Rc>)
      returns (newsrc': seq<Rc>)
    requires HasShape(t, c) && AtLine(t, c, ptr, actlistptr) && actlistptr < |t| && StillToCome(t, c, ptr, newsrc, all)
    ensures StillToCome(t, c, actlistptr + 1, newsrc', all)
  {
    var line := ReadLine(t, ptr, actlistptr, c);
    Concatenate(newsrc, line, GroupsFrom(t, c, actlistptr + 1));
    newsrc' := newsrc + line;
  }

  lemma Concatenate(a: seq<Rc>, b: seq<Rc>, c: seq<Rc>)
    ensures (a + b) + c == a + (b + c)
  {}

  method ReadLine(t: Str, ptr: nat, actlistptr: nat, ghost c: seq<Class>) returns (line: seq<Rc>)
    requires HasShape(t, c) && ptr <= actlistptr < |t| && (ptr == 0 || t[ptr - 1] == NEWLINE)
    ensures line == LineGroups(t, c, ptr, actlistptr)
  {
    line := [];
    assert c[ptr] == ClassAt(t, ptr);
    if t[ptr] != NEWLINE && t[ptr] != '#' {
      var at := ReadFields(t, ptr, actlistptr, c);
      if at.Some? {
        LineIsOk(c, ptr, actlistptr);
        line := [Rc(at.value, Atol(t[at.value.highptr..]), Atol(t[at.value.lowptr..]))];
      }
    }
  }

  method ReadFields(t: Str, ptr: nat, actlistptr: nat, ghost c: seq<Class>) returns (at: Option<Fields>)
    requires HasShape(t, c) && ptr <= actlistptr < |t|
    ensures at == ParseLine(c, ptr, actlistptr)
  {
    at := None;
    var nptr := PassSpace(t, ptr, c);
    if nptr != actlistptr && nptr != |t| {
      var nameend := PassWord(t, nptr + 1, c);
      at := ReadNumbers(t, nptr, nameend, actlistptr, c);
    }
  }

  method ReadNumbers(t: Str, name: nat, nameend: nat, actlistptr: nat, ghost c: seq<Class>) returns (at: Option<Fields>)
    requires HasShape(t, c) && name <= nameend
    ensures at == ParseNumbers(c, name, nameend, actlistptr)
  {
    at := None;
    var more, highptr, highend := Advance(t, nameend, actlistptr, c);
    if more {
      var lowptr, lowend;
      more, lowptr, lowend := Advance(t, highend, actlistptr, c);
      if more {
        var modeptr, modeend;
        more, modeptr, modeend := Advance(t, lowend, actlistptr, c);
        if more {
          at := Some(Fields(name, nameend - name, highptr, highend - highptr, lowptr, lowend - lowptr, modeptr));
        }
      }
    }
  }

  /** Go on to the next field, if there is one before the end of the line, and to its end. */
  method Advance(t: Str, nptr: nat, actlistptr: nat, ghost c: seq<Class>) returns (more: bool, start: nat, end: nat)
    requires HasShape(t, c)
    ensures NextField(c, nptr, actlistptr) == if more then Some(start) else None
    ensures more ==> start < |t| && end == SkipWord(c, start + 1)
  {
    if nptr == actlistptr || nptr >= |t| {
      return false, nptr, nptr;
    }
    start := PassSpace(t, nptr + 1, c);
    more, end := start != actlistptr && start != |t|, start;
    if more {
      end := PassWord(t, start + 1, c);
    }
  }

  method PassSpace(t: Str, i: nat, ghost c: seq<Class>) returns (j: nat)
    requires HasShape(t, c) && i <= |t|
    ensures j == SkipSpace(c, i)
  {
    j := i;
    while j < |t| && IsSpace(t[j])
      invariant i <= j <= |t| && SkipSpace(c, j) == SkipSpace(c, i)
    {
      assert c[j] == ClassAt(t, j);
      j := j + 1;
    }
    assert j < |t| ==> c[j] == ClassAt(t, j);
  }

  method PassWord(t: Str, i: nat, ghost c: seq<Class>) returns (j: nat)
    requires HasShape(t, c) && i <= |t|
    ensures j == SkipWord(c, i)
  {
    j := i;
    while j < |t| && !IsSpace(t[j])
      invariant i <= j <= |t| && SkipWord(c, j) == SkipWord(c, i)
    {
      assert c[j] == ClassAt(t, j);
      j := j + 1;
    }
    assert j < |t| ==> c[j] == ClassAt(t, j);
  }

  /** strchr: the end of a line. */
  method PassLine(t: Str, i: nat, ghost c: seq<Class>) returns (j: nat)
    requires HasShape(t, c) && i <= |t|
    ensures j == LineEnd(c, i)
  {
    j := i;
    while j < |t| && t[j] != NEWLINE
      invariant i <= j <= |t| && LineEnd(c, j) == LineEnd(c, i)
    {
      assert c[j] == ClassAt(t, j);
      j := j + 1;
    }
    assert j < |t| ==> c[j] == ClassAt(t, j);
  }

  // ----- reading back what was rewritten

  /** A word of the text that does not begin a line. */
  predicate IsField(t: Str, a: nat, b: nat) {
    && 0 < a < b <= |t| && IsSpace(t[a - 1]) && t[a - 1] != NEWLINE
    && (b < |t| ==> IsSpace(t[b])) && forall i :: a <= i < b ==> !IsSpace(t[i])
  }

  /** Two texts that differ in one word only, which has the same length. */
  ghost predicate Alike(t: Str, u: Str, a: nat, b: nat) {
    && |t| == |u| && IsField(t, a, b) && IsField(u, a, b)
    && forall i :: 0 <= i < |t| && !(a <= i < b) ==> u[i] == t[i]
  }

  lemma SameShape(t: Str, u: Str, a: nat, b: nat)
    requires Alike(t, u, a, b)
    ensures Shape(u) == Shape(t)
  {
    forall i | 0 <= i < |t|
      ensures ClassAt(u, i) == ClassAt(t, i)
    {
      if a < i <= b {
        assert !IsSpace(t[i - 1]) && !IsSpace(u[i - 1]);
      }
    }
  }

  lemma {:induction false} DigitsStop(acc: nat, s: Str, s': Str, k: nat)
    requires k < |s| && k < |s'| && s[..k + 1] == s'[..k + 1] && !IsDigit(s[k])
    ensures DigitsFrom(acc, s) == DigitsFrom(acc, s')
    decreases k
  {
    assert s[0] == s[..k + 1][0] && s'[0] == s'[..k + 1][0];
    if k > 0 && IsDigit(s[0]) {
      assert s[1..][..k] == s[..k + 1][1..] && s'[1..][..k] == s'[..k + 1][1..];
      DigitsStop(10 * acc + (s[0] as int - 48), s[1..], s'[1..], k - 1);
    }
  }

  /** A number ends with its word. */
  lemma AtolStops(s: Str, s': Str, k: nat)
    requires 0 < k < |s| && k < |s'| && s[..k + 1] == s'[..k + 1] && IsSpace(s[k]) && !IsSpace(s[0])
    ensures Atol(s) == Atol(s')
  {
    assert s[0] == s[..k + 1][0] && s'[0] == s'[..k + 1][0];
    assert s[1..][..k] == s[..k + 1][1..] && s'[1..][..k] == s'[..k + 1][1..];
    DigitsStop(0, s, s', k);
    DigitsStop(0, s[1..], s'[1..], k - 1);
  }

  /** A number that begins elsewhere is the old one. */
  lemma OtherNumber(t: Str, u: Str, a: nat, b: nat, h: nat)
    requires Alike(t, u, a, b) && 0 < h < |t| && IsSpace(t[h - 1]) && !IsSpace(t[h]) && h != a
    ensures Atol(u[h..]) == Atol(t[h..])
  {
    if h < a {
      assert u[h..][..a - h] == t[h..][..a - h];
      AtolStops(t[h..], u[h..], a - 1 - h);
    } else {
      assert h >= b;
      assert u[h..] == t[h..];
    }
  }

  /** The field itself has the new number. */
  lemma NewNumber(u: Str, a: nat, b: nat, value: nat)
    requires IsField(u, a, b) && u[a..b] == LastDigits(value, b - a)
    ensures Atol(u[a..]) == value % Pow10(b - a)
  {
    var d := LastDigits(value, b - a);
    assert u[a] == u[a..b][0] && IsDigit(d[0]);
    assert u[a..] == d + u[b..];
    AtolOfDigits(u[a..]);
    DigitsSplit(0, d, u[b..]);
    LastDigitsValue(value, b - a);
    if b < |u| {
      assert u[b..][0] == u[b];
    }
  }

  function Patched(r: Rc, a: nat, v: int): Rc {
    r.(high := if r.at.highptr == a then v else r.high, low := if r.at.lowptr == a then v else r.low)
  }

  function PatchedAll(rs: seq<Rc>, a: nat, v: int): (r: seq<Rc>)
    ensures |r| == |rs| && forall i :: 0 <= i < |rs| ==> r[i] == Patched(rs[i], a, v)
  {
    seq(|rs|, i requires 0 <= i < |rs| => Patched(rs[i], a, v))
  }

  lemma PatchedConcat(x: seq<Rc>, y: seq<Rc>, a: nat, v: int)
    ensures PatchedAll(x + y, a, v) == PatchedAll(x, a, v) + PatchedAll(y, a, v)
  {}

  lemma SameNumber(t: Str, u: Str, c: seq<Class>, a: nat, b: nat, v: int, h: nat)
    requires Alike(t, u, a, b) && HasShape(t, c) && NumberAt(u, a) == v && WordAt(c, h)
    ensures NumberAt(u, h) == if h == a then v else NumberAt(t, h)
  {
    assert c[h] == ClassAt(t, h) && c[h - 1] == ClassAt(t, h - 1);
    if h != a {
      OtherNumber(t, u, a, b, h);
    }
  }

  lemma SameLine(t: Str, u: Str, c: seq<Class>, a: nat, b: nat, v: int, ptr: nat, eol: nat)
    requires Alike(t, u, a, b) && HasShape(t, c) && NumberAt(u, a) == v && ptr < |c|
    ensures LineGroups(u, c, ptr, eol) == PatchedAll(LineGroups(t, c, ptr, eol), a, v)
  {
    var at := ParseLine(c, ptr, eol);
    if at.Some? {
      LineIsOk(c, ptr, eol);
      SameNumber(t, u, c, a, b, v, at.value.highptr);
      SameNumber(t, u, c, a, b, v, at.value.lowptr);
    }
  }

  lemma {:induction false} RereadFrom(t: Str, u: Str, c: seq<Class>, a: nat, b: nat, v: int, ptr: nat)
    requires Alike(t, u, a, b) && HasShape(t, c) && NumberAt(u, a) == v && ptr <= |c|
    ensures GroupsFrom(u, c, ptr) == PatchedAll(GroupsFrom(t, c, ptr), a, v)
    decreases |c| - ptr
  {
    var eol := LineEnd(c, ptr);
    if eol < |c| {
      RereadFrom(t, u, c, a, b, v, eol + 1);
      SameLine(t, u, c, a, b, v, ptr, eol);
      PatchedConcat(LineGroups(t, c, ptr, eol), GroupsFrom(t, c, eol + 1), a, v);
    }
  }

  /** Reading the text again after updaterc rewrote a field gives the same groups, with the new number in that field,
      as far as it fits. */
  lemma Reread(t: Str, a: nat, b: nat, value: nat)
    requires IsField(t, a, b)
    ensures var u := Patch(t, a, LastDigits(value, b - a));
            Alike(t, u, a, b) && Groups(u) == PatchedAll(Groups(t), a, value % Pow10(b - a))
  {
    var d := LastDigits(value, b - a);
    var u := Patch(t, a, d);
    assert u[a..b] == d;
    assert forall i :: a <= i < b ==> u[i] == d[i - a];
    NewNumber(u, a, b, value);
    SameShape(t, u, a, b);
    RereadFrom(t, u, Shape(t), a, b, value % Pow10(b - a), 0);
  }

  // ----- the fields of a parsed group

  ghost predicate IsWord(c: seq<Class>, a: nat, b: nat) {
    0 < a < b <= |c| && Gap(c[a - 1]) && (b < |c| ==> Gap(c[b])) && forall i :: a <= i < b ==> !Gap(c[i])
  }

  lemma {:induction false} SkipWordInside(c: seq<Class>, i: nat)
    requires i <= |c|
    ensures forall k :: i <= k < SkipWord(c, i) ==> !Gap(c[k])
    decreases |c| - i
  {
    if i < |c| && !Gap(c[i]) {
      SkipWordInside(c, i + 1);
    }
  }

  lemma NumbersAreWords(c: seq<Class>, name: nat, nameend: nat, eol: nat)
    requires name <= nameend && (nameend < |c| ==> Gap(c[nameend])) && ParseNumbers(c, name, nameend, eol) != None
    ensures var at := ParseNumbers(c, name, nameend, eol).value;
            IsWord(c, at.highptr, at.highptr + at.highlen) && IsWord(c, at.lowptr, at.lowptr + at.lowlen)
  {
    var at := ParseNumbers(c, name, nameend, eol).value;
    SkipWordInside(c, at.highptr + 1);
    SkipWordInside(c, at.lowptr + 1);
  }

  ghost predicate NumbersStand(c: seq<Class>, at: Fields) {
    IsWord(c, at.highptr, at.highptr + at.highlen) && IsWord(c, at.lowptr, at.lowptr + at.lowlen)
  }

  lemma LineIsWords(c: seq<Class>, ptr: nat, eol: nat)
    requires ptr <= |c| && ParseLine(c, ptr, eol) != None
    ensures NumbersStand(c, ParseLine(c, ptr, eol).value)
  {
    var n := SkipSpace(c, ptr);
    NumbersAreWords(c, n, SkipWord(c, n + 1), eol);
  }

  lemma {:induction false} GroupsAreWords(t: Str, c: seq<Class>, ptr: nat)
    requires ptr <= |c|
    ensures forall r :: r in GroupsFrom(t, c, ptr) ==> NumbersStand(c, r.at)
    decreases |c| - ptr
  {
    var eol := LineEnd(c, ptr);
    if eol < |c| {
      if ParseLine(c, ptr, eol) != None {
        LineIsWords(c, ptr, eol);
      }
      GroupsAreWords(t, c, eol + 1);
    }
  }

  /** A number that was read stands in a field, unless it begins a line. */
  lemma NumberIsField(t: Str, a: nat, b: nat)
    requires IsWord(Shape(t), a, b)
    ensures IsField(t, a, b) <==> t[a - 1] != NEWLINE
  {
    var c := Shape(t);
    assert c[a - 1] == ClassAt(t, a - 1) && (b < |t| ==> c[b] == ClassAt(t, b));
    forall i | a <= i < b
      ensures !IsSpace(t[i])
    {
      assert c[i] == ClassAt(t, i);
    }
  }

  lemma HighIsField(t: Str, i: nat)
    requires i < |Groups(t)|
    ensures var at := Groups(t)[i].at;
            && 0 < at.highptr < at.highptr + at.highlen <= |t|
            && (IsField(t, at.highptr, at.highptr + at.highlen) <==> t[at.highptr - 1] != NEWLINE)
  {
    var r := Groups(t)[i];
    GroupsAreWords(t, Shape(t), 0);
    assert r in Groups(t);
    NumberIsField(t, r.at.highptr, r.at.highptr + r.at.highlen);
  }

  /** updaterc and initrcfiles are a round trip exactly for the numbers that fit their field. */
  lemma RewriteRoundTrip(t: Str, i: nat, value: nat, u: Str)
    requires i < |Groups(t)|
    requires var at := Groups(t)[i].at;
             && 0 < at.highptr && at.highptr + at.highlen <= |t| && t[at.highptr - 1] != NEWLINE
             && u == Patch(t, at.highptr, LastDigits(value, at.highlen))
    ensures |Groups(u)| == |Groups(t)|
    ensures Groups(u)[i].high == value <==> value < Pow10(Groups(t)[i].at.highlen)
  {
    HighIsField(t, i);
    Reread(t, Groups(t)[i].at.highptr, Groups(t)[i].at.highptr + Groups(t)[i].at.highlen, value);
    ModIsSelf(value, Pow10(Groups(t)[i].at.highlen));
  }

  lemma ModIsSelf(value: nat, p: nat)
    requires p > 0
    ensures value % p == value <==> value < p
  {}
}
