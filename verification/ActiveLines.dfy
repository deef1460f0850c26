/** The active file line by line: which word of a line is which field of a group. */
module ActiveLines {
  import opened Text
  import opened Decimal
  import opened ActiveFile

  /** A word and the gap behind it. */
  datatype Span = Span(word: Str, gap: Str)

  /** A line with its newline, and the parts that it has. That of a group has four words with gaps between them, and
      behind the beginning of the fourth anything may follow. The others are passed over: lines with too few words and
      no gap behind the last, empty ones, and comments. */
  datatype ActLine =
    | GroupLine(text: Str, lead: Str, name: Str, gap1: Str, high: Str, gap2: Str, low: Str, gap3: Str, mode: Str)
    | ShortLine(text: Str, lead: Str, front: seq<Span>, last: Str)
    | OtherLine(text: Str)

  predicate IsGap(s: Str) {
    NEWLINE !in s && forall i :: 0 <= i < |s| ==> IsSpace(s[i])
  }

  predicate IsText(s: Str) {
    s != [] && forall i :: 0 <= i < |s| ==> !IsSpace(s[i])
  }

  /** A word with the gap behind it, and what follows. */
  function Words(word: Str, gap: Str, tail: Str): (s: Str)
    ensures |s| == |word| + |gap| + |tail|
  {
    word + (gap + tail)
  }

  function SpansText(front: seq<Span>, tail: Str): Str {
    if front == [] then tail else Words(front[0].word, front[0].gap, SpansText(front[1..], tail))
  }

  predicate SpanOk(s: Span) {
    IsText(s.word) && IsGap(s.gap) && s.gap != []
  }

  /** No line but a comment begins with a number sign. */
  predicate LineOk(l: ActLine) {
    match l
    case GroupLine(text, lead, name, gap1, high, gap2, low, gap3, mode) =>
      && text == lead + Words(name, gap1, Words(high, gap2, Words(low, gap3, mode + [NEWLINE])))
      && IsGap(lead) && IsGap(gap1) && IsGap(gap2) && IsGap(gap3) && gap1 != [] && gap2 != [] && gap3 != []
      && IsText(name) && IsText(high) && IsText(low) && mode != [] && !IsSpace(mode[0]) && NEWLINE !in mode
      && text[0] != '#'
    case ShortLine(text, lead, front, last) =>
      && text == lead + SpansText(front, last + [NEWLINE]) && text != [] && text[0] != '#'
      && IsGap(lead) && |front| <= 2 && (forall s :: s in front ==> SpanOk(s)) && IsText(last)
    case OtherLine(text) =>
      && text != [] && NEWLINE !in text[..|text| - 1] && text[|text| - 1] == NEWLINE
      && (text == [NEWLINE] || text[0] == '#')
  }

  predicate AllOk(lines: seq<ActLine>) {
    forall l :: l in lines ==> LineOk(l)
  }

  function AllText(lines: seq<ActLine>): Str {
    if lines == [] then [] else lines[0].text + AllText(lines[1..])
  }

  /** The positions of the words of a line, and of its end. */
  datatype Places = Places(name: nat, nameend: nat, high: nat, highend: nat, low: nat, lowend: nat, mode: nat, eol: nat)

  function PlacesOf(ptr: nat, l: ActLine): Places
    requires l.GroupLine?
  {
    var name := ptr + |l.lead|;
    var high := name + |l.name| + |l.gap1|;
    var low := high + |l.high| + |l.gap2|;
    var mode := low + |l.low| + |l.gap3|;
    Places(name, name + |l.name|, high, high + |l.high|, low, low + |l.low|, mode, mode + |l.mode|)
  }

  /** The group on a line that begins at ptr: where its four words are, the value of the second as its high mark and
      that of the third as its low mark. */
  function GroupOf(l: ActLine, ptr: nat): seq<Rc> {
    if !l.GroupLine? then []
    else
      var p := PlacesOf(ptr, l);
      [Rc(Fields(p.name, |l.name|, p.high, |l.high|, p.low, |l.low|, p.mode), Atol(l.high), Atol(l.low))]
  }

  function GroupsOf(lines: seq<ActLine>, ptr: nat): seq<Rc> {
    if lines == [] then [] else GroupOf(lines[0], ptr) + GroupsOf(lines[1..], ptr + |lines[0].text|)
  }

  // ----- skipping

  lemma GapAt(t: Str, c: seq<Class>, i: nat)
    requires HasShape(t, c) && i < |t|
    ensures Gap(c[i]) <==> IsSpace(t[i])
    ensures c[i] == Newline <==> t[i] == NEWLINE
  {
    assert c[i] == ClassAt(t, i);
  }

  lemma {:induction false} SkipsSpace(t: Str, c: seq<Class>, i: nat, j: nat)
    requires HasShape(t, c) && i <= j < |t| && !IsSpace(t[j]) && forall k :: i <= k < j ==> IsSpace(t[k])
    ensures SkipSpace(c, i) == j
    decreases j - i
  {
    GapAt(t, c, i);
    if i < j {
      SkipsSpace(t, c, i + 1, j);
    }
  }

  lemma {:induction false} SkipsWord(t: Str, c: seq<Class>, i: nat, j: nat)
    requires HasShape(t, c) && i <= j < |t| && IsSpace(t[j]) && forall k :: i <= k < j ==> !IsSpace(t[k])
    ensures SkipWord(c, i) == j
    decreases j - i
  {
    GapAt(t, c, i);
    if i < j {
      SkipsWord(t, c, i + 1, j);
    }
  }

  lemma {:induction false} EndsLine(t: Str, c: seq<Class>, i: nat, j: nat)
    requires HasShape(t, c) && i <= j < |t| && t[j] == NEWLINE && forall k :: i <= k < j ==> t[k] != NEWLINE
    ensures LineEnd(c, i) == j
    decreases j - i
  {
    GapAt(t, c, i);
    if i < j {
      EndsLine(t, c, i + 1, j);
    }
  }

  // ----- one line

  /** A word and the gap behind it: both begin where they ought to. */
  ghost predicate WordThenGap(t: Str, a: nat, b: nat, next: nat) {
    && a < b < next < |t| && !IsSpace(t[next])
    && (forall k :: a <= k < b ==> !IsSpace(t[k])) && (forall k :: b <= k < next ==> IsSpace(t[k]))
  }

  ghost predicate Stands(t: Str, ptr: nat, p: Places) {
    && ptr <= p.name < |t| && (forall k :: ptr <= k < p.name ==> IsSpace(t[k])) && !IsSpace(t[p.name])
    && WordThenGap(t, p.name, p.nameend, p.high) && WordThenGap(t, p.high, p.highend, p.low)
    && WordThenGap(t, p.low, p.lowend, p.mode) && p.mode < p.eol
  }

  function FieldsAt(p: Places): Fields
    requires p.name <= p.nameend && p.high <= p.highend && p.low <= p.lowend
  {
    Fields(p.name, p.nameend - p.name, p.high, p.highend - p.high, p.low, p.lowend - p.low, p.mode)
  }

  lemma NextWord(t: Str, c: seq<Class>, a: nat, b: nat, next: nat, eol: nat)
    requires HasShape(t, c) && WordThenGap(t, a, b, next) && next < eol
    ensures SkipWord(c, a + 1) == b && NextField(c, b, eol) == Some(next)
  {
    SkipsWord(t, c, a + 1, b);
    SkipsSpace(t, c, b + 1, next);
  }

  lemma ParsesNumbers(c: seq<Class>, p: Places)
    requires p.name <= p.nameend && p.high < p.highend && p.low < p.lowend
    requires NextField(c, p.nameend, p.eol) == Some(p.high) && SkipWord(c, p.high + 1) == p.highend
    requires NextField(c, p.highend, p.eol) == Some(p.low) && SkipWord(c, p.low + 1) == p.lowend
    requires NextField(c, p.lowend, p.eol) == Some(p.mode)
    ensures ParseNumbers(c, p.name, p.nameend, p.eol) == Some(FieldsAt(p))
  {}

  lemma ParsesName(t: Str, c: seq<Class>, ptr: nat, p: Places)
    requires HasShape(t, c) && Stands(t, ptr, p)
    ensures SkipSpace(c, ptr) == p.name
  {
    SkipsSpace(t, c, ptr, p.name);
  }

  lemma ParsesRest(c: seq<Class>, ptr: nat, p: Places)
    requires ptr <= |c| && SkipSpace(c, ptr) == p.name < |c| && p.name < p.nameend && p.name != p.eol
    requires SkipWord(c, p.name + 1) == p.nameend
    ensures ParseLine(c, ptr, p.eol) == ParseNumbers(c, p.name, p.nameend, p.eol)
  {}

  lemma ParsesLine(t: Str, c: seq<Class>, ptr: nat, p: Places)
    requires HasShape(t, c) && Stands(t, ptr, p)
    ensures ParseLine(c, ptr, p.eol) == Some(FieldsAt(p))
  {
    ParsesName(t, c, ptr, p);
    NextWord(t, c, p.name, p.nameend, p.high, p.eol);
    NextWord(t, c, p.high, p.highend, p.low, p.eol);
    NextWord(t, c, p.low, p.lowend, p.mode, p.eol);
    ParsesNumbers(c, p);
    ParsesRest(c, ptr, p);
  }

  /** The text goes on with a part from some position on. */
  ghost predicate Begins(t: Str, ptr: nat, s: Str) {
    ptr + |s| <= |t| && t[ptr..ptr + |s|] == s
  }

  lemma Peel(t: Str, ptr: nat, head: Str, tail: Str)
    requires Begins(t, ptr, head + tail)
    ensures Begins(t, ptr, head) && Begins(t, ptr + |head|, tail)
  {
    var s := head + tail;
    assert s[..|head|] == head && s[|head|..] == tail;
    assert t[ptr..ptr + |head|] == t[ptr..ptr + |s|][..|head|];
    assert t[ptr + |head|..ptr + |s|] == t[ptr..ptr + |s|][|head|..];
  }

  /** The parts of a line stand one behind the other. */
  ghost predicate Placed(t: Str, ptr: nat, p: Places, l: ActLine)
    requires l.GroupLine?
  {
    && p == PlacesOf(ptr, l)
    && Begins(t, ptr, l.lead) && Begins(t, p.name, l.name) && Begins(t, p.nameend, l.gap1)
    && Begins(t, p.high, l.high) && Begins(t, p.highend, l.gap2) && Begins(t, p.low, l.low)
    && Begins(t, p.lowend, l.gap3) && Begins(t, p.mode, l.mode) && Begins(t, p.eol, [NEWLINE])
  }

  lemma PeelWord(t: Str, ptr: nat, word: Str, gap: Str, tail: Str)
    requires Begins(t, ptr, Words(word, gap, tail))
    ensures Begins(t, ptr, word) && Begins(t, ptr + |word|, gap) && Begins(t, ptr + |word| + |gap|, tail)
  {
    Peel(t, ptr, word, gap + tail);
    Peel(t, ptr + |word|, gap, tail);
  }

  lemma NumbersFrom(t: Str, p: Places, l: ActLine, highText: Str, lowText: Str, tail: Str)
    requires l.GroupLine? && Begins(t, p.high, highText) && highText == Words(l.high, l.gap2, lowText)
    requires lowText == Words(l.low, l.gap3, tail) && tail == l.mode + [NEWLINE]
    requires p.highend == p.high + |l.high| && p.low == p.highend + |l.gap2|
    requires p.lowend == p.low + |l.low| && p.mode == p.lowend + |l.gap3| && p.eol == p.mode + |l.mode|
    ensures Begins(t, p.high, l.high) && Begins(t, p.highend, l.gap2) && Begins(t, p.low, l.low)
    ensures Begins(t, p.lowend, l.gap3) && Begins(t, p.mode, l.mode) && Begins(t, p.eol, [NEWLINE])
  {
    PeelWord(t, p.high, l.high, l.gap2, lowText);
    PeelWord(t, p.low, l.low, l.gap3, tail);
    Peel(t, p.mode, l.mode, [NEWLINE]);
  }

  lemma NameFrom(t: Str, ptr: nat, p: Places, l: ActLine, nameText: Str, highText: Str)
    requires l.GroupLine? && Begins(t, ptr, l.lead + nameText) && nameText == Words(l.name, l.gap1, highText)
    requires p.name == ptr + |l.lead| && p.nameend == p.name + |l.name| && p.high == p.nameend + |l.gap1|
    ensures Begins(t, ptr, l.lead) && Begins(t, p.name, l.name) && Begins(t, p.nameend, l.gap1)
    ensures Begins(t, p.high, highText)
  {
    Peel(t, ptr, l.lead, nameText);
    PeelWord(t, p.name, l.name, l.gap1, highText);
  }

  lemma PartsOfText(t: Str, ptr: nat, l: ActLine)
    requires l.GroupLine? && LineOk(l) && Begins(t, ptr, l.text)
    ensures Placed(t, ptr, PlacesOf(ptr, l), l) && ptr + |l.text| == PlacesOf(ptr, l).eol + 1
  {
    var tail: Str := l.mode + [NEWLINE];
    var lowText := Words(l.low, l.gap3, tail);
    var highText := Words(l.high, l.gap2, lowText);
    var p := PlacesOf(ptr, l);
    NameFrom(t, ptr, p, l, Words(l.name, l.gap1, highText), highText);
    NumbersFrom(t, p, l, highText, lowText, tail);
  }

  lemma PlacedStands(t: Str, ptr: nat, p: Places, l: ActLine)
    requires l.GroupLine? && LineOk(l) && Placed(t, ptr, p, l)
    ensures Stands(t, ptr, p)
  {
    PartIs(t, ptr, l.lead);
    PartIs(t, p.mode, l.mode);
    FirstOf(t, p.high, l.high);
    FirstOf(t, p.low, l.low);
    PlacedWord(t, p.name, p.nameend, p.high, l.name, l.gap1);
    PlacedWord(t, p.high, p.highend, p.low, l.high, l.gap2);
    PlacedWord(t, p.low, p.lowend, p.mode, l.low, l.gap3);
  }

  lemma FirstOf(t: Str, ptr: nat, word: Str)
    requires Begins(t, ptr, word) && IsText(word)
    ensures ptr < |t| && !IsSpace(t[ptr])
  {
    PartIs(t, ptr, word);
  }

  lemma PlacedWord(t: Str, ptr: nat, end: nat, next: nat, word: Str, gap: Str)
    requires Begins(t, ptr, word) && Begins(t, end, gap) && IsText(word) && IsGap(gap) && gap != []
    requires end == ptr + |word| && next == end + |gap| && next < |t| && !IsSpace(t[next])
    ensures WordThenGap(t, ptr, end, next) && !IsSpace(t[ptr])
  {
    PartIs(t, ptr, word);
    PartIs(t, end, gap);
  }

  lemma PlacedOnLine(t: Str, ptr: nat, p: Places, l: ActLine)
    requires l.GroupLine? && LineOk(l) && Placed(t, ptr, p, l)
    ensures ptr <= p.eol < |t| && t[p.eol] == NEWLINE && forall k :: ptr <= k < p.eol ==> t[k] != NEWLINE
  {
    PartIs(t, ptr, l.lead);
    WordOnLine(t, p.name, l.name, l.gap1);
    WordOnLine(t, p.high, l.high, l.gap2);
    WordOnLine(t, p.low, l.low, l.gap3);
    PartIs(t, p.mode, l.mode);
  }

  lemma WordOnLine(t: Str, ptr: nat, word: Str, gap: Str)
    requires Begins(t, ptr, word) && Begins(t, ptr + |word|, gap) && IsText(word) && IsGap(gap)
    ensures forall k :: ptr <= k < ptr + |word| + |gap| ==> t[k] != NEWLINE
  {
    PartIs(t, ptr, word);
    PartIs(t, ptr + |word|, gap);
  }

  /** What holds of a part holds where it stands. */
  lemma PartIs(t: Str, ptr: nat, s: Str)
    requires Begins(t, ptr, s)
    ensures IsGap(s) ==> forall k :: ptr <= k < ptr + |s| ==> IsSpace(t[k])
    ensures IsText(s) ==> forall k :: ptr <= k < ptr + |s| ==> !IsSpace(t[k])
    ensures NEWLINE !in s ==> forall k :: ptr <= k < ptr + |s| ==> t[k] != NEWLINE
  {
    assert forall k :: ptr <= k < ptr + |s| ==> t[k] == t[ptr..ptr + |s|][k - ptr] && s[k - ptr] in s;
  }

  // ----- the numbers

  lemma {:induction false} DigitsAlone(acc: nat, s: Str, rest: Str)
    requires rest == [] || !IsDigit(rest[0])
    ensures DigitsFrom(acc, s + rest) == DigitsFrom(acc, s)
    decreases |s|
  {
    if s == [] {
      assert s + rest == rest;
    } else {
      assert (s + rest)[1..] == s[1..] + rest;
      DigitsAlone(10 * acc + if IsDigit(s[0]) then s[0] as int - 48 else 0, s[1..], rest);
    }
  }

  /** A number ends with its word. */
  lemma AtolOfWord(t: Str, ptr: nat, word: Str)
    requires Begins(t, ptr, word) && IsText(word) && ptr + |word| < |t| && IsSpace(t[ptr + |word|])
    ensures Atol(t[ptr..]) == Atol(word)
  {
    var rest := t[ptr + |word|..];
    assert t[ptr..] == word + rest && rest[0] == t[ptr + |word|];
    assert word[0] == t[ptr..][0];
    assert t[ptr..][1..] == word[1..] + rest;
    DigitsAlone(0, word, rest);
    DigitsAlone(0, word[1..], rest);
  }

  // ----- all lines

  lemma OneGroup(t: Str, c: seq<Class>, ptr: nat, l: ActLine)
    requires HasShape(t, c) && l.GroupLine? && LineOk(l) && Begins(t, ptr, l.text)
    ensures ptr < |c| && LineEnd(c, ptr) == ptr + |l.text| - 1 < |c|
    ensures LineGroups(t, c, ptr, LineEnd(c, ptr)) == GroupOf(l, ptr)
  {
    var p := PlacesOf(ptr, l);
    PartsOfText(t, ptr, l);
    PlacedStands(t, ptr, p, l);
    PlacedOnLine(t, ptr, p, l);
    EndsLine(t, c, ptr, p.eol);
    ParsesLine(t, c, ptr, p);
    FirstIsNoNewline(l);
    NoComment(t, c, ptr, l.text);
    AtolOfWord(t, p.high, l.high);
    AtolOfWord(t, p.low, l.low);
  }

  lemma FirstIsNoNewline(l: ActLine)
    requires l.GroupLine? && LineOk(l)
    ensures l.text != [] && l.text[0] != NEWLINE
  {
    var rest := Words(l.high, l.gap2, Words(l.low, l.gap3, l.mode + [NEWLINE]));
    var words := Words(l.name, l.gap1, rest);
    assert words[0] == l.name[0];
    FirstOfText(l.lead, l.name, words, l.text);
  }

  lemma NoComment(t: Str, c: seq<Class>, ptr: nat, text: Str)
    requires HasShape(t, c) && Begins(t, ptr, text) && text != [] && text[0] != '#' && text[0] != NEWLINE
    ensures ptr < |c| && c[ptr] != Newline && c[ptr] != Comment
  {
    assert t[ptr] == t[ptr..ptr + |text|][0];
    assert c[ptr] == ClassAt(t, ptr);
  }

  lemma FirstOfText(lead: Str, word: Str, rest: Str, text: Str)
    requires text == lead + rest && rest != [] && word != [] && word[0] == rest[0] && IsText(word) && NEWLINE !in lead
    ensures text != [] && text[0] != NEWLINE
  {
    if lead != [] {
      assert text[0] == lead[0] && lead[0] in lead;
    } else {
      assert text == rest;
    }
  }

  // ----- a line with too few words

  lemma LastWord(t: Str, c: seq<Class>, a: nat, last: Str, eol: nat)
    requires HasShape(t, c) && Begins(t, a, last + [NEWLINE]) && IsText(last) && eol == a + |last|
    ensures eol < |t| && t[eol] == NEWLINE && SkipWord(c, a + 1) == eol && NextField(c, eol, eol) == None
    ensures a < eol && !IsSpace(t[a]) && forall k :: a <= k < eol ==> t[k] != NEWLINE
  {
    Peel(t, a, last, [NEWLINE]);
    PartIs(t, a, last);
    SkipsWord(t, c, a + 1, eol);
  }

  lemma WordBefore(t: Str, c: seq<Class>, a: nat, s: Span, rest: Str, next: nat, eol: nat)
    requires HasShape(t, c) && Begins(t, a, Words(s.word, s.gap, rest)) && SpanOk(s)
    requires rest != [] && !IsSpace(rest[0]) && next == a + |s.word| + |s.gap| && next < eol
    ensures Begins(t, next, rest) && !IsSpace(t[a])
    ensures SkipWord(c, a + 1) == a + |s.word| && NextField(c, a + |s.word|, eol) == Some(next)
    ensures forall k :: a <= k < next ==> t[k] != NEWLINE
  {
    PeelWord(t, a, s.word, s.gap, rest);
    assert t[next] == t[next..next + |rest|][0];
    PlacedWord(t, a, a + |s.word|, next, s.word, s.gap);
    WordOnLine(t, a, s.word, s.gap);
    NextWord(t, c, a, a + |s.word|, next, eol);
  }

  lemma NoThird(c: seq<Class>, name: nat, nameend: nat, high: nat, eol: nat)
    requires name <= nameend && NextField(c, nameend, eol) == Some(high)
    requires SkipWord(c, high + 1) == eol && NextField(c, eol, eol) == None
    ensures ParseNumbers(c, name, nameend, eol) == None
  {}

  lemma NoFourth(c: seq<Class>, name: nat, nameend: nat, high: nat, highend: nat, low: nat, eol: nat)
    requires name <= nameend && NextField(c, nameend, eol) == Some(high) && SkipWord(c, high + 1) == highend
    requires NextField(c, highend, eol) == Some(low) && SkipWord(c, low + 1) == eol && NextField(c, eol, eol) == None
    ensures ParseNumbers(c, name, nameend, eol) == None
  {}

  /** The words from some position on, to the end of the line, are too few for a group. */
  ghost predicate TooFew(t: Str, c: seq<Class>, a: nat, eol: nat) {
    && a < eol < |t| == |c| && t[eol] == NEWLINE && !IsSpace(t[a])
    && (forall k :: a <= k < eol ==> t[k] != NEWLINE)
    && ParseNumbers(c, a, SkipWord(c, a + 1), eol) == None
  }

  lemma OneWord(t: Str, c: seq<Class>, a: nat, last: Str, eol: nat)
    requires HasShape(t, c) && Begins(t, a, last + [NEWLINE]) && IsText(last) && eol == a + |last|
    ensures TooFew(t, c, a, eol)
  {
    LastWord(t, c, a, last, eol);
  }

  lemma LastTwo(t: Str, c: seq<Class>, a: nat, s: Span, b: nat, last: Str, eol: nat)
    requires HasShape(t, c) && Begins(t, a, Words(s.word, s.gap, last + [NEWLINE])) && SpanOk(s) && IsText(last)
    requires b == a + |s.word| + |s.gap| && eol == b + |last|
    ensures SkipWord(c, a + 1) == a + |s.word| && NextField(c, a + |s.word|, eol) == Some(b)
    ensures SkipWord(c, b + 1) == eol && NextField(c, eol, eol) == None
    ensures a < eol < |t| && t[eol] == NEWLINE && !IsSpace(t[a]) && forall k :: a <= k < eol ==> t[k] != NEWLINE
  {
    WordBefore(t, c, a, s, last + [NEWLINE], b, eol);
    LastWord(t, c, b, last, eol);
  }

  lemma TwoWords(t: Str, c: seq<Class>, a: nat, s: Span, b: nat, last: Str, eol: nat)
    requires HasShape(t, c) && Begins(t, a, Words(s.word, s.gap, last + [NEWLINE])) && SpanOk(s) && IsText(last)
    requires b == a + |s.word| + |s.gap| && eol == b + |last|
    ensures TooFew(t, c, a, eol)
  {
    LastTwo(t, c, a, s, b, last, eol);
    NoThird(c, a, a + |s.word|, b, eol);
  }

  lemma ThreeWords(t: Str, c: seq<Class>, a: nat, s: Span, b: nat, u: Span, d: nat, last: Str, more: Str, eol: nat)
    requires HasShape(t, c) && Begins(t, a, Words(s.word, s.gap, more))
    requires more == Words(u.word, u.gap, last + [NEWLINE])
    requires SpanOk(s) && SpanOk(u) && IsText(last)
    requires b == a + |s.word| + |s.gap| && d == b + |u.word| + |u.gap| && eol == d + |last|
    ensures TooFew(t, c, a, eol)
  {
    assert more[0] == u.word[0];
    WordBefore(t, c, a, s, more, b, eol);
    LastTwo(t, c, b, u, d, last, eol);
    NoFourth(c, a, a + |s.word|, b, b + |u.word|, d, eol);
  }

  lemma TooFewWords(t: Str, c: seq<Class>, a: nat, front: seq<Span>, last: Str, eol: nat)
    requires HasShape(t, c) && Begins(t, a, SpansText(front, last + [NEWLINE])) && IsText(last) && |front| <= 2
    requires (forall s :: s in front ==> SpanOk(s)) && eol + 1 == a + |SpansText(front, last + [NEWLINE])|
    ensures TooFew(t, c, a, eol)
  {
    var end := last + [NEWLINE];
    SpansOf(front, end);
    if front == [] {
      OneWord(t, c, a, last, eol);
    } else if |front| == 1 {
      TwoWords(t, c, a, front[0], eol - |last|, last, eol);
    } else {
      var d := eol - |last|;
      var more := Words(front[1].word, front[1].gap, end);
      ThreeWords(t, c, a, front[0], d - |front[1].gap| - |front[1].word|, front[1], d, last, more, eol);
    }
  }

  lemma SpansOf(front: seq<Span>, tail: Str)
    requires |front| <= 2
    ensures |front| == 1 ==> SpansText(front, tail) == Words(front[0].word, front[0].gap, tail)
    ensures |front| == 2 ==> SpansText(front, tail) == TwoSpans(front[0], front[1], tail)
  {
    if |front| == 2 {
      assert front[1..][0] == front[1] && front[1..][1..] == [];
    }
  }

  function TwoSpans(s: Span, u: Span, tail: Str): Str {
    Words(s.word, s.gap, Words(u.word, u.gap, tail))
  }

  lemma ShortGroup(t: Str, c: seq<Class>, ptr: nat, l: ActLine)
    requires HasShape(t, c) && l.ShortLine? && LineOk(l) && Begins(t, ptr, l.text)
    ensures ptr < |c| && LineEnd(c, ptr) == ptr + |l.text| - 1 < |c|
    ensures LineGroups(t, c, ptr, LineEnd(c, ptr)) == []
  {
    var rest := SpansText(l.front, l.last + [NEWLINE]);
    var a, eol := ptr + |l.lead|, ptr + |l.text| - 1;
    Peel(t, ptr, l.lead, rest);
    TooFewWords(t, c, a, l.front, l.last, eol);
    PartIs(t, ptr, l.lead);
    SkipsSpace(t, c, ptr, a);
    EndsLine(t, c, ptr, eol);
    NothingParsed(t, c, ptr, a, eol);
    assert t[ptr] == t[ptr..ptr + |l.text|][0];
    assert c[ptr] == ClassAt(t, ptr);
  }

  lemma NothingParsed(t: Str, c: seq<Class>, ptr: nat, a: nat, eol: nat)
    requires ptr <= |c| && SkipSpace(c, ptr) == a < |c| && a < eol
    requires ParseNumbers(c, a, SkipWord(c, a + 1), eol) == None
    ensures ParseLine(c, ptr, eol) == None
  {}

  lemma NoGroup(t: Str, c: seq<Class>, ptr: nat, l: ActLine)
    requires HasShape(t, c) && l.OtherLine? && LineOk(l) && Begins(t, ptr, l.text)
    requires ptr > 0 ==> t[ptr - 1] == NEWLINE
    ensures ptr < |c| && LineEnd(c, ptr) == ptr + |l.text| - 1 < |c|
    ensures LineGroups(t, c, ptr, LineEnd(c, ptr)) == []
  {
    var body := l.text[..|l.text| - 1];
    assert l.text == body + [NEWLINE];
    Peel(t, ptr, body, [NEWLINE]);
    PartIs(t, ptr, body);
    EndsLine(t, c, ptr, ptr + |body|);
    assert c[ptr] == ClassAt(t, ptr);
  }

  lemma AllTextStep(lines: seq<ActLine>)
    requires lines != []
    ensures AllText(lines) == lines[0].text + AllText(lines[1..])
  {}

  lemma TextStep(t: Str, ptr: nat, lines: seq<ActLine>)
    requires lines != [] && Begins(t, ptr, AllText(lines))
    ensures Begins(t, ptr, lines[0].text) && Begins(t, ptr + |lines[0].text|, AllText(lines[1..]))
    ensures |AllText(lines)| == |lines[0].text| + |AllText(lines[1..])|
  {
    AllTextStep(lines);
    var head, tail := lines[0].text, AllText(lines[1..]);
    Peel(t, ptr, head, tail);
  }

  /** From some position on, the text is that of the lines. */
  ghost predicate Ready(t: Str, c: seq<Class>, ptr: nat, lines: seq<ActLine>) {
    && HasShape(t, c) && AllOk(lines) && ptr + |AllText(lines)| == |t|
    && Begins(t, ptr, AllText(lines)) && (ptr > 0 ==> t[ptr - 1] == NEWLINE)
  }

  lemma FirstLine(t: Str, c: seq<Class>, ptr: nat, lines: seq<ActLine>)
    requires lines != [] && Ready(t, c, ptr, lines)
    ensures ptr < |c| && LineEnd(c, ptr) == ptr + |lines[0].text| - 1 < |c|
    ensures LineGroups(t, c, ptr, LineEnd(c, ptr)) == GroupOf(lines[0], ptr)
  {
    TextStep(t, ptr, lines);
    if lines[0].GroupLine? {
      OneGroup(t, c, ptr, lines[0]);
    } else if lines[0].ShortLine? {
      ShortGroup(t, c, ptr, lines[0]);
    } else {
      NoGroup(t, c, ptr, lines[0]);
    }
  }

  lemma NextReady(t: Str, c: seq<Class>, ptr: nat, lines: seq<ActLine>)
    requires lines != [] && Ready(t, c, ptr, lines)
    ensures Ready(t, c, ptr + |lines[0].text|, lines[1..])
  {
    TextStep(t, ptr, lines);
    FirstLine(t, c, ptr, lines);
    GapAt(t, c, LineEnd(c, ptr));
  }

  lemma GroupsStep(t: Str, c: seq<Class>, ptr: nat, next: nat, line: seq<Rc>)
    requires ptr < next <= |c| && LineEnd(c, ptr) == next - 1 && LineGroups(t, c, ptr, next - 1) == line
    ensures GroupsFrom(t, c, ptr) == line + GroupsFrom(t, c, next)
  {}

  lemma FirstStep(t: Str, c: seq<Class>, ptr: nat, next: nat, lines: seq<ActLine>)
    requires lines != [] && Ready(t, c, ptr, lines) && next == ptr + |lines[0].text| <= |c|
    ensures GroupsFrom(t, c, ptr) == GroupOf(lines[0], ptr) + GroupsFrom(t, c, next)
  {
    FirstLine(t, c, ptr, lines);
    GroupsStep(t, c, ptr, next, GroupOf(lines[0], ptr));
  }

  lemma OfStep(lines: seq<ActLine>, ptr: nat)
    requires lines != []
    ensures GroupsOf(lines, ptr) == GroupOf(lines[0], ptr) + GroupsOf(lines[1..], ptr + |lines[0].text|)
  {}

  lemma {:induction false} GroupsBehind(t: Str, c: seq<Class>, ptr: nat, lines: seq<ActLine>)
    requires Ready(t, c, ptr, lines)
    ensures GroupsFrom(t, c, ptr) == GroupsOf(lines, ptr)
    decreases |lines|
  {
    if lines != [] {
      var next := ptr + |lines[0].text|;
      NextReady(t, c, ptr, lines);
      GroupsBehind(t, c, next, lines[1..]);
      FirstStep(t, c, ptr, next, lines);
      OfStep(lines, ptr);
    }
  }

  /** Reading an active file that consists of such lines: one group for each line of a group, in their order, with its
      high mark from the second word and its low mark from the third. */
  lemma GroupsOfText(lines: seq<ActLine>)
    requires AllOk(lines)
    ensures Groups(AllText(lines)) == GroupsOf(lines, 0)
  {
    var t := AllText(lines);
    GroupsBehind(t, Shape(t), 0, lines);
  }
}
