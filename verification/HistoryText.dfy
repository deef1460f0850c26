/** The history file as text: one line per article, its key and a tab first. The reference for a lookup is a scan of
    this text from the top. */
module HistoryText {
  import opened Text
  import opened Words
  import opened Probe
  import opened StoreLog
  import Lookup

  const HIS_FIELDSEP: Byte := '\t'
  /** A line has to fit the buffer of HISfilesfor. */
  const LEN: nat := 1024

  datatype Line = Line(key: Str, rest: Str)

  predicate LineOk(l: Line) {
    && l.key != [] && HIS_FIELDSEP !in l.key && NEWLINE !in l.key && NUL !in l.key
    && NEWLINE !in l.rest && NUL !in l.rest
    && |l.key| + |l.rest| + 2 <= LEN - 1
  }

  ghost predicate LinesOk(lines: seq<Line>) {
    forall l :: l in lines ==> LineOk(l)
  }

  function LineText(l: Line): Str {
    l.key + [HIS_FIELDSEP] + l.rest + [NEWLINE]
  }

  function Render(lines: seq<Line>): Str {
    if lines == [] then [] else Render(lines[..|lines| - 1]) + LineText(lines[|lines| - 1])
  }

  // ----- the reference: a linear scan of the text

  /** What follows the tab in the first line whose key is this one. */
  function Scan(text: Str, key: Str): Option<Str>
    decreases |text|
  {
    var n := IndexOf(text, NEWLINE);
    if n == |text| then None
    else
      var t := IndexOf(text[..n], HIS_FIELDSEP);
      if t < n && text[..t] == key then Some(text[t + 1..n]) else Scan(text[n + 1..], key)
  }

  function FirstLine(lines: seq<Line>, key: Str): Option<Str> {
    if lines == [] then None
    else
      var r := FirstLine(lines[..|lines| - 1], key);
      var l := lines[|lines| - 1];
      if r.Some? then r else if l.key == key then Some(l.rest) else None
  }

  lemma {:induction false} ScanSplits(x: Str, y: Str, key: Str)
    requires x == [] || x[|x| - 1] == NEWLINE
    ensures Scan(x + y, key) == if Scan(x, key).Some? then Scan(x, key) else Scan(y, key)
    decreases |x|
  {
    if x == [] {
      assert x + y == y;
    } else {
      var n := IndexOf(x, NEWLINE);
      assert x[|x| - 1] in x && x[..|x|] == x;
      assert (x + y)[..n] == x[..n];
      IndexOfUnique(x + y, NEWLINE, n);
      assert (x + y)[n + 1..] == x[n + 1..] + y;
      ScanSplits(x[n + 1..], y, key);
      ScanStep(x, n, key);
      ScanStep(x + y, n, key);
    }
  }

  /** Looking at the first line only. */
  function HeadOf(line: Str, key: Str): Option<Str> {
    var t := IndexOf(line, HIS_FIELDSEP);
    if t < |line| && line[..t] == key then Some(line[t + 1..]) else None
  }

  lemma ScanStep(s: Str, n: nat, key: Str)
    requires n < |s| && IndexOf(s, NEWLINE) == n
    ensures Scan(s, key) == if HeadOf(s[..n], key).Some? then HeadOf(s[..n], key) else Scan(s[n + 1..], key)
  {
    var t := IndexOf(s[..n], HIS_FIELDSEP);
    assert s[..n][..t] == s[..t];
    if t < n {
      assert s[..n][t + 1..] == s[t + 1..n];
    }
  }

  lemma ScanLine(l: Line, key: Str)
    requires LineOk(l)
    ensures Scan(LineText(l), key) == if l.key == key then Some(l.rest) else None
  {
    var s := LineText(l);
    var n := |s| - 1;
    assert s[..n] == l.key + [HIS_FIELDSEP] + l.rest;
    IndexOfUnique(s, NEWLINE, n);
    assert s[..n][..|l.key|] == l.key;
    IndexOfUnique(s[..n], HIS_FIELDSEP, |l.key|);
    assert s[..|l.key|] == l.key && s[|l.key| + 1..n] == l.rest && s[n + 1..] == [];
  }

  /** Scanning the text is looking through the lines. */
  lemma {:induction false} ScanIsFirstLine(lines: seq<Line>, key: Str)
    requires LinesOk(lines)
    ensures Scan(Render(lines), key) == FirstLine(lines, key)
  {
    if lines != [] {
      var front, l := lines[..|lines| - 1], lines[|lines| - 1];
      ScanIsFirstLine(front, key);
      RenderEnds(front);
      ScanSplits(Render(front), LineText(l), key);
      ScanLine(l, key);
    }
  }

  lemma {:induction false} RenderEnds(lines: seq<Line>)
    ensures Render(lines) == [] || Render(lines)[|Render(lines)| - 1] == NEWLINE
  {}

  /** No key is on two indexed lines. */
  ghost predicate DistinctKeys(lines: seq<Line>) {
    forall i, j :: 0 <= i < j < |lines| && |lines[i].key| < DBZMAXKEY ==> lines[i].key != lines[j].key
  }

  // ----- the stores that go with the text

  /** Every line was stored at its offset, except those with keys that are too long. */
  function LogOf(lines: seq<Line>): seq<Entry> {
    if lines == [] then []
    else
      var front, l := lines[..|lines| - 1], lines[|lines| - 1];
      if |l.key| < DBZMAXKEY then LogOf(front) + [Entry(l.key, |Render(front)|)] else LogOf(front)
  }

  lemma RenderOneMore(lines: seq<Line>, l: Line)
    ensures Render(lines + [l]) == Render(lines) + LineText(l)
    ensures LogOf(lines + [l])
         == if |l.key| < DBZMAXKEY then LogOf(lines) + [Entry(l.key, |Render(lines)|)] else LogOf(lines)
    ensures forall k :: FirstLine(lines + [l], k) ==
                        if FirstLine(lines, k).Some? then FirstLine(lines, k)
                        else if l.key == k then Some(l.rest) else None
  {
    assert (lines + [l])[..|lines|] == lines;
  }

  /** No case mapping and no tags, and the tab as separator: how the history makes its database. */
  ghost predicate HistoryLayout(lay: Layout) {
    lay.casemap == '0' && lay.fieldsep == HIS_FIELDSEP && lay.coding.taghere == 0
  }

  /** Every history text is in order for its database. */
  lemma {:induction false} HistoryIsRecorded(lay: Layout, lines: seq<Line>)
    requires HistoryLayout(lay) && LinesOk(lines)
    ensures Recorded(lay, Render(lines), LogOf(lines))
    ensures forall e :: e in LogOf(lines) ==> e.value < |Render(lines)| && !EndsInNul(e.key) && 0 < |e.key| < DBZMAXKEY
  {
    if lines != [] {
      var front, l := lines[..|lines| - 1], lines[|lines| - 1];
      HistoryIsRecorded(lay, front);
      assert l in lines && forall m :: m in front ==> m in lines;
      AppendKeepsRecorded(lay, Render(front), LineText(l), LogOf(front));
      if |l.key| < DBZMAXKEY {
        NewRecord(lay, Render(front), l);
        RecordedOneMore(lay, Render(lines), LogOf(front), Entry(l.key, |Render(front)|));
      }
    }
  }

  lemma NewRecord(lay: Layout, text: Str, l: Line)
    requires HistoryLayout(lay) && LineOk(l) && |l.key| < DBZMAXKEY
    ensures var e := Entry(l.key, |text|);
            KeyOk(lay, l.key) && RecordAt(lay, text + LineText(l), e) && !EndsInNul(l.key)
  {
    var base := text + LineText(l);
    assert base[|text|..|text| + |l.key|] == l.key;
    assert !EndsInNul(l.key);
  }

  lemma RecordedOneMore(lay: Layout, base: Str, log: seq<Entry>, e: Entry)
    requires Recorded(lay, base, log) && KeyOk(lay, e.key) && RecordAt(lay, base, e)
    requires forall f :: f in log ==> f.value < e.value
    ensures Recorded(lay, base, log + [e])
  {
    var log' := log + [e];
    forall j | 0 <= j < |log'|
      ensures KeyOk(lay, log'[j].key) && RecordAt(lay, base, log'[j])
    {
      assert j < |log| ==> log'[j] == log[j];
    }
    forall i, j | 0 <= i < j < |log'|
      ensures log'[i].value < log'[j].value
    {
      assert log'[i] == log[i] && log[i] in log;
    }
  }

  /** The line that begins at an offset. */
  ghost predicate LineAt(text: Str, offset: nat, l: Line) {
    offset + |LineText(l)| <= |text| && text[offset..offset + |LineText(l)|] == LineText(l)
  }

  /** Every stored offset is the beginning of a line with that key. */
  lemma {:induction false} StoredLine(lines: seq<Line>, e: Entry) returns (l: Line)
    requires e in LogOf(lines)
    ensures l in lines && l.key == e.key && LineAt(Render(lines), e.value, l)
  {
    var front, last := lines[..|lines| - 1], lines[|lines| - 1];
    if e in LogOf(front) {
      l := StoredLine(front, e);
      LineStaysAt(Render(front), LineText(last), e.value, l);
    } else {
      l := last;
    }
  }

  /** A key is in the log when it is the key of a line. */
  lemma {:induction false} StoredIffLine(lines: seq<Line>, key: Str)
    requires |key| < DBZMAXKEY
    ensures FirstValue(LogOf(lines), key) == None <==> FirstLine(lines, key) == None
  {
    if lines != [] {
      var front, last := lines[..|lines| - 1], lines[|lines| - 1];
      StoredIffLine(front, key);
      FirstValueOneMore(LogOf(front), Entry(last.key, |Render(front)|), key);
    }
  }

  /** The first store of a key points to the first line with that key. */
  lemma {:induction false} FirstStoreIsFirstLine(lines: seq<Line>, key: Str) returns (l: Line)
    requires |key| < DBZMAXKEY && FirstValue(LogOf(lines), key) != None
    ensures LineAt(Render(lines), FirstValue(LogOf(lines), key).value, l)
    ensures l in lines && l.key == key && FirstLine(lines, key) == Some(l.rest)
  {
    var front, last := lines[..|lines| - 1], lines[|lines| - 1];
    var s := Render(front);
    FirstValueOneMore(LogOf(front), Entry(last.key, |s|), key);
    StoredIffLine(front, key);
    if FirstValue(LogOf(front), key).Some? {
      l := FirstStoreIsFirstLine(front, key);
      LineStaysAt(s, LineText(last), FirstValue(LogOf(front), key).value, l);
    } else {
      l := last;
    }
  }

  lemma LineStaysAt(text: Str, more: Str, offset: nat, l: Line)
    requires LineAt(text, offset, l)
    ensures LineAt(text + more, offset, l)
  {
    assert (text + more)[offset..offset + |LineText(l)|] == text[offset..offset + |LineText(l)|];
  }

  lemma FirstValueOneMore(log: seq<Entry>, e: Entry, key: Str)
    ensures FirstValue(log + [e], key) ==
            if FirstValue(log, key).Some? then FirstValue(log, key) else if e.key == key then Some(e.value) else None
  {
    assert (log + [e])[..|log|] == log;
  }

  predicate Extends(longer: Str, key: Str) {
    |longer| > |key| && longer[..|key|] == key
  }

  /** No indexed line is for a key that properly extends this one. */
  ghost predicate NotExtended(lines: seq<Line>, key: Str) {
    forall l :: l in lines && |l.key| < DBZMAXKEY ==> !Extends(l.key, key)
  }

  /** The lines in front of the first one with a key, or all of them if there is none. */
  function LinesBefore(lines: seq<Line>, key: Str): (r: seq<Line>)
    ensures forall l :: l in r ==> l in lines
  {
    if lines == [] then []
    else
      var front := lines[..|lines| - 1];
      if FirstLine(front, key) != None then LinesBefore(front, key)
      else if lines[|lines| - 1].key == key then front
      else lines
  }

  lemma BeforeOneMore(log: seq<Entry>, e: Entry, key: Str)
    ensures Lookup.Before(log + [e], key) ==
            if FirstStore(log, key).Some? then Lookup.Before(log, key) else if e.key == key then log else log + [e]
  {
    assert (log + [e])[..|log|] == log;
  }

  /** What was stored before a key belongs to a line in front of its first one. */
  lemma {:induction false} StoredBefore(lines: seq<Line>, e: Entry, key: Str) returns (l: Line)
    requires |key| < DBZMAXKEY && e in Lookup.Before(LogOf(lines), key)
    ensures l in LinesBefore(lines, key) && l.key == e.key && LineAt(Render(lines), e.value, l)
  {
    var front, last := lines[..|lines| - 1], lines[|lines| - 1];
    BeforeOneMore(LogOf(front), Entry(last.key, |Render(front)|), key);
    StoredIffLine(front, key);
    if FirstLine(front, key) != None {
      l := StoredBefore(front, e, key);
      LineStaysAt(Render(front), LineText(last), e.value, l);
    } else if last.key == key {
      l := StoredLine(front, e);
      LineStaysAt(Render(front), LineText(last), e.value, l);
    } else {
      l := StoredLine(lines, e);
    }
  }

  /** And every indexed line in front of the first one of a key was stored before it. */
  lemma {:induction false} LineStoredBefore(lines: seq<Line>, l: Line, key: Str) returns (e: Entry)
    requires |key| < DBZMAXKEY && l in LinesBefore(lines, key) && |l.key| < DBZMAXKEY
    ensures e in Lookup.Before(LogOf(lines), key) && l.key == e.key && LineAt(Render(lines), e.value, l)
  {
    var front, last := lines[..|lines| - 1], lines[|lines| - 1];
    BeforeOneMore(LogOf(front), Entry(last.key, |Render(front)|), key);
    StoredIffLine(front, key);
    if FirstLine(front, key) != None {
      e := LineStoredBefore(front, l, key);
      LineStaysAt(Render(front), LineText(last), e.value, l);
    } else {
      e := StoredOfLine(lines, l);
      AllStored(LogOf(front), key);
      if last.key == key {
        e := StoredOfLine(front, l);
        LineStaysAt(Render(front), LineText(last), e.value, l);
      }
    }
  }

  lemma AllStored(log: seq<Entry>, key: Str)
    requires FirstStore(log, key) == None
    ensures Lookup.Before(log, key) == log
  {}

  /** Every indexed line was stored. */
  lemma {:induction false} StoredOfLine(lines: seq<Line>, l: Line) returns (e: Entry)
    requires l in lines && |l.key| < DBZMAXKEY
    ensures e in LogOf(lines) && l.key == e.key && LineAt(Render(lines), e.value, l)
  {
    var front, last := lines[..|lines| - 1], lines[|lines| - 1];
    if l in front {
      e := StoredOfLine(front, l);
      LineStaysAt(Render(front), LineText(last), e.value, l);
    } else {
      assert lines == front + [last];
      e := Entry(last.key, |Render(front)|);
    }
  }

  /** An impostor's record is a line for a key that extends the one looked for. */
  lemma ImpostorIsExtension(lay: Layout, text: Str, e: Entry, l: Line, key: Str)
    requires HistoryLayout(lay) && LineOk(l) && l.key == e.key && LineAt(text, e.value, l)
    requires |key| < DBZMAXKEY && key != [] && NUL !in key
    ensures Impostor(lay, text, e, key) <==> Extends(l.key, key)
  {
    assert NUL !in l.key && !EndsInNul(l.key) && !EndsInNul(key);
    if |l.key| > |key| {
      assert text[e.value..e.value + |key|] == LineText(l)[..|key|] == l.key[..|key|];
    }
  }

  /** No earlier line that extends a key stands in the way of the search for it. */
  ghost predicate Clear(lay: Layout, lines: seq<Line>, key: Str) {
    var b := Replay(lay, LogOf(lines));
    PathClear(b, Render(lines), key, DecidingProbe(b, key))
  }

  /** If no earlier line extends a key, the search for it is clear, however large the table is. */
  lemma NotExtendedIsClear(lay: Layout, lines: seq<Line>, key: Str)
    requires HistoryLayout(lay) && LinesOk(lines) && LogOk(lay, LogOf(lines))
    requires 0 < |key| < DBZMAXKEY && NUL !in key && NotExtended(LinesBefore(lines, key), key)
    ensures Clear(lay, lines, key)
  {
    var before := Lookup.Before(LogOf(lines), key);
    HistoryIsRecorded(lay, lines);
    forall e | e in before
      ensures !Impostor(lay, Render(lines), e, key)
    {
      var l := StoredBefore(lines, e, key);
      ImpostorIsExtension(lay, Render(lines), e, l, key);
    }
    Lookup.ClearOfOlder(lay, Render(lines), LogOf(lines), key);
  }

  /** A key is found when it is there, and also when the search for it is not clear. */
  ghost predicate IsFound(lay: Layout, lines: seq<Line>, key: Str) {
    |key| < DBZMAXKEY && (FirstLine(lines, key) != None || !Clear(lay, lines, key))
  }

  /** The lines of a history after an attempt to add one. */
  ghost function AddUnlessFound(lay: Layout, lines: seq<Line>, l: Line): seq<Line> {
    if IsFound(lay, lines, l.key) then lines else lines + [l]
  }

  lemma {:induction false} AbsentKey(lines: seq<Line>, key: Str)
    ensures FirstLine(lines, key) == None <==> forall l :: l in lines ==> l.key != key
  {
    if lines != [] {
      AbsentKey(lines[..|lines| - 1], key);
      assert lines == lines[..|lines| - 1] + [lines[|lines| - 1]];
    }
  }

  /** Adding lines in this way keeps indexed keys distinct. */
  lemma AddKeepsDistinct(lay: Layout, lines: seq<Line>, l: Line)
    requires DistinctKeys(lines)
    ensures DistinctKeys(AddUnlessFound(lay, lines, l))
  {
    AbsentKey(lines, l.key);
  }

  /** A history within the offsets of its database. */
  ghost predicate Fits(lines: seq<Line>) {
    |Render(lines)| <= OFFSETS
  }

  lemma FitsLog(lay: Layout, lines: seq<Line>)
    requires HistoryLayout(lay) && LinesOk(lines) && Fits(lines)
    ensures LogOk(lay, LogOf(lines))
  {
    HistoryIsRecorded(lay, lines);
    forall e | e in LogOf(lines)
      ensures EntryOk(lay, e)
    {
      AndZero(e.value);
    }
  }

  /** While a key is absent, a search for it that is not clear does not become so. */
  lemma StaysMisled(lay: Layout, lines: seq<Line>, l: Line, key: Str)
    requires HistoryLayout(lay) && LinesOk(lines) && Fits(lines)
    requires |key| < DBZMAXKEY && FirstLine(lines, key) == None && l.key != key && !Clear(lay, lines, key)
    ensures !Clear(lay, lines + [l], key)
  {
    var log := LogOf(lines);
    FitsLog(lay, lines);
    RenderOneMore(lines, l);
    StoredIffLine(lines, key);
    if |l.key| < DBZMAXKEY {
      Lookup.StoreStaysMisled(lay, log, Entry(l.key, |Render(lines)|), Render(lines), key);
    }
    var b := Replay(lay, LogOf(lines + [l]));
    Lookup.TextStaysMisled(b, Render(lines), LineText(l), key, DecidingProbe(b, key));
  }

  // ----- when a search is clear in every table

  /** All keys in one slot. */
  function OneSlotLayout(): (lay: Layout)
    ensures lay.geo.tsize == 1 && HistoryLayout(lay)
  {
    MybmapIsByteMap();
    AndCommutes(0, 0);
    Layout(Geometry(1, false), Coding(0, 0, false, MYBMAP), 0, '0', HIS_FIELDSEP)
  }

  /** An earlier indexed line that extends a key is in the way of the search for it in a table of one slot. */
  lemma ExtendedIsNotClear(lines: seq<Line>, key: Str, l: Line)
    requires LinesOk(lines) && Fits(lines) && 0 < |key| < DBZMAXKEY && NUL !in key
    requires l in LinesBefore(lines, key) && |l.key| < DBZMAXKEY && Extends(l.key, key)
    ensures !Clear(OneSlotLayout(), lines, key)
  {
    var lay := OneSlotLayout();
    FitsLog(lay, lines);
    HistoryIsRecorded(lay, lines);
    var e := LineStoredBefore(lines, l, key);
    ImpostorIsExtension(lay, Render(lines), e, l, key);
    var m :| 0 <= m < |Lookup.Before(LogOf(lines), key)| && Lookup.Before(LogOf(lines), key)[m] == e;
    Lookup.OneSlotIsNotClear(lay, Render(lines), LogOf(lines), key, m);
  }

  /** Whatever its table, a history answers for a key as a scan of its text does, if and only if no earlier indexed line
      extends the key. */
  lemma ClearEverywhere(lines: seq<Line>, key: Str)
    requires LinesOk(lines) && Fits(lines) && 0 < |key| < DBZMAXKEY && NUL !in key
    ensures (forall lay: Layout :: HistoryLayout(lay) ==> Clear(lay, lines, key))
       <==> NotExtended(LinesBefore(lines, key), key)
  {
    forall l | l in LinesBefore(lines, key) && |l.key| < DBZMAXKEY && Extends(l.key, key)
      ensures !Clear(OneSlotLayout(), lines, key)
    {
      ExtendedIsNotClear(lines, key, l);
    }
    if NotExtended(LinesBefore(lines, key), key) {
      forall lay: Layout | HistoryLayout(lay)
        ensures Clear(lay, lines, key)
      {
        FitsLog(lay, lines);
        NotExtendedIsClear(lay, lines, key);
      }
    }
  }
}
