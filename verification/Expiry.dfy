/** What maintenance keeps of a history. */
module Expiry {
  import opened Text
  import opened Decimal
  import opened Probe
  import opened StoreLog
  import opened HistoryText
  import Lookup

  /** The date of a line: a number after the tab. */
  function Stamp(rest: Str): int {
    Atol(rest + [NEWLINE])
  }

  /** Maintenance is due: the first line is older than twice the time that articles are kept. */
  predicate Due(first: Line, now: int, days: int) {
    Stamp(first.rest) + 86400 * days * 2 < now
  }

  predicate Expired(rest: Str, now: int, days: int) {
    Stamp(rest) + 99600 * days < now
  }

  function Unexpired(lines: seq<Line>, now: int, days: int): (r: seq<Line>)
    ensures forall l :: l in r ==> l in lines && !Expired(l.rest, now, days)
  {
    if lines == [] then []
    else
      var l := lines[|lines| - 1];
      Unexpired(lines[..|lines| - 1], now, days) + if Expired(l.rest, now, days) then [] else [l]
  }

  /** Later lines for an indexed key that is there already are dropped. */
  function Deduped(lines: seq<Line>): (r: seq<Line>)
    ensures forall l :: l in r ==> l in lines
  {
    if lines == [] then []
    else
      var front, l := Deduped(lines[..|lines| - 1]), lines[|lines| - 1];
      if |l.key| < DBZMAXKEY && FirstLine(front, l.key) != None then front else front + [l]
  }

  lemma UnexpiredOneMore(lines: seq<Line>, l: Line, now: int, days: int)
    ensures Unexpired(lines + [l], now, days)
         == if Expired(l.rest, now, days) then Unexpired(lines, now, days) else Unexpired(lines, now, days) + [l]
  {
    assert (lines + [l])[..|lines|] == lines;
  }

  lemma DedupedOneMore(lines: seq<Line>, l: Line)
    ensures Deduped(lines + [l])
         == if |l.key| < DBZMAXKEY && FirstLine(Deduped(lines), l.key) != None then Deduped(lines)
            else Deduped(lines) + [l]
  {
    assert (lines + [l])[..|lines|] == lines;
  }

  /** With distinct keys nothing is dropped. */
  lemma {:induction false} NothingDropped(lines: seq<Line>)
    requires DistinctKeys(lines)
    ensures Deduped(lines) == lines
  {
    if lines != [] {
      var front, l := lines[..|lines| - 1], lines[|lines| - 1];
      NothingDropped(front);
      if |l.key| < DBZMAXKEY {
        AbsentKey(front, l.key);
      }
    }
  }

  /** The kept lines are distinct if all were. */
  lemma {:induction false} UnexpiredDistinct(lines: seq<Line>, now: int, days: int)
    requires DistinctKeys(lines)
    ensures DistinctKeys(Unexpired(lines, now, days))
  {
    if lines != [] {
      var front, l := lines[..|lines| - 1], lines[|lines| - 1];
      UnexpiredDistinct(front, now, days);
      var kept := Unexpired(front, now, days);
      forall m | m in kept && |m.key| < DBZMAXKEY
        ensures m.key != l.key
      {
        var i :| 0 <= i < |front| && front[i] == m;
        assert lines[i] == m;
      }
      DistinctOneMore(kept, l);
    }
  }

  lemma DistinctOneMore(lines: seq<Line>, l: Line)
    requires DistinctKeys(lines) && forall m :: m in lines && |m.key| < DBZMAXKEY ==> m.key != l.key
    ensures DistinctKeys(lines + [l])
  {}

  lemma LastIsOnly(lines: seq<Line>, front: seq<Line>, l: Line)
    requires DistinctKeys(lines) && lines == front + [l]
    ensures DistinctKeys(front)
    ensures |l.key| < DBZMAXKEY ==> forall m :: m in front ==> m.key != l.key
  {
    forall i, j | 0 <= i < j < |front| && |front[i].key| < DBZMAXKEY
      ensures front[i].key != front[j].key
    {
      assert lines[i] == front[i] && lines[j] == front[j];
    }
    forall m | m in front && |l.key| < DBZMAXKEY
      ensures m.key != l.key
    {
      var i :| 0 <= i < |front| && front[i] == m;
      assert lines[i] == m && lines[|front|] == l;
    }
  }

  /** A scan of the unexpired lines finds what a scan of all finds, unless that has expired. */
  lemma {:induction false} UnexpiredScans(lines: seq<Line>, key: Str, now: int, days: int)
    requires DistinctKeys(lines) && |key| < DBZMAXKEY
    ensures FirstLine(Unexpired(lines, now, days), key) == StillThere(FirstLine(lines, key), now, days)
  {
    if lines != [] {
      var front, l := lines[..|lines| - 1], lines[|lines| - 1];
      LastIsOnly(lines, front, l);
      UnexpiredScans(front, key, now, days);
      if l.key == key {
        AbsentKey(front, key);
      }
      ScanOneMore(front, l, key, now, days);
      assert front + [l] == lines;
    }
  }

  lemma ScanOneMore(lines: seq<Line>, l: Line, key: Str, now: int, days: int)
    requires FirstLine(Unexpired(lines, now, days), key) == StillThere(FirstLine(lines, key), now, days)
    requires l.key == key ==> FirstLine(lines, key) == None
    ensures FirstLine(Unexpired(lines + [l], now, days), key) == StillThere(FirstLine(lines + [l], key), now, days)
  {
    UnexpiredOneMore(lines, l, now, days);
    RenderOneMore(lines, l);
    RenderOneMore(Unexpired(lines, now, days), l);
  }

  function StillThere(r: Option<Str>, now: int, days: int): Option<Str> {
    if r.Some? && !Expired(r.value, now, days) then r else None
  }

  /** If maintenance is due, the first line has expired itself, so that passing over it does no harm. */
  lemma {:induction false} FirstLineHasExpired(lines: seq<Line>, now: int, days: int)
    requires lines != [] && days >= 0 && Due(lines[0], now, days)
    ensures Unexpired(lines[1..], now, days) == Unexpired(lines, now, days)
  {
    var front, l := lines[..|lines| - 1], lines[|lines| - 1];
    if |lines| > 1 {
      FirstLineHasExpired(front, now, days);
      assert lines[1..][..|lines| - 2] == front[1..];
    } else {
      assert lines[1..] == [] && front == [];
    }
  }

  /** The date that was written with a line is the date by which it expires. */
  lemma WrittenDate(date: int, paths: Str, now: int, days: int)
    ensures Expired(Dec(date) + [HIS_FIELDSEP] + paths, now, days) <==> date + 99600 * days < now
  {
    StampOfDate(date, paths);
  }

  lemma StampOfDate(date: int, paths: Str)
    ensures Stamp(Dec(date) + [HIS_FIELDSEP] + paths) == date
  {
    var s := Dec(date) + [HIS_FIELDSEP] + paths + [NEWLINE];
    var rest: Str := [HIS_FIELDSEP] + paths + [NEWLINE];
    assert s == Dec(date) + rest;
    AtolOfDec(date, rest, s);
  }

  // ----- entering lines in a new history one by one

  /** The history that adding some lines in turn leads to, each of them unless its key is found. */
  ghost function Entered(lay: Layout, lines: seq<Line>): (r: seq<Line>)
    ensures forall l :: l in r ==> l in lines
  {
    if lines == [] then []
    else AddUnlessFound(lay, Entered(lay, lines[..|lines| - 1]), lines[|lines| - 1])
  }

  lemma EnteredOneMore(lay: Layout, lines: seq<Line>, l: Line)
    ensures Entered(lay, lines + [l]) == AddUnlessFound(lay, Entered(lay, lines), l)
  {
    assert (lines + [l])[..|lines|] == lines;
  }

  /** Its keys are distinct, whatever they were before. */
  lemma {:induction false} EnteredDistinct(lay: Layout, lines: seq<Line>)
    ensures DistinctKeys(Entered(lay, lines))
  {
    if lines != [] {
      EnteredDistinct(lay, lines[..|lines| - 1]);
      AddKeepsDistinct(lay, Entered(lay, lines[..|lines| - 1]), lines[|lines| - 1]);
    }
  }

  lemma {:induction false} EnteredFits(lay: Layout, lines: seq<Line>)
    ensures |Render(Entered(lay, lines))| <= |Render(lines)|
  {
    if lines != [] {
      EnteredFits(lay, lines[..|lines| - 1]);
      RenderOneMore(Entered(lay, lines[..|lines| - 1]), lines[|lines| - 1]);
    }
  }

  lemma {:induction false} UnexpiredFits(lines: seq<Line>, now: int, days: int)
    ensures |Render(Unexpired(lines, now, days))| <= |Render(lines)|
  {
    if lines != [] {
      var front, l := lines[..|lines| - 1], lines[|lines| - 1];
      assert lines == front + [l];
      UnexpiredFits(front, now, days);
      UnexpiredOneMore(front, l, now, days);
      RenderOneMore(front, l);
      RenderOneMore(Unexpired(front, now, days), l);
    }
  }

  /** No line is dropped but for a line with the same key. */
  ghost predicate MissesNone(lay: Layout, lines: seq<Line>) {
    if lines == [] then true
    else
      var front, key := lines[..|lines| - 1], lines[|lines| - 1].key;
      MissesNone(lay, front)
      && (|key| < DBZMAXKEY && FirstLine(Deduped(front), key) == None ==> Clear(lay, Deduped(front), key))
  }

  /** One list has got a line behind some others, and the other list has lost it there for good. */
  ghost predicate Lost(lay: Layout, kept: seq<Line>, all: seq<Line>, n: nat) {
    && n < |all| && n <= |kept| && kept[..n] == all[..n] && IsFound(lay, all[..n], all[n].key)
    && (n < |kept| ==> !IsFound(lay, all[..n], kept[n].key))
  }

  lemma {:induction false} NoneMissed(lay: Layout, lines: seq<Line>)
    requires MissesNone(lay, lines)
    ensures Entered(lay, lines) == Deduped(lines)
  {
    if lines != [] {
      NoneMissed(lay, lines[..|lines| - 1]);
    }
  }

  lemma {:induction false} MissedIsLost(lay: Layout, lines: seq<Line>) returns (n: nat)
    requires !MissesNone(lay, lines)
    ensures Lost(lay, Entered(lay, lines), Deduped(lines), n)
  {
    var front, l := lines[..|lines| - 1], lines[|lines| - 1];
    assert lines == front + [l];
    EnteredOneMore(lay, front, l);
    DedupedOneMore(front, l);
    if !MissesNone(lay, front) {
      n := MissedIsLost(lay, front);
      StaysLost(lay, Entered(lay, front), Deduped(front), n, l, Deduped(lines));
    } else {
      NoneMissed(lay, front);
      n := |Deduped(front)|;
      LostNow(lay, Deduped(front), l);
    }
  }

  lemma LostNow(lay: Layout, kept: seq<Line>, l: Line)
    requires IsFound(lay, kept, l.key)
    ensures Lost(lay, kept, kept + [l], |kept|)
  {
    assert (kept + [l])[..|kept|] == kept[..|kept|] == kept;
  }

  lemma StaysLost(lay: Layout, kept: seq<Line>, all: seq<Line>, n: nat, l: Line, all': seq<Line>)
    requires Lost(lay, kept, all, n) && (all' == all || all' == all + [l])
    ensures Lost(lay, AddUnlessFound(lay, kept, l), all', n)
  {
    assert all'[..n] == all[..n];
    assert AddUnlessFound(lay, kept, l)[..n] == kept[..n];
    assert |kept| == n ==> kept == all[..n];
  }

  /** The new history has the first line of every key, in the old order, if and only if no line is missed. */
  lemma EnteredIsDeduped(lay: Layout, lines: seq<Line>)
    ensures Entered(lay, lines) == Deduped(lines) <==> MissesNone(lay, lines)
  {
    if MissesNone(lay, lines) {
      NoneMissed(lay, lines);
    } else {
      var n := MissedIsLost(lay, lines);
    }
  }

  /** No key of a line is extended by that of an earlier line. */
  ghost predicate EarlierFree(lines: seq<Line>) {
    forall i :: 0 <= i < |lines| ==> NotExtended(lines[..i], lines[i].key)
  }

  lemma EarlierFreeFront(lines: seq<Line>, front: seq<Line>, l: Line)
    requires EarlierFree(lines) && lines == front + [l]
    ensures EarlierFree(front) && NotExtended(front, l.key)
  {
    assert lines[..|front|] == front && lines[|front|] == l;
    forall i | 0 <= i < |front|
      ensures NotExtended(front[..i], front[i].key)
    {
      assert lines[..i] == front[..i] && lines[i] == front[i];
    }
  }

  /** Then none is missed, however large the table is. */
  lemma {:induction false} EarlierFreeMissesNone(lay: Layout, lines: seq<Line>)
    requires HistoryLayout(lay) && LinesOk(lines) && Fits(lines) && EarlierFree(lines)
    ensures MissesNone(lay, lines)
  {
    if lines != [] {
      var front, l := lines[..|lines| - 1], lines[|lines| - 1];
      assert lines == front + [l] && LineOk(l);
      EarlierFreeFront(lines, front, l);
      RenderOneMore(front, l);
      EarlierFreeMissesNone(lay, front);
      NoneMissed(lay, front);
      EnteredFits(lay, front);
      FitsLog(lay, Deduped(front));
      if |l.key| < DBZMAXKEY {
        NotExtendedIsClear(lay, Deduped(front), l.key);
      }
    }
  }

  /** The line of a key got into the new history: the search for it was clear when its turn came. */
  ghost predicate Survives(lay: Layout, lines: seq<Line>, key: Str) {
    Clear(lay, Entered(lay, LinesBefore(lines, key)), key)
  }

  ghost predicate ScansRight(lay: Layout, lines: seq<Line>, entered: seq<Line>, key: Str) {
    && FirstLine(entered, key) == (if Survives(lay, lines, key) then FirstLine(lines, key) else None)
    && (!Survives(lay, lines, key) ==> !Clear(lay, entered, key))
  }

  /** Exactly the keys that survive are in the new history with their old text. A search for any other one is still not
      clear when the history is complete. */
  lemma {:induction false} EnteredScans(lay: Layout, lines: seq<Line>, key: Str)
    requires HistoryLayout(lay) && LinesOk(lines) && Fits(lines) && DistinctKeys(lines) && |key| < DBZMAXKEY
    ensures ScansRight(lay, lines, Entered(lay, lines), key)
  {
    if lines != [] {
      var front, l := lines[..|lines| - 1], lines[|lines| - 1];
      assert lines == front + [l];
      LastIsOnly(lines, front, l);
      RenderOneMore(front, l);
      EnteredScans(lay, front, key);
      EnteredFits(lay, front);
      EnteredOneMore(lay, front, l);
      AbsentKey(front, key);
      if l.key == key {
        AbsentKey(Entered(lay, front), key);
        OwnLine(lay, front, Entered(lay, front), l, key);
      } else {
        OtherLine(lay, front, Entered(lay, front), l, key);
      }
    }
  }

  lemma LinesBeforeOneMore(lines: seq<Line>, l: Line, key: Str)
    ensures LinesBefore(lines + [l], key) == if FirstLine(lines, key) != None then LinesBefore(lines, key)
                                             else if l.key == key then lines else lines + [l]
  {
    assert (lines + [l])[..|lines|] == lines;
  }

  lemma OwnLine(lay: Layout, front: seq<Line>, entered: seq<Line>, l: Line, key: Str)
    requires FirstLine(front, key) == FirstLine(entered, key) == None && l.key == key && |key| < DBZMAXKEY
    requires entered == Entered(lay, front)
    ensures ScansRight(lay, front + [l], AddUnlessFound(lay, entered, l), key)
  {
    LinesBeforeOneMore(front, l, key);
    RenderOneMore(front, l);
    RenderOneMore(entered, l);
  }

  lemma OtherLine(lay: Layout, front: seq<Line>, entered: seq<Line>, l: Line, key: Str)
    requires HistoryLayout(lay) && LinesOk(entered) && Fits(entered) && l.key != key && |key| < DBZMAXKEY
    requires entered == Entered(lay, front) && ScansRight(lay, front, entered, key)
    ensures ScansRight(lay, front + [l], AddUnlessFound(lay, entered, l), key)
  {
    LinesBeforeOneMore(front, l, key);
    EnteredOneMore(lay, front, l);
    RenderOneMore(front, l);
    RenderOneMore(entered, l);
    if !Survives(lay, front, key) {
      StaysMisled(lay, entered, l, key);
    }
  }

  /** What maintenance leaves. */
  ghost function Maintained(lay: Layout, lines: seq<Line>, now: int, days: int): seq<Line> {
    if lines != [] && Due(lines[0], now, days) then Entered(lay, Unexpired(lines[1..], now, days)) else lines
  }

  /** A line as HISwrite makes it. */
  ghost predicate Dated(l: Line, date: int, paths: Str) {
    l.rest == Dec(date) + [HIS_FIELDSEP] + paths
  }

  /** By the date that was written with the first line: up to two days for each day of keeping, nothing is touched. */
  lemma DueByDate(lay: Layout, lines: seq<Line>, date: int, paths: Str, now: int, days: int)
    requires lines != [] && Dated(lines[0], date, paths)
    ensures Maintained(lay, lines, now, days)
         == if date + 172800 * days >= now then lines else Entered(lay, Unexpired(lines[1..], now, days))
  {
    StampOfDate(date, paths);
  }

  /** After maintenance that was due, a scan finds exactly the lines that have not expired and whose keys survive. */
  lemma MaintainedScans(lay: Layout, lines: seq<Line>, key: Str, now: int, days: int)
    requires HistoryLayout(lay) && LinesOk(lines) && Fits(lines) && DistinctKeys(lines) && days >= 0
    requires lines != [] && Due(lines[0], now, days) && |key| < DBZMAXKEY
    ensures var lines' := Maintained(lay, lines, now, days);
            && LinesOk(lines') && DistinctKeys(lines') && Fits(lines')
            && Scan(Render(lines'), key) == (if Survives(lay, Unexpired(lines, now, days), key)
                                             then StillThere(Scan(Render(lines), key), now, days) else None)
            && (!Survives(lay, Unexpired(lines, now, days), key) ==> !Clear(lay, lines', key))
  {
    var kept := Unexpired(lines, now, days);
    FirstLineHasExpired(lines, now, days);
    UnexpiredDistinct(lines, now, days);
    UnexpiredFits(lines, now, days);
    EnteredDistinct(lay, kept);
    EnteredFits(lay, kept);
    EnteredScans(lay, kept, key);
    UnexpiredScans(lines, key, now, days);
    ScanIsFirstLine(lines, key);
    ScanIsFirstLine(Maintained(lay, lines, now, days), key);
  }

  lemma {:induction false} UnexpiredEarlierFree(lines: seq<Line>, now: int, days: int)
    requires EarlierFree(lines)
    ensures EarlierFree(Unexpired(lines, now, days))
  {
    if lines != [] {
      var front, l := lines[..|lines| - 1], lines[|lines| - 1];
      assert lines == front + [l];
      EarlierFreeFront(lines, front, l);
      UnexpiredEarlierFree(front, now, days);
      EarlierFreeOneMore(Unexpired(front, now, days), l);
    }
  }

  lemma EarlierFreeOneMore(lines: seq<Line>, l: Line)
    requires EarlierFree(lines) && NotExtended(lines, l.key)
    ensures EarlierFree(lines + [l])
  {
    forall i | 0 <= i < |lines + [l]|
      ensures NotExtended((lines + [l])[..i], (lines + [l])[i].key)
    {
      assert (lines + [l])[..i] == lines[..i];
    }
  }

  /** When no earlier key extends a later one, maintenance keeps exactly the unexpired lines. */
  lemma KeepsUnexpired(lay: Layout, lines: seq<Line>, now: int, days: int)
    requires HistoryLayout(lay) && LinesOk(lines) && Fits(lines) && EarlierFree(lines) && DistinctKeys(lines)
    ensures Entered(lay, Unexpired(lines, now, days)) == Unexpired(lines, now, days)
  {
    var kept := Unexpired(lines, now, days);
    UnexpiredEarlierFree(lines, now, days);
    UnexpiredDistinct(lines, now, days);
    UnexpiredFits(lines, now, days);
    EarlierFreeMissesNone(lay, kept);
    EnteredIsDeduped(lay, kept);
    NothingDropped(kept);
  }

  lemma {:induction false} NotExtendedBefore(lines: seq<Line>, key: Str)
    requires EarlierFree(lines) && FirstLine(lines, key) != None
    ensures NotExtended(LinesBefore(lines, key), key)
  {
    var front, l := lines[..|lines| - 1], lines[|lines| - 1];
    assert lines == front + [l];
    EarlierFreeFront(lines, front, l);
    if FirstLine(front, key) != None {
      NotExtendedBefore(front, key);
    }
  }

  /** No key of a line properly extends the key of another. */
  ghost predicate PrefixFree(lines: seq<Line>) {
    forall l, m :: l in lines && m in lines ==> !Extends(l.key, m.key)
  }

  lemma PrefixFreeIsEarlierFree(lines: seq<Line>)
    requires PrefixFree(lines)
    ensures EarlierFree(lines)
  {
    forall i | 0 <= i < |lines|
      ensures NotExtended(lines[..i], lines[i].key)
    {
      assert lines[i] in lines;
    }
  }

  /** Message-ids in their brackets never extend one another. */
  lemma MessageIdsArePrefixFree(lines: seq<Line>, key: Str)
    requires forall l :: l in lines ==> Lookup.IsMessageId(l.key)
    ensures PrefixFree(lines) && EarlierFree(lines)
    ensures Lookup.IsMessageId(key) ==> NotExtended(lines, key) && forall l :: l in lines ==> !Extends(l.key, key)
  {
    forall l, k: Str | l in lines && Lookup.IsMessageId(k) && |l.key| > |k|
      ensures l.key[..|k|] != k
    {
      assert l.key[|k| - 1] in l.key[..|l.key| - 1];
      assert l.key[..|k|][|k| - 1] == l.key[|k| - 1];
    }
    PrefixFreeIsEarlierFree(lines);
  }

  // ----- a line that is lost

  /** In a table of two slots the key "a" is not entered behind "ab". */
  lemma LineIsMissed(lay: Layout, ab: Line, a: Line)
    requires HistoryLayout(lay) && lay.geo == Geometry(2, false)
    requires LineOk(ab) && LineOk(a) && ab.key == "ab" && a.key == "a"
    ensures Entered(lay, [ab, a]) == [ab] && Deduped([ab, a]) == [ab, a]
  {
    EnteredOneMore(lay, [], ab);
    EnteredOneMore(lay, [ab], a);
    assert [] + [ab] == [ab] && [ab] + [a] == [ab, a];
    DedupedOneMore([], ab);
    DedupedOneMore([ab], a);
    FitsLog(lay, []);
    NotExtendedIsClear(lay, [], "ab");
    PrefixNotClear(lay, ab);
  }

  lemma PrefixNotClear(lay: Layout, ab: Line)
    requires HistoryLayout(lay) && lay.geo == Geometry(2, false) && LineOk(ab) && ab.key == "ab"
    ensures !Clear(lay, [ab], "a")
  {
    var e, key: Str := Entry(ab.key, 0), "a";
    OneLine(ab, e);
    HistoryIsRecorded(lay, [ab]);
    FitsLog(lay, [ab]);
    OneLinePrefix(ab, key);
    NotStored(e, key);
    ShortKeyIsMistaken(lay, LineText(ab), e, [e], key);
  }

  lemma ShortKeyIsMistaken(lay: Layout, base: Str, e: Entry, log: seq<Entry>, key: Str)
    requires HistoryLayout(lay) && lay.geo == Geometry(2, false) && log == [e] && FirstValue(log, key) == None
    requires LogOk(lay, log) && Recorded(lay, base, log) && !EndsInNul(e.key) && |e.key| == 2 && e.value == 0
    requires |key| == 1 && HIS_FIELDSEP !in key && NUL !in key && base != [] && base[0..1] == key
    ensures !PathClear(Replay(lay, log), base, key, DecidingProbe(Replay(lay, log), key))
  {
    ShortKeyInOrder(lay, base, e, log, key);
    Lookup.SmallWalk(lay, base, e, key);
    WrongIsNotClear(lay, base, log, key, 0, Some(0));
  }

  lemma ShortKeyInOrder(lay: Layout, base: Str, e: Entry, log: seq<Entry>, key: Str)
    requires HistoryLayout(lay) && log == [e] && !EndsInNul(e.key) && |key| == 1 && HIS_FIELDSEP !in key && NUL !in key
    requires LogOk(lay, log) && Recorded(lay, base, log)
    ensures Lookup.InOrder(lay, base, log, key)
  {}

  lemma WrongIsNotClear(lay: Layout, base: Str, log: seq<Entry>, key: Str, n: nat, r: Option<nat>)
    requires Lookup.InOrder(lay, base, log, key) && StopsAt(Replay(lay, log), base, key, n, r)
    requires r != FirstValue(log, key)
    ensures !PathClear(Replay(lay, log), base, key, DecidingProbe(Replay(lay, log), key))
  {
    ReplayIsGood(lay, log);
    WalkAnswers(lay, log, base, key, n, r);
  }

  lemma OneLine(l: Line, e: Entry)
    requires LineOk(l) && |l.key| < DBZMAXKEY && e == Entry(l.key, 0)
    ensures LogOf([l]) == [e] && Render([l]) == LineText(l) && |LineText(l)| <= LEN
  {
    assert [] + [l] == [l] && [] + LineText(l) == LineText(l);
    RenderOneMore([], l);
  }

  lemma OneLinePrefix(ab: Line, key: Str)
    requires ab.key == "ab" && key == "a"
    ensures LineText(ab) != [] && LineText(ab)[0..1] == key
  {}

  lemma NotStored(e: Entry, key: Str)
    requires e.key != key
    ensures FirstValue([e], key) == None
  {
    assert [e][..0] == [];
  }

  /** Maintenance can lose a line that has not expired. */
  lemma MaintenanceLosesLine(lay: Layout, first: Line, ab: Line, a: Line, now: int, days: int)
    requires HistoryLayout(lay) && lay.geo == Geometry(2, false)
    requires LineOk(ab) && LineOk(a) && ab.key == "ab" && a.key == "a"
    requires Due(first, now, days) && !Expired(ab.rest, now, days) && !Expired(a.rest, now, days)
    ensures Maintained(lay, [first, ab, a], now, days) == [ab]
  {
    assert [first, ab, a][1..] == [ab, a] && [] + [ab] == [ab] && [ab] + [a] == [ab, a];
    UnexpiredOneMore([], ab, now, days);
    UnexpiredOneMore([ab], a, now, days);
    LineIsMissed(lay, ab, a);
  }

  // ----- reading line by line

  lemma {:induction false} LineIsThere(lines: seq<Line>, i: nat)
    requires i < |lines|
    ensures LineAt(Render(lines), |Render(lines[..i])|, lines[i])
    ensures |Render(lines[..i + 1])| == |Render(lines[..i])| + |LineText(lines[i])|
  {
    assert lines[..i + 1] == lines[..i] + [lines[i]];
    RenderOneMore(lines[..i], lines[i]);
    RenderSplits(lines[..i + 1], lines[i + 1..]);
    assert lines[..i + 1] + lines[i + 1..] == lines;
  }

  lemma {:induction false} RenderSplits(a: seq<Line>, b: seq<Line>)
    ensures Render(a + b) == Render(a) + Render(b)
  {
    if b == [] {
      assert a + b == a;
    } else {
      var front, l := b[..|b| - 1], b[|b| - 1];
      RenderSplits(a, front);
      Reassociate(Render(a), Render(front), LineText(l));
      RenderOneMore(a + front, l);
      assert a + b == (a + front) + [l];
    }
  }
}
