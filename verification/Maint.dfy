/** Maintenance of the history: a new file with the lines that have not expired takes the place of the old one. */
module Maint {
  import opened Text
  import opened Decimal
  import opened Words
  import opened StoreLog
  import opened HistoryText
  import opened Expiry
  import opened History
  import Dbz

  /** The next line of a text, with its newline. */
  method Fgets(text: Str, pos: nat) returns (buf: Str)
    requires pos < |text|
    ensures |buf| <= |text| - pos && buf == text[pos..][..|buf|]
    ensures NEWLINE in text[pos..] ==> |buf| == IndexOf(text[pos..], NEWLINE) + 1
  {
    var n := IndexOf(text[pos..], NEWLINE);
    buf := text[pos..][..if n < |text| - pos then n + 1 else n];
  }

  /** What splitting a buffer at the tab gives. */
  ghost predicate Splits(buf: Str, l: Line) {
    var t := IndexOf(buf, HIS_FIELDSEP);
    t < |buf| - 1 && buf[..t] == l.key && buf[t + 1..|buf| - 1] == l.rest && buf[t + 1..] == l.rest + [NEWLINE]
  }

  lemma LineParts(l: Line, s: Str)
    requires LineOk(l) && s == LineText(l)
    ensures NEWLINE !in s[..|s| - 1] && s[|s| - 1] == NEWLINE
    ensures Splits(s, l)
  {
    assert s[..|s| - 1] == l.key + [HIS_FIELDSEP] + l.rest;
    assert s[..|l.key|] == l.key;
    IndexOfUnique(s, HIS_FIELDSEP, |l.key|);
  }

  /** Reading the i-th line of a history and splitting it at the tab. */
  lemma LineRead(lines: seq<Line>, i: nat, pos: nat, ahead: Str, buf: Str)
    requires LinesOk(lines) && i < |lines| && pos == |Render(lines[..i])| && pos < |Render(lines)|
    requires ahead == Render(lines)[pos..] && |buf| <= |ahead| && buf == ahead[..|buf|]
    requires NEWLINE in ahead ==> |buf| == IndexOf(ahead, NEWLINE) + 1
    ensures Splits(buf, lines[i]) && pos + |buf| == |Render(lines[..i + 1])|
  {
    LineIsThere(lines, i);
    var s := LineText(lines[i]);
    assert ahead[..|s|] == s;
    LineParts(lines[i], s);
    UpToNewline(ahead, s, buf);
  }

  lemma UpToNewline(ahead: Str, s: Str, buf: Str)
    requires 0 < |s| <= |ahead| && ahead[..|s|] == s && NEWLINE !in s[..|s| - 1] && s[|s| - 1] == NEWLINE
    requires |buf| <= |ahead| && buf == ahead[..|buf|]
    requires NEWLINE in ahead ==> |buf| == IndexOf(ahead, NEWLINE) + 1
    ensures buf == s
  {
    assert ahead[|s| - 1] == s[|s| - 1] && ahead[..|s| - 1] == s[..|s| - 1];
    IndexOfUnique(ahead, NEWLINE, |s| - 1);
  }

  lemma AtEnd(lines: seq<Line>, i: nat)
    requires i <= |lines|
    ensures |Render(lines[..i])| < |Render(lines)| <==> i < |lines|
    ensures |Render(lines[..i])| <= |Render(lines)|
  {
    RenderSplits(lines[..i], lines[i..]);
    assert lines[..i] + lines[i..] == lines;
  }

  /** What copying a line does to the new history. */
  ghost function Copied(lay: Layout, copied: seq<Line>, l: Line, now: int, days: int): seq<Line> {
    if Expired(l.rest, now, days) then copied else AddUnlessFound(lay, copied, l)
  }

  /** The new history when the first i lines have been read, the very first without being copied. */
  ghost predicate CopiedUpTo(lay: Layout, copied: seq<Line>, lines: seq<Line>, i: nat, now: int, days: int) {
    1 <= i <= |lines| && copied == Entered(lay, Unexpired(lines[1..i], now, days))
  }

  lemma CopyKeepsUpTo(lay: Layout, copied: seq<Line>, lines: seq<Line>, i: nat, now: int, days: int)
    requires i < |lines| && CopiedUpTo(lay, copied, lines, i, now, days)
    ensures CopiedUpTo(lay, Copied(lay, copied, lines[i], now, days), lines, i + 1, now, days)
  {
    var read := lines[1..i];
    assert lines[1..i + 1] == read + [lines[i]];
    CopiesOneMore(lay, read, lines[i], now, days);
  }

  lemma CopiesOneMore(lay: Layout, lines: seq<Line>, l: Line, now: int, days: int)
    ensures Entered(lay, Unexpired(lines + [l], now, days))
         == Copied(lay, Entered(lay, Unexpired(lines, now, days)), l, now, days)
  {
    UnexpiredOneMore(lines, l, now, days);
    EnteredOneMore(lay, Unexpired(lines, now, days), l);
  }

  /** Find the tab of a line, and read the date behind it. */
  method ReadStamp(maintbuff: Str, ghost l: Line) returns (t: nat, lasthist: int)
    requires LineOk(l) && Splits(maintbuff, l)
    ensures t < |maintbuff| - 1 && maintbuff[..t] == l.key && maintbuff[t + 1..|maintbuff| - 1] == l.rest
    ensures lasthist == Stamp(l.rest)
  {
    t := IndexOf(maintbuff, HIS_FIELDSEP);
    lasthist := if t < |maintbuff| then Atol(maintbuff[t + 1..]) else 0;
  }

  /** Copy a line, unless it has expired or its key is found. */
  method CopyLine(w: HistoryFile, maintbuff: Str, now: int, days: int, ghost l: Line)
    requires w.Valid() && |w.text| + LEN < OFFSETS && LineOk(l) && Splits(maintbuff, l)
    modifies w`text, w`lines, w`hisdirty, w.db, w.db.srch, w.db.pagf, w.db.corepag, w.db.cases, w.db.cases.cmap
    ensures w.Valid() && w.db == old(w.db)
    ensures |w.text| <= old(|w.text|) + |LineText(l)|
    ensures w.lines == old(Copied(w.db.lay, w.lines, l, now, days))
  {
    RenderOneMore(w.lines, l);
    var t, lasthist := ReadStamp(maintbuff, l);
    if t < |maintbuff| && lasthist + 99600 * days >= now {
      var ok := w.MyWrite(maintbuff[..t], maintbuff[t + 1..|maintbuff| - 1]);
    }
  }

  /** Read the i-th line. */
  method ReadLine(text: Str, pos: nat, ghost lines: seq<Line>, ghost i: nat) returns (maintbuff: Str)
    requires LinesOk(lines) && i <= |lines| && text == Render(lines) && pos == |Render(lines[..i])| < |text|
    ensures i < |lines| && LineOk(lines[i]) && Splits(maintbuff, lines[i])
    ensures |maintbuff| == |LineText(lines[i])| > 0 && pos + |maintbuff| == |Render(lines[..i + 1])| <= |text|
  {
    AtEnd(lines, i);
    maintbuff := Fgets(text, pos);
    NextRead(lines, i, pos, text, maintbuff);
  }

  /** Read a line at a position, and copy it. */
  method ReadAndCopy(w: HistoryFile, text: Str, pos: nat, now: int, days: int, ghost lines: seq<Line>, ghost i: nat)
      returns (next: nat)
    requires w.Valid() && LinesOk(lines) && text == Render(lines) && |text| + LEN < OFFSETS
    requires CopiedUpTo(w.db.lay, w.lines, lines, i, now, days)
    requires pos == |Render(lines[..i])| < |text| && |w.text| <= pos
    modifies w`text, w`lines, w`hisdirty, w.db, w.db.srch, w.db.pagf, w.db.corepag, w.db.cases, w.db.cases.cmap
    ensures w.Valid() && w.db == old(w.db)
    ensures CopiedUpTo(w.db.lay, w.lines, lines, i + 1, now, days)
    ensures pos < next == |Render(lines[..i + 1])| <= |text| && |w.text| <= next
  {
    var maintbuff := ReadLine(text, pos, lines, i);
    CopyKeepsUpTo(w.db.lay, w.lines, lines, i, now, days);
    CopyLine(w, maintbuff, now, days, lines[i]);
    next := pos + |maintbuff|;
  }

  lemma NextRead(lines: seq<Line>, i: nat, pos: nat, text: Str, buf: Str)
    requires LinesOk(lines) && i < |lines| && text == Render(lines) && pos == |Render(lines[..i])| < |text|
    requires |buf| <= |text| - pos && buf == text[pos..][..|buf|]
    requires NEWLINE in text[pos..] ==> |buf| == IndexOf(text[pos..], NEWLINE) + 1
    ensures LineOk(lines[i]) && Splits(buf, lines[i]) && |buf| == |LineText(lines[i])| > 0
    ensures pos + |buf| == |Render(lines[..i + 1])| <= |text|
  {
    AtEnd(lines, i + 1);
    LineIsThere(lines, i);
    LineRead(lines, i, pos, text[pos..], buf);
  }

  /** Copy the lines from some position on that have not expired. */
  method CopyUnexpired(w: HistoryFile, text: Str, start: nat, now: int, days: int, ghost lines: seq<Line>)
    requires w.Valid() && w.lines == [] && w.text == []
    requires LinesOk(lines) && lines != [] && text == Render(lines) && start == |Render(lines[..1])|
    requires |text| + LEN < OFFSETS
    modifies w`text, w`lines, w`hisdirty, w.db, w.db.srch, w.db.pagf, w.db.corepag, w.db.cases, w.db.cases.cmap
    ensures w.Valid() && w.db == old(w.db)
    ensures w.lines == Entered(w.db.lay, Unexpired(lines[1..], now, days))
  {
    var pos := start;
    ghost var i := 1;
    AtEnd(lines, 1);
    assert lines[1..1] == [];
    while pos < |text|
      invariant w.Valid() && w.db == old(w.db) && |w.text| <= pos
      invariant CopiedUpTo(w.db.lay, w.lines, lines, i, now, days) && pos == |Render(lines[..i])| <= |text|
      decreases |text| - pos
    {
      pos := ReadAndCopy(w, text, pos, now, days, lines, i);
      i := i + 1;
    }
    AtEnd(lines, i);
    assert lines[1..|lines|] == lines[1..];
  }

  /** Make the new history and put it in the place of the old one. */
  method Rebuild(h: HistoryFile, start: nat, now: int, days: int, size: int)
    requires h.Valid() && 2 <= size && IsLong(size) && |h.text| + LEN < OFFSETS
    requires h.lines != [] && start == |Render(h.lines[..1])|
    modifies h, h.db`dirf, h.db.pagf`words
    ensures h.Valid() && h.Synced() && h.db.lay.geo.tsize == size
    ensures h.lines == Entered(h.db.lay, Unexpired(old(h.lines)[1..], now, days))
  {
    h.Close();
    var w := NewHistory(h.text, start, now, days, size, h.lines);
    TakeOver(h, w);
  }

  /** The new history, still under its own name. */
  method NewHistory(text: Str, start: nat, now: int, days: int, size: int, ghost lines: seq<Line>)
      returns (w: HistoryFile)
    requires LinesOk(lines) && lines != [] && text == Render(lines) && start == |Render(lines[..1])|
    requires 2 <= size && IsLong(size) && |text| + LEN < OFFSETS
    ensures w.Valid() && fresh(w) && fresh(w.db) && fresh(w.db.pagf) && w.db.lay.geo.tsize == size
    ensures w.lines == Entered(w.db.lay, Unexpired(lines[1..], now, days))
  {
    w := new HistoryFile(size);
    CopyUnexpired(w, text, start, now, days, lines);
  }

  /** Close the new history, give its files the names of the old ones, and open it. */
  method TakeOver(h: HistoryFile, w: HistoryFile)
    requires w.Valid() && h != w
    modifies h, w.db`dirf, w.db.pagf`words
    ensures h.Valid() && h.Synced() && h.lines == w.lines && h.db.lay == w.db.lay
  {
    var db := Dbz.CloseAndReopen(w.db, true, true, false);
    h.Adopt(w.text, db, w.lines);
  }

  /** Throw out the lines that have expired, if the first one is old enough. An empty history has no first line, and is
      left alone here. */
  method HISmaint(h: HistoryFile, now: int, days: int, size: int)
    requires h.Valid() && 2 <= size && IsLong(size) && |h.text| + LEN < OFFSETS
    modifies h, h.db`dirf, h.db.pagf`words
    ensures h.Valid() && (old(h.Synced()) ==> h.Synced())
    ensures h.lines == Maintained(h.db.lay, old(h.lines), now, days)
    ensures (h.db == old(h.db) && h.lines == old(h.lines)) || h.db.lay.geo.tsize == size
    ensures forall date, paths :: old(h.lines) != [] && Dated(old(h.lines)[0], date, paths) ==>
              h.lines == if date + 172800 * days >= now then old(h.lines)
                         else Entered(h.db.lay, Unexpired(old(h.lines)[1..], now, days))
    ensures old(DistinctKeys(h.lines)) ==> DistinctKeys(h.lines)
    ensures old(h.lines) != [] && Due(old(h.lines)[0], now, days)
            && old(EarlierFree(h.lines) && DistinctKeys(h.lines)) ==>
              h.lines == Unexpired(old(h.lines)[1..], now, days)
              && (days >= 0 ==> h.lines == Unexpired(old(h.lines), now, days))
  {
    ghost var lines := h.lines;
    MaintAsDue(h, now, days, size);
    MaintainedLines(h.db.lay, lines, now, days);
    MaintainedByDate(h.db.lay, lines, now, days);
  }

  method MaintAsDue(h: HistoryFile, now: int, days: int, size: int)
    requires h.Valid() && 2 <= size && IsLong(size) && |h.text| + LEN < OFFSETS
    modifies h, h.db`dirf, h.db.pagf`words
    ensures h.Valid() && old(LinesOk(h.lines) && Fits(h.lines)) && (old(h.Synced()) ==> h.Synced())
    ensures h.lines == Maintained(h.db.lay, old(h.lines), now, days)
    ensures (h.db == old(h.db) && h.lines == old(h.lines)) || h.db.lay.geo.tsize == size
  {
    AtEnd(h.lines, 0);
    assert h.lines[..0] == [];
    if h.text == [] {
      return;
    }
    var maintbuff := ReadLine(h.text, 0, h.lines, 0);
    var t, lasthist := ReadStamp(maintbuff, h.lines[0]);
    if t < |maintbuff| && lasthist + 86400 * days * 2 < now {
      Rebuild(h, |maintbuff|, now, days, size);
    }
  }

  lemma MaintainedByDate(lay: Layout, lines: seq<Line>, now: int, days: int)
    ensures forall date, paths :: lines != [] && Dated(lines[0], date, paths) ==>
              Maintained(lay, lines, now, days) == if date + 172800 * days >= now then lines
                                                   else Entered(lay, Unexpired(lines[1..], now, days))
  {
    forall date, paths | lines != [] && Dated(lines[0], date, paths)
      ensures Maintained(lay, lines, now, days) == if date + 172800 * days >= now then lines
                                                   else Entered(lay, Unexpired(lines[1..], now, days))
    {
      DueByDate(lay, lines, date, paths, now, days);
    }
  }

  lemma MaintainedLines(lay: Layout, lines: seq<Line>, now: int, days: int)
    requires HistoryLayout(lay) && LinesOk(lines) && Fits(lines)
    ensures DistinctKeys(lines) ==> DistinctKeys(Maintained(lay, lines, now, days))
    ensures lines != [] && Due(lines[0], now, days) && EarlierFree(lines) && DistinctKeys(lines) ==>
              Maintained(lay, lines, now, days) == Unexpired(lines[1..], now, days)
              && (days >= 0 ==> Unexpired(lines[1..], now, days) == Unexpired(lines, now, days))
  {
    if lines != [] && Due(lines[0], now, days) {
      EnteredDistinct(lay, Unexpired(lines[1..], now, days));
      if EarlierFree(lines) && DistinctKeys(lines) {
        WithoutFirst(lines);
        KeepsUnexpired(lay, lines[1..], now, days);
        if days >= 0 {
          FirstLineHasExpired(lines, now, days);
        }
      }
    }
  }

  /** What holds of a history holds without its first line. */
  lemma WithoutFirst(lines: seq<Line>)
    requires lines != [] && EarlierFree(lines) && DistinctKeys(lines) && LinesOk(lines) && Fits(lines)
    ensures EarlierFree(lines[1..]) && DistinctKeys(lines[1..]) && LinesOk(lines[1..]) && Fits(lines[1..])
  {
    DistinctWithoutFirst(lines, lines[1..]);
    EarlierFreeWithoutFirst(lines, lines[1..]);
    RenderSplits(lines[..1], lines[1..]);
    assert lines[..1] + lines[1..] == lines;
  }

  lemma EarlierFreeWithoutFirst(lines: seq<Line>, rest: seq<Line>)
    requires lines != [] && EarlierFree(lines) && rest == lines[1..]
    ensures EarlierFree(rest)
  {
    forall i | 0 <= i < |rest|
      ensures NotExtended(rest[..i], rest[i].key)
    {
      assert rest[..i] == lines[..i + 1][1..];
    }
  }

  lemma DistinctWithoutFirst(lines: seq<Line>, rest: seq<Line>)
    requires lines != [] && DistinctKeys(lines) && rest == lines[1..]
    ensures DistinctKeys(rest)
  {
    forall i, j | 0 <= i < j < |rest| && |rest[i].key| < DBZMAXKEY
      ensures rest[i].key != rest[j].key
    {
      assert rest[i] == lines[i + 1] && rest[j] == lines[j + 1];
    }
  }

  /** Where lookups are clear before and after maintenance that was due, they answer what they answered before, if that
      has not expired, and nothing otherwise. */
  lemma MaintenancePreservesLookups(lay: Layout, lay': Layout, lines: seq<Line>, key: Str, now: int, days: int,
                                    r: Option<Str>, r': Option<Str>)
    requires HistoryLayout(lay') && LinesOk(lines) && Fits(lines) && DistinctKeys(lines) && days >= 0
    requires lines != [] && Due(lines[0], now, days)
    requires LookedUp(lay, lines, key, r) && LookedUp(lay', Maintained(lay', lines, now, days), key, r')
    ensures |key| < DBZMAXKEY && Clear(lay, lines, key) && Clear(lay', Maintained(lay', lines, now, days), key) ==>
              r' == StillThere(r, now, days)
    ensures |key| >= DBZMAXKEY ==> r == r' == None
  {
    if |key| < DBZMAXKEY {
      MaintainedScans(lay', lines, key, now, days);
    }
  }

  /** They are clear when no earlier key extends a later one, for a key that stays, and for any other one that is not
      extended. */
  lemma MaintenanceIsClear(lay: Layout, lay': Layout, lines: seq<Line>, key: Str, now: int, days: int)
    requires HistoryLayout(lay) && HistoryLayout(lay') && LinesOk(lines) && Fits(lines) && days >= 0
    requires DistinctKeys(lines) && EarlierFree(lines) && lines != [] && Due(lines[0], now, days)
    requires KeyText(key) && |key| < DBZMAXKEY
    requires NotExtended(lines, key) || StillThere(Scan(Render(lines), key), now, days) != None
    ensures Clear(lay, lines, key) && Clear(lay', Maintained(lay', lines, now, days), key)
  {
    var kept := Unexpired(lines, now, days);
    FirstLineHasExpired(lines, now, days);
    KeepsUnexpired(lay', lines, now, days);
    UnexpiredFits(lines, now, days);
    UnexpiredEarlierFree(lines, now, days);
    UnexpiredScans(lines, key, now, days);
    ScanIsFirstLine(lines, key);
    ClearWhereKept(lay, lines, key);
    ClearWhereKept(lay', kept, key);
  }

  lemma ClearWhereKept(lay: Layout, lines: seq<Line>, key: Str)
    requires HistoryLayout(lay) && LinesOk(lines) && Fits(lines) && EarlierFree(lines)
    requires KeyText(key) && |key| < DBZMAXKEY && (NotExtended(lines, key) || FirstLine(lines, key) != None)
    ensures Clear(lay, lines, key)
  {
    FitsLog(lay, lines);
    if FirstLine(lines, key) != None {
      NotExtendedBefore(lines, key);
    }
    NotExtendedIsClear(lay, lines, key);
  }
}
