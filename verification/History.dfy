/** The history: a text file of articles, and a dbz database that indexes it. */
module History {
  import opened Text
  import opened Decimal
  import opened Words
  import opened StoreLog
  import opened HistoryText
  import DirConfig
  import CaseMap
  import Dbz
  import Lookup

  const ICD_SYNC_COUNT: nat := 1

  /** A key as callers pass it: a non-empty C string without the characters that structure the file. */
  predicate KeyText(key: Str) {
    key != [] && HIS_FIELDSEP !in key && NEWLINE !in key && NUL !in key
  }

  /** What a lookup answers: what a scan of the text finds, exactly when no earlier line for a longer key is met on the
      way, and otherwise the text of such a line; a key that is too long to be stored is not found. */
  ghost predicate LookedUp(lay: Layout, lines: seq<Line>, key: Str, r: Option<Str>) {
    if |key| >= DBZMAXKEY then r == None
    else if Clear(lay, lines, key) then r == Scan(Render(lines), key)
    else exists l :: l in LinesBefore(lines, key) && Extends(l.key, key) && r == Some(l.rest)
  }

  /** The text between the tab and the newline at an offset of the file, as far as the buffer holds it. */
  function RestAt(text: Str, offset: nat): Option<Str>
    requires offset <= |text|
  {
    var buf := text[offset..if offset + LEN - 1 < |text| then offset + LEN - 1 else |text|];
    var p := IndexOf(buf, NEWLINE);
    var t := IndexOf(buf[..p], HIS_FIELDSEP);
    if p < |buf| && t < p then Some(buf[t + 1..p]) else None
  }

  /** The buffer that is read at the offset of a line holds all of it. */
  lemma RestOfLine(text: Str, offset: nat, l: Line)
    requires LineOk(l) && LineAt(text, offset, l)
    ensures RestAt(text, offset) == Some(l.rest)
  {
    var buf := text[offset..if offset + LEN - 1 < |text| then offset + LEN - 1 else |text|];
    var p := |LineText(l)| - 1;
    assert buf[..p + 1] == LineText(l);
    assert buf[..p] == LineText(l)[..p] == l.key + [HIS_FIELDSEP] + l.rest;
    assert buf[p] == LineText(l)[p];
    IndexOfUnique(buf, NEWLINE, p);
    assert buf[..p][..|l.key|] == l.key;
    IndexOfUnique(buf[..p], HIS_FIELDSEP, |l.key|);
    assert buf[|l.key| + 1..p] == l.rest;
  }

  /** The buffer takes 1023 characters. The answer stands in it between the first tab and the first newline, and there
      is none without them, in this order. */
  lemma RestInBuffer(text: Str, offset: nat, buf: Str, t: nat, p: nat)
    requires offset <= |text| && buf == text[offset..if |text| - offset < 1023 then |text| else offset + 1023]
    ensures NEWLINE !in buf ==> RestAt(text, offset) == None
    ensures p < |buf| && buf[p] == NEWLINE && NEWLINE !in buf[..p] && HIS_FIELDSEP !in buf[..p] ==>
              RestAt(text, offset) == None
    ensures t < p < |buf| && buf[p] == NEWLINE && NEWLINE !in buf[..p] && buf[t] == '\t' && '\t' !in buf[..t] ==>
              RestAt(text, offset) == Some(buf[t + 1..p])
  {
    if NEWLINE !in buf {
      IndexOfUnique(buf, NEWLINE, |buf|);
    } else if p < |buf| && buf[p] == NEWLINE && NEWLINE !in buf[..p] {
      IndexOfUnique(buf, NEWLINE, p);
      if HIS_FIELDSEP !in buf[..p] {
        IndexOfUnique(buf[..p], HIS_FIELDSEP, p);
      } else if t < p && buf[t] == HIS_FIELDSEP && HIS_FIELDSEP !in buf[..t] {
        assert buf[..p][..t] == buf[..t];
        IndexOfUnique(buf[..p], HIS_FIELDSEP, t);
      }
    }
  }

  /** What a lookup answers, in terms of the walk in the index. Its offset is that of the first line with the key
      exactly when the search is clear. */
  lemma WalkLooksUp(lay: Layout, lines: seq<Line>, key: Str, n: nat, o: Option<nat>)
    requires HistoryLayout(lay) && LinesOk(lines) && KeyText(key) && LogOk(lay, LogOf(lines))
    requires StopsAt(Replay(lay, LogOf(lines)), Render(lines), Mapped(lay, key), n, o)
    ensures o != None ==> o.value <= |Render(lines)| && RestAt(Render(lines), o.value) != None
    ensures LookedUp(lay, lines, key, if o == None then None else RestAt(Render(lines), o.value))
    ensures |key| < DBZMAXKEY ==> (o == FirstValue(LogOf(lines), key) <==> Clear(lay, lines, key))
  {
    MappedKeyOk(lay, key);
    if |key| >= DBZMAXKEY {
      LongKeysAreNotFound(lay, lines, Mapped(lay, key), n, o);
    } else {
      HistoryIsRecorded(lay, lines);
      ReplayIsGood(lay, LogOf(lines));
      WalkAnswers(lay, LogOf(lines), Render(lines), key, n, o);
      if Clear(lay, lines, key) {
        ClearAnswer(lines, key, o);
      } else {
        MisledAnswer(lay, lines, key, n, o);
      }
    }
  }

  lemma ClearAnswer(lines: seq<Line>, key: Str, o: Option<nat>)
    requires LinesOk(lines) && |key| < DBZMAXKEY && o == FirstValue(LogOf(lines), key)
    ensures o != None ==> o.value <= |Render(lines)| && RestAt(Render(lines), o.value) != None
    ensures Scan(Render(lines), key) == if o == None then None else RestAt(Render(lines), o.value)
  {
    ScanIsFirstLine(lines, key);
    StoredIffLine(lines, key);
    if o != None {
      var l := FirstStoreIsFirstLine(lines, key);
      RestOfLine(Render(lines), o.value, l);
    }
  }

  lemma MisledAnswer(lay: Layout, lines: seq<Line>, key: Str, n: nat, o: Option<nat>)
    requires HistoryLayout(lay) && LinesOk(lines) && KeyText(key) && |key| < DBZMAXKEY && !Clear(lay, lines, key)
    requires Consistent(Replay(lay, LogOf(lines)), Render(lines), key)
    requires StopsAt(Replay(lay, LogOf(lines)), Render(lines), key, n, o)
    ensures o != None && o.value <= |Render(lines)|
    ensures exists l ::
              l in LinesBefore(lines, key) && Extends(l.key, key) && RestAt(Render(lines), o.value) == Some(l.rest)
  {
    var b := Replay(lay, LogOf(lines));
    DecidingProbeDecides(b, key);
    MisledEnd(b, Render(lines), key, n, o, DecidingProbe(b, key));
    Lookup.OlderInFront(b, key, DecidingProbe(b, key), n);
    var e := EntryAt(b, b.lay.Slot(key, n));
    var l := StoredBefore(lines, e, key);
    ImpostorIsExtension(lay, Render(lines), e, l, key);
    RestOfLine(Render(lines), e.value, l);
  }

  lemma MappedKeyOk(lay: Layout, key: Str)
    requires HistoryLayout(lay) && KeyText(key)
    ensures KeyOk(lay, Mapped(lay, key)) && !EndsInNul(Mapped(lay, key))
    ensures |key| < DBZMAXKEY ==> Mapped(lay, key) == key
  {}

  lemma LongKeysAreNotFound(lay: Layout, lines: seq<Line>, key: Str, n: nat, o: Option<nat>)
    requires HistoryLayout(lay) && LinesOk(lines) && LogOk(lay, LogOf(lines))
    requires KeyOk(lay, key) && !EndsInNul(key) && |key| == DBZMAXKEY
    requires StopsAt(Replay(lay, LogOf(lines)), Render(lines), key, n, o)
    ensures o == None
  {
    HistoryIsRecorded(lay, lines);
    Lookup.ExactLookup(lay, Render(lines), LogOf(lines), key, n, o);
    forall j | 0 <= j < |LogOf(lines)|
      ensures LogOf(lines)[j].key != key
    {
      assert LogOf(lines)[j] in LogOf(lines);
    }
  }

  /** A database that can be the index of a history. */
  ghost predicate IndexOk(db: Dbz.Database)
    reads db, db.pagf, db.corepag, db.srch, db.cases, db.cases.cmap
  {
    && db.Valid() && db.FilesOk() && DirConfig.Printable(db.conf) && !db.pagronly && !db.conf.olddbz
    && HistoryLayout(db.lay)
  }

  /** The index of a new history. */
  method NewIndex(size: int) returns (db: Dbz.Database)
    requires 2 <= size && IsLong(size)
    ensures IndexOk(db) && db.Flushed() && db.log == [] && db.conf.used[0] == 0 && db.lay.geo.tsize == size
    ensures fresh(db) && fresh(db.srch) && fresh(db.pagf) && fresh(db.cases) && fresh(db.cases.cmap)
    ensures db.corepag != null ==> fresh(db.corepag)
  {
    PositiveIsNoRun(1);
    var d := Dbz.DbzFresh(size, HIS_FIELDSEP, '\0', 1, true, true);
    db := d;
    NoTags(db.conf);
  }

  class HistoryFile {
    var text: Str
    var db: Dbz.Database
    var hisdirty: nat
    ghost var lines: seq<Line>

    ghost predicate Valid()
      reads `text, `db, `lines, db, db.pagf, db.corepag, db.srch, db.cases, db.cases.cmap
    {
      && IndexOk(db)
      && LinesOk(lines) && text == Render(lines) && db.log == LogOf(lines)
      && db.conf.used[0] <= |text|
    }

    /** Every line that is in the index is in its files too. */
    ghost predicate Synced()
      reads `hisdirty, `db, db, db.pagf
    {
      hisdirty == 0 && db.Flushed()
    }

    /** A new, empty history. */
    constructor (size: int)
      requires 2 <= size && IsLong(size)
      ensures Valid() && Synced() && text == [] && lines == [] && db.lay.geo.tsize == size
      ensures fresh(db) && fresh(db.srch) && fresh(db.pagf) && fresh(db.cases) && fresh(db.cases.cmap)
      ensures db.corepag != null ==> fresh(db.corepag)
    {
      var d := NewIndex(size);
      this.db := d;
      new;
      Adopt([], d, []);
    }

    /** Take over the files of another history. */
    method Adopt(text: Str, db: Dbz.Database, ghost lines: seq<Line>)
      requires IndexOk(db) && db.conf.used[0] <= |text|
      requires LinesOk(lines) && text == Render(lines) && db.log == LogOf(lines)
      modifies this
      ensures Valid() && this.text == text && this.db == db && this.lines == lines && hisdirty == 0
    {
      this.text, this.db, this.hisdirty, this.lines := text, db, 0, lines;
    }

    /** Find the line of a key. */
    method Locate(key: Str) returns (offset: Option<nat>)
      requires Valid() && KeyText(key)
      modifies db`prevp, db`pagpos, db.srch, db.pagf`pos, db.cases, db.cases.cmap
      ensures Valid()
      ensures offset != None ==> offset.value <= |text| && RestAt(text, offset.value) != None
      ensures LookedUp(db.lay, lines, key, if offset == None then None else RestAt(text, offset.value))
      ensures |key| < DBZMAXKEY ==> (offset == FirstValue(LogOf(lines), key) <==> Clear(db.lay, lines, key))
    {
      ghost var n;
      offset, n := db.DbzFetch(key, text);
      WalkLooksUp(db.lay, lines, key, n, offset);
    }

    /** Get the text that was filed under a key. */
    method FilesFor(key: Str) returns (r: Option<Str>)
      requires Valid() && KeyText(key)
      modifies db`prevp, db`pagpos, db.srch, db.pagf`pos, db.cases, db.cases.cmap
      ensures Valid()
      ensures LookedUp(db.lay, lines, key, r)
    {
      var offset := Locate(key);
      r := None;
      if offset.Some? {
        r := ReadRest(offset.value);
      }
    }

    /** Read a buffer at an offset, and take the text between the tab and the newline. */
    method ReadRest(offset: nat) returns (r: Option<Str>)
      requires offset <= |text|
      ensures r == RestAt(text, offset)
    {
      var buf := text[offset..if offset + LEN - 1 < |text| then offset + LEN - 1 else |text|];
      var p := IndexOf(buf, NEWLINE);
      if p == |buf| {
        return None;
      }
      var t := IndexOf(buf[..p], HIS_FIELDSEP);
      if t == p {
        return None;
      }
      return Some(buf[t + 1..p]);
    }

    /** Append the line to the file and enter it in the index. */
    method Record(key: Str, rest: Str) returns (r: int)
      requires Valid() && LineOk(Line(key, rest)) && |text| + LEN < OFFSETS
      modifies this`text, this`lines, db, db.srch, db.pagf, db.corepag, db.cases, db.cases.cmap
      ensures Valid()
      ensures r == if |key| < DBZMAXKEY then 0 else -1
      ensures lines == old(lines) + [Line(key, rest)]
      ensures text == old(text) + key + ['\t'] + rest + ['\n']
      ensures r == -1 && old(db.Flushed()) ==> db.Flushed()
    {
      var offset := |text|;
      LineFits(db.lay, lines, Line(key, rest));
      text := text + key + [HIS_FIELDSEP] + rest + [NEWLINE];
      lines := lines + [Line(key, rest)];
      r := db.DbzStore(key, offset);
    }

    /** Add a line, and flush the index when enough of them have come in. A key that is too long leaves its line
        an orphan. */
    method Append(key: Str, rest: Str) returns (ok: bool)
      requires Valid() && LineOk(Line(key, rest)) && |text| + LEN < OFFSETS
      modifies this`text, this`lines, this`hisdirty, db, db.srch, db.pagf, db.corepag, db.cases, db.cases.cmap
      ensures Valid() && db == old(db)
      ensures ok <==> |key| < DBZMAXKEY
      ensures lines == old(lines) + [Line(key, rest)]
      ensures text == old(text) + key + ['\t'] + rest + ['\n']
      ensures ok || old(Synced()) ==> Synced()
    {
      var r := Record(key, rest);
      if r < 0 {
        return false;
      }
      hisdirty := hisdirty + 1;
      if hisdirty >= ICD_SYNC_COUNT {
        Sync();
      }
      return true;
    }

    /** Add a line unless its key is found. */
    method MyWrite(key: Str, rest: Str) returns (ok: bool)
      requires Valid() && LineOk(Line(key, rest)) && |text| + LEN < OFFSETS
      modifies this`text, this`lines, this`hisdirty, db, db.srch, db.pagf, db.corepag, db.cases, db.cases.cmap
      ensures Valid() && db == old(db)
      ensures lines == old(AddUnlessFound(db.lay, lines, Line(key, rest)))
      ensures ok <==> lines != old(lines) && |key| < DBZMAXKEY
      ensures ok || old(Synced()) ==> Synced()
    {
      var offset := Locate(key);
      ScanIsFirstLine(lines, key);
      if offset.Some? {
        return false;
      }
      ok := Append(key, rest);
    }

    /** Flush the index. */
    method Flush()
      requires Valid()
      modifies db.pagf`words, db`dirf
      ensures Valid() && db.Flushed()
    {
      db.Sync();
    }

    /** Flush the index, if a line came in since. */
    method Sync()
      requires Valid()
      modifies this`hisdirty, db.pagf`words, db`dirf
      ensures Valid() && hisdirty == 0
      ensures old(hisdirty) != 0 || old(Synced()) ==> Synced()
    {
      if hisdirty != 0 {
        Flush();
        hisdirty := 0;
      }
    }

    /** Close the history. */
    method Close()
      requires Valid()
      modifies this`hisdirty, db.pagf`words, db`dirf
      ensures Valid() && Synced()
    {
      Sync();
      Flush();
    }

    /** Add the line of an article: its key, date and paths. */
    method Write(key: Str, date: int, paths: Str) returns (ok: bool)
      requires Valid() && LineOk(Line(key, Dec(date) + [HIS_FIELDSEP] + paths)) && |text| + LEN < OFFSETS
      modifies this`text, this`lines, this`hisdirty, db, db.srch, db.pagf, db.corepag, db.cases, db.cases.cmap
      ensures Valid() && db == old(db)
      ensures ok <==> |key| < DBZMAXKEY
      ensures lines == old(lines) + [Line(key, Dec(date) + [HIS_FIELDSEP] + paths)]
      ensures text == old(text) + key + ['\t'] + (Dec(date) + ['\t'] + paths) + ['\n']
      ensures ok || old(Synced()) ==> Synced()
    {
      ok := Append(key, Dec(date) + [HIS_FIELDSEP] + paths);
    }
  }

  /** The text and the index after a line is added. */
  lemma LineFits(lay: Layout, lines: seq<Line>, l: Line)
    requires HistoryLayout(lay) && LinesOk(lines) && LineOk(l)
    ensures LinesOk(lines + [l])
    ensures Render(lines + [l]) == Render(lines) + l.key + [HIS_FIELDSEP] + l.rest + [NEWLINE]
    ensures LogOf(lines + [l])
         == if |l.key| < DBZMAXKEY then LogOf(lines) + [Entry(l.key, |Render(lines)|)] else LogOf(lines)
    ensures CaseMap.Fold(lay.casemap, l.key) == l.key && !lay.coding.HasTag(|Render(lines)|)
  {
    RenderOneMore(lines, l);
    AndZero(|Render(lines)|);
    AppendedText(Render(lines), l.key, l.rest);
  }

  lemma AppendedText(text: Str, key: Str, rest: Str)
    ensures text + (key + [HIS_FIELDSEP] + rest + [NEWLINE]) == text + key + [HIS_FIELDSEP] + rest + [NEWLINE]
  {
    var sep: Str, end: Str := [HIS_FIELDSEP], [NEWLINE];
    Reassociate(text, key + sep + rest, end);
    Reassociate(text, key + sep, rest);
    Reassociate(text, key, sep);
  }

  lemma NoTags(c: DirConfig.Config)
    requires c.Usable() && IsFresh(1, c.tagenb, c.tagmask, c.tagshift)
    ensures c.LayoutOf().coding.taghere == 0
  {
    ShlOfNothing(c.tagshift);
  }
}
