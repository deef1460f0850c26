/** Store-if-absent on the history. */
module DbTool {
  import opened Text
  import opened Decimal
  import opened Words
  import opened StoreLog
  import opened HistoryText
  import opened History

  /** At most 510 characters of a key are copied into the static buffer. */
  function Input(key: Str): Str {
    if |key| > 510 then key[..510] else key
  }

  function Filed(now: int, paths: Str): Str {
    Dec(now) + [HIS_FIELDSEP] + paths
  }

  method DBfetch(h: HistoryFile, key: Str) returns (r: Option<Str>)
    requires h.Valid() && KeyText(key)
    modifies h.db`prevp, h.db`pagpos, h.db.srch, h.db.pagf`pos, h.db.cases, h.db.cases.cmap
    ensures h.Valid()
    ensures LookedUp(h.db.lay, h.lines, key, r)
  {
    r := h.FilesFor(Input(key));
  }

  method DBstore(h: HistoryFile, key: Str, paths: Str, now: int) returns (r: int)
    requires h.Valid() && KeyText(key) && LineOk(Line(Input(key), Filed(now, paths))) && |h.text| + LEN < OFFSETS
    modifies h`text, h`lines, h`hisdirty, h.db, h.db.srch, h.db.pagf, h.db.corepag, h.db.cases, h.db.cases.cmap
    ensures h.Valid() && h.db == old(h.db)
    ensures r == if |key| < DBZMAXKEY then 0 else -1
    ensures h.lines == old(h.lines) + [Line(Input(key), Filed(now, paths))]
    ensures var kept := if |key| > 510 then key[..510] else key;
            h.text == old(h.text) + kept + ['\t'] + (Dec(now) + ['\t'] + paths) + ['\n']
    ensures r == 0 || old(h.Synced()) ==> h.Synced()
  {
    var ok := h.Write(Input(key), now, paths);
    r := if ok then 0 else -1;
  }

  /** Store a key unless it is found. Indexed lines keep distinct keys, nothing else changes for any other key, and
      afterwards the key has its old text if it had one, and the new one otherwise, unless the search for it is not
      clear, when it is taken for stored and is not. */
  method StoreDB(h: HistoryFile, mid: Str, paths: Str, now: int) returns (r: int)
    requires h.Valid() && KeyText(mid) && LineOk(Line(Input(mid), Filed(now, paths))) && |h.text| + LEN < OFFSETS
    modifies h`text, h`lines, h`hisdirty, h.db, h.db.srch, h.db.pagf, h.db.corepag, h.db.cases, h.db.cases.cmap
    ensures h.Valid() && h.db == old(h.db)
    ensures r == if |mid| < DBZMAXKEY then 0 else -1
    ensures h.lines == old(AddUnlessFound(h.db.lay, h.lines, Line(Input(mid), Filed(now, paths))))
    ensures old(h.Synced()) ==> h.Synced()
    ensures old(DistinctKeys(h.lines)) ==> DistinctKeys(h.lines)
    ensures forall k :: k != Input(mid) ==> Scan(h.text, k) == old(Scan(h.text, k))
    ensures |mid| < DBZMAXKEY ==>
              Scan(h.text, mid) == if old(Scan(h.text, mid)).Some? then old(Scan(h.text, mid))
                                   else if old(Clear(h.db.lay, h.lines, mid)) then Some(Filed(now, paths))
                                   else None
  {
    ghost var lines := h.lines;
    var found := DBfetch(h, mid);
    ScanIsFirstLine(lines, Input(mid));
    if found.Some? {
      r := 0;
    } else {
      r := DBstore(h, mid, paths, now);
      AddedLine(lines, Line(Input(mid), Filed(now, paths)));
    }
  }

  /** Adding a line for a key that a scan does not find. */
  lemma AddedLine(lines: seq<Line>, l: Line)
    requires LinesOk(lines) && LineOk(l)
    requires |l.key| < DBZMAXKEY ==> Scan(Render(lines), l.key) == None
    ensures forall k :: k != l.key ==> Scan(Render(lines + [l]), k) == Scan(Render(lines), k)
    ensures |l.key| < DBZMAXKEY ==> Scan(Render(lines + [l]), l.key) == Some(l.rest)
    ensures DistinctKeys(lines) ==> DistinctKeys(lines + [l])
  {
    RenderOneMore(lines, l);
    assert LinesOk(lines + [l]);
    forall k
      ensures Scan(Render(lines + [l]), k) == FirstLine(lines + [l], k) && Scan(Render(lines), k) == FirstLine(lines, k)
    {
      ScanIsFirstLine(lines + [l], k);
      ScanIsFirstLine(lines, k);
    }
    if |l.key| < DBZMAXKEY {
      AbsentKey(lines, l.key);
    }
  }
}
