/** The database: a page file of words, whose first table may be held in memory, and a searcher that is kept between
    calls. */
module Dbz {
  import opened Text
  import opened CaseMap
  import CrcHash
  import opened Probe
  import opened Words
  import opened PageFile
  import opened StoreLog
  import opened DirConfig
  import ConfFile
  import Bits

  /** Stands on a slot of the probe path of a hash value. tabno is the number of the table that the slot is in, and run
      counts the probes that are still to be made there; an entry under another tag than tag is of no interest. Until
      seen is set, the slot itself is the next one to be looked at. */
  class Searcher {
    var place: nat
    var tabno: nat
    var run: nat
    var hash: nat
    var tag: nat
    var seen: bool
    ghost var probe: nat

    constructor () {
    }

    /** The fields describe probe number `probe` on the path of `hash`. */
    ghost predicate At(lay: Layout)
      reads this
    {
      && place == lay.geo.Place(hash, probe)
      && tabno == lay.geo.Table(probe)
      && run == lay.geo.RunLeft(probe)
      && tag == lay.TagOf(hash)
    }

    /** The next probe to be examined. */
    ghost function NextIndex(): nat
      reads this
    {
      if seen then probe + 1 else probe
    }

    /** Go to the first probe of a hash, unless the remembered search was for the same one: then stay there. */
    method Start(lay: Layout, h: nat, osp: Searcher?)
      requires osp != null ==> osp == this && At(lay)
      modifies this
      ensures At(lay) && hash == h && !seen
      ensures probe == if osp != null && old(hash) == h then old(probe) else 0
    {
      if osp == null || osp.hash != h {
        hash := h;
        tag := lay.coding.MakeTag(h / lay.geo.tsize, lay.tagshift);
        place := h % lay.geo.tsize;
        tabno := 0;
        run := lay.geo.FirstRun();
        probe := 0;
      }
      seen := false;
    }

    /** Go one probe further, unless this one was not looked at yet. */
    method Advance(lay: Layout)
      requires At(lay)
      modifies this
      ensures At(lay) && hash == old(hash)
      ensures seen && probe == old(NextIndex())
    {
      if seen {
        NextProbe(lay.geo, hash, probe);
        if run - 1 <= 0 {
          tabno := tabno + 1;
          run := MAXRUN;
        } else {
          run := run - 1;
        }
        place := (place + 1) % lay.geo.tsize + tabno * lay.geo.tsize;
        probe := probe + 1;
      } else {
        seen := true;
      }
    }

    /** Undo the byte order and the bias of a word, and check the tag. */
    method Examine(lay: Layout, word: nat) returns (slot: Slot)
      ensures slot == lay.coding.Decode(word, tag)
    {
      var value := lay.coding.MapIn(word);
      if value == VACANT {
        return Empty;
      }
      value := Unbias(value);
      if !lay.coding.HasTag(value) {
        return Holds(value);
      } else if Bits.And(value, lay.coding.tagbits) == tag {
        return Holds(Bits.AndNot(value, lay.coding.Tagboth()));
      }
      return Foreign;
    }
  }

  /** The words of the file are exactly those of the entries, in their slots. */
  ghost predicate FileHolds(words: seq<nat>, b: Book) {
    forall p: nat :: WordAt(words, p) == WordFor(b, p)
  }

  /** What a slot means to a search with hash h. */
  function SlotFor(b: Book, p: nat, h: nat): Slot {
    if p !in b.owner then Empty
    else if b.lay.Skips(EntryAt(b, p), h) then Foreign
    else Holds(EntryAt(b, p).value)
  }

  lemma SlotMeaning(b: Book, p: nat, h: nat)
    requires b.Good()
    ensures b.lay.coding.Decode(WordFor(b, p), b.lay.TagOf(h)) == SlotFor(b, p, h)
  {
    if p in b.owner {
      assert EntryAt(b, p) in b.log;
      var e := EntryAt(b, p);
      TagOfInside(b.lay, CrcHash.HashCode(e.key));
      StoredSlot(b.lay.coding, e.value, b.lay.TagOf(CrcHash.HashCode(e.key)), b.lay.TagOf(h));
    } else {
      MapRoundTrip(b.lay.coding, 0);
    }
  }

  /** The probes from..to-1 are all taken by entries that a search with this hash need not look up. */
  ghost predicate PassedOver(b: Book, h: nat, from: nat, to: nat) {
    forall i :: from <= i < to ==>
      var p := b.lay.geo.Place(h, i); p in b.owner && b.lay.Skips(EntryAt(b, p), h)
  }

  lemma PassOneMore(b: Book, h: nat, from: nat, to: nat)
    requires PassedOver(b, h, from, to)
    requires var p := b.lay.geo.Place(h, to); p in b.owner && b.lay.Skips(EntryAt(b, p), h)
    ensures PassedOver(b, h, from, to + 1)
  {}

  lemma SkippedPasses(b: Book, base: Str, key: Str, from: nat, to: nat)
    requires key != [] && from <= to
    requires PassedBy(b, base, key, from) && PassedOver(b, CrcHash.HashCode(key), from, to)
    ensures PassedBy(b, base, key, to)
  {
    forall i | 0 <= i < to
      ensures Passes(b, base, key, b.lay.Slot(key, i))
    {
      if from <= i {
        assert b.lay.geo.Place(CrcHash.HashCode(key), i) in b.owner;
      }
    }
  }

  lemma VacantEnd(b: Book, base: Str, key: Str, n: nat)
    requires key != [] && PassedBy(b, base, key, n) && b.lay.Slot(key, n) !in b.owner
    ensures FirstVacant(b, CrcHash.HashCode(key), n)
  {
    forall i | 0 <= i < n
      ensures b.lay.geo.Place(CrcHash.HashCode(key), i) in b.owner
    {
      assert Passes(b, base, key, b.lay.Slot(key, i));
    }
  }

  /** The first table of the file, with zeros for what the file lacks. */
  method GetCore(words: seq<nat>, tsize: nat) returns (core: array<nat>)
    ensures fresh(core) && core.Length == tsize
    ensures forall p :: 0 <= p < tsize ==> core[p] == WordAt(words, p)
  {
    core := new nat[tsize];
    var nread := if |words| < tsize then |words| else tsize;
    for i := 0 to nread
      invariant forall p :: 0 <= p < i ==> core[p] == words[p]
    {
      core[i] := words[i];
    }
    for i := nread to tsize
      invariant forall p :: 0 <= p < i ==> core[p] == WordAt(words, p)
    {
      core[i] := VACANT;
    }
  }

  /** Compare what was read with as much of the key. A final NUL demands the separator or a NUL. */
  method CompareBuffer(fieldsep: Byte, key: Str, buffer: Str) returns (v: Verdict)
    requires buffer != [] && |buffer| <= |key|
    ensures v == Hit <==> if key[|buffer| - 1] == NUL
                          then buffer[..|buffer| - 1] == key[..|buffer| - 1] && buffer[|buffer| - 1] in [fieldsep, NUL]
                          else buffer == key[..|buffer|]
    ensures v != Short
  {
    var keysize := |buffer|;
    var cmplen := keysize;
    if key[keysize - 1] == NUL {
      cmplen := cmplen - 1;
      if !(buffer[keysize - 1] == fieldsep || buffer[keysize - 1] == NUL) {
        return Miss;
      }
    }
    assert buffer[..keysize] == buffer;
    return if buffer[..cmplen] == key[..cmplen] then Hit else Miss;
  }

  /** Read the record at an offset and compare it with the key. */
  method TryRecord(cases: CaseTable, lay: Layout, key: Str, base: Str, offset: nat) returns (v: Verdict)
    requires cases.Valid() && key != []
    modifies cases, cases.cmap
    ensures cases.Valid()
    ensures v == Compare(lay, base, key, offset)
  {
    var keysize := if |key| >= DBZMAXKEY then DBZMAXKEY else |key|;
    if offset + keysize > |base| {
      return Short;
    }
    var buffer := cases.MapCase(lay.casemap, base[offset..offset + keysize]);
    v := CompareBuffer(lay.fieldsep, key, buffer);
  }

  /** The first table is in core, if there is a core copy, and the rest in the file. */
  function FlatWord(words: seq<nat>, core: seq<nat>, p: nat): nat {
    if p < |core| then core[p] else WordAt(words, p)
  }

  ghost predicate Holding(words: seq<nat>, core: seq<nat>, b: Book) {
    forall p: nat :: FlatWord(words, core, p) == WordFor(b, p)
  }

  /** The new table differs from the old one in one slot at most. */
  ghost predicate Updated(words: seq<nat>, core: seq<nat>, words': seq<nat>, core': seq<nat>, place: nat, word: nat) {
    forall p: nat :: FlatWord(words', core', p) == if p == place then word else FlatWord(words, core, p)
  }

  lemma HoldingAfter(words: seq<nat>, core: seq<nat>, words': seq<nat>, core': seq<nat>,
                     lay: Layout, log: seq<Entry>, e: Entry, d: nat)
    requires LogOk(lay, log) && EntryOk(lay, e) && FirstVacant(Replay(lay, log), CrcHash.HashCode(e.key), d)
    requires Holding(words, core, Replay(lay, log))
             && Updated(words, core, words', core', lay.Slot(e.key, d), lay.WordOf(e))
    ensures Holding(words', core', Replay(lay, log + [e])) && LogOk(lay, log + [e])
  {
    var b, b' := Replay(lay, log), Replay(lay, log + [e]);
    ReplayIsGood(lay, log);
    ReplayOneMore(lay, log, e, d);
    forall p: nat
      ensures FlatWord(words', core', p) == WordFor(b', p)
    {
      assert FlatWord(words, core, p) == WordFor(b, p);
      WordAfterStore(b, e, d, p);
    }
  }

  lemma WordAfterStore(b: Book, e: Entry, d: nat, p: nat)
    requires b.OwnersOk()
    ensures WordFor(Stored(b, e, d), p) == if p == b.lay.Slot(e.key, d) then b.lay.WordOf(e) else WordFor(b, p)
  {}

  /** The value of an entry is never mistaken for NOTFOUND. */
  lemma StoredValue(lay: Layout, log: seq<Entry>, p: nat)
    requires LogOk(lay, log) && p in Replay(lay, log).owner
    ensures EntryAt(Replay(lay, log), p).value != NOTFOUND
  {
    ReplayIsGood(lay, log);
    assert EntryAt(Replay(lay, log), p) in log;
  }

  ghost predicate Copied(words: seq<nat>, core: seq<nat>) {
    forall p :: 0 <= p < |core| ==> WordAt(words, p) == core[p]
  }

  lemma Occupied(b: Book, h: nat, from: nat, to: nat)
    requires TakenUpTo(b, h, from) && PassedOver(b, h, from, to)
    ensures TakenUpTo(b, h, to)
  {}

  lemma WalkResult(b: Book, base: Str, key: Str, n: nat, v: Verdict, keyPtr: nat)
    requires key != [] && PassedBy(b, base, key, n)
    requires SlotFor(b, b.lay.Slot(key, n), CrcHash.HashCode(key))
          == if keyPtr == NOTFOUND then Empty else Holds(keyPtr)
    requires v == Miss <==> keyPtr == NOTFOUND
    requires v != Miss ==> v == Compare(b.lay, base, key, keyPtr)
    ensures StopsAt(b, base, key, n, if v == Hit then Some(keyPtr) else None)
    ensures v == Miss ==> FirstVacant(b, CrcHash.HashCode(key), n)
  {
    if v == Miss {
      VacantEnd(b, base, key, n);
    }
  }

  lemma MissPasses(b: Book, base: Str, key: Str, n: nat, keyPtr: nat)
    requires key != [] && PassedBy(b, base, key, n)
    requires SlotFor(b, b.lay.Slot(key, n), CrcHash.HashCode(key)) == Holds(keyPtr)
    requires Compare(b.lay, base, key, keyPtr) == Miss
    ensures PassedBy(b, base, key, n + 1)
  {}

  class Database {
    const writethrough: bool
    const pagronly: bool
    const lay: Layout
    const pagf: Pages
    const corepag: array?<nat>
    const srch: Searcher
    const crcTable: seq<nat>
    const cases: CaseTable
    var conf: Config
    var dirf: Str
    var pagpos: int
    var prevp: Searcher?
    var written: bool
    ghost var log: seq<Entry>
    ghost const uncounted: int  // used[0] less the stores that are known

    /** Where the stores so far went. */
    ghost function Index(): Book
      reads `log
    {
      Replay(lay, log)
    }

    /** The contents of the core copy. */
    function Core(): seq<nat>
      reads corepag
    {
      if corepag == null then [] else corepag[..]
    }

    /** Every slot holds the word of its owner, or zero. */
    ghost predicate SlotsOk()
      reads `log, pagf`words, corepag
    {
      Holding(pagf.words, Core(), Index())
    }

    /** The remembered position is unknown, or right, or lies with the real one past everything that is in the file. */
    ghost predicate CursorOk()
      reads `pagpos, pagf
    {
      && pagf.pos % SOF == 0
      && (pagpos == -1 || (pagpos >= 0 && pagpos % SOF == 0
                           && (pagpos == pagf.pos || (pagpos >= SOF * |pagf.words| && pagf.pos >= SOF * |pagf.words|))))
      && (corepag != null && pagpos != -1 ==> pagpos >= SOF * corepag.Length && pagf.pos >= SOF * corepag.Length)
    }

    /** The file agrees with the core copy, unless stores wait for dbzsync. */
    ghost predicate FileOk()
      reads `written, pagf`words, corepag
    {
      corepag != null && (writethrough || !written) ==> Copied(pagf.words, Core())
    }

    ghost predicate Coherent()
      reads `conf, `log, `pagpos, `written, pagf, corepag
    {
      && LogOk(lay, log) && |conf.used| == NUSEDS
      && CrcHash.Initialised(crcTable)
      && (corepag != null ==> corepag.Length == lay.geo.tsize && corepag as object != cases.cmap)
      && SlotsOk() && CursorOk() && FileOk()
    }

    /** A remembered search stands at the first vacant slot of its path. */
    ghost predicate PrevOk()
      reads `prevp, `log, srch
    {
      prevp != null ==> prevp == srch && srch.At(lay) && FirstVacant(Index(), srch.hash, srch.probe)
    }

    /** The .dir file describes the database, as far as it was written; an old database has an empty one. */
    ghost predicate DirOk()
      reads `dirf, `conf, `written, pagf`words
    {
      if conf.olddbz then
        dirf == [] && pagf.words != [] && conf == DefaultConfig(true).(used := conf.used)
        && (!written ==> conf == DefaultConfig(true))
      else
        !written ==> GetConf(dirf, pagf.words != []) == Some(conf)
    }

    /** The configuration fits the table, and the .dir file fits the configuration. */
    ghost predicate FilesOk()
      reads `dirf, `conf, `written, pagf`words
    {
      DirOk() && conf.Usable() && lay == conf.LayoutOf()
    }

    ghost predicate Valid()
      reads `conf, `log, `pagpos, `written, `prevp, pagf, corepag, srch, cases, cases.cmap
    {
      Coherent() && PrevOk() && CountOk() && cases.Valid()
    }

    /** used[0] goes up with the stores. */
    ghost predicate CountOk()
      reads `conf, `log
    {
      |conf.used| == NUSEDS && conf.used[0] == uncounted + |log|
    }

    /** dbminit, once the configuration is known: the page file must hold what was stored before. */
    constructor (pagf: Pages, dirf: Str, conf: Config, incore: bool, writethrough: bool, pagronly: bool,
                 ghost log: seq<Entry>)
      requires conf.Usable() && LogOk(conf.LayoutOf(), log) && pagf.pos % SOF == 0
      requires FileHolds(pagf.words, Replay(conf.LayoutOf(), log))
      ensures Valid() && fresh(srch) && fresh(cases) && fresh(cases.cmap)
      ensures corepag != null ==> fresh(corepag)
      ensures this.pagf == pagf && this.dirf == dirf && this.conf == conf
      ensures this.writethrough == writethrough && this.pagronly == pagronly && (corepag != null <==> incore)
      ensures this.log == log && lay == conf.LayoutOf() && prevp == null && !written
      ensures uncounted == conf.used[0] - |log|
    {
      var table := new nat[128];
      CrcHash.CrcInit(table);
      var core: array?<nat> := null;
      if incore {
        core := GetCore(pagf.words, conf.tsize);
      }
      this.lay, this.conf := conf.LayoutOf(), conf;
      this.pagf, this.dirf, this.pagpos := pagf, dirf, -1;
      this.writethrough, this.pagronly := writethrough, pagronly;
      this.corepag, this.crcTable := core, table[..];
      this.srch := new Searcher();
      this.cases := new CaseTable();
      this.prevp, this.written := null, false;
      this.log, this.uncounted := log, conf.used[0] - |log|;
    }

    // ----- searching

    /** Read the slot at a place from the file, seeking only if the remembered position is another one. */
    method ReadSlot(place: nat) returns (val: nat)
      requires CursorOk() && (corepag != null ==> place >= corepag.Length)
      modifies this`pagpos, pagf`pos
      ensures CursorOk()
      ensures val == WordAt(pagf.words, place)
    {
      var dest := place * SOF;
      if pagpos != dest {
        pagf.Seek(dest);
        pagpos := dest;
      }
      var ok, v := pagf.Read();
      val := if ok then v else VACANT;
      pagpos := pagpos + SOF;
    }

    /** A slot of the table, from core or file. */
    method FetchSlot(place: nat) returns (word: nat)
      requires Coherent()
      modifies this`pagpos, pagf`pos
      ensures Coherent()
      ensures word == WordFor(Index(), place)
    {
      if corepag != null && place < corepag.Length {
        word := corepag[place];
      } else {
        word := ReadSlot(place);
      }
      assert word == FlatWord(pagf.words, Core(), place);
    }

    /** One turn of the search: go to the next location and examine it. */
    method Look() returns (slot: Slot)
      requires Coherent() && srch.At(lay)
      modifies srch, this`pagpos, pagf`pos
      ensures Coherent() && srch.At(lay) && srch.hash == old(srch.hash)
      ensures srch.seen && srch.probe == old(srch.NextIndex())
      ensures slot == SlotFor(Index(), srch.place, srch.hash)
    {
      srch.Advance(lay);
      var word := FetchSlot(srch.place);
      slot := srch.Examine(lay, word);
      ReplayIsGood(lay, log);
      SlotMeaning(Index(), srch.place, srch.hash);
    }

    /** Pass over foreign entries, up to the next slot that is vacant or worth a comparison. */
    method Search() returns (r: nat)
      requires Coherent() && srch.At(lay)
      modifies srch, this`pagpos, pagf`pos
      ensures Coherent() && srch.At(lay) && srch.hash == old(srch.hash)
      ensures srch.seen && srch.probe >= old(srch.NextIndex())
      ensures PassedOver(Index(), srch.hash, old(srch.NextIndex()), srch.probe)
      ensures SlotFor(Index(), srch.place, srch.hash) == if r == NOTFOUND then Empty else Holds(r)
    {
      ghost var h, first := srch.hash, srch.NextIndex();
      ghost var bound := SearchEnds(Index(), h);
      var slot := Look();
      while slot.Foreign?
        invariant Coherent() && srch.At(lay) && srch.hash == h && srch.seen
        invariant srch.probe >= first && PassedOver(Index(), h, first, srch.probe)
        invariant slot == SlotFor(Index(), srch.place, h)
        decreases bound - srch.probe
      {
        PassOneMore(Index(), h, first, srch.probe);
        slot := Look();
      }
      if slot.Holds? {
        StoredValue(lay, log, srch.place);
      }
      r := if slot.Empty? then NOTFOUND else slot.value;
    }

    // ----- fetching

    /** The search stands on a candidate for the key (or on a vacant slot), and passed by everything before. */
    ghost predicate StandsOn(key: Str, base: Str, keyPtr: nat)
      requires key != []
      reads `log, srch
    {
      && srch.At(lay) && srch.hash == CrcHash.HashCode(key) && srch.seen
      && PassedBy(Index(), base, key, srch.probe)
      && SlotFor(Index(), srch.place, srch.hash) == if keyPtr == NOTFOUND then Empty else Holds(keyPtr)
    }

    /** Search on, for a key whose walk has passed everything up to here. */
    method NextCandidate(key: Str, base: Str) returns (r: nat)
      requires Coherent() && key != [] && srch.At(lay) && srch.hash == CrcHash.HashCode(key)
      requires PassedBy(Index(), base, key, srch.NextIndex())
      modifies srch, this`pagpos, pagf`pos
      ensures Coherent() && StandsOn(key, base, r) && srch.probe >= old(srch.NextIndex())
    {
      ghost var from := srch.NextIndex();
      r := Search();
      SkippedPasses(Index(), base, key, from, srch.probe);
    }

    method KeyHash(key: Str) returns (h: nat)
      requires CrcHash.Initialised(crcTable)
      ensures h == CrcHash.HashCode(key)
    {
      h := CrcHash.Hash(crcTable, key);
    }

    /** Start the walk of a fetch. */
    method FirstCandidate(key: Str, base: Str) returns (r: nat)
      requires Coherent() && key != []
      modifies srch, this`pagpos, pagf`pos
      ensures Coherent() && StandsOn(key, base, r)
    {
      var h := KeyHash(key);
      srch.Start(lay, h, null);
      r := NextCandidate(key, base);
    }

    /** Try the candidate, and go on to the next one if it is not the key. */
    method Turn(key: Str, base: Str, keyPtr: nat) returns (v: Verdict, r: nat)
      requires Coherent() && cases.Valid() && key != [] && StandsOn(key, base, keyPtr) && keyPtr != NOTFOUND
      modifies srch, this`pagpos, pagf`pos, cases, cases.cmap
      ensures Coherent() && cases.Valid() && StandsOn(key, base, r)
      ensures v == Compare(lay, base, key, keyPtr)
      ensures v == Miss ==> srch.probe > old(srch.probe)
      ensures v != Miss ==> r == keyPtr && srch.probe == old(srch.probe)
    {
      v := TryRecord(cases, lay, key, base, keyPtr);
      r := keyPtr;
      if v == Miss {
        MissPasses(Index(), base, key, srch.probe, keyPtr);
        r := NextCandidate(key, base);
      }
    }

    /** Go from candidate to candidate until one is decided or a vacant slot is met. */
    method Walk(key: Str, base: Str) returns (v: Verdict, keyPtr: nat)
      requires Coherent() && cases.Valid() && key != []
      modifies this`pagpos, srch, pagf`pos, cases, cases.cmap
      ensures Coherent() && cases.Valid() && srch.At(lay) && srch.hash == CrcHash.HashCode(key)
      ensures StopsAt(Index(), base, key, srch.probe, if v == Hit then Some(keyPtr) else None)
      ensures v == Miss ==> FirstVacant(Index(), srch.hash, srch.probe)
    {
      ghost var bound := SearchEnds(Index(), CrcHash.HashCode(key));
      v := Miss;
      keyPtr := FirstCandidate(key, base);
      while keyPtr != NOTFOUND && v == Miss
        invariant Coherent() && cases.Valid() && StandsOn(key, base, keyPtr)
        invariant v == Miss || (keyPtr != NOTFOUND && v == Compare(lay, base, key, keyPtr))
        decreases bound - srch.probe, v == Miss
      {
        v, keyPtr := Turn(key, base, keyPtr);
      }
      WalkResult(Index(), base, key, srch.probe, v, keyPtr);
    }

    /** Remember where a search stopped, or forget it. */
    method Remember(where: bool)
      requires Coherent() && CountOk() && cases.Valid()
      requires where ==> srch.At(lay) && FirstVacant(Index(), srch.hash, srch.probe)
      modifies this`prevp
      ensures Valid() && prevp == if where then srch else null
    {
      prevp := if where then srch else null;
    }

    /** Look a key up as it is. Probe n is where the walk ended. */
    method Fetch(key: Str, base: Str) returns (r: Option<nat>, ghost n: nat)
      requires Valid() && key != []
      modifies this`prevp, this`pagpos, srch, pagf`pos, cases, cases.cmap
      ensures Valid()
      ensures StopsAt(Index(), base, key, n, r)
      ensures prevp != null ==> r == None
    {
      Remember(false);
      var v, keyPtr := Walk(key, base);
      n := srch.probe;
      r := if v == Hit then Some(keyPtr) else None;
      Remember(v == Miss);
    }

    // ----- storing

    /** Write a word into a slot: into the core copy, and into the file when it is not held there alone. */
    method WriteSlot(place: nat, word: nat)
      requires CursorOk() && FileOk() && written
      modifies corepag, pagf, this`pagpos
      ensures CursorOk() && FileOk()
      ensures Updated(old(pagf.words), old(Core()), pagf.words, Core(), place, word)
      ensures |pagf.words| >= old(|pagf.words|)
    {
      if corepag != null && place < corepag.Length {
        corepag[place] := word;
        if !writethrough {
          return;
        }
      }
      pagpos := -1;
      pagf.Seek(place * SOF);
      pagf.Write(word);
    }

    /** The word for a value, tagged if that is possible. */
    method TagAndBias(value: nat) returns (word: nat)
      ensures word == lay.coding.Encode(value, srch.tag)
    {
      var v := value;
      if lay.coding.CanTag(value) && !lay.coding.olddbz {
        v := Bits.Or(value, Bits.Or(srch.tag, lay.coding.taghere));
        if v == NOTFOUND {
          v := value;
        }
      }
      word := lay.coding.MapOut(Bias(v));
    }

    /** Fill the vacant slot on which the searcher stands. */
    method Set(value: nat, ghost key: Str)
      requires Coherent() && written && srch.At(lay) && srch.hash == CrcHash.HashCode(key)
      requires FirstVacant(Index(), srch.hash, srch.probe)
      requires lay.coding.Storable(value) && key != [] && |key| < DBZMAXKEY
      modifies this`log, this`pagpos, corepag, pagf
      ensures Coherent() && log == old(log) + [Entry(key, value)]
      ensures |pagf.words| >= old(|pagf.words|)
    {
      var word := TagAndBias(value);
      WriteSlot(srch.place, word);
      HoldingAfter(old(pagf.words), old(Core()), pagf.words, Core(), lay, log, Entry(key, value), srch.probe);
      log := log + [Entry(key, value)];
    }

    /** Search on until a vacant slot is found. */
    method NextVacancy() returns (r: nat)
      requires Coherent() && srch.At(lay)
      requires TakenUpTo(Index(), srch.hash, srch.NextIndex())
      modifies srch, this`pagpos, pagf`pos
      ensures Coherent() && srch.At(lay) && srch.hash == old(srch.hash) && srch.seen
      ensures srch.probe >= old(srch.NextIndex())
      ensures TakenUpTo(Index(), srch.hash, srch.probe)
      ensures r == NOTFOUND <==> srch.place !in Index().owner
    {
      ghost var first := srch.NextIndex();
      r := Search();
      Occupied(Index(), srch.hash, first, srch.probe);
    }

    /** Go to the first vacant slot of a key, from where the remembered search stands if that was on the same path. */
    method FindVacant(key: Str)
      requires Valid() && key != []
      modifies srch, this`pagpos, pagf`pos
      ensures Coherent() && srch.At(lay) && srch.hash == CrcHash.HashCode(key)
      ensures FirstVacant(Index(), srch.hash, srch.probe)
    {
      var h := KeyHash(key);
      ghost var bound := SearchEnds(Index(), h);
      srch.Start(lay, h, prevp);
      var r := NextVacancy();
      while r != NOTFOUND
        invariant Coherent() && srch.At(lay) && srch.hash == h && srch.seen
        invariant TakenUpTo(Index(), h, srch.probe)
        invariant r == NOTFOUND <==> srch.place !in Index().owner
        decreases bound - srch.probe
      {
        assert TakenUpTo(Index(), h, srch.probe + 1);
        r := NextVacancy();
      }
    }

    /** The bookkeeping of a store. */
    method CountStore()
      requires Coherent()
      modifies this`prevp, this`conf, this`written
      ensures Coherent() && written && prevp == null
      ensures conf == old(conf).(used := old(conf).used[0 := old(conf).used[0] + 1])
    {
      prevp := null;
      conf := conf.(used := conf.used[0 := conf.used[0] + 1]);
      written := true;
    }

    /** The part of a store that comes after the checks. */
    method StoreChecked(key: Str, value: nat) returns (ghost d: nat)
      requires Valid() && key != [] && |key| < DBZMAXKEY && lay.coding.Storable(value)
      modifies srch, this`prevp, this`pagpos, this`conf, this`written, this`log, corepag, pagf
      ensures Coherent() && written && prevp == null
      ensures FirstVacant(old(Index()), CrcHash.HashCode(key), d) && log == old(log) + [Entry(key, value)]
      ensures conf == old(conf).(used := old(conf).used[0 := old(conf).used[0] + 1])
      ensures old(FilesOk()) ==> FilesOk()
      ensures |pagf.words| >= old(|pagf.words|)
    {
      FindVacant(key);
      d := srch.probe;
      CountStore();
      Set(value, key);
      if old(FilesOk()) {
        UsedIsIrrelevant(old(conf), conf.used);
      }
    }

    /** store() refuses a read-only database, a long key, and a value that looks tagged. */
    predicate Refuses(key: Str, value: nat) {
      pagronly || |key| >= DBZMAXKEY || lay.coding.HasTag(value)
    }

    /** The files hold every store, and the .dir file describes them with the present usage counts. */
    ghost predicate Flushed()
      reads `log, `conf, `dirf, pagf`words
    {
      FileHolds(pagf.words, Index()) && GetConf(dirf, pagf.words != []) == Some(conf)
    }

    /** Store a value under a key as it is. It goes to the first vacant slot on the path of the key (probe d),
        whether or not a previous search is resumed. */
    method Store(key: Str, value: nat) returns (r: int, ghost d: nat)
      requires Valid() && key != [] && value < OFFSETS
      modifies srch, this`prevp, this`pagpos, this`conf, this`written, this`log, corepag, pagf
      ensures Valid()
      ensures r == if Refuses(key, value) then -1 else 0
      ensures r == -1 ==> log == old(log) && conf == old(conf) && written == old(written) && prevp == old(prevp)
                          && pagf.words == old(pagf.words)
      ensures r == 0 ==> written && prevp == null
      ensures r == 0 ==> FirstVacant(old(Index()), CrcHash.HashCode(key), d) && log == old(log) + [Entry(key, value)]
      ensures r == 0 ==> conf == old(conf).(used := old(conf).used[0 := old(conf).used[0] + 1])
      ensures old(FilesOk()) ==> FilesOk()
      ensures |pagf.words| >= old(|pagf.words|)
    {
      d := 0;
      if Refuses(key, value) {
        return -1, 0;
      }
      d := StoreChecked(key, value);
      return 0, d;
    }

    // ----- the case-mapping entry points

    /** Fold a key and look it up. The answer is the value of the first store of the folded key, exactly when no
        impostor is met on the way. */
    method DbzFetch(key: Str, base: Str) returns (r: Option<nat>, ghost n: nat)
      requires Valid() && key != []
      modifies this`prevp, this`pagpos, srch, pagf`pos, cases, cases.cmap
      ensures Valid()
      ensures StopsAt(Index(), base, Mapped(lay, key), n, r)
      ensures Mapped(lay, key) == Fold(lay.casemap, key[..if |key| < 255 then |key| else 255])
      ensures Answers(lay, log, base, Mapped(lay, key), r)
      ensures prevp != null ==> r == None
    {
      var keysize := if |key| >= DBZMAXKEY then DBZMAXKEY else |key|;
      assert key[..|key|] == key;
      var mapped := MapKey(key[..keysize]);
      r, n := Fetch(mapped, base);
      WalkAnswers(lay, log, base, mapped, n, r);
    }

    method MapKey(key: Str) returns (mapped: Str)
      requires Valid()
      modifies cases, cases.cmap
      ensures Valid() && mapped == Fold(lay.casemap, key)
    {
      mapped := cases.MapCase(lay.casemap, key);
    }

    method StoreMapped(key: Str, value: nat) returns (r: int)
      requires Valid() && 0 < |key| < DBZMAXKEY && value < OFFSETS
      modifies srch, this`prevp, this`pagpos, this`conf, this`written, this`log, corepag, pagf, cases, cases.cmap
      ensures Valid()
      ensures r == if Refuses(key, value) then -1 else 0
      ensures r == 0 ==> log == old(log) + [Entry(Fold(lay.casemap, key), value)] && written
      ensures r == 0 ==> conf == old(conf).(used := old(conf).used[0 := old(conf).used[0] + 1])
      ensures old(FilesOk()) ==> FilesOk()
      ensures |pagf.words| >= old(|pagf.words|)
      ensures r == -1 ==> log == old(log) && conf == old(conf) && written == old(written)
                          && pagf.words == old(pagf.words)
    {
      var mapped := MapKey(key);
      ghost var d;
      r, d := Store(mapped, value);
    }

    /** Fold a key and store a value under it. */
    method DbzStore(key: Str, value: nat) returns (r: int)
      requires Valid() && key != [] && value < OFFSETS
      modifies srch, this`prevp, this`pagpos, this`conf, this`written, this`log, corepag, pagf, cases, cases.cmap
      ensures Valid()
      ensures r == if Refuses(key, value) then -1 else 0
      ensures r == -1 <==> pagronly || |key| >= 255 || Bits.And(value, lay.coding.taghere) != 0
      ensures r == 0 ==> log == old(log) + [Entry(Fold(lay.casemap, key), value)] && written
      ensures r == 0 ==> conf == old(conf).(used := old(conf).used[0 := old(conf).used[0] + 1])
      ensures old(FilesOk()) ==> FilesOk()
      ensures |pagf.words| >= old(|pagf.words|)
      ensures r == -1 ==> log == old(log) && conf == old(conf) && written == old(written)
                          && pagf.words == old(pagf.words)
    {
      if |key| >= DBZMAXKEY {
        return -1;
      }
      r := StoreMapped(key, value);
    }

    // ----- synchronising

    /** Rewrite the first table of the file from core. */
    method PutCore()
      requires Coherent() && corepag != null
      modifies pagf`words
      ensures Coherent()
      ensures Copied(pagf.words, Core()) && |pagf.words| >= old(|pagf.words|)
    {
      ghost var was := pagf.words;
      for i := 0 to corepag.Length
        invariant forall p :: 0 <= p < i ==> WordAt(pagf.words, p) == corepag[p]
        invariant forall p :: p >= i ==> WordAt(pagf.words, p) == WordAt(was, p)
        invariant |pagf.words| == if i < |was| then |was| else i
      {
        pagf.words := Put(pagf.words, i, corepag[i]);
      }
      assert forall p: nat :: FlatWord(pagf.words, Core(), p) == FlatWord(was, Core(), p);
    }

    /** Make the page file complete. */
    method SyncPages()
      requires Valid()
      modifies pagf`words
      ensures Valid() && FileHolds(pagf.words, Index()) && |pagf.words| >= old(|pagf.words|)
      ensures !written ==> pagf.words == old(pagf.words)
    {
      if written && corepag != null && !writethrough {
        PutCore();
      }
      NothingToSync(pagf.words, Core(), Index());
    }

    method WriteDir()
      requires Printable(conf)
      modifies this`dirf
      ensures GetConf(dirf, pagf.words != []) == Some(conf.(olddbz := false))
    {
      var text := ConfFile.WriteConf(conf);
      RewriteIsSafe(dirf, conf, pagf.words != []);
      dirf := Overwrite(dirf, text);
    }

    /** Bring the files up to date. Afterwards they alone determine the database. */
    method Sync()
      requires Valid() && FilesOk() && Printable(conf)
      modifies pagf`words, this`dirf
      ensures Valid() && FilesOk() && FileHolds(pagf.words, Index())
      ensures !conf.olddbz ==> GetConf(dirf, pagf.words != []) == Some(conf) && Flushed()
      ensures conf.olddbz ==> dirf == [] && pagf.words != []
    {
      SyncPages();
      if written && !conf.olddbz {
        WriteDir();
      }
    }
  }

  /** The slots that are in use, in core and in the file. */
  function UsedSlots(words: seq<nat>, core: seq<nat>): set<nat> {
    set p: nat | 0 <= p < |words| + |core| && FlatWord(words, core, p) != VACANT
  }

  lemma OwnedIsUsed(lay: Layout, log: seq<Entry>, p: nat)
    requires LogOk(lay, log)
    ensures WordFor(Replay(lay, log), p) != VACANT <==> p in Replay(lay, log).owner
  {
    var b := Replay(lay, log);
    ReplayIsGood(lay, log);
    if p in b.owner {
      var e := EntryAt(b, p);
      assert e in log;
      TagOfInside(lay, CrcHash.HashCode(e.key));
      StoredSlot(lay.coding, e.value, lay.TagOf(CrcHash.HashCode(e.key)), 0);
    }
  }

  /** As many words of the table differ from zero as there were stores. */
  lemma UsedIsStored(words: seq<nat>, core: seq<nat>, lay: Layout, log: seq<Entry>)
    requires LogOk(lay, log) && Holding(words, core, Replay(lay, log))
    ensures |UsedSlots(words, core)| == |log|
  {
    var b := Replay(lay, log);
    ReplayIsGood(lay, log);
    forall p: nat
      ensures p in UsedSlots(words, core) <==> p in b.owner
    {
      OwnedIsUsed(lay, log, p);
      assert FlatWord(words, core, p) == WordFor(b, p);
    }
    assert UsedSlots(words, core) == b.owner.Keys;
  }

  /** used[0] counts the words in use, apart from what was not counted when the database was opened. */
  lemma UsageCounts(db: Database)
    requires db.Valid()
    ensures |UsedSlots(db.pagf.words, db.Core())| == db.conf.used[0] - db.uncounted
  {
    UsedIsStored(db.pagf.words, db.Core(), db.lay, db.log);
  }

  /** Once the core copy is in the file, the file holds everything. */
  lemma NothingToSync(words: seq<nat>, core: seq<nat>, b: Book)
    requires Holding(words, core, b) && Copied(words, core)
    ensures FileHolds(words, b)
  {
    forall p: nat
      ensures WordAt(words, p) == WordFor(b, p)
    {
      assert FlatWord(words, core, p) == WordFor(b, p);
    }
  }

  /** Nothing waits to be flushed before the first store. */
  lemma NothingWritten(db: Database)
    requires db.Valid() && db.FilesOk() && !db.written && !db.conf.olddbz
    ensures db.Flushed()
  {
    NothingToSync(db.pagf.words, db.Core(), db.Index());
  }

  /** dbminit, for a page file that the stores in the log have left; null when the .dir file is bad. */
  method DbmInit(pagf: Pages, dirf: Str, incore: bool, writethrough: bool, pagronly: bool, ghost log: seq<Entry>)
      returns (db: Database?)
    requires pagf.pos % SOF == 0
    requires match GetConf(dirf, pagf.words != [])
             case None => true
             case Some(c) => c.Usable() && LogOk(c.LayoutOf(), log) && FileHolds(pagf.words, Replay(c.LayoutOf(), log))
    ensures db == null <==> GetConf(dirf, pagf.words != []) == None
    ensures db != null ==> db.Valid() && db.FilesOk() && fresh(db) && fresh(db.srch)
                           && fresh(db.cases) && fresh(db.cases.cmap)
                           && (db.corepag != null ==> fresh(db.corepag)) && db.pagf == pagf && db.dirf == dirf
                           && Some(db.conf) == GetConf(dirf, pagf.words != [])
                           && db.lay == db.conf.LayoutOf() && db.log == log
                           && db.uncounted == db.conf.used[0] - |log| && db.pagronly == pagronly && !db.written
  {
    var f := new ConfFile.InFile(dirf);
    var c := f.ReadConf(pagf.words != []);
    if c.None? {
      return null;
    }
    db := new Database(pagf, dirf, c.value, incore, writethrough, pagronly, log);
  }

  /** The case map that dbzfresh makes of its argument. */
  function FreshCase(cmap: Byte): Option<Byte> {
    match cmap
    case '\0' | '0' | 'B' => Some('0')
    case '=' | 'b' => Some('=')
    case 'C' | '?' => Some('C')
    case _ => None
  }

  /** The configuration of a new database, or None when an argument is out of order. It is usable exactly if the tag
      mask leaves room for a marker. */
  method FreshConfig(size: int, fs: Byte, cmap: Byte, tagmask: int) returns (c: Option<Config>)
    requires IsLong(size) && IsLong(tagmask)
    ensures c == None <==> (size != 0 && size < 2) || FreshCase(cmap) == None
    ensures c != None ==> (c.value.Usable() <==> !RunsToSign(tagmask))
    ensures c != None ==> Printable(c.value) && !c.value.olddbz && c.value.used[0] == 0
                          && c.value.fieldsep == fs && c.value.casemap == FreshCase(cmap).value
                          && c.value.tsize == (if size == 0 then DEFSIZE else size)
                          && c.value.tagshift >= 0
                          && IsFresh(tagmask, c.value.tagenb, c.value.tagmask, c.value.tagshift)
  {
    if size != 0 && size < 2 {
      return None;
    }
    var casemap := FreshCase(cmap);
    if casemap.None? {
      return None;
    }
    var tagenb, mask, tagshift := FreshTags(tagmask);
    var conf := DefaultConfig(false).(fieldsep := fs, casemap := casemap.value,
                                      tsize := if size == 0 then DEFSIZE else size,
                                      tagenb := tagenb, tagmask := mask, tagshift := tagshift);
    FreshMasks(conf, tagmask);
    return Some(conf);
  }

  lemma FreshMasks(c: Config, given: int)
    requires c == DefaultConfig(false).(fieldsep := c.fieldsep, casemap := c.casemap, tsize := c.tsize,
                                        tagenb := c.tagenb, tagmask := c.tagmask, tagshift := c.tagshift)
    requires c.tsize > 0 && IsLong(c.tsize) && c.casemap != ' '
    requires IsLong(given) && c.tagshift >= 0 && IsFresh(given, c.tagenb, c.tagmask, c.tagshift)
    ensures Printable(c) && (c.Usable() <==> !RunsToSign(given))
  {
    FreshTagsExactly(given, c.tagenb, c.tagmask, c.tagshift, c.CodingOf());
    FreshIsUsable(c);
  }

  /** A new database holds nothing, and from then on used[0] is the number of its stores. */
  method DbzFresh(size: int, fs: Byte, cmap: Byte, tagmask: int, incore: bool, writethrough: bool)
      returns (db: Database?)
    requires IsLong(size) && IsLong(tagmask) && !RunsToSign(tagmask)
    ensures db == null <==> (size != 0 && size < 2) || FreshCase(cmap) == None
    ensures db != null ==> db.Valid() && db.FilesOk() && fresh(db) && fresh(db.srch) && fresh(db.pagf)
                           && fresh(db.cases) && fresh(db.cases.cmap) && (db.corepag != null ==> fresh(db.corepag))
    ensures db != null ==> db.log == [] && !db.pagronly && !db.conf.olddbz && db.Flushed()
    ensures db != null ==> db.conf.used[0] == 0 && db.uncounted == 0
    ensures db != null ==> Printable(db.conf) && db.conf.fieldsep == fs && db.conf.casemap == FreshCase(cmap).value
                           && db.conf.tsize == (if size == 0 then DEFSIZE else size)
                           && db.conf.tagshift >= 0
                           && IsFresh(tagmask, db.conf.tagenb, db.conf.tagmask, db.conf.tagshift)
    ensures db != null ==> db.lay.geo == Geometry(if size == 0 then 120011 else size, false)
                           && db.lay.casemap == FreshCase(cmap).value && db.lay.fieldsep == fs
  {
    var c := FreshConfig(size, fs, cmap, tagmask);
    if c.None? {
      return null;
    }
    db := CreateFiles(c.value, incore, writethrough);
  }

  /** The end of dbzfresh and dbzagain: write the .dir file, make an empty .pag file, and open the database. */
  method CreateFiles(c: Config, incore: bool, writethrough: bool) returns (db: Database)
    requires c.Usable() && Printable(c) && !c.olddbz
    ensures db.Valid() && db.FilesOk() && fresh(db) && fresh(db.srch) && fresh(db.pagf)
    ensures fresh(db.cases) && fresh(db.cases.cmap) && (db.corepag != null ==> fresh(db.corepag))
    ensures db.log == [] && !db.pagronly && db.conf == c && db.lay == c.LayoutOf() && db.uncounted == c.used[0]
    ensures db.Flushed()
  {
    var dirf := WriteNewDir(c);
    EmptyFileHolds(c.LayoutOf());
    var pagf := new Pages([]);
    var d := DbmInit(pagf, dirf, incore, writethrough, false, []);
    db := d;
    NothingWritten(db);
  }

  /** The .dir file of a new database. */
  method WriteNewDir(c: Config) returns (dirf: Str)
    requires Printable(c) && !c.olddbz
    ensures GetConf(dirf, false) == Some(c)
  {
    ConfigRoundTrip(c, [], false);
    assert PutConf(c) + [] == PutConf(c);
    dirf := ConfFile.WriteConf(c);
  }

  lemma EmptyFileHolds(lay: Layout)
    ensures FileHolds([], Replay(lay, []))
  {}

  /** Closing a database and opening it again, with or without a core copy, changes nothing that can be looked up. */
  method CloseAndReopen(db: Database, incore: bool, writethrough: bool, pagronly: bool) returns (db': Database)
    requires db.Valid() && db.FilesOk() && Printable(db.conf)
    modifies db.pagf`words, db`dirf
    ensures db'.Valid() && db'.FilesOk() && fresh(db')
    ensures db'.lay == db.lay && db'.log == db.log && db'.pagronly == pagronly
    ensures !db'.conf.olddbz ==> db'.Flushed()
    ensures fresh(db'.pagf) && fresh(db'.srch) && fresh(db'.cases) && fresh(db'.cases.cmap)
    ensures db'.corepag != null ==> fresh(db'.corepag)
    ensures db'.conf == if db.conf.olddbz then DefaultConfig(true) else db.conf
    ensures !db.conf.olddbz ==> db'.uncounted == db.uncounted
  {
    db.Sync();
    var pagf := new Pages(db.pagf.words);
    var d := DbmInit(pagf, db.dirf, incore, writethrough, pagronly, db.log);
    db' := d;
    if !db'.conf.olddbz {
      NothingWritten(db');
    }
  }
}
