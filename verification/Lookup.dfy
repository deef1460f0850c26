/** Consequences of the walk theorem: when a fetch is exact for every key, and an input for which it is not. */
module Lookup {
  import opened Text
  import opened CaseMap
  import opened CrcHash
  import opened Probe
  import opened Words
  import opened StoreLog

  /** No record belongs to a key that properly extends this one. */
  ghost predicate NoImpostors(lay: Layout, base: Str, log: seq<Entry>, key: Str) {
    forall e :: e in log ==> !Impostor(lay, base, e, key)
  }

  /** The base file goes with the list of stores, and the key can be looked up in it. */
  ghost predicate InOrder(lay: Layout, base: Str, log: seq<Entry>, key: Str) {
    LogOk(lay, log) && Recorded(lay, base, log) && KeyOk(lay, key) && SameStyle(log, key)
  }

  /** What was stored before a key was, or everything if it never was. */
  function Before(log: seq<Entry>, key: Str): seq<Entry> {
    match FirstStore(log, key)
    case None => log
    case Some(j) => log[..j]
  }

  /** With no impostor among the older records a walk finds exactly the first store of its key. */
  lemma ExactLookup(lay: Layout, base: Str, log: seq<Entry>, key: Str, n: nat, r: Option<nat>)
    requires InOrder(lay, base, log, key) && NoImpostors(lay, base, Before(log, key), key)
    requires StopsAt(Replay(lay, log), base, key, n, r)
    ensures r == FirstValue(log, key)
  {
    WalkAnswers(lay, log, base, key, n, r);
    ReplayIsGood(lay, log);
    ClearOfOlder(lay, base, log, key);
  }

  /** Only older records stand on the path in front of a key. */
  lemma ClearOfOlder(lay: Layout, base: Str, log: seq<Entry>, key: Str)
    requires key != [] && LogOk(lay, log) && NoImpostors(lay, base, Before(log, key), key)
    ensures PathClear(Replay(lay, log), base, key, DecidingProbe(Replay(lay, log), key))
  {
    var b := Replay(lay, log);
    ReplayIsGood(lay, log);
    var d := DecidingProbe(b, key);
    forall i | 0 <= i < d
      ensures !Misleads(b, base, key, b.lay.Slot(key, i))
    {
      if b.lay.Slot(key, i) in b.owner {
        OlderInFront(b, key, d, i);
      }
    }
  }

  lemma OlderInFront(b: Book, key: Str, d: nat, i: nat)
    requires b.Good() && d == DecidingProbe(b, key) && i < d && b.lay.Slot(key, i) in b.owner
    ensures EntryAt(b, b.lay.Slot(key, i)) in Before(b.log, key)
  {
    var p := b.lay.Slot(key, i);
    match FirstStore(b.log, key)
    case None =>
      assert EntryAt(b, p) in b.log;
    case Some(j) =>
      PathIsOlder(b, j, i);
      assert b.log[..j][b.owner[p]] == EntryAt(b, p);
  }

  lemma TextStill(lay: Layout, base: Str, more: Str, e: Entry, key: Str)
    ensures Impostor(lay, base, e, key) ==> Impostor(lay, base + more, e, key)
  {
    if e.value + |key| <= |base| {
      assert (base + more)[e.value..e.value + |key|] == base[e.value..e.value + |key|];
    }
  }

  /** A search that is not clear does not become so when the base file grows. */
  lemma TextStaysMisled(b: Book, base: Str, more: Str, key: Str, d: nat)
    requires !PathClear(b, base, key, d)
    ensures !PathClear(b, base + more, key, d)
  {
    var i :| 0 <= i < d && ImpostorReached(b, base, key, i);
    SlotsStill(b, b, base, base + more, key, i);
    TextStill(b.lay, base, more, EntryAt(b, b.lay.Slot(key, i)), key);
  }

  /** An impostor stays where it is reached while entries are added and the base file grows. */
  lemma SlotsStill(b: Book, b': Book, base: Str, base': Str, key: Str, i: nat)
    requires ImpostorReached(b, base, key, i) && b.lay == b'.lay && |base| <= |base'|
    requires forall k :: 0 <= k <= i ==> SameSlot(b, b', b.lay.Slot(key, k))
    ensures Impostor(b.lay, base', EntryAt(b, b.lay.Slot(key, i)), key) ==> ImpostorReached(b', base', key, i)
  {
    assert SameSlot(b, b', b.lay.Slot(key, i));
    forall k | 0 <= k < i
      ensures !CutsShort(b', base', key, b'.lay.Slot(key, k))
    {
      assert SameSlot(b, b', b.lay.Slot(key, k)) && !CutsShort(b, base, key, b.lay.Slot(key, k));
    }
  }

  ghost predicate SameSlot(b: Book, b': Book, p: nat) {
    (p in b.owner <==> p in b'.owner) && (p in b.owner ==> EntryAt(b, p) == EntryAt(b', p))
  }

  /** Nor when something else is stored. */
  lemma StoreStaysMisled(lay: Layout, log: seq<Entry>, e: Entry, base: Str, key: Str)
    requires LogOk(lay, log) && FirstStore(log, key) == None && e.key != key
    requires !PathClear(Replay(lay, log), base, key, DecidingProbe(Replay(lay, log), key))
    ensures !PathClear(Replay(lay, log + [e]), base, key, DecidingProbe(Replay(lay, log + [e]), key))
  {
    var b, d := Replay(lay, log), Vacancy(Replay(lay, log), HashCode(e.key));
    ReplayIsGood(lay, log);
    ReplayOneMore(lay, log, e, d);
    assert FirstStore(log + [e], key) == None by {
      assert (log + [e])[..|log|] == log;
    }
    BookStaysMisled(b, e, d, base, key, Vacancy(b, HashCode(key)), Vacancy(Stored(b, e, d), HashCode(key)));
  }

  lemma BookStaysMisled(b: Book, e: Entry, d: nat, base: Str, key: Str, v: nat, v': nat)
    requires b.OwnersOk() && FirstVacant(b, HashCode(e.key), d) && !PathClear(b, base, key, v)
    requires FirstVacant(b, HashCode(key), v) && FirstVacant(Stored(b, e, d), HashCode(key), v')
    ensures !PathClear(Stored(b, e, d), base, key, v')
  {
    var b' := Stored(b, e, d);
    var i :| 0 <= i < v && ImpostorReached(b, base, key, i);
    forall k | 0 <= k <= i
      ensures SameSlot(b, b', b.lay.Slot(key, k)) && b.lay.Slot(key, k) in b'.owner
    {
      TakenStays(b, e, d, b.lay.geo.Place(HashCode(key), k));
    }
    SlotsStill(b, b', base, base, key, i);
    VacancyBehind(b', key, i, v');
  }

  lemma TakenStays(b: Book, e: Entry, d: nat, p: nat)
    requires b.OwnersOk() && p in b.owner && b.lay.Slot(e.key, d) !in b.owner
    ensures p in Stored(b, e, d).owner && SameSlot(b, Stored(b, e, d), p)
  {}

  lemma VacancyBehind(b: Book, key: Str, i: nat, v: nat)
    requires forall k :: 0 <= k <= i ==> b.lay.Slot(key, k) in b.owner
    requires FirstVacant(b, HashCode(key), v)
    ensures i < v
  {
    assert b.lay.Slot(key, v) !in b.owner;
  }

  /** Even among impostors a key that was stored is never reported missing, and every answer is a stored offset. */
  lemma NoneMeansAbsent(lay: Layout, base: Str, log: seq<Entry>, key: Str, n: nat, r: Option<nat>)
    requires InOrder(lay, base, log, key) && StopsAt(Replay(lay, log), base, key, n, r)
    ensures r == None ==> FirstStore(log, key) == None
    ensures r != None ==> exists e :: e in log && e.value == r.value
  {
    var b := Replay(lay, log);
    ReplayIsGood(lay, log);
    var d := DecidingProbe(b, key);
    DecidingProbeDecides(b, key);
    NotBeyond(b, base, key, n, r, d);
    if r == None && FirstStore(log, key) != None {
      StoredIsFound(b, base, key, n, r, d);
    }
    if r != None {
      assert EntryAt(b, b.lay.Slot(key, n)) in log;
    }
  }

  lemma StoredIsFound(b: Book, base: Str, key: Str, n: nat, r: Option<nat>, d: nat)
    requires Consistent(b, base, key) && StopsAt(b, base, key, n, r) && Decides(b, key, d) && n <= d
    requires FirstStore(b.log, key) != None
    ensures r != None
  {
    if n == d {
      DecidingSlot(b, base, key, d);
    } else {
      ForeignEntry(b, base, key, d, n);
      ForeignVerdict(b, base, key, b.lay.Slot(key, n));
    }
  }

  /** Keys that are passed with their final NUL have no impostors. */
  lemma NulKeysHaveNoImpostors(lay: Layout, base: Str, log: seq<Entry>, key: Str)
    requires EndsInNul(key)
    ensures NoImpostors(lay, base, log, key)
  {}

  /** A message-id in its brackets: the closing one comes last and nowhere else. */
  ghost predicate IsMessageId(key: Str) {
    |key| >= 2 && key[0] == '<' && key[|key| - 1] == '>' && '>' !in key[..|key| - 1]
  }

  /** Message-ids are prefix-free, so that one has no impostors among records of others. */
  lemma MessageIdsHaveNoImpostors(lay: Layout, base: Str, log: seq<Entry>, key: Str)
    requires Recorded(lay, base, log) && IsMessageId(key)
    requires forall e :: e in log ==> IsMessageId(e.key)
    ensures NoImpostors(lay, base, log, key)
  {
    forall e | e in log
      ensures !Impostor(lay, base, e, key)
    {
      if |e.key| > |key| && e.value + |key| <= |base| {
        var j :| 0 <= j < |log| && log[j] == e;
        BracketInside(lay, base, e, key);
      }
    }
  }

  lemma BracketInside(lay: Layout, base: Str, e: Entry, key: Str)
    requires RecordAt(lay, base, e) && IsMessageId(key) && IsMessageId(e.key)
    requires |e.key| > |key| && e.value + |key| <= |base|
    ensures Fold(lay.casemap, base[e.value..e.value + |key|]) != key
  {
    var last := |key| - 1;
    var raw, text := base[e.value..e.value + |e.key|], base[e.value..e.value + |key|];
    assert raw[last] == text[last];
    assert e.key[last] == e.key[..|e.key| - 1][last];
    FoldKeepsNeutral(lay.casemap, raw, last, '>');
    FoldKeepsNeutral(lay.casemap, text, last, '>');
  }

  /** Tables of any size, with or without tags, in any byte order, old or new: all give the same answers. */
  lemma TableIsInvisible(lay: Layout, lay': Layout, base: Str, log: seq<Entry>, key: Str,
                         n: nat, r: Option<nat>, n': nat, r': Option<nat>)
    requires lay.casemap == lay'.casemap && lay.fieldsep == lay'.fieldsep
    requires InOrder(lay, base, log, key) && LogOk(lay', log) && NoImpostors(lay, base, Before(log, key), key)
    requires StopsAt(Replay(lay, log), base, key, n, r)
    requires StopsAt(Replay(lay', log), base, key, n', r')
    ensures r == r'
  {
    ExactLookup(lay, base, log, key, n, r);
    assert NoImpostors(lay', base, Before(log, key), key) by {
      forall e | e in Before(log, key)
        ensures !Impostor(lay', base, e, key)
      {
        assert !Impostor(lay, base, e, key);
      }
    }
    assert Recorded(lay', base, log) by {
      forall j | 0 <= j < |log|
        ensures KeyOk(lay', log[j].key) && RecordAt(lay', base, log[j])
      {
        assert RecordAt(lay, base, log[j]);
      }
    }
    ExactLookup(lay', base, log, key, n', r');
  }

  /** A walk has one end and one answer. */
  lemma WalkIsUnique(b: Book, base: Str, key: Str, n: nat, r: Option<nat>, n': nat, r': Option<nat>)
    requires key != [] && StopsAt(b, base, key, n, r) && StopsAt(b, base, key, n', r')
    ensures n == n' && r == r'
  {
    assert n < n' ==> Passes(b, base, key, b.lay.Slot(key, n));
    assert n' < n ==> Passes(b, base, key, b.lay.Slot(key, n'));
  }

  /** Keys of any length that fold alike are looked up under one key, although a long one is cut off before it is
      folded: an at-sign behind the cut does not bear on what stands in front of it. */
  lemma MappedAlike(lay: Layout, key: Str, key': Str)
    requires Fold(lay.casemap, key) == Fold(lay.casemap, key')
    ensures Mapped(lay, key) == Mapped(lay, key')
  {
    if |key| >= DBZMAXKEY {
      FoldTake(lay.casemap, key, DBZMAXKEY);
      FoldTake(lay.casemap, key', DBZMAXKEY);
    }
  }

  /** Keys that fold alike get the same answer, whatever is stored. */
  lemma LookupIsCaseInvariant(lay: Layout, log: seq<Entry>, base: Str, key: Str, key': Str,
                              n: nat, r: Option<nat>, n': nat, r': Option<nat>)
    requires key != [] && Fold(lay.casemap, key) == Fold(lay.casemap, key')
    requires StopsAt(Replay(lay, log), base, Mapped(lay, key), n, r)
    requires StopsAt(Replay(lay, log), base, Mapped(lay, key'), n', r')
    ensures n == n' && r == r'
  {
    MappedAlike(lay, key, key');
    WalkIsUnique(Replay(lay, log), base, Mapped(lay, key), n, r, n', r');
  }

  /** Every store takes one slot, so a database that was created empty counts its occupied slots in used[0]. */
  lemma SlotsAreCounted(lay: Layout, log: seq<Entry>)
    requires LogOk(lay, log)
    ensures |Replay(lay, log).owner| == |log|
  {
    ReplayIsGood(lay, log);
  }

  /** A table of two slots, without case mapping and tags. */
  function SmallLayout(): (lay: Layout)
    ensures lay.geo == Geometry(2, false) && lay.casemap == '0' && lay.fieldsep == '\t' && lay.coding.taghere == 0
  {
    MybmapIsByteMap();
    AndCommutes(0, 0);
    Layout(Geometry(2, false), Coding(0, 0, false, MYBMAP), 0, '0', '\t')
  }

  /** The exactness of fetch() does fail: after a single store of the key "ab", the key "a", passed without a NUL,
      is found with the record of "ab", because both have the same slot and only a prefix is compared. */
  lemma PrefixIsMistaken()
    ensures var lay, base, log: seq<Entry> := SmallLayout(), "ab\t", [Entry("ab", 0)];
            && InOrder(lay, base, log, "a") && FirstValue(log, "a") == None
            && StopsAt(Replay(lay, log), base, "a", 0, Some(0))
  {
    var lay := SmallLayout();
    SmallOrder(lay, "ab\t", [Entry("ab", 0)], "a");
    var base: Str := "ab\t";
    assert base[0..1] == "a";
    SmallWalk(lay, base, Entry("ab", 0), "a");
  }

  lemma SmallOrder(lay: Layout, base: Str, log: seq<Entry>, key: Str)
    requires lay == SmallLayout() && base == "ab\t" && log == [Entry("ab", 0)] && key == "a"
    ensures InOrder(lay, base, log, key) && FirstValue(log, key) == None
  {
    AndCommutes(0, 0);
    assert log[..0] == [];
    assert base[0..2] == "ab";
    assert RecordAt(lay, base, log[0]);
    assert lay.coding.Storable(0);
  }

  lemma SmallWalk(lay: Layout, base: Str, e: Entry, key: Str)
    requires lay.geo == Geometry(2, false) && lay.casemap == '0' && lay.coding.taghere == 0
    requires |key| == 1 && !EndsInNul(key) && |e.key| == 2 && e.value == 0 && base != [] && base[0..1] == key
    ensures StopsAt(Replay(lay, [e]), base, key, 0, Some(0))
  {
    OneEntry(lay, e);
    SameSmallSlot(lay, key, e.key);
    CompareWhole(lay, base, key, 0, base[0..1]);
    HitAtOnce(Replay(lay, [e]), base, key, e);
  }

  lemma HitAtOnce(b: Book, base: Str, key: Str, e: Entry)
    requires key != [] && b.lay.Slot(key, 0) in b.owner && EntryAt(b, b.lay.Slot(key, 0)) == e
    requires b.lay.coding.taghere == 0 && Compare(b.lay, base, key, e.value) == Hit
    ensures StopsAt(b, base, key, 0, Some(e.value))
  {}

  lemma SameSmallSlot(lay: Layout, a: Str, b: Str)
    requires lay.geo == Geometry(2, false) && 1 <= |a| <= 2 && 1 <= |b| <= 2
    ensures lay.Slot(a, 0) == lay.Slot(b, 0) == 0
  {
    ShortKeysHashEven(a);
    ShortKeysHashEven(b);
  }

  lemma EmptyReplay(lay: Layout, log: seq<Entry>)
    requires log == []
    ensures Replay(lay, log) == Book(lay, [], map[], [])
  {}

  lemma OneEntry(lay: Layout, e: Entry)
    ensures Replay(lay, [e]) == Book(lay, [e], map[lay.Slot(e.key, 0) := 0], [0])
  {
    var log: seq<Entry> := [];
    EmptyReplay(lay, log);
    assert FirstVacant(Replay(lay, log), HashCode(e.key), 0);
    ReplayOneMore(lay, log, e, 0);
    assert log + [e] == [e];
  }

  // ----- a table of one slot

  /** Then every path has one slot for each table. */
  lemma OneSlotPlace(g: Geometry, h: nat, i: nat)
    requires g.Ok() && g.tsize == 1
    ensures g.Place(h, i) == g.Table(i)
  {}

  /** Every entry has the table of its own number. */
  ghost predicate ByAge(b: Book) {
    && b.lay.geo.tsize == 1
    && (forall p: nat :: p in b.owner <==> p < |b.log|)
    && (forall p: nat :: p in b.owner ==> b.owner[p] == p)
  }

  lemma OneSlotVacancy(b: Book, h: nat, d: nat)
    requires ByAge(b) && FirstVacant(b, h, d)
    ensures b.lay.geo.Place(h, d) == |b.log|
  {
    OneSlotPlace(b.lay.geo, h, d);
    if d > 0 {
      NextProbe(b.lay.geo, h, d - 1);
      OneSlotPlace(b.lay.geo, h, d - 1);
      assert b.lay.geo.Place(h, d - 1) in b.owner;
    }
  }

  lemma StoredByAge(b: Book, e: Entry, d: nat)
    requires ByAge(b) && FirstVacant(b, HashCode(e.key), d)
    ensures ByAge(Stored(b, e, d))
  {
    OneSlotVacancy(b, HashCode(e.key), d);
  }

  lemma {:induction false} OneSlotByAge(lay: Layout, log: seq<Entry>)
    requires lay.geo.tsize == 1
    ensures ByAge(Replay(lay, log))
    decreases |log|
  {
    if log != [] {
      var front, e := log[..|log| - 1], log[|log| - 1];
      OneSlotByAge(lay, front);
      StoredByAge(Replay(lay, front), e, Vacancy(Replay(lay, front), HashCode(e.key)));
    }
  }

  /** In such a table an older impostor is met before anything is decided. */
  lemma OneSlotIsNotClear(lay: Layout, base: Str, log: seq<Entry>, key: Str, m: nat)
    requires lay.geo.tsize == 1 && lay.coding.taghere == 0 && LogOk(lay, log) && Recorded(lay, base, log)
    requires m < |Before(log, key)| && Impostor(lay, base, Before(log, key)[m], key)
    ensures !PathClear(Replay(lay, log), base, key, DecidingProbe(Replay(lay, log), key))
  {
    var b := Replay(lay, log);
    var d := DecidingProbe(b, key);
    ReplayIsGood(lay, log);
    OneSlotByAge(lay, log);
    DecidingProbeDecides(b, key);
    OlderIsInFront(b, base, key, d, m);
  }

  lemma OlderIsInFront(b: Book, base: Str, key: Str, d: nat, m: nat)
    requires ByAge(b) && b.OwnersOk() && Decides(b, key, d) && b.lay.coding.taghere == 0 && Recorded(b.lay, base, b.log)
    requires m < |Before(b.log, key)| && Impostor(b.lay, base, Before(b.log, key)[m], key)
    ensures !PathClear(b, base, key, d)
  {
    DecidesBehind(b, key, d, m);
    var i := TableVisited(b.lay.geo, m, d);
    ImpostorByAge(b, base, key, i, m);
    assert ImpostorReached(b, base, key, i);
  }

  lemma DecidesBehind(b: Book, key: Str, d: nat, m: nat)
    requires ByAge(b) && b.OwnersOk() && Decides(b, key, d) && m < |Before(b.log, key)|
    ensures m < b.lay.geo.Table(d) && m < |b.log| && b.log[m] == Before(b.log, key)[m]
  {
    OneSlotPlace(b.lay.geo, HashCode(key), d);
    match FirstStore(b.log, key)
    case None =>
      assert b.lay.Slot(key, d) !in b.owner;
    case Some(j) =>
      assert b.lay.Slot(b.log[j].key, b.depth[j]) in b.owner;
  }

  lemma ImpostorByAge(b: Book, base: Str, key: Str, i: nat, m: nat)
    requires ByAge(b) && b.lay.coding.taghere == 0 && Recorded(b.lay, base, b.log)
    requires m < |b.log| && b.lay.geo.Table(i) == m && Impostor(b.lay, base, b.log[m], key)
    ensures ImpostorReached(b, base, key, i)
  {
    OneSlotPlace(b.lay.geo, HashCode(key), i);
    forall k | 0 <= k < i
      ensures !CutsShort(b, base, key, b.lay.Slot(key, k))
    {
      OneSlotPlace(b.lay.geo, HashCode(key), k);
      TableMonotone(b.lay.geo, k, i);
      ValuesAscend(b.lay, base, b.log, b.lay.geo.Table(k), m);
    }
  }

  lemma ValuesAscend(lay: Layout, base: Str, log: seq<Entry>, k: nat, m: nat)
    requires Recorded(lay, base, log) && k <= m < |log|
    ensures log[k].value <= log[m].value
  {}
}
