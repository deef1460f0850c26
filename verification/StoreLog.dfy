/** The abstract view of a dbz database: the list of all stores made so far, and where each of them went.
    The theorems here say what a walk along a probe path finds, in terms of that list alone. */
module StoreLog {
  import opened Text
  import opened CaseMap
  import opened CrcHash
  import opened Probe
  import opened Words
  import Bits

  /** Keys shorter than this can be stored. */
  const DBZMAXKEY: nat := 255

  /** One successful call of store(): the (case-mapped) key and its offset in the base file. */
  datatype Entry = Entry(key: Str, value: nat)

  datatype AnyLayout = Layout(geo: Geometry, coding: Coding, tagshift: nat, casemap: Byte, fieldsep: Byte)
  {
    ghost predicate Ok() {
      geo.Ok() && coding.Wellformed() && coding.TagsOk()
    }

    function TagOf(h: nat): nat
      requires geo.Ok()
    {
      coding.MakeTag(h / geo.tsize, tagshift)
    }

    /** Probe i of the search for a key. */
    function Slot(key: Str, i: nat): nat
      requires geo.Ok()
    {
      geo.Place(HashCode(key), i)
    }

    /** The word that represents an entry in the page file. */
    function WordOf(e: Entry): nat
      requires Ok()
    {
      coding.Encode(e.value, TagOf(HashCode(e.key)))
    }

    /** A search with hash h does not even look up the record of this entry. */
    predicate Skips(e: Entry, h: nat)
      requires geo.Ok()
    {
      coding.Hides(e.value, TagOf(HashCode(e.key)), TagOf(h))
    }
  }

  function PlainLayout(): (lay: AnyLayout)
    ensures lay.Ok()
  {
    MybmapIsByteMap();
    Layout(Geometry(1, false), Coding(0, 0, false, MYBMAP), 0, '0', '\t')
  }

  type Layout = lay: AnyLayout | lay.Ok() ghost witness PlainLayout()

  /** What store() accepts. */
  ghost predicate EntryOk(lay: Layout, e: Entry) {
    lay.coding.Storable(e.value) && 0 < |e.key| < DBZMAXKEY
  }

  ghost predicate LogOk(lay: Layout, log: seq<Entry>) {
    forall e :: e in log ==> EntryOk(lay, e)
  }

  /** A list of stores and where they went; owner: which of them occupies a slot; depth: how many probes its store
      made first. */
  datatype Book = Book(lay: Layout, log: seq<Entry>, owner: map<nat, nat>, depth: seq<nat>)
  {
    /** Every entry owns a slot on its own probe path, and every owned slot is of that kind. */
    ghost predicate OwnersOk() {
      && |depth| == |log| && |owner| == |log|
      && (forall j :: 0 <= j < |log| ==> var p := lay.Slot(log[j].key, depth[j]); p in owner && owner[p] == j)
      && (forall p :: p in owner ==>
            owner[p] < |log| && p == lay.Slot(log[owner[p]].key, depth[owner[p]]))
    }

    /** The slots before it on that path were taken by older entries. */
    ghost predicate PathsOk() {
      |depth| == |log|
      && forall j, i :: 0 <= j < |log| && 0 <= i < depth[j] ==>
        var p := lay.Slot(log[j].key, i); p in owner && owner[p] < j
    }

    ghost predicate Good() {
      LogOk(lay, log) && OwnersOk() && PathsOk()
    }
  }

  function EntryAt(b: Book, p: nat): Entry
    requires p in b.owner
  {
    if b.owner[p] < |b.log| then b.log[b.owner[p]] else Entry([], 0)
  }

  /** The word that must be in a slot. */
  function WordFor(b: Book, p: nat): nat {
    if p in b.owner then b.lay.WordOf(EntryAt(b, p)) else VACANT
  }

  /** The first d probes of the path of hash h are taken. */
  ghost predicate TakenUpTo(b: Book, h: nat, d: nat) {
    forall i :: 0 <= i < d ==> b.lay.geo.Place(h, i) in b.owner
  }

  /** Probe d is the first vacant one on the path of hash h. */
  ghost predicate FirstVacant(b: Book, h: nat, d: nat) {
    b.lay.geo.Place(h, d) !in b.owner && TakenUpTo(b, h, d)
  }

  /** The book after a store into probe d of the path of its key. */
  function Stored(b: Book, e: Entry, d: nat): Book {
    Book(b.lay, b.log + [e], b.owner[b.lay.Slot(e.key, d) := |b.log|], b.depth + [d])
  }

  lemma TagOfInside(lay: Layout, h: nat)
    ensures Bits.AndNot(lay.TagOf(h), lay.coding.tagbits) == 0
  {
    TagInside(lay.coding, h / lay.geo.tsize, lay.tagshift);
  }

  /** A store into the first vacant slot keeps the book good. */
  lemma StoreKeepsGood(b: Book, e: Entry, d: nat)
    requires b.Good() && EntryOk(b.lay, e) && FirstVacant(b, HashCode(e.key), d)
    ensures Stored(b, e, d).Good()
  {
    StoreKeepsOwners(b, e, d);
    StoreKeepsPaths(b, e, d);
  }

  lemma StoreKeepsOwners(b: Book, e: Entry, d: nat)
    requires b.OwnersOk() && b.lay.Slot(e.key, d) !in b.owner
    ensures Stored(b, e, d).OwnersOk()
  {
    var b' := Stored(b, e, d);
    assert b'.owner.Keys == b.owner.Keys + {b.lay.Slot(e.key, d)};
    assert |b'.owner| == |b'.owner.Keys| && |b.owner| == |b.owner.Keys|;
    forall j | 0 <= j < |b'.log|
      ensures var p := b.lay.Slot(b'.log[j].key, b'.depth[j]); p in b'.owner && b'.owner[p] == j
    {
      if j < |b.log| {
        assert b'.log[j] == b.log[j] && b'.depth[j] == b.depth[j];
      }
    }
  }

  lemma StoreKeepsPaths(b: Book, e: Entry, d: nat)
    requires b.OwnersOk() && b.PathsOk() && FirstVacant(b, HashCode(e.key), d)
    ensures Stored(b, e, d).PathsOk()
  {
    var b' := Stored(b, e, d);
    forall j, i | 0 <= j < |b'.log| && 0 <= i < b'.depth[j]
      ensures var p := b.lay.Slot(b'.log[j].key, i); p in b'.owner && b'.owner[p] < j
    {
      if j < |b.log| {
        assert b'.log[j] == b.log[j] && b.lay.Slot(b.log[j].key, i) in b.owner;
      } else {
        assert b.lay.geo.Place(HashCode(e.key), i) in b.owner;
      }
    }
  }

  // ----- the placement is determined by the list of stores

  lemma VacancyExists(b: Book, h: nat, n: nat)
    requires TakenUpTo(b, h, n)
    ensures exists d :: FirstVacant(b, h, d)
  {
    var bound := SearchEnds(b, h);
    var d := n;
    while b.lay.geo.Place(h, d) in b.owner
      invariant TakenUpTo(b, h, d)
      decreases if d < bound then bound - d else 0
    {
      assert d < bound;
      d := d + 1;
    }
    assert FirstVacant(b, h, d);
  }

  ghost function Vacancy(b: Book, h: nat): (d: nat)
    ensures FirstVacant(b, h, d)
  {
    VacancyExists(b, h, 0);
    var d :| FirstVacant(b, h, d);
    d
  }

  /** The book that a list of stores leads to, every one of them into the first vacant slot of its path. */
  ghost function Replay(lay: Layout, log: seq<Entry>): (b: Book)
    ensures b.lay == lay && b.log == log
    decreases |log|, 1
  {
    if log == [] then Book(lay, [], map[], []) else ReplayLast(lay, log)
  }

  ghost function ReplayLast(lay: Layout, log: seq<Entry>): (b: Book)
    requires log != []
    ensures b.lay == lay && b.log == log
    decreases |log|, 0
  {
    var b := Replay(lay, log[..|log| - 1]);
    var e := log[|log| - 1];
    Stored(b, e, Vacancy(b, HashCode(e.key)))
  }

  lemma {:induction false} ReplayIsGood(lay: Layout, log: seq<Entry>)
    requires LogOk(lay, log)
    ensures Replay(lay, log).Good()
    decreases |log|
  {
    if log != [] {
      var front, e := log[..|log| - 1], log[|log| - 1];
      ReplayIsGood(lay, front);
      var b := Replay(lay, front);
      StoreKeepsGood(b, e, Vacancy(b, HashCode(e.key)));
    }
  }

  /** A store into any first vacant slot is the one that the replay makes. */
  lemma ReplayOneMore(lay: Layout, log: seq<Entry>, e: Entry, d: nat)
    requires FirstVacant(Replay(lay, log), HashCode(e.key), d)
    ensures Replay(lay, log + [e]) == Stored(Replay(lay, log), e, d)
  {
    var b := Replay(lay, log);
    assert (log + [e])[..|log|] == log;
    FirstVacantUnique(b, HashCode(e.key), d, Vacancy(b, HashCode(e.key)));
  }

  /** There is only one first vacant probe, so a resumed search that stands on it stands where a fresh one would end. */
  lemma FirstVacantUnique(b: Book, h: nat, d: nat, d': nat)
    requires FirstVacant(b, h, d) && FirstVacant(b, h, d')
    ensures d == d'
  {}

  /** Finitely many slots are taken. */
  lemma {:induction false} KeysBounded(s: set<nat>) returns (limit: nat)
    ensures forall p :: p in s ==> p < limit
    decreases s
  {
    if s == {} {
      limit := 0;
    } else {
      var p :| p in s;
      var rest := KeysBounded(s - {p});
      limit := if rest > p then rest else p + 1;
      assert forall q :: q in s ==> q == p || q in s - {p};
    }
  }

  /** From some probe on, every slot on the path of a hash is vacant, so that a search comes to an end. */
  lemma SearchEnds(b: Book, h: nat) returns (bound: nat)
    ensures forall i :: i >= bound ==> b.lay.geo.Place(h, i) !in b.owner
  {
    var limit := KeysBounded(b.owner.Keys);
    bound := ProbeLimit(b.lay.geo, limit);
    forall i | i >= bound
      ensures b.lay.geo.Place(h, i) !in b.owner
    {
      ProbesLeave(b.lay.geo, h, i, limit);
    }
  }

  // ----- the reference: the first store of a key

  function FirstStore(log: seq<Entry>, key: Str): (r: Option<nat>)
    ensures r.None? ==> forall j :: 0 <= j < |log| ==> log[j].key != key
    ensures r.Some? ==> r.value < |log| && log[r.value].key == key
                        && forall j :: 0 <= j < r.value ==> log[j].key != key
  {
    if log == [] then None
    else
      var r := FirstStore(log[..|log| - 1], key);
      if r.Some? then r
      else if log[|log| - 1].key == key then Some(|log| - 1)
      else None
  }

  function FirstValue(log: seq<Entry>, key: Str): Option<nat> {
    match FirstStore(log, key)
    case None => None
    case Some(j) => Some(log[j].value)
  }

  // ----- comparing a candidate with its record in the base file

  datatype Verdict = Short | Miss | Hit

  /** What fetch() does with a candidate offset: read as many bytes as the key has, map their case, compare.
      A final NUL of the key is not compared, but demands a separator or NUL in its place. */
  function Compare(lay: Layout, base: Str, key: Str, offset: nat): Verdict
    requires key != []
  {
    var n := if |key| < DBZMAXKEY then |key| else DBZMAXKEY;
    if offset + n > |base| then Short
    else
      var buffer := Fold(lay.casemap, base[offset..offset + n]);
      if key[n - 1] == NUL then
        if buffer[..n - 1] == key[..n - 1] && (buffer[n - 1] == lay.fieldsep || buffer[n - 1] == NUL) then Hit else Miss
      else if buffer == key[..n] then Hit else Miss
  }

  /** The walk of fetch() goes past this slot. */
  ghost predicate Passes(b: Book, base: Str, key: Str, p: nat)
    requires key != []
  {
    && p in b.owner
    && var e := EntryAt(b, p);
       b.lay.Skips(e, HashCode(key)) || Compare(b.lay, base, key, e.value) == Miss
  }

  ghost predicate PassedBy(b: Book, base: Str, key: Str, n: nat)
    requires key != []
  {
    forall i :: 0 <= i < n ==> Passes(b, base, key, b.lay.Slot(key, i))
  }

  /** The walk along the path of a key ends at probe n with result r. */
  ghost predicate StopsAt(b: Book, base: Str, key: Str, n: nat, r: Option<nat>)
    requires key != []
  {
    PassedBy(b, base, key, n) && EndsWith(b, base, key, b.lay.Slot(key, n), r)
  }

  ghost predicate EndsWith(b: Book, base: Str, key: Str, p: nat, r: Option<nat>)
    requires key != []
  {
    if p !in b.owner then r == None
    else
      var e := EntryAt(b, p);
      && !b.lay.Skips(e, HashCode(key))
      && match Compare(b.lay, base, key, e.value)
         case Short => r == None
         case Hit => r == Some(e.value)
         case Miss => false
  }

  // ----- what the base file must look like

  predicate EndsInNul(key: Str) {
    key != [] && key[|key| - 1] == NUL
  }

  /** The part of a key that stands in the base file. */
  function Body(key: Str): Str {
    if EndsInNul(key) then key[..|key| - 1] else key
  }

  predicate SeparatorOk(sep: Byte) {
    Neutral(sep) && sep != '@' && sep != NUL
  }

  /** A key as dbz looks it up: case-mapped, not too long, and free of separators and NULs up to a final NUL. */
  ghost predicate KeyOk(lay: Layout, key: Str) {
    && 0 < |key| <= DBZMAXKEY
    && Fold(lay.casemap, key) == key
    && lay.fieldsep !in Body(key) && NUL !in Body(key)
  }

  /** At the offset of an entry stands a text that maps to its key, followed by the separator. */
  ghost predicate RecordAt(lay: Layout, base: Str, e: Entry) {
    var b := Body(e.key);
    && e.value + |b| < |base|
    && base[e.value + |b|] == lay.fieldsep
    && Fold(lay.casemap, base[e.value..e.value + |b|]) == b
  }

  /** The base file goes with the list of stores: it has a record for each, and newer records lie further on. */
  ghost predicate Recorded(lay: Layout, base: Str, log: seq<Entry>) {
    && SeparatorOk(lay.fieldsep)
    && (forall j :: 0 <= j < |log| ==> KeyOk(lay, log[j].key) && RecordAt(lay, base, log[j]))
    && (forall i, j :: 0 <= i < j < |log| ==> log[i].value < log[j].value)
  }

  /** Appending to the base file changes no record. */
  lemma AppendKeepsRecorded(lay: Layout, base: Str, more: Str, log: seq<Entry>)
    requires Recorded(lay, base, log)
    ensures Recorded(lay, base + more, log)
  {
    forall j | 0 <= j < |log|
      ensures KeyOk(lay, log[j].key) && RecordAt(lay, base + more, log[j])
    {
      AppendKeepsRecord(lay, base, more, log[j]);
    }
  }

  lemma AppendKeepsRecord(lay: Layout, base: Str, more: Str, e: Entry)
    requires RecordAt(lay, base, e)
    ensures RecordAt(lay, base + more, e)
  {
    var b := Body(e.key);
    assert (base + more)[e.value..e.value + |b|] == base[e.value..e.value + |b|];
  }

  /** A record that fetch() takes for the key although it belongs to a longer key. */
  ghost predicate Impostor(lay: Layout, base: Str, e: Entry, key: Str) {
    && !EndsInNul(key)
    && |Body(e.key)| > |key|
    && e.value + |key| <= |base|
    && Fold(lay.casemap, base[e.value..e.value + |key|]) == key
  }

  /** All keys are passed in the same style: all with their final NUL, or all without. */
  ghost predicate SameStyle(log: seq<Entry>, key: Str) {
    forall j :: 0 <= j < |log| ==> EndsInNul(log[j].key) == EndsInNul(key)
  }

  /** The base file goes with the ledger, and the key can be looked up in it. */
  ghost predicate Consistent(b: Book, base: Str, key: Str) {
    b.Good() && Recorded(b.lay, base, b.log) && KeyOk(b.lay, key) && SameStyle(b.log, key)
  }

  // ----- the comparison is exact, up to impostors

  lemma FoldedSeparator(lay: Layout, text: Str, b: Str, key: Str)
    requires SeparatorOk(lay.fieldsep) && |b| < |text| && text[|b|] == lay.fieldsep
    requires |b| < |Body(key)| <= |text| && lay.fieldsep !in Body(key)
    ensures Fold(lay.casemap, text)[|b|] != key[|b|]
  {
    FoldKeepsNeutral(lay.casemap, text, |b|, lay.fieldsep);
    assert key[|b|] == Body(key)[|b|];
  }

  lemma CompareWithoutNul(lay: Layout, base: Str, e: Entry, key: Str)
    requires SeparatorOk(lay.fieldsep) && KeyOk(lay, key) && !EndsInNul(key)
    requires KeyOk(lay, e.key) && !EndsInNul(e.key) && RecordAt(lay, base, e)
    requires e.value + |key| <= |base|
    ensures Compare(lay, base, key, e.value) == Hit <==> e.key == key || Impostor(lay, base, e, key)
    ensures Compare(lay, base, key, e.value) != Short
  {
    var text := base[e.value..e.value + |key|];
    CompareWhole(lay, base, key, e.value, text);
    if |e.key| < |key| {
      RecordTooShort(lay, base, e, key, text);
    } else if |e.key| > |key| {
      RecordTooLong(lay, base, e, key, text);
    } else {
      RecordSameLength(lay, base, e, key, text);
    }
  }

  lemma RecordSameLength(lay: Layout, base: Str, e: Entry, key: Str, text: Str)
    requires !EndsInNul(e.key) && RecordAt(lay, base, e) && |e.key| == |key|
    requires e.value + |key| <= |base| && text == base[e.value..e.value + |key|]
    ensures Fold(lay.casemap, text) == key <==> e.key == key
    ensures !Impostor(lay, base, e, key)
  {}

  lemma RecordTooShort(lay: Layout, base: Str, e: Entry, key: Str, text: Str)
    requires SeparatorOk(lay.fieldsep) && KeyOk(lay, key) && !EndsInNul(key)
    requires !EndsInNul(e.key) && RecordAt(lay, base, e) && |e.key| < |key|
    requires e.value + |key| <= |base| && text == base[e.value..e.value + |key|]
    ensures Fold(lay.casemap, text) != key
  {
    assert text[|e.key|] == base[e.value + |e.key|];
    FoldedSeparator(lay, text, e.key, key);
  }

  lemma RecordTooLong(lay: Layout, base: Str, e: Entry, key: Str, text: Str)
    requires !EndsInNul(key) && !EndsInNul(e.key) && |e.key| > |key|
    requires e.value + |key| <= |base| && text == base[e.value..e.value + |key|]
    ensures Impostor(lay, base, e, key) <==> Fold(lay.casemap, text) == key
  {}

  lemma CompareWhole(lay: Layout, base: Str, key: Str, offset: nat, text: Str)
    requires key != [] && !EndsInNul(key) && |key| <= DBZMAXKEY && offset + |key| <= |base|
    requires text == base[offset..offset + |key|]
    ensures Compare(lay, base, key, offset) == if Fold(lay.casemap, text) == key then Hit else Miss
  {
    assert key[..|key|] == key;
  }

  lemma CompareWithNul(lay: Layout, base: Str, e: Entry, key: Str)
    requires SeparatorOk(lay.fieldsep) && KeyOk(lay, key) && EndsInNul(key)
    requires KeyOk(lay, e.key) && EndsInNul(e.key) && RecordAt(lay, base, e)
    requires e.value + |key| <= |base|
    ensures Compare(lay, base, key, e.value) == Hit <==> e.key == key
    ensures Compare(lay, base, key, e.value) != Short
  {
    var w, b := Body(key), Body(e.key);
    var text := base[e.value..e.value + |key|];
    assert key == w + [NUL] && e.key == b + [NUL];
    CompareBeforeNul(lay, base, key, e.value, w, text);
    BufferBeforeNul(lay, base, e, w, text);
  }

  /** The mapped buffer begins with `w` and a separator or NUL exactly when `w` is the body of the entry's key. */
  lemma BufferBeforeNul(lay: Layout, base: Str, e: Entry, w: Str, text: Str)
    requires SeparatorOk(lay.fieldsep) && KeyOk(lay, e.key) && RecordAt(lay, base, e)
    requires lay.fieldsep !in w && NUL !in w
    requires e.value + |w| + 1 <= |base| && text == base[e.value..e.value + |w| + 1]
    ensures var buffer := Fold(lay.casemap, text);
            (buffer[..|w|] == w && (buffer[|w|] == lay.fieldsep || buffer[|w|] == NUL)) <==> Body(e.key) == w
  {
    var b := Body(e.key);
    if |b| == |w| {
      FoldedRecord(lay, base, e, text);
      assert Fold(lay.casemap, text)[..|w|] == b;
    } else if |b| < |w| {
      assert text[|b|] == base[e.value + |b|];
      FoldKeepsNeutral(lay.casemap, text, |b|, lay.fieldsep);
      assert Fold(lay.casemap, text)[..|w|][|b|] == lay.fieldsep;
    } else {
      NoSeparatorInside(lay, base, e, text, |w|);
    }
  }

  lemma CompareBeforeNul(lay: Layout, base: Str, key: Str, offset: nat, w: Str, text: Str)
    requires key == w + [NUL] && |key| <= DBZMAXKEY && offset + |key| <= |base|
    requires text == base[offset..offset + |key|]
    ensures var buffer := Fold(lay.casemap, text);
            Compare(lay, base, key, offset) ==
            if buffer[..|w|] == w && (buffer[|w|] == lay.fieldsep || buffer[|w|] == NUL) then Hit else Miss
  {
    assert key[..|key| - 1] == w;
  }

  lemma FoldedRecord(lay: Layout, base: Str, e: Entry, text: Str)
    requires SeparatorOk(lay.fieldsep) && RecordAt(lay, base, e)
    requires text == base[e.value..e.value + |Body(e.key)| + 1]
    ensures Fold(lay.casemap, text) == Body(e.key) + [lay.fieldsep]
  {
    var raw := base[e.value..e.value + |Body(e.key)|];
    assert text == raw + [lay.fieldsep];
    FoldAppend(lay.casemap, raw, lay.fieldsep);
  }

  lemma NoSeparatorInside(lay: Layout, base: Str, e: Entry, text: Str, i: nat)
    requires SeparatorOk(lay.fieldsep) && KeyOk(lay, e.key) && RecordAt(lay, base, e)
    requires e.value + |text| <= |base|
    requires i < |Body(e.key)| && i < |text| && text == base[e.value..e.value + |text|]
    ensures Fold(lay.casemap, text)[i] != lay.fieldsep && Fold(lay.casemap, text)[i] != NUL
  {
    var raw := base[e.value..e.value + |Body(e.key)|];
    assert text[i] == raw[i] && Body(e.key)[i] in Body(e.key);
    FoldKeepsNeutral(lay.casemap, raw, i, lay.fieldsep);
    FoldKeepsNeutral(lay.casemap, raw, i, NUL);
    FoldKeepsNeutral(lay.casemap, text, i, lay.fieldsep);
    FoldKeepsNeutral(lay.casemap, text, i, NUL);
  }

  lemma CompareExactly(b: Book, base: Str, key: Str, j: nat)
    requires Consistent(b, base, key) && j < |b.log| && b.log[j].value + |key| <= |base|
    ensures Compare(b.lay, base, key, b.log[j].value) == Hit
       <==> b.log[j].key == key || Impostor(b.lay, base, b.log[j], key)
    ensures Compare(b.lay, base, key, b.log[j].value) != Short
  {
    if EndsInNul(key) {
      CompareWithNul(b.lay, base, b.log[j], key);
    } else {
      CompareWithoutNul(b.lay, base, b.log[j], key);
    }
  }

  // ----- the main theorems

  /** The probe of the first store of a key, or of the first vacancy on its path when it was never stored:
      the point at which a fetch ought to come to its decision. */
  ghost predicate Decides(b: Book, key: Str, d: nat) {
    match FirstStore(b.log, key)
    case Some(j) => j < |b.depth| && d == b.depth[j]
    case None => FirstVacant(b, HashCode(key), d)
  }

  /** The entry in this slot makes fetch() answer with a foreign record. */
  ghost predicate Misleads(b: Book, base: Str, key: Str, p: nat) {
    p in b.owner && !b.lay.Skips(EntryAt(b, p), HashCode(key)) && Impostor(b.lay, base, EntryAt(b, p), key)
  }

  /** The entry in this slot makes fetch() give up, because its record is nearer to the end of the base file than
      the key is long. */
  ghost predicate CutsShort(b: Book, base: Str, key: Str, p: nat) {
    p in b.owner && !b.lay.Skips(EntryAt(b, p), HashCode(key)) && EntryAt(b, p).value + |key| > |base|
  }

  /** Probe i stands on an impostor that the tags let through, and no short read ends the walk before it. */
  ghost predicate ImpostorReached(b: Book, base: Str, key: Str, i: nat) {
    && Misleads(b, base, key, b.lay.Slot(key, i))
    && forall k :: 0 <= k < i ==> !CutsShort(b, base, key, b.lay.Slot(key, k))
  }

  ghost predicate PathClear(b: Book, base: Str, key: Str, d: nat) {
    forall i :: 0 <= i < d ==> !ImpostorReached(b, base, key, i)
  }

  /** Up to the slot of an entry, its path is taken by older entries. */
  lemma PathIsOlder(b: Book, j: nat, i: nat)
    requires b.OwnersOk() && b.PathsOk() && j < |b.log| && i <= b.depth[j]
    ensures var p := b.lay.Slot(b.log[j].key, i);
            p in b.owner && b.owner[p] < |b.log| && b.owner[p] <= j && (i < b.depth[j] ==> b.owner[p] < j)
  {
    if i < b.depth[j] {
      OlderOnPath(b, j, i);
    }
  }

  lemma OlderOnPath(b: Book, j: nat, i: nat)
    requires b.PathsOk() && j < |b.log| && i < b.depth[j]
    ensures var p := b.lay.Slot(b.log[j].key, i); p in b.owner && b.owner[p] < j
  {}

  /** Before the slot of the first store of a key, the walk finds only older entries with long enough records,
      so that a short read cannot hide the key. */
  lemma OlderRecordsAreLong(b: Book, base: Str, j: nat, i: nat)
    requires b.Good() && Recorded(b.lay, base, b.log) && j < |b.log| && i <= b.depth[j]
    ensures var key := b.log[j].key;
            var p := b.lay.Slot(key, i);
            && p in b.owner && b.owner[p] <= j && (i < b.depth[j] ==> b.owner[p] < j)
            && EntryAt(b, p).value + |key| <= |base|
  {
    PathIsOlder(b, j, i);
    RecordsAreLong(b.lay, base, b.log, b.owner[b.lay.Slot(b.log[j].key, i)], j);
  }

  lemma RecordsAreLong(lay: Layout, base: Str, log: seq<Entry>, k: nat, j: nat)
    requires Recorded(lay, base, log) && k <= j < |log|
    ensures log[k].value + |log[j].key| <= |base|
  {
    assert RecordAt(lay, base, log[j]);
  }

  /** Before the deciding slot there are only entries for other keys. */
  lemma ForeignEntry(b: Book, base: Str, key: Str, d: nat, i: nat)
    requires Consistent(b, base, key) && Decides(b, key, d) && i < d
    ensures var p := b.lay.Slot(key, i);
            && p in b.owner
            && EntryAt(b, p).key != key
            && match FirstStore(b.log, key)
               case None => true
               case Some(j) => EntryAt(b, p).value + |key| <= |base| && EntryAt(b, p).value != b.log[j].value
  {
    var f := FirstStore(b.log, key);
    if f.Some? {
      OlderRecordsAreLong(b, base, f.value, i);
    } else {
      assert b.lay.geo.Place(HashCode(key), i) in b.owner;
    }
  }

  /** What an entry for another key does to the walk. */
  lemma ForeignVerdict(b: Book, base: Str, key: Str, p: nat)
    requires Consistent(b, base, key) && p in b.owner && EntryAt(b, p).key != key
    ensures CutsShort(b, base, key, p) ==> Compare(b.lay, base, key, EntryAt(b, p).value) == Short
    ensures Misleads(b, base, key, p) ==> Compare(b.lay, base, key, EntryAt(b, p).value) == Hit
    ensures Passes(b, base, key, p) <==> !CutsShort(b, base, key, p) && !Misleads(b, base, key, p)
  {
    if EntryAt(b, p).value + |key| <= |base| {
      CompareExactly(b, base, key, b.owner[p]);
    }
  }

  /** The deciding slot itself gives the right answer. */
  lemma DecidingSlot(b: Book, base: Str, key: Str, d: nat)
    requires Consistent(b, base, key) && Decides(b, key, d)
    ensures match FirstStore(b.log, key)
            case Some(j) => b.lay.Slot(key, d) in b.owner && b.owner[b.lay.Slot(key, d)] == j
                            && !b.lay.Skips(b.log[j], HashCode(key))
                            && Compare(b.lay, base, key, b.log[j].value) == Hit
            case None => b.lay.Slot(key, d) !in b.owner
  {
    var f := FirstStore(b.log, key);
    if f.Some? {
      OlderRecordsAreLong(b, base, f.value, d);
      CompareExactly(b, base, key, f.value);
    }
  }

  lemma NotBeyond(b: Book, base: Str, key: Str, n: nat, r: Option<nat>, d: nat)
    requires Consistent(b, base, key) && StopsAt(b, base, key, n, r) && Decides(b, key, d)
    ensures n <= d
  {
    DecidingSlot(b, base, key, d);
    assert !Passes(b, base, key, b.lay.Slot(key, d));
  }

  /** On a clear path, a walk that ends early was cut short, and then the key is not there. */
  lemma StopsInFront(b: Book, base: Str, key: Str, n: nat, r: Option<nat>, d: nat)
    requires Consistent(b, base, key) && StopsAt(b, base, key, n, r) && Decides(b, key, d)
    requires PathClear(b, base, key, d) && n < d
    ensures r == None && FirstStore(b.log, key) == None
  {
    forall i | 0 <= i <= n
      ensures i < n ==> !CutsShort(b, base, key, b.lay.Slot(key, i))
    {
      ForeignEntry(b, base, key, d, i);
      ForeignVerdict(b, base, key, b.lay.Slot(key, i));
    }
    ForeignEntry(b, base, key, d, n);
    ForeignVerdict(b, base, key, b.lay.Slot(key, n));
    assert !ImpostorReached(b, base, key, n);
  }

  lemma ClearPathIsExact(b: Book, base: Str, key: Str, n: nat, r: Option<nat>, d: nat)
    requires Consistent(b, base, key) && StopsAt(b, base, key, n, r) && Decides(b, key, d)
    requires PathClear(b, base, key, d)
    ensures r == FirstValue(b.log, key)
  {
    NotBeyond(b, base, key, n, r, d);
    if n == d {
      DecidingSlot(b, base, key, d);
    } else {
      StopsInFront(b, base, key, n, r, d);
    }
  }

  /** A walk with an impostor before any short read ends on an impostor. */
  lemma MisledEnd(b: Book, base: Str, key: Str, n: nat, r: Option<nat>, d: nat)
    requires Consistent(b, base, key) && StopsAt(b, base, key, n, r) && Decides(b, key, d)
    requires !PathClear(b, base, key, d)
    ensures n < d && Misleads(b, base, key, b.lay.Slot(key, n)) && r == Some(EntryAt(b, b.lay.Slot(key, n)).value)
  {
    var i :| 0 <= i < d && ImpostorReached(b, base, key, i);
    ForeignEntry(b, base, key, d, i);
    ForeignVerdict(b, base, key, b.lay.Slot(key, i));
    NotBeyondStop(b, base, key, n, r, i);
    NotShortYet(b, base, key, i, n);
    ForeignEntry(b, base, key, d, n);
    ForeignVerdict(b, base, key, b.lay.Slot(key, n));
  }

  lemma NotShortYet(b: Book, base: Str, key: Str, i: nat, n: nat)
    requires ImpostorReached(b, base, key, i) && n <= i
    ensures !CutsShort(b, base, key, b.lay.Slot(key, n))
  {}

  lemma NotBeyondStop(b: Book, base: Str, key: Str, n: nat, r: Option<nat>, i: nat)
    requires key != [] && StopsAt(b, base, key, n, r) && !Passes(b, base, key, b.lay.Slot(key, i))
    ensures n <= i
  {}

  /** Such a walk answers wrongly, with the value of an impostor. */
  lemma MisledWalk(b: Book, base: Str, key: Str, n: nat, r: Option<nat>, d: nat) returns (e: Entry)
    requires Consistent(b, base, key) && StopsAt(b, base, key, n, r) && Decides(b, key, d)
    requires !PathClear(b, base, key, d)
    ensures r != FirstValue(b.log, key)
    ensures e in b.log && Impostor(b.lay, base, e, key) && r == Some(e.value)
  {
    MisledEnd(b, base, key, n, r, d);
    ForeignEntry(b, base, key, d, n);
    e := EntryAt(b, b.lay.Slot(key, n));
  }

  /** fetch() returns the value of the first store of its key, or nothing if there was none, exactly when no
      impostor is met on the way. */
  lemma FetchIsFirstStore(b: Book, base: Str, key: Str, n: nat, r: Option<nat>, d: nat)
    requires Consistent(b, base, key) && StopsAt(b, base, key, n, r) && Decides(b, key, d)
    ensures r == FirstValue(b.log, key) <==> PathClear(b, base, key, d)
  {
    if PathClear(b, base, key, d) {
      ClearPathIsExact(b, base, key, n, r, d);
    } else {
      var e := MisledWalk(b, base, key, n, r, d);
    }
  }

  /** The key under which a lookup is made: at most DBZMAXKEY characters, case-mapped. */
  function Mapped(lay: Layout, key: Str): Str {
    Fold(lay.casemap, if |key| >= DBZMAXKEY then key[..DBZMAXKEY] else key)
  }

  ghost function DecidingProbe(b: Book, key: Str): nat {
    match FirstStore(b.log, key)
    case Some(j) => if j < |b.depth| then b.depth[j] else 0
    case None => Vacancy(b, HashCode(key))
  }

  lemma DecidingProbeDecides(b: Book, key: Str)
    requires b.Good()
    ensures Decides(b, key, DecidingProbe(b, key))
  {}

  /** Whenever key and base file are in order: the answer of a fetch is the value of the first store of the key, or
      nothing when there is none, exactly when no impostor is met on the way. */
  ghost predicate Answers(lay: Layout, log: seq<Entry>, base: Str, key: Str, r: Option<nat>) {
    var b := Replay(lay, log);
    Consistent(b, base, key) ==> (r == FirstValue(log, key) <==> PathClear(b, base, key, DecidingProbe(b, key)))
  }

  lemma WalkAnswers(lay: Layout, log: seq<Entry>, base: Str, key: Str, n: nat, r: Option<nat>)
    requires key != [] && StopsAt(Replay(lay, log), base, key, n, r)
    ensures Answers(lay, log, base, key, r)
  {
    var b := Replay(lay, log);
    if Consistent(b, base, key) {
      DecidingProbeDecides(b, key);
      FetchIsFirstStore(b, base, key, n, r, DecidingProbe(b, key));
    }
  }
}
