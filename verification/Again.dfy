/** dbzagain: an empty database that is laid out for the contents of another one. */
module Again {
  import opened Text
  import opened Bits
  import opened Words
  import opened DirConfig
  import ConfFile
  import Dbz
  import opened Primes

  /** The largest recorded usage. */
  function Peak(used: seq<int>): (top: int)
    ensures top >= 0 && forall u :: u in used ==> u <= top
  {
    if used == [] then 0
    else
      var top, u := Peak(used[..|used| - 1]), used[|used| - 1];
      assert used == used[..|used| - 1] + [u];
      if top < u then u else top
  }

  lemma PeakOneMore(used: seq<int>, u: int)
    ensures Peak(used + [u]) == if Peak(used) < u then u else Peak(used)
  {
    assert (used + [u])[..|used|] == used;
  }

  /** There are generations without entries, or without a count so far. */
  predicate NewTable(used: seq<int>) {
    0 in used || Peak(used) == 0
  }

  /** The table for some number of entries is no larger than a long can say. */
  ghost predicate FitsLong(contents: int) {
    contents <= 1 || exists p: nat :: Start(contents) <= p && TablePrime(p) && IsLong(p)
  }

  lemma BestSizeFitsLong(contents: int, n: nat)
    requires BestSize(contents, n) && FitsLong(contents)
    ensures n > 0 && IsLong(n)
  {}

  /** There are tags, and the file is larger than 2^24 bytes, whatever the shift of the tags. */
  predicate Retags(c: Config, size: nat) {
    (c.tagmask != 0 || c.tagenb != 0) && size > Pow2(TAGSHIFT)
  }

  /** The masks are in order, and every offset below this size can be tagged and stored with them. */
  ghost predicate Suits(c: Config, size: nat) {
    c.tagshift >= 0 && forall coding: Coding :: HasMasks(coding, c.tagenb, c.tagmask, c.tagshift) ==>
      coding.TagsOk() && Takes(coding, size)
  }

  /** Tags in all the bits of an offset that the size leaves free, apart from the highest, which is the marker. */
  ghost predicate TagsFor(c: Config, size: nat) {
    && 0 <= c.tagshift <= 62 && size <= Pow2(c.tagshift) && (c.tagshift > 0 ==> Pow2(c.tagshift - 1) < size)
    && c.tagmask == Pow2(63 - c.tagshift) - 1 && c.tagenb == Pow2(63 - c.tagshift)
  }

  /** The tag masks for offsets below a file size. */
  method AgainTags(c: Config, size: nat) returns (c': Config)
    requires size <= 0x4000_0000_0000_0000
    ensures c' == c.(tagshift := c'.tagshift, tagmask := c'.tagmask, tagenb := c'.tagenb)
    ensures if Retags(c, size) then Suits(c', size) && TagsFor(c', size) else c' == c
    ensures Printable(c) ==> Printable(c')
  {
    var m, i := SizeLog(size);
    c' := c;
    Pow2Order(TAGSHIFT, i);
    SizeAbove(size, i);
    if (c.tagmask != 0 || c.tagenb != 0) && m > Pow2(TAGSHIFT) {
      var tagmask := Shr(WORDS - 1, i + 1);
      var tagenb := AndNot(2 * tagmask, tagmask);
      c' := c.(tagshift := i, tagmask := tagmask, tagenb := tagenb);
      NewMasks(c', size, i, tagmask, tagenb);
    }
  }

  lemma SizeAbove(size: nat, i: nat)
    requires IsLog(size, i)
    ensures Pow2(i) > Pow2(TAGSHIFT) <==> size > Pow2(TAGSHIFT)
  {
    if Pow2(i) > Pow2(TAGSHIFT) {
      Pow2Order(TAGSHIFT, i);
      Pow2Order(i - 1, TAGSHIFT);
    }
  }

  lemma NewMasks(c: Config, size: nat, i: nat, tagmask: nat, tagenb: nat)
    requires 0 < size && IsLog(size, i) && TAGSHIFT < i <= 62
    requires tagmask == Shr(WORDS - 1, i + 1) && tagenb == AndNot(2 * tagmask, tagmask)
    requires c.tagshift == i && c.tagmask == tagmask && c.tagenb == tagenb
    ensures c.tagenb < OFFSETS && c.tagmask < OFFSETS && Suits(c, size) && TagsFor(c, size)
  {
    forall coding: Coding | HasMasks(coding, c.tagenb, c.tagmask, c.tagshift)
      ensures coding.TagsOk() && Takes(coding, size)
    {
      MasksFit(size, i, tagmask, tagenb, coding);
    }
    OnesAbove(i, tagmask);
    AndNotIsApart(tagmask, 2 * tagmask);
    ShiftedOnes(i);
    MarkerOfOnes(63 - i, tagmask);
  }

  /** The marker stands right above the ones of the mask. */
  lemma MarkerOfOnes(k: nat, mask: nat)
    requires k > 0 && mask == Pow2(k) - 1
    ensures AndNot(2 * mask, mask) == Pow2(k)
  {
    var half: nat := Pow2(k - 1) - 1;
    MarkerAboveOnes(k - 1);
    OneUp(2 * mask, mask, mask, half, Pow2(k - 1));
  }

  lemma OneUp(y: nat, m: nat, y': nat, m': nat, p: nat)
    requires y / 2 == y' && m / 2 == m' && m % 2 == 1 && AndNot(y', m') == p
    ensures AndNot(y, m) == 2 * p
  {
    MaskStep(y, m);
  }

  lemma MasksFit(size: nat, i: nat, tagmask: nat, tagenb: nat, coding: Coding)
    requires 0 < size && IsLog(size, i) && TAGSHIFT < i <= 62
    requires tagmask == Shr(WORDS - 1, i + 1) && tagenb == AndNot(2 * tagmask, tagmask)
    requires HasMasks(coding, tagenb, tagmask, i)
    ensures coding.TagsOk() && Takes(coding, size)
  {
    OnesAbove(i, tagmask);
    TagMaskFits(size, i, tagenb, tagmask, i, coding, 0);
    SplitMaskTakes(size, i, tagenb, tagmask, i, coding);
  }

  lemma OnesAbove(i: nat, mask: nat)
    requires TAGSHIFT < i <= 62 && mask == Shr(WORDS - 1, i + 1)
    ensures mask % 2 == 1 && Shl(mask, i) == OFFSETS - Pow2(i) && 2 * mask < OFFSETS
  {
    ShiftedOnes(i);
    OnesOnTop(i);
    OddOnes(63 - i);
    SmallOnes(i);
  }

  lemma SmallOnes(i: nat)
    requires TAGSHIFT < i <= 62
    ensures 2 * (Pow2(63 - i) - 1) < OFFSETS
  {
    Pow2Long();
    Pow2Order(63 - i, 62);
  }

  /** The new configuration: the usage counts move on, and the table is as large as the peak of the old ones wants, but
      does not shrink before there is a full history of usage. The tags change if there are any and the file is larger
      than 2^24 bytes, and nothing else changes. */
  ghost predicate Renewed(c: Config, size: Option<nat>, c': Config, newsize: nat)
    requires |c.used| == NUSEDS
  {
    && BestSize(Peak(c.used), newsize)
    && c' == c.(tagshift := c'.tagshift, tagmask := c'.tagmask, tagenb := c'.tagenb,
                used := [0] + c.used[..NUSEDS - 1], tsize := c'.tsize)
    && c'.tsize == (if NewTable(c.used) && newsize <= c.tsize then c.tsize else newsize) && c'.tsize > 0
    && (forall u :: u in c.used ==> 3 * u <= 2 * c'.tsize + 3)
    && if size.Some? && Retags(c, size.value) then Suits(c', size.value) && TagsFor(c', size.value)
       else (c'.tagshift, c'.tagmask, c'.tagenb) == (c.tagshift, c.tagmask, c.tagenb)
  }

  /** The same in numbers, by the largest of the old usage counts: without any positive one the table gets the default
      size; with a count of 0 it does not shrink; and tags change only beyond sixteen megabytes. */
  lemma RenewedInNumbers(c: Config, size: Option<nat>, c': Config, newsize: nat, top: int)
    requires |c.used| == NUSEDS && Renewed(c, size, c', newsize)
    requires top in c.used && forall u :: u in c.used ==> u <= top
    ensures top <= 0 ==> newsize == 120011
    ensures top == 1 ==> newsize == 1
    ensures top >= 2 ==> LeastSize(3 * (top - top % 2), newsize)
    ensures c'.tsize == (if (0 in c.used || top <= 0) && c.tsize >= newsize then c.tsize else newsize)
    ensures c'.used == [0] + c.used[..10]
    ensures size.None? || size.value <= 16777216 || (c.tagmask == 0 && c.tagenb == 0) ==>
              (c'.tagshift, c'.tagmask, c'.tagenb) == (c.tagshift, c.tagmask, c.tagenb)
    ensures size.Some? && size.value > 16777216 && (c.tagmask != 0 || c.tagenb != 0) ==> TagsFor(c', size.value)
  {
    PeakBelow(c.used, if top < 0 then 0 else top);
    SizeInNumbers(Peak(c.used), newsize);
    Pow2Long();
  }

  lemma {:induction false} PeakBelow(used: seq<int>, top: nat)
    requires forall u :: u in used ==> u <= top
    ensures Peak(used) <= top
  {
    if used != [] {
      var front, u := used[..|used| - 1], used[|used| - 1];
      assert used == front + [u] && u in used && forall v :: v in front ==> v in used;
      PeakBelow(front, top);
      PeakOneMore(front, u);
    }
  }

  method AgainConfig(c: Config, size: Option<nat>) returns (c': Config, ghost newsize: nat)
    requires |c.used| == NUSEDS && (size.Some? ==> size.value <= 0x4000_0000_0000_0000)
    ensures Renewed(c, size, c', newsize)
    ensures Printable(c) && IsLong(c'.tsize) ==> Printable(c')
  {
    c' := c;
    if size.Some? {
      c' := AgainTags(c, size.value);
    }
    var used, tsize;
    used, tsize, newsize := Tinker(c');
    BestSizePositive(Peak(c.used), newsize);
    c' := c'.(used := used, tsize := tsize);
  }

  /** What dbminit needs: the masks make sense, or are replaced. */
  ghost predicate Renewable(c: Config, size: Option<nat>) {
    c.Shaped() && (c.CodingOf().TagsOk() || (size.Some? && Retags(c, size.value)))
  }

  lemma RenewedIsUsable(c: Config, size: Option<nat>, c': Config, newsize: nat)
    requires Renewable(c, size) && Printable(c') && Renewed(c, size, c', newsize)
    ensures c'.Usable()
  {
    assert c'.ByteMap() == c.ByteMap();
    assert HasMasks(c'.CodingOf(), c'.tagenb, c'.tagmask, c'.tagshift);
  }

  lemma BestSizePositive(contents: int, n: nat)
    requires BestSize(contents, n)
    ensures n > 0
  {}

  /** The usage counts move on by one. */
  method MoveOn(used: seq<int>) returns (used': seq<int>)
    requires |used| == NUSEDS
    ensures used' == [0] + used[..NUSEDS - 1]
  {
    used' := used;
    var i := NUSEDS - 1;
    while i > 0
      invariant 0 <= i < NUSEDS && |used'| == NUSEDS
      invariant forall j :: i < j < NUSEDS ==> used'[j] == used[j - 1]
      invariant forall j :: 0 <= j <= i ==> used'[j] == used[j]
    {
      used' := used'[i := used'[i - 1]];
      i := i - 1;
    }
    used' := used'[0 := 0];
  }

  /** The new usage counts and table size. */
  method Tinker(c: Config) returns (used: seq<int>, tsize: int, newsize: nat)
    requires |c.used| == NUSEDS
    ensures used == [0] + c.used[..NUSEDS - 1]
    ensures BestSize(Peak(c.used), newsize)
    ensures tsize == if NewTable(c.used) && newsize <= c.tsize then c.tsize else newsize
    ensures forall u :: u in c.used ==> 3 * u <= 2 * tsize + 3
  {
    var top, newtable := 0, false;
    for i := 0 to NUSEDS
      invariant top == Peak(c.used[..i]) && (newtable <==> 0 in c.used[..i])
    {
      PeakOneMore(c.used[..i], c.used[i]);
      assert c.used[..i + 1] == c.used[..i] + [c.used[i]];
      if top < c.used[i] {
        top := c.used[i];
      }
      if c.used[i] == 0 {
        newtable := true;
      }
    }
    assert c.used[..NUSEDS] == c.used;
    if top == 0 {
      newtable := true;
    }
    used := MoveOn(c.used);
    newsize := DbzSize(top);
    tsize := c.tsize;
    if !newtable || newsize > tsize {
      tsize := newsize;
    }
  }

  /** An empty database for what another one holds; null when the .dir file of that one is bad. */
  method DbzAgain(olddir: Str, size: Option<nat>, incore: bool, writethrough: bool)
      returns (db: Dbz.Database?)
    requires size.Some? ==> size.value <= 0x4000_0000_0000_0000
    requires match GetConf(olddir, false)
             case None => true
             case Some(c) => Renewable(c, size) && Printable(c) && FitsLong(Peak(c.used))
    ensures db == null <==> GetConf(olddir, false) == None
    ensures db != null ==> db.Valid() && db.FilesOk() && fresh(db) && db.log == [] && db.uncounted == 0
    ensures db != null ==> db.lay == db.conf.LayoutOf()
                           && exists newsize: nat :: Renewed(GetConf(olddir, false).value, size, db.conf, newsize)
  {
    var f := new ConfFile.InFile(olddir);
    var c := f.ReadConf(false);
    if c.None? {
      return null;
    }
    var conf;
    ghost var newsize;
    conf, newsize := AgainConfig(c.value, size);
    BestSizeFitsLong(Peak(c.value.used), newsize);
    RenewedIsUsable(c.value, size, conf, newsize);
    db := Dbz.CreateFiles(conf, incore, writethrough);
  }
}
