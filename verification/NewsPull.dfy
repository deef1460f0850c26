/** The news puller: rounds over the groups of the active file, with the marks kept in its text. */
module NewsPull {
  import opened Text
  import opened Decimal
  import opened ActiveFile
  import opened PullCursor

  // ----- the active file in memory

  /** What the text says about a group: its numbers as far as they fit their fields. */
  function Stored(r: Rc): Rc {
    r.(high := r.high % Pow10(r.at.highlen), low := r.low % Pow10(r.at.lowlen))
  }

  ghost predicate HasFields(text: Str, r: Rc) {
    && IsField(text, r.at.highptr, r.at.highptr + r.at.highlen)
    && IsField(text, r.at.lowptr, r.at.lowptr + r.at.lowlen)
    && r.high >= 0 && r.low >= 0
  }

  /** No two numbers share a field. */
  ghost predicate Separate(newsrc: seq<Rc>) {
    forall i, j {:trigger Differ(newsrc, i, j)} :: 0 <= i < |newsrc| && 0 <= j < |newsrc| ==> Differ(newsrc, i, j)
  }

  ghost predicate Differ(newsrc: seq<Rc>, i: int, j: int)
    requires 0 <= i < |newsrc| && 0 <= j < |newsrc|
  {
    && newsrc[i].at.highptr != newsrc[j].at.lowptr
    && (i != j ==> newsrc[i].at.highptr != newsrc[j].at.highptr && newsrc[i].at.lowptr != newsrc[j].at.lowptr)
  }

  /** Reading the text again would give these groups, with their numbers as far as they fit. */
  ghost predicate InStep(text: Str, newsrc: seq<Rc>) {
    && |Groups(text)| == |newsrc|
    && forall i {:trigger Groups(text)[i]} :: 0 <= i < |newsrc| ==> Groups(text)[i] == Stored(newsrc[i])
  }

  ghost predicate TextOk(text: Str, newsrc: seq<Rc>) {
    && InStep(text, newsrc) && Separate(newsrc)
    && forall i {:trigger HasFields(text, newsrc[i])} :: 0 <= i < |newsrc| ==> HasFields(text, newsrc[i])
  }

  /** Other fields stay fields when one is rewritten. */
  lemma FieldStays(t: Str, u: Str, a: nat, b: nat, c: nat, d: nat)
    requires Alike(t, u, a, b) && IsField(t, c, d)
    ensures IsField(u, c, d)
  {
    assert IsSpace(u[c - 1]) && u[c - 1] == t[c - 1];
    if d < |t| {
      assert u[d] == t[d];
    }
  }

  /** The field of a group's number, and the group with another value there. */
  ghost predicate Sets(rc: Rc, a: nat, b: nat, value: nat, r: Rc) {
    || (r == rc.(high := value) && a == rc.at.highptr && b == a + rc.at.highlen)
    || (r == rc.(low := value) && a == rc.at.lowptr && b == a + rc.at.lowlen)
  }

  /** Rewriting a field is setting a number of a group. */
  lemma FieldIsNumber(newsrc: seq<Rc>, i: nat, a: nat, b: nat, value: nat, r: Rc, j: nat)
    requires i < |newsrc| && j < |newsrc| && Separate(newsrc) && Sets(newsrc[i], a, b, value, r)
    ensures a <= b && Stored(newsrc[i := r][j]) == Patched(Stored(newsrc[j]), a, value % Pow10(b - a))
  {
    assert Differ(newsrc, i, j) && Differ(newsrc, j, i) && Differ(newsrc, i, i);
  }

  /** The text and the groups stay in step when a number and its field are rewritten together. */
  lemma Rewritten(text: Str, newsrc: seq<Rc>, i: nat, a: nat, b: nat, value: nat, r: Rc)
    requires TextOk(text, newsrc) && i < |newsrc| && Sets(newsrc[i], a, b, value, r)
    ensures a <= b <= |text| && TextOk(Patch(text, a, LastDigits(value, b - a)), newsrc[i := r])
  {
    assert HasFields(text, newsrc[i]) && Differ(newsrc, i, i);
    Reread(text, a, b, value);
    var u := Patch(text, a, LastDigits(value, b - a));
    SeparateStays(newsrc, i, r);
    StepStays(text, u, newsrc, i, a, b, value, r);
    FieldsStay(text, u, newsrc, newsrc[i := r], i, a, b, r);
  }

  lemma StepStays(text: Str, u: Str, newsrc: seq<Rc>, i: nat, a: nat, b: nat, value: nat, r: Rc)
    requires InStep(text, newsrc) && Separate(newsrc) && i < |newsrc| && Sets(newsrc[i], a, b, value, r)
    requires Groups(u) == PatchedAll(Groups(text), a, value % Pow10(b - a))
    ensures InStep(u, newsrc[i := r])
  {
    forall j | 0 <= j < |newsrc|
      ensures Groups(u)[j] == Stored(newsrc[i := r][j])
    {
      FieldIsNumber(newsrc, i, a, b, value, r, j);
    }
  }

  lemma FieldsStay(text: Str, u: Str, newsrc: seq<Rc>, newsrc': seq<Rc>, i: nat, a: nat, b: nat, r: Rc)
    requires Alike(text, u, a, b) && i < |newsrc| && r.at == newsrc[i].at && r.high >= 0 && r.low >= 0
    requires newsrc' == newsrc[i := r]
    requires forall j :: 0 <= j < |newsrc| ==> HasFields(text, newsrc[j])
    ensures forall j :: 0 <= j < |newsrc| ==> HasFields(u, newsrc'[j])
  {
    forall j | 0 <= j < |newsrc|
      ensures HasFields(u, newsrc'[j])
    {
      var rc := newsrc[j];
      assert HasFields(text, rc);
      FieldStays(text, u, a, b, rc.at.highptr, rc.at.highptr + rc.at.highlen);
      FieldStays(text, u, a, b, rc.at.lowptr, rc.at.lowptr + rc.at.lowlen);
    }
  }

  lemma SeparateStays(newsrc: seq<Rc>, i: nat, r: Rc)
    requires i < |newsrc| && Separate(newsrc) && r.at == newsrc[i].at
    ensures Separate(newsrc[i := r])
  {
    var newsrc' := newsrc[i := r];
    forall j, k | 0 <= j < |newsrc| && 0 <= k < |newsrc|
      ensures Differ(newsrc', j, k)
    {
      assert Differ(newsrc, j, k);
    }
  }

  class Puller {
    const act: array<Byte>
    const xhdr: array<Item>
    const lim: Limits
    const resetActive: bool
    var newsrc: seq<Rc>
    var actdirty: bool

    ghost predicate Valid()
      reads `newsrc, act
    {
      && lim.arts <= MAX_ARTS == xhdr.Length
      && TextOk(act[..], newsrc)
    }

    /** Read the active file. Its numbers have to fit their fields, which no two groups may share. */
    constructor (text: Str, lim: Limits, resetActive: bool)
      requires lim.arts <= MAX_ARTS && TextOk(text, Groups(text))
      ensures Valid() && newsrc == Groups(text) && act[..] == text && fresh(act) && fresh(xhdr)
      ensures this.lim == lim && this.resetActive == resetActive
    {
      var groups := InitRcFiles(text);
      this.newsrc, this.lim, this.resetActive, this.actdirty := groups, lim, resetActive, false;
      this.act := new Byte[|text|](i requires 0 <= i < |text| => text[i]);
      this.xhdr := new Item[MAX_ARTS](_ => Item(0, []));
      new;
      assert act[..] == text;
    }

    method SetHigh(i: nat, value: nat)
      requires Valid() && i < |newsrc|
      modifies `newsrc, act
      ensures Valid() && newsrc == old(newsrc)[i := old(newsrc)[i].(high := value)]
    {
      var rc := newsrc[i];
      Rewritten(act[..], newsrc, i, rc.at.highptr, rc.at.highptr + rc.at.highlen, value, rc.(high := value));
      newsrc := newsrc[i := rc.(high := value)];
      UpdateRc(act, rc.at.highptr, rc.at.highlen, value);
    }

    method SetLow(i: nat, value: nat)
      requires Valid() && i < |newsrc|
      modifies `newsrc, act
      ensures Valid() && newsrc == old(newsrc)[i := old(newsrc)[i].(low := value)]
    {
      var rc := newsrc[i];
      Rewritten(act[..], newsrc, i, rc.at.lowptr, rc.at.lowptr + rc.at.lowlen, value, rc.(low := value));
      newsrc := newsrc[i := rc.(low := value)];
      UpdateRc(act, rc.at.lowptr, rc.at.lowlen, value);
    }

    /** Read the lines of an answer to XHDR and remember the articles to fetch. */
    method Collect(reply: Reply, wanted: Str -> bool, maxget: nat) returns (artcount: nat, maxartno: nat)
      requires lim.arts <= MAX_ARTS == xhdr.Length
      modifies xhdr
      ensures artcount <= lim.arts
      ensures Batch(xhdr[..artcount], maxartno) == Gather(reply.Lines(), wanted, lim.arts, maxget)
    {
      artcount, maxartno := 0, maxget;
      ghost var lines := reply.Lines();
      var k := 0;
      while k < |reply.text| && reply.text[k] != "."
        invariant k <= |lines| && artcount <= lim.arts
        invariant Batch(xhdr[..artcount], maxartno) == Gather(lines[..k], wanted, lim.arts, maxget)
      {
        var l := ParseXhdr(reply.text[k]);
        GatherStep(lines, k, wanted, lim.arts, maxget, Batch(xhdr[..artcount], maxartno));
        if artcount < lim.arts {
          artcount := Look(l, wanted, artcount);
          maxartno := l.artno;
        }
        k := k + 1;
      }
      assert lines[..k] == lines;
    }

    /** Remember an article, if it is wanted. */
    method Look(l: Listed, wanted: Str -> bool, artcount: nat) returns (artcount': nat)
      requires artcount < lim.arts <= MAX_ARTS == xhdr.Length
      modifies xhdr
      ensures artcount <= artcount' <= artcount + 1
      ensures xhdr[..artcount'] == Looked(Batch(old(xhdr[..artcount]), 0), l, wanted).queue
    {
      artcount' := artcount;
      if l.mid.Some? && wanted(l.mid.value) {
        xhdr[artcount] := Item(l.artno, l.mid.value);
        artcount' := artcount + 1;
      }
    }

    /** Set the high mark of a group, if it is another one. */
    method MoveHigh(i: nat, value: nat)
      requires Valid() && i < |newsrc|
      modifies `newsrc, act
      ensures Valid() && newsrc == old(newsrc)[i := old(newsrc)[i].(high := value)]
    {
      if newsrc[i].high != value {
        SetHigh(i, value);
      }
    }

    /** Offer the remembered articles one by one, until an offer fails. */
    method Offer(i: nat, artcount: nat, offers: nat -> Transfer) returns (exception: int)
      requires Valid() && i < |newsrc| && artcount <= MAX_ARTS && newsrc[i].high >= 0
      modifies `newsrc, act
      ensures Valid()
      ensures var o := Offered(xhdr[..artcount], 0, lim.post, offers, old(newsrc[i].high));
              && newsrc == old(newsrc)[i := old(newsrc[i]).(high := o.mark)]
              && (exception == -1 <==> o.failed)
    {
      exception := 0;
      ghost var was, queue := newsrc, xhdr[..artcount];
      ghost var all := Offered(queue, 0, lim.post, offers, was[i].high);
      for xcount := 0 to artcount
        invariant Valid() && xhdr[..artcount] == queue && exception != -1
        invariant 0 <= i < |newsrc| && newsrc[i].high >= 0 && newsrc == was[i := was[i].(high := newsrc[i].high)]
        invariant Offered(queue, xcount, lim.post, offers, newsrc[i].high) == all
      {
        exception := IhaveResult(lim.post, offers(xcount));
        if exception == -1 {
          return;
        }
        MoveHigh(i, xhdr[xcount].artno);
      }
    }

    /** Ask for the headers of a range. */
    method Ask(start: nat, maxget: nat, r: Round) returns (artcount: nat, maxartno: nat)
      requires lim.arts <= MAX_ARTS == xhdr.Length
      modifies xhdr
      ensures artcount <= MAX_ARTS && Batch(xhdr[..artcount], maxartno) == BatchOf(start, maxget, lim, r)
    {
      var reply := Answer(start, maxget, r);
      artcount, maxartno := 0, maxget;
      if reply.code == HEAD_FOLLOWS {
        artcount, maxartno := Collect(reply, r.wanted, maxget);
      }
    }

    /** Offer what was remembered, and if nothing failed go on to the last article that was looked at. */
    method Fetch(i: nat, artcount: nat, maxartno: nat, offers: nat -> Transfer)
      requires Valid() && i < |newsrc| && artcount <= MAX_ARTS && newsrc[i].high >= 0
      modifies `newsrc, `actdirty, act
      ensures Valid()
      ensures var o := Offered(xhdr[..artcount], 0, lim.post, offers, old(newsrc[i].high));
              newsrc == old(newsrc)[i := old(newsrc[i]).(high := if o.failed then o.mark else maxartno)]
    {
      var exception := Offer(i, artcount, offers);
      if newsrc[i].high != maxartno && exception != -1 {
        actdirty := true;
        SetHigh(i, maxartno);
      }
    }

    /** A group that was cut off at the bottom starts there. */
    method StartAt(i: nat, low: nat)
      requires Valid() && i < |newsrc| && newsrc[i].high >= 0
      modifies `newsrc, `actdirty, act
      ensures Valid()
      ensures newsrc == old(newsrc)[i := old(newsrc[i]).(high := StartOf(old(newsrc[i].high), low))]
    {
      if newsrc[i].high < low {
        actdirty := true;
        SetHigh(i, low);
      }
    }

    /** Pull what is new in a group. */
    method PullRange(i: nat, r: Round)
      requires Valid() && i < |newsrc| && 0 <= newsrc[i].high < r.high
      modifies `newsrc, `actdirty, act, xhdr
      ensures Valid()
      ensures newsrc == old(newsrc)[i := old(newsrc[i]).(high := Pull(old(newsrc[i].high), lim, r))]
    {
      ghost var mark := newsrc[i].high;
      StartAt(i, r.low);
      var start := newsrc[i].high;
      var maxget := r.high;
      if r.high > start + lim.stats {
        maxget := start + lim.stats;
      }
      var artcount, maxartno := Ask(start, maxget, r);
      PullInSteps(mark, lim, r, start, maxget, Batch(xhdr[..artcount], maxartno));
      Fetch(i, artcount, maxartno, r.offers);
    }

    /** One group: note its lowest article, and pull what is new or take over the server's mark. The server may give its
        two marks in either order. */
    method PullGroup(i: nat, t: Turn)
      requires Valid() && i < |newsrc|
      modifies `newsrc, `actdirty, act, xhdr
      ensures Valid() && old(newsrc[i].high) >= 0
      ensures newsrc == old(newsrc)[i := Pulled(old(newsrc[i]), lim, resetActive, t)]
      ensures t.code != 211 ==> newsrc == old(newsrc)
      ensures t.code == 211 ==> newsrc[i].low == if t.r.low <= t.r.high then t.r.low else t.r.high
      ensures t.code == 211 && resetActive ==> newsrc[i].high == if t.r.low <= t.r.high then t.r.high else t.r.low
    {
      assert HasFields(act[..], newsrc[i]);
      if t.code == GROUPOK {
        var s := Sorted(t.r);
        if newsrc[i].low != s.low {
          actdirty := true;
          SetLow(i, s.low);
        }
        if resetActive {
          if newsrc[i].high != s.high {
            actdirty := true;
            SetHigh(i, s.high);
          }
        } else if newsrc[i].high < s.high {
          PullRange(i, s);
        }
      }
    }

    /** A session: every group in turn. What the servers answer for each group is given. */
    method ReadNews(turns: seq<Turn>)
      requires Valid() && |turns| == |newsrc|
      modifies `newsrc, `actdirty, act, xhdr
      ensures Valid() && |newsrc| == old(|newsrc|)
      ensures forall i :: 0 <= i < |newsrc| ==>
                old(newsrc)[i].high >= 0 && newsrc[i] == Pulled(old(newsrc)[i], lim, resetActive, turns[i])
    {
      actdirty := false;
      ghost var was := newsrc;
      for i := 0 to |newsrc|
        invariant Valid() && |newsrc| == |was|
        invariant forall j :: 0 <= j < i ==> was[j].high >= 0 && newsrc[j] == Pulled(was[j], lim, resetActive, turns[j])
        invariant forall j :: i <= j < |was| ==> newsrc[j] == was[j]
      {
        PullGroup(i, turns[i]);
      }
    }
  }

  /** A group after its turn. */
  function Pulled(rc: Rc, lim: Limits, resetActive: bool, t: Turn): Rc
    requires rc.high >= 0
  {
    if t.code != GROUPOK then rc
    else
      rc.(low := Sorted(t.r).low, high := if resetActive then Sorted(t.r).high else NextMark(rc.high, lim, t))
  }

  lemma PullInSteps(mark: nat, lim: Limits, r: Round, start: nat, maxget: nat, b: Batch)
    requires mark < r.high && start == StartOf(mark, r.low) && maxget == MaxGet(start, r.high, lim.stats)
    requires b == BatchOf(start, maxget, lim, r)
    ensures var o := Offered(b.queue, 0, lim.post, r.offers, start);
            Pull(mark, lim, r) == if o.failed then o.mark else b.maxartno
  {}

  lemma GatherStep(lines: seq<Listed>, k: nat, wanted: Str -> bool, arts: nat, maxget: nat, b: Batch)
    requires k < |lines| && b == Gather(lines[..k], wanted, arts, maxget)
    ensures Gather(lines[..k + 1], wanted, arts, maxget) == if |b.queue| < arts then Looked(b, lines[k], wanted) else b
  {
    assert lines[..k + 1][..k] == lines[..k];
  }
}
