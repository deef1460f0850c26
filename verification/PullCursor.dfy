/** The cursor of the news puller: how far a group has been read from the server. */
module PullCursor {
  import opened Text
  import opened Decimal
  import opened Words

  const GROUPOK: int := 211
  const ARTICLE_FOLLOWS: int := 220
  const HEAD_FOLLOWS: int := 221
  const SENDIT: int := 335
  const START_POST: int := 340
  const POSTEDOK: int := 240
  const POSTFAIL: int := 441
  const MAX_ARTS: nat := 100

  // ----- offering an article

  /** What the two servers answer while an article is offered; None is the end of the connection. */
  datatype Transfer = Transfer(offer: Option<int>, article: Option<int>, complete: bool, reply: Option<int>)

  /** 1 when the article was taken, 0 when it is not to be offered again, -1 otherwise. */
  function IhaveResult(post: bool, t: Transfer): int {
    if t.offer == None then -1
    else if t.offer.value != (if post then START_POST else SENDIT) then
      if Unwanted(post, t.offer.value) then 0 else -1
    else if t.article == None then -1
    else if t.article.value != ARTICLE_FOLLOWS then 0
    else if !t.complete || t.reply == None then -1
    else if t.reply.value == (if post then POSTEDOK else 235) then 1
    else if Unwanted(post, t.reply.value) then 0
    else -1
  }

  /** The reader's server does not want the article. */
  predicate Unwanted(post: bool, code: int) {
    if post then code == POSTFAIL else code == 435 || code == 437
  }

  /** The whole article went across and was accepted. */
  predicate Taken(post: bool, t: Transfer) {
    && t.offer == Some(if post then START_POST else SENDIT)
    && t.article == Some(ARTICLE_FOLLOWS) && t.complete
    && t.reply == Some(if post then POSTEDOK else 235)
  }

  /** The offer or the article was refused for good, or the article is not there any more. */
  predicate Hopeless(post: bool, t: Transfer) {
    || (t.offer.Some? && Unwanted(post, t.offer.value))
    || (t.offer == Some(if post then START_POST else SENDIT) && t.article.Some?
        && (t.article.value != ARTICLE_FOLLOWS || (t.complete && t.reply.Some? && Unwanted(post, t.reply.value))))
  }

  /** There is nothing more to be done for the article. */
  predicate Done(post: bool, t: Transfer) {
    Taken(post, t) || Hopeless(post, t)
  }

  /** An article is passed only when it was taken or there is no point in offering it again. */
  lemma IhaveCodes(post: bool, t: Transfer)
    ensures IhaveResult(post, t) == 1 <==> Taken(post, t)
    ensures IhaveResult(post, t) == 0 <==> Hopeless(post, t)
    ensures IhaveResult(post, t) == -1 <==> !Done(post, t)
    ensures !(Taken(post, t) && Hopeless(post, t))
  {
    assert POSTEDOK != POSTFAIL && START_POST != POSTFAIL && SENDIT != 435 && SENDIT != 437;
  }

  /** The same by the codes of the two protocols. Under IHAVE the offer is answered with 335, 435 or 437 and the article
      with 235, 435 or 437. */
  lemma IhaveByCode(t: Transfer)
    ensures IhaveResult(false, t) in {-1, 0, 1}
    ensures IhaveResult(false, t) == 1
       <==> t.offer == Some(335) && t.article == Some(220) && t.complete && t.reply == Some(235)
    ensures IhaveResult(false, t) == 0
       <==> || t.offer == Some(435) || t.offer == Some(437)
            || (t.offer == Some(335) && t.article != None && t.article != Some(220))
            || (t.offer == Some(335) && t.article == Some(220) && t.complete
                && (t.reply == Some(435) || t.reply == Some(437)))
  {
    IhaveCodes(false, t);
  }

  /** Under POST the offer is answered with 340 or 441 and the article with 240 or 441. */
  lemma PostByCode(t: Transfer)
    ensures IhaveResult(true, t) in {-1, 0, 1}
    ensures IhaveResult(true, t) == 1
       <==> t.offer == Some(340) && t.article == Some(220) && t.complete && t.reply == Some(240)
    ensures IhaveResult(true, t) == 0
       <==> || t.offer == Some(441)
            || (t.offer == Some(340) && t.article != None && t.article != Some(220))
            || (t.offer == Some(340) && t.article == Some(220) && t.complete && t.reply == Some(441))
  {
    IhaveCodes(true, t);
  }

  // ----- one round

  /** A line of the answer to XHDR; no message-id when the line is malformed. */
  datatype Listed = Listed(artno: nat, mid: Option<Str>)
  function ULong(n: int): nat {
    n % WORDS
  }

  function ParseXhdr(line: Str): Listed {
    var p := IndexOf(line, ' ');
    if p == |line| then Listed(0, None) else Listed(ULong(Atol(line[..p])), Some(line[p + 1..]))
  }

  /** How many lines there are before the final dot. */
  function EndOf(text: seq<Str>): (n: nat)
    ensures n <= |text| && (n < |text| ==> text[n] == ".") && forall i :: 0 <= i < n ==> text[i] != "."
  {
    if text == [] || text[0] == "." then 0
    else
      var n := 1 + EndOf(text[1..]);
      assert forall i :: 1 <= i < n ==> text[i] == text[1..][i - 1];
      n
  }

  /** The answer to XHDR. */
  datatype Reply = Reply(code: int, text: seq<Str>)
  {
    function Lines(): seq<Listed> {
      seq(EndOf(text), i requires 0 <= i < EndOf(text) => ParseXhdr(text[i]))
    }
  }

  datatype Item = Item(artno: nat, mid: Str)

  /** The environment during a round: the headers that the server lists for a range; the articles that are wanted, which
      are all, or those that the local server does not know when it is asked with STAT; and what becomes of the k-th
      offer. */
  datatype Round = Round(low: nat, high: nat, xhdr: (nat, nat) -> Reply, wanted: Str -> bool, offers: nat -> Transfer)

  datatype Limits = Limits(arts: nat, stats: nat, post: bool)

  datatype Batch = Batch(queue: seq<Item>, maxartno: nat)

  /** The articles to fetch, up to the limit, and the last number that was looked at. */
  function Gather(lines: seq<Listed>, wanted: Str -> bool, arts: nat, maxget: nat): Batch {
    if lines == [] then Batch([], maxget)
    else
      var b, l := Gather(lines[..|lines| - 1], wanted, arts, maxget), lines[|lines| - 1];
      if |b.queue| < arts then Looked(b, l, wanted) else b
  }

  function Looked(b: Batch, l: Listed, wanted: Str -> bool): Batch {
    Batch(if l.mid.Some? && wanted(l.mid.value) then b.queue + [Item(l.artno, l.mid.value)] else b.queue, l.artno)
  }

  datatype Outcome = Outcome(mark: nat, failed: bool)

  /** From the k-th offer on, the mark follows the offers until one fails. */
  function Offered(queue: seq<Item>, k: nat, post: bool, offers: nat -> Transfer, mark: nat): Outcome
    requires k <= |queue|
    decreases |queue| - k
  {
    if k == |queue| then Outcome(mark, false)
    else if IhaveResult(post, offers(k)) == -1 then Outcome(mark, true)
    else Offered(queue, k + 1, post, offers, queue[k].artno)
  }

  /** A group that was cut off at the bottom continues from there. */
  function StartOf(mark: nat, low: nat): nat {
    if mark < low then low else mark
  }

  function MaxGet(start: nat, high: nat, stats: nat): nat {
    if high > start + stats then start + stats else high
  }

  /** The answer to XHDR for the range that a round asks for. */
  function Answer(start: nat, maxget: nat, r: Round): Reply {
    r.xhdr(start + 1, maxget)
  }

  function BatchOf(start: nat, maxget: nat, lim: Limits, r: Round): Batch {
    var reply := Answer(start, maxget, r);
    if reply.code == HEAD_FOLLOWS then Gather(reply.Lines(), r.wanted, lim.arts, maxget) else Batch([], maxget)
  }

  /** The mark of a group after a round. */
  function Pull(mark: nat, lim: Limits, r: Round): nat {
    if mark >= r.high then mark
    else
      var start := StartOf(mark, r.low);
      var b := BatchOf(start, MaxGet(start, r.high, lim.stats), lim, r);
      var o := Offered(b.queue, 0, lim.post, r.offers, start);
      if o.failed then o.mark else b.maxartno
  }

  // ----- safety and progress of a round

  /** What a proper server lists: increasing numbers in the range, each with its message-id. */
  ghost predicate WellListed(lines: seq<Listed>, from: nat, to: nat) {
    && (forall i :: 0 <= i < |lines| ==> from <= lines[i].artno <= to && lines[i].mid.Some?)
    && (forall i, j :: 0 <= i < j < |lines| ==> lines[i].artno < lines[j].artno)
  }

  /** The range and the batch of a round that begins at a mark. */
  ghost predicate Asks(mark: nat, lim: Limits, r: Round, start: nat, maxget: nat, b: Batch) {
    && mark < r.high
    && start == StartOf(mark, r.low) && maxget == MaxGet(start, r.high, lim.stats)
    && b == BatchOf(start, maxget, lim, r)
  }

  ghost predicate ProperAnswer(start: nat, maxget: nat, r: Round) {
    Answer(start, maxget, r).code == HEAD_FOLLOWS ==> WellListed(Answer(start, maxget, r).Lines(), start + 1, maxget)
  }

  ghost predicate ProperServer(mark: nat, lim: Limits, r: Round) {
    && r.low <= r.high
    && var start := StartOf(mark, r.low);
       mark < r.high ==> ProperAnswer(start, MaxGet(start, r.high, lim.stats), r)
  }

  /** The queue is what is wanted among the lines that were looked at, in their order. */
  ghost predicate Collected(lines: seq<Listed>, wanted: Str -> bool, arts: nat, start: nat, b: Batch) {
    && |b.queue| <= arts && (lines == [] ==> b.queue == [])
    && (forall k :: 0 <= k < |b.queue| ==> start < b.queue[k].artno <= b.maxartno)
    && (forall j, k :: 0 <= j < k < |b.queue| ==> b.queue[j].artno < b.queue[k].artno)
    && (lines != [] ==> start < b.maxartno <= lines[|lines| - 1].artno)
    && (lines != [] && |b.queue| < arts ==> b.maxartno == lines[|lines| - 1].artno)
    && (forall i :: 0 <= i < |lines| && lines[i].artno <= b.maxartno
                    && lines[i].mid.Some? && wanted(lines[i].mid.value) ==>
          Item(lines[i].artno, lines[i].mid.value) in b.queue)
  }

  lemma {:induction false} GatherCollects(lines: seq<Listed>, wanted: Str -> bool, arts: nat, start: nat, maxget: nat)
    requires WellListed(lines, start + 1, maxget) && arts >= 1
    ensures Collected(lines, wanted, arts, start, Gather(lines, wanted, arts, maxget))
  {
    if lines != [] {
      var front, l := lines[..|lines| - 1], lines[|lines| - 1];
      assert lines == front + [l];
      WellListedFront(lines, front, l, start + 1, maxget);
      GatherCollects(front, wanted, arts, start, maxget);
      CollectedOneMore(front, l, lines, wanted, arts, start, maxget);
    }
  }

  lemma WellListedFront(lines: seq<Listed>, front: seq<Listed>, l: Listed, from: nat, to: nat)
    requires WellListed(lines, from, to) && lines == front + [l]
    ensures WellListed(front, from, to) && from <= l.artno <= to && l.mid.Some?
    ensures forall i :: 0 <= i < |front| ==> front[i].artno < l.artno
    ensures forall i :: 0 <= i < |front| ==> front[i].artno <= front[|front| - 1].artno
  {
    assert lines[|front|] == l;
    assert forall i :: 0 <= i < |front| ==> lines[i] == front[i];
  }

  lemma CollectedOneMore(front: seq<Listed>, l: Listed, lines: seq<Listed>, wanted: Str -> bool, arts: nat,
                         start: nat, maxget: nat)
    requires WellListed(lines, start + 1, maxget) && arts >= 1 && lines == front + [l]
    requires Collected(front, wanted, arts, start, Gather(front, wanted, arts, maxget))
    ensures Collected(lines, wanted, arts, start, Gather(lines, wanted, arts, maxget))
  {
    var b := Gather(front, wanted, arts, maxget);
    WellListedFront(lines, front, l, start + 1, maxget);
    assert lines[..|lines| - 1] == front;
    if |b.queue| < arts {
      NewBatch(front, l, wanted, arts, start, b);
    } else {
      FullBatch(front, l, wanted, arts, start, b);
    }
  }

  lemma FullBatch(front: seq<Listed>, l: Listed, wanted: Str -> bool, arts: nat, start: nat, b: Batch)
    requires Collected(front, wanted, arts, start, b) && |b.queue| == arts >= 1
    requires forall i :: 0 <= i < |front| ==> front[i].artno < l.artno
    ensures Collected(front + [l], wanted, arts, start, b)
  {
    assert front != [] && b.maxartno < l.artno;
  }

  lemma NewBatch(front: seq<Listed>, l: Listed, wanted: Str -> bool, arts: nat, start: nat, b: Batch)
    requires Collected(front, wanted, arts, start, b) && |b.queue| < arts
    requires l.artno > start && l.mid.Some? && forall i :: 0 <= i < |front| ==> front[i].artno < l.artno
    requires forall i :: 0 <= i < |front| ==> front[i].artno <= front[|front| - 1].artno
    ensures Collected(front + [l], wanted, arts, start, Looked(b, l, wanted))
  {
    var b' := Looked(b, l, wanted);
    forall i | 0 <= i < |front + [l]| && (front + [l])[i].mid.Some? && wanted((front + [l])[i].mid.value)
      ensures Item((front + [l])[i].artno, (front + [l])[i].mid.value) in b'.queue
    {
      if i < |front| {
        assert Item(front[i].artno, front[i].mid.value) in b.queue;
      }
    }
  }

  lemma {:induction false} QueueLength(lines: seq<Listed>, wanted: Str -> bool, arts: nat, maxget: nat)
    ensures |Gather(lines, wanted, arts, maxget).queue| <= arts
    ensures |lines| <= arts && (forall l :: l in lines ==> l.mid.Some? && wanted(l.mid.value)) ==>
              |Gather(lines, wanted, arts, maxget).queue| == |lines|
  {
    if lines != [] {
      var front, l := lines[..|lines| - 1], lines[|lines| - 1];
      QueueLength(front, wanted, arts, maxget);
      assert l in lines && forall m :: m in front ==> m in lines;
    }
  }

  /** The array for the queue is long enough, whatever the servers do, if and only if the limit is no larger. */
  lemma ArrayIsLongEnough(arts: nat)
    ensures (forall lines: seq<Listed>, wanted: Str -> bool, maxget: nat ::
               |Gather(lines, wanted, arts, maxget).queue| <= MAX_ARTS)
       <==> arts <= MAX_ARTS
  {
    forall lines: seq<Listed>, wanted: Str -> bool, maxget: nat
      ensures |Gather(lines, wanted, arts, maxget).queue| <= arts
    {
      QueueLength(lines, wanted, arts, maxget);
    }
    var lines := seq(arts, _ => Listed(1, Some([])));
    QueueLength(lines, _ => true, arts, 1);
  }

  /** The offers before the first failure, up to the n-th, move the mark. */
  lemma {:induction false} OffersMoveMark(queue: seq<Item>, k: nat, post: bool, offers: nat -> Transfer, mark: nat)
      returns (n: nat)
    requires k <= |queue|
    ensures k <= n <= |queue| && forall j :: k <= j < n ==> IhaveResult(post, offers(j)) != -1
    ensures Offered(queue, k, post, offers, mark) == Outcome(if n == k then mark else queue[n - 1].artno, n < |queue|)
    ensures n < |queue| ==> IhaveResult(post, offers(n)) == -1
    decreases |queue| - k
  {
    if k == |queue| || IhaveResult(post, offers(k)) == -1 {
      n := k;
    } else {
      n := OffersMoveMark(queue, k + 1, post, offers, queue[k].artno);
    }
  }

  /** Where the mark ends: after the first n offers, of which each came to an end for good. */
  lemma PullEnds(mark: nat, lim: Limits, r: Round, start: nat, maxget: nat, b: Batch) returns (n: nat)
    requires Asks(mark, lim, r, start, maxget, b)
    ensures n <= |b.queue| && forall j :: 0 <= j < n ==> Done(lim.post, r.offers(j))
    ensures n < |b.queue| ==> !Done(lim.post, r.offers(n))
    ensures Pull(mark, lim, r) == if n == |b.queue| then b.maxartno else if n == 0 then start else b.queue[n - 1].artno
  {
    n := OffersMoveMark(b.queue, 0, lim.post, r.offers, start);
    forall j | 0 <= j <= n
      ensures IhaveResult(lim.post, r.offers(j)) == -1 <==> !Done(lim.post, r.offers(j))
    {
      IhaveCodes(lim.post, r.offers(j));
    }
  }

  /** The article was offered, and it and all before it were taken or are not to be offered again. */
  ghost predicate SettledIn(queue: seq<Item>, post: bool, offers: nat -> Transfer, item: Item) {
    exists k :: 0 <= k < |queue| && queue[k] == item && forall j :: 0 <= j <= k ==> Done(post, offers(j))
  }

  ghost predicate Settled(mark: nat, lim: Limits, r: Round, item: Item) {
    var start := StartOf(mark, r.low);
    SettledIn(BatchOf(start, MaxGet(start, r.high, lim.stats), lim, r).queue, lim.post, r.offers, item)
  }

  /** Every wanted article among the lines that has a number up to m was settled. */
  ghost predicate AllSettled(lines: seq<Listed>, mark: nat, lim: Limits, r: Round, m: nat) {
    forall i :: 0 <= i < |lines| && lines[i].mid.Some? && r.wanted(lines[i].mid.value) && lines[i].artno <= m ==>
      Settled(mark, lim, r, Item(lines[i].artno, lines[i].mid.value))
  }

  /** Every wanted article that the round listed up to its new mark was settled. */
  ghost predicate NothingLost(mark: nat, lim: Limits, r: Round) {
    var start := StartOf(mark, r.low);
    var reply := Answer(start, MaxGet(start, r.high, lim.stats), r);
    mark < r.high && reply.code == HEAD_FOLLOWS ==> AllSettled(reply.Lines(), mark, lim, r, Pull(mark, lim, r))
  }

  /** The mark never goes back and never passes the server's high mark, and no wanted article that is listed is passed
      before it is settled, whatever fails. */
  lemma PullIsSafe(mark: nat, lim: Limits, r: Round)
    requires ProperServer(mark, lim, r) && lim.arts >= 1
    ensures mark <= Pull(mark, lim, r) && (mark <= r.high ==> Pull(mark, lim, r) <= r.high)
    ensures NothingLost(mark, lim, r)
  {
    if mark < r.high {
      var start := StartOf(mark, r.low);
      var maxget := MaxGet(start, r.high, lim.stats);
      var b := BatchOf(start, maxget, lim, r);
      PullStart(mark, lim, r, start, maxget, b);
      if Answer(start, maxget, r).code == HEAD_FOLLOWS {
        AcceptedIsSafe(mark, lim, r, start, maxget, b, Answer(start, maxget, r).Lines());
      }
    }
  }

  /** A round ends between the number at which it starts and the end of the range. */
  lemma PullStart(mark: nat, lim: Limits, r: Round, start: nat, maxget: nat, b: Batch)
    requires Asks(mark, lim, r, start, maxget, b) && r.low <= r.high && ProperAnswer(start, maxget, r)
    ensures start <= Pull(mark, lim, r) <= maxget <= r.high
  {
    var n := PullEnds(mark, lim, r, start, maxget, b);
    BatchInRange(lim, r, start, maxget, b);
  }

  lemma BatchInRange(lim: Limits, r: Round, start: nat, maxget: nat, b: Batch)
    requires b == BatchOf(start, maxget, lim, r) && start <= maxget && ProperAnswer(start, maxget, r)
    ensures start <= b.maxartno <= maxget && forall k :: 0 <= k < |b.queue| ==> start < b.queue[k].artno <= maxget
  {
    if lim.arts == 0 {
      NothingGathered(Answer(start, maxget, r).Lines(), r.wanted, maxget);
    } else if Answer(start, maxget, r).code == HEAD_FOLLOWS {
      GatherCollects(Answer(start, maxget, r).Lines(), r.wanted, lim.arts, start, maxget);
    }
  }

  lemma {:induction false} NothingGathered(lines: seq<Listed>, wanted: Str -> bool, maxget: nat)
    ensures Gather(lines, wanted, 0, maxget) == Batch([], maxget)
  {
    if lines != [] {
      NothingGathered(lines[..|lines| - 1], wanted, maxget);
    }
  }

  lemma AcceptedIsSafe(mark: nat, lim: Limits, r: Round, start: nat, maxget: nat, b: Batch, lines: seq<Listed>)
    requires Asks(mark, lim, r, start, maxget, b) && lim.arts >= 1 && WellListed(lines, start + 1, maxget)
    requires Answer(start, maxget, r).code == HEAD_FOLLOWS && lines == Answer(start, maxget, r).Lines()
    ensures AllSettled(lines, mark, lim, r, Pull(mark, lim, r))
  {
    var n := PullEnds(mark, lim, r, start, maxget, b);
    var m := Pull(mark, lim, r);
    GatherCollects(lines, r.wanted, lim.arts, start, maxget);
    PassedOnes(lines, r.wanted, lim, start, b, n, m);
    forall i | 0 <= i < |lines| && lines[i].mid.Some? && r.wanted(lines[i].mid.value) && lines[i].artno <= m
      ensures Settled(mark, lim, r, Item(lines[i].artno, lines[i].mid.value))
    {
      var k :| 0 <= k < n && b.queue[k] == Item(lines[i].artno, lines[i].mid.value);
    }
  }

  /** Whatever is wanted up to the new mark m is among the first n of the queue. */
  lemma PassedOnes(lines: seq<Listed>, wanted: Str -> bool, lim: Limits, start: nat, b: Batch, n: nat, m: nat)
    requires Collected(lines, wanted, lim.arts, start, b) && n <= |b.queue|
    requires forall i :: 0 <= i < |lines| ==> start < lines[i].artno
    requires m == if n == |b.queue| then b.maxartno else if n == 0 then start else b.queue[n - 1].artno
    ensures lines != [] ==> start <= m <= lines[|lines| - 1].artno
    ensures forall i :: 0 <= i < |lines| && lines[i].mid.Some? && wanted(lines[i].mid.value) && lines[i].artno <= m ==>
              exists k :: 0 <= k < n && b.queue[k] == Item(lines[i].artno, lines[i].mid.value)
  {
    assert n < |b.queue| ==> forall k :: n <= k < |b.queue| ==> b.queue[k].artno > m;
    forall i | 0 <= i < |lines| && lines[i].mid.Some? && wanted(lines[i].mid.value) && lines[i].artno <= m
      ensures exists k :: 0 <= k < n && b.queue[k] == Item(lines[i].artno, lines[i].mid.value)
    {
      var item := Item(lines[i].artno, lines[i].mid.value);
      assert lines[i].artno <= b.maxartno;
      assert item in b.queue;
      var k :| 0 <= k < |b.queue| && b.queue[k] == item;
      assert k < n;
    }
  }

  // ----- when the mark goes back

  /** For any answer to XHDR: no outcome of the offers takes the mark back if and only if neither the last line that was
      looked at nor any article in the queue but its last has a number below the mark. */
  lemma GoesBackExactly(mark: nat, lim: Limits, r: Round, start: nat, maxget: nat, b: Batch)
    requires Asks(mark, lim, r, start, maxget, b)
    ensures (forall offers: nat -> Transfer :: mark <= Pull(mark, lim, r.(offers := offers)))
       <==> mark <= b.maxartno && forall k :: 0 <= k < |b.queue| - 1 ==> mark <= b.queue[k].artno
  {
    if mark <= b.maxartno && forall k :: 0 <= k < |b.queue| - 1 ==> mark <= b.queue[k].artno {
      forall offers: nat -> Transfer
        ensures mark <= Pull(mark, lim, r.(offers := offers))
      {
        var n := PullEnds(mark, lim, r.(offers := offers), start, maxget, b);
      }
    } else if mark > b.maxartno {
      GoesBackAfter(mark, lim, r, start, maxget, b, |b.queue|);
    } else {
      var k :| 0 <= k < |b.queue| - 1 && mark > b.queue[k].artno;
      GoesBackAfter(mark, lim, r, start, maxget, b, k + 1);
    }
  }

  /** The first n offers succeed, and the next one fails. */
  function FirstOnes(post: bool, n: nat): nat -> Transfer {
    (k: nat) => if k < n then Accepted(post) else Transfer(None, None, false, None)
  }

  function Accepted(post: bool): Transfer {
    Transfer(Some(if post then START_POST else SENDIT), Some(ARTICLE_FOLLOWS), true,
             Some(if post then POSTEDOK else 235))
  }

  lemma GoesBackAfter(mark: nat, lim: Limits, r: Round, start: nat, maxget: nat, b: Batch, n: nat)
    requires Asks(mark, lim, r, start, maxget, b) && n <= |b.queue|
    requires mark > if n == |b.queue| then b.maxartno else if n == 0 then start else b.queue[n - 1].artno
    ensures mark > Pull(mark, lim, r.(offers := FirstOnes(lim.post, n)))
  {
    var r' := r.(offers := FirstOnes(lim.post, n));
    var n' := PullEnds(mark, lim, r', start, maxget, b);
    FirstOnesDone(lim.post, n, n', r'.offers);
    if n < n' {
      FirstOnesDone(lim.post, n, n, r'.offers);
    }
  }

  lemma FirstOnesDone(post: bool, n: nat, k: nat, offers: nat -> Transfer)
    requires offers == FirstOnes(post, n)
    ensures Done(post, offers(k)) <==> k < n
  {
    assert offers(k) == if k < n then Accepted(post) else Transfer(None, None, false, None);
    assert Taken(post, Accepted(post));
  }

  // ----- progress

  ghost predicate FailureFree(lim: Limits, r: Round) {
    forall k: nat :: IhaveResult(lim.post, r.offers(k)) != -1
  }

  /** Without failures every round gets on. */
  lemma PullGetsOn(mark: nat, lim: Limits, r: Round)
    requires ProperServer(mark, lim, r) && FailureFree(lim, r) && lim.arts >= 1 && lim.stats >= 1
    requires mark < r.high
    ensures mark < Pull(mark, lim, r) <= r.high
  {
    var start := StartOf(mark, r.low);
    var maxget := MaxGet(start, r.high, lim.stats);
    var b := BatchOf(start, maxget, lim, r);
    var n := OffersMoveMark(b.queue, 0, lim.post, r.offers, start);
    assert Pull(mark, lim, r) == b.maxartno;
    BatchGetsOn(mark, lim, r, start, maxget, b);
  }

  lemma BatchGetsOn(mark: nat, lim: Limits, r: Round, start: nat, maxget: nat, b: Batch)
    requires Asks(mark, lim, r, start, maxget, b) && r.low <= r.high && ProperAnswer(start, maxget, r)
    requires lim.arts >= 1 && lim.stats >= 1
    ensures mark < b.maxartno <= r.high
  {
    if Answer(start, maxget, r).code == HEAD_FOLLOWS {
      LastLooked(Answer(start, maxget, r).Lines(), r.wanted, lim.arts, start, maxget);
    }
  }

  lemma LastLooked(lines: seq<Listed>, wanted: Str -> bool, arts: nat, start: nat, maxget: nat)
    requires WellListed(lines, start + 1, maxget) && arts >= 1 && start <= maxget
    ensures Gather(lines, wanted, arts, maxget).maxartno <= maxget
    ensures Gather(lines, wanted, arts, maxget).maxartno > start
            || (lines == [] && Gather(lines, wanted, arts, maxget).maxartno == maxget)
  {
    GatherCollects(lines, wanted, arts, start, maxget);
  }

  // ----- a group's turn, and what the server holds

  /** What a server answers for a group: to GROUP a code and its two marks, in either order, and then the round. */
  datatype Turn = Turn(code: int, r: Round)

  function Sorted(r: Round): Round {
    if r.low > r.high then r.(low := r.high, high := r.low) else r
  }

  /** The mark of a group after its turn. */
  function NextMark(mark: nat, lim: Limits, t: Turn): nat {
    if t.code == GROUPOK then Pull(mark, lim, Sorted(t.r)) else mark
  }

  /** Whatever a turn does, it asks for the headers of exactly the numbers behind the start, up to the highest or as
      many as the limit allows, and without an answer it passes all of them. */
  lemma TurnAsksFor(mark: nat, lim: Limits, t: Turn, other: (nat, nat) -> Reply, low: nat, high: nat, start: nat,
                    to: nat)
    requires low <= high && (low, high) in {(t.r.low, t.r.high), (t.r.high, t.r.low)}
    requires start == (if mark < low then low else mark)
    requires to == high <= start + lim.stats || to == start + lim.stats <= high
    ensures t.code != 211 || mark >= high ==> NextMark(mark, lim, t) == mark
    ensures t.code == 211 && mark < high && t.r.xhdr(start + 1, to).code != 221 ==> NextMark(mark, lim, t) == to
    ensures t.code == 211 && mark < high && t.r.xhdr(start + 1, to).text == [] ==> NextMark(mark, lim, t) == to
    ensures t.r.xhdr(start + 1, to) == other(start + 1, to) ==>
              NextMark(mark, lim, t) == NextMark(mark, lim, t.(r := t.r.(xhdr := other)))
  {
    var u := t.(r := t.r.(xhdr := other));
    var s, s' := Sorted(t.r), Sorted(u.r);
    assert s.low == s'.low == low && s.high == s'.high == high;
    if mark < high {
      assert MaxGet(start, high, lim.stats) == to;
      if t.r.xhdr(start + 1, to) == other(start + 1, to) {
        assert Answer(start, to, s) == Answer(start, to, s');
        SameBatch(start, to, lim, s, s');
      }
    }
  }

  lemma SameBatch(start: nat, to: nat, lim: Limits, r: Round, r': Round)
    requires Answer(start, to, r) == Answer(start, to, r') && r.wanted == r'.wanted
    ensures BatchOf(start, to, lim, r) == BatchOf(start, to, lim, r')
  {}

  /** The articles of a group that a server has, and the last number that it has given to an article so far. */
  datatype Server = Server(held: map<nat, Str>, top: nat)

  /** The marks are those of the articles; an empty group may be reported with a high mark one below the low one. */
  ghost predicate HonestMarks(sv: Server, r: Round) {
    && r.high <= sv.top
    && if r.low <= r.high then forall a :: a in sv.held ==> r.low <= a <= r.high
       else sv.held == map[] && r.low == r.high + 1
  }

  /** A line that says what the server has under its number. */
  ghost predicate Whole(sv: Server, l: Listed) {
    l.artno in sv.held && l.mid == Some(sv.held[l.artno])
  }

  /** The articles of a range, from its beginning up to one of them. */
  ghost predicate ListsPart(lines: seq<Listed>, sv: Server, from: nat, to: nat) {
    && WellListed(lines, from, to)
    && (forall l :: l in lines ==> Whole(sv, l))
    && (forall a :: a in sv.held && from <= a && lines != [] && a <= lines[|lines| - 1].artno ==>
          Listed(a, Some(sv.held[a])) in lines)
  }

  /** What is read of the line of an article when the connection closes in the middle of it: there is no number without
      the blank behind it, and the message-id is cut short. */
  ghost predicate Torn(sv: Server, a: nat, l: Listed)
    requires a in sv.held
  {
    l == Listed(0, None) || (l.artno == a && l.mid.Some? && l.mid.value < sv.held[a])
  }

  /** The line of the article that is next behind some others is torn. */
  ghost predicate NextTorn(lines: seq<Listed>, sv: Server, from: nat, to: nat, a: nat, l: Listed) {
    && a in sv.held && from <= a <= to && Torn(sv, a, l)
    && (forall m :: m in lines ==> m.artno < a)
    && (forall c :: c in sv.held && from <= c < a ==> Listed(c, Some(sv.held[c])) in lines)
  }

  ghost predicate ListsTorn(lines: seq<Listed>, sv: Server, from: nat, to: nat, l: Listed) {
    ListsPart(lines, sv, from, to) && exists a :: NextTorn(lines, sv, from, to, a, l)
  }

  /** The lines are the articles of the range, or what is read of them when the connection closes somewhere. */
  ghost predicate Lists(lines: seq<Listed>, sv: Server, from: nat, to: nat) {
    || ListsPart(lines, sv, from, to)
    || (lines != [] && ListsTorn(lines[..|lines| - 1], sv, from, to, lines[|lines| - 1]))
  }

  /** Wherever the line of an article is cut, it is read as a whole one or as a torn one. */
  lemma CutLine(sv: Server, a: nat, line: Str, k: nat)
    requires a in sv.held && a < WORDS && line == Dec(a) + ([' '] + sv.held[a]) && k <= |line|
    ensures var l := ParseXhdr(line[..k]); if k == |line| then Whole(sv, l) && l.artno == a else Torn(sv, a, l)
  {
    var d := Dec(a);
    if k <= |d| {
      assert line[..k] == d[..k];
      NoBlank(line[..k]);
    } else {
      var mid := sv.held[a][..k - |d| - 1];
      assert line[..k] == d + ([' '] + mid);
      WithBlank(line[..k], a, mid);
      assert sv.held[a][..|sv.held[a]|] == sv.held[a];
    }
  }

  ghost predicate HonestAnswer(sv: Server, start: nat, maxget: nat, r: Round) {
    Answer(start, maxget, r).code == HEAD_FOLLOWS ==> Lists(Answer(start, maxget, r).Lines(), sv, start + 1, maxget)
  }

  /** The server answers according to what it has, or with an error, and the connection may close at any point of a
      list. */
  ghost predicate Honest(sv: Server, mark: nat, lim: Limits, t: Turn) {
    t.code == GROUPOK ==>
      && HonestMarks(sv, t.r)
      && var s := Sorted(t.r);
         var start := StartOf(mark, s.low);
         mark < s.high ==> HonestAnswer(sv, start, MaxGet(start, s.high, lim.stats), s)
  }

  /** Up to a torn line without a number, the lines are in order. */
  lemma ProperPart(lines: seq<Listed>, sv: Server, from: nat, to: nat) returns (p: seq<Listed>)
    requires Lists(lines, sv, from, to) && from >= 1
    ensures WellListed(p, from, to) && (p == lines || lines == p + [Listed(0, None)])
    ensures forall a :: a in sv.held && from <= a && p != [] && a <= p[|p| - 1].artno && !IsTorn(sv, lines, a) ==>
              Listed(a, Some(sv.held[a])) in p
    ensures forall a :: a in sv.held && from <= a && IsTorn(sv, lines, a) ==> Listed(a, Some(sv.held[a])) !in p
  {
    p := lines;
    if !ListsPart(lines, sv, from, to) {
      var front, last := lines[..|lines| - 1], lines[|lines| - 1];
      assert lines == front + [last];
      if last == Listed(0, None) {
        p := front;
      }
    }
  }

  /** The last line is for this article, and does not have its message-id. */
  ghost predicate IsTorn(sv: Server, lines: seq<Listed>, a: nat)
    requires a in sv.held
  {
    lines != [] && lines[|lines| - 1].artno == a && lines[|lines| - 1].mid != Some(sv.held[a])
  }

  /** A line without a number takes the last number back to 0, if it is looked at, and changes nothing else. */
  lemma GatherTorn(p: seq<Listed>, wanted: Str -> bool, arts: nat, maxget: nat)
    ensures var b := Gather(p, wanted, arts, maxget);
            Gather(p + [Listed(0, None)], wanted, arts, maxget) == if |b.queue| < arts then Batch(b.queue, 0) else b
  {
    assert (p + [Listed(0, None)])[..|p|] == p;
  }

  lemma {:induction false} QueueIsListed(lines: seq<Listed>, wanted: Str -> bool, arts: nat, maxget: nat)
    ensures forall item :: item in Gather(lines, wanted, arts, maxget).queue ==>
              Listed(item.artno, Some(item.mid)) in lines
  {
    if lines != [] {
      QueueIsListed(lines[..|lines| - 1], wanted, arts, maxget);
      assert lines == lines[..|lines| - 1] + [lines[|lines| - 1]];
    }
  }

  /** What a round gathers from an accepted XHDR, in terms of the lines that are in order. */
  lemma HonestBatch(sv: Server, lim: Limits, r: Round, start: nat, maxget: nat, b: Batch)
      returns (p: seq<Listed>, c: Batch)
    requires b == BatchOf(start, maxget, lim, r) && start <= maxget && lim.arts >= 1
    requires Answer(start, maxget, r).code == HEAD_FOLLOWS && HonestAnswer(sv, start, maxget, r)
    ensures var lines := Answer(start, maxget, r).Lines();
            && WellListed(p, start + 1, maxget) && (p == lines || lines == p + [Listed(0, None)])
            && (forall a :: a in sv.held && start < a && p != [] && a <= p[|p| - 1].artno && !IsTorn(sv, lines, a) ==>
                  Listed(a, Some(sv.held[a])) in p)
            && (forall a :: a in sv.held && start < a && IsTorn(sv, lines, a) ==> Listed(a, Some(sv.held[a])) !in p)
    ensures c == Gather(p, r.wanted, lim.arts, maxget) && Collected(p, r.wanted, lim.arts, start, c)
    ensures b.queue == c.queue && (b.maxartno == c.maxartno || b.maxartno == 0) && c.maxartno <= maxget
    ensures p == [] && p != Answer(start, maxget, r).Lines() ==> b == Batch([], 0)
  {
    var lines := Answer(start, maxget, r).Lines();
    p := ProperPart(lines, sv, start + 1, maxget);
    c := Gather(p, r.wanted, lim.arts, maxget);
    GatherCollects(p, r.wanted, lim.arts, start, maxget);
    GatherTorn(p, r.wanted, lim.arts, maxget);
  }

  /** The server lists what was asked for, its answer does not end before the first line or within that of the article,
      and the article is not the lowest one of a group that was cut off above the mark. */
  ghost predicate Reached(sv: Server, mark: nat, lim: Limits, r: Round, a: nat)
    requires a in sv.held
  {
    var start := StartOf(mark, r.low);
    var reply := Answer(start, MaxGet(start, r.high, lim.stats), r);
    && reply.code == HEAD_FOLLOWS && reply.Lines() != [] && !IsTorn(sv, reply.Lines(), a)
    && !(mark < r.low && a == r.low)
  }

  ghost predicate SettledInTurn(mark: nat, lim: Limits, t: Turn, item: Item) {
    t.code == GROUPOK && mark < Sorted(t.r).high && Settled(mark, lim, Sorted(t.r), item)
  }

  /** A wanted article that the server has and whose number is passed in a group's turn was settled if and only if
      articles are pulled at all, XHDR was not refused, its answer did not end before the first line or within that of
      the article, and the article is not the lowest one above a gap. */
  lemma SettledExactly(sv: Server, mark: nat, lim: Limits, t: Turn, a: nat)
    requires Honest(sv, mark, lim, t) && mark < a <= NextMark(mark, lim, t)
    requires a in sv.held && t.r.wanted(sv.held[a])
    ensures SettledInTurn(mark, lim, t, Item(a, sv.held[a]))
       <==> lim.arts >= 1 && Reached(sv, mark, lim, Sorted(t.r), a)
  {
    var s := Sorted(t.r);
    var start := StartOf(mark, s.low);
    var maxget := MaxGet(start, s.high, lim.stats);
    var b := BatchOf(start, maxget, lim, s);
    if lim.arts == 0 {
      NothingGathered(Answer(start, maxget, s).Lines(), s.wanted, maxget);
    } else if Answer(start, maxget, s).code == HEAD_FOLLOWS {
      var p, c := HonestBatch(sv, lim, s, start, maxget, b);
      if Reached(sv, mark, lim, s, a) {
        ListedIsSettled(sv, mark, lim, s, start, maxget, b, p, c, a);
      } else {
        UnlistedIsNot(p, s.wanted, lim.arts, start, maxget, c, Item(a, sv.held[a]));
      }
    }
  }

  lemma ListedIsSettled(sv: Server, mark: nat, lim: Limits, r: Round, start: nat, maxget: nat, b: Batch,
                        p: seq<Listed>, c: Batch, a: nat)
    requires Asks(mark, lim, r, start, maxget, b) && WellListed(p, start + 1, maxget)
    requires Collected(p, r.wanted, lim.arts, start, c)
    requires b.queue == c.queue && (b.maxartno == c.maxartno || b.maxartno == 0)
    requires p == [] ==> b == Batch([], 0)
    requires a in sv.held && r.wanted(sv.held[a]) && mark < a <= Pull(mark, lim, r)
    requires p != [] && a <= p[|p| - 1].artno ==> Listed(a, Some(sv.held[a])) in p
    ensures Settled(mark, lim, r, Item(a, sv.held[a]))
  {
    var n := PullEnds(mark, lim, r, start, maxget, b);
    var m := Pull(mark, lim, r);
    PassedOnes(p, r.wanted, lim, start, c, n, m);
    var i :| 0 <= i < |p| && p[i] == Listed(a, Some(sv.held[a]));
    var k :| 0 <= k < n && c.queue[k] == Item(p[i].artno, p[i].mid.value);
  }

  lemma UnlistedIsNot(p: seq<Listed>, wanted: Str -> bool, arts: nat, start: nat, maxget: nat, c: Batch, item: Item)
    requires c == Gather(p, wanted, arts, maxget) && Collected(p, wanted, arts, start, c)
    requires Listed(item.artno, Some(item.mid)) !in p || item.artno <= start
    ensures item !in c.queue
  {
    QueueIsListed(p, wanted, arts, maxget);
  }

  /** With a proper server an article is settled only in the turn that passes it, so that it never gets a second
      chance. */
  lemma SettledWhenPassed(mark: nat, lim: Limits, t: Turn, item: Item)
    requires ProperServer(mark, lim, Sorted(t.r)) && SettledInTurn(mark, lim, t, item)
    ensures mark < item.artno <= NextMark(mark, lim, t)
  {
    var s := Sorted(t.r);
    var start := StartOf(mark, s.low);
    var maxget := MaxGet(start, s.high, lim.stats);
    var b := BatchOf(start, maxget, lim, s);
    var n := PullEnds(mark, lim, s, start, maxget, b);
    QueueAscends(lim, s, start, maxget, b);
    var k :| 0 <= k < |b.queue| && b.queue[k] == item && forall j :: 0 <= j <= k ==> Done(lim.post, s.offers(j));
    PassedInQueue(b, start, n, k, NextMark(mark, lim, t));
  }

  lemma PassedInQueue(b: Batch, start: nat, n: nat, k: nat, m: nat)
    requires k < n <= |b.queue| && m == if n == |b.queue| then b.maxartno else b.queue[n - 1].artno
    requires forall k :: 0 <= k < |b.queue| ==> start < b.queue[k].artno <= b.maxartno
    requires forall j, k :: 0 <= j < k < |b.queue| ==> b.queue[j].artno < b.queue[k].artno
    ensures start < b.queue[k].artno <= m
  {}

  lemma QueueAscends(lim: Limits, r: Round, start: nat, maxget: nat, b: Batch)
    requires b == BatchOf(start, maxget, lim, r) && start <= maxget && ProperAnswer(start, maxget, r)
    ensures forall k :: 0 <= k < |b.queue| ==> start < b.queue[k].artno <= b.maxartno
    ensures forall j, k :: 0 <= j < k < |b.queue| ==> b.queue[j].artno < b.queue[k].artno
  {
    if lim.arts == 0 {
      NothingGathered(Answer(start, maxget, r).Lines(), r.wanted, maxget);
    } else if Answer(start, maxget, r).code == HEAD_FOLLOWS {
      GatherCollects(Answer(start, maxget, r).Lines(), r.wanted, lim.arts, start, maxget);
    }
  }

  // ----- many turns

  /** The marks before, between and after some turns. */
  ghost predicate Moves(marks: seq<nat>, lim: Limits, turns: seq<Turn>) {
    && |marks| == |turns| + 1
    && forall i :: 0 <= i < |turns| ==> marks[i + 1] == NextMark(marks[i], lim, turns[i])
  }

  ghost predicate AllProper(marks: seq<nat>, lim: Limits, turns: seq<Turn>) {
    && |marks| == |turns| + 1
    && forall i :: 0 <= i < |turns| && turns[i].code == GROUPOK ==> ProperServer(marks[i], lim, Sorted(turns[i].r))
  }

  /** A run: the marks of turns with proper servers. */
  ghost predicate IsRun(marks: seq<nat>, lim: Limits, turns: seq<Turn>) {
    Moves(marks, lim, turns) && AllProper(marks, lim, turns)
  }

  /** The server between two turns: old articles may go, and new ones get new numbers. */
  ghost predicate Grows(sv: Server, sv': Server) {
    && sv.top <= sv'.top
    && forall a :: a in sv'.held && a <= sv.top ==> a in sv.held && sv.held[a] == sv'.held[a]
  }

  /** The server tells the truth in every turn. */
  ghost predicate TellTheTruth(servers: seq<Server>, marks: seq<nat>, lim: Limits, turns: seq<Turn>) {
    && |marks| == |turns| + 1 && |servers| == |turns|
    && (forall i :: 0 <= i < |turns| ==> Honest(servers[i], marks[i], lim, turns[i]))
    && (forall i :: 0 < i < |turns| ==> Grows(servers[i - 1], servers[i]))
  }

  /** Over any run, with any failures, the mark never goes back. */
  lemma {:induction false} RunNeverGoesBack(marks: seq<nat>, lim: Limits, turns: seq<Turn>, m: nat, n: nat)
    requires IsRun(marks, lim, turns) && m <= n < |marks|
    ensures marks[m] <= marks[n]
  {
    if m < n {
      RunNeverGoesBack(marks, lim, turns, m, n - 1);
      TurnNeverGoesBack(marks[n - 1], lim, turns[n - 1]);
    }
  }

  lemma TurnNeverGoesBack(mark: nat, lim: Limits, t: Turn)
    requires t.code == GROUPOK ==> ProperServer(mark, lim, Sorted(t.r))
    ensures mark <= NextMark(mark, lim, t)
    ensures NextMark(mark, lim, t) <= mark || NextMark(mark, lim, t) <= Sorted(t.r).high
  {
    var s := Sorted(t.r);
    if t.code == GROUPOK && mark < s.high {
      var start := StartOf(mark, s.low);
      var maxget := MaxGet(start, s.high, lim.stats);
      PullStart(mark, lim, s, start, maxget, BatchOf(start, maxget, lim, s));
    }
  }

  /** The turn in which a number is passed. */
  lemma {:induction false} PassedIn(marks: seq<nat>, n: nat, a: nat) returns (j: nat)
    requires n < |marks| && marks[0] < a <= marks[n]
    ensures j < n && marks[j] < a <= marks[j + 1]
  {
    if a <= marks[n - 1] {
      j := PassedIn(marks, n - 1, a);
    } else {
      j := n - 1;
    }
  }

  /** What a server has under an old number, it has had before. */
  lemma {:induction false} HeldBefore(servers: seq<Server>, i: nat, j: nat, a: nat)
    requires i <= j < |servers| && forall k :: 0 < k < |servers| ==> Grows(servers[k - 1], servers[k])
    requires a in servers[j].held && a <= servers[i].top
    ensures servers[i].top <= servers[j].top && a in servers[i].held && servers[i].held[a] == servers[j].held[a]
  {
    if i < j {
      assert Grows(servers[j - 1], servers[j]);
      TopsAscend(servers, i, j - 1);
      HeldBefore(servers, i, j - 1, a);
    }
  }

  lemma {:induction false} TopsAscend(servers: seq<Server>, i: nat, j: nat)
    requires i <= j < |servers| && forall k :: 0 < k < |servers| ==> Grows(servers[k - 1], servers[k])
    ensures servers[i].top <= servers[j].top
  {
    if i < j {
      assert Grows(servers[j - 1], servers[j]);
      TopsAscend(servers, i, j - 1);
    }
  }

  /** The group was reported empty, with marks that the puller takes for those of one article, the next to come. */
  ghost predicate PassedEarly(sv: Server, t: Turn, a: nat) {
    t.code == GROUPOK && t.r.low > t.r.high && a == sv.top + 1
  }

  /** What becomes of an article that a turn passes. */
  ghost predicate Passing(sv: Server, mark: nat, lim: Limits, t: Turn, a: nat, mid: Str) {
    && mark < a <= NextMark(mark, lim, t)
    && if a in sv.held then
         && sv.held[a] == mid
         && (t.r.wanted(mid) ==>
               (SettledInTurn(mark, lim, t, Item(a, mid)) <==> lim.arts >= 1 && Reached(sv, mark, lim, Sorted(t.r), a)))
       else PassedEarly(sv, t, a) && !SettledInTurn(mark, lim, t, Item(a, mid))
  }

  /** Over any turns, with any failures, any refusals, and connections that close at any point: for every article that
      the server ever has, and whose number the mark has passed by then, there is a turn that passed it. In every such
      turn, if it was there and wanted, it was settled exactly under the conditions of `Reached`; if it was not there
      yet, the group was reported empty. Unless a torn line takes the mark back there is one such turn only, and the
      article is settled in no other. */
  lemma RunIsSafe(servers: seq<Server>, marks: seq<nat>, lim: Limits, turns: seq<Turn>, j: nat, a: nat) returns (i: nat)
    requires Moves(marks, lim, turns) && TellTheTruth(servers, marks, lim, turns) && j < |turns|
    requires a in servers[j].held && marks[0] < a <= marks[j + 1]
    ensures i <= j && marks[i] < a <= marks[i + 1]
    ensures forall k :: 0 <= k <= j && marks[k] < a <= marks[k + 1] ==>
              Passing(servers[k], marks[k], lim, turns[k], a, servers[j].held[a])
    ensures AllProper(marks, lim, turns) ==>
              forall k, mid :: 0 <= k < |turns| && k != i ==> !SettledInTurn(marks[k], lim, turns[k], Item(a, mid))
  {
    i := PassedIn(marks, j + 1, a);
    forall k | 0 <= k <= j && marks[k] < a <= marks[k + 1]
      ensures Passing(servers[k], marks[k], lim, turns[k], a, servers[j].held[a])
    {
      if a <= servers[k].top {
        HeldBefore(servers, k, j, a);
      }
      TurnIsSafe(servers[k], marks[k], lim, turns[k], a, servers[j].held[a]);
    }
    if AllProper(marks, lim, turns) {
      forall k, mid | 0 <= k < |turns| && k != i && SettledInTurn(marks[k], lim, turns[k], Item(a, mid))
        ensures false
      {
        SettledOnce(marks, lim, turns, i, k, Item(a, mid));
      }
    }
  }

  lemma TurnIsSafe(sv: Server, mark: nat, lim: Limits, t: Turn, a: nat, mid: Str)
    requires Honest(sv, mark, lim, t) && mark < a <= NextMark(mark, lim, t)
    requires a <= sv.top ==> a in sv.held && sv.held[a] == mid
    ensures Passing(sv, mark, lim, t, a, mid)
  {
    PassedNumber(sv, mark, lim, t, a);
    if a in sv.held && t.r.wanted(sv.held[a]) {
      SettledExactly(sv, mark, lim, t, a);
    }
  }

  lemma SettledOnce(marks: seq<nat>, lim: Limits, turns: seq<Turn>, i: nat, k: nat, item: Item)
    requires IsRun(marks, lim, turns) && i < |turns| && k < |turns|
    requires marks[i] < item.artno <= marks[i + 1] && SettledInTurn(marks[k], lim, turns[k], item)
    ensures k == i
  {
    SettledWhenPassed(marks[k], lim, turns[k], item);
    if k < i {
      RunNeverGoesBack(marks, lim, turns, k + 1, i);
    } else if i < k {
      RunNeverGoesBack(marks, lim, turns, i + 1, k);
    }
  }

  /** A truthful server fails to be a proper one exactly when a line is torn before its blank, which counts as article 0
      and can take the mark back. */
  lemma ProperExactly(sv: Server, mark: nat, lim: Limits, t: Turn, start: nat, maxget: nat)
    requires Honest(sv, mark, lim, t) && t.code == GROUPOK && mark < Sorted(t.r).high
    requires start == StartOf(mark, Sorted(t.r).low) && maxget == MaxGet(start, Sorted(t.r).high, lim.stats)
    ensures ProperServer(mark, lim, Sorted(t.r)) <==> !HasTorn(Answer(start, maxget, Sorted(t.r)))
  {
    AnswerExactly(sv, start, maxget, Sorted(t.r));
  }

  lemma AnswerExactly(sv: Server, start: nat, maxget: nat, r: Round)
    requires HonestAnswer(sv, start, maxget, r)
    ensures ProperAnswer(start, maxget, r) <==> !HasTorn(Answer(start, maxget, r))
  {
    var reply := Answer(start, maxget, r);
    if reply.code == HEAD_FOLLOWS {
      OrderedExactly(reply.Lines(), sv, start + 1, maxget);
    }
  }

  ghost predicate HasTorn(reply: Reply) {
    reply.code == HEAD_FOLLOWS && Listed(0, None) in reply.Lines()
  }

  lemma OrderedExactly(lines: seq<Listed>, sv: Server, from: nat, to: nat)
    requires Lists(lines, sv, from, to) && from >= 1
    ensures WellListed(lines, from, to) <==> Listed(0, None) !in lines
  {
    var p := ProperPart(lines, sv, from, to);
    assert p != lines ==> lines[|p|] == Listed(0, None);
  }

  /** A turn with a truthful server does not pass the server's high mark. */
  lemma HonestTurnStays(sv: Server, mark: nat, lim: Limits, t: Turn)
    requires Honest(sv, mark, lim, t)
    ensures NextMark(mark, lim, t) <= mark || NextMark(mark, lim, t) <= Sorted(t.r).high
  {
    var s := Sorted(t.r);
    if t.code == GROUPOK && mark < s.high {
      var start := StartOf(mark, s.low);
      var maxget := MaxGet(start, s.high, lim.stats);
      var b := BatchOf(start, maxget, lim, s);
      var n := PullEnds(mark, lim, s, start, maxget, b);
      if lim.arts == 0 {
        NothingGathered(Answer(start, maxget, s).Lines(), s.wanted, maxget);
      } else if Answer(start, maxget, s).code == HEAD_FOLLOWS {
        var p, c := HonestBatch(sv, lim, s, start, maxget, b);
      }
    }
  }

  /** A number that is passed was given to an article, unless the group was reported empty. */
  lemma PassedNumber(sv: Server, mark: nat, lim: Limits, t: Turn, a: nat)
    requires Honest(sv, mark, lim, t) && mark < a <= NextMark(mark, lim, t)
    ensures a <= sv.top || PassedEarly(sv, t, a)
    ensures a !in sv.held && PassedEarly(sv, t, a) ==> forall mid :: !SettledInTurn(mark, lim, t, Item(a, mid))
    ensures PassedEarly(sv, t, a) ==> a !in sv.held
  {
    HonestTurnStays(sv, mark, lim, t);
    if sv.held == map[] {
      NothingToSettle(sv, mark, lim, t);
    }
  }

  lemma NoneIsHeld(lines: seq<Listed>, sv: Server, from: nat, to: nat)
    requires Lists(lines, sv, from, to) && sv.held == map[]
    ensures lines == []
  {
    assert lines == [] || !Whole(sv, lines[0]);
  }

  /** In an empty group nothing is listed. */
  lemma NothingToSettle(sv: Server, mark: nat, lim: Limits, t: Turn)
    requires Honest(sv, mark, lim, t) && sv.held == map[] && t.code == GROUPOK && mark < Sorted(t.r).high
    ensures var start := StartOf(mark, Sorted(t.r).low);
            var maxget := MaxGet(start, Sorted(t.r).high, lim.stats);
            BatchOf(start, maxget, lim, Sorted(t.r)) == Batch([], maxget)
    ensures forall item :: !SettledInTurn(mark, lim, t, item)
  {
    var s := Sorted(t.r);
    var start := StartOf(mark, s.low);
    var maxget := MaxGet(start, s.high, lim.stats);
    if Answer(start, maxget, s).code == HEAD_FOLLOWS {
      var lines := Answer(start, maxget, s).Lines();
      NoneIsHeld(lines, sv, start + 1, maxget);
    }
  }

  /** As many failure-free turns as there are numbers left, or fewer, reach the server's high mark. */
  lemma {:induction false} RunReachesHigh(marks: seq<nat>, lim: Limits, turns: seq<Turn>, high: nat, n: nat)
    requires IsRun(marks, lim, turns) && lim.arts >= 1 && lim.stats >= 1 && marks[0] <= high && n <= |turns|
    requires forall t :: t in turns ==> t.code == GROUPOK && Sorted(t.r).high == high && FailureFree(lim, t.r)
    ensures marks[n] <= high
    ensures marks[n] >= marks[0] + n || marks[n] == high
  {
    if n > 0 {
      RunReachesHigh(marks, lim, turns, high, n - 1);
      assert turns[n - 1] in turns && marks[n] == NextMark(marks[n - 1], lim, turns[n - 1]);
      if marks[n - 1] < high {
        PullGetsOn(marks[n - 1], lim, Sorted(turns[n - 1].r));
      }
    }
  }

  // ----- what the conditions are for

  function FixedRound(low: nat, high: nat, text: seq<Str>): Round {
    Round(low, high, (_, _) => Reply(HEAD_FOLLOWS, text), _ => true,
          _ => Transfer(Some(SENDIT), Some(ARTICLE_FOLLOWS), true, Some(235)))
  }

  lemma OneLine(line: Str)
    requires line != "."
    ensures Reply(HEAD_FOLLOWS, [line]).Lines() == [ParseXhdr(line)]
  {
    assert EndOf([line][1..]) == 0;
  }

  lemma GatherOne(l: Listed, wanted: Str -> bool, arts: nat, maxget: nat)
    ensures Gather([l], wanted, arts, maxget)
         == if arts > 0 then Looked(Batch([], maxget), l, wanted) else Batch([], maxget)
  {
    assert [l][..0] == [];
  }

  /** A line without a blank counts as article 0, and takes the mark back there if it comes last. */
  lemma MalformedLinePullsBack(lim: Limits)
    requires lim.arts >= 1
    ensures Pull(5, lim, FixedRound(1, 9, ["x"])) == 0
  {
    var r := FixedRound(1, 9, ["x"]);
    OneLine("x");
    NoBlank("x");
    GatherOne(Listed(0, None), r.wanted, lim.arts, MaxGet(5, 9, lim.stats));
  }

  lemma NoBlank(line: Str)
    requires ' ' !in line
    ensures ParseXhdr(line) == Listed(0, None)
  {
    assert line[..|line|] == line;
    IndexOfUnique(line, ' ', |line|);
  }

  lemma WithBlank(line: Str, n: nat, mid: Str)
    requires n < WORDS && line == Dec(n) + ([' '] + mid)
    ensures ParseXhdr(line) == Listed(n, Some(mid))
  {
    var d := Dec(n);
    assert line[..|d|] == d && line[|d| + 1..] == mid;
    IndexOfUnique(line, ' ', |d|);
    AtolOfDec(n, [], d);
  }

  lemma FirstInRange(lines: seq<Listed>, from: nat, to: nat)
    requires WellListed(lines, from, to) && lines != []
    ensures from <= lines[0].artno <= to
  {}

  /** An empty range has no lines. */
  lemma NothingAsked(mark: nat, lim: Limits, r: Round)
    requires ProperServer(mark, lim, r) && lim.stats == 0
    ensures NothingLost(mark, lim, r)
  {
    var start := StartOf(mark, r.low);
    var reply := Answer(start, MaxGet(start, r.high, lim.stats), r);
    if mark < r.high && reply.code == HEAD_FOLLOWS && reply.Lines() != [] {
      FirstInRange(reply.Lines(), start + 1, start);
    }
  }

  /** The limit of articles is what it takes: whatever the servers do, no wanted article that is listed is lost, if and
      only if at least one is pulled in a round, or the rounds are empty. */
  lemma LimitIsNeeded(lim: Limits)
    ensures (forall mark: nat, r: Round :: ProperServer(mark, lim, r) ==> NothingLost(mark, lim, r))
       <==> lim.arts >= 1 || lim.stats == 0
  {
    if lim.arts == 0 && lim.stats >= 1 {
      NoArticlesMeansLoss(lim);
    }
    forall mark: nat, r: Round | ProperServer(mark, lim, r) && (lim.arts >= 1 || lim.stats == 0)
      ensures NothingLost(mark, lim, r)
    {
      if lim.arts >= 1 {
        PullIsSafe(mark, lim, r);
      } else {
        NothingAsked(mark, lim, r);
      }
    }
  }

  /** With a limit of no articles at all, wanted ones are passed without an offer. */
  lemma NoArticlesMeansLoss(lim: Limits)
    requires lim.arts == 0 && lim.stats >= 1
    ensures var r := FixedRound(1, 6, ["6 <a>"]);
            ProperServer(5, lim, r) && Pull(5, lim, r) == 6 && !NothingLost(5, lim, r)
  {
    var r := FixedRound(1, 6, ["6 <a>"]);
    var l := Listed(6, Some("<a>"));
    OneLine("6 <a>");
    assert Dec(6) == "6" && "6 <a>" == Dec(6) + ([' '] + "<a>");
    WithBlank("6 <a>", 6, "<a>");
    GatherOne(l, r.wanted, lim.arts, 6);
    assert MaxGet(5, 6, lim.stats) == 6 && BatchOf(5, 6, lim, r) == Batch([], 6);
    assert !Settled(5, lim, r, Item(6, "<a>"));
    assert r.xhdr(6, 6).Lines()[0] == l;
  }

  /** A group that was cut off at the bottom continues above the lowest article of the server, which is never
      offered. */
  lemma LowestIsSkipped(sv: Server, mark: nat, lim: Limits, t: Turn, a: nat)
    requires Honest(sv, mark, lim, t) && t.code == GROUPOK && mark < a == t.r.low && a in sv.held
    ensures !SettledInTurn(mark, lim, t, Item(a, sv.held[a]))
    ensures ProperServer(mark, lim, Sorted(t.r)) ==> mark < a <= NextMark(mark, lim, t)
  {
    var s := Sorted(t.r);
    var start := StartOf(mark, s.low);
    var maxget := MaxGet(start, s.high, lim.stats);
    var b := BatchOf(start, maxget, lim, s);
    if mark < s.high && ProperServer(mark, lim, s) {
      PullStart(mark, lim, s, start, maxget, b);
    }
    if lim.arts == 0 {
      NothingGathered(Answer(start, maxget, s).Lines(), s.wanted, maxget);
    } else if mark < s.high && Answer(start, maxget, s).code == HEAD_FOLLOWS {
      var p, c := HonestBatch(sv, lim, s, start, maxget, b);
      UnlistedIsNot(p, s.wanted, lim.arts, start, maxget, c, Item(a, sv.held[a]));
    }
  }

  /** When XHDR is refused, or the connection closes before the first line of its answer, the whole range is passed, and
      nothing in it is ever offered. */
  lemma EmptyAnswerPassesRange(mark: nat, lim: Limits, t: Turn, start: nat, maxget: nat)
    requires t.code == GROUPOK && mark < Sorted(t.r).high && start == StartOf(mark, Sorted(t.r).low)
    requires maxget == MaxGet(start, Sorted(t.r).high, lim.stats)
    requires Answer(start, maxget, Sorted(t.r)).code != HEAD_FOLLOWS || Answer(start, maxget, Sorted(t.r)).Lines() == []
    ensures NextMark(mark, lim, t) == maxget && forall item :: !SettledInTurn(mark, lim, t, item)
  {
    var n := PullEnds(mark, lim, Sorted(t.r), start, maxget, Batch([], maxget));
  }

  /** A turn that asks for article 6 and gets some answer; what is offered is taken. */
  function AnsweredWith(post: bool, reply: Reply): Turn {
    Turn(GROUPOK, Round(1, 6, (_, _) => reply, _ => true, _ => Accepted(post)))
  }

  /** The server has got this article, tells the truth, and the wanted article is passed without being settled. */
  ghost predicate Loses(lim: Limits, t: Turn) {
    var sv := Server(map[6 := "<a>"], 6);
    && Honest(sv, 5, lim, t) && t.r.wanted("<a>") && NextMark(5, lim, t) == 6
    && !SettledInTurn(5, lim, t, Item(6, "<a>"))
  }

  /** Articles that are lost when XHDR is refused, when the connection closes before the first line, and when it closes
      within a line. */
  lemma RefusalLosesArticle(lim: Limits)
    requires lim.stats >= 1
    ensures Loses(lim, AnsweredWith(lim.post, Reply(420, [])))
    ensures Loses(lim, AnsweredWith(lim.post, Reply(HEAD_FOLLOWS, [])))
  {
    EmptyAnswerPassesRange(5, lim, AnsweredWith(lim.post, Reply(420, [])), 5, 6);
    EmptyAnswerPassesRange(5, lim, AnsweredWith(lim.post, Reply(HEAD_FOLLOWS, [])), 5, 6);
  }

  lemma TornLineLosesArticle(lim: Limits)
    requires lim.stats >= 1
    ensures Loses(lim, AnsweredWith(lim.post, Reply(HEAD_FOLLOWS, ["6 <a"])))
  {
    var l := Listed(6, Some("<a"));
    OneLine("6 <a");
    assert Dec(6) == "6" && "6 <a" == Dec(6) + ([' '] + "<a");
    WithBlank("6 <a", 6, "<a");
    OneTornLine(Server(map[6 := "<a>"], 6), lim, AnsweredWith(lim.post, Reply(HEAD_FOLLOWS, ["6 <a"])), l);
  }

  lemma OneTornLine(sv: Server, lim: Limits, t: Turn, l: Listed)
    requires t.code == GROUPOK && t.r.low == 1 && t.r.high == 6 == sv.top && lim.stats >= 1 && sv.held.Keys == {6}
    requires Answer(5, 6, t.r).Lines() == [l] && l.artno == 6 && l.mid.Some? && l.mid.value < sv.held[6]
    requires forall k: nat :: t.r.offers(k) == Accepted(lim.post)
    ensures Honest(sv, 5, lim, t) && NextMark(5, lim, t) == 6 && !SettledInTurn(5, lim, t, Item(6, sv.held[6]))
  {
    var b := BatchOf(5, 6, lim, t.r);
    GatherOne(l, t.r.wanted, lim.arts, 6);
    var n := PullEnds(5, lim, t.r, 5, 6, b);
    AcceptedIsDone(lim.post);
    assert [l][..0] == [] && NextTorn([], sv, 6, 6, 6, l);
  }

  lemma AcceptedIsDone(post: bool)
    ensures Done(post, Accepted(post))
  {
    assert Taken(post, Accepted(post));
  }

  /** A group that is reported empty with its marks one apart takes a mark to the number of the next article, whether or
      not XHDR is accepted; that article is never offered when it comes. */
  lemma EmptyGroupPassesNext(sv: Server, mark: nat, lim: Limits, t: Turn)
    requires Honest(sv, mark, lim, t) && t.code == GROUPOK && t.r.low == t.r.high + 1
    requires mark <= t.r.high && lim.stats >= 1
    ensures NextMark(mark, lim, t) == t.r.high + 1 && t.r.high + 1 !in sv.held
  {
    var s := Sorted(t.r);
    NothingToSettle(sv, mark, lim, t);
    var n := PullEnds(mark, lim, s, s.low, s.high, Batch([], s.high));
  }
}
