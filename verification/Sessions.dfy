/** One session of the news puller after another: each reads its marks from the text in which the one before left
    them. */
module Sessions {
  import opened Text
  import opened Decimal
  import opened ActiveFile
  import opened PullCursor
  import opened NewsPull

  /** The groups before, between and after some sessions; every number goes through its field of the text. */
  ghost predicate Follows(states: seq<seq<Rc>>, lim: Limits, sessions: seq<seq<Turn>>) {
    && |states| == |sessions| + 1
    && forall k :: 0 <= k < |sessions| ==> SessionStep(states[k], states[k + 1], lim, sessions[k])
  }

  ghost predicate SessionStep(rcs: seq<Rc>, rcs': seq<Rc>, lim: Limits, turns: seq<Turn>) {
    && |rcs| == |rcs'| == |turns|
    && forall i :: 0 <= i < |rcs| ==> rcs[i].high >= 0 && rcs'[i] == Stored(Pulled(rcs[i], lim, false, turns[i]))
  }

  lemma StoredTwice(r: Rc)
    ensures Stored(Stored(r)) == Stored(r) && Stored(r).at == r.at && Stored(r).high >= 0 && Stored(r).low >= 0
  {
    ModTwice(r.high, Pow10(r.at.highlen));
    ModTwice(r.low, Pow10(r.at.lowlen));
  }

  lemma ModTwice(x: int, p: nat)
    requires p > 0
    ensures 0 <= x % p && (x % p) % p == x % p
  {}

  /** What was written can be read again. */
  lemma ReadAgain(text: Str, newsrc: seq<Rc>, groups: seq<Rc>)
    requires TextOk(text, newsrc) && groups == Groups(text)
    ensures |groups| == |newsrc| && forall i :: 0 <= i < |newsrc| ==> groups[i] == Stored(newsrc[i])
    ensures TextOk(text, groups)
  {
    forall i | 0 <= i < |groups|
      ensures groups[i] == Stored(newsrc[i]) == Stored(groups[i]) && HasFields(text, groups[i])
    {
      assert Groups(text)[i] == Stored(newsrc[i]) && HasFields(text, newsrc[i]);
      StoredTwice(newsrc[i]);
    }
    StillSeparate(newsrc, groups);
  }

  lemma StillSeparate(newsrc: seq<Rc>, groups: seq<Rc>)
    requires Separate(newsrc) && |groups| == |newsrc|
    requires forall i :: 0 <= i < |groups| ==> groups[i].at == newsrc[i].at
    ensures Separate(groups)
  {
    forall i, j | 0 <= i < |groups| && 0 <= j < |groups|
      ensures Differ(groups, i, j)
    {
      assert Differ(newsrc, i, j);
    }
  }

  method OneSession(text: Str, lim: Limits, turns: seq<Turn>) returns (text': Str)
    requires lim.arts <= MAX_ARTS && TextOk(text, Groups(text)) && |turns| == |Groups(text)|
    ensures TextOk(text', Groups(text')) && SessionStep(Groups(text), Groups(text'), lim, turns)
  {
    var puller := new Puller(text, lim, false);
    puller.ReadNews(turns);
    text' := puller.act[..];
    ReadAgain(text', puller.newsrc, Groups(text'));
  }

  /** The program is started once for each session. */
  method AllSessions(text: Str, lim: Limits, sessions: seq<seq<Turn>>) returns (text': Str, ghost states: seq<seq<Rc>>)
    requires lim.arts <= MAX_ARTS && TextOk(text, Groups(text))
    requires forall turns :: turns in sessions ==> |turns| == |Groups(text)|
    ensures Follows(states, lim, sessions) && states[0] == Groups(text) && states[|sessions|] == Groups(text')
    ensures TextOk(text', Groups(text'))
  {
    text' := text;
    states := [Groups(text)];
    for k := 0 to |sessions|
      invariant TextOk(text', Groups(text')) && |Groups(text')| == |Groups(text)|
      invariant Follows(states, lim, sessions[..k]) && states[0] == Groups(text) && states[k] == Groups(text')
    {
      text' := OneSession(text', lim, sessions[k]);
      OneMoreSession(states, lim, sessions, k, Groups(text'));
      states := states + [Groups(text')];
    }
    assert sessions[..|sessions|] == sessions;
  }

  lemma OneMoreSession(states: seq<seq<Rc>>, lim: Limits, sessions: seq<seq<Turn>>, k: nat, rcs: seq<Rc>)
    requires k < |sessions| && Follows(states, lim, sessions[..k]) && SessionStep(states[k], rcs, lim, sessions[k])
    ensures Follows(states + [rcs], lim, sessions[..k + 1])
  {
    var states', sessions' := states + [rcs], sessions[..k + 1];
    forall m | 0 <= m < |sessions'|
      ensures SessionStep(states'[m], states'[m + 1], lim, sessions'[m])
    {
      if m < k {
        assert sessions'[m] == sessions[..k][m];
      }
    }
  }

  /** The turns and marks of one group. */
  ghost predicate GroupOf(states: seq<seq<Rc>>, sessions: seq<seq<Turn>>, i: nat, marks: seq<nat>, turns: seq<Turn>) {
    && |marks| == |states| && |turns| == |sessions|
    && (forall k :: 0 <= k < |states| ==> i < |states[k]| && marks[k] == states[k][i].high)
    && (forall k :: 0 <= k < |sessions| ==> i < |sessions[k]| && turns[k] == sessions[k][i])
  }

  /** No mark of the group outgrows its field. */
  ghost predicate MarksFit(marks: seq<nat>, lim: Limits, turns: seq<Turn>, highlen: nat) {
    |turns| < |marks| && forall k :: 0 <= k < |turns| ==> NextMark(marks[k], lim, turns[k]) < Pow10(highlen)
  }

  lemma {:induction false} SameField(states: seq<seq<Rc>>, lim: Limits, sessions: seq<seq<Turn>>, i: nat, k: nat)
    requires Follows(states, lim, sessions) && k < |states|
    requires forall k :: 0 <= k < |states| ==> i < |states[k]|
    ensures states[k][i].at == states[0][i].at
  {
    if k > 0 {
      SameField(states, lim, sessions, i, k - 1);
      assert SessionStep(states[k - 1], states[k], lim, sessions[k - 1]);
    }
  }

  /** The marks that go through the text are those of the turns in a row, if and only if each of them fits its field. */
  lemma SessionsAreRun(states: seq<seq<Rc>>, lim: Limits, sessions: seq<seq<Turn>>, i: nat, marks: seq<nat>,
                       turns: seq<Turn>)
    requires Follows(states, lim, sessions) && GroupOf(states, sessions, i, marks, turns)
    ensures Moves(marks, lim, turns) <==> MarksFit(marks, lim, turns, states[0][i].at.highlen)
  {
    forall k | 0 <= k < |turns|
      ensures marks[k + 1] == NextMark(marks[k], lim, turns[k])
         <==> NextMark(marks[k], lim, turns[k]) < Pow10(states[0][i].at.highlen)
    {
      SameField(states, lim, sessions, i, k);
      StepOfGroup(states[k], states[k + 1], lim, sessions[k], i);
    }
    if Moves(marks, lim, turns) {
      forall k | 0 <= k < |turns|
        ensures NextMark(marks[k], lim, turns[k]) < Pow10(states[0][i].at.highlen)
      {
        assert marks[k + 1] == NextMark(marks[k], lim, turns[k]);
      }
    }
  }

  lemma StepOfGroup(rcs: seq<Rc>, rcs': seq<Rc>, lim: Limits, turns: seq<Turn>, i: nat)
    requires SessionStep(rcs, rcs', lim, turns) && i < |rcs|
    ensures var next := NextMark(rcs[i].high, lim, turns[i]);
            rcs'[i].high == next <==> next < Pow10(rcs[i].at.highlen)
  {
    ModIsSelf(NextMark(rcs[i].high, lim, turns[i]), Pow10(rcs[i].at.highlen));
  }

  /** Over any number of sessions, each with its own start of the program, an article whose number the mark has passed
      was passed in a session, with the same conclusions as for turns in a row, provided that the marks fit their
      field. */
  lemma SessionsAreSafe(states: seq<seq<Rc>>, lim: Limits, sessions: seq<seq<Turn>>, i: nat, marks: seq<nat>,
                        turns: seq<Turn>, servers: seq<Server>, j: nat, a: nat) returns (k: nat)
    requires Follows(states, lim, sessions) && GroupOf(states, sessions, i, marks, turns)
    requires MarksFit(marks, lim, turns, states[0][i].at.highlen)
    requires TellTheTruth(servers, marks, lim, turns)
    requires j < |turns| && a in servers[j].held && marks[0] < a <= marks[j + 1]
    ensures k <= j && marks[k] < a <= marks[k + 1]
    ensures forall m :: 0 <= m <= j && marks[m] < a <= marks[m + 1] ==>
              Passing(servers[m], marks[m], lim, turns[m], a, servers[j].held[a])
    ensures AllProper(marks, lim, turns) ==>
              forall m, mid :: 0 <= m < |turns| && m != k ==> !SettledInTurn(marks[m], lim, turns[m], Item(a, mid))
  {
    SessionsAreRun(states, lim, sessions, i, marks, turns);
    k := RunIsSafe(servers, marks, lim, turns, j, a);
  }
}
