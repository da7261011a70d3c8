/** The threads of the mail server share one strtok: what that does to the lines a session gets of its chunk. */
module MailThreads {
  import opened Common
  import opened MailboxReadBack
  import opened MailSession
  import opened MailRuns

  /** One call of strtok on a text, or on what the saved position still has before it: the line it returns, and the text
      behind the position it saves. */
  function Strtok(text: string): (r: (Option<string>, string)) {
    var t := SkipBreaks(text);
    if t == "" then (None, "")
    else
      var n := TokenLength(t);
      (Some(t[..n]), if n < |t| then t[n + 1..] else "")
  }

  /** Calls one after the other return the lines of the text, in order, and then none. */
  lemma StrtokTakes(text: string)
    ensures var (line, rest) := Strtok(text); var lines := Tokens(text);
      && line == (if lines == [] then None else Some(lines[0]))
      && Tokens(rest) == (if lines == [] then [] else lines[1..])
      && |rest| <= |text|
  {
    var t := SkipBreaks(text);
    NoTokens();
    if t != "" {
      var n := TokenLength(t);
      TokenEnds(t);
      if n < |t| {
        SkipTwice(t[n..]);
        SkipTwice(t[n + 1..]);
      }
      hide SkipBreaks;
      SkipOne(t[n..]);
    }
  }

  lemma SkipOne(s: string)
    ensures s != "" && IsBreak(s[0]) ==> SkipBreaks(s) == SkipBreaks(s[1..])
  {
  }

  // ---------------------------------------------------------------- which schedules are harmless

  /** A call of strtok after a session's first call on a chunk: a further one of that session, the first one of another
      session on a chunk of its own, or a further one of another session. */
  datatype Turn = Mine | TheirFirst | TheirNext

  /** What the position saved last has before it; the i-th turn, when it is a first call, is on texts[i]. */
  function SavedText(chunk: string, turns: seq<Turn>, texts: seq<string>): string
    requires |texts| == |turns|
  {
    if turns == [] then Strtok(chunk).1
    else
      var n := |turns| - 1;
      if turns[n].TheirFirst? then Strtok(texts[n]).1 else Strtok(SavedText(chunk, turns[..n], texts[..n])).1
  }

  /** What the session's own calls return. */
  function Got(chunk: string, turns: seq<Turn>, texts: seq<string>): (r: seq<Option<string>>)
    requires |texts| == |turns|
    ensures 1 <= |r| <= |turns| + 1
  {
    if turns == [] then [Strtok(chunk).0]
    else
      var n := |turns| - 1;
      Got(chunk, turns[..n], texts[..n])
      + if turns[n].Mine? then [Strtok(SavedText(chunk, turns[..n], texts[..n])).0] else []
  }

  /** The first n answers a session should get: the lines of its chunk, in order, then none. */
  function Own(chunk: string, n: nat): seq<Option<string>> {
    seq(n, i requires 0 <= i < n => if i < |Tokens(chunk)| then Some(Tokens(chunk)[i]) else None)
  }

  ghost predicate Exact(chunk: string, turns: seq<Turn>, texts: seq<string>)
    requires |texts| == |turns|
  {
    Got(chunk, turns, texts) == Own(chunk, |Got(chunk, turns, texts)|)
  }

  /** No call of another session before one of this session. */
  predicate Undisturbed(turns: seq<Turn>) {
    forall i, j :: 0 <= i < j < |turns| && turns[j].Mine? ==> turns[i].Mine?
  }

  predicate AllMine(turns: seq<Turn>) {
    forall i :: 0 <= i < |turns| ==> turns[i].Mine?
  }

  function Behind(lines: seq<string>, n: nat): seq<string> {
    if n <= |lines| then lines[n..] else []
  }

  lemma {:induction false} MineSaved(chunk: string, turns: seq<Turn>, texts: seq<string>)
    requires |texts| == |turns| && AllMine(turns)
    ensures Tokens(SavedText(chunk, turns, texts)) == Behind(Tokens(chunk), |turns| + 1)
    ensures |Got(chunk, turns, texts)| == |turns| + 1
  {
    hide Tokens, Strtok;
    StrtokTakes(chunk);
    if turns != [] {
      var n := |turns| - 1;
      MineSaved(chunk, turns[..n], texts[..n]);
      StrtokTakes(SavedText(chunk, turns[..n], texts[..n]));
    }
  }

  lemma {:induction false} UndisturbedExact(chunk: string, turns: seq<Turn>, texts: seq<string>)
    requires |texts| == |turns| && Undisturbed(turns)
    ensures Exact(chunk, turns, texts)
  {
    hide Tokens, Strtok, SavedText;
    StrtokTakes(chunk);
    if turns != [] {
      var n := |turns| - 1;
      UndisturbedExact(chunk, turns[..n], texts[..n]);
      if turns[n].Mine? {
        MineSaved(chunk, turns[..n], texts[..n]);
        StrtokTakes(SavedText(chunk, turns[..n], texts[..n]));
      }
    }
  }

  // Lines that differ in length.
  function Rung(k: nat): (s: string)
    ensures |s| == k && forall i :: 0 <= i < k ==> !IsBreak(s[i])
  {
    seq(k, _ => 'x')
  }

  function Ladder(k: nat, m: nat): string
    decreases m
  {
    if m == 0 then "" else Rung(k) + ("\n" + Ladder(k + 1, m - 1))
  }

  lemma LadderStep(k: nat, m: nat)
    requires k > 0
    ensures Strtok(Ladder(k, m)) == if m == 0 then (None, "") else (Some(Rung(k)), Ladder(k + 1, m - 1))
  {
    if m > 0 {
      var rest := "\n" + Ladder(k + 1, m - 1);
      WholeToken(Rung(k), rest);
      var s := Ladder(k, m);
      assert s == Rung(k) + rest && s[0] == Rung(k)[0];
      assert s[..k] == Rung(k) && s[k + 1..] == Ladder(k + 1, m - 1);
    }
  }

  lemma {:induction false} LadderTokens(k: nat, m: nat, i: nat)
    requires k > 0 && i < m
    ensures i < |Tokens(Ladder(k, m))| && Tokens(Ladder(k, m))[i] == Rung(k + i)
    decreases i
  {
    hide Tokens, Strtok, Ladder, Rung;
    LadderStep(k, m);
    StrtokTakes(Ladder(k, m));
    if i > 0 {
      LadderTokens(k + 1, m - 1, i - 1);
    }
  }

  // Every session sends the lines of a ladder; the other sessions' lines are all longer than this one's.
  function Ladders(n: nat, size: nat): (texts: seq<string>)
    ensures |texts| == n
    ensures forall i :: 0 <= i < n ==> texts[i] == Ladder(size + 1, size)
  {
    seq(n, _ => Ladder(size + 1, size))
  }

  lemma {:induction false} MineOnLadder(turns: seq<Turn>, texts: seq<string>, size: nat)
    requires |texts| == |turns| && AllMine(turns) && |turns| < size
    ensures SavedText(Ladder(1, size), turns, texts) == Ladder(|turns| + 2, size - |turns| - 1)
  {
    hide Strtok, Ladder;
    LadderStep(1, size);
    if turns != [] {
      var n := |turns| - 1;
      MineOnLadder(turns[..n], texts[..n], size);
      LadderStep(n + 2, size - n - 1);
    }
  }

  /** With p own turns followed by at least one of another session, the next line is a later one of this session or one
      of another. */
  lemma {:induction false} TheirsOnLadder(turns: seq<Turn>, p: nat, size: nat) returns (k: nat, m: nat)
    requires p < |turns| < size && AllMine(turns[..p]) && forall i :: p <= i < |turns| ==> !turns[i].Mine?
    ensures SavedText(Ladder(1, size), turns, Ladders(|turns|, size)) == Ladder(k, m)
    ensures k > p + 2 && m >= size - |turns| - 1
  {
    hide Strtok, Ladder;
    var n := |turns| - 1;
    assert Ladders(|turns|, size)[..n] == Ladders(n, size);
    LadderStep(size + 1, size);
    if turns[n].TheirFirst? {
      k, m := size + 2, size - 1;
    } else {
      if n == p {
        assert turns[..n] == turns[..p];
        MineOnLadder(turns[..n], Ladders(n, size), size);
        k, m := n + 2, size - n - 1;
      } else {
        assert turns[..n][..p] == turns[..p];
        k, m := TheirsOnLadder(turns[..n], p, size);
      }
      LadderStep(k, m);
      k, m := k + 1, m - 1;
    }
  }

  lemma GotGrows(chunk: string, turns: seq<Turn>, texts: seq<string>)
    requires |texts| == |turns| > 0
    ensures var n := |turns| - 1;
      Got(chunk, turns[..n], texts[..n]) <= Got(chunk, turns, texts)
  {
  }

  lemma {:induction false} DisturbedWrong(turns: seq<Turn>, size: nat)
    requires !Undisturbed(turns) && |turns| + 1 < size
    ensures !Exact(Ladder(1, size), turns, Ladders(|turns|, size))
  {
    hide Strtok, Ladder, Tokens;
    var chunk, texts, n := Ladder(1, size), Ladders(|turns|, size), |turns| - 1;
    assert texts[..n] == Ladders(n, size);
    if !Undisturbed(turns[..n]) {
      DisturbedWrong(turns[..n], size);
      WrongStays(chunk, turns, texts);
    } else {
      FirstWrong(turns, size);
    }
  }

  lemma WrongStays(chunk: string, turns: seq<Turn>, texts: seq<string>)
    requires |texts| == |turns| > 0
    requires var n := |turns| - 1; !Exact(chunk, turns[..n], texts[..n])
    ensures !Exact(chunk, turns, texts)
  {
    hide Got;
    GotGrows(chunk, turns, texts);
    var n := |turns| - 1;
    var before := Got(chunk, turns[..n], texts[..n]);
    assert Own(chunk, |Got(chunk, turns, texts)|)[..|before|] == Own(chunk, |before|);
  }

  // The first own turn after another session's gets a wrong line.
  lemma FirstWrong(turns: seq<Turn>, size: nat)
    requires turns != [] && !Undisturbed(turns) && Undisturbed(turns[..|turns| - 1]) && |turns| + 1 < size
    ensures !Exact(Ladder(1, size), turns, Ladders(|turns|, size))
  {
    var chunk, texts, n := Ladder(1, size), Ladders(|turns|, size), |turns| - 1;
    hide Strtok, Ladder, Tokens, Rung;
    assert texts[..n] == Ladders(n, size);
    var p := OwnFirst(turns[..n]);
    assert turns[n].Mine?;
    OwnCount(chunk, turns[..n], texts[..n], p);
    var k, m := TheirsOnLadder(turns[..n], p, size);
    hide SavedText;
    LadderStep(k, m);
    LadderTokens(1, size, p + 1);
    assert Got(chunk, turns, texts)[p + 1] == Some(Rung(k));
    assert Own(chunk, |Got(chunk, turns, texts)|)[p + 1] == Some(Rung(p + 2));
  }

  // The own turns of an undisturbed schedule come first.
  lemma {:induction false} OwnFirst(turns: seq<Turn>) returns (p: nat)
    requires Undisturbed(turns)
    ensures p <= |turns| && AllMine(turns[..p]) && forall i :: p <= i < |turns| ==> !turns[i].Mine?
  {
    if turns == [] || turns[|turns| - 1].Mine? {
      p := |turns|;
    } else {
      var n := |turns| - 1;
      p := OwnFirst(turns[..n]);
      assert turns[..n][..p] == turns[..p];
      assert forall i :: p <= i < n ==> turns[i] == turns[..n][i];
    }
  }

  lemma {:induction false} OwnCount(chunk: string, turns: seq<Turn>, texts: seq<string>, p: nat)
    requires |texts| == |turns| && p <= |turns| && AllMine(turns[..p])
    requires forall i :: p <= i < |turns| ==> !turns[i].Mine?
    ensures |Got(chunk, turns, texts)| == p + 1
  {
    if p < |turns| {
      var n := |turns| - 1;
      assert turns[..n][..p] == turns[..p];
      OwnCount(chunk, turns[..n], texts[..n], p);
    } else {
      assert turns[..p] == turns;
      MineSaved(chunk, turns, texts);
    }
  }

  /** Whatever the chunks hold, a session gets exactly the lines of its chunk, if and only if no other session calls
      strtok between the session's first call and its last. */
  lemma ExactUnlessDisturbed(turns: seq<Turn>)
    ensures (forall chunk, texts | |texts| == |turns| :: Exact(chunk, turns, texts)) <==> Undisturbed(turns)
  {
    hide Exact;
    if Undisturbed(turns) {
      forall chunk, texts | |texts| == |turns| ensures Exact(chunk, turns, texts) {
        UndisturbedExact(chunk, turns, texts);
      }
    } else {
      DisturbedWrong(turns, |turns| + 2);
      assert !Exact(Ladder(1, |turns| + 2), turns, Ladders(|turns|, |turns| + 2));
    }
  }

  // ---------------------------------------------------------------- the server, call by call

  /** The sessions and their mailboxes, the text behind strtok's saved position, and the sessions inside their loop over
      a chunk. */
  datatype Server = Server(world: World, saved: string, looping: set<nat>)

  /** Receive is a recv with the first call of strtok on what it delivered; NextLine is a further call. The line a call
      returns is handled in the same step. */
  datatype Happening =
    | Join(id: nat)
    | Receive(id: nat, chunk: string, env: Env)
    | NextLine(id: nat, env: Env)
    | Quit(id: nat)

  predicate ValidHappening(h: Happening) {
    && (h.Receive? ==> |h.chunk| <= MAX_RECEIVED)
    && (h.Receive? || h.NextLine? ==> IsDate(h.env.date) && |h.env.date| < 20)
  }

  // The text this step calls strtok on, if it does.
  function Input(v: Server, h: Happening): Option<string> {
    match h {
      case Receive(id, chunk, env) => if id in v.world.clients && id !in v.looping then Some(chunk) else None
      case NextLine(id, env) => if id in v.world.clients && id in v.looping then Some(v.saved) else None
      case _ => None
    }
  }

  // What the step is for the sessions and mailboxes.
  function LineEvents(v: Server, h: Happening): seq<Event> {
    match h {
      case Join(id) => [Connect(id)]
      case Quit(id) => if id in v.looping then [] else [Disconnect(id)]
      case _ =>
        var input := Input(v, h);
        if input.Some? && Strtok(input.value).0.Some? then [Line(h.id, Strtok(input.value).0.value, h.env)] else []
    }
  }

  function After(v: Server, h: Happening): Server {
    var world := MailRuns.Run(v.world, LineEvents(v, h));
    match Input(v, h) {
      case None => v.(world := world)
      case Some(text) =>
        var (line, rest) := Strtok(text);
        Server(world, rest, if line.Some? then v.looping + {h.id} else v.looping - {h.id})
    }
  }

  function Serve(v: Server, hs: seq<Happening>): Server {
    if hs == [] then v else After(Serve(v, hs[..|hs| - 1]), hs[|hs| - 1])
  }

  function Started(): Server {
    Server(Initial(), "", {})
  }

  lemma {:induction false} RunAppend(w: World, before: seq<Event>, events: seq<Event>)
    ensures MailRuns.Run(w, before + events) == MailRuns.Run(MailRuns.Run(w, before), events)
  {
    hide MailRuns.Next;
    if events == [] {
      assert before + events == before;
    } else {
      var n := |events| - 1;
      assert (before + events)[..|before + events| - 1] == before + events[..n];
      RunAppend(w, before, events[..n]);
    }
  }

  lemma StepEvents(v: Server, h: Happening)
    requires ValidHappening(h) && |v.saved| <= MAX_RECEIVED
    ensures forall e :: e in LineEvents(v, h) ==> ValidEvent(e)
    ensures |After(v, h).saved| <= MAX_RECEIVED
  {
    hide Strtok, Tokens, MailRuns.Run, MailRuns.Next, IsToken, IsDate;
    var input := Input(v, h);
    if input.Some? {
      StrtokTakes(input.value);
    }
  }

  /** Whatever the threads do to each other's lines: every run of the server is, for sessions and mailboxes, a run over
      single lines, so that the invariant of those runs holds. */
  lemma {:induction false} RunsOverLines(hs: seq<Happening>) returns (events: seq<Event>)
    requires forall h :: h in hs ==> ValidHappening(h)
    ensures forall e :: e in events ==> ValidEvent(e)
    ensures Serve(Started(), hs).world == MailRuns.Run(Initial(), events) && Inv(Serve(Started(), hs).world)
    ensures |Serve(Started(), hs).saved| <= MAX_RECEIVED
  {
    hide MailRuns.Run, Inv, ValidEvent, ValidHappening;
    if hs == [] {
      events := [];
      NoEvents();
    } else {
      var before, h := Serve(Started(), hs[..|hs| - 1]), hs[|hs| - 1];
      assert h in hs;
      var done := RunsOverLines(hs[..|hs| - 1]);
      StepEvents(before, h);
      RunAppend(Initial(), done, LineEvents(before, h));
      events := done + LineEvents(before, h);
    }
    AlwaysInv(events);
  }

  lemma NoEvents()
    ensures MailRuns.Run(Initial(), []) == Initial()
  {
  }

  // ---------------------------------------------------------------- a session left alone

  /** Nobody else calls strtok, and the session itself neither leaves nor receives anew. */
  predicate Alone(id: nat, hs: seq<Happening>) {
    forall h :: h in hs ==> !h.Receive? && (h.NextLine? ==> h.id == id) && (h.Quit? ==> h.id != id)
  }

  function Calls(hs: seq<Happening>): nat {
    if hs == [] then 0 else Calls(hs[..|hs| - 1]) + if hs[|hs| - 1].NextLine? then 1 else 0
  }

  lemma LineHeard(v: Server, h: Happening, id: nat)
    requires id in v.world.clients && h.id == id && Input(v, h).Some?
    ensures var (line, rest) := Strtok(Input(v, h).value); var v' := After(v, h);
      && id in v'.world.clients
      && v'.world.clients[id].heard == v.world.clients[id].heard + (if line.Some? then [line.value] else [])
      && v'.saved == rest && v'.looping == (if line.Some? then v.looping + {id} else v.looping - {id})
      && forall other :: other in v.world.clients && other != id ==>
           other in v'.world.clients && v'.world.clients[other] == v.world.clients[other]
  {
    hide HandleLine, Strtok;
    var line := Strtok(Input(v, h).value).0;
    if line.Some? {
      OneEvent(v.world, Line(id, line.value, h.env));
    } else {
      NoEvent(v.world);
    }
  }

  lemma NoEvent(w: World)
    ensures MailRuns.Run(w, []) == w
  {
  }

  lemma OneEvent(w: World, e: Event)
    ensures MailRuns.Run(w, [e]) == MailRuns.Next(w, e)
  {
    assert [e][..0] == [];
  }

  lemma OtherStep(v: Server, h: Happening, id: nat)
    requires id in v.world.clients && Input(v, h).None? && (h.Quit? ==> h.id != id)
    ensures var v' := After(v, h);
      && id in v'.world.clients && v'.world.clients[id] == v.world.clients[id]
      && v'.saved == v.saved && v'.looping == v.looping
  {
    NoEvent(v.world);
    if h.Join? {
      OneEvent(v.world, Connect(h.id));
    } else if h.Quit? {
      OneEvent(v.world, Disconnect(h.id));
    }
  }

  /** A session whose loop over a chunk is not disturbed by another session's call handles the lines of that chunk, in
      order, and its loop ends after all of them. */
  lemma {:induction false} HeardAlone(v: Server, id: nat, chunk: string, env: Env, hs: seq<Happening>)
    requires id in v.world.clients && id !in v.looping && Alone(id, hs)
    ensures HasHeard(v, Serve(After(v, Receive(id, chunk, env)), hs), id, Tokens(chunk), Calls(hs) + 1)
  {
    hide After, Strtok, Tokens, HasHeard;
    if hs == [] {
      HeardFirst(v, id, chunk, env);
    } else {
      var before, h := hs[..|hs| - 1], hs[|hs| - 1];
      assert h in hs;
      HeardAlone(v, id, chunk, env, before);
      HeardNext(v, Serve(After(v, Receive(id, chunk, env)), before), id, Tokens(chunk), Calls(before) + 1, h);
    }
  }

  /** After this many calls the session has handled as many of the lines, or all of them; its loop has ended if there
      were more calls than lines, and otherwise the remaining lines are behind the saved position. */
  ghost predicate HasHeard(v: Server, v': Server, id: nat, lines: seq<string>, calls: nat) {
    && id in v.world.clients && id in v'.world.clients
    && v'.world.clients[id].heard == v.world.clients[id].heard + (if calls <= |lines| then lines[..calls] else lines)
    && (id in v'.looping <==> calls <= |lines|)
    && (calls <= |lines| ==> Tokens(v'.saved) == lines[calls..])
  }

  lemma HeardFirst(v: Server, id: nat, chunk: string, env: Env)
    requires id in v.world.clients && id !in v.looping
    ensures HasHeard(v, After(v, Receive(id, chunk, env)), id, Tokens(chunk), 1)
  {
    hide After, Strtok, Tokens, Input;
    StrtokTakes(chunk);
    InputOf(v, Receive(id, chunk, env));
    LineHeard(v, Receive(id, chunk, env), id);
  }

  lemma HeardNext(v: Server, here: Server, id: nat, lines: seq<string>, calls: nat, h: Happening)
    requires HasHeard(v, here, id, lines, calls)
    requires !h.Receive? && (h.NextLine? ==> h.id == id) && (h.Quit? ==> h.id != id)
    ensures HasHeard(v, After(here, h), id, lines, calls + if h.NextLine? then 1 else 0)
  {
    hide After, Strtok, Tokens, Input, HasHeard;
    InputOf(here, h);
    if h.NextLine? && id in here.looping {
      CallHeard(v, here, id, lines, calls, h);
    } else {
      OtherStep(here, h, id) by {
        StillThere(v, here, id, lines, calls);
      }
      SameHeard(v, here, After(here, h), id, lines, calls, h.NextLine?);
    }
  }

  lemma StillThere(v: Server, here: Server, id: nat, lines: seq<string>, calls: nat)
    requires HasHeard(v, here, id, lines, calls)
    ensures id in here.world.clients
  {
  }

  lemma SameHeard(v: Server, here: Server, there: Server, id: nat, lines: seq<string>, calls: nat, called: bool)
    requires HasHeard(v, here, id, lines, calls)
    requires id in there.world.clients && there.world.clients[id] == here.world.clients[id]
    requires there.saved == here.saved && there.looping == here.looping && (called ==> id !in here.looping)
    ensures HasHeard(v, there, id, lines, calls + if called then 1 else 0)
  {
  }

  lemma CallHeard(v: Server, here: Server, id: nat, lines: seq<string>, calls: nat, h: Happening)
    requires HasHeard(v, here, id, lines, calls) && h.NextLine? && h.id == id && id in here.looping
    ensures HasHeard(v, After(here, h), id, lines, calls + 1)
  {
    hide After, Tokens, Input, HasHeard;
    Looping(v, here, id, lines, calls);
    InputOf(here, h);
    StrtokTakes(here.saved);
    LineHeard(here, h, id);
    hide Strtok;
    LineAppended(v, here, After(here, h), id, lines, calls, Strtok(here.saved).0);
  }

  lemma Looping(v: Server, here: Server, id: nat, lines: seq<string>, calls: nat)
    requires HasHeard(v, here, id, lines, calls) && id in here.looping
    ensures id in here.world.clients && calls <= |lines| && Tokens(here.saved) == lines[calls..]
  {
  }

  lemma LineAppended(
    v: Server, here: Server, there: Server, id: nat, lines: seq<string>, calls: nat, line: Option<string>)
    requires HasHeard(v, here, id, lines, calls) && id in here.looping && calls <= |lines|
    requires line == if calls == |lines| then None else Some(lines[calls])
    requires id in there.world.clients
    requires there.world.clients[id].heard
      == here.world.clients[id].heard + (if line.Some? then [line.value] else [])
    requires Tokens(there.saved) == if calls == |lines| then [] else lines[calls + 1..]
    requires id in there.looping <==> line.Some?
    ensures HasHeard(v, there, id, lines, calls + 1)
  {
    hide Tokens;
    if calls < |lines| {
      assert lines[..calls + 1] == lines[..calls] + [lines[calls]];
    } else {
      assert lines[..calls] == lines;
    }
  }

  lemma InputOf(v: Server, h: Happening)
    ensures h.Receive? && h.id in v.world.clients && h.id !in v.looping ==> Input(v, h) == Some(h.chunk)
    ensures h.NextLine? && h.id in v.world.clients && h.id in v.looping ==> Input(v, h) == Some(v.saved)
    ensures h.NextLine? && h.id !in v.looping ==> Input(v, h) == None
    ensures h.Join? || h.Quit? ==> Input(v, h) == None
  {
  }

  // ---------------------------------------------------------------- two sessions crossed

  lemma LineThenText(line: string, rest: string)
    requires IsToken(line)
    ensures Strtok(line + "\n" + rest) == (Some(line), rest)
  {
    var s := line + "\n" + rest;
    WholeToken(line, "\n" + rest);
    assert s == line + ("\n" + rest) && s[0] == line[0];
    assert s[..|line|] == line && s[|line| + 1..] == rest;
  }

  // Both sessions stay, and these are the lines they hear meanwhile.
  ghost predicate BothHear(v: Server, v': Server, x: nat, xs: seq<string>, y: nat, ys: seq<string>) {
    && x in v.world.clients && y in v.world.clients && x in v'.world.clients && y in v'.world.clients
    && v'.world.clients[x].heard == v.world.clients[x].heard + xs
    && v'.world.clients[y].heard == v.world.clients[y].heard + ys
  }

  lemma OneCall(v: Server, h: Happening, x: nat, y: nat)
    requires x in v.world.clients && y in v.world.clients && x != y && h.id == x && Input(v, h).Some?
    ensures var (line, rest) := Strtok(Input(v, h).value); var v' := After(v, h);
      && BothHear(v, v', x, if line.Some? then [line.value] else [], y, [])
      && v'.saved == rest && v'.looping == if line.Some? then v.looping + {x} else v.looping - {x}
  {
    hide Strtok, After, Input;
    LineHeard(v, h, x);
  }

  lemma FirstCalls(v: Server, x: nat, y: nat, x1: string, xs: string, y1: string, ys: string, env: Env)
    returns (v': Server)
    requires x in v.world.clients && y in v.world.clients && x != y && x !in v.looping && y !in v.looping
    requires IsToken(x1) && IsToken(y1)
    ensures v' == After(After(v, Receive(x, x1 + "\n" + xs, env)), Receive(y, y1 + "\n" + ys, env))
    ensures BothHear(v, v', x, [x1], y, [y1]) && v'.saved == ys && v'.looping == v.looping + {x} + {y}
  {
    hide After, Strtok, Input, IsToken;
    var forX, forY := Receive(x, x1 + "\n" + xs, env), Receive(y, y1 + "\n" + ys, env);
    LineThenText(x1, xs);
    LineThenText(y1, ys);
    InputOf(v, forX);
    OneCall(v, forX, x, y);
    InputOf(After(v, forX), forY);
    OneCall(After(v, forX), forY, y, x);
    v' := After(After(v, forX), forY);
  }

  // The first session takes the line the other one left, and both loops end.
  lemma FurtherCalls(v: Server, x: nat, y: nat, line: string, env: Env) returns (v': Server)
    requires x in v.world.clients && y in v.world.clients && x != y && x in v.looping && y in v.looping
    requires IsToken(line) && v.saved == line + "\n"
    ensures v' == After(After(After(v, NextLine(x, env)), NextLine(y, env)), NextLine(x, env))
    ensures BothHear(v, v', x, [line], y, []) && v'.looping == v.looping - {x} - {y}
  {
    hide After, Input, IsToken;
    LineThenText(line, "");
    assert v.saved == line + "\n" + "";
    assert Strtok("") == (None, "");
    hide Strtok;
    InputOf(v, NextLine(x, env));
    OneCall(v, NextLine(x, env), x, y);
    var v1 := After(v, NextLine(x, env));
    InputOf(v1, NextLine(y, env));
    OneCall(v1, NextLine(y, env), y, x);
    var v2 := After(v1, NextLine(y, env));
    InputOf(v2, NextLine(x, env));
    OneCall(v2, NextLine(x, env), x, y);
    v' := After(v2, NextLine(x, env));
  }

  /** Two sessions send two lines each. When both make their first call before either makes its second, the first
      session handles the second line of the other; its own second line is handled by nobody. */
  lemma LinesCross(v: Server, x: nat, y: nat, x1: string, x2: string, y1: string, y2: string, env: Env)
    requires x in v.world.clients && y in v.world.clients && x != y && x !in v.looping && y !in v.looping
    requires IsToken(x1) && IsToken(x2) && IsToken(y1) && IsToken(y2)
    ensures Tokens(x1 + "\n" + (x2 + "\n")) == [x1, x2] && Tokens(y1 + "\n" + (y2 + "\n")) == [y1, y2]
    ensures var v' := Serve(v, [Receive(x, x1 + "\n" + (x2 + "\n"), env), Receive(y, y1 + "\n" + (y2 + "\n"), env),
                                NextLine(x, env), NextLine(y, env), NextLine(x, env)]);
      BothHear(v, v', x, [x1, y2], y, [y1]) && v'.looping == v.looping
  {
    TwoLines(x1, x2);
    TwoLines(y1, y2);
    Crossing(v, x, y, x1, x2 + "\n", y1, y2, env);
    hide Tokens, Serve, BothHear, IsToken;
  }

  lemma Crossing(v: Server, x: nat, y: nat, x1: string, xs: string, y1: string, y2: string, env: Env)
    requires x in v.world.clients && y in v.world.clients && x != y && x !in v.looping && y !in v.looping
    requires IsToken(x1) && IsToken(y1) && IsToken(y2)
    ensures var v' := Serve(v, [Receive(x, x1 + "\n" + xs, env), Receive(y, y1 + "\n" + (y2 + "\n"), env),
                                NextLine(x, env), NextLine(y, env), NextLine(x, env)]);
      BothHear(v, v', x, [x1, y2], y, [y1]) && v'.looping == v.looping
  {
    hide After, IsToken, Serve;
    var ys := y2 + "\n";
    var v2 := FirstCalls(v, x, y, x1, xs, y1, ys, env);
    var v5 := FurtherCalls(v2, x, y, y2, env);
    BothTogether(v, v2, v5, x, x1, y2, y, y1);
    ServeFive(v, Receive(x, x1 + "\n" + xs, env), Receive(y, y1 + "\n" + ys, env), NextLine(x, env), NextLine(y, env),
              NextLine(x, env));
  }

  lemma BothTogether(v: Server, v2: Server, v5: Server, x: nat, x1: string, x2: string, y: nat, y1: string)
    requires BothHear(v, v2, x, [x1], y, [y1]) && BothHear(v2, v5, x, [x2], y, [])
    ensures BothHear(v, v5, x, [x1, x2], y, [y1])
  {
    var hx, hy := v.world.clients[x].heard, v.world.clients[y].heard;
    assert (hx + [x1]) + [x2] == hx + [x1, x2] && (hy + [y1]) + [] == hy + [y1];
  }

  lemma TwoLines(line: string, next: string)
    requires IsToken(line) && IsToken(next)
    ensures Tokens(line + "\n" + (next + "\n")) == [line, next]
  {
    hide Tokens, Strtok;
    LineThenText(line, next + "\n");
    LineThenText(next, "");
    assert next + "\n" == next + "\n" + "";
    StrtokTakes(line + "\n" + (next + "\n"));
    StrtokTakes(next + "\n");
    NoTokens();
  }

  lemma ServePrefix(v: Server, hs: seq<Happening>, k: nat)
    requires k < |hs|
    ensures Serve(v, hs[..k + 1]) == After(Serve(v, hs[..k]), hs[k])
  {
    assert hs[..k + 1][..k] == hs[..k];
  }

  lemma ServeFive(v: Server, h1: Happening, h2: Happening, h3: Happening, h4: Happening, h5: Happening)
    ensures Serve(v, [h1, h2, h3, h4, h5]) == After(After(After(After(After(v, h1), h2), h3), h4), h5)
  {
    hide After;
    var hs := [h1, h2, h3, h4, h5];
    assert Serve(v, hs[..0]) == v;
    assert hs[..5] == hs;
    hide Serve;
    ServePrefix(v, hs, 0);
    ServePrefix(v, hs, 1);
    ServePrefix(v, hs, 2);
    ServePrefix(v, hs, 3);
    ServePrefix(v, hs, 4);
  }
}
