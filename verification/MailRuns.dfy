/** Runs of the mail server: any number of sessions, their lines interleaved in any order, over one mailbox directory.
    */
module MailRuns {
  import opened Common
  import opened MailText
  import opened MailReaders
  import opened MailboxReadBack
  import opened MailSession

  // BUFFER_SIZE - 1: the most one recv delivers, hence the longest line.
  const MAX_RECEIVED: int := 1023

  /** A session with its history: every line handled since it connected, how many of them came before the first line of
      the DATA block last accepted, and those handled outside DATA mode. */
  datatype Client = Client(session: Session, heard: seq<string>, dataAt: nat, commands: seq<string>)

  /** A message written to a mailbox file. */
  datatype Saved = Saved(recipient: string, mail: Mail)

  datatype World = World(clients: map<nat, Client>, files: Files, log: seq<Saved>)

  datatype Event = Connect(id: nat) | Line(id: nat, line: string, env: Env) | Disconnect(id: nat)

  predicate ValidEvent(e: Event) {
    e.Line? ==> IsToken(e.line) && |e.line| <= MAX_RECEIVED && IsDate(e.env.date) && |e.env.date| < 20
  }

  // The first 99 characters.
  function Head(s: string): string {
    if |s| <= 99 then s else s[..99]
  }

  /** The address in the last of these lines that starts so and has an @ behind, or nothing. */
  function LastAddress(start: string, lines: seq<string>): string {
    if lines == [] then ""
    else
      var last := lines[|lines| - 1];
      if start <= last && '@' in last[|start|..] then Head(last[|start|..])
      else LastAddress(start, lines[..|lines| - 1])
  }

  function SenderOf(commands: seq<string>): string {
    LastAddress("MAIL FROM: ", commands)
  }

  function RecipientOf(commands: seq<string>): string {
    LastAddress("RCPT TO: ", commands)
  }

  function Hear(c: Client, files: Files, line: string, env: Env): Client {
    var accepted := !c.session.dataMode && line == "DATA" && c.session.sender != "" && c.session.recipient != "";
    var heard := c.heard + [line];
    Client(HandleLine(c.session, files, line, env).session, heard, if accepted then |heard| else c.dataAt,
           if c.session.dataMode then c.commands else c.commands + [line])
  }

  /** What this line writes to a mailbox, by the lines the session has handled. */
  function Written(c: Client, line: string, env: Env): seq<Saved> {
    if c.session.dataMode && line == "." && env.canOpen && c.dataAt <= |c.heard| then
      [Saved(RecipientOf(c.commands), Mail(SenderOf(c.commands), env.date, c.heard[c.dataAt..]))]
    else []
  }

  function Next(w: World, e: Event): World {
    match e {
      case Connect(id) => if id in w.clients then w else w.(clients := w.clients[id := Client(NewSession(), [], 0, [])])
      case Disconnect(id) => w.(clients := w.clients - {id})
      case Line(id, line, env) =>
        if id !in w.clients then w
        else
          var c := w.clients[id];
          World(w.clients[id := Hear(c, w.files, line, env)],
                HandleLine(c.session, w.files, line, env).files,
                w.log + Written(c, line, env))
    }
  }

  function Run(w: World, events: seq<Event>): World {
    if events == [] then w else Next(Run(w, events[..|events| - 1]), events[|events| - 1])
  }

  function Initial(): World {
    World(map[], map[], [])
  }

  // ---------------------------------------------------------------- invariant

  predicate IsName(s: string) {
    IsToken(s) && |s| <= MAX_NAME
  }

  ghost predicate Lines(lines: seq<string>) {
    forall l :: l in lines ==> IsToken(l) && |l| <= MAX_RECEIVED
  }

  predicate Addressed(c: Client) {
    c.session.sender == SenderOf(c.commands) && c.session.recipient == RecipientOf(c.commands)
  }

  /** The session knows the addresses it was told last. In DATA mode it has both, and the buffer holds exactly the lines
      since the accepted DATA. */
  ghost predicate ClientInv(c: Client) {
    var s := c.session;
    && c.dataAt <= |c.heard| && Lines(c.heard)
    && Addressed(c)
    && (s.sender != "" ==> IsName(s.sender)) && (s.recipient != "" ==> IsName(s.recipient))
    && |s.buffer| < MAX_EMAIL_SIZE
    && (s.dataMode ==>
          && s.sender != "" && s.recipient != ""
          && c.dataAt > 0 && c.heard[c.dataAt - 1] == "DATA" && "." !in c.heard[c.dataAt..]
          && s.buffer == Unlines(c.heard[c.dataAt..]))
  }

  ghost predicate MailInv(m: Mail) {
    && IsName(m.sender) && IsDate(m.date) && |m.date| < 20
    && Lines(m.body) && "." !in m.body && |Unlines(m.body)| < MAX_EMAIL_SIZE
  }

  /** The messages saved for one recipient, in order. */
  function MailsFor(log: seq<Saved>, name: string): seq<Mail> {
    if log == [] then []
    else
      var last := log[|log| - 1];
      MailsFor(log[..|log| - 1], name) + (if last.recipient == name then [last.mail] else [])
  }

  ghost predicate LogInv(log: seq<Saved>) {
    forall e :: e in log ==> IsName(e.recipient) && MailInv(e.mail)
  }

  /** A mailbox exists exactly when something was saved in it, and then holds exactly that. */
  ghost predicate FileIs(files: Files, name: string, mails: seq<Mail>) {
    if mails == [] then name !in files else name in files && files[name] == Unlines(AllLines(mails))
  }

  ghost predicate Inv(w: World) {
    && (forall id :: id in w.clients ==> ClientInv(w.clients[id]))
    && LogInv(w.log)
    && (forall name :: FileIs(w.files, name, MailsFor(w.log, name)))
  }

  lemma HeardKeeps(heard: seq<string>, line: string)
    requires Lines(heard) && IsToken(line) && |line| <= MAX_RECEIVED
    ensures Lines(heard + [line])
  {
    forall l | l in heard + [line] ensures IsToken(l) && |l| <= MAX_RECEIVED {
      assert l == line || l in heard;
    }
  }

  lemma SessionKeeps(c: Client, files: Files, line: string, env: Env)
    requires ClientInv(c) && IsToken(line) && |line| <= MAX_RECEIVED
    ensures ClientInv(Hear(c, files, line, env))
  {
    hide Addressed;
    HeardKeeps(c.heard, line);
    AddressesKept(c, files, line, env);
    if c.session.dataMode {
      ContentKeeps(c, files, line, env);
    } else {
      CommandKeeps(c, files, line, env);
      hide Lines, IsName, ProcessCommand, HandleDataContent, IsToken;
      assert (c.heard + [line])[|c.heard| + 1..] == [];
    }
  }

  lemma LastAdded(start: string, commands: seq<string>, line: string)
    ensures LastAddress(start, commands + [line])
      == if start <= line && '@' in line[|start|..] then Head(line[|start|..]) else LastAddress(start, commands)
  {
    assert (commands + [line])[..|commands|] == commands;
  }

  /** MAIL FROM sets the sender and RCPT TO the recipient; no other line changes either. */
  lemma AddressesKept(c: Client, files: Files, line: string, env: Env)
    requires Addressed(c)
    ensures Addressed(Hear(c, files, line, env))
  {
    hide LastAddress, ProcessCommand, HandleDataContent;
    LastAdded("MAIL FROM: ", c.commands, line);
    LastAdded("RCPT TO: ", c.commands, line);
    if c.session.dataMode {
      ContentKeepsAddresses(c.session, files, line, env);
    } else {
      AddressesSet(c.session, files, line, env);
    }
  }

  lemma ContentKeepsAddresses(s: Session, files: Files, line: string, env: Env)
    ensures var s' := HandleDataContent(s, files, line, env).session;
      s'.sender == s.sender && s'.recipient == s.recipient
  {
  }

  lemma AddressesSet(s: Session, files: Files, line: string, env: Env)
    ensures var s' := ProcessCommand(s, files, line, env).session;
      && s'.sender == (if "MAIL FROM: " <= line && '@' in line[11..] then Head(line[11..]) else s.sender)
      && s'.recipient == if "RCPT TO: " <= line && '@' in line[9..] then Head(line[9..]) else s.recipient
  {
    hide HandleList, HandleGetMail;
    ReadersKeepSession(s, files, line, env);
    assert "HELO " <= line ==> line[0] == 'H';
    assert "MAIL FROM: " <= line ==> line[0] == 'M';
    assert "RCPT TO: " <= line ==> line[0] == 'R';
  }

  lemma ReadersKeepSession(s: Session, files: Files, line: string, env: Env)
    ensures forall args :: HandleList(s, files, args, env.stale).session == s
    ensures forall args :: HandleGetMail(s, files, args).session == s
  {
  }

  lemma ContentKeeps(c: Client, files: Files, line: string, env: Env)
    requires ClientInv(c) && Lines(c.heard + [line]) && c.session.dataMode && Addressed(Hear(c, files, line, env))
    ensures ClientInv(Hear(c, files, line, env))
  {
    hide Addressed;
    var lines := c.heard[c.dataAt..];
    LineAdded(lines, line);
    assert (c.heard + [line])[c.dataAt..] == lines + [line];
    assert (c.heard + [line])[c.dataAt - 1] == c.heard[c.dataAt - 1];
    hide Lines, IsName, Unlines, ProcessCommand, SaveEmail;
  }

  lemma LineAdded(lines: seq<string>, line: string)
    ensures Unlines(lines + [line]) == Unlines(lines) + line + "\n"
  {
    UnlinesAppend(lines, [line]);
    assert Unlines([line]) == line + "\n" + "";
    assert Unlines(lines) + line + "\n" == Unlines(lines) + (line + "\n" + "");
  }

  lemma ClipName(s: string)
    requires s == "" || IsToken(s)
    ensures Clip(s) != "" ==> IsName(Clip(s))
  {
  }

  lemma CommandKeeps(c: Client, files: Files, line: string, env: Env)
    requires ClientInv(c) && !c.session.dataMode && IsToken(line)
    ensures var s, s' := c.session, ProcessCommand(c.session, files, line, env).session;
      && (s'.sender != "" ==> IsName(s'.sender)) && (s'.recipient != "" ==> IsName(s'.recipient))
      && (s'.dataMode <==> line == "DATA" && s.sender != "" && s.recipient != "")
      && s'.buffer == (if s'.dataMode then "" else s.buffer)
      && (s'.dataMode ==> s'.sender == s.sender && s'.recipient == s.recipient)
  {
    hide Lines;
    if "MAIL FROM: " <= line {
      ClipName(line[11..]);
    } else if "RCPT TO: " <= line {
      ClipName(line[9..]);
    }
    hide ClientInv, ListFrom, GetMail, ScanTarget, ReadLines, Clip, IsName, IsToken;
  }

  lemma FileAppended(files: Files, name: string, mails: seq<Mail>, m: Mail)
    requires FileIs(files, name, mails)
    ensures FileIs(Appended(files, name, Printed(m.sender, m.date, Unlines(m.body))), name, mails + [m])
  {
    assert AllLines([]) == [];
    assert Unlines(AllLines([])) == "";
    hide Printed, AllLines;
    SavedAppends(mails, m);
  }

  lemma Logged(log: seq<Saved>, e: Saved, name: string)
    ensures MailsFor(log + [e], name) == MailsFor(log, name) + (if e.recipient == name then [e.mail] else [])
    ensures MailsFor(log + [], name) == MailsFor(log, name)
  {
    assert (log + [e])[..|log|] == log;
    assert log + [] == log;
  }

  lemma FilesKeep(w: World, c: Client, line: string, env: Env)
    requires ClientInv(c) && (forall name :: FileIs(w.files, name, MailsFor(w.log, name)))
    ensures forall name ::
      FileIs(HandleLine(c.session, w.files, line, env).files, name, MailsFor(w.log + Written(c, line, env), name))
  {
    hide ListFrom, GetMail, ScanTarget, ReadLines, Printed, MailsFor, Lines, IsName, SenderOf, RecipientOf;
    var files := HandleLine(c.session, w.files, line, env).files;
    var written := Written(c, line, env);
    if written == [] {
      assert files == w.files;
      assert w.log + written == w.log;
    } else {
      var e := written[0];
      assert written == [e];
      assert files == Appended(w.files, e.recipient, Printed(e.mail.sender, e.mail.date, Unlines(e.mail.body)));
      forall name ensures FileIs(files, name, MailsFor(w.log + written, name)) {
        Logged(w.log, e, name);
        if name == e.recipient {
          FileAppended(w.files, name, MailsFor(w.log, name), e.mail);
        } else {
          assert MailsFor(w.log, name) + [] == MailsFor(w.log, name);
        }
      }
    }
  }

  lemma LogKeeps(w: World, c: Client, line: string, env: Env)
    requires LogInv(w.log) && ClientInv(c) && IsDate(env.date) && |env.date| < 20
    ensures LogInv(w.log + Written(c, line, env))
  {
    forall e | e in w.log + Written(c, line, env) ensures IsName(e.recipient) && MailInv(e.mail) {
      if e !in w.log {
        assert e in Written(c, line, env);
        assert forall l :: l in e.mail.body ==> l in c.heard;
      }
    }
  }

  lemma NewClient()
    ensures ClientInv(Client(NewSession(), [], 0, []))
  {
  }

  lemma NextKeeps(w: World, e: Event)
    requires Inv(w) && ValidEvent(e)
    ensures Inv(Next(w, e))
  {
    hide ClientInv, LogInv, FileIs, HandleLine, Hear, Written, MailsFor, IsToken;
    if e.Connect? {
      NewClient();
    } else if e.Line? && e.id in w.clients {
      var c := w.clients[e.id];
      SessionKeeps(c, w.files, e.line, e.env);
      LogKeeps(w, c, e.line, e.env);
      FilesKeep(w, c, e.line, e.env);
    }
  }

  /** In every run of any number of sessions: no session is in DATA mode without both addresses, no buffer reaches 4096
      bytes, and every mailbox file is the saved messages, each with exactly the lines its session handled since the
      accepted DATA. */
  lemma {:induction false} AlwaysInv(events: seq<Event>)
    requires forall e :: e in events ==> ValidEvent(e)
    ensures Inv(Run(Initial(), events))
  {
    if events != [] {
      AlwaysInv(events[..|events| - 1]);
      NextKeeps(Run(Initial(), events[..|events| - 1]), events[|events| - 1]);
    }
  }

  // ---------------------------------------------------------------- what each command does

  // The first letters tell the commands apart.
  lemma Dispatch(s: Session, files: Files, arg: string, env: Env)
    requires !s.dataMode
    ensures HandleLine(s, files, "HELO " + arg, env) == HandleHelo(s, files, arg)
    ensures HandleLine(s, files, "MAIL FROM: " + arg, env) == HandleMailFrom(s, files, arg)
    ensures HandleLine(s, files, "RCPT TO: " + arg, env) == HandleRcptTo(s, files, arg)
    ensures HandleLine(s, files, "DATA", env) == HandleData(s, files)
    ensures HandleLine(s, files, "LIST " + arg, env) == HandleList(s, files, arg, env.stale)
    ensures HandleLine(s, files, "GET_MAIL " + arg, env) == HandleGetMail(s, files, arg)
    ensures HandleLine(s, files, "QUIT", env) == Outcome(s, files, Some(Goodbye))
  {
    hide HandleHelo, HandleMailFrom, HandleRcptTo, HandleData, HandleList, HandleGetMail;
    assert ("HELO " + arg)[0] == 'H' && ("HELO " + arg)[5..] == arg;
    assert ("MAIL FROM: " + arg)[0] == 'M' && ("MAIL FROM: " + arg)[11..] == arg;
    assert ("RCPT TO: " + arg)[0] == 'R' && ("RCPT TO: " + arg)[9..] == arg;
    assert ("LIST " + arg)[0] == 'L' && ("LIST " + arg)[5..] == arg;
    assert ("GET_MAIL " + arg)[0] == 'G' && ("GET_MAIL " + arg)[9..] == arg;
    assert "DATA"[0] == 'D' && "QUIT"[0] == 'Q';
    assert "HELO "[0] == 'H' && "MAIL FROM: "[0] == 'M' && "RCPT TO: "[0] == 'R' && "LIST "[0] == 'L';
    assert "GET_MAIL "[0] == 'G';
  }

  /** An address is taken exactly when it has an @, and then replaces the sender after MAIL FROM and the recipient after
      RCPT TO, cut to 99 characters; the answer is 200 exactly when it is taken, and 400 otherwise. */
  lemma AddressTaken(s: Session, files: Files, address: string, env: Env)
    requires !s.dataMode
    ensures var o := HandleLine(s, files, "MAIL FROM: " + address, env);
      && (o.reply == Some(Ok) <==> '@' in address) && (o.reply == Some(InvalidSyntax) <==> '@' !in address)
      && o.files == files && o.session == s.(sender := if '@' in address then Head(address) else s.sender)
    ensures var o := HandleLine(s, files, "RCPT TO: " + address, env);
      && (o.reply == Some(Ok) <==> '@' in address) && (o.reply == Some(InvalidSyntax) <==> '@' !in address)
      && o.files == files && o.session == s.(recipient := if '@' in address then Head(address) else s.recipient)
  {
    hide HandleLine;
    Dispatch(s, files, address, env);
  }

  /** HELO is answered 200 exactly when it names somebody, who is then known by the first 99 characters. */
  lemma HeloAnswered(s: Session, files: Files, name: string, env: Env)
    requires !s.dataMode
    ensures var o := HandleLine(s, files, "HELO " + name, env);
      && (o.reply == Some(Ok) <==> name != "") && (o.reply == Some(InvalidSyntax) <==> name == "")
      && o.files == files && o.session == s.(clientId := if name != "" then Head(name) else s.clientId)
  {
    hide HandleLine;
    Dispatch(s, files, name, env);
  }

  /** DATA is accepted exactly when both addresses are known. */
  lemma DataAccepted(s: Session, files: Files, env: Env)
    requires !s.dataMode
    ensures var o := HandleLine(s, files, "DATA", env);
      && (o.reply == Some(EnterMessage) <==> s.sender != "" && s.recipient != "")
      && (o.reply == Some(Forbidden) <==> s.sender == "" || s.recipient == "")
      && o.files == files && (o.session.dataMode <==> o.reply == Some(EnterMessage))
  {
    hide HandleLine;
    Dispatch(s, files, "", env);
  }

  /** A line that is no command changes nothing and is answered 400. */
  lemma OtherLines(s: Session, files: Files, line: string, env: Env)
    requires !s.dataMode && line != "DATA" && line != "QUIT"
    requires !("HELO " <= line) && !("MAIL FROM: " <= line) && !("RCPT TO: " <= line)
    requires !("LIST " <= line) && !("GET_MAIL " <= line)
    ensures HandleLine(s, files, line, env) == Outcome(s, files, Some(InvalidSyntax))
  {
    hide HandleHelo, HandleMailFrom, HandleRcptTo, HandleData, HandleList, HandleGetMail;
  }

  // ---------------------------------------------------------------- one message from DATA to its mailbox

  function Feed(c: Client, files: Files, lines: seq<string>, env: Env): Client {
    if lines == [] then c else Hear(Feed(c, files, lines[..|lines| - 1], env), files, lines[|lines| - 1], env)
  }

  // A session that has just accepted DATA.
  ghost predicate Fresh(c: Client) {
    Addressed(c) && c.session.dataMode && c.session.buffer == "" && c.dataAt == |c.heard|
  }

  lemma UnlinesPrefix(lines: seq<string>)
    requires lines != []
    ensures Unlines(lines) == Unlines(lines[..|lines| - 1]) + lines[|lines| - 1] + "\n"
  {
    hide Unlines;
    assert lines == lines[..|lines| - 1] + [lines[|lines| - 1]];
    LineAdded(lines[..|lines| - 1], lines[|lines| - 1]);
  }

  /** As long as the whole fits, every line is collected. */
  lemma {:induction false} Collected(c: Client, files: Files, lines: seq<string>, env: Env)
    requires Fresh(c) && "." !in lines && |Unlines(lines)| + 1 < MAX_EMAIL_SIZE
    ensures Feed(c, files, lines, env)
      == Client(c.session.(buffer := Unlines(lines)), c.heard + lines, c.dataAt, c.commands)
  {
    if lines == [] {
      assert c.heard + [] == c.heard;
    } else {
      var init, last := lines[..|lines| - 1], lines[|lines| - 1];
      UnlinesPrefix(lines);
      Collected(c, files, init, env);
      assert last in lines;
      assert c.heard + lines == (c.heard + init) + [last];
      hide ProcessCommand, Unlines;
    }
  }

  // The buffer never holds more than 4094 characters in DATA mode.
  lemma {:induction false} BufferLimit(c: Client, files: Files, lines: seq<string>, env: Env)
    requires Fresh(c)
    ensures Feed(c, files, lines, env).session.dataMode ==>
      |Feed(c, files, lines, env).session.buffer| + 1 < MAX_EMAIL_SIZE
  {
    if lines != [] {
      var before := Feed(c, files, lines[..|lines| - 1], env);
      BufferLimit(c, files, lines[..|lines| - 1], env);
      DataModeLimit(before, files, lines[|lines| - 1], env);
    }
  }

  lemma DataModeLimit(c: Client, files: Files, line: string, env: Env)
    requires c.session.dataMode ==> |c.session.buffer| + 1 < MAX_EMAIL_SIZE
    ensures var s' := Hear(c, files, line, env).session; s'.dataMode ==> |s'.buffer| + 1 < MAX_EMAIL_SIZE
  {
    hide ListFrom, GetMail, ScanTarget, ReadLines, Clip;
  }

  /** From an accepted DATA, any lines without a single dot are all collected, in order, exactly when their text with
      newlines is at most 4094 characters. The dot is then answered as stored in any case; it writes precisely that
      message to the recipient's mailbox exactly when the file can be opened, and otherwise nothing. */
  lemma MessageStored(c: Client, files: Files, lines: seq<string>, env: Env)
    requires Fresh(c) && "." !in lines
    ensures var s := Feed(c, files, lines, env).session;
      s.dataMode && s.buffer == Unlines(lines) <==> |Unlines(lines)| + 1 < MAX_EMAIL_SIZE
    ensures |Unlines(lines)| + 1 < MAX_EMAIL_SIZE ==>
      var d := Feed(c, files, lines, env);
      var stored := Saved(RecipientOf(c.commands), Mail(SenderOf(c.commands), env.date, lines));
      var text := Unlines(MailLines(stored.mail));
      var o := HandleLine(d.session, files, ".", env);
      && o.reply == Some(Stored) && o.session == c.session.(dataMode := false, buffer := Unlines(lines))
      && (env.canOpen <==> o.files == Appended(files, stored.recipient, text))
      && (env.canOpen <==> Written(d, ".", env) == [stored])
      && (!env.canOpen ==> o.files == files && Written(d, ".", env) == [])
  {
    hide HandleLine, Hear, Unlines, MailLines, Printed, Appended;
    BufferLimit(c, files, lines, env);
    if |Unlines(lines)| + 1 < MAX_EMAIL_SIZE {
      Collected(c, files, lines, env);
      var d := Feed(c, files, lines, env);
      assert d.heard[d.dataAt..] == lines;
      var m := Mail(c.session.sender, env.date, lines);
      PrintedLines(m);
      DotAnswered(d.session, files, env);
      MailNotEmpty(m);
      AppendedDiffers(files, c.session.recipient, Unlines(MailLines(m)));
    }
  }

  lemma AppendedDiffers(files: Files, name: string, text: string)
    requires text != ""
    ensures Appended(files, name, text) != files
  {
    assert name in Appended(files, name, text);
    assert |Appended(files, name, text)[name]| > |if name in files then files[name] else ""|;
  }

  lemma MailNotEmpty(m: Mail)
    ensures Unlines(MailLines(m)) != ""
  {
    hide MailLines;
    PrintedLines(m);
  }

  lemma DotAnswered(s: Session, files: Files, env: Env)
    requires s.dataMode
    ensures HandleLine(s, files, ".", env)
      == Outcome(s.(dataMode := false),
                 if env.canOpen then Appended(files, s.recipient, Printed(s.sender, env.date, s.buffer)) else files,
                 Some(Stored))
  {
  }

  /** A line of a message is collected, without an answer, exactly when all lines since DATA still come to at most 4094
      characters with it; otherwise the session leaves DATA mode with an error, and nothing is written. */
  lemma LineCollected(c: Client, files: Files, line: string, env: Env)
    requires ClientInv(c) && c.session.dataMode && line != "."
    ensures var lines := c.heard[c.dataAt..] + [line]; var o := HandleLine(c.session, files, line, env);
      && o.files == files
      && (o.reply == None <==> |Unlines(lines)| <= 4094)
      && (o.reply == None ==> o.session == c.session.(buffer := Unlines(lines)))
      && (o.reply != None ==> o.reply == Some(ServerError) && !o.session.dataMode)
  {
    LineAdded(c.heard[c.dataAt..], line);
    hide Unlines, Lines, Addressed, ProcessCommand, SaveEmail;
  }

  lemma ThreeCommands(c: Client, files: Files, sender: string, recipient: string, env: Env)
    requires !c.session.dataMode && '@' in sender && '@' in recipient
    ensures var d := Feed(c, files, ["MAIL FROM: " + sender, "RCPT TO: " + recipient, "DATA"], env);
      && Fresh(d) && SenderOf(d.commands) == Head(sender) && RecipientOf(d.commands) == Head(recipient)
  {
    var from, to := "MAIL FROM: " + sender, "RCPT TO: " + recipient;
    hide HandleLine, LastAddress;
    FeedThree(c, files, from, to, "DATA", env);
    AddressTaken(c.session, files, sender, env);
    var c1 := Hear(c, files, from, env);
    AddressTaken(c1.session, files, recipient, env);
    var c2 := Hear(c1, files, to, env);
    DataAccepted(c2.session, files, env);
    Dispatch(c2.session, files, "", env);
    var d := Hear(c2, files, "DATA", env);
    AddressesTold(c.commands, sender, recipient);
    assert d.commands == c.commands + [from] + [to] + ["DATA"];
  }

  lemma AddressesTold(commands: seq<string>, sender: string, recipient: string)
    requires '@' in sender && '@' in recipient
    ensures var told := commands + ["MAIL FROM: " + sender] + ["RCPT TO: " + recipient] + ["DATA"];
      SenderOf(told) == Head(sender) && RecipientOf(told) == Head(recipient)
  {
    var from, to := "MAIL FROM: " + sender, "RCPT TO: " + recipient;
    assert from[11..] == sender && to[9..] == recipient;
    assert to[0] == 'R' && "DATA"[0] == 'D' && "MAIL FROM: "[0] == 'M' && "RCPT TO: "[0] == 'R';
    LastAdded("MAIL FROM: ", commands, from);
    LastAdded("MAIL FROM: ", commands + [from], to);
    LastAdded("MAIL FROM: ", commands + [from] + [to], "DATA");
    LastAdded("RCPT TO: ", commands + [from], to);
    LastAdded("RCPT TO: ", commands + [from] + [to], "DATA");
    hide LastAddress;
  }

  lemma FeedThree(c: Client, files: Files, x: string, y: string, z: string, env: Env)
    ensures Feed(c, files, [x, y, z], env) == Hear(Hear(Hear(c, files, x, env), files, y, env), files, z, env)
  {
    hide Hear;
    assert [x, y, z][..2] == [x, y] && [x, y][..1] == [x] && [x][..0] == [];
    assert Feed(c, files, [x], env) == Hear(c, files, x, env);
    assert Feed(c, files, [x, y], env) == Hear(Feed(c, files, [x], env), files, y, env);
  }

  /** A whole message. From any session that is not in DATA mode: MAIL FROM and RCPT TO with two addresses, DATA, lines
      of at most 4094 characters in all, and the dot append this message, with this sender, to this recipient's mailbox.
      */
  lemma MessageSent(c: Client, files: Files, sender: string, recipient: string, lines: seq<string>, env: Env)
    requires !c.session.dataMode && '@' in sender && '@' in recipient
    requires "." !in lines && |Unlines(lines)| <= 4094 && env.canOpen
    ensures var d := Feed(c, files, ["MAIL FROM: " + sender, "RCPT TO: " + recipient, "DATA"], env);
      var o := HandleLine(Feed(d, files, lines, env).session, files, ".", env);
      && o.reply == Some(Stored)
      && var text := "From: " + Head(sender) + "\n" + "Date: " + env.date + "\n" + Unlines(lines) + "---" + "\n";
         o.files == Appended(files, Head(recipient), text)
  {
    hide HandleLine, Hear, Feed, Unlines, MailLines, Appended, Fresh, SenderOf, RecipientOf, Head;
    PrintedLines(Mail(Head(sender), env.date, lines));
    ThreeCommands(c, files, sender, recipient, env);
    MessageStored(Feed(c, files, ["MAIL FROM: " + sender, "RCPT TO: " + recipient, "DATA"], env), files, lines, env);
  }

  // ---------------------------------------------------------------- reading back in any reachable state

  ghost predicate ShortLines(mails: seq<Mail>) {
    forall m :: m in mails ==> forall l :: l in m.body ==> |l| <= 1022
  }

  lemma TokenHasNoNewline(l: string)
    requires IsToken(l)
    ensures '\n' !in l
  {
    forall i | 0 <= i < |l| ensures l[i] != '\n' {
      assert !IsBreak(l[i]);
    }
  }

  lemma MailLineKinds(m: Mail, l: string)
    requires MailInv(m) && l in MailLines(m)
    ensures '\n' !in l && (|l| > MAX_LINE ==> l in m.body)
  {
    if l in m.body {
      TokenHasNoNewline(l);
    } else if l == FROM + m.sender {
      TokenHasNoNewline(m.sender);
    } else if l == DATE + m.date {
      forall c | c in m.date ensures c != '\n' {
        var i :| 0 <= i < |m.date| && m.date[i] == c;
        assert !IsSpace(m.date[i]);
      }
    }
  }

  lemma {:induction false} LineFrom(mails: seq<Mail>, l: string) returns (m: Mail)
    requires l in AllLines(mails)
    ensures m in mails && l in MailLines(m)
  {
    m := mails[0];
    if l !in MailLines(m) {
      m := LineFrom(mails[1..], l);
    }
  }

  lemma {:induction false} BodyAmong(mails: seq<Mail>, m: Mail, l: string)
    requires m in mails && l in m.body
    ensures l in AllLines(mails)
  {
    if m == mails[0] {
      assert l in MailLines(m);
    } else {
      BodyAmong(mails[1..], m, l);
    }
  }

  lemma {:induction false} SavedMail(log: seq<Saved>, name: string, m: Mail)
    requires LogInv(log) && m in MailsFor(log, name)
    ensures MailInv(m)
  {
    var last := log[|log| - 1];
    if m in MailsFor(log[..|log| - 1], name) {
      SavedMail(log[..|log| - 1], name, m);
    } else {
      assert last in log && m == last.mail;
    }
  }

  /** In every reachable state a mailbox file is read as the very lines of its saved messages exactly when no body line
      is longer than 1022 characters. */
  lemma FileReadBack(w: World, name: string)
    requires Inv(w) && name in w.files
    ensures ReadLines(w.files[name]) == AllLines(MailsFor(w.log, name)) <==> ShortLines(MailsFor(w.log, name))
  {
    var mails := MailsFor(w.log, name);
    var lines := AllLines(mails);
    assert FileIs(w.files, name, mails);
    hide FileIs, AllLines, MailLines, MailInv, LogInv, MailsFor, ReadLines, Unlines;
    forall l | l in lines ensures '\n' !in l && (|l| > MAX_LINE ==> !ShortLines(mails)) {
      var m := LineFrom(mails, l);
      SavedMail(w.log, name, m);
      MailLineKinds(m, l);
    }
    ReadBack(lines);
    if !ShortLines(mails) {
      var m, l :| m in mails && l in m.body && |l| > MAX_LINE;
      BodyAmong(mails, m, l);
    }
  }

  lemma {:induction false} LinesSize(before: seq<string>, body: seq<string>)
    ensures AnswerSize(before + body) == AnswerSize(before) + |Unlines(body)| + |body|
    decreases |body|
  {
    if body == [] {
      assert before + body == before;
    } else {
      var n := |body| - 1;
      assert (before + body)[..|before + body| - 1] == before + body[..n];
      LinesSize(before, body[..n]);
      UnlinesPrefix(body);
    }
  }

  lemma ContentSize(m: Mail)
    ensures AnswerSize(Content(m)) == 24 + |m.sender| + |m.date| + |Unlines(m.body)| + |m.body|
  {
    var from, date := FROM + m.sender, DATE + m.date;
    LinesSize([from, date], m.body);
    assert [from, date][..1] == [from] && [from][..0] == [];
    assert AnswerSize([]) == 8;
    assert AnswerSize([from]) == 8 + |from| + 2;
    assert Content(m) == [from, date] + m.body;
  }

  // What handle_get_mail answers for message id of a tidy mailbox.
  function Expected(mails: seq<Mail>, id: nat): Response
    requires id > 0
  {
    if id > |mails| then NotFound
    else
      var m := mails[id - 1];
      if 24 + |m.sender| + |m.date| + |Unlines(m.body)| + |m.body| < 4096 then Message(Content(m))
      else Overrun
  }

  /** In every reachable state, for a recipient whose messages are tidy, with lines of at most 1022 characters: LIST
      answers one entry a message, and not found exactly when there was never a message. GET_MAIL answers with exactly
      the message of that entry, and not found exactly beyond the last, except that the answer overruns a buffer exactly
      when the address has 100 characters or more, or when the message's addresses, date, text and number of lines come
      to 4072 or more. */
  lemma MailboxAnswers(w: World, s: Session, name: string, args: string, id: int, env: Env)
    requires Inv(w) && !s.dataMode && ValidEmail(name)
    requires ShortLines(MailsFor(w.log, name)) && forall m :: m in MailsFor(w.log, name) ==> Tidy(m)
    requires ScanTarget(args) == Some((name, id)) && id > 0
    ensures var mails := MailsFor(w.log, name);
      && HandleLine(s, w.files, "LIST " + name, env).reply
        == Some(if mails == [] then NotFound else Listing(Entries(mails, 0)))
      && HandleLine(s, w.files, "GET_MAIL " + args, env).reply
        == Some(if |name| >= 100 then Overrun else Expected(mails, id))
  {
    hide HandleLine, HandleList, HandleGetMail, MailsFor, Entries, Expected, ScanTarget, ShortLines, Tidy, Inv;
    hide ValidEmail;
    Dispatch(s, w.files, name, env);
    Dispatch(s, w.files, args, env);
    MailboxExists(w, name);
    TargetWord(args, name, id);
    if MailsFor(w.log, name) == [] {
      NoMailbox(s, w.files, name, args, id, env.stale);
      assert Expected([], id) == NotFound by {
        NoneExpected(id);
      }
    } else {
      MailboxName(w, name);
      FilledMailbox(w, s, name, args, id, env.stale);
    }
  }

  /** In every reachable state, whatever the messages hold: LIST refuses exactly a name without an @, and answers not
      found exactly when nothing was ever saved for an address; GET_MAIL then answers the same. */
  lemma NotFoundExactly(w: World, s: Session, name: string, args: string, id: int, env: Env)
    requires Inv(w) && !s.dataMode
    ensures var reply := HandleLine(s, w.files, "LIST " + name, env).reply;
      && (reply == Some(InvalidSyntax) <==> '@' !in name)
      && (reply == Some(NotFound) <==> '@' in name && MailsFor(w.log, name) == [])
    ensures ScanTarget(args) == Some((name, id)) && id > 0 && '@' in name && MailsFor(w.log, name) == [] && |name| < 100
      ==> HandleLine(s, w.files, "GET_MAIL " + args, env).reply == Some(NotFound)
  {
    hide HandleLine, MailsFor, ScanTarget, Inv, HandleGetMail, ListFrom, ReadLines;
    Dispatch(s, w.files, name, env);
    Dispatch(s, w.files, args, env);
    MailboxExists(w, name);
    if ScanTarget(args) == Some((name, id)) && id > 0 && ValidEmail(name) && MailsFor(w.log, name) == [] {
      TargetWord(args, name, id);
      NoMailbox(s, w.files, name, args, id, env.stale);
    }
  }

  lemma NoneExpected(id: nat)
    requires id > 0
    ensures Expected([], id) == NotFound
  {
  }

  lemma MailboxExists(w: World, name: string)
    requires Inv(w)
    ensures name in w.files <==> MailsFor(w.log, name) != []
  {
    assert FileIs(w.files, name, MailsFor(w.log, name));
  }

  lemma NoMailbox(s: Session, files: Files, name: string, args: string, id: int, stale: string)
    requires name !in files && ValidEmail(name) && ScanTarget(args) == Some((name, id)) && id > 0
    requires FirstWord(args) == name
    ensures HandleList(s, files, name, stale).reply == Some(NotFound)
    ensures HandleGetMail(s, files, args).reply == Some(if |name| >= 100 then Overrun else NotFound)
  {
    hide ScanTarget, FirstWord, GetMail, ListFrom, ReadLines;
  }

  lemma FilledMailbox(w: World, s: Session, name: string, args: string, id: int, stale: string)
    requires Inv(w) && name in w.files && ValidEmail(name)
    requires ShortLines(MailsFor(w.log, name)) && forall m :: m in MailsFor(w.log, name) ==> Tidy(m)
    requires ScanTarget(args) == Some((name, id)) && id > 0
    ensures var mails := MailsFor(w.log, name);
      && HandleList(s, w.files, name, stale).reply == Some(Listing(Entries(mails, 0)))
      && HandleGetMail(s, w.files, args).reply == Some(Expected(mails, id))
  {
    hide IsDate, Listable, Tidy, Inv, MailsFor, ShortLines, AllLines, ReadLines, ListFrom, GetMail, ScanTarget, Content;
    hide HandleList, HandleGetMail, ValidEmail, Unlines, AnswerSize, FirstWord;
    var mails := MailsFor(w.log, name);
    FileReadBack(w, name);
    LogHolds(w);
    forall m | m in mails ensures IsDate(m.date) && Listable(m.body) {
      SavedMail(w.log, name, m);
      DateHolds(m);
      TidyListable(m);
    }
    MailboxName(w, name);
    TargetWord(args, name, id);
    Replies(s, w.files, name, args, id, stale);
    ListExact(mails, stale);
    ReadersAgree(mails, id, stale);
    if id <= |mails| {
      ContentSize(mails[id - 1]);
    }
  }

  // Every mailbox has the name of some recipient.
  lemma MailboxName(w: World, name: string)
    requires Inv(w) && name in w.files
    ensures |name| <= MAX_NAME
  {
    assert FileIs(w.files, name, MailsFor(w.log, name));
    NameLogged(w.log, name);
  }

  lemma {:induction false} NameLogged(log: seq<Saved>, name: string)
    requires LogInv(log)
    ensures MailsFor(log, name) != [] ==> IsName(name)
  {
    if log != [] {
      var last := log[|log| - 1];
      assert last in log;
      NameLogged(log[..|log| - 1], name);
    }
  }

  lemma TargetWord(args: string, name: string, id: int)
    requires ScanTarget(args) == Some((name, id))
    ensures FirstWord(args) == name
  {
  }

  lemma LogHolds(w: World)
    requires Inv(w)
    ensures LogInv(w.log)
  {
  }

  lemma DateHolds(m: Mail)
    requires MailInv(m)
    ensures IsDate(m.date)
  {
  }

  lemma Replies(s: Session, files: Files, name: string, args: string, id: int, stale: string)
    requires name in files && ValidEmail(name) && ScanTarget(args) == Some((name, id)) && id > 0
    requires FirstWord(args) == name && |name| <= MAX_NAME
    ensures HandleList(s, files, name, stale).reply == Some(Listing(ListFrom(ReadLines(files[name]), 0, false, stale)))
    ensures HandleGetMail(s, files, args).reply
      == match GetMail(ReadLines(files[name]), id) {
           case None => Some(NotFound)
           case Some(lines) => Some(Answer(lines))
         }
  {
    hide ScanTarget, FirstWord, GetMail, ListFrom, ReadLines;
  }

  lemma TidyListable(m: Mail)
    requires Tidy(m)
    ensures Listable(m.body)
  {
    forall j, k ensures !SeparatorThenFrom(m.body, j, k) {
    }
  }

  // ---------------------------------------------------------------- GET_MAIL's argument

  /** The decimal numeral of a number. */
  function Decimal(n: nat): (d: string)
    ensures d != "" && forall i :: 0 <= i < |d| ==> IsDigit(d[i])
  {
    var digit := ['0' + (n % 10) as char];
    if n < 10 then digit else Decimal(n / 10) + digit
  }

  lemma {:induction false} DecimalValue(n: nat)
    ensures Value(Decimal(n)) == n
  {
    var d := Decimal(n);
    if n < 10 {
      assert d[..|d| - 1] == "";
    } else {
      DecimalValue(n / 10);
      assert d[..|d| - 1] == Decimal(n / 10);
    }
  }

  lemma {:induction false} WholeWord(w: string, t: string)
    requires forall i :: 0 <= i < |w| ==> !IsSpace(w[i])
    requires t == "" || IsSpace(t[0])
    ensures WordLength(w + t) == |w|
  {
    if w == "" {
      assert w + t == t;
    } else {
      assert (w + t)[1..] == w[1..] + t;
      WholeWord(w[1..], t);
    }
  }

  lemma {:induction false} AllDigits(d: string)
    requires forall i :: 0 <= i < |d| ==> IsDigit(d[i])
    ensures DigitsLength(d) == |d|
  {
    if d != "" {
      AllDigits(d[1..]);
    }
  }

  lemma SpaceSkipped(d: string)
    requires d != "" && !IsSpace(d[0])
    ensures SkipSpaces(" " + d) == d && SkipSpaces(d) == d
  {
    assert (" " + d)[1..] == d;
  }

  lemma DigitNotSpace(c: char)
    requires IsDigit(c)
    ensures !IsSpace(c) && c != '-' && c != '+'
  {
  }

  /** An address without white space and a number, written one after the other, are read back by sscanf. GET_MAIL then
      overruns a buffer exactly when the address has 100 characters or more or the message it finds is too long, and
      refuses exactly a shorter address without an @, or the number 0. */
  lemma TargetScanned(s: Session, files: Files, name: string, id: nat)
    requires name != "" && forall i :: 0 <= i < |name| ==> !IsSpace(name[i])
    ensures var args := name + " " + Decimal(id);
      && ScanTarget(args) == Some((name, id)) && FirstWord(args) == name
      && (HandleGetMail(s, files, args).reply == Some(Overrun) <==>
            || |name| >= 100
            || (ValidEmail(name) && id > 0 && name in files
                && exists lines :: GetMail(ReadLines(files[name]), id) == Some(lines)
                                   && AnswerSize(lines) >= 4096))
      && (HandleGetMail(s, files, args).reply == Some(InvalidSyntax) <==> |name| < 100 && ('@' !in name || id == 0))
  {
    ScannedBack(name, "", id);
    assert name + " " + "" + Decimal(id) == name + " " + Decimal(id);
    hide ScanTarget, FirstWord, GetMail, ReadLines, Decimal;
  }

  /** The number may carry a sign; a negative one is refused, and so is an address without a number. */
  lemma NegativeRefused(s: Session, files: Files, name: string, id: nat)
    requires name != "" && |name| < 100 && forall i :: 0 <= i < |name| ==> !IsSpace(name[i])
    ensures HandleGetMail(s, files, name + " " + "-" + Decimal(id)).reply == Some(InvalidSyntax)
    ensures HandleGetMail(s, files, name).reply == Some(InvalidSyntax)
  {
    ScannedBack(name, "-", id);
    NameAlone(name);
    hide ScanTarget, FirstWord, GetMail, ReadLines, Decimal;
  }

  lemma NameAlone(name: string)
    requires name != "" && forall i :: 0 <= i < |name| ==> !IsSpace(name[i])
    ensures ScanTarget(name) == None && FirstWord(name) == name
  {
    hide Value, IsSpace, SkipSpaces, WordLength;
    assert name + "" == name;
    WholeWord(name, "");
    SpaceSkipped(name);
    NothingSkipped();
    assert name[..|name|] == name && name[|name|..] == "";
  }

  lemma NothingSkipped()
    ensures SkipSpaces("") == ""
  {
  }

  lemma ScannedBack(name: string, sign: string, id: nat)
    requires name != "" && forall i :: 0 <= i < |name| ==> !IsSpace(name[i])
    requires sign == "" || sign == "-" || sign == "+"
    ensures var args := name + " " + sign + Decimal(id); var value := if sign == "-" then 0 - id as int else id as int;
      ScanTarget(args) == Some((name, value)) && FirstWord(args) == name
  {
    hide Decimal, Value, IsSpace, IsDigit, SkipSpaces, WordLength, DigitsLength;
    var d := Decimal(id);
    var number := sign + d;
    var args := name + " " + sign + d;
    assert args == name + (" " + number);
    SpaceIsSpace();
    assert (" " + number)[0] == ' ';
    WholeWord(name, " " + number);
    assert args[0] == name[0];
    SpaceSkipped(args);
    DigitNotSpace(d[0]);
    assert sign == "" ==> number == d;
    assert sign != "" ==> number[0] == sign[0] && number[1..] == d;
    SpaceSkipped(number);
    assert args[|name|..] == " " + number;
    assert args[..|name|] == name;
    AllDigits(d);
    DecimalValue(id);
    assert d[..|d|] == d;
  }

  lemma SpaceIsSpace()
    ensures IsSpace(' ') && !IsSpace('-') && !IsSpace('+')
  {
  }
}
