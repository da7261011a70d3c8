/** client_session and its handlers, updating the session and the mailbox directory in place. */
module MailServer {
  import opened Common
  import opened MailText
  import opened MailReaders
  import opened MailSession

  // The mailbox directory, shared by all sessions.
  class MailStore {
    var files: Files

    constructor ()
      ensures files == map[]
    {
      files := map[];
    }
  }

  /** client_session: its fields, and the handlers that update them. */
  class ClientSession {
    var clientId: string
    var sender: string
    var recipient: string
    var isDataMode: bool
    var dataBuffer: string
    const store: MailStore

    ghost function State(): Session
      reads this
    {
      Session(clientId, sender, recipient, isDataMode, dataBuffer)
    }

    constructor (store: MailStore)
      ensures State() == NewSession() && this.store == store
    {
      clientId, sender, recipient, isDataMode, dataBuffer := "", "", "", false, "";
      this.store := store;
    }

    method SaveEmail(env: Env)
      modifies store
      ensures store.files == MailSession.SaveEmail(State(), old(store.files), env)
    {
      if !env.canOpen {
        return;
      }
      var text := FROM + sender + "\n";
      text := text + DATE + env.date + "\n";
      text := text + dataBuffer;
      text := text + SEPARATOR + "\n";
      assert text == Printed(sender, env.date, dataBuffer);
      store.files := Appended(store.files, recipient, text);
    }

    method HandleDataContent(line: string, env: Env) returns (reply: Option<Response>)
      requires isDataMode
      modifies this, store
      ensures Outcome(State(), store.files, reply)
        == MailSession.HandleDataContent(old(State()), old(store.files), line, env)
    {
      if line == "." {
        isDataMode := false;
        SaveEmail(env);
        return Some(Stored);
      }
      var currentLength := |dataBuffer|;
      if currentLength + |line| + 2 < MAX_EMAIL_SIZE {
        dataBuffer := dataBuffer + line;
        dataBuffer := dataBuffer + "\n";
        reply := None;
      } else {
        isDataMode := false;
        reply := Some(ServerError);
      }
    }

    method HandleData() returns (reply: Response)
      modifies this
      ensures Outcome(State(), store.files, Some(reply)) == MailSession.HandleData(old(State()), store.files)
    {
      if |sender| == 0 || |recipient| == 0 {
        return Forbidden;
      }
      isDataMode := true;
      dataBuffer := "";
      reply := EnterMessage;
    }

    method HandleList(args: string, stale: string) returns (reply: Response)
      ensures Outcome(State(), store.files, Some(reply)) == MailSession.HandleList(State(), store.files, args, stale)
    {
      if !ValidEmail(args) {
        return InvalidSyntax;
      }
      if args !in store.files {
        return NotFound;
      }
      var entries := List(store.files[args], stale);
      reply := Listing(entries);
    }

    method HandleGetMail(args: string) returns (reply: Response)
      ensures Outcome(State(), store.files, Some(reply)) == MailSession.HandleGetMail(State(), store.files, args)
    {
      if |FirstWord(args)| > MAX_NAME {
        return Overrun;
      }
      match ScanTarget(args) {
        case None =>
          return InvalidSyntax;
        case Some((email, id)) =>
          if !ValidEmail(email) || id <= 0 {
            return InvalidSyntax;
          }
          if email !in store.files {
            return NotFound;
          }
          var response := Get(store.files[email], id);
          reply := if response.Some? then Answer(response.value) else NotFound;
      }
    }

    method ProcessCommand(line: string, env: Env) returns (reply: Response)
      modifies this
      ensures Outcome(State(), store.files, Some(reply))
        == MailSession.ProcessCommand(old(State()), store.files, line, env)
    {
      if "HELO " <= line {
        if |line| > 5 {
          clientId := Clip(line[5..]);
          reply := Ok;
        } else {
          reply := InvalidSyntax;
        }
      } else if "MAIL FROM: " <= line {
        if ValidEmail(line[11..]) {
          sender := Clip(line[11..]);
          reply := Ok;
        } else {
          reply := InvalidSyntax;
        }
      } else if "RCPT TO: " <= line {
        if ValidEmail(line[9..]) {
          recipient := Clip(line[9..]);
          reply := Ok;
        } else {
          reply := InvalidSyntax;
        }
      } else if line == "DATA" {
        reply := HandleData();
      } else if "LIST " <= line {
        reply := HandleList(line[5..], env.stale);
      } else if "GET_MAIL " <= line {
        reply := HandleGetMail(line[9..]);
      } else if line == "QUIT" {
        reply := Goodbye;
      } else {
        reply := InvalidSyntax;
      }
    }

    method HandleLine(line: string, env: Env) returns (reply: Option<Response>)
      modifies this, store
      ensures Outcome(State(), store.files, reply) == MailSession.HandleLine(old(State()), old(store.files), line, env)
    {
      if isDataMode {
        reply := HandleDataContent(line, env);
      } else {
        var r := ProcessCommand(line, env);
        reply := Some(r);
      }
    }

    /** The strtok loop of handle_client over one received chunk, while no other thread calls strtok. */
    method HandleChunk(chunk: string, env: nat -> Env) returns (replies: seq<Response>)
      modifies this, store
      ensures (State(), store.files, replies) == HandleLines(old(State()), old(store.files), Tokens(chunk), env, 0)
    {
      replies := [];
      var k := 0;
      var rest := SkipBreaks(chunk);
      ghost var last := HandleLines(State(), store.files, Tokens(chunk), env, 0);
      SkipTwice(chunk);
      HandleNone(last.2, State(), store.files, env, 0);
      hide HandleLines, MailSession.HandleLine, Tokens, SkipBreaks, TokenLength;
      while rest != ""
        invariant rest == SkipBreaks(rest)
        invariant var now := HandleLines(State(), store.files, Tokens(rest), env, k);
          (now.0, now.1, replies + now.2) == last
        decreases |rest|
      {
        NextToken(rest);
        HandleFirst(replies, State(), store.files, Tokens(rest), env, k);
        assert replies + [] == replies;
        var n := TokenLength(rest);
        var reply := HandleLine(rest[..n], env(k));
        if reply.Some? {
          replies := replies + [reply.value];
        }
        k := k + 1;
        rest := SkipBreaks(rest[n..]);
      }
      HandleNone(replies, State(), store.files, env, k);
      NoTokens();
    }
  }
}
