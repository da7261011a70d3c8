/** The command and DATA state machine of one SMTP client session. */
module MailSession {
  import opened Common
  import opened MailText
  import opened MailReaders

  // sizeof(sender) - 1, sizeof(recipient) - 1, sizeof(client_id) - 1
  const MAX_NAME: int := 99
  const MAX_EMAIL_SIZE: int := 4096

  datatype Session = Session(clientId: string, sender: string, recipient: string, dataMode: bool, buffer: string)

  // Mailbox files by recipient; save_email appends.
  type Files = map<string, string>

  /** Overrun stands for a word or an answer that does not fit a buffer of handle_get_mail: sscanf or strcat runs past
      its end, and from there on the behaviour is undefined. */
  datatype Response =
    | Ok | InvalidSyntax | NotFound | Forbidden | ServerError | EnterMessage | Stored | Goodbye
    | Listing(entries: seq<Entry>)
    | Message(lines: seq<string>)
    | Overrun

  /** What the process finds around it when it handles a line: today's date, whether fopen for appending succeeds, and
      what an uninitialised date buffer holds. */
  datatype Env = Env(date: string, canOpen: bool, stale: string)

  datatype Outcome = Outcome(session: Session, files: Files, reply: Option<Response>)

  function NewSession(): Session {
    Session("", "", "", false, "")
  }

  // strncpy into a zeroed array of MAX_NAME + 1.
  function Clip(s: string): (r: string)
    ensures |r| <= MAX_NAME && r <= s && (s != "" ==> r != "")
  {
    if |s| <= MAX_NAME then s else s[..MAX_NAME]
  }

  predicate ValidEmail(email: string) {
    '@' in email
  }

  // ---------------------------------------------------------------- GET_MAIL's arguments

  predicate IsDigit(c: char) {
    '0' <= c <= '9'
  }

  function DigitsLength(s: string): (n: nat)
    ensures n <= |s|
    ensures forall i :: 0 <= i < n ==> IsDigit(s[i])
    ensures n < |s| ==> !IsDigit(s[n])
  {
    if s == "" || !IsDigit(s[0]) then 0 else 1 + DigitsLength(s[1..])
  }

  function DigitValue(c: char): nat
    requires IsDigit(c)
  {
    c as int - '0' as int
  }

  function Value(digits: string): nat
    requires forall i :: 0 <= i < |digits| ==> IsDigit(digits[i])
  {
    if digits == "" then 0 else 10 * Value(digits[..|digits| - 1]) + DigitValue(digits[|digits| - 1])
  }

  /** What sscanf writes to email, an array of MAX_NAME + 1. */
  function FirstWord(args: string): string {
    var s := SkipSpaces(args);
    s[..WordLength(s)]
  }

  /** sscanf(args, "%s %d", email, &id) */
  function ScanTarget(args: string): Option<(string, int)> {
    var s := SkipSpaces(args);
    if s == "" then None
    else
      var n := WordLength(s);
      var t := SkipSpaces(s[n..]);
      var negative := t != "" && t[0] == '-';
      var u := if t != "" && (t[0] == '-' || t[0] == '+') then t[1..] else t;
      var d := DigitsLength(u);
      var value: int := Value(u[..d]);
      if d == 0 then None else Some((FirstWord(args), if negative then -value else value))
  }

  // ---------------------------------------------------------------- one line

  function HandleHelo(s: Session, files: Files, args: string): Outcome {
    if args != "" then Outcome(s.(clientId := Clip(args)), files, Some(Ok)) else Outcome(s, files, Some(InvalidSyntax))
  }

  function HandleMailFrom(s: Session, files: Files, args: string): Outcome {
    if ValidEmail(args) then Outcome(s.(sender := Clip(args)), files, Some(Ok))
    else Outcome(s, files, Some(InvalidSyntax))
  }

  function HandleRcptTo(s: Session, files: Files, args: string): Outcome {
    if ValidEmail(args) then Outcome(s.(recipient := Clip(args)), files, Some(Ok))
    else Outcome(s, files, Some(InvalidSyntax))
  }

  function HandleData(s: Session, files: Files): Outcome {
    if s.sender == "" || s.recipient == "" then Outcome(s, files, Some(Forbidden))
    else Outcome(s.(dataMode := true, buffer := ""), files, Some(EnterMessage))
  }

  function HandleList(s: Session, files: Files, args: string, stale: string): Outcome {
    if !ValidEmail(args) then Outcome(s, files, Some(InvalidSyntax))
    else if args !in files then Outcome(s, files, Some(NotFound))
    else Outcome(s, files, Some(Listing(ListFrom(ReadLines(files[args]), 0, false, stale))))
  }

  // strlen of the answer: the status line and each line with a carriage return and a newline.
  function AnswerSize(lines: seq<string>): nat {
    if lines == [] then |"200 OK\r\n"| else AnswerSize(lines[..|lines| - 1]) + |lines[|lines| - 1]| + 2
  }

  // The answer with its terminating NUL in a buffer of MAX_EMAIL_SIZE.
  function Answer(lines: seq<string>): Response {
    if AnswerSize(lines) < MAX_EMAIL_SIZE then Message(lines) else Overrun
  }

  function HandleGetMail(s: Session, files: Files, args: string): Outcome {
    if |FirstWord(args)| > MAX_NAME then Outcome(s, files, Some(Overrun))
    else match ScanTarget(args) {
      case None => Outcome(s, files, Some(InvalidSyntax))
      case Some((email, id)) =>
        if !ValidEmail(email) || id <= 0 then Outcome(s, files, Some(InvalidSyntax))
        else if email !in files then Outcome(s, files, Some(NotFound))
        else match GetMail(ReadLines(files[email]), id) {
          case None => Outcome(s, files, Some(NotFound))
          case Some(lines) => Outcome(s, files, Some(Answer(lines)))
        }
    }
  }

  function ProcessCommand(s: Session, files: Files, line: string, env: Env): Outcome {
    if "HELO " <= line then HandleHelo(s, files, line[5..])
    else if "MAIL FROM: " <= line then HandleMailFrom(s, files, line[11..])
    else if "RCPT TO: " <= line then HandleRcptTo(s, files, line[9..])
    else if line == "DATA" then HandleData(s, files)
    else if "LIST " <= line then HandleList(s, files, line[5..], env.stale)
    else if "GET_MAIL " <= line then HandleGetMail(s, files, line[9..])
    else if line == "QUIT" then Outcome(s, files, Some(Goodbye))
    else Outcome(s, files, Some(InvalidSyntax))
  }

  function Appended(files: Files, name: string, text: string): Files {
    files[name := (if name in files then files[name] else "") + text]
  }

  /** save_email: nothing is written when the file cannot be opened, and the session is not told. */
  function SaveEmail(s: Session, files: Files, env: Env): Files {
    if env.canOpen then Appended(files, s.recipient, Printed(s.sender, env.date, s.buffer)) else files
  }

  function HandleDataContent(s: Session, files: Files, line: string, env: Env): Outcome {
    if line == "." then Outcome(s.(dataMode := false), SaveEmail(s, files, env), Some(Stored))
    else if |s.buffer| + |line| + 2 < MAX_EMAIL_SIZE then Outcome(s.(buffer := s.buffer + line + "\n"), files, None)
    else Outcome(s.(dataMode := false), files, Some(ServerError))
  }

  function HandleLine(s: Session, files: Files, line: string, env: Env): Outcome {
    if s.dataMode then HandleDataContent(s, files, line, env) else ProcessCommand(s, files, line, env)
  }

  // ---------------------------------------------------------------- strtok

  predicate IsBreak(c: char) {
    c == '\r' || c == '\n'
  }

  // A line as strtok delivers it.
  predicate IsToken(line: string) {
    line != "" && forall i :: 0 <= i < |line| ==> !IsBreak(line[i])
  }

  function SkipBreaks(s: string): (r: string)
    ensures |r| <= |s|
    ensures r != "" ==> !IsBreak(r[0])
  {
    if s != "" && IsBreak(s[0]) then SkipBreaks(s[1..]) else s
  }

  function TokenLength(s: string): (n: nat)
    ensures n <= |s|
    ensures forall i :: 0 <= i < n ==> !IsBreak(s[i])
    ensures s != "" && !IsBreak(s[0]) ==> n > 0
  {
    if s == "" || IsBreak(s[0]) then 0 else 1 + TokenLength(s[1..])
  }

  /** The lines of one received chunk. */
  function Tokens(chunk: string): (lines: seq<string>)
    ensures forall l :: l in lines ==> IsToken(l) && |l| <= |chunk|
    decreases |chunk|
  {
    var s := SkipBreaks(chunk);
    if s == "" then []
    else
      var n := TokenLength(s);
      [s[..n]] + Tokens(s[n..])
  }

  /** The state and the replies after the lines of a chunk, the k-th of them handled in env(k). */
  function HandleLines(s: Session, files: Files, lines: seq<string>, env: nat -> Env, k: nat)
    : (Session, Files, seq<Response>)
    decreases |lines|
  {
    if lines == [] then (s, files, [])
    else
      var o := HandleLine(s, files, lines[0], env(k));
      var (s', files', replies) := HandleLines(o.session, o.files, lines[1..], env, k + 1);
      (s', files', (if o.reply.Some? then [o.reply.value] else []) + replies)
  }

  /** Lines are handled one after the other, each in the state the lines before it left; the answers come in the same
      order. */
  lemma {:induction false} HandledInTurn(
    s: Session, files: Files, before: seq<string>, line: string, env: nat -> Env, k: nat)
    ensures var (s1, files1, replies) := HandleLines(s, files, before, env, k);
      var o := HandleLine(s1, files1, line, env(k + |before|));
      HandleLines(s, files, before + [line], env, k)
        == (o.session, o.files, replies + if o.reply.Some? then [o.reply.value] else [])
    decreases |before|
  {
    hide HandleLine;
    if before == [] {
      assert before + [line] == [line];
      var o := HandleLine(s, files, line, env(k));
      var said := if o.reply.Some? then [o.reply.value] else [];
      assert said + [] == [] + said;
    } else {
      var o := HandleLine(s, files, before[0], env(k));
      assert (before + [line])[1..] == before[1..] + [line];
      HandledInTurn(o.session, o.files, before[1..], line, env, k + 1);
      var said := if o.reply.Some? then [o.reply.value] else [];
      var (s1, files1, replies) := HandleLines(o.session, o.files, before[1..], env, k + 1);
      var last := HandleLine(s1, files1, line, env(k + |before|));
      var saidLast := if last.reply.Some? then [last.reply.value] else [];
      assert said + (replies + saidLast) == (said + replies) + saidLast;
    }
  }

  lemma {:induction false} SkipTwice(s: string)
    ensures SkipBreaks(SkipBreaks(s)) == SkipBreaks(s)
    ensures Tokens(SkipBreaks(s)) == Tokens(s)
  {
    if s != "" && IsBreak(s[0]) {
      SkipTwice(s[1..]);
    }
  }

  lemma NoTokens()
    ensures Tokens("") == []
  {
  }

  /** One strtok call: the line it returns and the lines that remain. */
  lemma NextToken(s: string)
    requires s != "" && SkipBreaks(s) == s
    ensures 0 < TokenLength(s)
    ensures Tokens(s) != [] && Tokens(s)[0] == s[..TokenLength(s)]
    ensures Tokens(s)[1..] == Tokens(SkipBreaks(s[TokenLength(s)..]))
    ensures SkipBreaks(SkipBreaks(s[TokenLength(s)..])) == SkipBreaks(s[TokenLength(s)..])
  {
    SkipTwice(s[TokenLength(s)..]);
  }

  lemma HandleFirst(before: seq<Response>, s: Session, files: Files, lines: seq<string>, env: nat -> Env, k: nat)
    requires lines != []
    ensures var o := HandleLine(s, files, lines[0], env(k));
      var after := before + (if o.reply.Some? then [o.reply.value] else []);
      var rest := HandleLines(o.session, o.files, lines[1..], env, k + 1);
      var whole := HandleLines(s, files, lines, env, k);
      (whole.0, whole.1, before + whole.2) == (rest.0, rest.1, after + rest.2)
  {
    hide HandleLine;
    var o := HandleLine(s, files, lines[0], env(k));
    var said := if o.reply.Some? then [o.reply.value] else [];
    var rest := HandleLines(o.session, o.files, lines[1..], env, k + 1);
    assert before + (said + rest.2) == (before + said) + rest.2;
  }

  lemma HandleNone(before: seq<Response>, s: Session, files: Files, env: nat -> Env, k: nat)
    ensures HandleLines(s, files, [], env, k) == (s, files, [])
    ensures before + [] == before && [] + before == before
  {
  }

  // ---------------------------------------------------------------- what strtok delivers

  predicate AllBreaks(s: string) {
    forall i :: 0 <= i < |s| ==> IsBreak(s[i])
  }

  /** Lines with separators around them: at least one break between two lines, any number before and after. */
  predicate Separators(breaks: seq<string>, lines: seq<string>) {
    && |breaks| == |lines| + 1
    && (forall i :: 0 <= i < |breaks| ==> AllBreaks(breaks[i]))
    && (forall i :: 0 < i < |lines| ==> breaks[i] != "")
  }

  function Weave(breaks: seq<string>, lines: seq<string>): string
    requires |breaks| == |lines| + 1
    decreases |lines|
  {
    if lines == [] then breaks[0] else breaks[0] + lines[0] + Weave(breaks[1..], lines[1..])
  }

  lemma {:induction false} SkipAll(b: string, s: string)
    requires AllBreaks(b)
    ensures SkipBreaks(b + s) == SkipBreaks(s)
  {
    if b == "" {
      assert b + s == s;
    } else {
      assert (b + s)[1..] == b[1..] + s;
      SkipAll(b[1..], s);
    }
  }

  lemma {:induction false} WholeToken(line: string, s: string)
    requires forall i :: 0 <= i < |line| ==> !IsBreak(line[i])
    requires s == "" || IsBreak(s[0])
    ensures TokenLength(line + s) == |line|
  {
    if line == "" {
      assert line + s == s;
    } else {
      assert (line + s)[1..] == line[1..] + s;
      WholeToken(line[1..], s);
    }
  }

  /** strtok finds exactly the lines of a chunk, whatever the breaks between and around them. */
  lemma {:induction false} TokensOfWeave(breaks: seq<string>, lines: seq<string>)
    requires Separators(breaks, lines) && forall l :: l in lines ==> IsToken(l)
    ensures Tokens(Weave(breaks, lines)) == lines
    decreases |lines|
  {
    hide IsBreak;
    var chunk := Weave(breaks, lines);
    if lines == [] {
      SkipAll(breaks[0], "");
      assert breaks[0] + "" == breaks[0];
    } else {
      var rest := Weave(breaks[1..], lines[1..]);
      assert chunk == breaks[0] + (lines[0] + rest);
      SkipAll(breaks[0], lines[0] + rest);
      assert lines[0] in lines;
      assert !IsBreak((lines[0] + rest)[0]);
      RestStarts(breaks[1..], lines[1..]);
      WholeToken(lines[0], rest);
      assert (lines[0] + rest)[..|lines[0]|] == lines[0] && (lines[0] + rest)[|lines[0]|..] == rest;
      TokensOfWeave(breaks[1..], lines[1..]);
    }
  }

  lemma RestStarts(breaks: seq<string>, lines: seq<string>)
    requires |breaks| == |lines| + 1 && AllBreaks(breaks[0]) && (lines != [] ==> breaks[0] != "")
    ensures var s := Weave(breaks, lines); s == "" || IsBreak(s[0])
  {
  }

  lemma TokensUnfold(chunk: string)
    ensures var s := SkipBreaks(chunk);
      if s == "" then Tokens(chunk) == []
      else Tokens(chunk) == [s[..TokenLength(s)]] + Tokens(s[TokenLength(s)..]) && IsToken(s[..TokenLength(s)])
  {
  }

  lemma WeaveCons(first: string, line: string, breaks: seq<string>, lines: seq<string>)
    requires Separators(breaks, lines) && AllBreaks(first) && (lines != [] ==> breaks[0] != "")
    ensures Separators([first] + breaks, [line] + lines)
    ensures Weave([first] + breaks, [line] + lines) == first + line + Weave(breaks, lines)
  {
    assert ([first] + breaks)[1..] == breaks && ([line] + lines)[1..] == lines;
  }

  lemma WeaveNone(first: string)
    requires AllBreaks(first)
    ensures Separators([first], []) && Weave([first], []) == first
  {
  }

  lemma ThreeParts(first: string, s: string, n: nat)
    requires n <= |s|
    ensures first + s[..n] + s[n..] == first + s
  {
    assert s == s[..n] + s[n..];
  }

  /** Every chunk is such a weaving of its lines: nothing but carriage returns and newlines is lost, and no line has
      one. */
  lemma ChunkIsWeave(chunk: string) returns (breaks: seq<string>)
    ensures Separators(breaks, Tokens(chunk)) && Weave(breaks, Tokens(chunk)) == chunk
    ensures forall b :: b in breaks ==> forall c :: c in b ==> c == '\r' || c == '\n'
    ensures forall l :: l in Tokens(chunk) ==> l != "" && '\r' !in l && '\n' !in l
  {
    breaks := Woven(chunk);
    forall l | l in Tokens(chunk) ensures l != "" && '\r' !in l && '\n' !in l {
      assert IsToken(l);
      forall i | 0 <= i < |l| ensures l[i] != '\r' && l[i] != '\n' {
        assert !IsBreak(l[i]);
      }
    }
  }

  lemma {:induction false} Woven(chunk: string) returns (breaks: seq<string>)
    ensures Separators(breaks, Tokens(chunk)) && Weave(breaks, Tokens(chunk)) == chunk
    decreases |chunk|
  {
    hide Tokens, Weave, Separators, AllBreaks, SkipBreaks, TokenLength, IsBreak, IsToken;
    var s := SkipBreaks(chunk);
    Skipped(chunk);
    TokensUnfold(chunk);
    var first := chunk[..|chunk| - |s|];
    assert chunk == first + s;
    if s == "" {
      WeaveNone(first);
      breaks := [first];
    } else {
      var n := TokenLength(s);
      TokenEnds(s);
      var rest := Woven(s[n..]);
      StartsWithBreak(rest, Tokens(s[n..]), s[n..]);
      WeaveCons(first, s[..n], rest, Tokens(s[n..]));
      ThreeParts(first, s, n);
      breaks := [first] + rest;
    }
  }

  lemma {:induction false} Skipped(chunk: string)
    ensures |SkipBreaks(chunk)| <= |chunk|
    ensures chunk[|chunk| - |SkipBreaks(chunk)|..] == SkipBreaks(chunk)
    ensures AllBreaks(chunk[..|chunk| - |SkipBreaks(chunk)|])
  {
    if chunk != "" && IsBreak(chunk[0]) {
      Skipped(chunk[1..]);
      var n := |chunk| - |SkipBreaks(chunk)|;
      assert chunk[..n] == [chunk[0]] + chunk[1..][..n - 1];
      assert chunk[n..] == chunk[1..][n - 1..];
    }
  }

  lemma {:induction false} TokenEnds(s: string)
    ensures TokenLength(s) < |s| ==> IsBreak(s[TokenLength(s)])
    ensures s != "" && SkipBreaks(s) == s ==> TokenLength(s) > 0
  {
    if s != "" && !IsBreak(s[0]) {
      TokenEnds(s[1..]);
    }
  }

  lemma LineStarts(breaks: seq<string>, lines: seq<string>)
    requires |breaks| == |lines| + 1 && lines != [] && IsToken(lines[0])
    ensures var s := Weave(breaks, lines); s != "" && (breaks[0] == "" ==> !IsBreak(s[0]))
  {
  }

  // A woven text that starts with a break has one before its first line.
  lemma StartsWithBreak(breaks: seq<string>, lines: seq<string>, s: string)
    requires Separators(breaks, lines) && Weave(breaks, lines) == s && forall l :: l in lines ==> IsToken(l)
    requires s != "" ==> IsBreak(s[0])
    ensures lines != [] ==> breaks[0] != ""
  {
    if lines != [] {
      assert lines[0] in lines;
      LineStarts(breaks, lines);
    }
  }
}
