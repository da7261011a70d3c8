/** The text of a mailbox file: how save_email prints a message and how fgets reads it back line by line. */
module MailText {
  // sizeof(line) - 1 of the readers: the most characters one fgets call can return.
  const MAX_READ: int := 1023

  // The longest line that comes back in one piece: it needs room for its newline.
  const MAX_LINE: int := 1022

  // ---------------------------------------------------------------- fgets

  // The position of the first newline, or the length of the text.
  function NewlineAt(text: string): (i: nat)
    ensures i <= |text|
    ensures i < |text| ==> text[i] == '\n'
    ensures '\n' !in text[..i]
  {
    if text == "" || text[0] == '\n' then 0 else 1 + NewlineAt(text[1..])
  }

  // How many characters fgets takes: through the newline, or as many as fit.
  function Taken(text: string): (n: nat)
    ensures n <= |text| && n <= MAX_READ && (text != "" ==> 0 < n)
  {
    var n := NewlineAt(text);
    if n < MAX_READ && n < |text| then n + 1 else if |text| <= MAX_READ then |text| else MAX_READ
  }

  /** What one fgets call leaves in the line buffer once the newline is cut off. */
  function LineRead(text: string): string {
    var got := text[..Taken(text)];
    got[..NewlineAt(got)]
  }

  /** The lines a reader sees of a whole file. */
  function ReadLines(text: string): seq<string> {
    if text == "" then [] else [LineRead(text)] + ReadLines(text[Taken(text)..])
  }

  function Unlines(lines: seq<string>): string {
    if lines == [] then "" else lines[0] + "\n" + Unlines(lines[1..])
  }

  lemma {:induction false} UnlinesAppend(xs: seq<string>, ys: seq<string>)
    ensures Unlines(xs + ys) == Unlines(xs) + Unlines(ys)
  {
    if xs == [] {
      assert xs + ys == ys;
    } else {
      assert (xs + ys)[1..] == xs[1..] + ys;
      UnlinesAppend(xs[1..], ys);
    }
  }

  lemma {:induction false} NewlineAfter(line: string, rest: string)
    requires '\n' !in line
    ensures NewlineAt(line + "\n" + rest) == |line|
  {
    var text := line + "\n" + rest;
    if line != "" {
      assert text[1..] == line[1..] + "\n" + rest;
      NewlineAfter(line[1..], rest);
    }
  }

  lemma {:induction false} NoNewline(line: string)
    requires '\n' !in line
    ensures NewlineAt(line) == |line|
  {
    if line != "" {
      NoNewline(line[1..]);
    }
  }

  /** A short line is read whole; a longer one loses its first 1023 characters to a line of their own. */
  lemma FirstLine(line: string, rest: string)
    requires '\n' !in line
    ensures ReadLines(line + "\n" + rest) ==
      if |line| <= MAX_LINE then [line] + ReadLines(rest)
      else [line[..MAX_READ]] + ReadLines(line[MAX_READ..] + "\n" + rest)
  {
    var text := line + "\n" + rest;
    NewlineAfter(line, rest);
    if |line| <= MAX_LINE {
      assert text[..Taken(text)] == line + "\n" + "";
      NewlineAfter(line, "");
      assert (line + "\n")[..|line|] == line;
      assert text[Taken(text)..] == rest;
    } else {
      assert text[..Taken(text)] == line[..MAX_READ];
      var got := line[..MAX_READ];
      NoNewline(got);
      assert got[..NewlineAt(got)] == got;
      assert text[MAX_READ..] == line[MAX_READ..] + "\n" + rest;
    }
  }

  lemma {:induction false} LineCount(line: string, rest: string)
    requires '\n' !in line
    ensures |ReadLines(line + "\n" + rest)| >= 1 + |ReadLines(rest)|
    ensures |line| > MAX_LINE ==> |ReadLines(line + "\n" + rest)| > 1 + |ReadLines(rest)|
    decreases |line|
  {
    FirstLine(line, rest);
    if |line| > MAX_LINE {
      LineCount(line[MAX_READ..], rest);
    }
  }

  lemma {:induction false} AtLeastAsMany(lines: seq<string>)
    requires forall l :: l in lines ==> '\n' !in l
    ensures |ReadLines(Unlines(lines))| >= |lines|
    ensures (exists l :: l in lines && |l| > MAX_LINE) ==> |ReadLines(Unlines(lines))| > |lines|
  {
    if lines != [] {
      AtLeastAsMany(lines[1..]);
      LineCount(lines[0], Unlines(lines[1..]));
      assert forall l :: l in lines ==> l == lines[0] || l in lines[1..];
    }
  }

  /** Printed lines are read back as they were exactly when none is longer than 1022 characters. */
  lemma {:induction false} ReadBack(lines: seq<string>)
    requires forall l :: l in lines ==> '\n' !in l
    ensures ReadLines(Unlines(lines)) == lines <==> forall l :: l in lines ==> |l| <= MAX_LINE
  {
    AtLeastAsMany(lines);
    if forall l :: l in lines ==> |l| <= MAX_LINE {
      AllShort(lines);
    }
  }

  lemma {:induction false} AllShort(lines: seq<string>)
    requires forall l :: l in lines ==> '\n' !in l && |l| <= MAX_LINE
    ensures ReadLines(Unlines(lines)) == lines
  {
    if lines != [] {
      assert lines[0] in lines;
      assert forall l :: l in lines[1..] ==> l in lines;
      AllShort(lines[1..]);
      FirstLine(lines[0], Unlines(lines[1..]));
    }
  }

  // ---------------------------------------------------------------- messages

  /** A stored message: what save_email prints of a session, and the day. */
  datatype Mail = Mail(sender: string, date: string, body: seq<string>)

  const FROM: string := "From: "
  const DATE: string := "Date: "
  const SEPARATOR: string := "---"

  function MailLines(m: Mail): seq<string> {
    [FROM + m.sender, DATE + m.date] + m.body + [SEPARATOR]
  }

  function AllLines(mails: seq<Mail>): seq<string> {
    if mails == [] then [] else MailLines(mails[0]) + AllLines(mails[1..])
  }

  /** The four fprintf calls of save_email, with the body as the data buffer holds it. */
  function Printed(sender: string, date: string, data: string): string {
    FROM + sender + "\n" + DATE + date + "\n" + data + SEPARATOR + "\n"
  }

  lemma PrintedLines(m: Mail)
    ensures Printed(m.sender, m.date, Unlines(m.body)) == Unlines(MailLines(m))
  {
    var head := [FROM + m.sender, DATE + m.date];
    UnlinesAppend(head + m.body, [SEPARATOR]);
    UnlinesAppend(head, m.body);
    assert Unlines([SEPARATOR]) == SEPARATOR + "\n" + "";
    assert head[1..] == [DATE + m.date];
    assert Unlines([DATE + m.date]) == DATE + m.date + "\n" + "";
  }

  lemma {:induction false} AllLinesAppend(mails: seq<Mail>, m: Mail)
    ensures AllLines(mails + [m]) == AllLines(mails) + MailLines(m)
  {
    if mails == [] {
      assert [m][1..] == [];
    } else {
      assert (mails + [m])[1..] == mails[1..] + [m];
      AllLinesAppend(mails[1..], m);
    }
  }

  /** Appending one more printed message to a mailbox file. */
  lemma SavedAppends(mails: seq<Mail>, m: Mail)
    ensures Unlines(AllLines(mails)) + Printed(m.sender, m.date, Unlines(m.body)) == Unlines(AllLines(mails + [m]))
  {
    AllLinesAppend(mails, m);
    UnlinesAppend(AllLines(mails), MailLines(m));
    PrintedLines(m);
  }
}
