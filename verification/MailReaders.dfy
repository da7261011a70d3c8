/** The two readers of a mailbox file, handle_list and handle_get_mail, over the lines fgets gives them. */
module MailReaders {
  import opened Common
  import opened MailText

  datatype Entry = Entry(id: nat, sender: string, date: string)

  // strncmp(line, "From: ", 6) == 0
  predicate IsFrom(line: string) {
    FROM <= line
  }

  // The white space of isspace, which scanf skips and %s stops at.
  predicate IsSpace(c: char) {
    c == ' ' || '\t' <= c <= '\r'
  }

  function SkipSpaces(s: string): string {
    if s != "" && IsSpace(s[0]) then SkipSpaces(s[1..]) else s
  }

  function WordLength(s: string): (n: nat)
    ensures n <= |s|
    ensures forall i :: 0 <= i < n ==> !IsSpace(s[i])
    ensures n < |s| ==> IsSpace(s[n])
  {
    if s == "" || IsSpace(s[0]) then 0 else 1 + WordLength(s[1..])
  }

  /** sscanf(line, "Date: %s", date): the date is overwritten only when there is a word to read. */
  function ScanDate(line: string, date: string): string {
    if "Date:" <= line then
      var rest := SkipSpaces(line[5..]);
      if rest == "" then date else rest[..WordLength(rest)]
    else date
  }

  // ---------------------------------------------------------------- specifications

  /** handle_list from some point of the file: n mails seen, the reading_header flag, the date buffer. */
  function ListFrom(lines: seq<string>, n: nat, header: bool, date: string): seq<Entry> {
    if lines == [] then []
    else if IsFrom(lines[0]) && !header then
      if |lines| == 1 then [Entry(n + 1, lines[0][6..], date)]
      else
        var d := ScanDate(lines[1], date);
        [Entry(n + 1, lines[0][6..], d)] + ListFrom(lines[2..], n + 1, lines[1] != SEPARATOR, d)
    else ListFrom(lines[1..], n, header && lines[0] != SEPARATOR, date)
  }

  /** The lines up to the separator. */
  function UpToSeparator(lines: seq<string>): seq<string> {
    if lines == [] || lines[0] == SEPARATOR then [] else [lines[0]] + UpToSeparator(lines[1..])
  }

  /** Where the k-th "From: " line is. */
  function FindFrom(lines: seq<string>, k: nat): (at: Option<nat>)
    requires k > 0
    ensures at.Some? ==> at.value < |lines| && IsFrom(lines[at.value])
  {
    if lines == [] then None
    else
      var skip := if IsFrom(lines[0]) then 1 else 0;
      if skip == k then Some(0)
      else match FindFrom(lines[1..], k - skip) {
        case None => None
        case Some(at) => Some(at + 1)
      }
  }

  /** handle_get_mail: the k-th "From: " line and what follows it up to the separator. */
  function GetMail(lines: seq<string>, k: nat): Option<seq<string>>
    requires k > 0
  {
    match FindFrom(lines, k) {
      case None => None
      case Some(at) => Some([lines[at]] + UpToSeparator(lines[at + 1..]))
    }
  }

  lemma ListStep(entries: seq<Entry>, lines: seq<string>, n: nat, header: bool, date: string)
    requires lines != []
    ensures !(IsFrom(lines[0]) && !header) ==>
      ListFrom(lines, n, header, date) == ListFrom(lines[1..], n, header && lines[0] != SEPARATOR, date)
    ensures IsFrom(lines[0]) && !header && |lines| == 1 ==>
      entries + ListFrom(lines, n, header, date)
      == (entries + [Entry(n + 1, lines[0][6..], date)]) + ListFrom([], n + 1, true, date)
    ensures IsFrom(lines[0]) && !header && |lines| > 1 ==>
      var d := ScanDate(lines[1], date);
      entries + ListFrom(lines, n, header, date)
      == (entries + [Entry(n + 1, lines[0][6..], d)]) + ListFrom(lines[2..], n + 1, lines[1] != SEPARATOR, d)
  {
    hide ScanDate;
  }

  lemma ReadStep(text: string)
    requires text != ""
    ensures ReadLines(text) != [] && ReadLines(text)[0] == LineRead(text)
    ensures ReadLines(text)[1..] == ReadLines(text[Taken(text)..])
  {
  }

  lemma UpToStep(content: seq<string>, lines: seq<string>)
    requires lines != []
    ensures content + UpToSeparator(lines) ==
      if lines[0] == SEPARATOR then content else (content + [lines[0]]) + UpToSeparator(lines[1..])
  {
  }

  lemma UpToNothing(content: seq<string>)
    ensures content + UpToSeparator([]) == content
  {
  }

  lemma NoEntries(n: nat, header: bool, date: string)
    ensures ListFrom([], n, header, date) == []
  {
  }

  lemma FromPrefix(line: string)
    requires IsFrom(line)
    ensures |line| >= 6 && line != SEPARATOR
  {
    assert line[0] == FROM[0];
  }

  lemma NoneLeft(k: nat)
    requires k > 0
    ensures GetMail([], k) == None
  {
  }

  lemma GetStep(lines: seq<string>, k: nat)
    requires lines != [] && k > 0
    ensures GetMail(lines, k) ==
      if !IsFrom(lines[0]) then GetMail(lines[1..], k)
      else if k == 1 then Some([lines[0]] + UpToSeparator(lines[1..]))
      else GetMail(lines[1..], k - 1)
  {
    hide UpToSeparator;
    var skip := if IsFrom(lines[0]) then 1 else 0;
    if skip != k {
      var inner := FindFrom(lines[1..], k - skip);
      if inner.Some? {
        assert lines[inner.value + 1..][1..] == lines[1..][inner.value + 1..];
        assert lines[inner.value + 2..] == lines[1..][inner.value + 1..];
      }
    }
  }

  // ---------------------------------------------------------------- the loops

  /** The loop of handle_list over an open file. */
  method List(file: string, stale: string) returns (entries: seq<Entry>)
    ensures entries == ListFrom(ReadLines(file), 0, false, stale)
  {
    entries := [];
    var rest := file;
    var emailId := 0;
    var date := stale;
    var readingHeader := false;
    ghost var whole := ListFrom(ReadLines(file), 0, false, stale);
    hide IsFrom, ScanDate, ListFrom;
    assert entries + whole == whole;
    while rest != ""
      invariant entries + ListFrom(ReadLines(rest), emailId, readingHeader, date) == whole
      decreases |rest|
    {
      ghost var lines := ReadLines(rest);
      ListStep(entries, lines, emailId, readingHeader, date);
      var line := LineRead(rest);
      rest := rest[Taken(rest)..];
      assert lines[0] == line && lines[1..] == ReadLines(rest);
      if IsFrom(line) && !readingHeader {
        emailId := emailId + 1;
        readingHeader := true;
        FromPrefix(line);
        var sender := line[6..];
        if rest != "" {
          line := LineRead(rest);
          rest := rest[Taken(rest)..];
          assert lines[1] == line && lines[2..] == ReadLines(rest);
          date := ScanDate(line, date);
        }
        entries := entries + [Entry(emailId, sender, date)];
      }
      if line == SEPARATOR {
        readingHeader := false;
      }
    }
    NoEntries(emailId, readingHeader, date);
    assert entries + [] == entries;
  }

  /** The loop of handle_get_mail over an open file. */
  method Get(file: string, id: nat) returns (response: Option<seq<string>>)
    requires id > 0
    ensures response == GetMail(ReadLines(file), id)
  {
    var rest := file;
    var emailId := 0;
    var found := false;
    var readingEmail := false;
    var content: seq<string> := [];
    ghost var lines := ReadLines(file);
    hide FindFrom, GetMail, IsFrom, UpToSeparator, LineRead;
    while rest != ""
      invariant readingEmail == found
      invariant !found ==> emailId < id && GetMail(lines, id) == GetMail(ReadLines(rest), id - emailId)
      invariant found ==> GetMail(lines, id) == Some(content + UpToSeparator(ReadLines(rest)))
      decreases |rest|
    {
      hide ReadLines, Taken;
      ghost var was := ReadLines(rest);
      ReadStep(rest);
      UpToStep(content, was);
      if !readingEmail {
        GetStep(was, id - emailId);
      }
      var line := LineRead(rest);
      rest := rest[Taken(rest)..];
      if IsFrom(line) && !readingEmail {
        emailId := emailId + 1;
        if emailId == id {
          found := true;
          readingEmail := true;
          content := [line];
        }
      } else if readingEmail {
        if line == SEPARATOR {
          readingEmail := false;
          break;
        }
        content := content + [line];
      }
    }
    UpToNothing(content);
    if !found {
      NoneLeft(id - emailId);
    }
    response := if found then Some(content) else None;
  }
}
