/** What the two readers make of a mailbox file that save_email wrote: when each of them gives the messages back. */
module MailboxReadBack {
  import opened Common
  import opened MailText
  import opened MailReaders

  // ---------------------------------------------------------------- conditions on a message body

  ghost predicate NoFrom(body: seq<string>) {
    forall l :: l in body ==> !IsFrom(l)
  }

  ghost predicate SeparatorThenFrom(body: seq<string>, j: int, k: int) {
    0 <= j < k < |body| && body[j] == SEPARATOR && IsFrom(body[k])
  }

  /** No "From: " line comes after a separator line. */
  ghost predicate Listable(body: seq<string>) {
    !exists j, k :: SeparatorThenFrom(body, j, k)
  }

  // One date word, as strftime prints it.
  predicate IsDate(date: string) {
    date != "" && WordLength(date) == |date|
  }

  function Entries(mails: seq<Mail>, n: nat): (es: seq<Entry>)
    ensures |es| == |mails|
    ensures forall i :: 0 <= i < |mails| ==> es[i] == Entry(n + i + 1, mails[i].sender, mails[i].date)
  {
    if mails == [] then [] else [Entry(n + 1, mails[0].sender, mails[0].date)] + Entries(mails[1..], n + 1)
  }

  // ---------------------------------------------------------------- the list

  // The number of entries depends on neither the count nor the dates.
  function ListCount(lines: seq<string>, header: bool): nat {
    if lines == [] then 0
    else if IsFrom(lines[0]) && !header then
      if |lines| == 1 then 1 else 1 + ListCount(lines[2..], lines[1] != SEPARATOR)
    else ListCount(lines[1..], header && lines[0] != SEPARATOR)
  }

  lemma {:induction false} ListLength(lines: seq<string>, n: nat, header: bool, date: string)
    ensures |ListFrom(lines, n, header, date)| == ListCount(lines, header)
  {
    hide IsFrom, ScanDate;
    if lines == [] {
    } else if IsFrom(lines[0]) && !header {
      if |lines| > 1 {
        ListLength(lines[2..], n + 1, lines[1] != SEPARATOR, ScanDate(lines[1], date));
      }
    } else {
      ListLength(lines[1..], n, header && lines[0] != SEPARATOR, date);
    }
  }

  // The rest of the file after a body that has been read up to some point.
  function Ending(body: seq<string>, rest: seq<string>): (t: seq<string>)
    ensures |t| == |body| + 1 + |rest|
  {
    body + [SEPARATOR] + rest
  }

  lemma EndingStep(body: seq<string>, rest: seq<string>)
    ensures var t := Ending(body, rest);
      && (body == [] ==> t[0] == SEPARATOR && t[1..] == rest)
      && (body != [] ==> t[0] == body[0] && t[1..] == Ending(body[1..], rest))
      && (|body| == 1 ==> t[1] == SEPARATOR && t[2..] == rest)
      && (|body| > 1 ==> t[1] == body[1] && t[2..] == Ending(body[2..], rest))
  {
  }

  lemma SeparatorNotFrom()
    ensures !IsFrom(SEPARATOR)
  {
    assert SEPARATOR[0] != FROM[0];
  }

  lemma HeaderKinds(m: Mail)
    ensures IsFrom(FROM + m.sender)
    ensures !IsFrom(DATE + m.date) && DATE + m.date != SEPARATOR
  {
    assert (DATE + m.date)[0] == 'D' && FROM[0] == 'F' && SEPARATOR[0] == '-';
  }

  lemma {:induction false} BodySkipped(body: seq<string>, rest: seq<string>, n: nat, header: bool, date: string)
    requires if header then Listable(body) else NoFrom(body)
    ensures ListFrom(Ending(body, rest), n, header, date) == ListFrom(rest, n, false, date)
    decreases |body|
  {
    SeparatorNotFrom();
    EndingStep(body, rest);
    hide IsFrom, Ending;
    if body != [] {
      assert body[0] in body;
      var header' := header && body[0] != SEPARATOR;
      assert if header' then Listable(body[1..]) else NoFrom(body[1..]) by {
        if header' {
          forall j, k ensures !SeparatorThenFrom(body[1..], j, k) {
            assert !SeparatorThenFrom(body, j + 1, k + 1);
          }
        } else if header {
          forall l | l in body[1..] ensures !IsFrom(l) {
            var i :| 0 <= i < |body| - 1 && body[1..][i] == l;
            assert !SeparatorThenFrom(body, 0, i + 1);
          }
        }
      }
      BodySkipped(body[1..], rest, n, header', date);
    }
  }

  lemma RestHas(body: seq<string>, header: bool)
    requires body != [] && (header || !IsFrom(body[0]))
    requires !(if header then Listable(body) else NoFrom(body))
    ensures !(if header && body[0] != SEPARATOR then Listable(body[1..]) else NoFrom(body[1..]))
  {
    hide IsFrom;
    if header {
      var j, k :| SeparatorThenFrom(body, j, k);
      if body[0] != SEPARATOR {
        assert SeparatorThenFrom(body[1..], j - 1, k - 1);
      } else {
        assert body[k] == body[1..][k - 1];
      }
    } else {
      var l :| l in body && IsFrom(l);
      assert l in body[1..];
    }
  }

  lemma {:induction false} BodyCount(body: seq<string>, rest: seq<string>, header: bool)
    ensures ListCount(Ending(body, rest), header) >= ListCount(rest, false)
    ensures !(if header then Listable(body) else NoFrom(body))
      ==> ListCount(Ending(body, rest), header) > ListCount(rest, false)
    decreases |body|
  {
    SeparatorNotFrom();
    EndingStep(body, rest);
    hide IsFrom, Ending;
    if body == [] {
    } else if IsFrom(body[0]) && !header {
      if |body| > 1 {
        hide Listable, NoFrom;
        BodyCount(body[2..], rest, body[1] != SEPARATOR);
      }
    } else {
      var header' := header && body[0] != SEPARATOR;
      if !(if header then Listable(body) else NoFrom(body)) {
        RestHas(body, header);
      }
      hide Listable, NoFrom;
      BodyCount(body[1..], rest, header');
    }
  }

  lemma DateScanned(date: string, stale: string)
    requires IsDate(date)
    ensures ScanDate(DATE + date, stale) == date
  {
    assert (DATE + date)[5..] == " " + date;
    assert (" " + date)[1..] == date;
    assert "Date:" <= DATE + date;
    assert !IsSpace(date[0]);
    assert SkipSpaces(" " + date) == date;
    assert date[..|date|] == date;
  }

  lemma HeadAndTail(head: seq<string>, tail: seq<string>)
    requires |head| == 2
    ensures (head + tail)[0] == head[0] && (head + tail)[1] == head[1]
    ensures (head + tail)[1..] == [head[1]] + tail && (head + tail)[2..] == tail
  {
  }

  lemma Regroup(head: seq<string>, body: seq<string>, rest: seq<string>)
    ensures head + body + [SEPARATOR] + rest == head + Ending(body, rest)
  {
    assert head + body + [SEPARATOR] + rest == head + (body + [SEPARATOR] + rest);
  }

  // The header and body of one message at the front of a file.
  lemma MailFront(m: Mail, rest: seq<string>)
    ensures var lines := MailLines(m) + rest;
      |lines| > 2 && lines[0] == FROM + m.sender && lines[1] == DATE + m.date
      && lines[1..] == [DATE + m.date] + Ending(m.body, rest) && lines[2..] == Ending(m.body, rest)
  {
    var head := [FROM + m.sender, DATE + m.date];
    Regroup(head, m.body, rest);
    assert MailLines(m) + rest == head + Ending(m.body, rest);
    hide MailLines, Ending;
    HeadAndTail(head, Ending(m.body, rest));
  }

  lemma MailListed(m: Mail, rest: seq<string>, n: nat, stale: string)
    requires IsDate(m.date)
    ensures ListFrom(MailLines(m) + rest, n, false, stale)
      == [Entry(n + 1, m.sender, m.date)] + ListFrom(Ending(m.body, rest), n + 1, true, m.date)
  {
    MailFront(m, rest);
    HeaderKinds(m);
    DateScanned(m.date, stale);
    assert (FROM + m.sender)[6..] == m.sender;
    hide IsFrom, ScanDate, Ending, MailLines;
  }

  lemma MailCounted(m: Mail, rest: seq<string>)
    ensures ListCount(MailLines(m) + rest, false) == 1 + ListCount(Ending(m.body, rest), true)
  {
    MailFront(m, rest);
    HeaderKinds(m);
    hide IsFrom, Ending, MailLines;
  }

  lemma {:induction false} AllListed(mails: seq<Mail>, n: nat, stale: string)
    requires forall m :: m in mails ==> IsDate(m.date) && Listable(m.body)
    ensures ListFrom(AllLines(mails), n, false, stale) == Entries(mails, n)
  {
    if mails != [] {
      var m, rest := mails[0], AllLines(mails[1..]);
      assert m in mails;
      hide Listable, IsDate, Ending, MailLines, IsFrom, ScanDate;
      assert forall x :: x in mails[1..] ==> x in mails;
      AllListed(mails[1..], n + 1, m.date);
      MailListed(m, rest, n, stale);
      BodySkipped(m.body, rest, n + 1, true, m.date);
    }
  }

  lemma {:induction false} AllCounted(mails: seq<Mail>)
    ensures ListCount(AllLines(mails), false) >= |mails|
    ensures (exists m :: m in mails && !Listable(m.body)) ==> ListCount(AllLines(mails), false) > |mails|
  {
    if mails != [] {
      var m, rest := mails[0], AllLines(mails[1..]);
      AllCounted(mails[1..]);
      MailCounted(m, rest);
      BodyCount(m.body, rest, true);
      hide Listable;
      assert forall x :: x in mails ==> x == m || x in mails[1..];
    }
  }

  /** handle_list prints exactly the stored messages, in order, exactly when no body has a "From: " line after a
      separator line. */
  lemma ListExact(mails: seq<Mail>, stale: string)
    requires forall m :: m in mails ==> IsDate(m.date)
    ensures ListFrom(AllLines(mails), 0, false, stale) == Entries(mails, 0)
      <==> forall m :: m in mails ==> Listable(m.body)
  {
    hide Listable;
    AllCounted(mails);
    ListLength(AllLines(mails), 0, false, stale);
    if forall m :: m in mails ==> Listable(m.body) {
      AllListed(mails, 0, stale);
    }
  }

  // ---------------------------------------------------------------- getting one message

  function FromCount(lines: seq<string>): nat {
    if lines == [] then 0 else (if IsFrom(lines[0]) then 1 else 0) + FromCount(lines[1..])
  }

  lemma {:induction false} FromCountAppend(xs: seq<string>, ys: seq<string>)
    ensures FromCount(xs + ys) == FromCount(xs) + FromCount(ys)
  {
    if xs == [] {
      assert xs + ys == ys;
    } else {
      assert (xs + ys)[1..] == xs[1..] + ys;
      FromCountAppend(xs[1..], ys);
    }
  }

  lemma {:induction false} FromCountZero(lines: seq<string>)
    ensures FromCount(lines) == 0 <==> NoFrom(lines)
  {
    if lines != [] {
      FromCountZero(lines[1..]);
      assert forall l :: l in lines ==> l == lines[0] || l in lines[1..];
      assert forall l :: l in lines[1..] ==> l in lines;
      assert lines[0] in lines;
    }
  }

  lemma {:induction false} FindIsCount(lines: seq<string>, k: nat, at: nat)
    requires k > 0
    ensures FindFrom(lines, k) == Some(at) <==> at < |lines| && IsFrom(lines[at]) && FromCount(lines[..at]) == k - 1
  {
    hide IsFrom;
    if lines != [] {
      var skip := if IsFrom(lines[0]) then 1 else 0;
      if at == 0 {
        assert lines[..0] == [];
      } else if at < |lines| {
        assert lines[..at][0] == lines[0] && lines[..at][1..] == lines[1..][..at - 1];
        if skip != k {
          FindIsCount(lines[1..], k - skip, at - 1);
        }
      } else if skip != k {
        FindIsCount(lines[1..], k - skip, at - 1);
      }
    }
  }

  lemma {:induction false} FoundIfEnough(lines: seq<string>, k: nat)
    requires k > 0
    ensures FindFrom(lines, k).Some? <==> k <= FromCount(lines)
  {
    if lines != [] {
      var skip := if IsFrom(lines[0]) then 1 else 0;
      if skip != k {
        FoundIfEnough(lines[1..], k - skip);
      }
    }
  }

  lemma MailFroms(m: Mail)
    ensures FromCount(MailLines(m)) == 1 + FromCount(m.body)
  {
    SeparatorNotFrom();
    HeaderKinds(m);
    hide IsFrom;
    var from, date := FROM + m.sender, DATE + m.date;
    FromCountAppend([from, date] + m.body, [SEPARATOR]);
    FromCountAppend([from, date], m.body);
    assert [from, date][1..] == [date];
    assert FromCount([SEPARATOR]) == 0 && FromCount([date]) == 0;
  }

  ghost predicate NoneFrom(mails: seq<Mail>) {
    forall m :: m in mails ==> NoFrom(m.body)
  }

  lemma {:induction false} AllFroms(mails: seq<Mail>)
    ensures FromCount(AllLines(mails)) >= |mails|
    ensures FromCount(AllLines(mails)) == |mails| <==> NoneFrom(mails)
  {
    if mails != [] {
      var m := mails[0];
      AllFroms(mails[1..]);
      FromCountAppend(MailLines(m), AllLines(mails[1..]));
      MailFroms(m);
      FromCountZero(m.body);
      hide NoFrom;
      assert forall x :: x in mails ==> x == m || x in mails[1..];
      assert forall x :: x in mails[1..] ==> x in mails;
      assert m in mails;
    }
  }

  // The line at which the message after the first i starts.
  function Start(mails: seq<Mail>, i: nat): nat
    requires i <= |mails|
  {
    |AllLines(mails[..i])|
  }

  lemma {:induction false} AllLinesSplit(xs: seq<Mail>, ys: seq<Mail>)
    ensures AllLines(xs + ys) == AllLines(xs) + AllLines(ys)
  {
    if xs == [] {
      assert xs + ys == ys;
    } else {
      assert (xs + ys)[1..] == xs[1..] + ys;
      AllLinesSplit(xs[1..], ys);
    }
  }

  lemma SplitAt(mails: seq<Mail>, i: nat)
    requires i < |mails|
    ensures AllLines(mails) == AllLines(mails[..i]) + (MailLines(mails[i]) + AllLines(mails[i + 1..]))
  {
    assert mails == mails[..i] + mails[i..];
    AllLinesSplit(mails[..i], mails[i..]);
    assert mails[i..][1..] == mails[i + 1..];
  }

  /** The search for message id stops at its "From: " line exactly when no earlier body has such a line. */
  lemma FoundExactly(mails: seq<Mail>, id: nat)
    requires 1 <= id <= |mails|
    ensures FindFrom(AllLines(mails), id) == Some(Start(mails, id - 1)) <==> NoneFrom(mails[..id - 1])
  {
    var lines, before := AllLines(mails), AllLines(mails[..id - 1]);
    SplitAt(mails, id - 1);
    MailFront(mails[id - 1], AllLines(mails[id..]));
    HeaderKinds(mails[id - 1]);
    assert lines[..|before|] == before;
    assert lines[|before|] == FROM + mails[id - 1].sender;
    AllFroms(mails[..id - 1]);
    hide NoneFrom, AllLines, IsFrom;
    FindIsCount(lines, id, |before|);
  }

  lemma {:induction false} BodyExactly(body: seq<string>, rest: seq<string>)
    ensures UpToSeparator(Ending(body, rest)) == body <==> SEPARATOR !in body
  {
    EndingStep(body, rest);
    hide Ending;
    if body != [] {
      BodyExactly(body[1..], rest);
      if body[0] != SEPARATOR {
        assert [body[0]] + body[1..] == body;
        assert UpToSeparator(Ending(body, rest))[1..] == UpToSeparator(Ending(body[1..], rest));
      }
    }
  }

  /** The lines handle_get_mail should answer with. */
  function Content(m: Mail): seq<string> {
    [FROM + m.sender, DATE + m.date] + m.body
  }

  lemma GotAt(lines: seq<string>, id: nat, before: seq<string>, m: Mail, rest: seq<string>)
    requires id > 0 && lines == before + (MailLines(m) + rest)
    requires FindFrom(lines, id) == Some(|before|)
    ensures GetMail(lines, id) == Some([FROM + m.sender, DATE + m.date] + UpToSeparator(Ending(m.body, rest)))
  {
    var front := MailLines(m) + rest;
    MailFront(m, rest);
    HeaderKinds(m);
    var from, date := FROM + m.sender, DATE + m.date;
    hide IsFrom, Ending, MailLines, FindFrom;
    assert lines[|before|] == front[0] == from;
    assert lines[|before| + 1..] == front[1..];
    var body := UpToSeparator(Ending(m.body, rest));
    assert UpToSeparator(front[1..]) == [date] + body by {
      assert front[1..][0] == date && front[1..][1..] == Ending(m.body, rest);
    }
    assert [from] + ([date] + body) == [from, date] + body;
  }

  /** handle_get_mail answers for id with exactly the id-th stored message, read from its own place, exactly when no
      earlier body has a "From: " line and its own body has no separator line. */
  lemma GetExact(mails: seq<Mail>, id: nat)
    requires 1 <= id <= |mails|
    ensures FindFrom(AllLines(mails), id) == Some(Start(mails, id - 1))
        && GetMail(AllLines(mails), id) == Some(Content(mails[id - 1]))
      <==> NoneFrom(mails[..id - 1]) && SEPARATOR !in mails[id - 1].body
  {
    var m, rest := mails[id - 1], AllLines(mails[id..]);
    FoundExactly(mails, id);
    SplitAt(mails, id - 1);
    hide NoneFrom, MailLines, AllLines, FindFrom, GetMail, Ending;
    if NoneFrom(mails[..id - 1]) {
      GotAt(AllLines(mails), id, AllLines(mails[..id - 1]), m, rest);
      BodyExactly(m.body, rest);
      var body := UpToSeparator(Ending(m.body, rest));
      assert ([FROM + m.sender, DATE + m.date] + body)[2..] == body;
      assert Content(m)[2..] == m.body;
    }
  }

  ghost predicate Tidy(m: Mail) {
    NoFrom(m.body) && SEPARATOR !in m.body
  }

  /** On a mailbox of tidy messages the two readers agree on every id: the list has one entry a message, getting an id
      in range gives the message that entry names, and any other id is not found. */
  lemma ReadersAgree(mails: seq<Mail>, id: nat, stale: string)
    requires forall m :: m in mails ==> IsDate(m.date) && Tidy(m)
    requires id > 0
    ensures var list, got := ListFrom(AllLines(mails), 0, false, stale), GetMail(AllLines(mails), id);
      && |list| == |mails|
      && (id <= |mails| ==>
            && got == Some(Content(mails[id - 1]))
            && list[id - 1] == Entry(id, mails[id - 1].sender, mails[id - 1].date))
      && (id > |mails| ==> got == None)
  {
    forall m | m in mails ensures Listable(m.body) && NoFrom(m.body) && SEPARATOR !in m.body {
      assert Tidy(m);
      forall j, k ensures !SeparatorThenFrom(m.body, j, k) {
      }
    }
    hide Listable, NoFrom, IsDate, Tidy;
    ListExact(mails, stale);
    AllFroms(mails);
    FoundIfEnough(AllLines(mails), id);
    if id <= |mails| {
      assert mails[id - 1] in mails;
      assert forall m :: m in mails[..id - 1] ==> m in mails;
      GetExact(mails, id);
    }
  }
}
