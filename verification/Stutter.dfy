/** Ordered delivery with repeats: what a receiver hands over may stutter, but never skips, reorders or invents. Both
    versions of KTP deliver in this way. */
module Stutter {
  /** One delivery: the number of a message, counted from 1, and what was handed over for it. */
  datatype Delivery<T> = Delivery(number: int, content: T)

  function Last<T>(delivered: seq<Delivery<T>>): int {
    if delivered == [] then 0 else delivered[|delivered| - 1].number
  }

  ghost predicate Follows<T>(delivered: seq<Delivery<T>>, sent: seq<T>, i: nat)
    requires i < |delivered|
  {
    var before := if i == 0 then 0 else delivered[i - 1].number;
    && before <= delivered[i].number <= before + 1
    && 1 <= delivered[i].number <= |sent|
    && delivered[i].content == sent[delivered[i].number - 1]
  }

  /** Deliveries start at 1, each repeats the previous number or is one more, and each carries what was sent. */
  ghost predicate InOrder<T>(delivered: seq<Delivery<T>>, sent: seq<T>) {
    forall i :: 0 <= i < |delivered| ==> Follows(delivered, sent, i)
  }

  /** How often message v was delivered. */
  function Times<T>(delivered: seq<Delivery<T>>, v: int): nat {
    if delivered == [] then 0
    else Times(delivered[..|delivered| - 1], v) + if delivered[|delivered| - 1].number == v then 1 else 0
  }

  /** The contents with immediate repeats of a number removed. */
  function Collapse<T>(delivered: seq<Delivery<T>>): seq<T> {
    if delivered == [] then []
    else
      var n := |delivered| - 1;
      if n > 0 && delivered[n].number == delivered[n - 1].number then Collapse(delivered[..n])
      else Collapse(delivered[..n]) + [delivered[n].content]
  }

  lemma InOrderPrefix<T>(delivered: seq<Delivery<T>>, sent: seq<T>, n: nat)
    requires InOrder(delivered, sent) && n <= |delivered|
    ensures InOrder(delivered[..n], sent)
  {
    forall i | 0 <= i < n ensures Follows(delivered[..n], sent, i) {
      assert Follows(delivered, sent, i);
    }
  }

  lemma LastFollows<T>(delivered: seq<Delivery<T>>, sent: seq<T>)
    requires InOrder(delivered, sent) && delivered != []
    ensures var n := |delivered| - 1; var before := Last(delivered[..n]);
      && InOrder(delivered[..n], sent)
      && before == (if n > 0 then delivered[n - 1].number else 0)
      && before <= delivered[n].number <= before + 1
      && 1 <= delivered[n].number <= |sent|
      && delivered[n].content == sent[delivered[n].number - 1]
  {
    assert Follows(delivered, sent, |delivered| - 1);
    InOrderPrefix(delivered, sent, |delivered| - 1);
  }

  lemma InOrderGrows<T>(delivered: seq<Delivery<T>>, sent: seq<T>, next: Delivery<T>)
    requires InOrder(delivered, sent)
    requires Last(delivered) <= next.number <= Last(delivered) + 1
    requires 1 <= next.number <= |sent| && next.content == sent[next.number - 1]
    ensures InOrder(delivered + [next], sent)
  {
    var delivered' := delivered + [next];
    forall i | 0 <= i < |delivered'| ensures Follows(delivered', sent, i) {
      assert i < |delivered| ==> Follows(delivered, sent, i);
    }
  }

  lemma MoreSent<T>(delivered: seq<Delivery<T>>, sent: seq<T>, more: seq<T>)
    requires InOrder(delivered, sent)
    ensures InOrder(delivered, sent + more)
  {
    forall i | 0 <= i < |delivered| ensures Follows(delivered, sent + more, i) {
      assert Follows(delivered, sent, i);
    }
  }

  /** With the repeats removed, ordered deliveries are a prefix of what was sent. */
  lemma {:induction false} CollapseIsPrefix<T>(delivered: seq<Delivery<T>>, sent: seq<T>)
    requires InOrder(delivered, sent)
    ensures 0 <= Last(delivered) <= |sent|
    ensures Collapse(delivered) == sent[..Last(delivered)]
    decreases |delivered|
  {
    hide InOrder;
    if delivered != [] {
      LastFollows(delivered, sent);
      CollapseIsPrefix(delivered[..|delivered| - 1], sent);
    }
  }

  lemma TimesGrows<T>(delivered: seq<Delivery<T>>, next: Delivery<T>, v: int)
    ensures Times(delivered + [next], v) == Times(delivered, v) + if next.number == v then 1 else 0
  {
    assert (delivered + [next])[..|delivered|] == delivered;
  }

  /** Every number up to the last one was delivered, and no other. */
  lemma {:induction false} DeliveredUpToLast<T>(delivered: seq<Delivery<T>>, sent: seq<T>, v: int)
    requires InOrder(delivered, sent)
    ensures Times(delivered, v) > 0 <==> 1 <= v <= Last(delivered)
    decreases |delivered|
  {
    hide InOrder;
    if delivered != [] {
      LastFollows(delivered, sent);
      DeliveredUpToLast(delivered[..|delivered| - 1], sent, v);
    }
  }

  /** Deliveries in which no number repeats are exactly the first messages, once each. */
  lemma {:induction false} OnceEach<T>(delivered: seq<Delivery<T>>, sent: seq<T>)
    requires InOrder(delivered, sent)
    requires forall v :: Times(delivered, v) <= 1
    ensures |delivered| == Last(delivered) <= |sent|
    ensures forall i :: 0 <= i < |delivered| ==> delivered[i] == Delivery(i + 1, sent[i])
    decreases |delivered|
  {
    hide InOrder;
    if delivered != [] {
      var init, last := delivered[..|delivered| - 1], delivered[|delivered| - 1];
      LastFollows(delivered, sent);
      forall v ensures Times(init, v) <= 1 {
        assert Times(delivered, v) <= 1;
      }
      OnceEach(init, sent);
      DeliveredUpToLast(init, sent, last.number);
      assert Times(delivered, last.number) <= 1;
      assert forall i :: 0 <= i < |init| ==> delivered[i] == init[i];
    }
  }
}
