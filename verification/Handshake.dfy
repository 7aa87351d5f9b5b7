/** The messages of the request dialog, and what its handlers leave on the heap. */
module Handshake {
  import opened ListBoxes
  import opened FriendDialog

  /** A respond header with count 2 or 1, or an add header with count 1. */
  predicate Opens(m: Message) {
    || m == Header(RESPOND_FRIEND_INFO, 2) || m == Header(RESPOND_FRIEND_INFO, 1)
    || m == Header(ADD_FRIEND, 1)
  }

  /** One piece of friend data under the common header. */
  predicate Payload(m: Message) {
    m.Data? && m.dataType == COMMON_DATA && m.dataCnt == 1
  }

  /** (request, then a refusal, or SUCCESS followed by a payload)* */
  predicate Grammar(w: seq<Message>) {
    w == [] ||
    (&& |w| >= 2 && Opens(w[0]) && w[1].Answer?
     && if w[1].reply == SUCCESS then |w| >= 3 && Payload(w[2]) && Grammar(w[3..]) else Grammar(w[2..]))
  }

  datatype Kind = Datas | Confirmations | Refusals

  predicate Is(kind: Kind, m: Message) {
    match kind
    case Datas => m.Data?
    case Confirmations => m == Answer(SUCCESS)
    case Refusals => m.Answer? && m.reply != SUCCESS
  }

  function Tally(kind: Kind, w: seq<Message>): nat {
    if w == [] then 0 else (if Is(kind, w[0]) then 1 else 0) + Tally(kind, w[1..])
  }

  /** Confirmed accepts and rejects: a respond header directly followed by SUCCESS. */
  function Erasures(w: seq<Message>): nat {
    if |w| < 2 then 0
    else (if w[0].Header? && w[0].dataType == RESPOND_FRIEND_INFO && w[1] == Answer(SUCCESS) then 1 else 0)
         + Erasures(w[1..])
  }

  lemma {:induction false} GrammarConcat(a: seq<Message>, b: seq<Message>)
    requires Grammar(a) && Grammar(b)
    ensures Grammar(a + b)
    decreases |a|
  {
    if a == [] {
      assert a + b == b;
    } else {
      var k := if a[1].reply == SUCCESS then 3 else 2;
      assert (a + b)[k..] == a[k..] + b;
      GrammarConcat(a[k..], b);
    }
  }

  lemma {:induction false} TallyConcat(kind: Kind, a: seq<Message>, b: seq<Message>)
    ensures Tally(kind, a + b) == Tally(kind, a) + Tally(kind, b)
  {
    if a == [] {
      assert a + b == b;
    } else {
      assert (a + b)[1..] == a[1..] + b;
      TallyConcat(kind, a[1..], b);
    }
  }

  lemma {:induction false} ErasuresConcat(a: seq<Message>, b: seq<Message>)
    requires b != [] && b[0].Header?
    ensures Erasures(a + b) == Erasures(a) + Erasures(b)
  {
    if a == [] {
      assert a + b == b;
    } else {
      assert (a + b)[1..] == a[1..] + b;
      ErasuresConcat(a[1..], b);
    }
  }

  /** One handshake, whatever the server replies. */
  lemma {:induction false} ExchangeCounts(dataType: nat, dataCnt: nat, info: Info, reply: Reply)
    requires Opens(Header(dataType, dataCnt))
    ensures var x := Exchange(dataType, dataCnt, info, reply);
            && x != [] && x[0].Header? && Grammar(x)
            && Tally(Datas, x) == Tally(Confirmations, x) == (if reply == SUCCESS then 1 else 0)
            && Tally(Refusals, x) == (if reply == SUCCESS then 0 else 1)
            && Erasures(x) == (if reply == SUCCESS && dataType == RESPOND_FRIEND_INFO then 1 else 0)
  {
    var rest := if reply == SUCCESS then [Data(COMMON_DATA, 1, info)] else [];
    ExchangeTally(Datas, dataType, dataCnt, info, reply);
    ExchangeTally(Confirmations, dataType, dataCnt, info, reply);
    ExchangeTally(Refusals, dataType, dataCnt, info, reply);
    ErasuresOfPair(Header(dataType, dataCnt), Answer(reply), rest);
    assert ([Header(dataType, dataCnt), Answer(reply)] + rest)[2 + |rest|..] == [];
  }

  lemma {:induction false} ExchangeTally(kind: Kind, dataType: nat, dataCnt: nat, info: Info, reply: Reply)
    ensures Tally(kind, Exchange(dataType, dataCnt, info, reply))
         == if (reply == SUCCESS) == (kind == Refusals) then 0 else 1
  {
    var data := Data(COMMON_DATA, 1, info);
    TallyOfPair(kind, Header(dataType, dataCnt), Answer(reply), if reply == SUCCESS then [data] else []);
    TallyOfOne(kind, data);
  }

  lemma {:induction false} TallyOfOne(kind: Kind, a: Message)
    ensures Tally(kind, [a]) == if Is(kind, a) then 1 else 0
  {
    assert [a][1..] == [];
  }

  lemma {:induction false} TallyOfPair(kind: Kind, a: Message, b: Message, rest: seq<Message>)
    ensures Tally(kind, [a, b] + rest)
         == (if Is(kind, a) then 1 else 0) + (if Is(kind, b) then 1 else 0) + Tally(kind, rest)
  {
    var x := [a, b] + rest;
    assert x[1..] == [b] + rest;
    assert x[1..][1..] == rest;
  }

  lemma {:induction false} ErasuresOfPair(a: Message, b: Message, rest: seq<Message>)
    requires b.Answer? && |rest| <= 1
    ensures Erasures([a, b] + rest)
         == if a.Header? && a.dataType == RESPOND_FRIEND_INFO && b == Answer(SUCCESS) then 1 else 0
  {
    var x := [a, b] + rest;
    assert x[1..] == [b] + rest;
    assert x[1..][1..] == rest;
    assert Erasures(x[1..]) == 0;
  }

  /** The account of a dialog that started with n requests: every confirmation was followed
      by its data, every refusal left one FriendInfo undeleted, and every confirmed accept
      or reject took one request from the vector. */
  ghost predicate Accounted(d: Dialog, n: nat) {
    && Grammar(d.wire)
    && Tally(Datas, d.wire) == Tally(Confirmations, d.wire)
    && d.infos == Tally(Refusals, d.wire)
    && |d.pending| + Erasures(d.wire) == n
  }

  lemma {:induction false} WireGrows(w: seq<Message>, dataType: nat, dataCnt: nat, info: Info, reply: Reply)
    requires Grammar(w) && Opens(Header(dataType, dataCnt))
    ensures var x := w + Exchange(dataType, dataCnt, info, reply);
            && Grammar(x)
            && Tally(Datas, x) == Tally(Datas, w) + (if reply == SUCCESS then 1 else 0)
            && Tally(Confirmations, x) == Tally(Confirmations, w) + (if reply == SUCCESS then 1 else 0)
            && Tally(Refusals, x) == Tally(Refusals, w) + (if reply == SUCCESS then 0 else 1)
            && Erasures(x) == Erasures(w) + (if reply == SUCCESS && dataType == RESPOND_FRIEND_INFO then 1 else 0)
  {
    var e := Exchange(dataType, dataCnt, info, reply);
    ExchangeCounts(dataType, dataCnt, info, reply);
    GrammarConcat(w, e);
    TallyConcat(Datas, w, e);
    TallyConcat(Confirmations, w, e);
    TallyConcat(Refusals, w, e);
    ErasuresConcat(w, e);
  }

  lemma {:induction false} AccountedAnswer(mode: Rebuild, at: Placement, d: Dialog, sel: int, reply: Reply,
                                           dataCnt: nat, friending: bool, n: nat)
    requires Accounted(d, n) && 0 <= sel < |d.box| && (reply == SUCCESS ==> sel < |d.pending|)
    requires dataCnt == 1 || dataCnt == 2
    ensures Accounted(Responded(mode, at, d, sel, reply, dataCnt, friending), n)
  {
    WireGrows(d.wire, RESPOND_FRIEND_INFO, dataCnt, Info(d.box[sel], friending, false), reply);
  }

  lemma {:induction false} AccountedClick(mode: Rebuild, at: Placement, d: Dialog, c: Click, n: nat)
    requires Accounted(d, n) && Possible(d, c)
    ensures Accounted(AfterClick(mode, at, d, c), n)
  {
    match c
    case Accept(sel, reply) =>
      if sel != -1 {
        AccountedAnswer(mode, at, d, sel, reply, 2, true, n);
      }
    case Reject(sel, reply) =>
      if sel != -1 {
        AccountedAnswer(mode, at, d, sel, reply, 1, false, n);
      }
    case AddFriend(id, reply) =>
      WireGrows(d.wire, ADD_FRIEND, 1, Info(id, true, false), reply);
  }

  lemma {:induction false} AccountedOverRun(mode: Rebuild, at: Placement, d: Dialog, cs: seq<Click>, n: nat)
    requires Accounted(d, n) && Runs(mode, at, d, cs)
    ensures Accounted(AfterRun(mode, at, d, cs), n)
    decreases cs
  {
    if cs != [] {
      AccountedClick(mode, at, d, cs[0], n);
      AccountedOverRun(mode, at, AfterClick(mode, at, d, cs[0]), cs[1..], n);
    }
  }

  /** The clicks that accept or reject, and are confirmed. */
  function ConfirmedClicks(cs: seq<Click>): nat {
    if cs == [] then 0 else (if Confirmed(cs[0]) then 1 else 0) + ConfirmedClicks(cs[1..])
  }

  lemma {:induction false} PendingShrinks(mode: Rebuild, at: Placement, d: Dialog, cs: seq<Click>)
    requires Runs(mode, at, d, cs)
    ensures |AfterRun(mode, at, d, cs).pending| == |d.pending| - ConfirmedClicks(cs)
    decreases cs
  {
    if cs != [] {
      PendingShrinks(mode, at, AfterClick(mode, at, d, cs[0]), cs[1..]);
    }
  }

  /** The wire of a dialog tells how many clicks were confirmed; there are no more than requests. */
  lemma {:induction false} ErasuresAreConfirmed(mode: Rebuild, at: Placement, pending: seq<Request>, cs: seq<Click>)
    requires Runs(mode, at, Opened(at, pending), cs)
    ensures Erasures(AfterRun(mode, at, Opened(at, pending), cs).wire) == ConfirmedClicks(cs) <= |pending|
  {
    PendingShrinks(mode, at, Opened(at, pending), cs);
    AccountedOverRun(mode, at, Opened(at, pending), cs, |pending|);
  }

  // ----- Strings -----

  ghost predicate DistinctAddresses(rs: seq<Request>) {
    forall i, j :: 0 <= i < j < |rs| ==> rs[i].addr != rs[j].addr
  }

  lemma {:induction false} AddressCount(rs: seq<Request>)
    requires DistinctAddresses(rs)
    ensures |Addresses(rs)| == |rs|
  {
    if rs == [] {
      assert Addresses(rs) == {};
    } else {
      AddressCount(rs[1..]);
      assert rs == [rs[0]] + rs[1..];
      assert Addresses(rs) == {rs[0].addr} + Addresses(rs[1..]);
      assert rs[0].addr !in Addresses(rs[1..]);
    }
  }

  /** Deleting an entry leaves part of the addresses, still distinct. */
  lemma {:induction false} DeleteKeepsAddresses(rs: seq<Request>, k: int)
    requires DistinctAddresses(rs)
    ensures DistinctAddresses(Delete(rs, k)) && Addresses(Delete(rs, k)) <= Addresses(rs)
  {
    var left := Delete(rs, k);
    if 0 <= k < |rs| {
      assert forall i :: 0 <= i < |left| ==> left[i] == rs[if i < k then i else i + 1];
    }
  }

  lemma {:induction false} AddressesOverRun(mode: Rebuild, at: Placement, d: Dialog, cs: seq<Click>)
    requires DistinctAddresses(d.pending) && Runs(mode, at, d, cs)
    ensures var e := AfterRun(mode, at, d, cs);
            DistinctAddresses(e.pending) && Addresses(e.pending) <= Addresses(d.pending)
    decreases cs
  {
    if cs != [] {
      DeleteKeepsAddresses(d.pending, if cs[0].AddFriend? then -1 else cs[0].sel);
      AddressesOverRun(mode, at, AfterClick(mode, at, d, cs[0]), cs[1..]);
    }
  }

  /** A run from a freshly opened dialog speaks the handshake language, and the strings
      that its destructor can no longer reach are as many as the confirmed accepts and
      rejects. */
  lemma {:induction false} RunIsAccounted(mode: Rebuild, at: Placement, pending: seq<Request>, cs: seq<Click>)
    requires DistinctAddresses(pending) && Runs(mode, at, Opened(at, pending), cs)
    ensures var e := AfterRun(mode, at, Opened(at, pending), cs);
            && Accounted(e, |pending|)
            && Addresses(e.pending) <= Addresses(pending)
            && |Addresses(pending) - Addresses(e.pending)| == Erasures(e.wire)
  {
    var d := Opened(at, pending);
    AccountedOverRun(mode, at, d, cs, |pending|);
    AddressesOverRun(mode, at, d, cs);
    LeftBehind(pending, AfterRun(mode, at, d, cs).pending);
  }

  lemma {:induction false} LeftBehind(all: seq<Request>, rest: seq<Request>)
    requires DistinctAddresses(all) && DistinctAddresses(rest) && Addresses(rest) <= Addresses(all)
    ensures |Addresses(all) - Addresses(rest)| == |all| - |rest|
  {
    AddressCount(all);
    AddressCount(rest);
    assert Addresses(all) == Addresses(rest) + (Addresses(all) - Addresses(rest));
  }
}
