/** What a run of clicks sends, click by click and in click order. */
module Traffic {
  import opened ListBoxes
  import opened FriendDialog
  import opened FriendRuns
  import opened Handshake

  /** Clicks without a selection, or with an empty id, send nothing. */
  predicate Sends(c: Click) {
    match c
    case Accept(sel, _) => sel != -1
    case Reject(sel, _) => sel != -1
    case AddFriend(id, _) => |id.text| > 0
  }

  function Opening(c: Click): Message {
    match c
    case Accept(_, _) => Header(RESPOND_FRIEND_INFO, 2)
    case Reject(_, _) => Header(RESPOND_FRIEND_INFO, 1)
    case AddFriend(_, _) => Header(ADD_FRIEND, 1)
  }

  /** Whom a click is about, while the box shows these names. */
  function Subject(box: seq<Name>, c: Click): Name
    requires Sends(c) && (c.AddFriend? || 0 <= c.sel < |box|)
  {
    if c.AddFriend? then c.id else box[c.sel]
  }

  // ----- One click -----

  lemma {:induction false} SilentClick(mode: Rebuild, at: Placement, d: Dialog, c: Click)
    requires Possible(d, c) && !Sends(c)
    ensures AfterClick(mode, at, d, c) == d
  {
  }

  /** An accept with a selection, for any reply. */
  lemma {:induction false} AcceptSends(mode: Rebuild, at: Placement, d: Dialog, sel: int, reply: Reply)
    requires Possible(d, Accept(sel, reply)) && sel != -1
    ensures var e, head := AfterClick(mode, at, d, Accept(sel, reply)), [Header(RESPOND_FRIEND_INFO, 2), Answer(reply)];
            if reply == SUCCESS then
              && e.wire == d.wire + (head + [Data(COMMON_DATA, 1, Info(d.box[sel], true, false))])
              && e.infos == d.infos && e.pending == Delete(d.pending, sel)
            else
              e.wire == d.wire + head && e.infos == d.infos + 1 && e.pending == d.pending && e.box == d.box
  {
    var head := [Header(RESPOND_FRIEND_INFO, 2), Answer(reply)];
    assert head + [] == head;
  }

  /** A reject with a selection, for any reply. */
  lemma {:induction false} RejectSends(mode: Rebuild, at: Placement, d: Dialog, sel: int, reply: Reply)
    requires Possible(d, Reject(sel, reply)) && sel != -1
    ensures var e, head := AfterClick(mode, at, d, Reject(sel, reply)), [Header(RESPOND_FRIEND_INFO, 1), Answer(reply)];
            if reply == SUCCESS then
              && e.wire == d.wire + (head + [Data(COMMON_DATA, 1, Info(d.box[sel], false, false))])
              && e.infos == d.infos && e.pending == Delete(d.pending, sel)
            else
              e.wire == d.wire + head && e.infos == d.infos + 1 && e.pending == d.pending && e.box == d.box
  {
    var head := [Header(RESPOND_FRIEND_INFO, 1), Answer(reply)];
    assert head + [] == head;
  }

  /** An add click: nothing without an id, else the handshake, for any reply. */
  lemma {:induction false} AddFriendSends(mode: Rebuild, at: Placement, d: Dialog, id: Name, reply: Reply)
    ensures var e, head := AfterClick(mode, at, d, AddFriend(id, reply)), [Header(ADD_FRIEND, 1), Answer(reply)];
            && (id.text == [] ==> e == d)
            && (id.text != [] && reply == SUCCESS ==>
                  e == d.(wire := d.wire + (head + [Data(COMMON_DATA, 1, Info(id, true, false))])))
            && (id.text != [] && reply != SUCCESS ==>
                  e == d.(wire := d.wire + head, infos := d.infos + 1))
  {
    var head := [Header(ADD_FRIEND, 1), Answer(reply)];
    assert head + [] == head;
  }

  /** Any other click adds its header and the reply, and on SUCCESS one datum: the subject,
      a friend unless it is rejected.  A refusal adds one FriendInfo, and nothing else changes. */
  lemma {:induction false} ClickSends(mode: Rebuild, at: Placement, d: Dialog, c: Click)
    requires Possible(d, c) && Sends(c)
    ensures var e := AfterClick(mode, at, d, c);
            && (c.reply != SUCCESS ==> e == d.(wire := d.wire + [Opening(c), Answer(c.reply)], infos := d.infos + 1))
            && (c.reply == SUCCESS ==>
                  && e.infos == d.infos
                  && e.wire == d.wire + [Opening(c), Answer(SUCCESS),
                                         Data(COMMON_DATA, 1, Info(Subject(d.box, c), !c.Reject?, false))])
            && (c.AddFriend? ==> e.pending == d.pending && e.box == d.box)
  {
    var head := [Opening(c), Answer(c.reply)];
    if c.reply == SUCCESS {
      var data := Data(COMMON_DATA, 1, Info(Subject(d.box, c), !c.Reject?, false));
      assert head + [data] == [Opening(c), Answer(SUCCESS), data];
    } else {
      assert head + [] == head;
    }
  }

  // ----- All runs -----

  lemma {:induction false} PrefixRuns(mode: Rebuild, at: Placement, d: Dialog, cs: seq<Click>, i: nat)
    requires i < |cs| && Runs(mode, at, d, cs)
    ensures Runs(mode, at, d, cs[..i]) && Runs(mode, at, d, cs[..i + 1])
    ensures var b := AfterRun(mode, at, d, cs[..i]);
            Possible(b, cs[i]) && AfterRun(mode, at, d, cs[..i + 1]) == AfterClick(mode, at, b, cs[i])
    decreases i
  {
    assert cs[..i + 1][1..] == cs[1..][..i];
    if i > 0 {
      assert cs[..i][1..] == cs[1..][..i - 1];
      PrefixRuns(mode, at, AfterClick(mode, at, d, cs[0]), cs[1..], i - 1);
    }
  }

  datatype Part = Headers | Replies | Contents

  predicate In(part: Part, m: Message) {
    match part
    case Headers => m.Header?
    case Replies => m.Answer?
    case Contents => m.Data?
  }

  /** The messages of one kind, in order. */
  function Picked(part: Part, w: seq<Message>): seq<Message> {
    if w == [] then []
    else if In(part, w[0]) then [w[0]] + Picked(part, w[1..])
    else Picked(part, w[1..])
  }

  lemma {:induction false} PickedConcat(part: Part, a: seq<Message>, b: seq<Message>)
    ensures Picked(part, a + b) == Picked(part, a) + Picked(part, b)
  {
    if a == [] {
      assert a + b == b;
    } else {
      assert (a + b)[0] == a[0] && (a + b)[1..] == a[1..] + b;
      PickedConcat(part, a[1..], b);
      assert [a[0]] + (Picked(part, a[1..]) + Picked(part, b)) == ([a[0]] + Picked(part, a[1..])) + Picked(part, b);
    }
  }

  /** The clicks that such a message comes from: those that send, or are confirmed for contents. */
  function Senders(part: Part, cs: seq<Click>): seq<Click> {
    if cs == [] then []
    else (if Sends(cs[0]) && (part.Contents? ==> cs[0].reply == SUCCESS) then [cs[0]] else [])
         + Senders(part, cs[1..])
  }

  /** The header of a click, its reply, or its datum: the flags, and for an added friend the name. */
  predicate Carries(part: Part, m: Message, c: Click) {
    match part
    case Headers => m == Opening(c)
    case Replies => m == Answer(c.reply)
    case Contents =>
      && m.Data? && m.dataType == COMMON_DATA && m.dataCnt == 1
      && m.info.friending == !c.Reject? && !m.info.request
      && (c.AddFriend? ==> m.info.userID == c.id)
  }

  ghost predicate Match(part: Part, ms: seq<Message>, cs: seq<Click>) {
    |ms| == |cs| && forall i :: 0 <= i < |ms| ==> Carries(part, ms[i], cs[i])
  }

  /** From d to e the wire only grows, and what is added matches the clicks. */
  ghost predicate Grows(part: Part, d: Dialog, e: Dialog, cs: seq<Click>) {
    d.wire <= e.wire && Match(part, Picked(part, e.wire[|d.wire|..]), Senders(part, cs))
  }

  lemma {:induction false} PickedOne(part: Part, m: Message)
    ensures Picked(part, [m]) == if In(part, m) then [m] else []
  {
    assert [m][1..] == [];
  }

  lemma {:induction false} PickedFew(part: Part, head: Message, answer: Message, data: seq<Message>)
    requires head.Header? && answer.Answer? && |data| <= 1 && forall m :: m in data ==> m.Data?
    ensures Picked(part, [head, answer] + data) == match part
                                                   case Headers => [head]
                                                   case Replies => [answer]
                                                   case Contents => data
  {
    PickedConcat(part, [head, answer], data);
    PickedConcat(part, [head], [answer]);
    assert [head] + [answer] == [head, answer];
    PickedOne(part, head);
    PickedOne(part, answer);
    PickedData(part, data);
  }

  lemma {:induction false} PickedData(part: Part, data: seq<Message>)
    requires |data| <= 1 && forall m :: m in data ==> m.Data?
    ensures Picked(part, data) == if part.Contents? then data else []
  {
    if data != [] {
      assert data == [data[0]] && data[0] in data;
      PickedOne(part, data[0]);
    }
  }

  lemma {:induction false} SendersOfOne(part: Part, c: Click)
    ensures Senders(part, [c]) == if Sends(c) && (part.Contents? ==> c.reply == SUCCESS) then [c] else []
  {
    assert [c][1..] == [];
  }

  /** The messages of a click in d. */
  function Added(d: Dialog, c: Click): seq<Message>
    requires Listed(d, c)
  {
    if !Sends(c) then []
    else [Opening(c), Answer(c.reply)]
         + if c.reply == SUCCESS then [Data(COMMON_DATA, 1, Info(Subject(d.box, c), !c.Reject?, false))] else []
  }

  lemma {:induction false} ClickAdds(mode: Rebuild, at: Placement, d: Dialog, c: Click)
    requires Possible(d, c)
    ensures AfterClick(mode, at, d, c).wire == d.wire + Added(d, c)
  {
    if Sends(c) {
      ClickSends(mode, at, d, c);
      if c.reply != SUCCESS {
        assert [Opening(c), Answer(c.reply)] + [] == [Opening(c), Answer(c.reply)];
      }
    } else {
      SilentClick(mode, at, d, c);
    }
  }

  lemma {:induction false} AddedMatches(part: Part, d: Dialog, c: Click)
    requires Listed(d, c)
    ensures Match(part, Picked(part, Added(d, c)), Senders(part, [c]))
  {
    SendersOfOne(part, c);
    if Sends(c) {
      var data := if c.reply == SUCCESS then [Data(COMMON_DATA, 1, Info(Subject(d.box, c), !c.Reject?, false))] else [];
      PickedFew(part, Opening(c), Answer(c.reply), data);
    }
  }

  lemma {:induction false} ClickGrows(part: Part, mode: Rebuild, at: Placement, d: Dialog, c: Click)
    requires Possible(d, c)
    ensures Grows(part, d, AfterClick(mode, at, d, c), [c])
  {
    ClickAdds(mode, at, d, c);
    AddedMatches(part, d, c);
    Suffix(d.wire, Added(d, c));
  }

  lemma {:induction false} Suffix(x: seq<Message>, y: seq<Message>)
    ensures x <= x + y && (x + y)[|x|..] == y
  {
  }

  lemma {:induction false} SuffixConcat(x: seq<Message>, y: seq<Message>, z: seq<Message>)
    requires x <= y <= z
    ensures x <= z && z[|x|..] == y[|x|..] + z[|y|..]
  {
  }

  lemma {:induction false} MatchConcat(part: Part, ms: seq<Message>, ns: seq<Message>, cs: seq<Click>, ds: seq<Click>)
    requires Match(part, ms, cs) && Match(part, ns, ds)
    ensures Match(part, ms + ns, cs + ds)
  {
  }

  lemma {:induction false} GrowsOn(part: Part, d: Dialog, m: Dialog, e: Dialog, some: seq<Click>, more: seq<Click>)
    requires Grows(part, d, m, some) && Grows(part, m, e, more)
    ensures Grows(part, d, e, some + more)
  {
    var x, y := m.wire[|d.wire|..], e.wire[|m.wire|..];
    SuffixConcat(d.wire, m.wire, e.wire);
    PickedConcat(part, x, y);
    SendersConcat(part, some, more);
    MatchConcat(part, Picked(part, x), Picked(part, y), Senders(part, some), Senders(part, more));
  }

  lemma {:induction false} SendersConcat(part: Part, some: seq<Click>, more: seq<Click>)
    ensures Senders(part, some + more) == Senders(part, some) + Senders(part, more)
  {
    if some == [] {
      assert some + more == more;
    } else {
      assert (some + more)[1..] == some[1..] + more;
      SendersConcat(part, some[1..], more);
    }
  }

  lemma {:induction false} RunGrows(part: Part, mode: Rebuild, at: Placement, d: Dialog, cs: seq<Click>)
    requires Runs(mode, at, d, cs)
    ensures Grows(part, d, AfterRun(mode, at, d, cs), cs)
    decreases cs
  {
    if cs == [] {
      assert d.wire[|d.wire|..] == [];
    } else {
      var m := AfterClick(mode, at, d, cs[0]);
      ClickGrows(part, mode, at, d, cs[0]);
      RunGrows(part, mode, at, m, cs[1..]);
      GrowsOn(part, d, m, AfterRun(mode, at, d, cs), [cs[0]], cs[1..]);
      assert [cs[0]] + cs[1..] == cs;
    }
  }

  /** The headers and the replies on the wire of a shown dialog are those of the clicks that
      send, in click order, whatever was replied; its data those of the confirmed ones. */
  lemma {:induction false} RunTraffic(mode: Rebuild, at: Placement, pending: seq<Request>, cs: seq<Click>, part: Part)
    requires Runs(mode, at, Opened(at, pending), cs)
    ensures Match(part, Picked(part, AfterRun(mode, at, Opened(at, pending), cs).wire), Senders(part, cs))
  {
    RunGrows(part, mode, at, Opened(at, pending), cs);
  }

  /** Before click i the dialog is b, after it e: it sends nothing and leaves b as it is, or
      adds its messages, whose datum names the entry that b's box shows, or the added friend. */
  lemma {:induction false} ClickOfRun(mode: Rebuild, at: Placement, d: Dialog, cs: seq<Click>, i: nat)
    requires i < |cs| && Runs(mode, at, d, cs)
    ensures Runs(mode, at, d, cs[..i]) && Runs(mode, at, d, cs[..i + 1])
    ensures var b, e, c := AfterRun(mode, at, d, cs[..i]), AfterRun(mode, at, d, cs[..i + 1]), cs[i];
            && (!Sends(c) ==> e == b)
            && (Sends(c) && c.reply != SUCCESS ==>
                  e == b.(wire := b.wire + [Opening(c), Answer(c.reply)], infos := b.infos + 1))
            && (Sends(c) && c.reply == SUCCESS ==>
                  && e.infos == b.infos
                  && (c.AddFriend? || 0 <= c.sel < |b.box|)
                  && e.wire == b.wire + [Opening(c), Answer(SUCCESS),
                                         Data(COMMON_DATA, 1, Info(Subject(b.box, c), !c.Reject?, false))])
  {
    PrefixRuns(mode, at, d, cs, i);
    var b := AfterRun(mode, at, d, cs[..i]);
    if Sends(cs[i]) {
      ClickSends(mode, at, b, cs[i]);
    } else {
      SilentClick(mode, at, b, cs[i]);
    }
  }

  // ----- Numbers -----

  function AcceptsOf(cs: seq<Click>): nat {
    if cs == [] then 0 else (if cs[0].Accept? && cs[0].sel != -1 then 1 else 0) + AcceptsOf(cs[1..])
  }

  function RejectsOf(cs: seq<Click>): nat {
    if cs == [] then 0 else (if cs[0].Reject? && cs[0].sel != -1 then 1 else 0) + RejectsOf(cs[1..])
  }

  function AddsOf(cs: seq<Click>): nat {
    if cs == [] then 0 else (if cs[0].AddFriend? && cs[0].id.text != [] then 1 else 0) + AddsOf(cs[1..])
  }

  function RefusedOf(cs: seq<Click>): nat {
    if cs == [] then 0 else (if Sends(cs[0]) && cs[0].reply != SUCCESS then 1 else 0) + RefusedOf(cs[1..])
  }

  /** From d to e the wire has gained so many headers of each kind, and so many FriendInfo are left. */
  ghost predicate Gained(d: Dialog, e: Dialog, accepts: nat, rejects: nat, adds: nat, refused: nat) {
    var x, y := multiset(e.wire), multiset(d.wire);
    && x[Header(RESPOND_FRIEND_INFO, 2)] == y[Header(RESPOND_FRIEND_INFO, 2)] + accepts
    && x[Header(RESPOND_FRIEND_INFO, 1)] == y[Header(RESPOND_FRIEND_INFO, 1)] + rejects
    && x[Header(ADD_FRIEND, 1)] == y[Header(ADD_FRIEND, 1)] + adds
    && e.infos == d.infos + refused
  }

  lemma {:induction false} HeadersAdded(w: seq<Message>, d: Dialog, c: Click, m: Message)
    requires Listed(d, c) && m.Header?
    ensures multiset(w + Added(d, c))[m] == multiset(w)[m] + if Sends(c) && Opening(c) == m then 1 else 0
  {
    if Sends(c) {
      var data := if c.reply == SUCCESS then [Data(COMMON_DATA, 1, Info(Subject(d.box, c), !c.Reject?, false))] else [];
      assert m !in data && m !in [Answer(c.reply)];
      assert Added(d, c) == [Opening(c)] + ([Answer(c.reply)] + data);
    }
  }

  lemma {:induction false} InfosAdded(mode: Rebuild, at: Placement, d: Dialog, c: Click)
    requires Possible(d, c)
    ensures AfterClick(mode, at, d, c).infos == d.infos + if Sends(c) && c.reply != SUCCESS then 1 else 0
  {
    if Sends(c) {
      ClickSends(mode, at, d, c);
    } else {
      SilentClick(mode, at, d, c);
    }
  }

  lemma {:induction false} ClickGains(mode: Rebuild, at: Placement, d: Dialog, c: Click)
    requires Possible(d, c)
    ensures Gained(d, AfterClick(mode, at, d, c), if c.Accept? && c.sel != -1 then 1 else 0,
                   if c.Reject? && c.sel != -1 then 1 else 0, if c.AddFriend? && c.id.text != [] then 1 else 0,
                   if Sends(c) && c.reply != SUCCESS then 1 else 0)
  {
    ClickAdds(mode, at, d, c);
    InfosAdded(mode, at, d, c);
    HeadersAdded(d.wire, d, c, Header(RESPOND_FRIEND_INFO, 2));
    HeadersAdded(d.wire, d, c, Header(RESPOND_FRIEND_INFO, 1));
    HeadersAdded(d.wire, d, c, Header(ADD_FRIEND, 1));
  }

  lemma {:induction false} RunGains(mode: Rebuild, at: Placement, d: Dialog, cs: seq<Click>)
    requires Runs(mode, at, d, cs)
    ensures Gained(d, AfterRun(mode, at, d, cs), AcceptsOf(cs), RejectsOf(cs), AddsOf(cs), RefusedOf(cs))
    decreases cs
  {
    if cs != [] {
      ClickGains(mode, at, d, cs[0]);
      RunGains(mode, at, AfterClick(mode, at, d, cs[0]), cs[1..]);
    }
  }

  /** Over every run, whatever was replied: respond headers with count 2 are as many as the
      accepts with a selection, those with count 1 as the rejects with one, add headers as the
      add clicks with an id; and one FriendInfo is left per refused click. */
  lemma {:induction false} RunNumbers(mode: Rebuild, at: Placement, pending: seq<Request>, cs: seq<Click>)
    requires Runs(mode, at, Opened(at, pending), cs)
    ensures var e := AfterRun(mode, at, Opened(at, pending), cs);
            && multiset(e.wire)[Header(RESPOND_FRIEND_INFO, 2)] == AcceptsOf(cs)
            && multiset(e.wire)[Header(RESPOND_FRIEND_INFO, 1)] == RejectsOf(cs)
            && multiset(e.wire)[Header(ADD_FRIEND, 1)] == AddsOf(cs)
            && e.infos == RefusedOf(cs)
  {
    RunGains(mode, at, Opened(at, pending), cs);
  }
}
