/** The friend-request dialog (MFCApplication1/FriendControlView.cpp): a vector of
    pending requests beside a list box, and the two-message handshake of its buttons. */
module FriendDialog {
  import opened ListBoxes

  // Codes of Common/common.h:67-82.
  const COMMON_DATA: nat := 3
  const RESPOND_FRIEND_INFO: nat := 6
  const ADD_FRIEND: nat := 7

  /** What RespondData returns; any value may come from the server. */
  datatype Reply = SUCCESS | FAIL | ERROR

  datatype Info = Info(userID: Name, friending: bool, request: bool)

  /** Traffic in order: a header sent with the user's account, a reply, friend data behind
      a header of its own. */
  datatype Message =
    | Header(dataType: nat, dataCnt: nat)
    | Answer(reply: Reply)
    | Data(dataType: nat, dataCnt: nat, info: Info)

  /** A CString on the heap: its address and its text. */
  datatype Request = Request(addr: nat, name: Name)

  function Names(rs: seq<Request>): (ns: seq<Name>)
    ensures |ns| == |rs| && forall i :: 0 <= i < |rs| ==> ns[i] == rs[i].name
  {
    if rs == [] then [] else [rs[0].name] + Names(rs[1..])
  }

  /** A shown dialog; infos counts the FriendInfo objects that were never deleted. */
  datatype Dialog = Dialog(pending: seq<Request>, box: seq<Name>, wire: seq<Message>, infos: nat)

  /** Button clicks with the selection (-1: none) and the server's reply. */
  datatype Click =
    | Accept(sel: int, reply: Reply)
    | Reject(sel: int, reply: Reply)
    | AddFriend(id: Name, reply: Reply)

  /** How the box is emptied before it is filled again: by the source's index loop,
      or altogether, as its comment intends. */
  datatype Rebuild = AsWritten | Cleared

  // ----- The deletion loop -----

  /** DeleteString(cnt), DeleteString(cnt + 1), ... below m. */
  function DeleteLoop(box: seq<Name>, cnt: nat, m: nat): seq<Name>
    decreases m - cnt
  {
    if cnt >= m then box else DeleteLoop(Delete(box, cnt), cnt + 1, m)
  }

  function Emptied(mode: Rebuild, box: seq<Name>): seq<Name> {
    match mode
    case AsWritten => DeleteLoop(box, 0, |box|)
    case Cleared => []
  }

  /** UpdateListView: nothing when the sizes agree, else empty and copy. */
  function Updated(mode: Rebuild, at: Placement, box: seq<Name>, names: seq<Name>): seq<Name> {
    if |names| == |box| then box else PlaceAll(at, Emptied(mode, box), names)
  }

  // ----- One click -----

  function Exchange(dataType: nat, dataCnt: nat, info: Info, reply: Reply): seq<Message> {
    [Header(dataType, dataCnt), Answer(reply)] + if reply == SUCCESS then [Data(COMMON_DATA, 1, info)] else []
  }

  lemma {:induction false} SentInSteps(w: seq<Message>, dataType: nat, dataCnt: nat, info: Info, reply: Reply)
    ensures var head, x := w + [Header(dataType, dataCnt)] + [Answer(reply)], Exchange(dataType, dataCnt, info, reply);
            if reply == SUCCESS then head + [Data(COMMON_DATA, 1, info)] == w + x else head == w + x
  {
  }

  /** An accept or reject that the server confirms. */
  predicate Confirmed(c: Click) {
    !c.AddFriend? && c.sel != -1 && c.reply == SUCCESS
  }

  /** What the control allows: no selection, or an entry of the box. */
  predicate Listed(d: Dialog, c: Click) {
    c.AddFriend? || c.sel == -1 || 0 <= c.sel < |d.box|
  }

  /** What the vector allows: a confirmed answer erases at the selection, which is defined
      only for an index of the vector. */
  predicate Possible(d: Dialog, c: Click) {
    Listed(d, c) && (Confirmed(c) ==> c.sel < |d.pending|)
  }

  /** Accept and reject differ in the count they announce and the flag they send. */
  function Responded(mode: Rebuild, at: Placement, d: Dialog, sel: int, reply: Reply,
                     dataCnt: nat, friending: bool): Dialog
    requires 0 <= sel < |d.box| && (reply == SUCCESS ==> sel < |d.pending|)
  {
    var wire := d.wire + Exchange(RESPOND_FRIEND_INFO, dataCnt, Info(d.box[sel], friending, false), reply);
    if reply != SUCCESS then d.(wire := wire, infos := d.infos + 1)
    else
      var pending := Delete(d.pending, sel);
      Dialog(pending, Updated(mode, at, d.box, Names(pending)), wire, d.infos)
  }

  function AfterClick(mode: Rebuild, at: Placement, d: Dialog, c: Click): Dialog
    requires Possible(d, c)
  {
    match c
    case Accept(sel, reply) =>
      if sel == -1 then d else Responded(mode, at, d, sel, reply, 2, true)
    case Reject(sel, reply) =>
      if sel == -1 then d else Responded(mode, at, d, sel, reply, 1, false)
    case AddFriend(id, reply) =>
      if id.text == [] then d
      else Dialog(d.pending, d.box, d.wire + Exchange(ADD_FRIEND, 1, Info(id, true, false), reply),
                  d.infos + if reply == SUCCESS then 0 else 1)
  }

  // ----- Runs -----

  /** The dialog as InitListView leaves it. */
  function Opened(at: Placement, pending: seq<Request>): Dialog {
    Dialog(pending, PlaceAll(at, [], Names(pending)), [], 0)
  }

  predicate Runs(mode: Rebuild, at: Placement, d: Dialog, cs: seq<Click>)
    decreases cs
  {
    cs == [] || (Possible(d, cs[0]) && Runs(mode, at, AfterClick(mode, at, d, cs[0]), cs[1..]))
  }

  /** The clicks are entries of the box, as far as the run is defined. */
  predicate Presented(mode: Rebuild, at: Placement, d: Dialog, cs: seq<Click>)
    decreases cs
  {
    cs == [] ||
    (Listed(d, cs[0]) && (Possible(d, cs[0]) ==> Presented(mode, at, AfterClick(mode, at, d, cs[0]), cs[1..])))
  }

  function AfterRun(mode: Rebuild, at: Placement, d: Dialog, cs: seq<Click>): Dialog
    requires Runs(mode, at, d, cs)
    decreases cs
  {
    if cs == [] then d else AfterRun(mode, at, AfterClick(mode, at, d, cs[0]), cs[1..])
  }

  /** In the middle of a run: what is left of it decides whether the whole is defined, and
      leads to the same dialog. */
  ghost predicate Continues(at: Placement, start: Dialog, cs: seq<Click>, d: Dialog, rest: seq<Click>) {
    && Presented(AsWritten, at, d, rest)
    && (Runs(AsWritten, at, start, cs) <==> Runs(AsWritten, at, d, rest))
    && (Runs(AsWritten, at, start, cs) ==> AfterRun(AsWritten, at, d, rest) == AfterRun(AsWritten, at, start, cs))
  }

  lemma {:induction false} ContinuesByOne(at: Placement, start: Dialog, cs: seq<Click>, d: Dialog, i: nat)
    requires i < |cs| && Continues(at, start, cs, d, cs[i..])
    ensures Listed(d, cs[i])
    ensures !Possible(d, cs[i]) ==> !Runs(AsWritten, at, start, cs)
    ensures Possible(d, cs[i]) ==> Continues(at, start, cs, AfterClick(AsWritten, at, d, cs[i]), cs[i + 1..])
  {
    assert cs[i..][0] == cs[i] && cs[i..][1..] == cs[i + 1..];
  }

  // ----- The class -----

  class FriendControlView {
    const at: Placement
    var reqFriendList: seq<Request>
    var friendRequestBox: ListBox?
    var wire: seq<Message>
    var infos: nat
    /** The heap of CString objects: which addresses are live, and the next fresh one. */
    var strings: set<nat>
    var nextAddr: nat

    ghost predicate Valid()
      reads this, friendRequestBox
    {
      && (friendRequestBox != null ==> friendRequestBox.at == at)
      && (forall a :: a in strings ==> a < nextAddr)
      && (forall r :: r in reqFriendList ==> r.addr in strings)
      && (forall i, j :: 0 <= i < j < |reqFriendList| ==> reqFriendList[i].addr != reqFriendList[j].addr)
    }

    ghost function View(): Dialog
      reads this, friendRequestBox
      requires friendRequestBox != null
    {
      Dialog(reqFriendList, friendRequestBox.items, wire, infos)
    }

    constructor (at: Placement)
      ensures Valid() && this.at == at
      ensures reqFriendList == [] && friendRequestBox == null && wire == [] && infos == 0
      ensures strings == {} && nextAddr == 0
    {
      this.at := at;
      reqFriendList := [];
      friendRequestBox := null;
      wire := [];
      infos := 0;
      strings := {};
      nextAddr := 0;
    }

    /** Before the dialog is shown there is no box, and the name goes to the vector. */
    method UpdateRequestFriendList(name: Name) returns (shown: bool)
      requires Valid()
      modifies this, friendRequestBox
      ensures Valid() && friendRequestBox == old(friendRequestBox)
      ensures shown == (friendRequestBox != null)
      ensures wire == old(wire) && infos == old(infos)
      ensures !shown ==> reqFriendList == old(reqFriendList) + [Request(old(nextAddr), name)]
      ensures !shown ==> strings == old(strings) + {old(nextAddr)} && nextAddr == old(nextAddr) + 1
      ensures shown ==> reqFriendList == old(reqFriendList) && strings == old(strings)
      ensures shown ==> friendRequestBox.items == Place(at, old(friendRequestBox.items), name)
    {
      if friendRequestBox == null {
        reqFriendList := reqFriendList + [Request(nextAddr, name)];
        strings := strings + {nextAddr};
        nextAddr := nextAddr + 1;
        return false;
      }
      friendRequestBox.AddString(name);
      return true;
    }

    method InitListView()
      requires Valid() && friendRequestBox != null && friendRequestBox.items == []
      modifies friendRequestBox
      ensures Valid()
      ensures friendRequestBox.items == PlaceAll(at, [], Names(reqFriendList))
    {
      if |reqFriendList| <= 0 {
        return;
      }
      CopyToBox();
    }

    /** The copying loop that InitListView and UpdateListView share. */
    method CopyToBox()
      requires Valid() && friendRequestBox != null
      modifies friendRequestBox
      ensures Valid()
      ensures friendRequestBox.items == PlaceAll(at, old(friendRequestBox.items), Names(reqFriendList))
    {
      ghost var names, before := Names(reqFriendList), friendRequestBox.items;
      for cnt := 0 to |reqFriendList|
        invariant friendRequestBox.at == at
        invariant friendRequestBox.items == PlaceAll(at, before, names[..cnt])
      {
        PlaceNext(at, before, names, cnt);
        friendRequestBox.AddString(reqFriendList[cnt].name);
      }
      assert names[..|names|] == names;
    }

    /** The loop of UpdateListView that deletes by a growing index. */
    method DeleteByIndex()
      requires Valid() && friendRequestBox != null
      modifies friendRequestBox
      ensures Valid()
      ensures friendRequestBox.items == Emptied(AsWritten, old(friendRequestBox.items))
    {
      var listMaxSize := |friendRequestBox.items|;
      ghost var rest := Emptied(AsWritten, friendRequestBox.items);
      for cnt := 0 to listMaxSize
        invariant friendRequestBox.at == at
        invariant rest == DeleteLoop(friendRequestBox.items, cnt, listMaxSize)
      {
        friendRequestBox.DeleteString(cnt);
      }
    }

    method UpdateListView()
      requires Valid() && friendRequestBox != null
      modifies friendRequestBox
      ensures Valid()
      ensures friendRequestBox.items == Updated(AsWritten, at, old(friendRequestBox.items), Names(reqFriendList))
    {
      var size := |reqFriendList|;
      var listMaxSize := |friendRequestBox.items|;
      if size == listMaxSize {
        return;
      }
      DeleteByIndex();
      CopyToBox();
    }

    /** erase(begin + k), then the box is brought up to date. */
    method EraseRequest(k: nat)
      requires Valid() && friendRequestBox != null && k < |reqFriendList|
      modifies this`reqFriendList, friendRequestBox
      ensures Valid()
      ensures reqFriendList == Delete(old(reqFriendList), k)
      ensures friendRequestBox.items == Updated(AsWritten, at, old(friendRequestBox.items), Names(reqFriendList))
    {
      reqFriendList := Delete(reqFriendList, k);
      UpdateListView();
    }

    /** The part that the accept and reject handlers have in common.  When the answer is
        confirmed and the selection lies behind the vector's end, the erase is undefined:
        everything has been sent, and nothing is said about what follows. */
    method Respond(currentItem: int, reply: Reply, dataCnt: nat, friending: bool) returns (defined: bool)
      requires Valid() && friendRequestBox != null && 0 <= currentItem < |friendRequestBox.items|
      modifies this, friendRequestBox
      ensures Valid() && friendRequestBox == old(friendRequestBox) && strings == old(strings)
      ensures defined <==> (reply == SUCCESS ==> currentItem < |old(reqFriendList)|)
      ensures defined ==>
                View() == Responded(AsWritten, at, old(View()), currentItem, reply, dataCnt, friending)
      ensures !defined ==>
                && reqFriendList == old(reqFriendList) && friendRequestBox.items == old(friendRequestBox.items)
                && wire == old(wire) + Exchange(RESPOND_FRIEND_INFO, dataCnt,
                                                Info(friendRequestBox.items[currentItem], friending, false), reply)
    {
      var currentString := friendRequestBox.items[currentItem];
      infos := infos + 1;
      var friendInfo := Info(currentString, friending, false);
      wire := wire + [Header(RESPOND_FRIEND_INFO, dataCnt)];
      wire := wire + [Answer(reply)];
      SentInSteps(old(wire), RESPOND_FRIEND_INFO, dataCnt, friendInfo, reply);
      if reply != SUCCESS {
        return true;
      }
      wire := wire + [Data(COMMON_DATA, 1, friendInfo)];
      if currentItem >= |reqFriendList| {
        return false;
      }
      EraseRequest(currentItem);
      infos := infos - 1;
      return true;
    }

    method ReqAcceptBtnClicked(currentItem: int, reply: Reply) returns (defined: bool)
      requires Valid() && friendRequestBox != null && Listed(View(), Accept(currentItem, reply))
      modifies this, friendRequestBox
      ensures Valid() && friendRequestBox == old(friendRequestBox) && strings == old(strings)
      ensures defined <==> Possible(old(View()), Accept(currentItem, reply))
      ensures defined ==> View() == AfterClick(AsWritten, at, old(View()), Accept(currentItem, reply))
      ensures currentItem == -1 ==> defined && View() == old(View())
      ensures currentItem != -1 ==>
                wire == old(wire) + ([Header(RESPOND_FRIEND_INFO, 2), Answer(reply)]
                  + if reply == SUCCESS then [Data(COMMON_DATA, 1, Info(old(View()).box[currentItem], true, false))]
                    else [])
      ensures currentItem != -1 && reply != SUCCESS ==>
                infos == old(infos) + 1 && View() == old(View()).(wire := wire, infos := infos)
      ensures currentItem != -1 && reply == SUCCESS && defined ==>
                infos == old(infos) && reqFriendList == Delete(old(reqFriendList), currentItem)
    {
      if currentItem == -1 {
        return true;
      }
      defined := Respond(currentItem, reply, 2, true);
    }

    method ReqRejectBtnClicked(currentItem: int, reply: Reply) returns (defined: bool)
      requires Valid() && friendRequestBox != null && Listed(View(), Reject(currentItem, reply))
      modifies this, friendRequestBox
      ensures Valid() && friendRequestBox == old(friendRequestBox) && strings == old(strings)
      ensures defined <==> Possible(old(View()), Reject(currentItem, reply))
      ensures defined ==> View() == AfterClick(AsWritten, at, old(View()), Reject(currentItem, reply))
      ensures currentItem == -1 ==> defined && View() == old(View())
      ensures currentItem != -1 ==>
                wire == old(wire) + ([Header(RESPOND_FRIEND_INFO, 1), Answer(reply)]
                  + if reply == SUCCESS then [Data(COMMON_DATA, 1, Info(old(View()).box[currentItem], false, false))]
                    else [])
      ensures currentItem != -1 && reply != SUCCESS ==>
                infos == old(infos) + 1 && View() == old(View()).(wire := wire, infos := infos)
      ensures currentItem != -1 && reply == SUCCESS && defined ==>
                infos == old(infos) && reqFriendList == Delete(old(reqFriendList), currentItem)
    {
      if currentItem == -1 {
        return true;
      }
      defined := Respond(currentItem, reply, 1, false);
    }

    method AddFriendBtnClicked(friendAddID: Name, reply: Reply)
      requires Valid() && friendRequestBox != null
      modifies this
      ensures Valid() && friendRequestBox == old(friendRequestBox) && strings == old(strings)
      ensures View() == AfterClick(AsWritten, at, old(View()), AddFriend(friendAddID, reply))
      ensures friendAddID.text == [] ==> View() == old(View())
      ensures friendAddID.text != [] ==>
                && wire == old(wire) + ([Header(ADD_FRIEND, 1), Answer(reply)]
                     + if reply == SUCCESS then [Data(COMMON_DATA, 1, Info(friendAddID, true, false))] else [])
                && View() == old(View()).(wire := wire, infos := old(infos) + if reply == SUCCESS then 0 else 1)
    {
      if |friendAddID.text| <= 0 {
        return;
      }
      infos := infos + 1;
      var info := Info(friendAddID, true, false);
      wire := wire + [Header(ADD_FRIEND, 1)];
      wire := wire + [Answer(reply)];
      SentInSteps(old(wire), ADD_FRIEND, 1, info, reply);
      if reply != SUCCESS {
        return;
      }
      wire := wire + [Data(COMMON_DATA, 1, info)];
      infos := infos - 1;
    }

    /** The message map: one handler per button. */
    method Handle(c: Click) returns (defined: bool)
      requires Valid() && friendRequestBox != null && Listed(View(), c)
      modifies this, friendRequestBox
      ensures Valid() && friendRequestBox == old(friendRequestBox) && strings == old(strings)
      ensures defined <==> Possible(old(View()), c)
      ensures defined ==> View() == AfterClick(AsWritten, at, old(View()), c)
    {
      match c
      case Accept(sel, reply) => defined := ReqAcceptBtnClicked(sel, reply);
      case Reject(sel, reply) => defined := ReqRejectBtnClicked(sel, reply);
      case AddFriend(id, reply) =>
        AddFriendBtnClicked(id, reply);
        defined := true;
    }

    /** DoModal: the box is created and filled, then the clicks are handled, up to the
        first one that is undefined. */
    method DoModal(clicks: seq<Click>) returns (defined: bool)
      requires Valid() && friendRequestBox == null && wire == [] && infos == 0
      requires Presented(AsWritten, at, Opened(at, reqFriendList), clicks)
      modifies this
      ensures Valid() && friendRequestBox != null && fresh(friendRequestBox) && strings == old(strings)
      ensures defined <==> Runs(AsWritten, at, Opened(at, old(reqFriendList)), clicks)
      ensures defined ==> View() == AfterRun(AsWritten, at, Opened(at, old(reqFriendList)), clicks)
    {
      friendRequestBox := new ListBox(at);
      InitListView();
      ghost var start := View();
      assert clicks[0..] == clicks;
      for i := 0 to |clicks|
        invariant Valid() && friendRequestBox != null && fresh(friendRequestBox) && strings == old(strings)
        invariant Continues(at, start, clicks, View(), clicks[i..])
      {
        ContinuesByOne(at, start, clicks, View(), i);
        defined := Handle(clicks[i]);
        if !defined {
          return false;
        }
      }
      return true;
    }

    /** delete of one CString; a second delete of the same one would be undefined. */
    method FreeString(addr: nat)
      requires addr in strings
      modifies this`strings
      ensures strings == old(strings) - {addr}
    {
      strings := strings - {addr};
    }

    /** The destructor frees what is still in the vector, each string once. */
    method Destroy()
      requires Valid()
      modifies this
      ensures strings == old(strings) - Addresses(old(reqFriendList))
      ensures reqFriendList == [] && wire == old(wire) && infos == old(infos)
    {
      for cnt := 0 to |reqFriendList|
        invariant reqFriendList == old(reqFriendList) && wire == old(wire) && infos == old(infos)
        invariant strings == old(strings) - Addresses(reqFriendList[..cnt])
        invariant forall i :: cnt <= i < |reqFriendList| ==> reqFriendList[i].addr in strings
      {
        FreeString(reqFriendList[cnt].addr);
        assert reqFriendList[..cnt + 1] == reqFriendList[..cnt] + [reqFriendList[cnt]];
      }
      assert reqFriendList[..|reqFriendList|] == reqFriendList;
      reqFriendList := [];
    }
  }

  function Addresses(rs: seq<Request>): set<nat> {
    set r | r in rs :: r.addr
  }
}
