/** The main window (MFCApplication1/MainView.cpp): it splits the friend records between
    its own list box and a new request dialog, and keeps one chat window per target. */
module MainWindow {
  import opened Wrappers
  import opened ListBoxes
  import opened FriendDialog
  import opened Handshake

  function Friends(infos: seq<Info>): seq<Name> {
    if infos == [] then []
    else (if infos[0].friending then [infos[0].userID] else []) + Friends(infos[1..])
  }

  function Requesters(infos: seq<Info>): seq<Name> {
    if infos == [] then []
    else (if infos[0].friending then [] else [infos[0].userID]) + Requesters(infos[1..])
  }

  /** The vector of a new dialog: one fresh string per requester, in record order. */
  function Queue(names: seq<Name>): (rs: seq<Request>)
    ensures |rs| == |names| && forall i :: 0 <= i < |rs| ==> rs[i] == Request(i, names[i])
  {
    if names == [] then []
    else
      var last := |names| - 1;
      Queue(names[..last]) + [Request(last, names[last])]
  }

  /** The friend list, the request vector of a dialog not shown yet, the targets of the
      chat windows, and the CString objects that no destructor can free. */
  datatype Main = Main(list: seq<Name>, next: Option<seq<Request>>, chats: seq<Name>, leaked: nat)

  datatype Action = OpenDialog(clicks: seq<Click>) | Talk(sel: int)

  /** After OnInitDialog. */
  function Start(at: Placement, infos: seq<Info>): Main {
    Main(PlaceAll(at, [], Friends(infos)), Some(Queue(Requesters(infos))), [], 0)
  }

  /** The state in which the dialog is shown: it is created, and the records read once
      more, unless OnInitDialog's dialog is still there. */
  function Prepared(at: Placement, infos: seq<Info>, m: Main): (p: Main)
    ensures p.next.Some?
  {
    if m.next.Some? then m
    else m.(list := PlaceAll(at, m.list, Friends(infos)), next := Some(Queue(Requesters(infos))))
  }

  /** The clicks are possible in the prepared dialog. */
  predicate Showable(at: Placement, m: Main, clicks: seq<Click>) {
    m.next.Some? && Runs(AsWritten, at, Opened(at, m.next.value), clicks)
  }

  /** DoModal, then delete: what the confirmed clicks erased can no longer be freed. */
  function Closed(at: Placement, m: Main, clicks: seq<Click>): Main
    requires Showable(at, m, clicks)
  {
    m.(next := None, leaked := m.leaked + Erasures(AfterRun(AsWritten, at, Opened(at, m.next.value), clicks).wire))
  }

  predicate PossibleAction(at: Placement, infos: seq<Info>, m: Main, a: Action) {
    match a
    case OpenDialog(clicks) => Showable(at, Prepared(at, infos, m), clicks)
    case Talk(sel) => sel == -1 || 0 <= sel < |m.list|
  }

  function AfterAction(at: Placement, infos: seq<Info>, m: Main, a: Action): Main
    requires PossibleAction(at, infos, m, a)
  {
    match a
    case OpenDialog(clicks) => Closed(at, Prepared(at, infos, m), clicks)
    case Talk(sel) =>
      if sel == -1 || m.list[sel] in m.chats then m
      else m.(chats := m.chats + [m.list[sel]])
  }

  predicate PossibleActions(at: Placement, infos: seq<Info>, m: Main, acts: seq<Action>)
    decreases acts
  {
    acts == [] ||
    (PossibleAction(at, infos, m, acts[0]) && PossibleActions(at, infos, AfterAction(at, infos, m, acts[0]), acts[1..]))
  }

  function AfterActions(at: Placement, infos: seq<Info>, m: Main, acts: seq<Action>): Main
    requires PossibleActions(at, infos, m, acts)
    decreases acts
  {
    if acts == [] then m else AfterActions(at, infos, AfterAction(at, infos, m, acts[0]), acts[1..])
  }

  lemma {:induction false} SplitNext(infos: seq<Info>, n: nat)
    requires n < |infos|
    ensures Friends(infos[..n + 1]) == Friends(infos[..n]) + (if infos[n].friending then [infos[n].userID] else [])
    ensures Requesters(infos[..n + 1])
         == Requesters(infos[..n]) + (if infos[n].friending then [] else [infos[n].userID])
  {
    if n > 0 {
      SplitNext(infos[1..], n - 1);
      assert infos[..n + 1][1..] == infos[1..][..n];
      assert infos[..n][1..] == infos[1..][..n - 1];
    } else {
      assert infos[..1] == [infos[0]] && infos[..1][1..] == [] && infos[..0] == [];
    }
  }

  function Ids(infos: seq<Info>): seq<Name> {
    if infos == [] then [] else [infos[0].userID] + Ids(infos[1..])
  }

  /** A record with this id and this flag. */
  ghost predicate Recorded(infos: seq<Info>, x: Name, friending: bool) {
    exists i :: 0 <= i < |infos| && infos[i].userID == x && infos[i].friending == friending
  }

  lemma {:induction false} RecordedFirst(infos: seq<Info>, x: Name, friending: bool)
    requires infos != []
    ensures Recorded(infos, x, friending)
       <==> (infos[0].userID == x && infos[0].friending == friending) || Recorded(infos[1..], x, friending)
  {
    if Recorded(infos[1..], x, friending) {
      var i :| 0 <= i < |infos[1..]| && infos[1..][i].userID == x && infos[1..][i].friending == friending;
      assert infos[i + 1].userID == x;
    }
    if Recorded(infos, x, friending) {
      var i :| 0 <= i < |infos| && infos[i].userID == x && infos[i].friending == friending;
      assert i > 0 ==> infos[1..][i - 1] == infos[i];
    }
  }

  /** A name goes to the list, or to the dialog, exactly when a record says so. */
  lemma {:induction false} SplitByFlag(infos: seq<Info>, x: Name)
    ensures x in Friends(infos) <==> Recorded(infos, x, true)
    ensures x in Requesters(infos) <==> Recorded(infos, x, false)
  {
    if infos != [] {
      SplitByFlag(infos[1..], x);
      RecordedFirst(infos, x, true);
      RecordedFirst(infos, x, false);
    }
  }

  /** Every record goes to exactly one side. */
  lemma {:induction false} SplitIsPartition(infos: seq<Info>)
    ensures multiset(Friends(infos)) + multiset(Requesters(infos)) == multiset(Ids(infos))
  {
    if infos != [] {
      SplitIsPartition(infos[1..]);
    }
  }

  lemma {:induction false} QueueNext(names: seq<Name>, x: Name)
    ensures Queue(names + [x]) == Queue(names) + [Request(|names|, x)]
  {
    assert (names + [x])[..|names|] == names;
  }

  lemma {:induction false} LoadNext(at: Placement, before: seq<Name>, infos: seq<Info>, n: nat)
    requires n < |infos|
    ensures var id, some, more := infos[n].userID, infos[..n], infos[..n + 1];
            && PlaceAll(at, before, Friends(more))
               == (if infos[n].friending then Place(at, PlaceAll(at, before, Friends(some)), id)
                   else PlaceAll(at, before, Friends(some)))
            && Queue(Requesters(more))
               == Queue(Requesters(some))
                  + (if infos[n].friending then [] else [Request(|Queue(Requesters(some))|, id)])
  {
    SplitNext(infos, n);
    if infos[n].friending {
      PlaceAllSnoc(at, before, Friends(infos[..n]), infos[n].userID);
      assert Requesters(infos[..n]) + [] == Requesters(infos[..n]);
    } else {
      QueueNext(Requesters(infos[..n]), infos[n].userID);
      assert Friends(infos[..n]) + [] == Friends(infos[..n]);
    }
  }

  lemma {:induction false} AddressesSnoc(rs: seq<Request>, r: Request)
    ensures Addresses(rs + [r]) == Addresses(rs) + {r.addr}
  {
    assert forall x :: x in rs + [r] <==> x in rs || x == r;
  }

  class MainView {
    const at: Placement
    var friendInfos: seq<Info>
    var friendListBox: ListBox
    var friendControlDlg: FriendControlView?
    var chatViewDlgs: seq<Name>
    var leaked: nat

    /** A dialog object exists only while it has not been shown. */
    ghost predicate Valid()
      reads this, friendListBox, friendControlDlg
      reads if friendControlDlg == null then {} else {friendControlDlg.friendRequestBox}
    {
      && friendListBox.at == at
      && (friendControlDlg != null ==> Unshown(friendControlDlg))
    }

    ghost predicate Unshown(dlg: FriendControlView)
      reads dlg, dlg.friendRequestBox
    {
      && dlg.at == at && dlg.Valid()
      && dlg.friendRequestBox == null && dlg.wire == [] && dlg.infos == 0
      && dlg.strings == Addresses(dlg.reqFriendList)
      && dlg.nextAddr == |dlg.reqFriendList|
    }

    ghost function View(): Main
      reads this, friendListBox, friendControlDlg
    {
      Main(friendListBox.items, if friendControlDlg == null then None else Some(friendControlDlg.reqFriendList),
           chatViewDlgs, leaked)
    }

    constructor (at: Placement, infos: seq<Info>)
      ensures Valid() && fresh(friendListBox) && (friendControlDlg == null || fresh(friendControlDlg))
      ensures this.at == at && friendInfos == infos
      ensures View() == Start(at, infos)
    {
      this.at := at;
      friendInfos := infos;
      friendListBox := new ListBox(at);
      friendControlDlg := null;
      chatViewDlgs := [];
      leaked := 0;
      new;
      InitFriendCtlDlg();
      InitFriendList();
    }

    method InitFriendCtlDlg()
      requires Valid()
      modifies this`friendControlDlg
      ensures Valid() && friendControlDlg != null && fresh(friendControlDlg)
      ensures friendControlDlg.reqFriendList == []
    {
      friendControlDlg := new FriendControlView(at);
    }

    /** A confirmed friend goes to the list box, any other record to the request dialog. */
    method AddRecord(info: Info)
      requires Valid() && friendControlDlg != null
      modifies friendListBox, friendControlDlg
      ensures Valid()
      ensures friendListBox.items == if info.friending then Place(at, old(friendListBox.items), info.userID)
                                     else old(friendListBox.items)
      ensures friendControlDlg.reqFriendList == old(friendControlDlg.reqFriendList)
              + if info.friending then [] else [Request(|old(friendControlDlg.reqFriendList)|, info.userID)]
    {
      if info.friending {
        friendListBox.AddString(info.userID);
      } else {
        AddressesSnoc(friendControlDlg.reqFriendList, Request(friendControlDlg.nextAddr, info.userID));
        var shown := friendControlDlg.UpdateRequestFriendList(info.userID);
      }
    }

    method InitFriendList()
      requires Valid() && friendControlDlg != null && friendControlDlg.reqFriendList == []
      modifies friendListBox, friendControlDlg
      ensures Valid()
      ensures friendListBox.items == PlaceAll(at, old(friendListBox.items), Friends(friendInfos))
      ensures friendControlDlg.reqFriendList == Queue(Requesters(friendInfos))
    {
      if |friendInfos| <= 0 {
        return;
      }
      ghost var before := friendListBox.items;
      for c := 0 to |friendInfos|
        invariant Valid()
        invariant friendListBox.items == PlaceAll(at, before, Friends(friendInfos[..c]))
        invariant friendControlDlg.reqFriendList == Queue(Requesters(friendInfos[..c]))
      {
        LoadNext(at, before, friendInfos, c);
        AddRecord(friendInfos[c]);
      }
      assert friendInfos[..|friendInfos|] == friendInfos;
    }

    /** The dialog is shown, and deleted; strings that are still live are lost.  An undefined
        click ends what is known. */
    method ShowDialog(clicks: seq<Click>) returns (defined: bool)
      requires Valid() && friendControlDlg != null
      requires Presented(AsWritten, at, Opened(at, friendControlDlg.reqFriendList), clicks)
      modifies this`friendControlDlg, this`leaked, friendControlDlg
      ensures defined <==> Showable(at, old(View()), clicks)
      ensures defined ==> Valid() && friendControlDlg == null && View() == Closed(at, old(View()), clicks)
    {
      ghost var pending := friendControlDlg.reqFriendList;
      defined := friendControlDlg.DoModal(clicks);
      if !defined {
        return;
      }
      friendControlDlg.Destroy();
      assert |friendControlDlg.strings| == Erasures(AfterRun(AsWritten, at, Opened(at, pending), clicks).wire) by {
        RunIsAccounted(AsWritten, at, pending, clicks);
      }
      leaked := leaked + |friendControlDlg.strings|;
      friendControlDlg := null;
    }

    /** The dialog is created again, and the records read again, unless it is there. */
    method PrepareDialog()
      requires Valid()
      modifies this`friendControlDlg, friendListBox
      ensures Valid() && friendControlDlg != null
      ensures friendControlDlg == old(friendControlDlg) || fresh(friendControlDlg)
      ensures View() == Prepared(at, friendInfos, old(View()))
    {
      if friendControlDlg == null {
        InitFriendCtlDlg();
        InitFriendList();
      }
    }

    /** The button handler: prepare, show, delete. */
    method FriendCtlBtnClicked(clicks: seq<Click>) returns (defined: bool)
      requires Valid()
      requires Presented(AsWritten, at, Opened(at, Prepared(at, friendInfos, View()).next.value), clicks)
      modifies this`friendControlDlg, this`leaked, friendListBox, friendControlDlg
      ensures friendListBox == old(friendListBox)
      ensures defined <==> PossibleAction(at, friendInfos, old(View()), OpenDialog(clicks))
      ensures defined ==> Valid() && View() == AfterAction(at, friendInfos, old(View()), OpenDialog(clicks))
    {
      PrepareDialog();
      defined := ShowDialog(clicks);
    }

    /** One window per target: a flag-setting search, then push_back. */
    method TalkBtnClicked(curSel: int)
      requires Valid() && PossibleAction(at, friendInfos, View(), Talk(curSel))
      modifies this`chatViewDlgs
      ensures Valid()
      ensures View() == AfterAction(at, friendInfos, old(View()), Talk(curSel))
    {
      if curSel == -1 {
        return;
      }
      var target := friendListBox.items[curSel];
      var alreadyExistDlg := false;
      var maxCnt := |chatViewDlgs|;
      if maxCnt > 0 {
        for cnt := 0 to maxCnt
          invariant !alreadyExistDlg && target !in chatViewDlgs[..cnt]
        {
          if target == chatViewDlgs[cnt] {
            alreadyExistDlg := true;
            break;
          }
        }
      }
      if !alreadyExistDlg {
        chatViewDlgs := chatViewDlgs + [target];
      }
    }
  }

  // ----- Runs of the window -----

  function Openings(acts: seq<Action>): nat {
    if acts == [] then 0 else (if acts[0].OpenDialog? then 1 else 0) + Openings(acts[1..])
  }

  /** The confirmed answers given in the dialog of an action, if it opens one. */
  function AnsweredIn(a: Action): nat {
    match a
    case OpenDialog(clicks) => ConfirmedClicks(clicks)
    case Talk(_) => 0
  }

  /** The confirmed answers in all dialogs of a run. */
  function Answered(acts: seq<Action>): nat {
    if acts == [] then 0 else AnsweredIn(acts[0]) + Answered(acts[1..])
  }

  /** A dialog that is not shown yet holds the requesters. */
  predicate Queued(infos: seq<Info>, m: Main) {
    m.next.Some? ==> m.next.value == Queue(Requesters(infos))
  }

  lemma {:induction false} LeakedByAction(at: Placement, infos: seq<Info>, m: Main, a: Action)
    requires PossibleAction(at, infos, m, a) && Queued(infos, m)
    ensures Queued(infos, AfterAction(at, infos, m, a))
    ensures AfterAction(at, infos, m, a).leaked == m.leaked + AnsweredIn(a)
    ensures AnsweredIn(a) <= if a.OpenDialog? then |Requesters(infos)| else 0
  {
    if a.OpenDialog? {
      ErasuresAreConfirmed(AsWritten, at, Prepared(at, infos, m).next.value, a.clicks);
    }
  }

  lemma {:induction false} LeakedOverRun(at: Placement, infos: seq<Info>, m: Main, acts: seq<Action>)
    requires PossibleActions(at, infos, m, acts) && Queued(infos, m)
    ensures AfterActions(at, infos, m, acts).leaked == m.leaked + Answered(acts)
    ensures Answered(acts) <= Openings(acts) * |Requesters(infos)|
    decreases acts
  {
    if acts != [] {
      var e := AfterAction(at, infos, m, acts[0]);
      LeakedByAction(at, infos, m, acts[0]);
      LeakedOverRun(at, infos, e, acts[1..]);
      OneMoreAction(acts, |Requesters(infos)|);
    }
  }

  lemma {:induction false} OneMoreAction(acts: seq<Action>, n: nat)
    requires acts != [] && AnsweredIn(acts[0]) <= if acts[0].OpenDialog? then n else 0
    requires Answered(acts[1..]) <= Openings(acts[1..]) * n
    ensures Answered(acts) <= Openings(acts) * n
  {
    if acts[0].OpenDialog? {
      assert Openings(acts) * n == n + Openings(acts[1..]) * n;
    }
  }

  /** Over every run of the window the strings lost are the confirmed answers of all its
      dialogs: at most one per requester and opening. */
  lemma {:induction false} LeakedIsAnswered(at: Placement, infos: seq<Info>, acts: seq<Action>)
    requires PossibleActions(at, infos, Start(at, infos), acts)
    ensures AfterActions(at, infos, Start(at, infos), acts).leaked == Answered(acts)
    ensures Answered(acts) <= Openings(acts) * |Requesters(infos)|
  {
    LeakedOverRun(at, infos, Start(at, infos), acts);
  }

  function Copies(names: seq<Name>, k: nat): seq<Name> {
    if k == 0 then [] else names + Copies(names, k - 1)
  }

  /** How often a run reads the records, with or without a dialog prepared at first. */
  function Reads(prepared: bool, acts: seq<Action>): nat {
    if acts == [] then 0
    else if acts[0].OpenDialog? then (if prepared then 0 else 1) + Reads(false, acts[1..])
    else Reads(prepared, acts[1..])
  }

  lemma {:induction false} ReadsAreOpenings(prepared: bool, acts: seq<Action>)
    ensures Reads(prepared, acts) == Openings(acts) - if prepared && Openings(acts) > 0 then 1 else 0
  {
    if acts != [] {
      ReadsAreOpenings(prepared && !acts[0].OpenDialog?, acts[1..]);
    }
  }

  /** The list after k more readings. */
  function Reread(at: Placement, names: seq<Name>, list: seq<Name>, k: nat): seq<Name>
    decreases k
  {
    if k == 0 then list else Reread(at, names, PlaceAll(at, list, names), k - 1)
  }

  lemma {:induction false} ActionReads(at: Placement, infos: seq<Info>, m: Main, a: Action)
    requires PossibleAction(at, infos, m, a)
    ensures var e := AfterAction(at, infos, m, a);
            && e.next == (if a.OpenDialog? then None else m.next)
            && e.list == if a.OpenDialog? && m.next.None? then PlaceAll(at, m.list, Friends(infos)) else m.list
  {
  }

  /** From m to e the records are read k times, and a dialog only ever shown. */
  ghost predicate ReadTimes(at: Placement, infos: seq<Info>, m: Main, e: Main, k: nat) {
    (e.next == None || e.next == m.next) && e.list == Reread(at, Friends(infos), m.list, k)
  }

  /** A run only rereads; a prepared dialog stays as it is until it is shown. */
  lemma {:induction false} RunReads(at: Placement, infos: seq<Info>, m: Main, acts: seq<Action>)
    requires PossibleActions(at, infos, m, acts)
    ensures ReadTimes(at, infos, m, AfterActions(at, infos, m, acts), Reads(m.next.Some?, acts))
    decreases acts
  {
    if acts != [] {
      var e := AfterAction(at, infos, m, acts[0]);
      ActionReads(at, infos, m, acts[0]);
      RunReads(at, infos, e, acts[1..]);
    }
  }

  lemma {:induction false} RereadHolds(at: Placement, names: seq<Name>, list: seq<Name>, k: nat)
    ensures multiset(Reread(at, names, list, k)) == multiset(list) + multiset(Copies(names, k))
    decreases k
  {
    if k > 0 {
      RereadHolds(at, names, PlaceAll(at, list, names), k - 1);
    }
  }

  lemma {:induction false} RereadAppends(at: Placement, names: seq<Name>, list: seq<Name>, k: nat)
    requires Appending(at)
    ensures Reread(at, names, list, k) == list + Copies(names, k)
    decreases k
  {
    if k == 0 {
      assert list + [] == list;
    } else {
      AppendingAppends(at, list, names);
      RereadAppends(at, names, list + names, k - 1);
      Joined(list, names, Copies(names, k - 1));
    }
  }

  lemma {:induction false} Joined(x: seq<Name>, y: seq<Name>, z: seq<Name>)
    ensures (x + y) + z == x + (y + z)
  {
  }

  lemma {:induction false} ListIsRereadFrom(at: Placement, infos: seq<Info>, m: Main, acts: seq<Action>)
    requires PossibleActions(at, infos, m, acts)
    requires m.list == PlaceAll(at, [], Friends(infos)) && m.next == Some(Queue(Requesters(infos)))
    ensures var e := AfterActions(at, infos, m, acts);
            && e.list == Reread(at, Friends(infos), [], if Openings(acts) == 0 then 1 else Openings(acts))
            && Prepared(at, infos, e).next.value == Queue(Requesters(infos))
  {
    RunReads(at, infos, m, acts);
    ReadsAreOpenings(true, acts);
  }

  /** The list is what Start and the openings have read. */
  lemma {:induction false} ListIsReread(at: Placement, infos: seq<Info>, acts: seq<Action>)
    requires PossibleActions(at, infos, Start(at, infos), acts)
    ensures var e := AfterActions(at, infos, Start(at, infos), acts);
            && e.list == Reread(at, Friends(infos), [], if Openings(acts) == 0 then 1 else Openings(acts))
            && Prepared(at, infos, e).next.value == Queue(Requesters(infos))
  {
    ListIsRereadFrom(at, infos, Start(at, infos), acts);
  }

  /** After m >= 1 openings the friend list holds every confirmed friend m times over, and
      a dialog is always created with exactly the requesters, in record order, whatever was
      accepted or rejected before. */
  lemma {:induction false} ListHoldsCopies(at: Placement, infos: seq<Info>, acts: seq<Action>)
    requires PossibleActions(at, infos, Start(at, infos), acts)
    ensures var e := AfterActions(at, infos, Start(at, infos), acts);
            && multiset(e.list) == multiset(Copies(Friends(infos), if Openings(acts) == 0 then 1 else Openings(acts)))
            && Prepared(at, infos, e).next.value == Queue(Requesters(infos))
  {
    ListIsReread(at, infos, acts);
    RereadHolds(at, Friends(infos), [], if Openings(acts) == 0 then 1 else Openings(acts));
  }

  /** In a sorting box the list is sorted at all times. */
  lemma {:induction false} SortedCopies(at: Placement, rank: Order, infos: seq<Info>, acts: seq<Action>)
    requires Sorting(at, rank) && PossibleActions(at, infos, Start(at, infos), acts)
    ensures Sorted(rank, AfterActions(at, infos, Start(at, infos), acts).list)
  {
    ListIsReread(at, infos, acts);
    RereadSorted(at, rank, Friends(infos), [], if Openings(acts) == 0 then 1 else Openings(acts));
  }

  lemma {:induction false} RereadSorted(at: Placement, rank: Order, names: seq<Name>, list: seq<Name>, k: nat)
    requires Sorting(at, rank) && Sorted(rank, list)
    ensures Sorted(rank, Reread(at, names, list, k))
    decreases k
  {
    if k > 0 {
      SortingKeepsSorted(at, rank, list, names);
      RereadSorted(at, rank, names, PlaceAll(at, list, names), k - 1);
    }
  }

  /** In an appending box they even stand in record order, copy after copy. */
  lemma {:induction false} AppendedCopies(at: Placement, infos: seq<Info>, acts: seq<Action>)
    requires Appending(at) && PossibleActions(at, infos, Start(at, infos), acts)
    ensures AfterActions(at, infos, Start(at, infos), acts).list
         == Copies(Friends(infos), if Openings(acts) == 0 then 1 else Openings(acts))
  {
    var k := if Openings(acts) == 0 then 1 else Openings(acts);
    ListIsReread(at, infos, acts);
    RereadAppends(at, Friends(infos), [], k);
    assert [] + Copies(Friends(infos), k) == Copies(Friends(infos), k);
  }

  // ----- Chat windows -----

  /** The name a talk click selects. */
  function Target(m: Main, a: Action): seq<Name>
    requires a.Talk? ==> a.sel == -1 || 0 <= a.sel < |m.list|
  {
    if a.Talk? && a.sel != -1 then [m.list[a.sel]] else []
  }

  /** The names talked to, in order. */
  function Clicked(at: Placement, infos: seq<Info>, m: Main, acts: seq<Action>): seq<Name>
    requires PossibleActions(at, infos, m, acts)
    decreases acts
  {
    if acts == [] then []
    else Target(m, acts[0]) + Clicked(at, infos, AfterAction(at, infos, m, acts[0]), acts[1..])
  }

  /** x occurs in `all` before any y. */
  ghost predicate Precedes(all: seq<Name>, x: Name, y: Name) {
    exists p :: 0 <= p < |all| && all[p] == x && y !in all[..p]
  }

  /** `kept` lists the distinct names of `all` in the order of their first occurrence. */
  ghost predicate FirstOccurrences(kept: seq<Name>, all: seq<Name>) {
    && (forall i, j :: 0 <= i < j < |kept| ==> kept[i] != kept[j])
    && (forall x :: x in kept <==> x in all)
    && (forall i, j :: 0 <= i < j < |kept| ==> Precedes(all, kept[i], kept[j]))
  }

  lemma {:induction false} PrecedesStays(all: seq<Name>, x: Name, y: Name, z: Name)
    requires Precedes(all, x, y)
    ensures Precedes(all + [z], x, y)
  {
    var p :| 0 <= p < |all| && all[p] == x && y !in all[..p];
    assert (all + [z])[p] == x && (all + [z])[..p] == all[..p];
  }

  lemma {:induction false} PrecedesNew(all: seq<Name>, x: Name, z: Name)
    requires x in all && z !in all
    ensures Precedes(all + [z], x, z)
  {
    var p :| 0 <= p < |all| && all[p] == x;
    assert (all + [z])[p] == x && (all + [z])[..p] == all[..p];
  }

  lemma {:induction false} MemberOfSnoc(s: seq<Name>, x: Name)
    ensures forall y :: y in s + [x] <==> y in s || y == x
  {
  }

  lemma {:induction false} NewClick(kept: seq<Name>, all: seq<Name>, x: Name)
    requires FirstOccurrences(kept, all) && x !in all
    ensures FirstOccurrences(kept + [x], all + [x])
  {
    MemberOfSnoc(all, x);
    MemberOfSnoc(kept, x);
    forall i, j | 0 <= i < j < |kept + [x]| ensures Precedes(all + [x], (kept + [x])[i], (kept + [x])[j]) {
      assert (kept + [x])[i] == kept[i] && kept[i] in kept;
      if j < |kept| {
        PrecedesStays(all, kept[i], kept[j], x);
      } else {
        PrecedesNew(all, kept[i], x);
      }
    }
  }

  lemma {:induction false} OldClick(kept: seq<Name>, all: seq<Name>, x: Name)
    requires FirstOccurrences(kept, all) && x in all
    ensures FirstOccurrences(kept, all + [x])
  {
    MemberOfSnoc(all, x);
    forall i, j | 0 <= i < j < |kept| ensures Precedes(all + [x], kept[i], kept[j]) {
      PrecedesStays(all, kept[i], kept[j], x);
    }
  }

  lemma {:induction false} ChatsOverRun(at: Placement, infos: seq<Info>, m: Main, acts: seq<Action>, before: seq<Name>)
    requires PossibleActions(at, infos, m, acts) && FirstOccurrences(m.chats, before)
    ensures FirstOccurrences(AfterActions(at, infos, m, acts).chats, before + Clicked(at, infos, m, acts))
    decreases acts
  {
    if acts == [] {
      assert before + [] == before;
    } else {
      var e, now := AfterAction(at, infos, m, acts[0]), Target(m, acts[0]);
      ChatsAfterAction(at, infos, m, acts[0], before);
      ChatsOverRun(at, infos, e, acts[1..], before + now);
      Joined(before, now, Clicked(at, infos, e, acts[1..]));
    }
  }

  lemma {:induction false} ChatsAfterAction(at: Placement, infos: seq<Info>, m: Main, a: Action, before: seq<Name>)
    requires PossibleAction(at, infos, m, a) && FirstOccurrences(m.chats, before)
    ensures FirstOccurrences(AfterAction(at, infos, m, a).chats, before + Target(m, a))
  {
    if a.Talk? && a.sel != -1 {
      var x := m.list[a.sel];
      if x in m.chats {
        OldClick(m.chats, before, x);
      } else {
        NewClick(m.chats, before, x);
      }
    } else {
      assert before + [] == before;
    }
  }

  /** Only confirmed friends are listed. */
  ghost predicate ListsFriends(infos: seq<Info>, m: Main) {
    forall x :: x in m.list ==> x in Friends(infos)
  }

  lemma {:induction false} PlacedFrom(at: Placement, list: seq<Name>, names: seq<Name>, x: Name)
    requires x in PlaceAll(at, list, names)
    ensures x in list || x in names
  {
    assert x in multiset(PlaceAll(at, list, names));
  }

  lemma {:induction false} ActionListsFriends(at: Placement, infos: seq<Info>, m: Main, a: Action)
    requires PossibleAction(at, infos, m, a) && ListsFriends(infos, m)
    ensures ListsFriends(infos, AfterAction(at, infos, m, a))
    ensures forall x :: x in Target(m, a) ==> x in Friends(infos)
  {
    ActionReads(at, infos, m, a);
    forall x | x in PlaceAll(at, m.list, Friends(infos)) ensures x in Friends(infos) {
      PlacedFrom(at, m.list, Friends(infos), x);
    }
  }

  lemma {:induction false} ClickedAreFriends(at: Placement, infos: seq<Info>, m: Main, acts: seq<Action>)
    requires PossibleActions(at, infos, m, acts) && ListsFriends(infos, m)
    ensures forall x :: x in Clicked(at, infos, m, acts) ==> x in Friends(infos)
    decreases acts
  {
    if acts != [] {
      ActionListsFriends(at, infos, m, acts[0]);
      ClickedAreFriends(at, infos, AfterAction(at, infos, m, acts[0]), acts[1..]);
    }
  }

  function Elements(names: seq<Name>): set<Name> {
    set x | x in names
  }

  lemma {:induction false} DistinctFit(kept: seq<Name>, s: set<Name>)
    requires forall i, j :: 0 <= i < j < |kept| ==> kept[i] != kept[j]
    requires forall x :: x in kept ==> x in s
    ensures |kept| <= |s|
  {
    if kept != [] {
      assert kept[0] in kept;
      forall x | x in kept[1..] ensures x in s - {kept[0]} {
        assert x in kept;
      }
      DistinctFit(kept[1..], s - {kept[0]});
    }
  }

  /** Across any interleaving of openings and talk clicks: one window per target, in order
      of first click, for confirmed friends only, however many copies the list has. */
  lemma {:induction false} ChatWindows(at: Placement, infos: seq<Info>, acts: seq<Action>)
    requires PossibleActions(at, infos, Start(at, infos), acts)
    ensures var e := AfterActions(at, infos, Start(at, infos), acts);
            && FirstOccurrences(e.chats, Clicked(at, infos, Start(at, infos), acts))
            && (forall x :: x in e.chats ==> x in Friends(infos))
            && |e.chats| <= |Elements(Friends(infos))|
  {
    var m := Start(at, infos);
    ChatsOverRun(at, infos, m, acts, []);
    assert [] + Clicked(at, infos, m, acts) == Clicked(at, infos, m, acts);
    forall x | x in m.list ensures x in Friends(infos) {
      PlacedFrom(at, [], Friends(infos), x);
    }
    ClickedAreFriends(at, infos, m, acts);
    DistinctFit(AfterActions(at, infos, m, acts).chats, Elements(Friends(infos)));
  }
}
