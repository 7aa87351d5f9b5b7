/** What holds over every run of the friend-request dialog. */
module FriendRuns {
  import opened ListBoxes
  import opened FriendDialog

  // ----- The deletion loop does not empty the box -----

  function Odds(s: seq<Name>): (r: seq<Name>)
    ensures |r| == |s| / 2
    ensures forall i :: 0 <= i < |r| ==> r[i] == s[2 * i + 1]
  {
    if |s| < 2 then [] else [s[1]] + Odds(s[2..])
  }

  lemma {:induction false} LoopBeyondEnd(box: seq<Name>, cnt: nat, m: nat)
    requires cnt >= |box|
    ensures DeleteLoop(box, cnt, m) == box
    decreases m - cnt
  {
    if cnt < m {
      LoopBeyondEnd(box, cnt + 1, m);
    }
  }

  lemma {:induction false} DeleteBehind(kept: seq<Name>, rest: seq<Name>)
    requires rest != []
    ensures Delete(kept + rest, |kept|) == kept + rest[1..]
  {
  }

  lemma {:induction false} Regroup(kept: seq<Name>, x: Name, more: seq<Name>)
    ensures kept + ([x] + more) == (kept + [x]) + more
  {
  }

  /** Entries before cnt stay; behind them every second entry, from the first on, goes. */
  lemma {:induction false} LoopSkips(kept: seq<Name>, rest: seq<Name>, m: nat)
    requires |kept| + (|rest| + 1) / 2 <= m
    ensures DeleteLoop(kept + rest, |kept|, m) == kept + Odds(rest)
    decreases |rest|
  {
    if |rest| >= 1 {
      DeleteBehind(kept, rest);
    }
    if |rest| >= 2 {
      assert rest[1..] == [rest[1]] + rest[2..];
      Regroup(kept, rest[1], rest[2..]);
      LoopSkips(kept + [rest[1]], rest[2..], m);
      Regroup(kept, rest[1], Odds(rest[2..]));
    } else {
      assert kept + Odds(rest) == kept;
      assert rest == [] ==> kept + rest == kept;
      assert rest != [] ==> kept + rest[1..] == kept;
      LoopBeyondEnd(kept, |kept| + |rest|, m);
    }
  }

  /** DeleteString(cnt) for cnt = 0 .. m-1 on a box of m entries leaves the odd-indexed ones. */
  lemma {:induction false} LoopLeavesOdds(box: seq<Name>)
    ensures DeleteLoop(box, 0, |box|) == Odds(box)
  {
    assert [] + box == box && [] + Odds(box) == Odds(box);
    LoopSkips([], box, |box|);
  }

  /** Both cases of the update: sizes that agree leave the box alone; else the odd entries
      stay and the vector's names are placed one after the other. */
  lemma {:induction false} UpdateShows(at: Placement, box: seq<Name>, names: seq<Name>)
    ensures |names| == |box| ==> Updated(AsWritten, at, box, names) == box
    ensures |names| != |box| ==>
              && Updated(AsWritten, at, box, names) == PlaceAll(at, Odds(box), names)
              && multiset(Updated(AsWritten, at, box, names)) == multiset(Odds(box)) + multiset(names)
  {
    LoopLeavesOdds(box);
  }

  /** So a rebuild shows the vector's names, in whatever order, only if the old box
      had at most one entry. */
  lemma {:induction false} RebuildIsCopyIff(at: Placement, box: seq<Name>, names: seq<Name>)
    requires |names| != |box|
    ensures multiset(Updated(AsWritten, at, box, names)) == multiset(names) <==> |box| <= 1
  {
    LoopLeavesOdds(box);
    var r := Updated(AsWritten, at, box, names);
    assert |multiset(r)| == |r| && |multiset(names)| == |names|;
    if |box| <= 1 {
      assert Odds(box) == [];
    }
  }

  // ----- Sizes over runs, as written -----

  lemma {:induction false} NamesOfDelete(rs: seq<Request>, k: nat)
    requires k < |rs|
    ensures Names(Delete(rs, k)) == Delete(Names(rs), k)
  {
  }

  /** The box holds the pending names, and at most as many again plus one. */
  ghost predicate Covered(d: Dialog) {
    && |d.pending| <= |d.box| <= 2 * |d.pending| + 1
    && multiset(Names(d.pending)) <= multiset(d.box)
  }

  lemma {:induction false} ConfirmedShape(mode: Rebuild, at: Placement, d: Dialog, c: Click)
    requires Possible(d, c) && Confirmed(c)
    ensures var e := AfterClick(mode, at, d, c);
            && e.pending == Delete(d.pending, c.sel)
            && |e.pending| == |d.pending| - 1
            && e.box == Updated(mode, at, d.box, Names(e.pending))
  {
  }

  /** The erased entry and the rebuilt box of a confirmed accept or reject; the
      "Nothings change" return is not taken. */
  lemma {:induction false} ConfirmedClick(at: Placement, d: Dialog, c: Click)
    requires Covered(d) && Possible(d, c) && Confirmed(c)
    ensures var e := AfterClick(AsWritten, at, d, c);
            && |d.box| != |e.pending| == |d.pending| - 1
            && e.pending == Delete(d.pending, c.sel)
            && e.box == PlaceAll(at, Odds(d.box), Names(e.pending))
  {
    ConfirmedShape(AsWritten, at, d, c);
    LoopLeavesOdds(d.box);
  }

  lemma {:induction false} RebuiltIsCovered(at: Placement, d: Dialog, box: seq<Name>)
    requires |box| <= 2 * |d.pending| + 3 && d.box == PlaceAll(at, Odds(box), Names(d.pending))
    ensures Covered(d) && |d.box| == |box| / 2 + |d.pending|
  {
  }

  /** Any other click leaves vector and box alone. */
  lemma {:induction false} OtherClick(mode: Rebuild, at: Placement, d: Dialog, c: Click)
    requires Possible(d, c) && !Confirmed(c)
    ensures var e := AfterClick(mode, at, d, c); e.pending == d.pending && e.box == d.box
  {
  }

  lemma {:induction false} CoveredClick(at: Placement, d: Dialog, c: Click)
    requires Covered(d) && Possible(d, c)
    ensures var e := AfterClick(AsWritten, at, d, c);
            && Covered(e)
            && if Confirmed(c) then |e.pending| == |d.pending| - 1 && |e.box| == |d.box| / 2 + |e.pending|
               else e.pending == d.pending && e.box == d.box
  {
    if Confirmed(c) {
      ConfirmedClick(at, d, c);
      RebuiltIsCovered(at, AfterClick(AsWritten, at, d, c), d.box);
    } else {
      OtherClick(AsWritten, at, d, c);
    }
  }

  /** Sizes agree only when nothing was erased yet, or nothing is left. */
  ghost predicate NotMirrored(d: Dialog) {
    |d.box| == |d.pending| <==> d.box == []
  }

  lemma {:induction false} CoveredOverRun(at: Placement, d: Dialog, cs: seq<Click>, n: nat)
    requires Covered(d) && Runs(AsWritten, at, d, cs) && |d.pending| <= n && (|d.pending| < n ==> NotMirrored(d))
    ensures var e := AfterRun(AsWritten, at, d, cs);
            Covered(e) && |e.pending| <= n && (|e.pending| < n ==> NotMirrored(e))
    decreases cs
  {
    if cs != [] {
      CoveredClick(at, d, cs[0]);
      CoveredOverRun(at, AfterClick(AsWritten, at, d, cs[0]), cs[1..], n);
    }
  }

  lemma {:induction false} OpenedIsCovered(at: Placement, pending: seq<Request>)
    ensures Covered(Opened(at, pending))
  {
  }

  /** From a freshly opened dialog, for any placement, clicks and replies. */
  lemma {:induction false} BoxCoversVector(at: Placement, pending: seq<Request>, cs: seq<Click>)
    requires Runs(AsWritten, at, Opened(at, pending), cs)
    ensures Covered(AfterRun(AsWritten, at, Opened(at, pending), cs))
  {
    OpenedIsCovered(at, pending);
    CoveredOverRun(at, Opened(at, pending), cs, |pending|);
  }

  /** The box has entries beyond the vector; answering the last one successfully is undefined. */
  ghost predicate Overhangs(d: Dialog) {
    |d.box| > |d.pending| && !Possible(d, Accept(|d.box| - 1, SUCCESS))
  }

  /** Once a request has been answered, a box that still shows anything has more
      entries than the vector: its last entry must not be answered successfully. */
  lemma {:induction false} MirrorIsLost(at: Placement, pending: seq<Request>, cs: seq<Click>)
    requires Runs(AsWritten, at, Opened(at, pending), cs)
    ensures var e := AfterRun(AsWritten, at, Opened(at, pending), cs);
            |e.pending| < |pending| ==> e.box == [] || Overhangs(e)
  {
    OpenedIsCovered(at, pending);
    MirrorIsLostFrom(at, Opened(at, pending), cs);
  }

  lemma {:induction false} MirrorIsLostFrom(at: Placement, d: Dialog, cs: seq<Click>)
    requires Covered(d) && Runs(AsWritten, at, d, cs)
    ensures var e := AfterRun(AsWritten, at, d, cs);
            |e.pending| < |d.pending| ==> e.box == [] || Overhangs(e)
  {
    CoveredOverRun(at, d, cs, |d.pending|);
    LastEntryIsBeyond(AfterRun(AsWritten, at, d, cs));
  }

  lemma {:induction false} LastEntryIsBeyond(e: Dialog)
    requires Covered(e)
    ensures NotMirrored(e) ==> e.box == [] || Overhangs(e)
  {
  }

  // ----- Which dialogs can come to an undefined erase -----

  /** In every state of every run, whatever the box lists can be answered. */
  ghost predicate AlwaysDefined(mode: Rebuild, at: Placement, d: Dialog) {
    forall cs, c :: Runs(mode, at, d, cs) && Listed(AfterRun(mode, at, d, cs), c) ==>
      Possible(AfterRun(mode, at, d, cs), c)
  }

  /** A cleared box, and a box of at most one entry, keep the vector's size. */
  lemma {:induction false} SameSizeClick(mode: Rebuild, at: Placement, d: Dialog, c: Click)
    requires Possible(d, c) && |d.box| == |d.pending| && (mode == AsWritten ==> |d.pending| <= 1)
    ensures var e := AfterClick(mode, at, d, c); |e.box| == |e.pending| <= |d.pending|
  {
    if Confirmed(c) {
      ConfirmedShape(mode, at, d, c);
      LoopLeavesOdds(d.box);
    } else {
      OtherClick(mode, at, d, c);
    }
  }

  lemma {:induction false} SameSizeOverRun(mode: Rebuild, at: Placement, d: Dialog, cs: seq<Click>)
    requires Runs(mode, at, d, cs) && |d.box| == |d.pending| && (mode == AsWritten ==> |d.pending| <= 1)
    ensures var e := AfterRun(mode, at, d, cs); |e.box| == |e.pending|
    decreases cs
  {
    if cs != [] {
      SameSizeClick(mode, at, d, cs[0]);
      SameSizeOverRun(mode, at, AfterClick(mode, at, d, cs[0]), cs[1..]);
    }
  }

  lemma {:induction false} SameSizeIsDefined(mode: Rebuild, at: Placement, d: Dialog)
    requires |d.box| == |d.pending| && (mode == AsWritten ==> |d.pending| <= 1)
    ensures AlwaysDefined(mode, at, d)
  {
    forall cs, c | Runs(mode, at, d, cs) && Listed(AfterRun(mode, at, d, cs), c)
      ensures Possible(AfterRun(mode, at, d, cs), c)
    {
      SameSizeOverRun(mode, at, d, cs);
    }
  }

  lemma {:induction false} OneClickRun(mode: Rebuild, at: Placement, d: Dialog, c: Click)
    requires Possible(d, c)
    ensures Runs(mode, at, d, [c]) && AfterRun(mode, at, d, [c]) == AfterClick(mode, at, d, c)
  {
    assert [c][1..] == [];
  }

  /** Two requests are enough: answer the first, then the box's last entry. */
  lemma {:induction false} TwoRequestsOverhang(at: Placement, d: Dialog)
    requires |d.box| == |d.pending| >= 2 && Covered(d)
    ensures !AlwaysDefined(AsWritten, at, d)
  {
    var c := Accept(0, SUCCESS);
    var e := AfterClick(AsWritten, at, d, c);
    CoveredClick(at, d, c);
    OneClickRun(AsWritten, at, d, c);
    assert Overhangs(e) && Listed(e, Accept(|e.box| - 1, SUCCESS));
  }

  /** As written, a run can reach an undefined erase if and only if there is more than one
      request, wherever the box puts its strings. */
  lemma {:induction false} DefinedIff(at: Placement, pending: seq<Request>)
    ensures AlwaysDefined(AsWritten, at, Opened(at, pending)) <==> |pending| <= 1
  {
    if |pending| <= 1 {
      SameSizeIsDefined(AsWritten, at, Opened(at, pending));
    } else {
      OpenedIsCovered(at, pending);
      TwoRequestsOverhang(at, Opened(at, pending));
    }
  }

  /** With a box that is cleared, whatever it lists can always be answered. */
  lemma {:induction false} ClearedIsDefined(at: Placement, pending: seq<Request>)
    ensures AlwaysDefined(Cleared, at, Opened(at, pending))
  {
    SameSizeIsDefined(Cleared, at, Opened(at, pending));
  }

  // ----- An appending box -----

  ghost predicate EndsWith(box: seq<Name>, names: seq<Name>) {
    |names| <= |box| && box[|box| - |names|..] == names
  }

  lemma {:induction false} SuffixOverRun(at: Placement, d: Dialog, cs: seq<Click>)
    requires Appending(at) && Covered(d) && EndsWith(d.box, Names(d.pending)) && Runs(AsWritten, at, d, cs)
    ensures var e := AfterRun(AsWritten, at, d, cs); EndsWith(e.box, Names(e.pending))
    decreases cs
  {
    if cs != [] {
      CoveredClick(at, d, cs[0]);
      SuffixClick(at, d, cs[0]);
      SuffixOverRun(at, AfterClick(AsWritten, at, d, cs[0]), cs[1..]);
    }
  }

  lemma {:induction false} SuffixClick(at: Placement, d: Dialog, c: Click)
    requires Appending(at) && Covered(d) && EndsWith(d.box, Names(d.pending)) && Possible(d, c)
    ensures var e := AfterClick(AsWritten, at, d, c); EndsWith(e.box, Names(e.pending))
  {
    if Confirmed(c) {
      ConfirmedClick(at, d, c);
      AppendingAppends(at, Odds(d.box), Names(AfterClick(AsWritten, at, d, c).pending));
    } else {
      OtherClick(AsWritten, at, d, c);
    }
  }

  /** In a box that appends, the vector is always the last part of the box. */
  lemma {:induction false} VectorIsSuffix(at: Placement, pending: seq<Request>, cs: seq<Click>)
    requires Appending(at) && Runs(AsWritten, at, Opened(at, pending), cs)
    ensures var e := AfterRun(AsWritten, at, Opened(at, pending), cs); EndsWith(e.box, Names(e.pending))
  {
    AppendingAppends(at, [], Names(pending));
    OpenedIsCovered(at, pending);
    SuffixOverRun(at, Opened(at, pending), cs);
  }

  // ----- Which name is sent and which is erased -----

  /** Whatever is selected, the name sent (from the box) is the name erased (from the vector). */
  ghost predicate Aligned(d: Dialog) {
    |d.pending| <= |d.box| && forall k :: 0 <= k < |d.pending| ==> d.box[k] == d.pending[k].name
  }

  /** A box with exactly the pending names lines up if and only if they are in its order. */
  lemma {:induction false} AlignedIffSorted(rank: Order, d: Dialog)
    requires Sorted(rank, d.box) && NoTies(rank, Names(d.pending))
    requires multiset(d.box) == multiset(Names(d.pending))
    ensures Aligned(d) <==> Sorted(rank, Names(d.pending))
  {
    var names := Names(d.pending);
    assert |multiset(names)| == |names| && |multiset(d.box)| == |d.box|;
    if Sorted(rank, names) {
      SortedIsUnique(rank, names, d.box);
    }
    if Aligned(d) {
      assert names == d.box;
    }
  }

  // The evident intent: a box that is cleared.

  /** Sorted box, exactly the pending names; different names do not tie. */
  ghost predicate Mirrors(rank: Order, d: Dialog) {
    && Sorted(rank, d.box)
    && multiset(d.box) == multiset(Names(d.pending))
    && NoTies(rank, Names(d.pending))
  }

  lemma {:induction false} MirrorSize(rank: Order, d: Dialog)
    requires Mirrors(rank, d)
    ensures |d.box| == |d.pending|
  {
    assert |multiset(d.box)| == |d.box| && |multiset(Names(d.pending))| == |d.pending|;
  }

  lemma {:induction false} DeleteKeepsOrder(rank: Order, names: seq<Name>, k: nat)
    requires k < |names|
    ensures Sorted(rank, names) ==> Sorted(rank, Delete(names, k))
    ensures NoTies(rank, names) ==> NoTies(rank, Delete(names, k))
  {
    var left := Delete(names, k);
    if NoTies(rank, names) {
      NoTiesWithin(rank, names, left);
    }
    assert forall i :: 0 <= i < |left| ==> left[i] == names[if i < k then i else i + 1];
  }

  lemma {:induction false} ClearedSuccess(at: Placement, d: Dialog, c: Click)
    requires |d.box| == |d.pending| && Possible(d, c) && Confirmed(c)
    ensures var e := AfterClick(Cleared, at, d, c);
            && Names(e.pending) == Delete(Names(d.pending), c.sel)
            && e.box == PlaceAll(at, [], Names(e.pending))
  {
    ConfirmedShape(Cleared, at, d, c);
    NamesOfDelete(d.pending, c.sel);
  }

  lemma {:induction false} CopyMirrors(at: Placement, rank: Order, d: Dialog)
    requires Sorting(at, rank) && NoTies(rank, Names(d.pending)) && d.box == PlaceAll(at, [], Names(d.pending))
    ensures Mirrors(rank, d)
  {
    SortingKeepsSorted(at, rank, [], Names(d.pending));
  }

  lemma {:induction false} ClearedClickMirrors(at: Placement, rank: Order, d: Dialog, c: Click)
    requires Sorting(at, rank) && Mirrors(rank, d) && Possible(d, c)
    ensures Mirrors(rank, AfterClick(Cleared, at, d, c))
    ensures Sorted(rank, Names(d.pending)) ==> Sorted(rank, Names(AfterClick(Cleared, at, d, c).pending))
  {
    var e := AfterClick(Cleared, at, d, c);
    if !Confirmed(c) {
      OtherClick(Cleared, at, d, c);
    } else {
      MirrorSize(rank, d);
      ClearedSuccess(at, d, c);
      DeleteKeepsOrder(rank, Names(d.pending), c.sel);
      CopyMirrors(at, rank, e);
    }
  }

  lemma {:induction false} ClearedRunMirrors(at: Placement, rank: Order, d: Dialog, cs: seq<Click>)
    requires Sorting(at, rank) && Mirrors(rank, d) && Runs(Cleared, at, d, cs)
    ensures Mirrors(rank, AfterRun(Cleared, at, d, cs))
    ensures Sorted(rank, Names(d.pending)) ==> Sorted(rank, Names(AfterRun(Cleared, at, d, cs).pending))
    decreases cs
  {
    if cs != [] {
      ClearedClickMirrors(at, rank, d, cs[0]);
      ClearedRunMirrors(at, rank, AfterClick(Cleared, at, d, cs[0]), cs[1..]);
    }
  }

  lemma {:induction false} OpenedMirrors(at: Placement, rank: Order, pending: seq<Request>)
    requires Sorting(at, rank) && NoTies(rank, Names(pending))
    ensures Mirrors(rank, Opened(at, pending))
  {
    CopyMirrors(at, rank, Opened(at, pending));
  }

  /** Every state of every run sends the name it erases. */
  ghost predicate AlwaysAligned(mode: Rebuild, at: Placement, d: Dialog) {
    forall cs :: Runs(mode, at, d, cs) ==> Aligned(AfterRun(mode, at, d, cs))
  }

  /** With a box that is really cleared: exactly when the requests arrived in box order. */
  lemma {:induction false} ClearedIsAlignedIff(at: Placement, rank: Order, pending: seq<Request>)
    requires Sorting(at, rank) && NoTies(rank, Names(pending))
    ensures AlwaysAligned(Cleared, at, Opened(at, pending)) <==> Sorted(rank, Names(pending))
  {
    var d := Opened(at, pending);
    OpenedMirrors(at, rank, pending);
    AlignedIffSorted(rank, d);
    if Sorted(rank, Names(pending)) {
      forall cs | Runs(Cleared, at, d, cs) ensures Aligned(AfterRun(Cleared, at, d, cs)) {
        ClearedRunMirrors(at, rank, d, cs);
        AlignedIffSorted(rank, AfterRun(Cleared, at, d, cs));
      }
    } else {
      assert Runs(Cleared, at, d, []) && AfterRun(Cleared, at, d, []) == d;
    }
  }

  /** And in an appending box always: cleared and copied, the box is the vector. */
  lemma {:induction false} ClearedAppendingMirrors(at: Placement, d: Dialog, cs: seq<Click>)
    requires Appending(at) && d.box == Names(d.pending) && Runs(Cleared, at, d, cs)
    ensures var e := AfterRun(Cleared, at, d, cs); e.box == Names(e.pending) && Aligned(e)
    decreases cs
  {
    if cs != [] {
      ClearedAppendingClick(at, d, cs[0]);
      ClearedAppendingMirrors(at, AfterClick(Cleared, at, d, cs[0]), cs[1..]);
    }
  }

  lemma {:induction false} ClearedAppendingClick(at: Placement, d: Dialog, c: Click)
    requires Appending(at) && d.box == Names(d.pending) && Possible(d, c)
    ensures var e := AfterClick(Cleared, at, d, c); e.box == Names(e.pending)
  {
    if !Confirmed(c) {
      OtherClick(Cleared, at, d, c);
    } else {
      ClearedSuccess(at, d, c);
      AppendingAppends(at, [], Names(AfterClick(Cleared, at, d, c).pending));
    }
  }
}
