/** The dialog as written: when the name sent to the server is the name erased. */
module Alignment {
  import opened ListBoxes
  import opened FriendDialog
  import opened FriendRuns

  lemma {:induction false} OddsAreSorted(rank: Order, v: seq<Name>)
    requires Sorted(rank, v)
    ensures Sorted(rank, Odds(v))
  {
  }

  lemma {:induction false} OpenedShowsSorted(at: Placement, rank: Order, pending: seq<Request>)
    requires Sorting(at, rank) && NoTies(rank, Names(pending)) && Sorted(rank, Names(pending))
    ensures Opened(at, pending).box == Names(pending)
  {
    OpenedMirrors(at, rank, pending);
    SortedIsUnique(rank, Names(pending), Opened(at, pending).box);
  }

  lemma {:induction false} RestOf(w: seq<Name>, u: seq<Name>, o: seq<Name>)
    requires u <= w && multiset(w) == multiset(u) + multiset(o)
    ensures w == u + w[|u|..] && multiset(w[|u|..]) == multiset(o)
  {
    var rest := w[|u|..];
    assert w == u + rest;
    assert multiset(rest) == (multiset(u) + multiset(rest)) - multiset(u);
    assert multiset(o) == (multiset(u) + multiset(o)) - multiset(u);
  }

  /** A sorted w made of u and o starts with u if and only if u followed by o is sorted. */
  lemma {:induction false} StartsWithIff(rank: Order, w: seq<Name>, u: seq<Name>, o: seq<Name>)
    requires Sorted(rank, w) && Sorted(rank, o) && NoTies(rank, w)
    requires multiset(w) == multiset(u) + multiset(o)
    ensures u <= w <==> Sorted(rank, u + o)
  {
    if u <= w {
      RestOf(w, u, o);
      SortedDrop(rank, w, |u|);
      NoTiesWithin(rank, w, o);
      SortedIsUnique(rank, o, w[|u|..]);
    } else if Sorted(rank, u + o) {
      assert multiset(u + o) == multiset(w);
      SortedIsUnique(rank, w, u + o);
    }
  }

  /** Every name of the rebuilt box was a name of the old one. */
  lemma {:induction false} NoTiesRebuilt(rank: Order, v: seq<Name>, k: nat, w: seq<Name>)
    requires NoTies(rank, v) && k < |v| && multiset(w) == multiset(Odds(v)) + multiset(Delete(v, k))
    ensures NoTies(rank, w)
  {
    forall x | x in w ensures x in v {
      assert x in multiset(w);
      if x in multiset(Odds(v)) {
        var i :| 0 <= i < |Odds(v)| && Odds(v)[i] == x;
        assert x == v[2 * i + 1];
      } else {
        assert x in multiset(Delete(v, k)) && x in multiset(v);
      }
    }
  }

  /** The rebuilt box is the new vector followed by the odd old entries, or it does not line up. */
  lemma {:induction false} RebuiltLinesUpIff(at: Placement, rank: Order, v: seq<Name>, k: nat)
    requires Sorting(at, rank) && Sorted(rank, v) && NoTies(rank, v) && k < |v|
    ensures Delete(v, k) <= PlaceAll(at, Odds(v), Delete(v, k)) <==> Sorted(rank, Delete(v, k) + Odds(v))
  {
    var w := PlaceAll(at, Odds(v), Delete(v, k));
    OddsAreSorted(rank, v);
    SortingKeepsSorted(at, rank, Odds(v), Delete(v, k));
    NoTiesRebuilt(rank, v, k, w);
    StartsWithIff(rank, w, Delete(v, k), Odds(v));
  }

  /** The last index of v that is left when entry k is erased. */
  function LastKept(v: seq<Name>, k: nat): nat
    requires k < |v| && |v| >= 2
  {
    if k == |v| - 1 then |v| - 2 else |v| - 1
  }

  /** At most two names, or all that are kept from the second on are equal. */
  predicate KeepsLine(v: seq<Name>, k: nat)
    requires k < |v|
  {
    |v| <= 2 || v[LastKept(v, k)] == v[1]
  }

  lemma {:induction false} SortedConcatIff(rank: Order, u: seq<Name>, o: seq<Name>)
    requires Sorted(rank, u) && Sorted(rank, o) && u != [] && o != []
    ensures Sorted(rank, u + o) <==> rank(u[|u| - 1]) <= rank(o[0])
  {
    assert (u + o)[|u| - 1] == u[|u| - 1] && (u + o)[|u|] == o[0];
    if rank(u[|u| - 1]) <= rank(o[0]) {
      assert forall i :: 0 <= i < |u| ==> rank(u[i]) <= rank(u[|u| - 1]);
      assert forall i :: 0 <= i < |o| ==> rank(o[0]) <= rank(o[i]);
    }
  }

  /** Which vectors, after erasing entry k, stand in order before the odd old entries. */
  lemma {:induction false} ErasedThenOddsIff(rank: Order, v: seq<Name>, k: nat)
    requires Sorted(rank, v) && NoTies(rank, v) && k < |v|
    ensures Sorted(rank, Delete(v, k) + Odds(v)) <==> KeepsLine(v, k)
  {
    if |v| == 1 {
      assert Delete(v, k) + Odds(v) == [];
    } else {
      var u := Delete(v, k);
      DeleteKeepsOrder(rank, v, k);
      OddsAreSorted(rank, v);
      SortedConcatIff(rank, u, Odds(v));
      assert u[|u| - 1] == v[LastKept(v, k)] && Odds(v)[0] == v[1];
      assert LastKept(v, k) >= 1 ==> rank(v[1]) <= rank(v[LastKept(v, k)]);
      assert v[1] in v && v[LastKept(v, k)] in v;
    }
  }

  /** A successful answer while the box shows exactly the vector. */
  lemma {:induction false} MirroredAnswer(at: Placement, d: Dialog, c: Click)
    requires d.box == Names(d.pending)
    requires Confirmed(c) && 0 <= c.sel < |d.pending|
    ensures Possible(d, c) && Covered(d)
    ensures var e, v := AfterClick(AsWritten, at, d, c), d.box;
            && Covered(e) && |e.pending| == |v| - 1
            && Names(e.pending) == Delete(v, c.sel)
            && e.box == PlaceAll(at, Odds(v), Delete(v, c.sel))
  {
    CoveredClick(at, d, c);
    ConfirmedClick(at, d, c);
    NamesOfDelete(d.pending, c.sel);
  }

  lemma {:induction false} AlignedIsPrefix(d: Dialog)
    ensures Aligned(d) <==> Names(d.pending) <= d.box
  {
    if Aligned(d) {
      assert Names(d.pending) == d.box[..|d.pending|];
    }
  }

  lemma {:induction false} MirroredAnswerAlignedIff(at: Placement, rank: Order, d: Dialog, c: Click)
    requires Sorting(at, rank) && d.box == Names(d.pending) && Sorted(rank, d.box) && NoTies(rank, d.box)
    requires Confirmed(c) && 0 <= c.sel < |d.pending|
    ensures Possible(d, c)
    ensures Aligned(AfterClick(AsWritten, at, d, c)) <==> KeepsLine(d.box, c.sel)
  {
    MirroredAnswer(at, d, c);
    AlignedIsPrefix(AfterClick(AsWritten, at, d, c));
    RebuiltLinesUpIff(at, rank, d.box, c.sel);
    ErasedThenOddsIff(rank, d.box, c.sel);
  }

  /** The first confirmed answer, in a sorted box: afterwards names line up if and only if
      there were at most two requests, or all the names kept from the second on are equal. */
  lemma {:induction false} FirstClickAlignedIff(at: Placement, rank: Order, pending: seq<Request>, c: Click)
    requires Sorting(at, rank) && NoTies(rank, Names(pending)) && Sorted(rank, Names(pending))
    requires Confirmed(c) && 0 <= c.sel < |pending|
    ensures Possible(Opened(at, pending), c)
    ensures Aligned(AfterClick(AsWritten, at, Opened(at, pending), c)) <==> KeepsLine(Names(pending), c.sel)
  {
    OpenedShowsSorted(at, rank, pending);
    MirroredAnswerAlignedIff(at, rank, Opened(at, pending), c);
  }

  ghost predicate Distinct(names: seq<Name>) {
    forall i, j :: 0 <= i < j < |names| ==> names[i] != names[j]
  }

  /** Entry i of the odd entries of v followed by u. */
  function OddThen(v: seq<Name>, u: seq<Name>, i: nat): Name
    requires |u| == |v| - 1 && i < |u|
  {
    if i < |v| / 2 then v[2 * i + 1] else u[i - |v| / 2]
  }

  /** u repeats itself behind the odd entries of v. */
  ghost predicate Repeats(v: seq<Name>, u: seq<Name>)
    requires |u| == |v| - 1
  {
    forall i :: 0 <= i < |u| ==> u[i] == OddThen(v, u, i)
  }

  /** The same in an appending box, for any names; for distinct names only with one
      request, or with two when the first was answered. */
  lemma {:induction false} FirstClickAppendingIff(at: Placement, pending: seq<Request>, c: Click)
    requires Appending(at) && Confirmed(c) && 0 <= c.sel < |pending|
    ensures Possible(Opened(at, pending), c)
    ensures Aligned(AfterClick(AsWritten, at, Opened(at, pending), c))
       <==> Repeats(Names(pending), Delete(Names(pending), c.sel))
    ensures Distinct(Names(pending)) ==>
              (Aligned(AfterClick(AsWritten, at, Opened(at, pending), c))
               <==> |pending| == 1 || (|pending| == 2 && c.sel == 0))
  {
    AppendedShowsNames(at, pending);
    MirroredAppendingIff(at, Opened(at, pending), c);
    if Distinct(Names(pending)) {
      DistinctRepeatsIff(Names(pending), c.sel);
    }
  }

  lemma {:induction false} AppendedShowsNames(at: Placement, pending: seq<Request>)
    requires Appending(at)
    ensures Opened(at, pending).box == Names(pending)
  {
    AppendingAppends(at, [], Names(pending));
    assert [] + Names(pending) == Names(pending);
  }

  lemma {:induction false} MirroredAppendingIff(at: Placement, d: Dialog, c: Click)
    requires Appending(at) && d.box == Names(d.pending)
    requires Confirmed(c) && 0 <= c.sel < |d.pending|
    ensures Possible(d, c)
    ensures Aligned(AfterClick(AsWritten, at, d, c)) <==> Repeats(d.box, Delete(d.box, c.sel))
  {
    MirroredAnswer(at, d, c);
    AlignedIsPrefix(AfterClick(AsWritten, at, d, c));
    AppendingAppends(at, Odds(d.box), Delete(d.box, c.sel));
    PrefixRepeatsIff(d.box, Delete(d.box, c.sel));
  }

  lemma {:induction false} PrefixRepeatsIff(v: seq<Name>, u: seq<Name>)
    requires |u| == |v| - 1
    ensures u <= Odds(v) + u <==> Repeats(v, u)
  {
    var w := Odds(v) + u;
    assert forall i :: 0 <= i < |u| ==> w[i] == OddThen(v, u, i);
    if Repeats(v, u) {
      assert forall i :: 0 <= i < |u| ==> u[i] == w[i];
    }
  }

  lemma {:induction false} DistinctRepeatsIff(v: seq<Name>, k: nat)
    requires k < |v| && Distinct(v)
    ensures Repeats(v, Delete(v, k)) <==> |v| == 1 || (|v| == 2 && k == 0)
  {
    var u := Delete(v, k);
    if |v| >= 2 && k > 0 {
      assert u[0] == v[0] && OddThen(v, u, 0) == v[1];
    } else if |v| >= 3 {
      assert u[1] == v[2] && u[0] == v[1];
      assert OddThen(v, u, 1) == if |v| >= 4 then v[3] else v[1];
    }
  }

  // ----- All runs -----

  /** All entries from the second on are w. */
  ghost predicate ThenOnly(s: seq<Name>, w: Name) {
    forall i :: 1 <= i < |s| ==> s[i] == w
  }

  /** A dialog whose names are all w, but possibly the first, which then is below w. */
  ghost predicate Uniform(rank: Order, d: Dialog, w: Name) {
    && Covered(d)
    && ThenOnly(Names(d.pending), w) && ThenOnly(d.box, w)
    && (d.pending != [] ==> d.box[0] == d.pending[0].name && (d.box[0] == w || rank(d.box[0]) < rank(w)))
  }

  lemma {:induction false} PlacedSame(at: Placement, o: seq<Name>, u: seq<Name>, w: Name)
    requires forall i :: 0 <= i < |o| ==> o[i] == w
    requires forall i :: 0 <= i < |u| ==> u[i] == w
    ensures forall i :: 0 <= i < |PlaceAll(at, o, u)| ==> PlaceAll(at, o, u)[i] == w
  {
    var r := PlaceAll(at, o, u);
    OnlyMembers(o, w);
    OnlyMembers(u, w);
    forall i | 0 <= i < |r| ensures r[i] == w {
      assert r[i] in multiset(r);
    }
  }

  lemma {:induction false} PlacedBelow(at: Placement, rank: Order, o: seq<Name>, u: seq<Name>, w: Name)
    requires Sorting(at, rank) && u != [] && ThenOnly(u, w) && rank(u[0]) < rank(w)
    requires forall i :: 0 <= i < |o| ==> o[i] == w
    ensures var r := PlaceAll(at, o, u); ThenOnly(r, w) && r[0] == u[0]
  {
    var tail := u[1..];
    assert u == [u[0]] + tail;
    assert multiset(o + tail) == multiset(o) + multiset(tail);
    assert Sorted(rank, o);
    SortingKeepsSorted(at, rank, o, u);
    OneBelow(rank, PlaceAll(at, o, u), o + tail, u[0], w);
  }

  /** Copying such names into a box that holds nothing but w gives such a box. */
  lemma {:induction false} PlacedUniform(at: Placement, rank: Order, o: seq<Name>, u: seq<Name>, w: Name)
    requires Sorting(at, rank) && ThenOnly(u, w) && (u != [] ==> u[0] == w || rank(u[0]) < rank(w))
    requires forall i :: 0 <= i < |o| ==> o[i] == w
    ensures var r := PlaceAll(at, o, u); ThenOnly(r, w) && (u != [] ==> r[0] == u[0])
  {
    if u == [] || u[0] == w {
      PlacedSame(at, o, u, w);
    } else {
      PlacedBelow(at, rank, o, u, w);
    }
  }

  lemma {:induction false} OnlyMembers(s: seq<Name>, w: Name)
    requires forall i :: 0 <= i < |s| ==> s[i] == w
    ensures forall x :: x in s ==> x == w
    ensures forall x :: x in multiset(s) ==> x == w
  {
  }

  lemma {:induction false} OneBelow(rank: Order, r: seq<Name>, ws: seq<Name>, x: Name, w: Name)
    requires Sorted(rank, r) && rank(x) < rank(w)
    requires multiset(r) == multiset{x} + multiset(ws) && forall i :: 0 <= i < |ws| ==> ws[i] == w
    ensures ThenOnly(r, w) && r != [] && r[0] == x
  {
    OnlyMembers(ws, w);
    assert x in multiset(r);
    forall y | y in r ensures y == x || y == w {
      assert y in multiset(r);
    }
    LeastIsFirst(rank, r, x);
    TailMultiset(r);
    assert multiset(r[1..]) == multiset(ws);
    forall i | 1 <= i < |r| ensures r[i] == w {
      assert r[i] == r[1..][i - 1] && r[i] in multiset(r[1..]);
    }
  }

  lemma {:induction false} DeleteThenOnly(s: seq<Name>, k: nat, w: Name)
    requires k < |s| && ThenOnly(s, w)
    ensures var r := Delete(s, k); ThenOnly(r, w) && (r != [] ==> r[0] == s[0] || r[0] == w)
  {
  }

  lemma {:induction false} OddsOnly(s: seq<Name>, w: Name)
    requires ThenOnly(s, w)
    ensures forall i :: 0 <= i < |Odds(s)| ==> Odds(s)[i] == w
  {
  }

  lemma {:induction false} UniformClick(at: Placement, rank: Order, d: Dialog, c: Click, w: Name)
    requires Sorting(at, rank) && Uniform(rank, d, w) && Possible(d, c)
    ensures Uniform(rank, AfterClick(AsWritten, at, d, c), w)
  {
    var e := AfterClick(AsWritten, at, d, c);
    CoveredClick(at, d, c);
    if Confirmed(c) {
      ConfirmedClick(at, d, c);
      NamesOfDelete(d.pending, c.sel);
      DeleteThenOnly(Names(d.pending), c.sel, w);
      OddsOnly(d.box, w);
      CopiedIsUniform(at, rank, e, Odds(d.box), w);
    }
  }

  lemma {:induction false} CopiedIsUniform(at: Placement, rank: Order, e: Dialog, o: seq<Name>, w: Name)
    requires Sorting(at, rank) && Covered(e) && e.box == PlaceAll(at, o, Names(e.pending))
    requires forall i :: 0 <= i < |o| ==> o[i] == w
    requires ThenOnly(Names(e.pending), w)
    requires e.pending != [] ==> e.pending[0].name == w || rank(e.pending[0].name) < rank(w)
    ensures Uniform(rank, e, w)
  {
    PlacedUniform(at, rank, o, Names(e.pending), w);
  }

  lemma {:induction false} UniformOverRun(at: Placement, rank: Order, d: Dialog, cs: seq<Click>, w: Name)
    requires Sorting(at, rank) && Uniform(rank, d, w) && Runs(AsWritten, at, d, cs)
    ensures Aligned(AfterRun(AsWritten, at, d, cs))
    decreases cs
  {
    if cs != [] {
      UniformClick(at, rank, d, cs[0], w);
      UniformOverRun(at, rank, AfterClick(AsWritten, at, d, cs[0]), cs[1..], w);
    }
  }

  lemma {:induction false} UniformIsAlwaysAligned(at: Placement, rank: Order, pending: seq<Request>, w: Name)
    requires Sorting(at, rank) && ThenOnly(Names(pending), w)
    requires pending != [] ==> pending[0].name == w || rank(pending[0].name) < rank(w)
    ensures AlwaysAligned(AsWritten, at, Opened(at, pending))
  {
    var d := Opened(at, pending);
    OpenedIsCovered(at, pending);
    CopiedIsUniform(at, rank, d, [], w);
    forall cs | Runs(AsWritten, at, d, cs) ensures Aligned(AfterRun(AsWritten, at, d, cs)) {
      UniformOverRun(at, rank, d, cs, w);
    }
  }

  lemma {:induction false} OneBadClick(at: Placement, d: Dialog, c: Click)
    requires Possible(d, c) && !Aligned(AfterClick(AsWritten, at, d, c))
    ensures !AlwaysAligned(AsWritten, at, d)
  {
    OneClickRun(AsWritten, at, d, c);
  }

  /** Sorted names that end like their second one are all equal from there on. */
  lemma {:induction false} EqualFromSecond(rank: Order, v: seq<Name>)
    requires Sorted(rank, v) && NoTies(rank, v) && |v| >= 2 && (|v| == 2 || v[1] == v[|v| - 1])
    ensures ThenOnly(v, v[1]) && (v[0] == v[1] || rank(v[0]) < rank(v[1]))
  {
    forall i | 1 <= i < |v| ensures v[i] == v[1] {
      if 1 < i < |v| - 1 {
        assert rank(v[1]) <= rank(v[i]) <= rank(v[|v| - 1]);
      }
      assert v[i] in v && v[1] in v;
    }
    assert v[0] in v && v[1] in v && rank(v[0]) <= rank(v[1]);
  }

  /** In box order, and at most two or all equal from the second on. */
  ghost predicate InLine(rank: Order, names: seq<Name>) {
    Sorted(rank, names) && (|names| <= 2 || names[1] == names[|names| - 1])
  }

  lemma {:induction false} UnsortedIsNotAligned(at: Placement, rank: Order, pending: seq<Request>)
    requires Sorting(at, rank) && NoTies(rank, Names(pending)) && !Sorted(rank, Names(pending))
    ensures !AlwaysAligned(AsWritten, at, Opened(at, pending))
  {
    var d := Opened(at, pending);
    OpenedMirrors(at, rank, pending);
    AlignedIffSorted(rank, d);
    NoClickRun(AsWritten, at, d);
  }

  lemma {:induction false} NoClickRun(mode: Rebuild, at: Placement, d: Dialog)
    requires !Aligned(d)
    ensures !AlwaysAligned(mode, at, d)
  {
    assert Runs(mode, at, d, []) && AfterRun(mode, at, d, []) == d;
  }

  lemma {:induction false} InLineIsAligned(at: Placement, rank: Order, pending: seq<Request>)
    requires Sorting(at, rank) && NoTies(rank, Names(pending)) && InLine(rank, Names(pending))
    ensures AlwaysAligned(AsWritten, at, Opened(at, pending))
  {
    var names := Names(pending);
    if |names| <= 1 {
      UniformIsAlwaysAligned(at, rank, pending, if names == [] then Name("") else names[0]);
    } else {
      EqualFromSecond(rank, names);
      UniformIsAlwaysAligned(at, rank, pending, names[1]);
    }
  }

  lemma {:induction false} OutOfLine(at: Placement, rank: Order, pending: seq<Request>)
    requires Sorting(at, rank) && NoTies(rank, Names(pending))
    requires Sorted(rank, Names(pending)) && !InLine(rank, Names(pending))
    ensures !AlwaysAligned(AsWritten, at, Opened(at, pending))
  {
    FirstOutOfLine(rank, Names(pending));
    BadFirstClick(at, rank, pending);
    OneBadClick(at, Opened(at, pending), Accept(0, SUCCESS));
  }

  lemma {:induction false} FirstOutOfLine(rank: Order, names: seq<Name>)
    requires Sorted(rank, names) && !InLine(rank, names)
    ensures |names| >= 3 && !KeepsLine(names, 0)
  {
  }

  lemma {:induction false} BadFirstClick(at: Placement, rank: Order, pending: seq<Request>)
    requires Sorting(at, rank) && NoTies(rank, Names(pending)) && Sorted(rank, Names(pending))
    requires |pending| >= 3 && !KeepsLine(Names(pending), 0)
    ensures Possible(Opened(at, pending), Accept(0, SUCCESS))
    ensures !Aligned(AfterClick(AsWritten, at, Opened(at, pending), Accept(0, SUCCESS)))
  {
    FirstClickAlignedIff(at, rank, pending, Accept(0, SUCCESS));
  }

  /** As written, every run sends what it erases if and only if the requests arrived in box
      order, and there are at most two of them or all are equal from the second on. */
  lemma {:induction false} AsWrittenIsAlignedIff(at: Placement, rank: Order, pending: seq<Request>)
    requires Sorting(at, rank) && NoTies(rank, Names(pending))
    ensures AlwaysAligned(AsWritten, at, Opened(at, pending)) <==> InLine(rank, Names(pending))
  {
    if !Sorted(rank, Names(pending)) {
      UnsortedIsNotAligned(at, rank, pending);
    } else if InLine(rank, Names(pending)) {
      InLineIsAligned(at, rank, pending);
    } else {
      OutOfLine(at, rank, pending);
    }
  }

  ghost predicate AllEqual(names: seq<Name>) {
    forall i :: 0 <= i < |names| ==> names[i] == names[0]
  }

  /** Names that repeat behind the odd ones without the first, and without the last, are equal. */
  lemma {:induction false} RepeatsMeanEqual(v: seq<Name>, j: nat)
    requires j < |v| && Repeats(v, Delete(v, 0)) && Repeats(v, Delete(v, |v| - 1))
    ensures v[j] == v[0]
  {
    if j > 0 {
      var first, last, i := Delete(v, 0), Delete(v, |v| - 1), j - 1;
      assert first[i] == v[i + 1] && last[i] == v[i];
      if i < |v| / 2 {
        assert OddThen(v, first, i) == OddThen(v, last, i);
        RepeatsMeanEqual(v, i);
      } else {
        assert OddThen(v, first, i) == first[i - |v| / 2] == v[i + 1 - |v| / 2];
        RepeatsMeanEqual(v, i + 1 - |v| / 2);
      }
    }
  }

  /** In an appending box: if and only if all names are equal. */
  lemma {:induction false} AsWrittenAppendingIff(at: Placement, pending: seq<Request>)
    requires Appending(at)
    ensures AlwaysAligned(AsWritten, at, Opened(at, pending)) <==> AllEqual(Names(pending))
  {
    var d, names := Opened(at, pending), Names(pending);
    if AllEqual(names) {
      UniformIsAlwaysAligned(at, _ => 0.0, pending, if names == [] then Name("") else names[0]);
    } else {
      var k := |names| - 1;
      FirstClickAppendingIff(at, pending, Accept(0, SUCCESS));
      FirstClickAppendingIff(at, pending, Accept(k, SUCCESS));
      if Repeats(names, Delete(names, 0)) && Repeats(names, Delete(names, k)) {
        forall j | 0 <= j < |names| ensures names[j] == names[0] {
          RepeatsMeanEqual(names, j);
        }
      } else if !Repeats(names, Delete(names, 0)) {
        OneBadClick(at, d, Accept(0, SUCCESS));
      } else {
        OneBadClick(at, d, Accept(k, SUCCESS));
      }
    }
  }

  // ----- What lining up means for the messages -----

  /** A confirmed answer sends a respond header, and data that says accept or reject for
      the name shown at the selection. */
  lemma {:induction false} ConfirmedWire(mode: Rebuild, at: Placement, d: Dialog, c: Click)
    requires Possible(d, c) && Confirmed(c)
    ensures AfterClick(mode, at, d, c).wire
         == d.wire + [Header(RESPOND_FRIEND_INFO, if c.Accept? then 2 else 1), Answer(SUCCESS),
                      Data(COMMON_DATA, 1, Info(d.box[c.sel], c.Accept?, false))]
  {
  }

  /** The last message names the request that was erased if and only if box and vector
      agree at the selection. */
  lemma {:induction false} SentIsErasedIff(mode: Rebuild, at: Placement, d: Dialog, c: Click)
    requires Possible(d, c) && Confirmed(c)
    ensures var e := AfterClick(mode, at, d, c);
            && |e.wire| > 0 && e.wire[|e.wire| - 1].Data?
            && (d.box[c.sel] == d.pending[c.sel].name <==>
                multiset(Names(e.pending)) + multiset{e.wire[|e.wire| - 1].info.userID}
                == multiset(Names(d.pending)))
  {
    var e := AfterClick(mode, at, d, c);
    ConfirmedWire(mode, at, d, c);
    ConfirmedShape(mode, at, d, c);
    ErasedNames(d, c.sel);
    assert e.wire[|e.wire| - 1] == Data(COMMON_DATA, 1, Info(d.box[c.sel], c.Accept?, false));
  }

  lemma {:induction false} ErasedNames(d: Dialog, k: nat)
    requires k < |d.pending| && k < |d.box|
    ensures d.box[k] == d.pending[k].name
       <==> multiset(Names(Delete(d.pending, k))) + multiset{d.box[k]} == multiset(Names(d.pending))
  {
    NamesOfDelete(d.pending, k);
    OneNameLess(Names(d.pending), k, d.box[k]);
  }

  lemma {:induction false} OneNameLess(names: seq<Name>, k: nat, x: Name)
    requires k < |names|
    ensures x == names[k] <==> multiset(Delete(names, k)) + multiset{x} == multiset(names)
  {
    var left := multiset(Delete(names, k));
    assert left + multiset{names[k]} == multiset(names);
    if left + multiset{x} == multiset(names) {
      assert (left + multiset{x})[x] == (left + multiset{names[k]})[x];
    }
  }
}
