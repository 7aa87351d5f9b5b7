/** How the two-pass prototype fails: for which calls it returns, throws, or runs out of
    arguments, and when the text it returns is wrong. */
module TwoPassFaults {
  import opened Wrappers
  import opened Placeholders
  import opened Expander
  import opened TwoPass

  // ----- Returning and throwing, from lengths alone -----

  function Lengths(args: seq<string>): (ls: seq<nat>)
    ensures |ls| == |args|
  {
    if args == [] then [] else [|args[0]|] + Lengths(args[1..])
  }

  /** The length of a text of n characters after an edit at c. */
  function Resized(n: nat, c: nat, len: nat): nat {
    (if c + 2 <= n then n - 2 else c) + len
  }

  /** Every entry finds an argument, and a text that reaches up to it. */
  predicate Fits(n: nat, cells: seq<nat>, lens: seq<nat>)
    decreases cells
  {
    cells == [] || (lens != [] && cells[0] <= n && Fits(Resized(n, cells[0], lens[0]), cells[1..], lens[1..]))
  }

  /** Some entry that finds an argument lies behind the end of the text. */
  predicate Overshoots(n: nat, cells: seq<nat>, lens: seq<nat>)
    decreases cells
  {
    && cells != [] && lens != []
    && (cells[0] > n || Overshoots(Resized(n, cells[0], lens[0]), cells[1..], lens[1..]))
  }

  function LengthAfter(n: nat, cells: seq<nat>, lens: seq<nat>): nat
    requires |cells| <= |lens|
    decreases cells
  {
    if cells == [] then n else LengthAfter(Resized(n, cells[0], lens[0]), cells[1..], lens[1..])
  }

  lemma {:induction false} SpliceLength(s: string, c: nat, a: string)
    requires c <= |s|
    ensures |Splice(s, c, a)| == Resized(|s|, c, |a|)
  {
  }

  lemma {:induction false} EditsByLength(s: string, cells: seq<nat>, args: seq<string>)
    ensures Edits(s, cells, args).Edited? <==> Fits(|s|, cells, Lengths(args))
    ensures Edits(s, cells, args) == Throws <==> Overshoots(|s|, cells, Lengths(args))
    ensures Edits(s, cells, args) != Overrun
    ensures Edits(s, cells, args).Edited? ==>
              |cells| <= |args| && |Edits(s, cells, args).text| == LengthAfter(|s|, cells, Lengths(args))
    decreases cells
  {
    if cells != [] && args != [] && cells[0] <= |s| {
      SpliceLength(s, cells[0], args[0]);
      EditsByLength(Splice(s, cells[0], args[0]), cells[1..], args[1..]);
    }
  }

  /** What the first pass stores. */
  function Stored(s: string): seq<nat> {
    if EndsAtPlaceholder(s) then Positions(s) else Positions(s) + [255]
  }

  lemma {:induction false} EditsOfStored(s: string, args: seq<string>)
    ensures TwoPasses(s, args) == if InBounds(s) then Edits(s, Stored(s), args) else Overrun
  {
    OverrunsIff(s);
    if InBounds(s) {
      CollectIsExactIff(s);
    }
  }

  /** For every template and every argument list: whether the call returns, throws or
      overruns the array depends on lengths and positions alone. */
  lemma {:induction false} OutcomeIff(s: string, args: seq<string>)
    ensures TwoPasses(s, args).Edited? <==> InBounds(s) && Fits(|s|, Stored(s), Lengths(args))
    ensures TwoPasses(s, args) == Throws <==> InBounds(s) && Overshoots(|s|, Stored(s), Lengths(args))
    ensures TwoPasses(s, args) == Overrun <==> !InBounds(s)
  {
    EditsOfStored(s, args);
    EditsByLength(s, Stored(s), args);
  }

  lemma {:induction false} MissingNeverFits(n: nat, cells: seq<nat>, lens: seq<nat>)
    requires |lens| < |cells|
    ensures !Fits(n, cells, lens)
    decreases cells
  {
    if lens != [] {
      MissingNeverFits(Resized(n, cells[0], lens[0]), cells[1..], lens[1..]);
    }
  }

  /** Arguments no shorter than the mark never let the text shrink. */
  lemma {:induction false} LongArgumentsFit(n: nat, cells: seq<nat>, args: seq<string>)
    requires |cells| <= |args|
    requires forall i :: 0 <= i < |cells| ==> cells[i] + 2 <= n && |args[i]| >= 2
    ensures Fits(n, cells, Lengths(args))
    ensures LengthAfter(n, cells, Lengths(args)) == n + Shift(args, |cells|)
    decreases cells
  {
    if cells != [] {
      assert args[..|cells|][1..] == args[1..][..|cells| - 1];
      LongArgumentsFit(Resized(n, cells[0], |args[0]|), cells[1..], args[1..]);
    }
  }

  /** Called with no surplus argument, the prototype returns if and only if no argument is
      missing, at most one character follows the last placeholder, and every position is
      reached; it is when no argument is shorter than "%s". */
  lemma {:induction false} ReturnsIff(s: string, args: seq<string>)
    requires |args| <= Count(s)
    ensures TwoPasses(s, args).Edited?
       <==> InBounds(s) && |args| == Count(s) && EndsAtPlaceholder(s) && Fits(|s|, Positions(s), Lengths(args))
    ensures InBounds(s) && |args| == Count(s) && (forall a :: a in args ==> |a| >= 2) ==>
              (TwoPasses(s, args).Edited? <==> EndsAtPlaceholder(s))
  {
    OutcomeIff(s, args);
    PositionsAreCounted(s);
    if |args| < |Stored(s)| {
      MissingNeverFits(|s|, Stored(s), Lengths(args));
    } else if forall a :: a in args ==> |a| >= 2 {
      LongArgumentsFit(|s|, Positions(s), args);
    }
  }

  /** With a surplus argument, the false entry 255 is edited too.  The call throws if and
      only if an earlier entry already does, or fewer than 255 characters are left. */
  lemma {:induction false} SurplusThrowsIff(s: string, args: seq<string>)
    requires InBounds(s) && !EndsAtPlaceholder(s) && |args| > Count(s)
    ensures |Positions(s)| == Count(s)
    ensures TwoPasses(s, args) == Throws
       <==> (|| !Fits(|s|, Positions(s), Lengths(args))
             || LengthAfter(|s|, Positions(s), Lengths(args)) < 255)
    ensures (forall i :: 0 <= i < Count(s) ==> |args[i]| >= 2) ==>
              (TwoPasses(s, args) == Throws <==> |s| + Shift(args, Count(s)) < 255)
  {
    PositionsAreCounted(s);
    OutcomeIff(s, args);
    LastOvershootsIff(|s|, Positions(s), 255, Lengths(args));
    if forall i :: 0 <= i < Count(s) ==> |args[i]| >= 2 {
      LongArgumentsFit(|s|, Positions(s), args);
    }
  }

  lemma {:induction false} LastOvershootsIff(n: nat, cells: seq<nat>, last: nat, lens: seq<nat>)
    requires |cells| < |lens|
    ensures Overshoots(n, cells + [last], lens) <==> !Fits(n, cells, lens) || LengthAfter(n, cells, lens) < last
    decreases cells
  {
    if cells == [] {
      assert cells + [last] == [last] && [last][1..] == [];
    } else {
      assert (cells + [last])[1..] == cells[1..] + [last];
      LastOvershootsIff(Resized(n, cells[0], lens[0]), cells[1..], last, lens[1..]);
    }
  }

  lemma {:induction false} ThreeCells()
    ensures Collect("%s%s%s", []) == Stopped([0, 2, 4])
  {
    var s := "%s%s%s";
    assert At(s, 0) && At(s, 2) && At(s, 4);
    CollectStep(s, []);
    CollectStep(s, [0]);
    CollectStep(s, [0, 2]);
  }

  /** An ordinary call that throws: empty arguments let the text shrink below the third position. */
  lemma {:induction false} ExampleThrows()
    ensures TwoPasses("%s%s%s", ["", "", "x"]) == Throws
  {
    var s, args := "%s%s%s", ["", "", "x"];
    ThreeCells();
    EditsByLength(s, [0, 2, 4], args);
    assert [0, 2, 4][1..] == [2, 4] && [2, 4][1..] == [4];
    assert args[1..] == ["", "x"] && ["", "x"][1..] == ["x"];
    var lens := Lengths(args);
    assert lens[0] == 0 && lens[1..] == Lengths(["", "x"]) && lens[1..][0] == 0 && lens[1..][1..] == Lengths(["x"]);
    assert Overshoots(2, [4], lens[1..][1..]);
    assert Overshoots(4, [2, 4], lens[1..]);
  }

  // ----- When the text is right -----

  /** Argument i starts with a character that stands nowhere before it. */
  ghost predicate Fresh(s: string, args: seq<string>, i: nat)
    requires i < |args|
  {
    args[i] != [] && args[i][0] !in s && forall j :: 0 <= j < i ==> args[i][0] !in args[j]
  }

  /** So does every argument that is read. */
  ghost predicate Marked(s: string, args: seq<string>) {
    forall i :: 0 <= i < |args| && i < |Stored(s)| ==> Fresh(s, args, i)
  }

  /** Up to q, r is what f is there, and then a. */
  ghost predicate Holds(r: string, f: string, q: nat, a: string) {
    q <= |f| && q + |a| <= |r| && r[..q] == f[..q] && r[q..q + |a|] == a
  }

  /** In the rendered text, argument m stands where its placeholder stood. */
  lemma {:induction false} RenderAround(s: string, args: seq<string>, m: nat)
    requires m < |Positions(s)| && |args| >= |Split(s)| - 1 && m < |args|
    ensures Holds(Render(s, args), Filled(s, args, m), Standing(s, args, m), args[m])
    decreases m, 1
  {
    var p := Find(s, 0).value;
    RenderStep(s, args);
    if m == 0 {
      FrontOfThree(s[..p], args[0], Render(s[p + 2..], args[1..]));
      assert s[..|s[..p]|] == s[..p];
    } else {
      RenderAroundStep(s, args, m, p);
    }
  }

  lemma {:induction false} RenderAroundStep(s: string, args: seq<string>, m: nat, p: nat)
    requires 1 <= m < |Positions(s)| && |args| >= |Split(s)| - 1 && m < |args| && Find(s, 0) == Some(p)
    ensures Holds(Render(s, args), Filled(s, args, m), Standing(s, args, m), args[m])
    decreases m, 0
  {
    var rest := s[p + 2..];
    RenderStep(s, args);
    StandingStep(s, args, m);
    FilledStep(s, args, m);
    RenderAround(rest, args[1..], m - 1);
    BehindFront(s[..p] + args[0], Render(rest, args[1..]), Filled(rest, args[1..], m - 1),
                Standing(rest, args[1..], m - 1), args[m]);
  }

  lemma {:induction false} FrontOfThree(x: string, y: string, z: string)
    ensures var r := x + y + z; r[..|x|] == x && r[|x|..|x| + |y|] == y
  {
  }

  lemma {:induction false} BehindFront(x: string, r: string, f: string, q: nat, a: string)
    requires Holds(r, f, q, a)
    ensures Holds(x + r, x + f, |x| + q, a)
  {
    assert (x + r)[..|x| + q] == x + r[..q];
    assert (x + f)[..|x| + q] == x + f[..q];
    assert (x + r)[|x| + q..|x| + q + |a|] == r[q..q + |a|];
  }

  /** Filling brings in no characters but those of the arguments. */
  lemma {:induction false} FilledHolds(s: string, args: seq<string>, i: nat, c: char)
    requires i <= |Positions(s)| && i <= |args|
    requires c !in s && forall j :: 0 <= j < i ==> c !in args[j]
    ensures c !in Filled(s, args, i)
    decreases i
  {
    if i > 0 {
      var p := Find(s, 0).value;
      FilledStep(s, args, i);
      FilledHolds(s[p + 2..], args[1..], i - 1, c);
      assert c !in args[0];
    }
  }

  /** Edits further on keep the front of the text. */
  lemma {:induction false} LaterEditsKeep(t: string, cells: seq<nat>, args: seq<string>, q: nat)
    requires q <= |t| && forall i :: 0 <= i < |cells| ==> q <= cells[i]
    ensures var r := Edits(t, cells, args); r.Edited? ==> q <= |r.text| && r.text[..q] == t[..q]
    decreases cells
  {
    if cells != [] && args != [] && cells[0] <= |t| {
      var u := Splice(t, cells[0], args[0]);
      assert q <= |u| && u[..q] == t[..q];
      LaterEditsKeep(u, cells[1..], args[1..], q);
    }
  }

  /** The first edit at a wrong place leaves its argument there. */
  lemma {:induction false} WrongEdit(f: string, p: nat, cells: seq<nat>, args: seq<string>)
    requires args != [] && args[0] != [] && forall i :: 0 <= i < |cells| ==> p < cells[i]
    ensures var r := Edits(f, [p] + cells, args);
            r.Edited? ==> p <= |f| && p < |r.text| && r.text[..p] == f[..p] && r.text[p] == args[0][0]
  {
    assert ([p] + cells)[1..] == cells;
    if p <= |f| {
      var t := Splice(f, p, args[0]);
      assert p < |t| && t[..p] == f[..p] && t[p] == args[0][0];
      LaterEditsKeep(t, cells, args[1..], p + 1);
      var r := Edits(t, cells, args[1..]);
      if r.Edited? {
        assert r.text[p] == r.text[..p + 1][p] && r.text[..p] == r.text[..p + 1][..p] && t[..p + 1][..p] == t[..p];
      }
    }
  }

  /** So the new character stands at the stale position in one text, at the true one in the other. */
  lemma {:induction false} DifferentPlaces(f: string, u: string, r: string, p: nat, q: nat, c: char)
    requires p != q && c !in f
    requires p <= |f| && p < |u| && u[..p] == f[..p] && u[p] == c
    requires q <= |f| && q < |r| && r[..q] == f[..q] && r[q] == c
    ensures u != r
  {
    if p < q {
      assert r[p] == r[..q][p] == f[..q][p] == f[p];
    } else {
      assert u[q] == u[..p][q] == f[..p][q] == f[q];
    }
  }

  /** A text that holds the argument elsewhere is not the result of such an edit. */
  lemma {:induction false} WrongEditDiffers(
    f: string, r: string, p: nat, q: nat, cells: seq<nat>, args: seq<string>)
    requires args != [] && args[0] != [] && args[0][0] !in f && p != q
    requires Holds(r, f, q, args[0]) && forall i :: 0 <= i < |cells| ==> p < cells[i]
    ensures Edits(f, [p] + cells, args) != Edited(r)
  {
    WrongEdit(f, p, cells, args);
    var e := Edits(f, [p] + cells, args);
    if e.Edited? {
      assert r[q] == r[q..q + |args[0]|][0] == args[0][0];
      DifferentPlaces(f, e.text, r, p, q, args[0][0]);
    }
  }

  lemma {:induction false} ShiftSpoils(s: string, args: seq<string>, m: nat)
    requires |Positions(s)| == Count(s) && |args| >= Count(s) && |Split(s)| == Count(s) + 1 && m < Count(s)
    requires Fresh(s, args, m)
    requires (forall j :: 0 <= j < m ==> Shift(args, j) == 0) && Shift(args, m) != 0
    ensures Edits(s, Positions(s), args) != Edited(Render(s, args))
  {
    var ps := Positions(s);
    EditsReach(s, args, m);
    TruePosition(s, args, m);
    RenderAround(s, args, m);
    FilledHolds(s, args, m, args[m][0]);
    var later := ps[m + 1..];
    assert ps[m..] == [ps[m]] + later;
    forall i | 0 <= i < |later| ensures ps[m] < later[i] {
      PositionsAscend(s, m, m + 1 + i);
    }
    WrongEditDiffers(Filled(s, args, m), Render(s, args), ps[m], Standing(s, args, m), later, args[m..]);
  }

  lemma {:induction false} FirstShift(args: seq<string>, n: nat) returns (m: nat)
    requires n <= |args| && exists i :: 0 <= i < n && Shift(args, i) != 0
    ensures m < n && Shift(args, m) != 0 && forall j :: 0 <= j < m ==> Shift(args, j) == 0
  {
    m := 0;
    while Shift(args, m) == 0
      invariant m < n && forall j :: 0 <= j < m ==> Shift(args, j) == 0
      invariant exists i :: m <= i < n && Shift(args, i) != 0
      decreases n - m
    {
      m := m + 1;
    }
  }

  lemma {:induction false} ShiftlessRendersIff(s: string, args: seq<string>)
    requires InBounds(s) && EndsAtPlaceholder(s) && |args| >= Count(s) && Marked(s, args)
    ensures |Split(s)| == Count(s) + 1
    ensures TwoPasses(s, args) == Edited(Render(s, args))
       <==> forall j :: 0 <= j < Count(s) - 1 ==> |args[j]| == 2
  {
    EditsOfPositions(s, args);
    SplitIsExact(s);
    NoShiftIff(args, Count(s));
    if forall j :: 0 <= j < Count(s) - 1 ==> |args[j]| == 2 {
      PassesAgree(s, args);
    } else {
      var m := FirstShift(args, Count(s));
      assert Fresh(s, args, m);
      ShiftSpoils(s, args, m);
    }
  }

  /** What is inserted by the last edit stands in the result. */
  lemma {:induction false} LastEditShows(t: string, cells: seq<nat>, args: seq<string>)
    requires cells != [] && |args| >= |cells| && args[|cells| - 1] != []
    ensures var r := Edits(t, cells, args); r.Edited? ==> args[|cells| - 1][0] in r.text
    decreases cells
  {
    var a := args[0];
    if cells[0] <= |t| {
      var u := Splice(t, cells[0], a);
      if |cells| == 1 {
        assert cells[1..] == [] && u[cells[0]] == a[0];
      } else {
        LastEditShows(u, cells[1..], args[1..]);
      }
    }
  }

  /** A false entry 255 starves the call, or brings in an argument that belongs nowhere. */
  lemma {:induction false} FalseEntrySpoils(s: string, args: seq<string>)
    requires InBounds(s) && !EndsAtPlaceholder(s) && |args| >= Count(s) && Marked(s, args)
    ensures |Split(s)| == Count(s) + 1
    ensures TwoPasses(s, args) != Edited(Render(s, args))
  {
    var n := Count(s);
    FullyFilledIsRender(s, args);
    EditsOfStored(s, args);
    if |args| == n {
      OutcomeIff(s, args);
      MissingNeverFits(|s|, Stored(s), Lengths(args));
    } else {
      assert Fresh(s, args, n);
      FilledHolds(s, args, n, args[n][0]);
      LastEditShows(s, Stored(s), args);
    }
  }

  /** For arguments that can be told apart from all text before them, the prototype is the
      plain formatter if and only if the template ends at its last placeholder, but for one
      character, and every argument but the last has two characters. */
  lemma {:induction false} RendersIff(s: string, args: seq<string>)
    requires InBounds(s) && |args| >= Count(s) && Marked(s, args)
    ensures |Split(s)| == Count(s) + 1
    ensures TwoPasses(s, args) == Edited(Render(s, args))
       <==> EndsAtPlaceholder(s) && forall j :: 0 <= j < Count(s) - 1 ==> |args[j]| == 2
  {
    if EndsAtPlaceholder(s) {
      ShiftlessRendersIff(s, args);
    } else {
      FalseEntrySpoils(s, args);
    }
  }

  // ----- Placeholders left in the result -----

  /** Each edit ends before the place to which the earlier edits have moved q. */
  ghost predicate InFrontOf(cells: seq<nat>, args: seq<string>, q: int)
    requires |cells| <= |args|
  {
    forall i :: 0 <= i < |cells| ==> cells[i] + 2 <= q + Shift(args, i)
  }

  /** A placeholder that every edit passes in front of is still there at the end. */
  lemma {:induction false} UntouchedPlaceholder(s: string, cells: seq<nat>, args: seq<string>, q: int)
    requires At(s, q) && |cells| <= |args|
    requires InFrontOf(cells, args, q)
    ensures Edits(s, cells, args).Edited? && Count(Edits(s, cells, args).text) > 0
    decreases cells
  {
    if cells == [] {
      CountIsZero(s);
    } else {
      assert Shift(args, 0) == 0;
      var a := args[0];
      SpliceJoined(s, cells[0], a);
      assert At(Splice(s, cells[0], a), q + |a| - 2);
      forall i | 0 <= i < |cells[1..]| ensures cells[1..][i] + 2 <= q + |a| - 2 + Shift(args[1..], i) {
        assert args[..i + 1][1..] == args[1..][..i];
        assert cells[i + 1] + 2 <= q + Shift(args, i + 1);
      }
      UntouchedPlaceholder(Splice(s, cells[0], a), cells[1..], args[1..], q + |a| - 2);
    }
  }

  lemma {:induction false} ShiftGrows(args: seq<string>, i: nat)
    requires i <= |args| && forall j :: 0 <= j < i ==> |args[j]| >= 2
    ensures Shift(args, i) >= 0
  {
    if i > 0 {
      ShiftGrows(args, i - 1);
      ShiftStep(args, i - 1);
    }
  }

  /** As soon as the arguments before the last are two characters longer in all than
      their placeholders, the last placeholder survives in the result. */
  lemma {:induction false} LastPlaceholderSurvives(s: string, args: seq<string>)
    requires InBounds(s) && EndsAtPlaceholder(s) && |args| >= Count(s) >= 2
    requires forall j :: 0 <= j < Count(s) - 1 ==> |args[j]| >= 2
    requires Shift(args, Count(s) - 1) >= 2
    ensures TwoPasses(s, args).Edited? && Count(TwoPasses(s, args).text) > 0
  {
    EditsOfPositions(s, args);
    EditsStayInFront(s, args);
    var q := Positions(s)[Count(s) - 1];
    assert At(s, q);
    UntouchedPlaceholder(s, Positions(s), args, q);
  }

  lemma {:induction false} EditsStayInFront(s: string, args: seq<string>)
    requires |Positions(s)| == Count(s) >= 2 && |args| >= Count(s)
    requires forall j :: 0 <= j < Count(s) - 1 ==> |args[j]| >= 2
    requires Shift(args, Count(s) - 1) >= 2
    ensures At(s, Positions(s)[Count(s) - 1])
    ensures InFrontOf(Positions(s), args, Positions(s)[Count(s) - 1])
  {
    var ps := Positions(s);
    PositionsAreAll(s, 0);
    assert ps[|ps| - 1] in ps;
    forall i | 0 <= i < |ps| ensures ps[i] + 2 <= ps[|ps| - 1] + Shift(args, i) {
      ShiftGrows(args, i);
      if i < |ps| - 1 {
        PositionsAscend(s, i, |ps| - 1);
      }
    }
  }

  /** Not empty, no percent sign, and no 's' in front: it forms no placeholder with any text. */
  predicate Neutral(a: string) {
    a != [] && a[0] != 's' && '%' !in a
  }

  /** A text without placeholders that forms none with what comes behind it. */
  predicate Clean(l: string) {
    Count(l) == 0 && (l != [] ==> l[|l| - 1] != '%')
  }

  /** A neutral text closes any text without placeholders. */
  lemma {:induction false} NeutralCleans(x: string, a: string)
    requires Count(x) == 0 && Neutral(a)
    ensures Clean(x + a)
  {
    CountIsZero(a);
    CountConcat(x, a);
    assert (x + a)[|x + a| - 1] == a[|a| - 1];
  }

  lemma {:induction false} FrontStaysFree(x: string, n: nat)
    requires Count(x) == 0 && n <= |x|
    ensures Count(x[..n]) == 0
  {
    CountConcat(x[..n], x[n..]);
    assert x == x[..n] + x[n..];
  }

  /** What is final after an edit in l + r, at the first placeholder of r or, when late,
      one character before it: then a lone 's' stays behind the argument. */
  function Front(l: string, r: string, p: nat, late: bool, a: string): string
    requires p <= |r| && (late ==> l != [])
  {
    var x := l + r[..p];
    if late then x[..|x| - 1] + a + "s" else x + a
  }

  lemma {:induction false} FrontIsClean(l: string, r: string, p: nat, late: bool, a: string)
    requires Clean(l) && Neutral(a) && Find(r, 0) == Some(p) && (late ==> l != [])
    ensures Clean(Front(l, r, p, late, a))
  {
    var x := l + r[..p];
    Cut(r);
    CountConcat(l, r[..p]);
    if late {
      FrontStaysFree(x, |x| - 1);
      NeutralCleans(x[..|x| - 1], a);
      CountConcat(x[..|x| - 1] + a, "s");
    } else {
      NeutralCleans(x, a);
    }
  }

  lemma {:induction false} EditInFront(l: string, r: string, p: nat, late: bool, a: string)
    requires Find(r, 0) == Some(p) && (late ==> l != [])
    ensures var c := |l| + p - if late then 1 else 0;
            && c + 2 <= |l + r|
            && Splice(l + r, c, a) == Front(l, r, p, late, a) + r[p + 2..]
  {
    var x := l + r[..p];
    var c: nat := |l| + p - if late then 1 else 0;
    SpliceJoined(l + r, c, a);
    if late {
      assert (l + r)[..c] == x[..|x| - 1];
      assert (l + r)[c + 2..] == "s" + r[p + 2..];
    } else {
      assert (l + r)[..c] == x;
      assert (l + r)[c + 2..] == r[p + 2..];
    }
  }

  /** The cells lie where the placeholders of r stand behind l, or all one character before. */
  ghost predicate Aimed(cells: seq<nat>, l: string, r: string, late: bool) {
    && (late ==> l != [])
    && |cells| == |Positions(r)|
    && forall i :: 0 <= i < |cells| ==> cells[i] == |l| + Positions(r)[i] - if late then 1 else 0
  }

  /** All but the last have two characters, but for one with three while nothing is late. */
  ghost predicate InTime(args: seq<string>, n: nat, late: bool)
    requires n <= |args|
  {
    && (forall i :: 0 <= i < n ==> Neutral(args[i]))
    && (forall i :: 0 <= i < n - 1 ==> |args[i]| >= 2)
    && (n > 0 ==> Shift(args, n - 1) <= if late then 0 else 1)
  }

  lemma {:induction false} InTimeStep(args: seq<string>, n: nat, late: bool)
    requires 2 <= n <= |args| && InTime(args, n, late)
    ensures |args[0]| == 2 || (!late && |args[0]| == 3)
    ensures InTime(args[1..], n - 1, late || |args[0]| == 3)
  {
    assert args[..n - 1][1..] == args[1..][..n - 2];
    assert Shift(args, n - 1) == |args[0]| - 2 + Shift(args[1..], n - 2);
    ShiftGrows(args[1..], n - 2);
  }

  lemma {:induction false} AimedStep(cells: seq<nat>, l: string, r: string, late: bool, p: nat, a: string)
    requires Aimed(cells, l, r, late) && Find(r, 0) == Some(p)
    requires |cells| >= 2 ==> |a| == 2 || (!late && |a| == 3)
    ensures cells != [] && cells[0] == |l| + p - if late then 1 else 0
    ensures Aimed(cells[1..], Front(l, r, p, late, a), r[p + 2..], |cells| >= 2 && (late || |a| == 3))
  {
    PositionsStep(r, p);
    assert |Front(l, r, p, late, a)| == |l| + p + |a|;
    forall i | 0 <= i < |cells[1..]|
      ensures cells[1..][i] == |l| + p + |a| + Positions(r[p + 2..])[i] - if late || |a| == 3 then 1 else 0
    {
      assert cells[1..][i] == cells[i + 1];
    }
  }

  lemma {:induction false} PositionsStep(r: string, p: nat)
    requires Find(r, 0) == Some(p)
    ensures var all, rest := Positions(r), Positions(r[p + 2..]);
            |all| == |rest| + 1 && all[0] == p && forall i :: 0 <= i < |rest| ==> all[i + 1] == p + 2 + rest[i]
  {
    PositionsInRest(r, p + 2, 0);
    assert Positions(r) == [p] + PositionsFrom(r, p + 2);
  }

  /** Whether the edits after the next one are late. */
  predicate LateAfter(args: seq<string>, n: nat, late: bool)
    requires 0 < n <= |args|
  {
    n >= 2 && (late || |args[0]| == 3)
  }

  lemma {:induction false} FirstEdit(l: string, r: string, cells: seq<nat>, args: seq<string>, late: bool, p: nat)
    requires Clean(l) && Aimed(cells, l, r, late) && Find(r, 0) == Some(p)
    requires 0 < |cells| <= |args| && InTime(args, |cells|, late)
    ensures var next, later := Front(l, r, p, late, args[0]), LateAfter(args, |cells|, late);
            && Clean(next) && Aimed(cells[1..], next, r[p + 2..], later)
            && InTime(args[1..], |cells| - 1, later)
            && Edits(l + r, cells, args) == Edits(next + r[p + 2..], cells[1..], args[1..])
  {
    if |cells| >= 2 {
      InTimeStep(args, |cells|, late);
    }
    AimedStep(cells, l, r, late, p, args[0]);
    EditInFront(l, r, p, late, args[0]);
    FrontIsClean(l, r, p, late, args[0]);
  }

  /** Edits that are late by no more than one character remove every placeholder. */
  lemma {:induction false} NoneLeft(l: string, r: string, cells: seq<nat>, args: seq<string>, late: bool)
    requires Clean(l) && Aimed(cells, l, r, late)
    requires |cells| <= |args| && InTime(args, |cells|, late)
    ensures Edits(l + r, cells, args).Edited? && Count(Edits(l + r, cells, args).text) == 0
    decreases |cells|
  {
    if cells == [] {
      Cut(r);
      CountConcat(l, r);
    } else {
      var p := Find(r, 0).value;
      var later := LateAfter(args, |cells|, late);
      FirstEdit(l, r, cells, args, late, p);
      NoneLeft(Front(l, r, p, late, args[0]), r[p + 2..], cells[1..], args[1..], later);
    }
  }

  /** For neutral arguments, those before the last no shorter than the mark: a placeholder
      is left in the result if and only if the arguments before the last are two characters
      longer in all than their placeholders. */
  lemma {:induction false} PlaceholderLeftIff(s: string, args: seq<string>)
    requires InBounds(s) && EndsAtPlaceholder(s) && |args| >= Count(s)
    requires forall i :: 0 <= i < Count(s) ==> Neutral(args[i])
    requires forall i :: 0 <= i < Count(s) - 1 ==> |args[i]| >= 2
    ensures Count(s) > 0 && TwoPasses(s, args).Edited?
    ensures Count(TwoPasses(s, args).text) > 0 <==> Shift(args, Count(s) - 1) >= 2
  {
    EditsOfPositions(s, args);
    if Shift(args, Count(s) - 1) >= 2 {
      LastPlaceholderSurvives(s, args);
    } else {
      assert [] + s == s;
      NoneLeft([], s, Positions(s), args, false);
    }
  }

  lemma {:induction false} ExampleCells()
    ensures Collect("%s%s", []) == Stopped([0, 2])
  {
    var s := "%s%s";
    assert At(s, 0) && At(s, 2);
    CollectStep(s, []);
    CollectStep(s, [0]);
  }

  lemma {:induction false} TwoEdits(s: string, p: nat, q: nat, a: string, b: string)
    requires p <= |s| && q <= |Splice(s, p, a)|
    ensures Edits(s, [p, q], [a, b]) == Edited(Splice(Splice(s, p, a), q, b))
  {
    assert [p, q][1..] == [q] && [q][1..] == [];
    assert [a, b][1..] == [b] && [b][1..] == [];
    assert Edits(Splice(s, p, a), [q], [b]) == Edited(Splice(Splice(s, p, a), q, b));
  }

  /** The smallest call of this kind: two placeholders, two arguments, and one placeholder left. */
  lemma {:induction false} ExampleTwoPasses()
    ensures TwoPasses("%s%s", ["abcd", "e"]) == Edited("abe%s")
  {
    ExampleCells();
    TwoEdits("%s%s", 0, 2, "abcd", "e");
    assert Splice("%s%s", 0, "abcd") == "abcd%s";
    assert Splice("abcd%s", 2, "e") == "abe%s";
  }

  /** Arguments that repeat what stands around them can give the right text by coincidence,
      whatever their lengths. */
  lemma {:induction false} ExampleCoincidence()
    ensures TwoPasses("%s%s", ["abs", "s"]) == Edited(Render("%s%s", ["abs", "s"]))
  {
    ExampleCells();
    TwoEdits("%s%s", 0, 2, "abs", "s");
    assert Splice("%s%s", 0, "abs") == "abs%s";
    assert Splice("abs%s", 2, "s") == "abss";
    TwoMarks("abs", "s");
    assert "abs" + "s" == "abss";
  }

  lemma {:induction false} OneMark(s: string, a: string)
    requires s == MARK
    ensures |Split(s)| == 2 && Render(s, [a]) == a
  {
    assert At(s, 0) && s[2..] == "" && s[..0] == "";
    Cut(s);
    RenderStep(s, [a]);
    FlatOfOne("");
    assert Split("") == [""];
  }

  lemma {:induction false} TwoMarks(a: string, b: string)
    ensures |Split("%s%s")| == 3 && Render("%s%s", [a, b]) == a + b
  {
    var s: string := "%s%s";
    assert At(s, 0) && s[2..] == MARK && s[..0] == "";
    OneMark(s[2..], b);
    RenderStep(s, [a, b]);
    assert [a, b][1..] == [b];
  }

  // The prototype's own call, TestString/main.cpp:38-40.

  const OWN_TEMPLATE: string := FourValues("insert into users values(")
  const OWN_ARGUMENTS: seq<string> := ["'hello'", "'tester'", "'heoo'", "'1999.99.99'"]

  lemma {:induction false} CountOfPlain(s: string)
    requires '%' !in s
    ensures Count(s) == 0
  {
    CountIsZero(s);
  }

  function FourValues(head: string): string {
    head + MARK + ", " + MARK + ", " + MARK + ", " + MARK + ")"
  }

  /** Another mark and some plain text behind a text that does not end in a percent sign. */
  lemma {:induction false} OneMoreMark(a: string, plain: string)
    requires a != [] && a[|a| - 1] != '%' && plain != [] && '%' !in plain
    ensures Count(a + MARK + plain) == Count(a) + 1
    ensures (a + MARK + plain)[|a| + 1 + |plain|] != '%'
  {
    CountOfPlain(plain);
    CountConcat(a, MARK);
    CountConcat(a + MARK, plain);
    Cut(MARK);
    assert At(MARK, 0) && MARK[2..] == [];
    assert (a + MARK + plain)[|a| + 1 + |plain|] == plain[|plain| - 1];
  }

  lemma {:induction false} FourMarks(head: string)
    requires head != [] && '%' !in head
    ensures Count(FourValues(head)) == 4
  {
    CountOfPlain(head);
    var one := head + MARK + ", ";
    var two := one + MARK + ", ";
    var three := two + MARK + ", ";
    OneMoreMark(head, ", ");
    OneMoreMark(one, ", ");
    OneMoreMark(two, ", ");
    OneMoreMark(three, ")");
  }

  lemma {:induction false} LastOfFour(head: string)
    ensures |FourValues(head)| == |head| + 15 && At(FourValues(head), |head| + 12)
  {
  }

  lemma {:induction false} OwnTemplate()
    ensures |OWN_TEMPLATE| == 40 && Count(OWN_TEMPLATE) == 4 && EndsAtPlaceholder(OWN_TEMPLATE)
  {
    var head := "insert into users values(";
    FourMarks(head);
    LastOfFour(head);
    LastIsGreatest(OWN_TEMPLATE, 37);
  }

  lemma {:induction false} FourLongArguments(s: string, args: seq<string>)
    requires 1 <= |s| <= 257 && EndsAtPlaceholder(s) && Count(s) == 4 == |args|
    requires |args[0]| >= 4 && |args[1]| >= 2 && |args[2]| >= 2
    ensures TwoPasses(s, args).Edited? && Count(TwoPasses(s, args).text) > 0
  {
    ShiftStep(args, 0);
    ShiftStep(args, 1);
    ShiftStep(args, 2);
    assert Shift(args, 0) == 0;
    LastPlaceholderSurvives(s, args);
  }

  /** It returns, and its result still holds a placeholder. */
  lemma {:induction false} OwnCallKeepsPlaceholder()
    ensures TwoPasses(OWN_TEMPLATE, OWN_ARGUMENTS).Edited?
    ensures Count(TwoPasses(OWN_TEMPLATE, OWN_ARGUMENTS).text) > 0
  {
    OwnTemplate();
    FourLongArguments(OWN_TEMPLATE, OWN_ARGUMENTS);
  }
}
