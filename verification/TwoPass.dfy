/** The two-pass prototype (TestString/main.cpp:10-35): it collects the positions of
    all placeholders into a 128-entry array of unsigned char, then edits the text at
    those positions, which the earlier edits have made stale. */
module TwoPass {
  import opened Wrappers
  import opened Placeholders
  import opened Expander

  const MAX_ADD_STRING_LEN: nat := 128

  type Byte = b: int | 0 <= b < 256

  /** A size_t stored in an unsigned char; npos becomes 255. */
  function Cell(hit: Option<nat>): Byte {
    match hit
    case None => 255
    case Some(p) => if p < 256 then p else p % 256
  }

  /** pos + 2 >= length - 1 on size_t: for the empty text the right side wraps to its maximum. */
  predicate NearEnd(s: string, pos: Byte) {
    s != [] && pos + 2 >= |s| - 1
  }

  /** Where the next search starts. */
  function From(cells: seq<nat>): nat {
    if cells == [] then 0 else cells[|cells| - 1] + 2
  }

  /** Stopped: the loop ended with these entries.  Overran: it read the entry behind
      the last one of the array, which is undefined in the source. */
  datatype Collected = Stopped(cells: seq<nat>) | Overran

  function Collect(s: string, cells: seq<nat>): Collected
    requires |cells| < MAX_ADD_STRING_LEN
    decreases MAX_ADD_STRING_LEN - |cells|
  {
    var c := Cell(Find(s, From(cells)));
    var more := cells + [c];
    if NearEnd(s, c) then Stopped(more)
    else if |more| == MAX_ADD_STRING_LEN then Overran
    else Collect(s, more)
  }

  /** The do/while loop; an unsigned char never equals -1, so only the break ends it. */
  method CollectPositions(s: string) returns (pos: array<Byte>, cnt: nat, stopped: bool)
    ensures cnt <= pos.Length == MAX_ADD_STRING_LEN
    ensures Collect(s, []) == if stopped then Stopped(pos[..cnt]) else Overran
  {
    pos := new Byte[MAX_ADD_STRING_LEN](_ => 0);
    cnt := 0;
    while true
      invariant 0 <= cnt < MAX_ADD_STRING_LEN == pos.Length && fresh(pos)
      invariant Collect(s, []) == Collect(s, pos[..cnt])
      decreases MAX_ADD_STRING_LEN - cnt
    {
      ghost var cells: seq<nat> := pos[..cnt];
      CollectStep(s, cells);
      var from: nat := 0;
      if cnt != 0 {
        from := pos[cnt - 1] as int + 2;
      }
      assert from == From(cells);
      pos[cnt] := Cell(Find(s, from));
      assert pos[..cnt + 1] == cells + [pos[cnt]];
      cnt := cnt + 1;
      if NearEnd(s, pos[cnt - 1]) {
        return pos, cnt, true;
      }
      if cnt == MAX_ADD_STRING_LEN {
        return pos, cnt, false;
      }
    }
  }

  /** What a call does: it returns a text; or std::string::replace throws because a
      position lies behind the end; or it reads an argument that was not passed; or it
      overruns the position array. */
  datatype Result = Edited(text: string) | Throws | OutOfArguments | Overrun

  function Edits(s: string, cells: seq<nat>, args: seq<string>): Result
    decreases cells
  {
    if cells == [] then Edited(s)
    else if args == [] then OutOfArguments
    else if cells[0] > |s| then Throws
    else Edits(Splice(s, cells[0], args[0]), cells[1..], args[1..])
  }

  function TwoPasses(s: string, args: seq<string>): Result {
    match Collect(s, [])
    case Overran => Overrun
    case Stopped(cells) => Edits(s, cells, args)
  }

  method AddString(template: string, args: seq<string>) returns (r: Result)
    ensures r == TwoPasses(template, args)
  {
    var pos, cnt, stopped := CollectPositions(template);
    if !stopped {
      return Overrun;
    }
    var text := template;
    ghost var cells: seq<nat> := pos[..cnt];
    assert cells[0..] == cells && args[0..] == args;
    for i := 0 to cnt
      invariant i <= |args|
      invariant TwoPasses(template, args) == Edits(text, cells[i..], args[i..])
    {
      assert cells[i..][0] == pos[i] && cells[i..][1..] == cells[i + 1..];
      if i == |args| {
        return OutOfArguments;
      }
      assert args[i..][1..] == args[i + 1..];
      if pos[i] > |text| {
        return Throws;
      }
      text := Splice(text, pos[i], args[i]);
    }
    return Edited(text);
  }

  // ----- First pass: which positions are collected -----

  /** At most one character stands behind the last placeholder. */
  predicate EndsAtPlaceholder(s: string) {
    var ps := Positions(s);
    ps != [] && |s| - (ps[|ps| - 1] + 2) <= 1
  }

  /** A 255 for the failed search comes behind the last of them, unless it stands near the end. */
  function Ended(length: nat, ps: seq<nat>): (es: seq<nat>)
    ensures es != []
  {
    if ps != [] && length - (ps[|ps| - 1] + 2) <= 1 then ps else ps + [255]
  }

  /** The entries still to come: the placeholders from `from` on, and a 255 for the
      failed search when more than one character is left behind the last of them. */
  function Entries(s: string, from: nat): (es: seq<nat>)
    ensures es != []
  {
    Ended(|s|, PositionsFrom(s, from))
  }

  lemma {:induction false} EndedStep(length: nat, p: nat, ps: seq<nat>)
    requires ps != [] || p + 2 < length - 1
    ensures Ended(length, [p] + ps) == [p] + Ended(length, ps)
  {
    assert ([p] + ps)[|ps|] == if ps == [] then p else ps[|ps| - 1];
    assert ([p] + ps) + [255] == [p] + (ps + [255]);
  }

  lemma {:induction false} EntriesStep(s: string, from: nat)
    requires from <= |s|
    ensures Entries(s, from) == match Find(s, from)
                                case None => [255]
                                case Some(p) => if p + 2 >= |s| - 1 then [p] else [p] + Entries(s, p + 2)
  {
    if Find(s, from).Some? {
      var p := Find(s, from).value;
      var ps := PositionsFrom(s, p + 2);
      assert PositionsFrom(s, from) == [p] + ps;
      if p + 2 < |s| - 1 {
        EndedStep(|s|, p, ps);
      } else {
        assert ps == [];
      }
    }
  }

  /** The entries es behind cells, if the array is long enough for them. */
  function StoppedAfter(cells: seq<nat>, es: seq<nat>): Collected {
    if |cells| + |es| <= MAX_ADD_STRING_LEN then Stopped(cells + es) else Overran
  }

  /** One turn of the loop on such a template: the failed search, the last entry, or one more. */
  lemma {:induction false} CollectTurn(s: string, cells: seq<nat>)
    requires 1 <= |s| <= 258 && !At(s, 256)
    requires |cells| < MAX_ADD_STRING_LEN
    ensures Collect(s, cells) == match Find(s, From(cells))
                                 case None => Stopped(cells + [255])
                                 case Some(p) =>
                                   if p + 2 >= |s| - 1 then Stopped(cells + [p])
                                   else if |cells| + 1 == MAX_ADD_STRING_LEN then Overran
                                   else Collect(s, cells + [p])
  {
    CollectStep(s, cells);
    if Find(s, From(cells)).Some? {
      assert Find(s, From(cells)).value < 256;
    }
  }

  /** Up to 258 characters, with no placeholder at 256, positions are stored as they are
      and the loop stops at the last entry, if the array is long enough. */
  lemma {:induction false} CollectsEntries(s: string, cells: seq<nat>)
    requires 1 <= |s| <= 258 && !At(s, 256)
    requires cells != [] ==> From(cells) <= |s| - 2
    requires |cells| < MAX_ADD_STRING_LEN
    ensures Collect(s, cells) == StoppedAfter(cells, Entries(s, From(cells)))
    decreases MAX_ADD_STRING_LEN - |cells|
  {
    CollectTurn(s, cells);
    EntriesStep(s, From(cells));
    if Find(s, From(cells)).Some? && Find(s, From(cells)).value + 2 < |s| - 1 {
      var p := Find(s, From(cells)).value;
      EntryBehind(cells, p, Entries(s, p + 2));
      if |cells| + 1 < MAX_ADD_STRING_LEN {
        CollectsEntries(s, cells + [p]);
      }
    }
  }

  lemma {:induction false} EntryBehind(cells: seq<nat>, p: nat, es: seq<nat>)
    ensures From(cells + [p]) == p + 2
    ensures StoppedAfter(cells + [p], es) == StoppedAfter(cells, [p] + es)
    ensures |cells| + 1 == MAX_ADD_STRING_LEN && es != [] ==> StoppedAfter(cells, [p] + es) == Overran
  {
    assert (cells + [p]) + es == cells + ([p] + es);
  }

  lemma {:induction false} CollectStep(s: string, cells: seq<nat>)
    requires |cells| < MAX_ADD_STRING_LEN
    ensures var c := Cell(Find(s, From(cells)));
            && From(cells + [c]) == c as int + 2
            && Collect(s, cells) == if NearEnd(s, c) then Stopped(cells + [c])
                                    else if |cells| + 1 == MAX_ADD_STRING_LEN then Overran
                                    else Collect(s, cells + [c])
  {
  }

  /** No unsigned char comes near the end of such a text. */
  lemma {:induction false} TooLongOverruns(s: string, cells: seq<nat>)
    requires s == [] || |s| >= 259
    requires |cells| < MAX_ADD_STRING_LEN
    ensures Collect(s, cells) == Overran
    decreases MAX_ADD_STRING_LEN - |cells|
  {
    CollectStep(s, cells);
    if |cells| + 1 < MAX_ADD_STRING_LEN {
      TooLongOverruns(s, cells + [Cell(Find(s, From(cells)))]);
    }
  }

  /** A placeholder at 256 is stored as 0 and found again for ever. */
  lemma {:induction false} TruncatedOverruns(s: string, cells: seq<nat>)
    requires |s| == 258 && At(s, 256) && From(cells) <= 256
    requires |cells| < MAX_ADD_STRING_LEN
    ensures Collect(s, cells) == Overran
    decreases MAX_ADD_STRING_LEN - |cells|
  {
    CollectStep(s, cells);
    assert !At(s, 255);
    if |cells| + 1 < MAX_ADD_STRING_LEN {
      TruncatedOverruns(s, cells + [Cell(Find(s, From(cells)))]);
    }
  }

  lemma {:induction false} PositionsAreSpaced(s: string, i: nat)
    requires i < |Positions(s)|
    ensures 2 * i <= Positions(s)[i]
  {
    if i > 0 {
      PositionsAreSpaced(s, i - 1);
      PositionsAscend(s, i - 1, i);
    }
  }

  /** The templates whose collection stays inside the array: 1 to 257 characters, or 258
      with no placeholder at 256 and, if there are 128 of them, one at 255. */
  predicate InBounds(s: string) {
    && 1 <= |s| <= 258
    && (|s| == 258 ==> !At(s, 256) && (Count(s) == MAX_ADD_STRING_LEN ==> At(s, 255)))
  }

  /** The array holds all entries exactly for these templates. */
  lemma {:induction false} EntriesFitIff(s: string)
    requires 1 <= |s| <= 258 && !At(s, 256)
    ensures |Entries(s, 0)| <= MAX_ADD_STRING_LEN <==> InBounds(s)
  {
    PositionsAreCounted(s);
    PositionsAreAll(s, 0);
    var ps := Positions(s);
    if ps != [] {
      PositionsAreSpaced(s, |ps| - 1);
      assert ps[|ps| - 1] in ps;
    }
    if |s| == 258 && At(s, 255) {
      LastIsGreatest(s, 255);
    }
  }

  /** The position array is overrun exactly outside of InBounds, for every template. */
  lemma {:induction false} OverrunsIff(s: string)
    ensures Collect(s, []).Overran?
       <==> (|| s == [] || |s| >= 259
             || (|s| == 258 && (At(s, 256) || (Count(s) == MAX_ADD_STRING_LEN && !At(s, 255)))))
    ensures Collect(s, []).Stopped? <==> InBounds(s)
  {
    if s == [] || |s| >= 259 {
      TooLongOverruns(s, []);
    } else if At(s, 256) {
      TruncatedOverruns(s, []);
    } else {
      CollectsEntries(s, []);
      EntriesFitIff(s);
    }
  }

  /** Where it is not overrun, it holds exactly the placeholder positions if and only if at
      most one character follows the last placeholder; otherwise one false entry, 255, comes
      behind them. */
  lemma {:induction false} CollectIsExactIff(s: string)
    requires InBounds(s)
    ensures Collect(s, []).Stopped?
    ensures EndsAtPlaceholder(s) <==> Collect(s, []).cells == Positions(s)
    ensures !EndsAtPlaceholder(s) <==> Collect(s, []).cells == Positions(s) + [255]
  {
    OverrunsIff(s);
    CollectsEntries(s, []);
    assert [] + Entries(s, 0) == Entries(s, 0);
  }

  // ----- Second pass: stale and true positions -----

  /** The template with its first i placeholders replaced. */
  function Filled(s: string, args: seq<string>, i: nat): string
    requires i <= |Positions(s)| && i <= |args|
    decreases i
  {
    if i == 0 then s
    else
      var p := Find(s, 0).value;
      PositionsInRest(s, p + 2, 0);
      s[..p] + args[0] + Filled(s[p + 2..], args[1..], i - 1)
  }

  /** How far the first i replacements move what stands behind them. */
  function Shift(args: seq<string>, i: nat): int
    requires i <= |args|
  {
    TotalLength(args[..i]) - 2 * i
  }

  /** Where placeholder i stands once the i before it are replaced: behind everything the
      template and the arguments put in front of it. */
  function Standing(s: string, args: seq<string>, i: nat): nat
    requires i < |Positions(s)| && i < |args|
    decreases i
  {
    var p := Find(s, 0).value;
    if i == 0 then p
    else
      PositionsInRest(s, p + 2, 0);
      p + |args[0]| + Standing(s[p + 2..], args[1..], i - 1)
  }

  /** It is the stale position plus the shift. */
  lemma {:induction false} StandingIsShifted(s: string, args: seq<string>, i: nat)
    requires i < |Positions(s)| && i < |args|
    ensures Standing(s, args, i) == Positions(s)[i] + Shift(args, i)
    decreases i
  {
    if i > 0 {
      PositionBehind(s, args, i);
      StandingIsShifted(s[Find(s, 0).value + 2..], args[1..], i - 1);
    }
  }

  /** There placeholder i is found, and replacing there is what fills it. */
  lemma {:induction false} TruePosition(s: string, args: seq<string>, i: nat)
    requires i < |Positions(s)| && i < |args|
    ensures Standing(s, args, i) == Positions(s)[i] + Shift(args, i)
    ensures At(Filled(s, args, i), Standing(s, args, i))
    ensures Splice(Filled(s, args, i), Standing(s, args, i), args[i]) == Filled(s, args, i + 1)
    decreases i
  {
    StandingIsShifted(s, args, i);
    FilledAtStanding(s, args, i);
  }

  lemma {:induction false} FilledAtStanding(s: string, args: seq<string>, i: nat)
    requires i < |Positions(s)| && i < |args|
    ensures At(Filled(s, args, i), Standing(s, args, i))
    ensures Splice(Filled(s, args, i), Standing(s, args, i), args[i]) == Filled(s, args, i + 1)
    decreases i
  {
    if i == 0 {
      FirstPosition(s, args);
    } else {
      var first := Find(s, 0).value;
      var rest := s[first + 2..];
      StandingStep(s, args, i);
      FilledAtStanding(rest, args[1..], i - 1);
      FilledStep(s, args, i);
      FilledStep(s, args, i + 1);
      TrueBehind(s[..first] + args[0], Filled(rest, args[1..], i - 1), Filled(s, args, i), Filled(s, args, i + 1),
                 Standing(rest, args[1..], i - 1), args[i]);
    }
  }

  lemma {:induction false} StandingStep(s: string, args: seq<string>, i: nat)
    requires 1 <= i < |Positions(s)| && i < |args|
    ensures var p := Find(s, 0).value;
            && p + 2 <= |s|
            && i - 1 < |Positions(s[p + 2..])|
            && Standing(s, args, i) == |s[..p] + args[0]| + Standing(s[p + 2..], args[1..], i - 1)
  {
    PositionsInRest(s, Find(s, 0).value + 2, 0);
  }

  lemma {:induction false} TrueBehind(x: string, y: string, whole: string, next: string, q: int, a: string)
    requires At(y, q) && whole == x + y && next == x + Splice(y, q, a)
    ensures At(whole, |x| + q) && Splice(whole, |x| + q, a) == next
  {
    SpliceBehind(x, y, q, a);
  }

  lemma {:induction false} FilledStep(s: string, args: seq<string>, i: nat)
    requires 1 <= i <= |Positions(s)| && i <= |args|
    ensures var p := Find(s, 0).value;
            && p + 2 <= |s|
            && i - 1 <= |Positions(s[p + 2..])|
            && Filled(s, args, i) == (s[..p] + args[0]) + Filled(s[p + 2..], args[1..], i - 1)
  {
    PositionsInRest(s, Find(s, 0).value + 2, 0);
  }

  lemma {:induction false} FirstPosition(s: string, args: seq<string>)
    requires Positions(s) != [] && args != []
    ensures var p := Positions(s)[0];
            && At(s, p)
            && Shift(args, 0) == 0
            && Splice(s, p, args[0]) == Filled(s, args, 1)
  {
    var p := Find(s, 0).value;
    SpliceJoined(s, p, args[0]);
    assert Filled(s, args, 1) == s[..p] + args[0] + Filled(s[p + 2..], args[1..], 0);
  }

  lemma {:induction false} PositionBehind(s: string, args: seq<string>, i: nat)
    requires 1 <= i < |Positions(s)| && i < |args|
    ensures var first := Find(s, 0).value;
            && first + 2 <= |s|
            && i <= |Positions(s[first + 2..])|
            && Positions(s)[i] + Shift(args, i)
               == first + |args[0]| + Positions(s[first + 2..])[i - 1] + Shift(args[1..], i - 1)
  {
    PositionsInRest(s, Find(s, 0).value + 2, 0);
    assert args[..i][1..] == args[1..][..i - 1];
  }

  lemma {:induction false} SpliceBehind(x: string, y: string, q: int, a: string)
    requires At(y, q)
    ensures At(x + y, |x| + q)
    ensures Splice(x + y, |x| + q, a) == x + Splice(y, q, a)
  {
    assert (x + y)[..|x| + q] == x + y[..q];
    assert (x + y)[|x| + q + 2..] == y[q + 2..];
    SpliceJoined(x + y, |x| + q, a);
    SpliceJoined(y, q, a);
    assert (x + y[..q]) + a + y[q + 2..] == x + (y[..q] + a + y[q + 2..]);
  }

  lemma {:induction false} SpliceJoined(s: string, pos: nat, a: string)
    requires pos + 2 <= |s|
    ensures Splice(s, pos, a) == s[..pos] + a + s[pos + 2..]
  {
  }

  lemma {:induction false} FullyFilledIsRender(s: string, args: seq<string>)
    requires |args| >= Count(s)
    ensures |Positions(s)| == Count(s) && |Split(s)| == Count(s) + 1
    ensures Filled(s, args, Count(s)) == Render(s, args)
    decreases |s|
  {
    PositionsAreCounted(s);
    SplitIsExact(s);
    Cut(s);
    if Find(s, 0).Some? {
      FullyFilledIsRender(s[Find(s, 0).value + 2..], args[1..]);
      RenderStep(s, args);
    } else {
      FlatOfOne(s);
    }
  }

  /** The second pass edits every placeholder where it stands if and only if every
      argument but the last has exactly two characters. */
  lemma {:induction false} StaleIsTrueIff(s: string, args: seq<string>)
    requires |args| >= Count(s)
    ensures |Positions(s)| == Count(s)
    ensures (forall i :: 0 <= i < Count(s) ==> Positions(s)[i] == Standing(s, args, i))
       <==> (forall j :: 0 <= j < Count(s) - 1 ==> |args[j]| == 2)
  {
    PositionsAreCounted(s);
    forall i | 0 <= i < Count(s) ensures Standing(s, args, i) == Positions(s)[i] + Shift(args, i) {
      TruePosition(s, args, i);
    }
    NoShiftIff(args, Count(s));
  }

  lemma {:induction false} NoShiftIff(args: seq<string>, n: nat)
    requires n <= |args|
    ensures (forall i :: 0 <= i < n ==> Shift(args, i) == 0) <==> (forall j :: 0 <= j < n - 1 ==> |args[j]| == 2)
  {
    if forall i :: 0 <= i < n ==> Shift(args, i) == 0 {
      forall j | 0 <= j < n - 1 ensures |args[j]| == 2 {
        ShiftStep(args, j);
        assert Shift(args, j) == 0 && Shift(args, j + 1) == 0;
      }
    }
    if forall j :: 0 <= j < n - 1 ==> |args[j]| == 2 {
      forall i | 0 <= i < n ensures Shift(args, i) == 0 {
        ShiftOfPairs(args, i);
      }
    }
  }

  lemma {:induction false} ShiftStep(args: seq<string>, i: nat)
    requires i < |args|
    ensures Shift(args, i + 1) == Shift(args, i) + |args[i]| - 2
  {
    if i > 0 {
      ShiftStep(args[1..], i - 1);
      assert args[..i][1..] == args[1..][..i - 1];
    }
    assert args[..i + 1][1..] == args[1..][..i];
  }

  lemma {:induction false} ShiftOfPairs(args: seq<string>, i: nat)
    requires i <= |args| && forall j :: 0 <= j < i ==> |args[j]| == 2
    ensures Shift(args, i) == 0
  {
    if i > 0 {
      ShiftOfPairs(args, i - 1);
      ShiftStep(args, i - 1);
    }
  }

  /** As long as nothing has shifted, the edits fill the template. */
  lemma {:induction false} EditsReach(s: string, args: seq<string>, m: nat)
    requires m <= |Positions(s)| <= |args|
    requires forall j :: 0 <= j < m ==> Shift(args, j) == 0
    ensures Edits(s, Positions(s), args) == Edits(Filled(s, args, m), Positions(s)[m..], args[m..])
    decreases m
  {
    var ps := Positions(s);
    if m == 0 {
      assert ps[0..] == ps && args[0..] == args;
    } else {
      EditsReach(s, args, m - 1);
      TruePosition(s, args, m - 1);
      assert ps[m - 1..][0] == ps[m - 1] && ps[m - 1..][1..] == ps[m..] && args[m - 1..][1..] == args[m..];
    }
  }

  lemma {:induction false} EditsOfPositions(s: string, args: seq<string>)
    requires InBounds(s) && EndsAtPlaceholder(s)
    ensures |Positions(s)| == Count(s) > 0
    ensures TwoPasses(s, args) == Edits(s, Positions(s), args)
  {
    CollectIsExactIff(s);
    PositionsAreCounted(s);
  }

  /** On these templates, with two-character arguments up to the last, the prototype
      is the plain formatter; and the one-pass expander too when nothing is rescanned. */
  lemma {:induction false} PassesAgree(s: string, args: seq<string>)
    requires InBounds(s) && EndsAtPlaceholder(s) && |args| >= Count(s)
    requires forall j :: 0 <= j < Count(s) - 1 ==> |args[j]| == 2
    ensures |Split(s)| == Count(s) + 1
    ensures TwoPasses(s, args) == Edited(Render(s, args))
    ensures NoRescan(Split(s), args) ==>
              Expand(s, args).Expanded? && TwoPasses(s, args) == Edited(Expand(s, args).Text())
  {
    EditsOfPositions(s, args);
    FullyFilledIsRender(s, args);
    NoShiftIff(args, Count(s));
    EditsReach(s, args, Count(s));
    assert Positions(s)[Count(s)..] == [];
    if NoRescan(Split(s), args) {
      ExpandIsRender(s, args);
    }
  }
}
