/** The text that the two-pass prototype leaves, for every call that returns. */
module TwoPassText {
  import opened Wrappers
  import opened Placeholders
  import opened Expander
  import opened TwoPass
  import opened TwoPassFaults

  ghost predicate Ascending(cells: seq<nat>) {
    forall i, j :: 0 <= i < j < |cells| ==> cells[i] < cells[j]
  }

  /** shown[i] is what stands from cell i on once its argument is inserted: the argument, and
      behind it what the earlier ones have displaced to there, without two characters. */
  ghost predicate Shows(shown: seq<string>, s: string, cells: seq<nat>, args: seq<string>)
    requires Ascending(cells) && |cells| <= |args|
  {
    && |shown| == |cells|
    && (cells != [] ==> shown[0] == args[0] + Without(s, cells[0] + 2))
    && forall i :: 1 <= i < |cells| ==>
         shown[i] == args[i] + Without(shown[i - 1], cells[i] - cells[i - 1] + 2)
  }

  /** Before the first cell t holds the template; from each cell up to the next the beginning
      of what was shown there; and behind the last all of it. */
  ghost predicate Written(t: string, s: string, cells: seq<nat>, shown: seq<string>)
    requires Ascending(cells) && cells != [] && |shown| == |cells|
  {
    var last := |cells| - 1;
    && cells[0] <= |s| && (forall i :: 0 <= i < |cells| ==> cells[i] <= |t|)
    && t[..cells[0]] == s[..cells[0]]
    && (forall i :: 0 <= i < last ==> t[cells[i]..cells[i + 1]] <= shown[i])
    && t[cells[last]..] == shown[last]
  }

  ghost predicate Explained(t: string, s: string, cells: seq<nat>, args: seq<string>)
    requires Ascending(cells) && 0 < |cells| <= |args|
  {
    exists shown: seq<string> :: Shows(shown, s, cells, args) && Written(t, s, cells, shown)
  }

  lemma {:induction false} SplitAtCell(s: string, c: nat, a: string)
    requires c <= |s|
    ensures Splice(s, c, a) == s[..c] + (a + Without(s, c + 2))
  {
    SpliceParts(s, c, a);
    var u := Splice(s, c, a);
    assert u == u[..c] + (u[c..c + |a|] + u[c + |a|..]);
  }

  /** What the first edit leaves behind the second cell. */
  lemma {:induction false} BehindSecond(s: string, c: nat, d: nat, a: string)
    requires c <= |s| && c < d
    ensures Without(Splice(s, c, a), d + 2) == Without(a + Without(s, c + 2), d - c + 2)
  {
    SplitAtCell(s, c, a);
  }

  lemma {:induction false} TextOfEdits(s: string, cells: seq<nat>, args: seq<string>)
    requires Ascending(cells) && cells != [] && Edits(s, cells, args).Edited?
    ensures |cells| <= |args| && Explained(Edits(s, cells, args).text, s, cells, args)
    decreases cells
  {
    EditsByLength(s, cells, args);
    var t, first := Edits(s, cells, args).text, args[0] + Without(s, cells[0] + 2);
    SplitAtCell(s, cells[0], args[0]);
    if |cells| == 1 {
      assert cells[1..] == [] && t == s[..cells[0]] + first;
      assert Shows([first], s, cells, args) && Written(t, s, cells, [first]);
    } else {
      TextOfEdits(Splice(s, cells[0], args[0]), cells[1..], args[1..]);
      ExplainedStep(t, s, cells, args);
    }
  }

  lemma {:induction false} ExplainedStep(t: string, s: string, cells: seq<nat>, args: seq<string>)
    requires Ascending(cells) && 2 <= |cells| <= |args| && cells[0] <= |s| && Ascending(cells[1..])
    requires Explained(t, Splice(s, cells[0], args[0]), cells[1..], args[1..])
    ensures Explained(t, s, cells, args)
  {
    var u, first := Splice(s, cells[0], args[0]), args[0] + Without(s, cells[0] + 2);
    var later: seq<string> :| Shows(later, u, cells[1..], args[1..]) && Written(t, u, cells[1..], later);
    var shown := [first] + later;
    SplitAtCell(s, cells[0], args[0]);
    ShowsStep(s, cells, args, later);
    WrittenStep(t, s, cells, first, later);
    assert Shows(shown, s, cells, args) && Written(t, s, cells, shown);
  }

  lemma {:induction false} ShowsStep(s: string, cells: seq<nat>, args: seq<string>, later: seq<string>)
    requires Ascending(cells) && 2 <= |cells| <= |args| && cells[0] <= |s| && Ascending(cells[1..])
    requires Shows(later, Splice(s, cells[0], args[0]), cells[1..], args[1..])
    ensures Shows([args[0] + Without(s, cells[0] + 2)] + later, s, cells, args)
  {
    BehindSecond(s, cells[0], cells[1], args[0]);
    ShowsFrom(s, Splice(s, cells[0], args[0]), cells, args, later);
  }

  lemma {:induction false} ShowsFrom(s: string, u: string, cells: seq<nat>, args: seq<string>, later: seq<string>)
    requires Ascending(cells) && 2 <= |cells| <= |args| && Ascending(cells[1..])
    requires Without(u, cells[1] + 2) == Without(args[0] + Without(s, cells[0] + 2), cells[1] - cells[0] + 2)
    requires Shows(later, u, cells[1..], args[1..])
    ensures Shows([args[0] + Without(s, cells[0] + 2)] + later, s, cells, args)
  {
    var first := args[0] + Without(s, cells[0] + 2);
    assert later[0] == args[1] + Without(u, cells[1] + 2);
    forall i | 2 <= i < |cells|
      ensures later[i - 1] == args[i] + Without(later[i - 2], cells[i] - cells[i - 1] + 2)
    {
      ShowsLater(u, cells, args, later, i);
    }
    ShowsCons(s, cells, args, first, later);
  }

  lemma {:induction false} ShowsCons(s: string, cells: seq<nat>, args: seq<string>, first: string, later: seq<string>)
    requires Ascending(cells) && 2 <= |cells| <= |args| && |later| == |cells| - 1
    requires first == args[0] + Without(s, cells[0] + 2)
    requires later[0] == args[1] + Without(first, cells[1] - cells[0] + 2)
    requires forall i :: 2 <= i < |cells| ==>
               later[i - 1] == args[i] + Without(later[i - 2], cells[i] - cells[i - 1] + 2)
    ensures Shows([first] + later, s, cells, args)
  {
    var shown := [first] + later;
    forall i | 1 <= i < |cells|
      ensures shown[i] == args[i] + Without(shown[i - 1], cells[i] - cells[i - 1] + 2)
    {
      assert shown[i] == later[i - 1] && (i > 1 ==> shown[i - 1] == later[i - 2]);
    }
  }

  lemma {:induction false} ShowsLater(u: string, cells: seq<nat>, args: seq<string>, later: seq<string>, i: nat)
    requires Ascending(cells) && 2 <= i < |cells| <= |args| && Ascending(cells[1..])
    requires Shows(later, u, cells[1..], args[1..])
    ensures later[i - 1] == args[i] + Without(later[i - 2], cells[i] - cells[i - 1] + 2)
  {
    var rest, more := cells[1..], args[1..];
    assert more[i - 1] == args[i] && rest[i - 1] == cells[i] && rest[i - 2] == cells[i - 1];
    assert later[i - 1] == more[i - 1] + Without(later[i - 2], rest[i - 1] - rest[i - 2] + 2);
  }

  lemma {:induction false} WrittenStep(t: string, s: string, cells: seq<nat>, first: string, later: seq<string>)
    requires Ascending(cells) && |cells| == |later| + 1 >= 2 && cells[0] <= |s| && Ascending(cells[1..])
    requires Written(t, s[..cells[0]] + first, cells[1..], later)
    ensures Written(t, s, cells, [first] + later)
  {
    var c, d, rest := cells[0], cells[1], cells[1..];
    var u, shown := s[..c] + first, [first] + later;
    assert t[..d] == u[..d];
    assert t[..c] == t[..d][..c] == s[..c];
    assert t[c..d] == t[..d][c..] == u[..d][c..] == first[..d - c];
    forall i | 0 <= i < |cells| - 1 ensures t[cells[i]..cells[i + 1]] <= shown[i] {
      if i > 0 {
        assert t[rest[i - 1]..rest[i]] <= later[i - 1];
      }
    }
    assert forall i :: 1 <= i < |cells| ==> cells[i] == rest[i - 1] <= |t|;
  }

  lemma {:induction false} StoredAscend(s: string)
    requires InBounds(s)
    ensures Stored(s) != [] && Ascending(Stored(s))
  {
    var ps := Positions(s);
    PositionsAreAll(s, 0);
    if !EndsAtPlaceholder(s) {
      forall i | 0 <= i < |ps| ensures ps[i] < 255 {
        if i < |ps| - 1 {
          assert ps[i] + 2 <= ps[|ps| - 1];
        }
      }
    }
  }

  /** The text of every call that returns, for every template and all arguments. */
  lemma {:induction false} TextOfTwoPasses(s: string, args: seq<string>)
    requires TwoPasses(s, args).Edited?
    ensures Stored(s) != [] && Ascending(Stored(s)) && |Stored(s)| <= |args|
    ensures Explained(TwoPasses(s, args).text, s, Stored(s), args)
  {
    OutcomeIff(s, args);
    StoredAscend(s);
    EditsOfStored(s, args);
    TextOfEdits(s, Stored(s), args);
  }

  /** So each argument shows as far as the next position lets it, and the last one whole. */
  lemma {:induction false} ArgumentsShow(s: string, args: seq<string>)
    requires TwoPasses(s, args).Edited?
    ensures Stored(s) != [] && Ascending(Stored(s)) && |Stored(s)| <= |args|
    ensures var t, cells, last := TwoPasses(s, args).text, Stored(s), |Stored(s)| - 1;
            && (forall i :: 0 <= i < |cells| ==> cells[i] <= |t|)
            && (forall i :: 0 <= i < last ==>
                  t[cells[i]..cells[i + 1]] <= args[i] || args[i] <= t[cells[i]..cells[i + 1]])
            && args[last] <= t[cells[last]..]
  {
    TextOfTwoPasses(s, args);
    var t, cells := TwoPasses(s, args).text, Stored(s);
    var shown: seq<string> :| Shows(shown, s, cells, args) && Written(t, s, cells, shown);
    forall i | 0 <= i < |cells| - 1
      ensures t[cells[i]..cells[i + 1]] <= args[i] || args[i] <= t[cells[i]..cells[i + 1]]
    {
      BeginsWithArgument(shown, s, cells, args, i);
      PrefixesCompare(t[cells[i]..cells[i + 1]], args[i], shown[i]);
    }
    BeginsWithArgument(shown, s, cells, args, |cells| - 1);
  }

  lemma {:induction false} BeginsWithArgument(
    shown: seq<string>, s: string, cells: seq<nat>, args: seq<string>, i: nat)
    requires Ascending(cells) && |cells| <= |args| && Shows(shown, s, cells, args) && i < |cells|
    ensures args[i] <= shown[i]
  {
    if i > 0 {
      assert shown[i] == args[i] + Without(shown[i - 1], cells[i] - cells[i - 1] + 2);
    }
  }

  lemma {:induction false} PrefixesCompare(x: string, y: string, z: string)
    requires x <= z && y <= z
    ensures x <= y || y <= x
  {
  }

  // ----- The prototype's own call -----

  lemma {:induction false} MarkBehind(head: string, rest: string)
    requires '%' !in head
    ensures var all, later := Positions(head + MARK + rest), Positions(rest);
            && |all| == |later| + 1 && all[0] == |head|
            && forall i :: 0 <= i < |later| ==> all[i + 1] == |head| + 2 + later[i]
  {
    var s := head + MARK + rest;
    assert forall i :: 0 <= i < |head| ==> s[i] == head[i];
    assert At(s, |head|) && Find(s, 0) == Some(|head|);
    PositionsStep(s, |head|);
    assert s[|head| + 2..] == rest;
  }

  lemma {:induction false} FourPositions(head: string)
    requires '%' !in head
    ensures Positions(FourValues(head)) == [|head|, |head| + 4, |head| + 8, |head| + 12]
  {
    var one := ", " + MARK + ")";
    var two := ", " + MARK + one;
    var three := ", " + MARK + two;
    MarkBehind(", ", ")");
    MarkBehind(", ", one);
    MarkBehind(", ", two);
    MarkBehind(head, three);
    assert Positions(")") == [];
    assert FourValues(head) == head + MARK + three;
  }

  lemma {:induction false} SpliceBetween(x: string, y: string, z: string, a: string)
    requires |y| == 2
    ensures Splice(x + y + z, |x|, a) == x + a + z
  {
    SplitAtCell(x + y + z, |x|, a);
    assert Without(x + y + z, |x| + 2) == z && (x + y + z)[..|x|] == x;
    assert x + (a + z) == x + a + z;
  }

  lemma {:induction false} FirstTwo(head: string, z: string, more: seq<nat>, args: seq<string>)
    ensures Edits(head + "%s" + z, [|head|, |head| + 4] + more, ["'hello'", "'tester'"] + args)
         == Edits(head + "'hel" + "'tester'" + ("'" + z), more, args)
  {
    var n := |head|;
    SpliceBetween(head, "%s", z, "'hello'");
    assert head + "'hello'" + z == (head + "'hel") + "lo" + ("'" + z);
    SpliceBetween(head + "'hel", "lo", "'" + z, "'tester'");
    assert ([n, n + 4] + more)[1..] == [n + 4] + more && ([n + 4] + more)[1..] == more;
    assert (["'hello'", "'tester'"] + args)[1..] == ["'tester'"] + args && (["'tester'"] + args)[1..] == args;
  }

  lemma {:induction false} LastTwo(head: string, z: string)
    ensures Edits(head + "'hel" + "'tester'" + ("'" + z), [|head| + 8, |head| + 12], ["'heoo'", "'1999.99.99'"])
         == Edited(head + "'hel'tes'heo'1999.99.99'r''" + z)
  {
    var x, s := head + "'hel'tes", head + "'hel" + "'tester'" + ("'" + z);
    SpliceBetween(x, "te", "r''" + z, "'heoo'");
    SpliceBetween(x + "'heo", "o'", "r''" + z, "'1999.99.99'");
    assert s == x + "te" + ("r''" + z);
    assert x + "'heoo'" + ("r''" + z) == (x + "'heo") + "o'" + ("r''" + z);
    TwoEdits(s, |head| + 8, |head| + 12, "'heoo'", "'1999.99.99'");
    LastText(head, z);
  }

  lemma {:induction false} LastText(head: string, z: string)
    ensures (head + "'hel'tes" + "'heo") + "'1999.99.99'" + ("r''" + z) == head + "'hel'tes'heo'1999.99.99'r''" + z
  {
  }

  lemma {:induction false} EditsOfOwn(head: string, z: string)
    ensures Edits(head + "%s" + z, [|head|, |head| + 4, |head| + 8, |head| + 12], OWN_ARGUMENTS)
         == Edited(head + "'hel'tes'heo'1999.99.99'r''" + z)
  {
    var cells, args := [|head| + 8, |head| + 12], ["'heoo'", "'1999.99.99'"];
    assert [|head|, |head| + 4, |head| + 8, |head| + 12] == [|head|, |head| + 4] + cells;
    assert OWN_ARGUMENTS == ["'hello'", "'tester'"] + args;
    FirstTwo(head, z, cells, args);
    LastTwo(head, z);
  }

  /** Called with these arguments, every such template leaves three placeholders. */
  lemma {:induction false} TextOfValues(head: string)
    requires '%' !in head && InBounds(FourValues(head)) && EndsAtPlaceholder(FourValues(head))
    ensures TwoPasses(FourValues(head), OWN_ARGUMENTS)
         == Edited(head + "'hel'tes'heo'1999.99.99'r''" + ", %s, %s, %s)")
  {
    FourPositions(head);
    EditsOfPositions(FourValues(head), OWN_ARGUMENTS);
    FourValuesParts(head);
    EditsOfOwn(head, ", %s, %s, %s)");
  }

  lemma {:induction false} TextOfOwn(s: string, args: seq<string>, t: string)
    requires s == OWN_TEMPLATE && args == OWN_ARGUMENTS
    requires t == "insert into users values('hel'tes'heo'1999.99.99'r'', %s, %s, %s)"
    ensures TwoPasses(s, args) == Edited(t)
  {
    OwnTemplate();
    TextOfValues("insert into users values(");
    JoinedText();
  }

  /** The text it prints. */
  lemma {:induction false} OwnCallText()
    ensures TwoPasses(OWN_TEMPLATE, OWN_ARGUMENTS)
         == Edited("insert into users values('hel'tes'heo'1999.99.99'r'', %s, %s, %s)")
  {
    TextOfOwn(OWN_TEMPLATE, OWN_ARGUMENTS, "insert into users values('hel'tes'heo'1999.99.99'r'', %s, %s, %s)");
  }

  lemma {:induction false} JoinedText()
    ensures "insert into users values(" + "'hel'tes'heo'1999.99.99'r''" + ", %s, %s, %s)"
         == "insert into users values('hel'tes'heo'1999.99.99'r'', %s, %s, %s)"
  {
  }

  lemma {:induction false} FourValuesParts(head: string)
    ensures FourValues(head) == head + "%s" + ", %s, %s, %s)"
  {
  }
}
