/** Searching and counting the two-character placeholder "%s" (Common/common.h:195). */
module Placeholders {
  import opened Wrappers

  const MARK: string := "%s"

  /** A placeholder starts at index i. */
  predicate At(s: string, i: int) {
    0 <= i < |s| - 1 && s[i] == '%' && s[i + 1] == 's'
  }

  /** std::string::find("%s", from); None stands for npos. */
  function Find(s: string, from: nat): (r: Option<nat>)
    ensures r.Some? ==> from <= r.value && At(s, r.value) && forall i :: from <= i < r.value ==> !At(s, i)
    ensures r.None? ==> forall i :: from <= i ==> !At(s, i)
    decreases |s| - from
  {
    if from + 1 >= |s| then None
    else if At(s, from) then Some(from)
    else Find(s, from + 1)
  }

  /** Number of placeholders; two of them never overlap. */
  function Count(s: string): nat {
    if |s| < 2 then 0 else (if At(s, 0) then 1 else 0) + Count(s[1..])
  }

  /** 1 when gluing b after a creates a placeholder across the joint. */
  function Seam(a: string, b: string): nat {
    if a != [] && b != [] && a[|a| - 1] == '%' && b[0] == 's' then 1 else 0
  }

  lemma {:induction false} CountConcat(a: string, b: string)
    ensures Count(a + b) == Count(a) + Count(b) + Seam(a, b)
  {
    if a == [] {
      assert a + b == b;
    } else if |a| == 1 {
      assert (a + b)[1..] == b;
    } else {
      assert (a + b)[1..] == a[1..] + b;
      CountConcat(a[1..], b);
    }
  }

  lemma {:induction false} CountIsZero(s: string)
    ensures Count(s) == 0 <==> forall i :: !At(s, i)
  {
    if |s| >= 2 {
      CountIsZero(s[1..]);
      assert forall i :: At(s[1..], i) <==> i >= 0 && At(s, i + 1);
      if Count(s) == 0 {
        forall i ensures !At(s, i) {
          assert !At(s[1..], i - 1);
        }
      }
    }
  }

  /** Cutting a text at its first placeholder. */
  lemma {:induction false} Cut(s: string)
    ensures Find(s, 0).None? <==> Count(s) == 0
    ensures Find(s, 0).Some? ==>
              var p := Find(s, 0).value;
              && s == s[..p] + MARK + s[p + 2..]
              && Count(s[..p]) == 0
              && Count(s) == 1 + Count(s[p + 2..])
  {
    CountIsZero(s);
    if Find(s, 0).Some? {
      var p := Find(s, 0).value;
      assert s == s[..p] + (MARK + s[p + 2..]);
      CountConcat(s[..p], MARK + s[p + 2..]);
      CountConcat(MARK, s[p + 2..]);
      CountIsZero(s[..p]);
      assert forall i :: At(s[..p], i) ==> At(s, i);
      assert Count(MARK) == 1 by {
        assert Count(MARK[1..]) == 0;
      }
    }
  }

  /** Searching in the rest of a text is searching the text from further on. */
  lemma {:induction false} FindInRest(s: string, base: nat, from: nat)
    requires base <= |s|
    ensures Find(s[base..], from) == match Find(s, base + from) case None => None case Some(p) => Some(p - base)
  {
    assert forall i :: At(s[base..], i) <==> i >= 0 && At(s, base + i);
    match Find(s, base + from)
    case None =>
    case Some(p) => assert At(s[base..], p - base);
  }

  /** A mark-free text put in front, with no seam, only shifts the first hit. */
  lemma {:induction false} FindAfterPrefix(a: string, b: string)
    requires Count(a) == 0 && Seam(a, b) == 0
    ensures Find(a + b, 0) == match Find(b, 0) case None => None case Some(p) => Some(|a| + p)
  {
    CountIsZero(a);
    assert forall i :: i < |a| - 1 ==> (At(a + b, i) <==> At(a, i));
    assert forall i :: i >= |a| ==> (At(a + b, i) <==> At(b, i - |a|));
    match Find(b, 0)
    case None =>
    case Some(p) => assert At(a + b, |a| + p);
  }

  /** All placeholder positions from `from` on, in order. */
  function PositionsFrom(s: string, from: nat): (ps: seq<nat>)
    ensures forall i :: 0 <= i < |ps| ==> from <= ps[i] <= |s| - 2
    decreases |s| - from
  {
    match Find(s, from)
    case None => []
    case Some(p) => [p] + PositionsFrom(s, p + 2)
  }

  function Positions(s: string): seq<nat> {
    PositionsFrom(s, 0)
  }

  /** They are exactly the placeholders, two apart at least. */
  lemma {:induction false} PositionsAreAll(s: string, from: nat)
    ensures forall i :: i in PositionsFrom(s, from) <==> from <= i && At(s, i)
    ensures forall i, j :: 0 <= i < j < |PositionsFrom(s, from)| ==>
              PositionsFrom(s, from)[i] + 2 <= PositionsFrom(s, from)[j]
    decreases |s| - from
  {
    if Find(s, from).Some? {
      var p := Find(s, from).value;
      PositionsAreAll(s, p + 2);
      assert !At(s, p + 1);
      assert PositionsFrom(s, from) == [p] + PositionsFrom(s, p + 2);
      forall i ensures i in PositionsFrom(s, from) <==> from <= i && At(s, i) {
        if from <= i && At(s, i) {
          assert i == p || i >= p + 2;
        }
      }
    }
  }

  lemma {:induction false} PositionsInRest(s: string, base: nat, from: nat)
    requires base <= |s|
    ensures var all, rest := PositionsFrom(s, base + from), PositionsFrom(s[base..], from);
            |all| == |rest| && forall i :: 0 <= i < |all| ==> all[i] == base + rest[i]
    decreases |s| - from
  {
    FindInRest(s, base, from);
    if Find(s, base + from).Some? {
      PositionsInRest(s, base, Find(s, base + from).value - base + 2);
    }
  }

  lemma {:induction false} PositionsAreCounted(s: string)
    ensures |Positions(s)| == Count(s)
    decreases |s|
  {
    Cut(s);
    if Find(s, 0).Some? {
      var p := Find(s, 0).value;
      PositionsInRest(s, p + 2, 0);
      PositionsAreCounted(s[p + 2..]);
    }
  }

  lemma {:induction false} PositionsAscend(s: string, i: nat, j: nat)
    requires i < j < |Positions(s)|
    ensures Positions(s)[i] + 2 <= Positions(s)[j]
  {
    PositionsAreAll(s, 0);
  }

  lemma {:induction false} LastIsGreatest(s: string, q: nat)
    requires At(s, q)
    ensures |Positions(s)| > 0 && q <= Positions(s)[|Positions(s)| - 1]
  {
    PositionsAreAll(s, 0);
    assert q in Positions(s);
    var j :| 0 <= j < |Positions(s)| && Positions(s)[j] == q;
    assert j < |Positions(s)| - 1 ==> Positions(s)[j] + 2 <= Positions(s)[|Positions(s)| - 1];
  }
}
