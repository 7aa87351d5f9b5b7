/** The concatenating AddString (Common/common.h:178-193), and its agreement with
    the template overload. */
module BoundedConcat {
  import opened Wrappers
  import opened Placeholders
  import opened Expander

  const BUFSIZE: nat := 1024
  const NUL: char := '\0'

  /** A C string: what a char* argument denotes. */
  type CString = s: string | NUL !in s witness []

  /** The C string held in a buffer: everything before the first NUL. */
  function Held(buffer: seq<char>): (s: string)
    requires NUL in buffer
    ensures |s| < |buffer| && s == buffer[..|s|] && buffer[|s|] == NUL && NUL !in s
  {
    if buffer[0] == NUL then [] else [buffer[0]] + Held(buffer[1..])
  }

  /** strcat_s(buffer, sizeof buffer, src): refuses when no room for the NUL is left. */
  method StrcatS(buffer: array<char>, src: CString) returns (ok: bool)
    requires NUL in buffer[..]
    modifies buffer
    ensures ok <==> |Held(old(buffer[..]))| + |src| < buffer.Length
    ensures ok ==> NUL in buffer[..] && Held(buffer[..]) == Held(old(buffer[..])) + src
  {
    ghost var was := Held(buffer[..]);
    var n := |Held(buffer[..])|;
    ok := n + |src| < buffer.Length;
    if ok {
      forall i | 0 <= i < |src| {
        buffer[n + i] := src[i];
      }
      buffer[n + |src|] := NUL;
      assert buffer[..][n + |src|] == NUL;
      assert buffer[..n + |src|] == was + src;
      HeldIs(buffer[..], was + src);
    }
  }

  lemma {:induction false} HeldIs(buffer: seq<char>, s: string)
    requires |s| < |buffer| && s == buffer[..|s|] && buffer[|s|] == NUL && NUL !in s
    ensures NUL in buffer && Held(buffer) == s
  {
    if s != [] {
      assert buffer[0] == s[0] && buffer[1..][..|s[1..]|] == s[1..];
      HeldIs(buffer[1..], s[1..]);
    }
  }

  /** All arguments in order, if they leave room for the closing NUL. */
  function Concatenated(args: seq<CString>): Option<string> {
    if TotalLength(args) < BUFSIZE then Some(Flat(args)) else None
  }

  /** The loop of the source over a zero-filled buffer.  None: an append was refused. */
  method AddString(args: seq<CString>) returns (r: Option<string>)
    ensures r == Concatenated(args)
    ensures r.Some? <==> TotalLength(args) <= BUFSIZE - 1
    ensures r.Some? ==> |r.value| == TotalLength(args)
    ensures r.Some? ==> forall i :: 0 <= i < |args| ==> Stands(r.value, TotalLength(args[..i]), args[i])
  {
    ConcatenatedIsExact(args);
    var addStr := new char[BUFSIZE](_ => NUL);
    assert addStr[..][0] == NUL;
    HeldIs(addStr[..], []);
    for i := 0 to |args|
      invariant fresh(addStr) && addStr.Length == BUFSIZE && NUL in addStr[..]
      invariant Held(addStr[..]) == Flat(args[..i])
    {
      FlatSnoc(args[..i], args[i]);
      assert args[..i] + [args[i]] == args[..i + 1];
      LengthOfFlat(args[..i + 1]);
      LengthOfPrefix(args, i + 1);
      var ok := StrcatS(addStr, args[i]);
      if !ok {
        return None;
      }
    }
    assert args[..|args|] == args;
    LengthOfFlat(args);
    return Some(Held(addStr[..]));
  }

  /** a is what stands at q. */
  predicate Stands(t: string, q: nat, a: string) {
    q + |a| <= |t| && t[q..q + |a|] == a
  }

  lemma {:induction false} StandsBehind(x: string, t: string, q: nat, a: string)
    requires Stands(t, q, a)
    ensures Stands(x + t, |x| + q, a)
  {
    assert (x + t)[|x| + q..|x| + q + |a|] == t[q..q + |a|];
  }

  lemma {:induction false} PieceOfFlat(args: seq<string>, i: nat)
    requires i < |args|
    ensures Stands(Flat(args), TotalLength(args[..i]), args[i])
  {
    if i > 0 {
      PieceOfFlat(args[1..], i - 1);
      assert args[..i][1..] == args[1..][..i - 1];
      StandsBehind(args[0], Flat(args[1..]), TotalLength(args[1..][..i - 1]), args[i]);
    }
  }

  /** For every argument list, whatever the texts: there is a result if and only if it leaves
      room for the NUL; it has the arguments' length in all, and each stands in its place. */
  lemma {:induction false} ConcatenatedIsExact(args: seq<CString>)
    ensures Concatenated(args).Some? <==> TotalLength(args) <= BUFSIZE - 1
    ensures var r := Concatenated(args);
            r.Some? ==>
              && |r.value| == TotalLength(args)
              && forall i :: 0 <= i < |args| ==> Stands(r.value, TotalLength(args[..i]), args[i])
  {
    LengthOfFlat(args);
    forall i | 0 <= i < |args| ensures Stands(Flat(args), TotalLength(args[..i]), args[i]) {
      PieceOfFlat(args, i);
    }
  }

  lemma {:induction false} FlatSnoc(xs: seq<string>, x: string)
    ensures Flat(xs + [x]) == Flat(xs) + x
  {
    if xs == [] {
      FlatOfOne(x);
    } else {
      assert (xs + [x])[1..] == xs[1..] + [x];
      FlatSnoc(xs[1..], x);
    }
  }

  lemma {:induction false} LengthOfFlat(xs: seq<string>)
    ensures |Flat(xs)| == TotalLength(xs)
  {
    if xs != [] {
      LengthOfFlat(xs[1..]);
    }
  }

  lemma {:induction false} LengthOfPrefix(xs: seq<string>, n: nat)
    requires n <= |xs|
    ensures TotalLength(xs[..n]) <= TotalLength(xs)
  {
    if n > 0 {
      assert xs[..n][1..] == xs[1..][..n - 1];
      LengthOfPrefix(xs[1..], n - 1);
    }
  }

  /** The template "%s" repeated k times. */
  function Marks(k: nat): string {
    if k == 0 then [] else MARK + Marks(k - 1)
  }

  lemma {:induction false} MarksAreEmptySegments(k: nat)
    ensures Count(Marks(k)) == k
    ensures Split(Marks(k)) == seq(k + 1, _ => [])
  {
    if k > 0 {
      MarksAreEmptySegments(k - 1);
      MarkInFront(Marks(k - 1));
      OneMore(k);
      assert Marks(k) == MARK + Marks(k - 1);
    }
  }

  lemma {:induction false} OneMore(k: nat)
    requires k > 0
    ensures [[]] + seq<string>(k, _ => []) == seq<string>(k + 1, _ => [])
  {
  }

  lemma {:induction false} MarkInFront(rest: string)
    ensures Count(MARK + rest) == 1 + Count(rest)
    ensures Split(MARK + rest) == [[]] + Split(rest)
  {
    var s := MARK + rest;
    assert At(s, 0);
    assert s[2..] == rest && s[..0] == [];
    Cut(s);
  }

  lemma {:induction false} InterleaveEmptySegments(args: seq<string>)
    ensures Flat(Interleave(seq(|args| + 1, _ => []), args)) == Flat(args)
  {
    var segs := seq(|args| + 1, _ => []);
    if args == [] {
      FlatOfOne([]);
    } else {
      assert segs[1..] == seq(|args[1..]| + 1, _ => []);
      InterleaveEmptySegments(args[1..]);
      FlatOfTwo([], args[0], Interleave(segs[1..], args[1..]));
    }
  }

  /** AddString(k, a1..ak) and AddString("%s" k times, a1..ak) both return, and the
      same text, if and only if no argument holds a placeholder and all fit the buffer. */
  lemma {:induction false} OverloadsAgreeIff(args: seq<CString>)
    ensures (&& Concatenated(args).Some?
             && Expand(Marks(|args|), args).Expanded?
             && Expand(Marks(|args|), args).Text() == Concatenated(args).value)
       <==> (TotalLength(args) < BUFSIZE && forall a :: a in args ==> Count(a) == 0)
  {
    var s := Marks(|args|);
    MarksAreEmptySegments(|args|);
    ReadsAtLeastThePlaceholders(s, args);
    if Expand(s, args).Expanded? {
      ExactReadsMeanNoRescan(s, args);
      forall i | 0 <= i < |args| ensures Count(args[i]) == 0 {
        assert i < |Split(s)| - 1;
      }
    }
    if forall a :: a in args ==> Count(a) == 0 {
      assert NoRescan(Split(s), args);
      ExpandIsRender(s, args);
      InterleaveEmptySegments(args);
    }
  }
}
