/** The one-pass template AddString (Common/common.h:197-216).
    It resumes the search at the start of the text it has just inserted, so an
    argument is rescanned together with the rest of the template. */
module Expander {
  import opened Wrappers
  import opened Placeholders

  /** Expanded: the text before the last search position, the text from there on,
      and the number of arguments read.  Starved: an argument was read that the
      caller did not pass, which is undefined in the source. */
  datatype Outcome =
    | Expanded(fixed: string, tail: string, used: nat)
    | Starved
  {
    function Text(): string
      requires Expanded?
    {
      fixed + tail
    }

    /** The same outcome behind `before`, after `more` earlier arguments. */
    function Behind(before: string, more: nat): Outcome {
      match this
      case Expanded(f, t, u) => Expanded(before + f, t, more + u)
      case Starved => Starved
    }
  }

  /** Rescanning expansion: the argument becomes part of the text still to be expanded. */
  function Expand(s: string, args: seq<string>): Outcome
    decreases |args|
  {
    match Find(s, 0)
    case None => Expanded([], s, 0)
    case Some(p) =>
      if args == [] then Starved
      else Expand(args[0] + s[p + 2..], args[1..]).Behind(s[..p], 1)
  }

  lemma {:induction false} BehindTwice(r: Outcome, x: string, m: nat, y: string, n: nat)
    ensures r.Behind(y, n).Behind(x, m) == r.Behind(x + y, m + n)
  {
    if r.Expanded? {
      assert x + (y + r.fixed) == (x + y) + r.fixed;
    }
  }

  /** replace(pos, 2, "") followed by insert(pos, a); replace stops at the end of the text. */
  function Splice(s: string, pos: nat, a: string): string
    requires pos <= |s|
  {
    var cut := s[..pos] + s[if pos + 2 <= |s| then pos + 2 else |s|..];
    cut[..pos] + a + cut[pos..]
  }

  /** t without its first n characters; nothing is left of a shorter text. */
  function Without(t: string, n: nat): (r: string)
    ensures |r| == if n <= |t| then |t| - n else 0
    ensures r == t[|t| - |r|..]
  {
    if n <= |t| then t[n..] else []
  }

  /** The front is kept, then comes the text inserted, then what is left without two characters. */
  lemma {:induction false} SpliceParts(s: string, pos: nat, a: string)
    requires pos <= |s|
    ensures |Splice(s, pos, a)| == pos + |a| + |Without(s, pos + 2)|
    ensures Splice(s, pos, a)[..pos] == s[..pos]
    ensures Splice(s, pos, a)[pos..pos + |a|] == a
    ensures Splice(s, pos, a)[pos + |a|..] == Without(s, pos + 2)
  {
  }

  /** One replacement: what stood before the hit becomes final. */
  lemma {:induction false} ExpandStep(done: string, rest: string, left: seq<string>, used: nat, p: nat)
    requires Find(rest, 0) == Some(p) && left != []
    ensures Expand(rest, left).Behind(done, used)
         == Expand(left[0] + rest[p + 2..], left[1..]).Behind(done + rest[..p], used + 1)
  {
    BehindTwice(Expand(left[0] + rest[p + 2..], left[1..]), done, used, rest[..p], 1);
  }

  /** The same replacement in the edited text: positions instead of rests. */
  lemma {:induction false} SpliceIsStep(text: string, pos: nat, p: nat, a: string)
    requires pos <= p && p + 2 <= |text|
    ensures Splice(text, p, a)[..p] == text[..pos] + text[pos..][..p - pos]
    ensures Splice(text, p, a)[p..] == a + text[pos..][p - pos + 2..]
  {
    SpliceParts(text, p, a);
    assert Splice(text, p, a)[p..] == Splice(text, p, a)[p..p + |a|] + Splice(text, p, a)[p + |a|..];
    assert text[..pos] + text[pos..][..p - pos] == text[..p];
    assert text[pos..][p - pos + 2..] == text[p + 2..];
  }

  /** The loop of the source: find, replace by "", insert, search again from pos.
      Text before pos is final; text from pos on is still to be expanded. */
  method AddString(template: string, args: seq<string>) returns (r: Outcome)
    ensures r == Expand(template, args)
  {
    var text, pos, used := template, 0, 0;
    assert text[pos..] == template && args[used..] == args;
    while true
      invariant 0 <= pos <= |text| && 0 <= used <= |args|
      invariant Expand(template, args) == Expand(text[pos..], args[used..]).Behind(text[..pos], used)
      decreases |args| - used
    {
      var hit := Find(text, pos);
      FindInRest(text, pos, 0);
      if hit.None? {
        return Expanded(text[..pos], text[pos..], used);
      }
      if used == |args| {
        return Starved;
      }
      TurnOfLoop(text, pos, hit.value, args, used);
      pos := hit.value;
      text := Splice(text, pos, args[used]);
      used := used + 1;
    }
  }

  /** One turn of the loop keeps what the whole text expands to. */
  lemma {:induction false} TurnOfLoop(text: string, pos: nat, p: nat, args: seq<string>, used: nat)
    requires pos <= p && p + 2 <= |text| && Find(text, pos) == Some(p) && used < |args|
    ensures Expand(text[pos..], args[used..]).Behind(text[..pos], used)
         == Expand(Splice(text, p, args[used])[p..], args[used + 1..])
            .Behind(Splice(text, p, args[used])[..p], used + 1)
  {
    FindInRest(text, pos, 0);
    assert args[used..] != [] && args[used..][0] == args[used];
    ExpandStep(text[..pos], text[pos..], args[used..], used, p - pos);
    SpliceIsStep(text, pos, p, args[used]);
    assert args[used..][1..] == args[used + 1..];
  }

  // ----- The plain formatter: the independent reference -----

  /** The literal segments of a template, split at its placeholders. */
  function Split(s: string): (segs: seq<string>)
    ensures |segs| >= 1
    decreases |s|
  {
    match Find(s, 0)
    case None => [s]
    case Some(p) => [s[..p]] + Split(s[p + 2..])
  }

  /** Segments interleaved with arguments: seg0, arg0, seg1, arg1, ... */
  function Interleave(segs: seq<string>, args: seq<string>): (pieces: seq<string>)
    requires |segs| >= 1 && |args| >= |segs| - 1
  {
    if |segs| == 1 then segs else [segs[0], args[0]] + Interleave(segs[1..], args[1..])
  }

  function Flat(pieces: seq<string>): string {
    if pieces == [] then [] else pieces[0] + Flat(pieces[1..])
  }

  function Render(s: string, args: seq<string>): string
    requires |args| >= |Split(s)| - 1
  {
    Flat(Interleave(Split(s), args))
  }

  /** No argument that replaces a placeholder holds a placeholder, or forms one
      with the literal segment behind it. */
  ghost predicate NoRescan(segs: seq<string>, args: seq<string>) {
    forall i :: 0 <= i < |segs| - 1 && i < |args| ==> Count(args[i]) == 0 && Seam(args[i], segs[i + 1]) == 0
  }

  function TotalLength(args: seq<string>): nat {
    if args == [] then 0 else |args[0]| + TotalLength(args[1..])
  }

  /** Splitting loses nothing: the segments are mark-free, there is one more of
      them than placeholders, and putting marks back gives the template. */
  lemma {:induction false} SplitIsExact(s: string)
    ensures |Split(s)| == Count(s) + 1
    ensures forall i :: 0 <= i < |Split(s)| ==> Count(Split(s)[i]) == 0
    ensures Render(s, seq(Count(s), _ => MARK)) == s
    decreases |s|
  {
    Cut(s);
    match Find(s, 0)
    case None =>
      assert Flat([s]) == s + Flat([]);
    case Some(p) =>
      var rest := s[p + 2..];
      SplitIsExact(rest);
      var marks := seq(Count(s), _ => MARK);
      assert marks[1..] == seq(Count(rest), _ => MARK);
      RenderStep(s, marks);
  }

  lemma {:induction false} RenderStep(s: string, args: seq<string>)
    requires Find(s, 0).Some? && |args| >= |Split(s)| - 1
    ensures var p := Find(s, 0).value;
            Render(s, args) == s[..p] + args[0] + Render(s[p + 2..], args[1..])
  {
    var p := Find(s, 0).value;
    var pieces := Interleave(Split(s), args);
    var later := Interleave(Split(s[p + 2..]), args[1..]);
    assert Split(s)[1..] == Split(s[p + 2..]);
    assert pieces == [s[..p], args[0]] + later;
    FlatOfTwo(s[..p], args[0], later);
  }

  lemma {:induction false} FlatOfTwo(x: string, y: string, later: seq<string>)
    ensures Flat([x, y] + later) == x + y + Flat(later)
  {
    var pieces := [x, y] + later;
    assert pieces[1..] == [y] + later;
    assert pieces[1..][1..] == later;
  }

  /** A mark-free text put in front, with no seam, only grows the first segment. */
  lemma {:induction false} SplitAfterPrefix(a: string, b: string)
    requires Count(a) == 0 && Seam(a, b) == 0
    ensures Split(a + b) == [a + Split(b)[0]] + Split(b)[1..]
  {
    FindAfterPrefix(a, b);
    match Find(b, 0)
    case None =>
    case Some(p) =>
      DropAfterPrefix(a, b, p);
      assert Split(a + b) == [a + b[..p]] + Split(b[p + 2..]);
      assert Split(b)[1..] == Split(b[p + 2..]);
  }

  lemma {:induction false} DropAfterPrefix(a: string, b: string, p: nat)
    requires p + 2 <= |b|
    ensures (a + b)[..|a| + p] == a + b[..p]
    ensures (a + b)[|a| + p + 2..] == b[p + 2..]
  {
  }

  /** The seam with a text is the seam with its first segment. */
  lemma {:induction false} SeamWithFirstSegment(a: string, b: string)
    ensures Seam(a, b) == Seam(a, Split(b)[0])
  {
  }

  lemma {:induction false} FlatOfGrownHead(a: string, segs: seq<string>, args: seq<string>)
    requires |segs| >= 1 && |args| >= |segs| - 1
    ensures Flat(Interleave([a + segs[0]] + segs[1..], args)) == a + Flat(Interleave(segs, args))
  {
    var grown := [a + segs[0]] + segs[1..];
    assert grown[1..] == segs[1..];
    if |segs| > 1 {
      var later := Interleave(segs[1..], args[1..]);
      FlatOfTwo(a + segs[0], args[0], later);
      FlatOfTwo(segs[0], args[0], later);
      assert (a + segs[0]) + args[0] + Flat(later) == a + (segs[0] + args[0] + Flat(later));
    } else {
      assert Interleave(grown, args) == [a + segs[0]] && Interleave(segs, args) == [segs[0]];
      FlatOfOne(a + segs[0]);
      FlatOfOne(segs[0]);
    }
  }

  lemma {:induction false} FlatOfOne(x: string)
    ensures Flat([x]) == x
  {
    assert [x][1..] == [];
  }

  // ----- Consumption: when the expander is a plain formatter -----

  /** Expansion never reads fewer arguments than the template has placeholders. */
  lemma {:induction false} ReadsAtLeastThePlaceholders(s: string, args: seq<string>)
    ensures Expand(s, args).Expanded? ==> Count(s) <= Expand(s, args).used <= |args|
    decreases |args|
  {
    Cut(s);
    if Find(s, 0).Some? && args != [] {
      var rest := s[Find(s, 0).value + 2..];
      CountConcat(args[0], rest);
      ReadsAtLeastThePlaceholders(args[0] + rest, args[1..]);
    }
  }

  /** The text grows by the arguments read and shrinks by two per placeholder
      replaced, rescans included. */
  lemma {:induction false} LengthLaw(s: string, args: seq<string>)
    ensures var r := Expand(s, args);
            r.Expanded? ==> r.used <= |args| && |r.Text()| == |s| - 2 * r.used + TotalLength(args[..r.used])
    decreases |args|
  {
    if Find(s, 0).Some? && args != [] {
      var next := args[0] + s[Find(s, 0).value + 2..];
      LengthLaw(next, args[1..]);
      var r := Expand(s, args);
      if r.Expanded? {
        assert args[..r.used][1..] == args[1..][..r.used - 1];
      }
    }
  }

  /** Without a rescan at the first placeholder, the next text has the same later
      segments, and one placeholder less. */
  lemma {:induction false} NextSegments(s: string, args: seq<string>)
    requires Find(s, 0).Some? && args != [] && NoRescan(Split(s), args)
    ensures var rest := s[Find(s, 0).value + 2..];
            && |Split(s)| == |Split(args[0] + rest)| + 1
            && Split(args[0] + rest) == [args[0] + Split(rest)[0]] + Split(rest)[1..]
            && NoRescan(Split(args[0] + rest), args[1..])
            && Count(args[0] + rest) + 1 == Count(s)
  {
    Cut(s);
    var a, rest := args[0], s[Find(s, 0).value + 2..];
    assert Split(s)[1..] == Split(rest);
    assert Count(args[0]) == 0 && Seam(args[0], Split(s)[1]) == 0;
    SeamWithFirstSegment(a, rest);
    SplitAfterPrefix(a, rest);
    CountConcat(a, rest);
    forall i | 0 <= i < |Split(a + rest)| - 1 && i < |args[1..]|
      ensures Count(args[1..][i]) == 0 && Seam(args[1..][i], Split(a + rest)[i + 1]) == 0
    {
      assert args[1..][i] == args[i + 1] && Split(a + rest)[i + 1] == Split(s)[i + 2];
    }
  }

  /** Rendering goes the same way. */
  lemma {:induction false} NextRender(s: string, args: seq<string>)
    requires Find(s, 0).Some? && NoRescan(Split(s), args) && |args| >= |Split(s)| - 1
    ensures var p := Find(s, 0).value;
            && args != []
            && |args[1..]| >= |Split(args[0] + s[p + 2..])| - 1
            && Render(s, args) == s[..p] + Render(args[0] + s[p + 2..], args[1..])
  {
    var p := Find(s, 0).value;
    var rest := s[p + 2..];
    NextSegments(s, args);
    RenderStep(s, args);
    FlatOfGrownHead(args[0], Split(rest), args[1..]);
    Assoc(s[..p], args[0], Render(rest, args[1..]));
  }

  lemma {:induction false} Assoc(x: string, y: string, z: string)
    ensures (x + y) + z == x + (y + z)
  {
  }

  /** Under the no-rescan condition the expander is the plain formatter, and reads
      one argument per placeholder. */
  lemma {:induction false} ExpandIsRender(s: string, args: seq<string>)
    requires |args| >= Count(s)
    requires NoRescan(Split(s), args)
    ensures |Split(s)| == Count(s) + 1
    ensures var r := Expand(s, args);
            r.Expanded? && r.used == Count(s) && r.Text() == Render(s, args)
    decreases |args|
  {
    SplitIsExact(s);
    Cut(s);
    match Find(s, 0)
    case None =>
      FlatOfOne(s);
    case Some(p) =>
      NextSegments(s, args);
      NextRender(s, args);
      var next := args[0] + s[p + 2..];
      ExpandIsRender(next, args[1..]);
      var r := Expand(next, args[1..]);
      assert s[..p] + (r.fixed + r.tail) == (s[..p] + r.fixed) + r.tail;
  }

  /** And only then: any rescan makes it read more arguments than that. */
  lemma {:induction false} ExactReadsMeanNoRescan(s: string, args: seq<string>)
    requires Expand(s, args).Expanded? && Expand(s, args).used == Count(s)
    ensures NoRescan(Split(s), args)
    decreases |args|
  {
    SplitIsExact(s);
    Cut(s);
    if Find(s, 0).Some? {
      var p := Find(s, 0).value;
      var a, rest := args[0], s[p + 2..];
      var segs := Split(s);
      CountConcat(a, rest);
      ReadsAtLeastThePlaceholders(a + rest, args[1..]);
      SeamWithFirstSegment(a, rest);
      SplitAfterPrefix(a, rest);
      ExactReadsMeanNoRescan(a + rest, args[1..]);
      forall i | 0 <= i < |segs| - 1 && i < |args|
        ensures Count(args[i]) == 0 && Seam(args[i], segs[i + 1]) == 0
      {
        if i > 0 {
          assert args[i] == args[1..][i - 1] && segs[i + 1] == Split(a + rest)[i];
        }
      }
    }
  }

  /** With enough arguments, one is read per placeholder if and only if nothing is rescanned. */
  lemma {:induction false} ReadsOnePerPlaceholderIff(s: string, args: seq<string>)
    requires |args| >= Count(s)
    ensures (Expand(s, args).Expanded? && Expand(s, args).used == Count(s)) <==> NoRescan(Split(s), args)
  {
    if NoRescan(Split(s), args) {
      ExpandIsRender(s, args);
    } else if Expand(s, args).Expanded? && Expand(s, args).used == Count(s) {
      ExactReadsMeanNoRescan(s, args);
    }
  }

  /** When every argument holds a placeholder, no supply of arguments is enough. */
  lemma {:induction false} MarkedArgumentsNeverFinish(s: string, args: seq<string>)
    requires Count(s) > 0 && forall a :: a in args ==> Count(a) > 0
    ensures Expand(s, args) == Starved
    decreases |args|
  {
    Cut(s);
    if args != [] {
      var rest := s[Find(s, 0).value + 2..];
      CountConcat(args[0], rest);
      MarkedArgumentsNeverFinish(args[0] + rest, args[1..]);
    }
  }

  /** With just one argument per placeholder, the call finishes if and only if nothing is rescanned. */
  lemma {:induction false} FinishesIff(s: string, args: seq<string>)
    requires |args| == Count(s)
    ensures Expand(s, args).Expanded? <==> NoRescan(Split(s), args)
  {
    ReadsAtLeastThePlaceholders(s, args);
    ReadsOnePerPlaceholderIff(s, args);
  }

  function MarksIn(args: seq<string>): nat {
    if args == [] then 0 else Count(args[0]) + MarksIn(args[1..])
  }

  /** The first k arguments are just enough: one for each placeholder of the template, and
      for each of their own. */
  predicate Enough(s: string, args: seq<string>, k: nat)
    requires k <= |args|
  {
    Count(s) + MarksIn(args[..k]) == k
  }

  /** No 's' stands directly behind a placeholder. */
  ghost predicate Loose(s: string) {
    forall i :: At(s, i) ==> i + 2 == |s| || s[i + 2] != 's'
  }

  /** No argument forms a placeholder with what comes behind it: none ends in a percent
      sign, or there is never an 's' to meet one. */
  ghost predicate Apart(s: string, args: seq<string>) {
    || (forall a :: a in args && a != [] ==> a[|a| - 1] != '%')
    || (Loose(s) && forall a :: a in args ==> Loose(a))
  }

  lemma {:induction false} LooseNext(s: string, p: nat, a: string)
    requires Find(s, 0) == Some(p) && Loose(s) && Loose(a)
    ensures Seam(a, s[p + 2..]) == 0 && Loose(a + s[p + 2..])
  {
    var rest := s[p + 2..];
    assert rest != [] ==> rest[0] == s[p + 2] != 's';
    forall i | At(a + rest, i) ensures i + 2 == |a + rest| || (a + rest)[i + 2] != 's' {
      if i + 1 < |a| {
        assert At(a, i);
      } else {
        assert i >= |a| && At(s, i - |a| + p + 2);
      }
    }
  }

  /** The next text needs what is left. */
  lemma {:induction false} ApartNext(s: string, args: seq<string>)
    requires Find(s, 0).Some? && args != [] && Apart(s, args)
    ensures var next := args[0] + s[Find(s, 0).value + 2..];
            && Apart(next, args[1..])
            && Count(s) > 0
            && Count(next) + 1 == Count(s) + Count(args[0])
  {
    var rest := s[Find(s, 0).value + 2..];
    Cut(s);
    CountConcat(args[0], rest);
    assert forall a :: a in args[1..] ==> a in args;
    if Loose(s) && forall a :: a in args ==> Loose(a) {
      LooseNext(s, Find(s, 0).value, args[0]);
    }
  }

  lemma {:induction false} EnoughNext(s: string, next: string, args: seq<string>, k: nat)
    requires args != [] && 1 <= k <= |args| && Count(next) + 1 == Count(s) + Count(args[0])
    ensures Enough(s, args, k) <==> Enough(next, args[1..], k - 1)
  {
    assert args[..k][1..] == args[1..][..k - 1];
  }

  /** The law of consumption, rescans included: the call finishes if and only if some first
      k arguments are just enough, and reads the fewest that are. */
  lemma {:induction false} ConsumptionLaw(s: string, args: seq<string>)
    requires Apart(s, args)
    ensures Expand(s, args).Expanded? <==> exists k: nat :: k <= |args| && Enough(s, args, k)
    ensures var r := Expand(s, args);
            r.Expanded? ==>
              r.used <= |args| && Enough(s, args, r.used) && forall k: nat :: k < r.used ==> !Enough(s, args, k)
    decreases |args|
  {
    Cut(s);
    if Find(s, 0).None? {
      assert Enough(s, args, 0);
    } else if args != [] {
      var next := args[0] + s[Find(s, 0).value + 2..];
      ApartNext(s, args);
      ConsumptionLaw(next, args[1..]);
      assert !Enough(s, args, 0);
      forall k: nat | 1 <= k <= |args| ensures Enough(s, args, k) <==> Enough(next, args[1..], k - 1) {
        EnoughNext(s, next, args, k);
      }
      if k: nat :| k <= |args[1..]| && Enough(next, args[1..], k) {
        assert Enough(s, args, k + 1);
      }
    }
  }

  /** How many arguments end in a percent sign, and may so complete a placeholder. */
  function PercentEnds(args: seq<string>): nat {
    if args == [] then 0
    else (if args[0] != [] && args[0][|args[0]| - 1] == '%' then 1 else 0) + PercentEnds(args[1..])
  }

  lemma {:induction false} FirstOf(args: seq<string>, k: nat)
    requires args != [] && 1 <= k <= |args|
    ensures MarksIn(args[..k]) == Count(args[0]) + MarksIn(args[1..][..k - 1])
    ensures PercentEnds(args[..k]) == PercentEnds(args[..1]) + PercentEnds(args[1..][..k - 1])
  {
    assert args[..k][1..] == args[1..][..k - 1];
    assert args[..1] == [args[0]] && args[..1][1..] == [];
  }

  lemma {:induction false} CountNext(s: string, args: seq<string>)
    requires Find(s, 0).Some? && args != []
    ensures var next := args[0] + s[Find(s, 0).value + 2..];
            Count(s) + Count(args[0]) <= Count(next) + 1 <= Count(s) + Count(args[0]) + PercentEnds(args[..1])
  {
    Cut(s);
    CountConcat(args[0], s[Find(s, 0).value + 2..]);
    assert args[..1] == [args[0]];
  }

  /** For any call at all, the arguments read are no fewer than the placeholders of template
      and arguments, and exceed them by at most one for each that ends in a percent sign. */
  lemma {:induction false} ConsumptionBounds(s: string, args: seq<string>)
    ensures var r := Expand(s, args);
            r.Expanded? ==>
              && r.used <= |args|
              && Count(s) + MarksIn(args[..r.used]) <= r.used
              && r.used <= Count(s) + MarksIn(args[..r.used]) + PercentEnds(args[..r.used])
    decreases |args|
  {
    Cut(s);
    if Find(s, 0).Some? && args != [] {
      var next := args[0] + s[Find(s, 0).value + 2..];
      CountNext(s, args);
      ConsumptionBounds(next, args[1..]);
      if Expand(s, args).Expanded? {
        FirstOf(args, Expand(s, args).used);
      }
    }
  }

  /** And it finishes as soon as some first k arguments are enough with these added. */
  lemma {:induction false} SurelyFinishes(s: string, args: seq<string>, k: nat)
    requires k <= |args| && Count(s) + MarksIn(args[..k]) + PercentEnds(args[..k]) <= k
    ensures Expand(s, args).Expanded?
    decreases k
  {
    Cut(s);
    if Find(s, 0).Some? {
      var next := args[0] + s[Find(s, 0).value + 2..];
      CountNext(s, args);
      FirstOf(args, k);
      SurelyFinishes(next, args[1..], k - 1);
    }
  }

  // ----- Composition -----

  /** `whole` is what `first` wrote, followed by what `second` wrote. */
  ghost predicate Follows(whole: Outcome, first: Outcome, second: Outcome)
    requires first.Expanded?
  {
    && (whole.Starved? <==> second.Starved?)
    && (second.Expanded? ==>
          && whole.Text() == first.Text() + second.Text()
          && whole.used == first.used + second.used)
  }

  /** Expanding a+b is expanding a and then b, when a's expansion uses up its own
      arguments and its tail does not form a placeholder with b. */
  lemma {:induction false} Composes(a: string, b: string, xs: seq<string>, ys: seq<string>)
    requires Expand(a, xs).Expanded? && Expand(a, xs).used == |xs|
    requires Seam(Expand(a, xs).tail, b) == 0
    ensures Follows(Expand(a + b, xs + ys), Expand(a, xs), Expand(b, ys))
    decreases |xs|
  {
    match Find(a, 0)
    case None =>
      Cut(a);
      assert xs + ys == ys;
      PrefixStaysInFront(a, b, ys);
    case Some(p) =>
      var next := xs[0] + a[p + 2..];
      StepBeforeSuffix(a, b, xs, ys);
      Composes(next, b, xs[1..], ys);
      BehindFollows(Expand(next + b, xs[1..] + ys), Expand(next, xs[1..]), Expand(b, ys), a[..p]);
  }

  lemma {:induction false} StepBeforeSuffix(a: string, b: string, xs: seq<string>, ys: seq<string>)
    requires Find(a, 0).Some? && xs != []
    ensures var p := Find(a, 0).value;
            Expand(a + b, xs + ys) == Expand(xs[0] + a[p + 2..] + b, xs[1..] + ys).Behind(a[..p], 1)
  {
    var p := Find(a, 0).value;
    FindBeforeSuffix(a, b);
    assert (a + b)[..p] == a[..p];
    assert xs[0] + (a + b)[p + 2..] == xs[0] + a[p + 2..] + b;
    assert (xs + ys)[0] == xs[0] && (xs + ys)[1..] == xs[1..] + ys;
  }

  lemma {:induction false} FindBeforeSuffix(a: string, b: string)
    requires Find(a, 0).Some?
    ensures Find(a + b, 0) == Find(a, 0)
  {
    var p := Find(a, 0).value;
    assert forall i :: i < |a| - 1 ==> (At(a + b, i) <==> At(a, i));
    assert At(a + b, p);
  }

  /** A mark-free prefix is copied. */
  lemma {:induction false} PrefixStaysInFront(a: string, b: string, ys: seq<string>)
    requires Count(a) == 0 && Seam(a, b) == 0
    ensures Follows(Expand(a + b, ys), Expanded([], a, 0), Expand(b, ys))
  {
    FindAfterPrefix(a, b);
    if Find(b, 0).Some? && ys != [] {
      StepBehindPrefix(a, b, ys);
      BehindText(Expand(b, ys), a);
    }
  }

  lemma {:induction false} StepBehindPrefix(a: string, b: string, ys: seq<string>)
    requires Count(a) == 0 && Seam(a, b) == 0
    requires Find(b, 0).Some? && ys != []
    ensures Expand(a + b, ys) == Expand(b, ys).Behind(a, 0)
  {
    FindAfterPrefix(a, b);
    var p := Find(b, 0).value;
    DropAfterPrefix(a, b, p);
    var next := Expand(ys[0] + b[p + 2..], ys[1..]);
    StepOfExpand(a + b, ys);
    assert Expand(a + b, ys) == next.Behind(a + b[..p], 1);
    StepOfExpand(b, ys);
    BehindTwice(next, a, 0, b[..p], 1);
  }

  lemma {:induction false} StepOfExpand(s: string, args: seq<string>)
    requires Find(s, 0).Some? && args != []
    ensures var p := Find(s, 0).value;
            Expand(s, args) == Expand(args[0] + s[p + 2..], args[1..]).Behind(s[..p], 1)
  {
  }

  lemma {:induction false} BehindText(r: Outcome, x: string)
    ensures r.Expanded? ==> r.Behind(x, 0).Text() == x + r.Text()
  {
    if r.Expanded? {
      assert (x + r.fixed) + r.tail == x + (r.fixed + r.tail);
    }
  }

  lemma {:induction false} BehindFollows(whole: Outcome, first: Outcome, second: Outcome, x: string)
    requires first.Expanded? && Follows(whole, first, second)
    ensures Follows(whole.Behind(x, 1), first.Behind(x, 1), second)
  {
    if second.Expanded? {
      assert (x + whole.fixed) + whole.tail == x + whole.Text();
      assert (x + first.fixed) + first.tail + second.Text() == x + (first.Text() + second.Text());
    }
  }

  /** Two lists of segments, the last of the first joined to the first of the second. */
  function Glued(x: seq<string>, y: seq<string>): (r: seq<string>)
    requires |x| >= 1 && |y| >= 1
    ensures |r| == |x| + |y| - 1
  {
    x[..|x| - 1] + [x[|x| - 1] + y[0]] + y[1..]
  }

  lemma {:induction false} GluedCons(h: string, x: seq<string>, y: seq<string>)
    requires |x| >= 1 && |y| >= 1
    ensures Glued([h] + x, y) == [h] + Glued(x, y)
  {
    assert ([h] + x)[..|x|] == [h] + x[..|x| - 1];
  }

  /** Splitting a+b, when the cut breaks no mark. */
  lemma {:induction false} SplitConcat(a: string, b: string)
    requires Seam(a, b) == 0
    ensures Split(a + b) == Glued(Split(a), Split(b))
    decreases |a|
  {
    Cut(a);
    match Find(a, 0)
    case None =>
      SplitAfterPrefix(a, b);
      assert [a][..0] == [];
    case Some(p) =>
      var rest := a[p + 2..];
      SplitConcatStep(a, b, p);
      assert rest != [] ==> rest[|rest| - 1] == a[|a| - 1];
      SplitConcat(rest, b);
      GluedCons(a[..p], Split(rest), Split(b));
  }

  lemma {:induction false} SplitConcatStep(a: string, b: string, p: nat)
    requires Find(a, 0) == Some(p)
    ensures Split(a) == [a[..p]] + Split(a[p + 2..])
    ensures Split(a + b) == [a[..p]] + Split(a[p + 2..] + b)
  {
    FindBeforeSuffix(a, b);
    assert (a + b)[..p] == a[..p];
    assert (a + b)[p + 2..] == a[p + 2..] + b;
  }

  /** What is left to search at the end: the last argument read and the last segment. */
  lemma {:induction false} TailOfRender(s: string, args: seq<string>)
    requires |args| >= Count(s) && NoRescan(Split(s), args)
    ensures |Split(s)| == Count(s) + 1 && Expand(s, args).Expanded?
    ensures Expand(s, args).tail == if Count(s) == 0 then s else args[Count(s) - 1] + Split(s)[Count(s)]
    decreases |args|
  {
    SplitIsExact(s);
    Cut(s);
    if Find(s, 0).Some? {
      var next := args[0] + s[Find(s, 0).value + 2..];
      NextSegments(s, args);
      SplitIsExact(next);
      TailOfRender(next, args[1..]);
      LastPieces(s, args, next);
    }
  }

  lemma {:induction false} LastPieces(s: string, args: seq<string>, next: string)
    requires Find(s, 0).Some? && args != [] && next == args[0] + s[Find(s, 0).value + 2..]
    requires |Split(s)| == Count(s) + 1 && |Split(next)| == Count(s) && |args| >= Count(s) >= 1
    requires Split(next) == [args[0] + Split(s)[1]] + Split(s)[2..]
    ensures args[Count(s) - 1] + Split(s)[Count(s)]
         == if Count(s) == 1 then next else args[1..][Count(s) - 2] + Split(next)[Count(s) - 1]
  {
    Cut(next);
    SplitIsExact(next);
    if Count(s) == 1 {
      assert Split(next) == [next];
    }
  }

  /** The parts of a template without rescans have none, nor does the joint. */
  lemma {:induction false} NoRescanOfFront(a: string, b: string, xs: seq<string>, ys: seq<string>)
    requires Seam(a, b) == 0 && |xs| == Count(a) && NoRescan(Split(a + b), xs + ys)
    ensures |Split(a)| == Count(a) + 1 && NoRescan(Split(a), xs)
    ensures xs != [] ==> Seam(xs[|xs| - 1], Split(a)[|xs|] + Split(b)[0]) == 0
  {
    SplitConcat(a, b);
    SplitIsExact(a);
    var segs := Split(a + b);
    forall i | 0 <= i < |xs| ensures Count(xs[i]) == 0 && Seam(xs[i], segs[i + 1]) == 0 {
      assert (xs + ys)[i] == xs[i];
    }
  }

  /** The last segment ends as the text does. */
  lemma {:induction false} SplitEnds(s: string)
    ensures var last := Split(s)[|Split(s)| - 1]; last != [] ==> s != [] && last[|last| - 1] == s[|s| - 1]
    decreases |s|
  {
    if Find(s, 0).Some? {
      var p := Find(s, 0).value;
      SplitEnds(s[p + 2..]);
      assert Split(s) == [s[..p]] + Split(s[p + 2..]);
    }
  }

  /** Compositionality in terms of the inputs: without rescans, and with a cut that breaks
      no mark, expanding a+b is expanding a with its arguments and then b with the others. */
  lemma {:induction false} ComposesPlain(a: string, b: string, xs: seq<string>, ys: seq<string>)
    requires Seam(a, b) == 0 && |xs| == Count(a) && |ys| >= Count(b)
    requires NoRescan(Split(a + b), xs + ys)
    ensures Expand(a, xs).Expanded? && Expand(a, xs).used == Count(a)
    ensures Follows(Expand(a + b, xs + ys), Expand(a, xs), Expand(b, ys))
  {
    NoRescanOfFront(a, b, xs, ys);
    ExpandIsRender(a, xs);
    TailOfRender(a, xs);
    SplitEnds(a);
    SeamWithFirstSegment(Expand(a, xs).tail, b);
    Composes(a, b, xs, ys);
  }

  // ----- Stability -----

  /** Placeholders formed across the joints of a list of pieces. */
  function Seams(pieces: seq<string>): nat {
    if pieces == [] then 0 else Seam(pieces[0], Flat(pieces[1..])) + Seams(pieces[1..])
  }

  /** Glued mark-free pieces hold exactly the placeholders formed at their joints. */
  lemma {:induction false} CountOfFlat(pieces: seq<string>)
    requires forall i :: 0 <= i < |pieces| ==> Count(pieces[i]) == 0
    ensures Count(Flat(pieces)) == Seams(pieces)
  {
    if pieces != [] {
      CountConcat(pieces[0], Flat(pieces[1..]));
      CountOfFlat(pieces[1..]);
    }
  }

  lemma {:induction false} InterleavedArePlain(segs: seq<string>, args: seq<string>)
    requires |segs| >= 1 && |args| >= |segs| - 1
    requires forall i :: 0 <= i < |segs| ==> Count(segs[i]) == 0
    requires forall i :: 0 <= i < |segs| - 1 ==> Count(args[i]) == 0
    ensures forall i :: 0 <= i < |Interleave(segs, args)| ==> Count(Interleave(segs, args)[i]) == 0
  {
    if |segs| > 1 {
      InterleavedArePlain(segs[1..], args[1..]);
    }
  }

  /** A second expansion with the same supply changes nothing and reads nothing
      if and only if no joint of the rendered text forms a placeholder. */
  lemma {:induction false} StableIff(s: string, args: seq<string>, more: seq<string>)
    requires |args| >= Count(s) && NoRescan(Split(s), args)
    ensures |Split(s)| == Count(s) + 1 && Expand(s, args).Expanded?
    ensures var text := Expand(s, args).Text();
            Expand(text, more) == Expanded([], text, 0) <==> Seams(Interleave(Split(s), args)) == 0
  {
    ExpandIsRender(s, args);
    SplitIsExact(s);
    InterleavedArePlain(Split(s), args);
    CountOfFlat(Interleave(Split(s), args));
    Cut(Render(s, args));
  }

  /** The usual way to be stable: no percent sign in the arguments used, none at
      the end of a segment that stands before a placeholder. */
  lemma {:induction false} PercentFreeIsStable(s: string, args: seq<string>, more: seq<string>)
    requires |args| >= Count(s)
    requires forall i :: 0 <= i < Count(s) ==> '%' !in args[i]
    requires forall i :: 0 <= i < |Split(s)| - 1 ==> Split(s)[i] == [] || Split(s)[i][|Split(s)[i]| - 1] != '%'
    ensures Expand(s, args).Expanded?
    ensures var text := Expand(s, args).Text(); Expand(text, more) == Expanded([], text, 0)
  {
    SplitIsExact(s);
    forall i | 0 <= i < Count(s) ensures Count(args[i]) == 0 {
      CountIsZero(args[i]);
    }
    NoJointWithoutPercent(Split(s), args);
    StableIff(s, args, more);
  }

  lemma {:induction false} NoJointWithoutPercent(segs: seq<string>, args: seq<string>)
    requires |segs| >= 1 && |args| >= |segs| - 1
    requires forall i :: 0 <= i < |segs| - 1 ==> '%' !in args[i]
    requires forall i :: 0 <= i < |segs| - 1 ==> segs[i] == [] || segs[i][|segs[i]| - 1] != '%'
    ensures Seams(Interleave(segs, args)) == 0
  {
    var pieces := Interleave(segs, args);
    if |segs| == 1 {
      assert Seams(pieces) == Seam(segs[0], Flat(pieces[1..])) + Seams(pieces[1..]);
    } else {
      NoJointWithoutPercent(segs[1..], args[1..]);
      var later := Interleave(segs[1..], args[1..]);
      assert pieces[1..] == [args[0]] + later && pieces[1..][1..] == later;
    }
  }
}
