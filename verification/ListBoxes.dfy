/** The list box control.  Both boxes of the client carry the sorting style
    (MFCApplication1/MFCApplication1.rc:132 and 146); where a control puts a new
    string is a parameter here, so that an appending box is covered too. */
module ListBoxes {
  /** A user id or other text shown in a list. */
  datatype Name = Name(text: string)

  /** The index at which a box with these entries puts a new string. */
  type Placement = (seq<Name>, Name) -> nat

  function Place(at: Placement, box: seq<Name>, x: Name): (r: seq<Name>)
    ensures |r| == |box| + 1
    ensures multiset(r) == multiset(box) + multiset{x}
  {
    var k := if at(box, x) <= |box| then at(box, x) else |box|;
    assert box == box[..k] + box[k..];
    box[..k] + [x] + box[k..]
  }

  function PlaceAll(at: Placement, box: seq<Name>, xs: seq<Name>): (r: seq<Name>)
    ensures |r| == |box| + |xs|
    ensures multiset(r) == multiset(box) + multiset(xs)
    decreases xs
  {
    if xs == [] then box
    else
      assert xs == [xs[0]] + xs[1..];
      PlaceAll(at, Place(at, box, xs[0]), xs[1..])
  }

  lemma {:induction false} PlaceAllSnoc(at: Placement, box: seq<Name>, xs: seq<Name>, x: Name)
    ensures PlaceAll(at, box, xs + [x]) == Place(at, PlaceAll(at, box, xs), x)
    decreases xs
  {
    if xs != [] {
      assert (xs + [x])[1..] == xs[1..] + [x];
      PlaceAllSnoc(at, Place(at, box, xs[0]), xs[1..], x);
    }
  }

  lemma {:induction false} PlaceNext(at: Placement, box: seq<Name>, xs: seq<Name>, n: nat)
    requires n < |xs|
    ensures PlaceAll(at, box, xs[..n + 1]) == Place(at, PlaceAll(at, box, xs[..n]), xs[n])
  {
    assert xs[..n + 1] == xs[..n] + [xs[n]];
    PlaceAllSnoc(at, box, xs[..n], xs[n]);
  }

  /** DeleteString: nothing happens when the index is out of range. */
  function Delete<T>(s: seq<T>, i: int): (r: seq<T>)
    ensures 0 <= i < |s| ==> |r| == |s| - 1 && multiset(r) == multiset(s) - multiset{s[i]}
  {
    if 0 <= i < |s| then
      assert s == s[..i] + [s[i]] + s[i + 1..];
      s[..i] + s[i + 1..]
    else s
  }

  /** The entries before i stay, those behind it move up by one. */
  lemma {:induction false} DeleteAt<T>(s: seq<T>, i: int, j: nat)
    requires j < |Delete(s, i)|
    ensures Delete(s, i)[j] == if 0 <= i < |s| && j >= i then s[j + 1] else s[j]
    ensures |Delete(s, i)| == |s| - if 0 <= i < |s| then 1 else 0
  {
  }

  class ListBox {
    const at: Placement
    var items: seq<Name>

    constructor (at: Placement)
      ensures this.at == at && items == []
    {
      this.at := at;
      items := [];
    }

    method AddString(x: Name)
      modifies this
      ensures items == Place(at, old(items), x)
    {
      items := Place(at, items, x);
    }

    method DeleteString(i: int)
      modifies this
      ensures items == Delete(old(items), i)
    {
      items := Delete(items, i);
    }
  }

  // ----- Sorting and appending boxes -----

  /** The box's comparison of strings, total and transitive but possibly blind to case:
      each string has a rank, and equal ranks compare equal. */
  type Order = Name -> real

  ghost predicate Sorted(rank: Order, s: seq<Name>) {
    forall i, j :: 0 <= i < j < |s| ==> rank(s[i]) <= rank(s[j])
  }

  ghost predicate Sorting(at: Placement, rank: Order) {
    forall box, x :: Sorted(rank, box) ==> Sorted(rank, Place(at, box, x))
  }

  ghost predicate Appending(at: Placement) {
    forall box, x :: at(box, x) == |box|
  }

  lemma {:induction false} SortingKeepsSorted(at: Placement, rank: Order, box: seq<Name>, xs: seq<Name>)
    requires Sorting(at, rank) && Sorted(rank, box)
    ensures Sorted(rank, PlaceAll(at, box, xs))
    decreases xs
  {
    if xs != [] {
      SortingKeepsSorted(at, rank, Place(at, box, xs[0]), xs[1..]);
    }
  }

  lemma {:induction false} AppendOne(at: Placement, box: seq<Name>, x: Name)
    requires Appending(at)
    ensures Place(at, box, x) == box + [x]
  {
    assert box[..|box|] == box && box[|box|..] == [];
  }

  lemma {:induction false} ConsTail(box: seq<Name>, xs: seq<Name>)
    requires xs != []
    ensures box + [xs[0]] + xs[1..] == box + xs
  {
  }

  lemma {:induction false} AppendingAppends(at: Placement, box: seq<Name>, xs: seq<Name>)
    requires Appending(at)
    ensures PlaceAll(at, box, xs) == box + xs
    decreases xs
  {
    if xs == [] {
      assert box + xs == box;
    } else {
      AppendOne(at, box, xs[0]);
      AppendingAppends(at, box + [xs[0]], xs[1..]);
      ConsTail(box, xs);
    }
  }

  /** Every order has a sorting placement: behind the entries not greater than x. */
  function Behind(rank: Order, box: seq<Name>, x: Name): (k: nat)
    ensures k <= |box|
    ensures forall i :: 0 <= i < k ==> rank(box[i]) <= rank(x)
    ensures k < |box| ==> rank(box[k]) > rank(x)
  {
    if box == [] || rank(box[0]) > rank(x) then 0 else 1 + Behind(rank, box[1..], x)
  }

  lemma {:induction false} SortedInsert(rank: Order, box: seq<Name>, k: nat, x: Name)
    requires Sorted(rank, box) && k <= |box|
    requires forall i :: 0 <= i < k ==> rank(box[i]) <= rank(x)
    requires k < |box| ==> rank(x) <= rank(box[k])
    ensures Sorted(rank, box[..k] + [x] + box[k..])
  {
    assert forall i :: k <= i < |box| ==> rank(x) <= rank(box[i]);
  }

  lemma {:induction false} BehindIsSorting(rank: Order)
    ensures Sorting((box, x) => Behind(rank, box, x), rank)
  {
    var at: Placement := (box, x) => Behind(rank, box, x);
    forall box, x | Sorted(rank, box) ensures Sorted(rank, Place(at, box, x)) {
      SortedInsert(rank, box, Behind(rank, box, x), x);
    }
  }

  /** Entries that compare equal are the same string. */
  ghost predicate NoTies(rank: Order, s: seq<Name>) {
    forall x, y :: x in s && y in s && rank(x) == rank(y) ==> x == y
  }

  lemma {:induction false} NoTiesWithin(rank: Order, all: seq<Name>, some: seq<Name>)
    requires NoTies(rank, all) && multiset(some) <= multiset(all)
    ensures NoTies(rank, some)
  {
    forall x | x in some ensures x in all {
      assert x in multiset(some);
    }
  }

  lemma {:induction false} SortedDrop(rank: Order, w: seq<Name>, n: nat)
    requires n <= |w| && Sorted(rank, w)
    ensures Sorted(rank, w[n..])
  {
  }

  lemma {:induction false} SameSize(a: seq<Name>, b: seq<Name>)
    requires multiset(a) == multiset(b)
    ensures |a| == |b|
  {
    assert |multiset(a)| == |a| && |multiset(b)| == |b|;
  }

  lemma {:induction false} SortedIsUnique(rank: Order, a: seq<Name>, b: seq<Name>)
    requires NoTies(rank, a)
    requires Sorted(rank, a) && Sorted(rank, b) && multiset(a) == multiset(b)
    ensures a == b
  {
    SameSize(a, b);
    if a != [] {
      SameHead(rank, a, b);
      TailMultiset(a);
      TailMultiset(b);
      NoTiesWithin(rank, a, a[1..]);
      SortedDrop(rank, a, 1);
      SortedDrop(rank, b, 1);
      SortedIsUnique(rank, a[1..], b[1..]);
      SameByParts(a, b);
    }
  }

  lemma {:induction false} SameByParts(a: seq<Name>, b: seq<Name>)
    requires a != [] && b != [] && a[0] == b[0] && a[1..] == b[1..]
    ensures a == b
  {
    assert a == [a[0]] + a[1..] && b == [b[0]] + b[1..];
  }

  lemma {:induction false} SameHead(rank: Order, a: seq<Name>, b: seq<Name>)
    requires NoTies(rank, a) && a != [] && b != []
    requires Sorted(rank, a) && Sorted(rank, b) && multiset(a) == multiset(b)
    ensures a[0] == b[0]
  {
    assert a[0] in multiset(b) && b[0] in multiset(a);
    var i :| 0 <= i < |b| && b[i] == a[0];
    var j :| 0 <= j < |a| && a[j] == b[0];
    assert rank(b[0]) <= rank(b[i]) && rank(a[0]) <= rank(a[j]);
  }

  lemma {:induction false} TailMultiset(s: seq<Name>)
    requires s != []
    ensures multiset(s[1..]) == multiset(s) - multiset{s[0]}
  {
    assert s == [s[0]] + s[1..];
  }

  /** An entry strictly below all others comes first. */
  lemma {:induction false} LeastIsFirst(rank: Order, w: seq<Name>, x: Name)
    requires Sorted(rank, w) && x in w
    requires forall y :: y in w ==> y == x || rank(x) < rank(y)
    ensures w[0] == x
  {
    var i :| 0 <= i < |w| && w[i] == x;
    assert w[0] in w && (i > 0 ==> rank(w[0]) <= rank(w[i]));
  }
}
