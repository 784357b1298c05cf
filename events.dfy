/**
  Events of a weekly schedule and the order Python's `list.sort` puts them in.
  An event is the tuple `(timestamp, kind)`; tuples compare by timestamp first
  and by the kind's name second, and "close" sorts before "open".
 */
module Events {

  /** The two kinds of event; `Close` is declared first because "close" < "open". */
  datatype Kind = Close | Open

  /** A point in time, in whole minutes from a fixed epoch. */
  type Timestamp = int

  datatype Event = Event(t: Timestamp, kind: Kind)

  function KindName(k: Kind): string {
    match k
    case Close => "close"
    case Open => "open"
  }

  /** Position of a kind in the tiebreak order. */
  function Rank(k: Kind): nat {
    match k
    case Close => 0
    case Open => 1
  }

  /** Python's `<` on strings: lexicographic order by code point. */
  predicate StringLess(a: string, b: string)
    decreases |a|
  {
    if a == [] then b != []
    else if b == [] then false
    else if a[0] != b[0] then a[0] < b[0]
    else StringLess(a[1..], b[1..])
  }

  /** The tiebreak order on kinds is the order of their names as strings. */
  lemma RankMatchesNames(a: Kind, b: Kind)
    ensures Rank(a) < Rank(b) <==> StringLess(KindName(a), KindName(b))
  {
    assert !StringLess("close", "close") by {
      assert "close"[1..] == "lose";
      assert "lose"[1..] == "ose";
      assert "ose"[1..] == "se";
      assert "se"[1..] == "e";
      assert "e"[1..] == [];
    }
    assert !StringLess("open", "open") by {
      assert "open"[1..] == "pen";
      assert "pen"[1..] == "en";
      assert "en"[1..] == "n";
      assert "n"[1..] == [];
    }
  }

  /** Python's `<=` on `(timestamp, kind)` tuples. */
  predicate Le(a: Event, b: Event) {
    a.t < b.t || (a.t == b.t && Rank(a.kind) <= Rank(b.kind))
  }

  /** `Le` is a total order: reflexive, antisymmetric, transitive and total. */
  lemma LeTotalOrder()
    ensures forall a :: Le(a, a)
    ensures forall a, b :: Le(a, b) && Le(b, a) ==> a == b
    ensures forall a, b, c :: Le(a, b) && Le(b, c) ==> Le(a, c)
    ensures forall a, b :: Le(a, b) || Le(b, a)
  {
  }

  /** Ascending order, as `list.sort` leaves it. */
  predicate Sorted(s: seq<Event>) {
    forall i, j :: 0 <= i < j < |s| ==> Le(s[i], s[j])
  }

  /** Every later element of a sorted sequence is at least its head. */
  lemma SortedHead(s: seq<Event>, y: Event)
    requires Sorted(s) && s != []
    requires y in multiset(s[1..])
    ensures Le(s[0], y)
  {
    var j :| 0 <= j < |s[1..]| && s[1..][j] == y;
    assert s[j + 1] == y;
  }

  /** Inserts `x` into a sorted sequence at its place. */
  function Insert(x: Event, s: seq<Event>): (r: seq<Event>)
    requires Sorted(s)
    ensures Sorted(r)
    ensures multiset(r) == multiset(s) + multiset{x}
  {
    if s == [] then [x]
    else if Le(x, s[0]) then [x] + s
    else
      var rest := Insert(x, s[1..]);
      assert s == [s[0]] + s[1..];
      assert forall i :: 0 <= i < |rest| ==> Le(s[0], rest[i]) by {
        forall i | 0 <= i < |rest|
          ensures Le(s[0], rest[i])
        {
          assert rest[i] in multiset(rest);
          if rest[i] != x {
            SortedHead(s, rest[i]);
          }
        }
      }
      [s[0]] + rest
  }

  /** A sort of `s`: the same events in ascending order. It stands for
      Python's `list.sort`; `SortedUnique` shows that any correct sort gives
      this same sequence. */
  function Sort(s: seq<Event>): (r: seq<Event>)
    ensures Sorted(r)
    ensures multiset(r) == multiset(s)
  {
    if s == [] then []
    else
      assert s == [s[0]] + s[1..];
      Insert(s[0], Sort(s[1..]))
  }

  /** The head of a sorted sequence is at least as small as any element. */
  lemma SortedMin(s: seq<Event>, y: Event)
    requires Sorted(s) && y in s
    ensures Le(s[0], y)
  {
    var j :| 0 <= j < |s| && s[j] == y;
    assert j == 0 || Le(s[0], s[j]);
  }

  /** Dropping the same head from two sequences with the same elements leaves
      two sequences with the same elements. */
  lemma SameTails(a: seq<Event>, b: seq<Event>)
    requires a != [] && b != [] && a[0] == b[0]
    requires multiset(a) == multiset(b)
    ensures multiset(a[1..]) == multiset(b[1..])
  {
    assert a == [a[0]] + a[1..] && b == [b[0]] + b[1..];
    assert multiset(a) == multiset{a[0]} + multiset(a[1..]);
    assert multiset(b) == multiset{a[0]} + multiset(b[1..]);
    assert multiset(a[1..]) == multiset(a) - multiset{a[0]} == multiset(b[1..]);
  }

  /** Two sorted sequences with the same elements are equal: the order on
      events is total, so sorting leaves nothing to chance. */
  lemma {:induction false} SortedUnique(a: seq<Event>, b: seq<Event>)
    requires Sorted(a) && Sorted(b)
    requires multiset(a) == multiset(b)
    ensures a == b
    decreases |a|
  {
    if a != [] {
      assert |b| == |multiset(b)| == |multiset(a)| == |a|;
      assert a[0] in multiset(b) && b[0] in multiset(a);
      SortedMin(a, b[0]);
      SortedMin(b, a[0]);
      SameTails(a, b);
      SortedUnique(a[1..], b[1..]);
      assert a == [a[0]] + a[1..] && b == [b[0]] + b[1..];
    }
  }
}
