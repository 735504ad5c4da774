/** Ruby's `String#<=>` on record ids, and `sort` with a block comparing
    ids ascending (`a <=> b`) or descending (`b <=> a`). Comparing
    characters by code point orders strings the way comparing their UTF-8
    bytes does. */
module Ordering {

  /** `a <=> b` is -1 or 0: `a` is a prefix of `b`, or is smaller at the
      first position where they differ. */
  predicate Le(a: string, b: string)
    decreases |a|
  {
    a == [] || (b != [] && (a[0] < b[0] || (a[0] == b[0] && Le(a[1..], b[1..]))))
  }

  lemma {:induction false} LeRefl(a: string)
    ensures Le(a, a)
    decreases |a|
  {
    if a != [] {
      LeRefl(a[1..]);
    }
  }

  lemma {:induction false} LeTotal(a: string, b: string)
    ensures Le(a, b) || Le(b, a)
    decreases |a|
  {
    if a != [] && b != [] && a[0] == b[0] {
      LeTotal(a[1..], b[1..]);
    }
  }

  lemma {:induction false} LeAntisym(a: string, b: string)
    requires Le(a, b) && Le(b, a)
    ensures a == b
    decreases |a|
  {
    if a != [] {
      assert b != [] && a[0] == b[0];
      LeAntisym(a[1..], b[1..]);
      assert a == [a[0]] + a[1..] && b == [b[0]] + b[1..];
    }
  }

  lemma {:induction false} LeTrans(a: string, b: string, c: string)
    requires Le(a, b) && Le(b, c)
    ensures Le(a, c)
    decreases |a|
  {
    if a != [] && b != [] && c != [] && a[0] == b[0] && b[0] == c[0] {
      LeTrans(a[1..], b[1..], c[1..]);
    }
  }

  /** The direction of `:order`. */
  datatype Direction = Asc | Desc

  /** `x` may come before `y` in a result sorted in direction `d`. */
  predicate Precedes(d: Direction, x: string, y: string) {
    if d == Asc then Le(x, y) else Le(y, x)
  }

  lemma PrecedesTotal(d: Direction, x: string, y: string)
    ensures Precedes(d, x, y) || Precedes(d, y, x)
  {
    LeTotal(x, y);
  }

  lemma PrecedesTrans(d: Direction, x: string, y: string, z: string)
    requires Precedes(d, x, y) && Precedes(d, y, z)
    ensures Precedes(d, x, z)
  {
    if d == Asc {
      LeTrans(x, y, z);
    } else {
      LeTrans(z, y, x);
    }
  }

  lemma PrecedesAntisym(d: Direction, x: string, y: string)
    requires Precedes(d, x, y) && Precedes(d, y, x)
    ensures x == y
  {
    LeAntisym(x, y);
  }

  predicate Sorted(d: Direction, s: seq<string>) {
    forall i, j :: 0 <= i < j < |s| ==> Precedes(d, s[i], s[j])
  }

  /** Placing `x` in a sorted sequence before the first element it
      precedes. */
  function Insert(d: Direction, x: string, s: seq<string>): (r: seq<string>)
    requires Sorted(d, s)
    ensures Sorted(d, r)
    ensures multiset(r) == multiset(s) + multiset{x}
    ensures |r| == |s| + 1
  {
    if s == [] then [x]
    else if Precedes(d, x, s[0]) then
      ConsSorted(d, x, s);
      [x] + s
    else
      PrecedesTotal(d, x, s[0]);
      var t := Insert(d, x, s[1..]);
      HeadBeforeInserted(d, x, s, t);
      SortedTail(d, s);
      ConsSorted(d, s[0], t);
      assert s == [s[0]] + s[1..];
      [s[0]] + t
  }

  /** A sorted sequence stays sorted under a new first element that
      precedes its old first element. */
  lemma ConsSorted(d: Direction, x: string, s: seq<string>)
    requires Sorted(d, s) && (s != [] ==> Precedes(d, x, s[0]))
    ensures Sorted(d, [x] + s)
  {
    forall i, j | 0 <= i < j < |[x] + s| ensures Precedes(d, ([x] + s)[i], ([x] + s)[j]) {
      if i == 0 && j > 1 {
        PrecedesTrans(d, x, s[0], s[j - 1]);
      }
    }
  }

  /** The head of a sorted sequence precedes everything in the insertion
      of a later element into its tail. */
  lemma HeadBeforeInserted(d: Direction, x: string, s: seq<string>, t: seq<string>)
    requires Sorted(d, s) && s != [] && Precedes(d, s[0], x)
    requires multiset(t) == multiset(s[1..]) + multiset{x}
    ensures t != [] ==> Precedes(d, s[0], t[0])
  {
    if t != [] {
      assert t[0] in multiset(t);
      if t[0] != x {
        assert t[0] in multiset(s[1..]);
        var m :| 0 <= m < |s[1..]| && s[1..][m] == t[0];
        assert s[m + 1] == t[0];
      }
    }
  }

  /** `ids.sort { ... }` in direction `d`. */
  function Sort(d: Direction, s: seq<string>): (r: seq<string>)
    ensures Sorted(d, r)
    ensures multiset(r) == multiset(s)
    ensures |r| == |s|
    decreases |s|
  {
    if s == [] then []
    else
      assert s == s[..|s| - 1] + [s[|s| - 1]];
      Insert(d, s[|s| - 1], Sort(d, s[..|s| - 1]))
  }

  /** A sorted arrangement of a multiset of ids is unique: whatever order
      the sort visits ids in, and although it is not stable, equal ids are
      indistinguishable. */
  lemma {:induction false} SortedUnique(d: Direction, a: seq<string>, b: seq<string>)
    requires Sorted(d, a) && Sorted(d, b)
    requires multiset(a) == multiset(b)
    ensures a == b
    decreases |a|
  {
    if a != [] {
      assert |b| == |a| by {
        assert |multiset(a)| == |a| && |multiset(b)| == |b|;
      }
      SortedHeads(d, a, b);
      SortedHeads(d, b, a);
      PrecedesAntisym(d, a[0], b[0]);
      DropHead(a);
      DropHead(b);
      SortedTail(d, a);
      SortedTail(d, b);
      SortedUnique(d, a[1..], b[1..]);
      assert a == [a[0]] + a[1..] && b == [b[0]] + b[1..];
    }
  }

  /** The first element of a sorted sequence precedes everything the
      sequence holds. */
  lemma SortedHeads(d: Direction, a: seq<string>, b: seq<string>)
    requires Sorted(d, a) && Sorted(d, b) && a != [] && b != []
    requires multiset(a) == multiset(b)
    ensures Precedes(d, b[0], a[0])
  {
    assert a[0] in multiset(b);
    var i :| 0 <= i < |b| && b[i] == a[0];
    if i > 0 {
      assert Precedes(d, b[0], b[i]);
    } else {
      PrecedesTotal(d, b[0], a[0]);
    }
  }

  lemma DropHead(a: seq<string>)
    requires a != []
    ensures multiset(a[1..]) == multiset(a) - multiset{a[0]}
  {
    assert a == [a[0]] + a[1..];
    assert multiset(a) == multiset{a[0]} + multiset(a[1..]);
  }

  lemma SortedTail(d: Direction, a: seq<string>)
    requires Sorted(d, a) && a != []
    ensures Sorted(d, a[1..])
  {
    forall i, j | 0 <= i < j < |a[1..]| ensures Precedes(d, a[1..][i], a[1..][j]) {
      assert a[1..][i] == a[i + 1] && a[1..][j] == a[j + 1];
    }
  }

  function Reverse(s: seq<string>): (r: seq<string>)
    ensures |r| == |s|
    ensures forall i :: 0 <= i < |s| ==> r[i] == s[|s| - 1 - i]
  {
    if s == [] then [] else Reverse(s[1..]) + [s[0]]
  }

  lemma {:induction false} ReverseMultiset(s: seq<string>)
    ensures multiset(Reverse(s)) == multiset(s)
  {
    if s != [] {
      ReverseMultiset(s[1..]);
      assert s == [s[0]] + s[1..];
    }
  }

  lemma ReverseSorted(up: seq<string>)
    requires Sorted(Asc, up)
    ensures Sorted(Desc, Reverse(up))
  {
    var down := Reverse(up);
    forall i, j | 0 <= i < j < |down| ensures Precedes(Desc, down[i], down[j]) {
      assert down[i] == up[|up| - 1 - i] && down[j] == up[|up| - 1 - j];
      assert Precedes(Asc, up[|up| - 1 - j], up[|up| - 1 - i]);
    }
  }

  /** Sorting with the block `{ |b, a| a <=> b }` gives the ascending
      order reversed. */
  lemma SortDescReversesAsc(s: seq<string>)
    ensures Sort(Desc, s) == Reverse(Sort(Asc, s))
  {
    var up := Sort(Asc, s);
    ReverseMultiset(up);
    ReverseSorted(up);
    SortedUnique(Desc, Sort(Desc, s), Reverse(up));
  }
}
