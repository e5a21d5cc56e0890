/** The slice helpers of pkg/loadbalancer/util.go: sliceCompare and slicesEquiv. */
module Slices {

  // ----- sliceCompare

  /** Elements new in `dest` and listed there exactly once. */
  ghost predicate IsAdded(src: seq<string>, dest: seq<string>, v: string) {
    v !in src && multiset(dest)[v] == 1
  }

  ghost predicate IsDeleted(src: seq<string>, dest: seq<string>, v: string) {
    v in src && v !in dest
  }

  ghost predicate NoDuplicates(s: seq<string>) {
    forall i, j :: 0 <= i < j < |s| ==> s[i] != s[j]
  }

  /** The differences of two slices. A new element that `dest` lists twice is taken for one that
      was there before, and reported neither way. */
  method SliceCompare(src: seq<string>, dest: seq<string>) returns (added: seq<string>, deleted: seq<string>)
    ensures forall v :: v in added <==> IsAdded(src, dest, v)
    ensures forall v :: v in deleted <==> IsDeleted(src, dest, v)
    ensures NoDuplicates(added) && NoDuplicates(deleted)
  {
    var mall := Complement(src, dest);
    added, deleted := [], [];
    var remaining := mall;
    while remaining != {}
      invariant remaining <= mall
      invariant forall v :: v in added <==> v in mall - remaining && v !in src
      invariant forall v :: v in deleted <==> v in mall - remaining && v in src
      invariant NoDuplicates(added) && NoDuplicates(deleted)
      decreases |remaining|
    {
      var v :| v in remaining;
      remaining := remaining - {v};
      if v in src {
        deleted := deleted + [v];
      } else {
        added := added + [v];
      }
    }
  }

  lemma PrefixCounts(s: seq<string>, i: nat)
    requires i < |s|
    ensures forall v :: v in s[..i + 1] <==> v in s[..i] || v == s[i]
    ensures forall v :: multiset(s[..i + 1])[v] == multiset(s[..i])[v] + if v == s[i] then 1 else 0
    ensures forall v :: v in s[..i] <==> multiset(s[..i])[v] >= 1
  {
    assert s[..i + 1] == s[..i] + [s[i]];
  }

  /** Steps 1 and 2 of sliceCompare: the union of both slices, and the elements that could not be
      entered as new while going through `dest`. */
  method UnionAndRepeated(src: seq<string>, dest: seq<string>) returns (mall: set<string>, repeated: seq<string>)
    ensures forall v :: v in mall <==> v in src || v in dest
    ensures forall v :: v in repeated <==> v in dest && (v in src || multiset(dest)[v] >= 2)
  {
    mall := set v | v in src;
    repeated := [];
    for i := 0 to |dest|
      invariant forall v :: v in mall <==> v in src || v in dest[..i]
      invariant forall v :: v in repeated <==> v in dest[..i] && (v in src || multiset(dest[..i])[v] >= 2)
    {
      var v := dest[i];
      PrefixCounts(dest, i);
      var l := |mall|;
      assert v !in mall ==> |mall + {v}| == l + 1;
      assert v in mall ==> mall + {v} == mall;
      mall := mall + {v};
      if l == |mall| {
        repeated := repeated + [v];
      }
    }
    assert dest[..|dest|] == dest;
  }

  /** Steps 1 to 3 of sliceCompare: the union less the repeated elements. */
  method Complement(src: seq<string>, dest: seq<string>) returns (mall: set<string>)
    ensures forall v :: v in mall <==> IsAdded(src, dest, v) || IsDeleted(src, dest, v)
  {
    var repeated;
    mall, repeated := UnionAndRepeated(src, dest);
    ghost var union := mall;
    for i := 0 to |repeated|
      invariant forall v :: v in mall <==> v in union && v !in repeated[..i]
    {
      assert repeated[..i + 1] == repeated[..i] + [repeated[i]];
      mall := mall - {repeated[i]};
    }
    assert repeated[..|repeated|] == repeated;
    assert forall v :: v in dest <==> multiset(dest)[v] >= 1;
  }

  // ----- slicesEquiv

  /** The byte-wise order of strings. */
  predicate LexLeq(a: string, b: string) {
    a == "" || (b != "" && (a[0] < b[0] || (a[0] == b[0] && LexLeq(a[1..], b[1..]))))
  }

  predicate Sorted(s: seq<string>) {
    forall i, j :: 0 <= i < j < |s| ==> LexLeq(s[i], s[j])
  }

  lemma {:induction false} LexTotal(a: string, b: string)
    ensures LexLeq(a, b) || LexLeq(b, a)
  {
    if a != "" && b != "" {
      LexTotal(a[1..], b[1..]);
    }
  }

  lemma {:induction false} LexAntisymmetric(a: string, b: string)
    requires LexLeq(a, b) && LexLeq(b, a)
    ensures a == b
  {
    if a != "" && b != "" {
      LexAntisymmetric(a[1..], b[1..]);
      assert a == [a[0]] + a[1..] && b == [b[0]] + b[1..];
    }
  }

  lemma {:induction false} LexTransitive(a: string, b: string, c: string)
    requires LexLeq(a, b) && LexLeq(b, c)
    ensures LexLeq(a, c)
  {
    if a != "" && a[0] == b[0] && b[0] == c[0] {
      LexTransitive(a[1..], b[1..], c[1..]);
    }
  }

  function Insert(x: string, s: seq<string>): (r: seq<string>)
    ensures multiset(r) == multiset(s) + multiset{x}
  {
    if s == [] || LexLeq(x, s[0]) then [x] + s
    else
      assert s == [s[0]] + s[1..];
      [s[0]] + Insert(x, s[1..])
  }

  lemma {:induction false} InsertSorted(x: string, s: seq<string>)
    requires Sorted(s)
    ensures Sorted(Insert(x, s))
  {
    if s == [] {
    } else if LexLeq(x, s[0]) {
      forall i | 0 <= i < |s|
        ensures LexLeq(x, s[i])
      {
        if i > 0 {
          LexTransitive(x, s[0], s[i]);
        }
      }
    } else {
      InsertSorted(x, s[1..]);
      LexTotal(x, s[0]);
      var t := Insert(x, s[1..]);
      forall i | 0 <= i < |t|
        ensures LexLeq(s[0], t[i])
      {
        assert t[i] in multiset(t);
        if t[i] != x {
          assert t[i] in multiset(s[1..]);
        }
      }
    }
  }

  /** sort.Strings, as an insertion sort. */
  function SortedCopy(s: seq<string>): (r: seq<string>)
    ensures multiset(r) == multiset(s)
  {
    if s == [] then []
    else
      assert s == [s[0]] + s[1..];
      Insert(s[0], SortedCopy(s[1..]))
  }

  lemma {:induction false} SortedCopyIsSorted(s: seq<string>)
    ensures Sorted(SortedCopy(s))
  {
    if s != [] {
      SortedCopyIsSorted(s[1..]);
      InsertSorted(s[0], SortedCopy(s[1..]));
    }
  }

  /** A multiset of strings has only one sorted arrangement. */
  lemma {:induction false} SortedIsUnique(a: seq<string>, b: seq<string>)
    requires Sorted(a) && Sorted(b) && multiset(a) == multiset(b)
    ensures a == b
    decreases |a|
  {
    hide Sorted;
    assert |a| == |multiset(a)| == |multiset(b)| == |b|;
    if a != [] {
      SameHeads(a, b);
      SortedIsUnique(a[1..], b[1..]);
      assert a == [a[0]] + a[1..] && b == [b[0]] + b[1..];
    }
  }

  lemma SameHeads(a: seq<string>, b: seq<string>)
    requires Sorted(a) && Sorted(b) && multiset(a) == multiset(b) && a != [] && b != []
    ensures a[0] == b[0] && Sorted(a[1..]) && Sorted(b[1..]) && multiset(a[1..]) == multiset(b[1..])
  {
    hide LexLeq;
    FirstIsLeast(a, b);
    FirstIsLeast(b, a);
    hide Sorted;
    LexAntisymmetric(a[0], b[0]);
    SortedTail(a);
    SortedTail(b);
  }

  lemma SortedTail(s: seq<string>)
    requires s != [] && Sorted(s)
    ensures Sorted(s[1..]) && multiset(s[1..]) == multiset(s) - multiset{s[0]}
  {
    hide LexLeq;
    assert s == [s[0]] + s[1..];
  }

  lemma FirstIsLeast(a: seq<string>, b: seq<string>)
    requires Sorted(a) && multiset(a) == multiset(b) && a != [] && b != []
    ensures LexLeq(a[0], b[0])
  {
    assert b[0] in multiset(a);
    var i :| 0 <= i < |a| && a[i] == b[0];
    LeastFirst(a, i);
  }

  lemma LeastFirst(s: seq<string>, i: nat)
    requires Sorted(s) && i < |s|
    ensures LexLeq(s[0], s[i])
  {
    if i == 0 {
      LexTotal(s[0], s[0]);
    }
  }

  method SortStrings(a: array<string>)
    modifies a
    ensures a[..] == SortedCopy(old(a[..]))
  {
    var s := SortedCopy(a[..]);
    assert |s| == |multiset(s)| == |multiset(a[..])| == a.Length;
    forall i | 0 <= i < a.Length {
      a[i] := s[i];
    }
  }

  /** Two slices are equivalent exactly when they hold the same elements equally often. Both are
      sorted in place. */
  method SlicesEquiv(lhs: array<string>, rhs: array<string>) returns (same: bool)
    requires lhs != rhs
    modifies lhs, rhs
    ensures same <==> multiset(old(lhs[..])) == multiset(old(rhs[..]))
    ensures multiset(lhs[..]) == multiset(old(lhs[..])) && multiset(rhs[..]) == multiset(old(rhs[..]))
  {
    if lhs.Length != rhs.Length {
      assert |multiset(lhs[..])| == lhs.Length && |multiset(rhs[..])| == rhs.Length;
      return false;
    }
    SortStrings(lhs);
    SortStrings(rhs);
    SortedCopyIsSorted(old(lhs[..]));
    SortedCopyIsSorted(old(rhs[..]));
    same := lhs[..] == rhs[..];
    if multiset(old(lhs[..])) == multiset(old(rhs[..])) {
      SortedIsUnique(lhs[..], rhs[..]);
    }
  }
}
