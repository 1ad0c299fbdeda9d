/** Node colouring: every rank holds the same gathered list of network
    numbers, one per global rank, and derives its node's colour from it. */
module Coloring {
  import opened QuoTypes

  // ---------------------------------------------------------------------
  // What a colour is
  // ---------------------------------------------------------------------

  /** The distinct numbers of a gathered list. */
  function Values(s: seq<nat>): set<nat>
  {
    set x | x in s
  }

  /** The members of a set strictly smaller than x. */
  function LessThan(S: set<nat>, x: nat): set<nat>
  {
    set y | y in S && y < x
  }

  /** The distinct gathered numbers strictly smaller than x. */
  function Below(s: seq<nat>, x: nat): set<nat>
  {
    LessThan(Values(s), x)
  }

  /** How many distinct numbers, hence how many nodes, the list names. */
  function NumDistinct(s: seq<nat>): nat
  {
    |Values(s)|
  }

  /** The colour of a rank whose number is x: the count of distinct
      gathered numbers strictly smaller than x. */
  function Color(s: seq<nat>, x: nat): nat
  {
    |Below(s, x)|
  }

  /** The colour every global rank computes, indexed by global rank. */
  function Colors(s: seq<nat>): seq<nat>
  {
    seq(|s|, r requires 0 <= r < |s| => Color(s, s[r]))
  }

  // ---------------------------------------------------------------------
  // The comparator handed to qsort, and a correct one
  // ---------------------------------------------------------------------

  /** cmp_uli as written: the unsigned long difference (mod 2^64),
      truncated to int. */
  function CmpUli(a: U64, b: U64): (r: I32)
    ensures (r - (a - b)) % U32Modulus == 0
  {
    var d := (a - b) % U64Modulus;
    ModNarrow(a - b);
    ModSumZero(ToI32(d) - d, d - (a - b));
    ToI32(d)
  }

  /** The truncated difference has the right sign as long as the two
      numbers fit in 32 bits and lie less than 2^31 apart. */
  lemma CmpUliAgreesWhenClose(a: U64, b: U64)
    requires a < U32Modulus && b < U32Modulus
    requires -0x8000_0000 < a - b < 0x8000_0000
    ensures CmpUli(a, b) == a - b
  {
    var d := (a - b) % U64Modulus;
    if a >= b {
      assert d == a - b;
    } else {
      assert d == U64Modulus + a - b;
      assert d % U32Modulus == U32Modulus + a - b;
    }
  }

  /** Two 32-bit network numbers 2^31 apart: each compares as smaller than
      the other, so cmp_uli is not a valid ordering for qsort. These are the
      numbers of 10.0.0.1 and 10.0.0.129 after htonl on a little-endian host. */
  lemma CmpUliNotAntisymmetric()
    ensures CmpUli(0x8100_000A, 0x0100_000A) < 0
    ensures CmpUli(0x0100_000A, 0x8100_000A) < 0
  {
    CmpUliWrapsAt(0x0100_000A);
  }

  lemma CmpUliWrapsAt(b: U64)
    requires b < 0x8000_0000
    ensures CmpUli(b + 0x8000_0000, b) == -0x8000_0000
    ensures CmpUli(b, b + 0x8000_0000) == -0x8000_0000
  {
    assert (b - (b + 0x8000_0000)) % U64Modulus == U64Modulus - 0x8000_0000;
    assert (U64Modulus - 0x8000_0000) % U32Modulus == 0x8000_0000;
  }

  /** A true three-way comparison of network numbers. */
  function Compare(x: nat, y: nat): (r: int)
    ensures r < 0 <==> x < y
    ensures r == 0 <==> x == y
    ensures r > 0 <==> y < x
  {
    if x < y then -1 else if x == y then 0 else 1
  }

  /** Compare is antisymmetric, which cmp_uli is not. */
  lemma CompareAntisymmetric(x: nat, y: nat)
    ensures Compare(x, y) < 0 <==> Compare(y, x) > 0
    ensures Compare(x, y) == 0 <==> Compare(y, x) == 0
  {
  }

  // ---------------------------------------------------------------------
  // qsort, as a sorted permutation under Compare
  // ---------------------------------------------------------------------

  predicate Sorted(s: seq<nat>)
  {
    forall i, j :: 0 <= i < j < |s| ==> s[i] <= s[j]
  }

  /** Putting a lower bound in front of a sorted list keeps it sorted. */
  lemma ConsSorted(a: nat, r: seq<nat>)
    requires Sorted(r) && forall k :: 0 <= k < |r| ==> a <= r[k]
    ensures Sorted([a] + r)
  {
  }

  /** A lower bound of a list and of x bounds every element of a list
      holding the same elements plus x. */
  lemma LowerBoundCarries(lo: nat, x: nat, s: seq<nat>, r: seq<nat>)
    requires multiset(r) == multiset(s) + multiset{x}
    requires lo <= x && forall k :: 0 <= k < |s| ==> lo <= s[k]
    ensures forall k :: 0 <= k < |r| ==> lo <= r[k]
  {
    forall k | 0 <= k < |r|
      ensures lo <= r[k]
    {
      assert r[k] in multiset(r);
      if r[k] != x {
        assert r[k] in s;
      }
    }
  }

  function Insert(x: nat, s: seq<nat>): (r: seq<nat>)
    requires Sorted(s)
    ensures Sorted(r)
    ensures multiset(r) == multiset(s) + multiset{x}
  {
    if s == [] || Compare(x, s[0]) <= 0 then
      ConsSorted(x, s);
      [x] + s
    else
      var rest := Insert(x, s[1..]);
      assert s == [s[0]] + s[1..];
      LowerBoundCarries(s[0], x, s[1..], rest);
      ConsSorted(s[0], rest);
      [s[0]] + rest
  }

  /** The list after qsort: sorted, and the same numbers as before. */
  function Sort(s: seq<nat>): (r: seq<nat>)
    ensures Sorted(r)
    ensures multiset(r) == multiset(s)
  {
    if s == [] then
      []
    else
      assert s == [s[0]] + s[1..];
      Insert(s[0], Sort(s[1..]))
  }

  // ---------------------------------------------------------------------
  // get_my_color
  // ---------------------------------------------------------------------

  lemma ValuesSnoc(s: seq<nat>, x: nat)
    ensures Values(s + [x]) == Values(s) + {x}
  {
  }

  /** qsort(net_nums, ...) under a true comparison. */
  method SortInPlace(a: array<nat>)
    modifies a
    ensures Sorted(a[..]) && multiset(a[..]) == multiset(old(a[..]))
  {
    var sorted := Sort(a[..]);
    assert |sorted| == |multiset(sorted)| == |multiset(a[..])| == a.Length;
    forall k | 0 <= k < a.Length {
      a[k] := sorted[k];
    }
    assert a[..] == sorted;
  }

  /** In a sorted list, the numbers before the first occurrence of x are
      exactly the distinct numbers below x. */
  lemma PrefixBeforeFirstIsBelow(a: seq<nat>, i: nat)
    requires Sorted(a) && i < |a|
    requires forall k :: 0 <= k < i ==> a[k] < a[i]
    ensures Values(a[..i]) == Below(a, a[i])
  {
    forall y | y in Below(a, a[i])
      ensures y in Values(a[..i])
    {
      var k :| 0 <= k < |a| && a[k] == y;
      assert a[..i][k] == y;
    }
  }

  /** Passing one whole run of equal numbers adds one distinct number. */
  lemma RunAddsOneValue(a: seq<nat>, i0: nat, i1: nat)
    requires i0 < i1 <= |a|
    requires forall k :: 0 <= k < i0 ==> a[k] < a[i0]
    requires forall k :: i0 <= k < i1 ==> a[k] == a[i0]
    ensures |Values(a[..i1])| == |Values(a[..i0])| + 1
  {
    assert Values(a[..i1]) == Values(a[..i0]) + {a[i0]} by {
      forall y | y in Values(a[..i1])
        ensures y in Values(a[..i0]) + {a[i0]}
      {
        var k :| 0 <= k < i1 && a[k] == y;
        if k < i0 {
          assert a[..i0][k] == y;
        }
      }
      assert a[..i1][i0] == a[i0];
    }
    assert a[i0] !in Values(a[..i0]);
  }

  /** get_my_color: sorts the gathered list in place, then walks its runs
      of equal numbers until it reaches the caller's own number; the count
      of runs passed is the colour. The walk only stays inside the list when
      the caller's own number is in it. */
  method GetMyColor(netNums: array?<nat>, myNetNum: nat) returns (rc: Rc, myColor: nat)
    requires netNums != null ==> myNetNum in netNums[..]
    modifies netNums
    ensures netNums == null ==> rc == ErrInvldArg && myColor == 0
    ensures netNums != null ==> rc == Success
    ensures netNums != null ==> Sorted(netNums[..]) && multiset(netNums[..]) == multiset(old(netNums[..]))
    ensures netNums != null ==> myColor == Color(old(netNums[..]), myNetNum)
  {
    if netNums == null {
      return ErrInvldArg, 0;
    }
    ghost var gathered := netNums[..];
    SortInPlace(netNums);
    ghost var a := netNums[..];
    assert myNetNum in multiset(gathered);
    assert myNetNum in a;
    ghost var w :| 0 <= w < |a| && a[w] == myNetNum;

    var n := netNums.Length;
    var i, nodeI := 0, 0;
    var prevNum := netNums[0];
    while i < n && prevNum != myNetNum
      invariant netNums[..] == a
      invariant 0 <= i <= w
      invariant prevNum == a[i] && prevNum <= myNetNum
      invariant forall k :: 0 <= k < i ==> a[k] < prevNum
      invariant nodeI == |Values(a[..i])|
      decreases n - i
    {
      ghost var i0 := i;
      while netNums[i] == prevNum
        invariant netNums[..] == a
        invariant i0 <= i <= w
        invariant forall k :: i0 <= k < i ==> a[k] == prevNum
        decreases n - i
      {
        assert a[i] <= a[w];
        i := i + 1;
      }
      RunAddsOneValue(a, i0, i);
      assert a[i0] <= a[i];
      nodeI := nodeI + 1;
      prevNum := netNums[i];
    }
    PrefixBeforeFirstIsBelow(a, i);
    ColorDependsOnlyOnMultiset(a, gathered, myNetNum);
    rc, myColor := Success, nodeI;
  }

  // ---------------------------------------------------------------------
  // What colours promise
  // ---------------------------------------------------------------------

  /** Colours depend only on which numbers were gathered, not their order. */
  lemma ColorDependsOnlyOnMultiset(s: seq<nat>, t: seq<nat>, x: nat)
    requires multiset(s) == multiset(t)
    ensures Color(s, x) == Color(t, x)
  {
    assert Below(s, x) == Below(t, x) by {
      forall y
        ensures y in Below(s, x) <==> y in Below(t, x)
      {
        assert y in s <==> y in multiset(s);
        assert y in t <==> y in multiset(t);
      }
    }
  }

  /** A gathered number's colour lies in 0 .. NumDistinct - 1. */
  lemma ColorBelowNodeCount(s: seq<nat>, x: nat)
    requires x in s
    ensures Color(s, x) < NumDistinct(s)
  {
    assert x in Values(s) && x !in Below(s, x);
    SubsetCard(Below(s, x) + {x}, Values(s));
  }

  /** A smaller gathered number gets a strictly smaller colour. */
  lemma ColorStrictlyMonotone(s: seq<nat>, x: nat, y: nat)
    requires x in s && x < y
    ensures Color(s, x) < Color(s, y)
  {
    assert x !in Below(s, x);
    SubsetCard(Below(s, x) + {x}, Below(s, y));
  }

  lemma {:induction false} SubsetCard(a: set<nat>, b: set<nat>)
    requires a <= b
    ensures |a| <= |b|
    decreases |a|
  {
    if a != {} {
      var x :| x in a;
      SubsetCard(a - {x}, b - {x});
    }
  }

  /** Two ranks share a colour exactly when they share a network number. */
  lemma SameColorIffSameNumber(s: seq<nat>, i: nat, j: nat)
    requires i < |s| && j < |s|
    ensures Colors(s)[i] == Colors(s)[j] <==> s[i] == s[j]
  {
    if s[i] < s[j] {
      ColorStrictlyMonotone(s, s[i], s[j]);
    } else if s[j] < s[i] {
      ColorStrictlyMonotone(s, s[j], s[i]);
    }
  }

  lemma {:induction false} MaxExists(S: set<nat>)
    requires S != {}
    ensures exists m :: m in S && forall y :: y in S ==> y <= m
    decreases |S|
  {
    var z :| z in S;
    if S != {z} {
      MaxExists(S - {z});
      var m' :| m' in S - {z} && forall y :: y in S - {z} ==> y <= m';
      var m := if z > m' then z else m';
      forall y | y in S
        ensures y <= m
      {
        if y != z {
          assert y in S - {z};
        }
      }
    }
  }

  /** Every position 0 .. |S| - 1 in the ascending order of a finite set is
      taken by one of its elements. */
  lemma {:induction false} RankTaken(S: set<nat>, c: nat)
    requires c < |S|
    ensures exists x :: x in S && |LessThan(S, x)| == c
    decreases |S|
  {
    MaxExists(S);
    var m :| m in S && forall y :: y in S ==> y <= m;
    var rest := S - {m};
    if c == |rest| {
      assert LessThan(S, m) == rest;
    } else {
      RankTaken(rest, c);
      var x :| x in rest && |LessThan(rest, x)| == c;
      assert LessThan(S, x) == LessThan(rest, x);
    }
  }

  /** Colours are dense: every colour below the node count belongs to some rank. */
  lemma ColorsDense(s: seq<nat>, c: nat)
    requires c < NumDistinct(s)
    ensures exists r :: 0 <= r < |s| && Colors(s)[r] == c
  {
    RankTaken(Values(s), c);
    var x :| x in Values(s) && |LessThan(Values(s), x)| == c;
    var r :| 0 <= r < |s| && s[r] == x;
    assert Colors(s)[r] == c;
  }

  /** A single-node job: every rank gets colour 0 and there is one node. */
  lemma SingleNodeOneColor(s: seq<nat>, r: nat)
    requires r < |s|
    requires forall i :: 0 <= i < |s| ==> s[i] == s[0]
    ensures Colors(s)[r] == 0 && NumDistinct(s) == 1
  {
    assert Below(s, s[r]) == {};
    assert Values(s) == {s[0]};
  }

  /** A strictly increasing list has as many distinct values as entries. */
  lemma {:induction false} IncreasingValuesCount(t: seq<nat>)
    requires forall i, j :: 0 <= i < j < |t| ==> t[i] < t[j]
    ensures |Values(t)| == |t|
  {
    if t != [] {
      var init := t[..|t| - 1];
      IncreasingValuesCount(init);
      assert t == init + [t[|t| - 1]];
      ValuesSnoc(init, t[|t| - 1]);
      assert t[|t| - 1] !in Values(init);
    }
  }

  /** A fully disjoint job whose numbers ascend with the global rank: the
      colours are the global ranks. */
  lemma DisjointJobColorsAreRanks(s: seq<nat>, r: nat)
    requires r < |s|
    requires forall i, j :: 0 <= i < j < |s| ==> s[i] < s[j]
    ensures Colors(s)[r] == r
  {
    assert Below(s, s[r]) == Values(s[..r]);
    IncreasingValuesCount(s[..r]);
  }
}
