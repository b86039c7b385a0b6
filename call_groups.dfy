/** Batching of the claimed register addresses of one function code into
    contiguous read requests (the tail of
    ModbusHelper.parse_template_build_calls). */
module CallGroups {

  /** One batched read: register_count words from start_address. */
  datatype CallGroup = CallGroup(start: int, count: nat)

  /** The addresses a, a+1, ..., a+n-1. */
  function Range(a: int, n: nat): (r: seq<int>)
    ensures |r| == n
  {
    if n == 0 then [] else Range(a, n - 1) + [a + n - 1]
  }

  /** Every address a list of groups reads, in order. */
  function Expand(g: seq<CallGroup>): seq<int>
  {
    if g == [] then [] else Expand(g[..|g| - 1]) + Range(g[|g| - 1].start, g[|g| - 1].count)
  }

  /** The sum of the register_count fields. */
  function TotalCount(g: seq<CallGroup>): nat
  {
    if g == [] then 0 else TotalCount(g[..|g| - 1]) + g[|g| - 1].count
  }

  /** The grouping rule applied to the first n addresses of s, left to
      right: a delta of exactly 1 from the previous address extends the
      last group, any other delta (a duplicate included) opens a new group
      of one. */
  function MergePrefix(s: seq<int>, n: nat): (g: seq<CallGroup>)
    requires n <= |s|
    ensures |g| > 0 <==> n > 0
    ensures n > 0 ==> g[|g| - 1].count >= 1 && g[|g| - 1].start + g[|g| - 1].count - 1 == s[n - 1]
  {
    if n == 0 then []
    else
      var g := MergePrefix(s, n - 1);
      if n >= 2 && s[n - 1] - s[n - 2] == 1 then Grow(g) else g + [CallGroup(s[n - 1], 1)]
  }

  /** The last group extended by one register. */
  function Grow(g: seq<CallGroup>): (r: seq<CallGroup>)
    requires |g| > 0
    ensures |r| == |g| && r[|g| - 1] == CallGroup(g[|g| - 1].start, g[|g| - 1].count + 1)
  {
    g[..|g| - 1] + [CallGroup(g[|g| - 1].start, g[|g| - 1].count + 1)]
  }

  /** The call groups of a whole address list. */
  function MergeRuns(s: seq<int>): seq<CallGroup>
  {
    MergePrefix(s, |s|)
  }

  predicate SortedAsc(s: seq<int>)
  {
    forall i, j :: 0 <= i < j < |s| ==> s[i] <= s[j]
  }

  predicate StrictlyIncreasing(s: seq<int>)
  {
    forall i, j :: 0 <= i < j < |s| ==> s[i] < s[j]
  }

  /** Neighbouring groups never touch: the next group never starts right
      after the previous one ends, and no group is empty. */
  predicate Separated(g: seq<CallGroup>)
  {
    (forall i :: 0 <= i < |g| ==> g[i].count >= 1) &&
    (forall i :: 0 <= i < |g| - 1 ==> g[i + 1].start != g[i].start + g[i].count)
  }

  /** Python's `sorted` on a list of integers (insertion sort). */
  function SortAsc(s: seq<int>): (r: seq<int>)
    ensures SortedAsc(r) && multiset(r) == multiset(s) && |r| == |s|
  {
    if s == [] then []
    else
      var t := SortAsc(s[1..]);
      assert s == [s[0]] + s[1..];
      assert multiset(s) == multiset(s[1..]) + multiset{s[0]};
      Insert(s[0], t)
  }

  function Insert(x: int, s: seq<int>): (r: seq<int>)
    requires SortedAsc(s)
    ensures SortedAsc(r) && multiset(r) == multiset(s) + multiset{x} && |r| == |s| + 1
    ensures r[0] == if s != [] && s[0] < x then s[0] else x
  {
    if s == [] then [x]
    else if x <= s[0] then
      LemmaSortedCons(x, s);
      [x] + s
    else
      var t := Insert(x, s[1..]);
      LemmaSortedCons(s[0], t);
      LemmaMultisetCons(s, t, x);
      [s[0]] + t
  }

  /** A sorted list stays sorted when an element no larger than its head is
      put in front. */
  lemma {:induction false} LemmaSortedCons(a: int, t: seq<int>)
    requires SortedAsc(t) && (t != [] ==> a <= t[0])
    ensures SortedAsc([a] + t)
  {
    var r := [a] + t;
    forall i, j | 0 <= i < j < |r|
      ensures r[i] <= r[j]
    {
      if i > 0 {
        assert r[i] == t[i - 1] && r[j] == t[j - 1];
      } else {
        assert r[j] == t[j - 1];
        assert t[0] <= t[j - 1];
      }
    }
  }

  lemma {:induction false} LemmaMultisetCons(s: seq<int>, t: seq<int>, x: int)
    requires s != [] && multiset(t) == multiset(s[1..]) + multiset{x}
    ensures multiset([s[0]] + t) == multiset(s) + multiset{x}
  {
    assert s == [s[0]] + s[1..];
  }

  // ---------------------------------------------------------------------
  // Properties of the grouping
  // ---------------------------------------------------------------------

  lemma {:induction false} LemmaExpandStep(g: seq<CallGroup>, x: CallGroup)
    ensures Expand(g + [x]) == Expand(g) + Range(x.start, x.count)
  {
    assert (g + [x])[..|g|] == g;
  }

  lemma {:induction false} LemmaTotalCountStep(g: seq<CallGroup>, x: CallGroup)
    ensures TotalCount(g + [x]) == TotalCount(g) + x.count
  {
    assert (g + [x])[..|g|] == g;
  }

  /** Range(a, n) holds the n addresses from a upwards, in order. */
  lemma {:induction false} LemmaRangeElements(a: int, n: nat)
    ensures forall i :: 0 <= i < n ==> Range(a, n)[i] == a + i
  {
    if n > 0 {
      LemmaRangeElements(a, n - 1);
      assert forall i :: 0 <= i < n - 1 ==> Range(a, n)[i] == Range(a, n - 1)[i];
    }
  }

  lemma {:induction false} LemmaRangeStep(a: int, n: nat)
    ensures Range(a, n + 1) == Range(a, n) + [a + n]
  {
  }

  /** One grouping step, unfolded. */
  lemma {:induction false} LemmaMergePrefixStep(s: seq<int>, n: nat)
    requires 0 < n <= |s|
    ensures var g := MergePrefix(s, n - 1);
      if n >= 2 && s[n - 1] - s[n - 2] == 1 then
        |g| > 0 && MergePrefix(s, n) == Grow(g)
      else MergePrefix(s, n) == g + [CallGroup(s[n - 1], 1)]
  {
  }

  /** Growing leaves every group but the last alone. */
  lemma {:induction false} LemmaGrowKeeps(g: seq<CallGroup>)
    requires |g| > 0
    ensures forall i :: 0 <= i < |g| - 1 ==> Grow(g)[i] == g[i]
  {
  }

  /** Growing reads one more address, the one after the last group. */
  lemma {:induction false} LemmaExpandGrow(g: seq<CallGroup>)
    requires |g| > 0
    ensures Expand(Grow(g)) == Expand(g) + [g[|g| - 1].start + g[|g| - 1].count]
  {
    var last := g[|g| - 1];
    var init := g[..|g| - 1];
    var grown := CallGroup(last.start, last.count + 1);
    assert g == init + [last];
    LemmaExpandStep(init, last);
    LemmaExpandStep(init, grown);
    LemmaRangeStep(last.start, last.count);
    var e := Expand(init);
    var rg := Range(last.start, last.count);
    calc {
      Expand(Grow(g));
      Expand(init + [grown]);
      e + (rg + [last.start + last.count]);
      { assert e + (rg + [last.start + last.count]) == (e + rg) + [last.start + last.count]; }
      (e + rg) + [last.start + last.count];
      Expand(g) + [last.start + last.count];
    }
  }

  /** The groups read exactly the given addresses, in order: every claimed
      address is covered, and by exactly one group. */
  lemma {:induction false} LemmaMergePrefixCovers(s: seq<int>, n: nat)
    requires n <= |s|
    ensures Expand(MergePrefix(s, n)) == s[..n]
  {
    if n > 0 {
      LemmaMergePrefixCovers(s, n - 1);
      LemmaPrefixSnoc(s, n);
      if n >= 2 && s[n - 1] - s[n - 2] == 1 {
        LemmaCoversGrow(s, n, MergePrefix(s, n - 1));
      } else {
        LemmaCoversOpen(s, n, MergePrefix(s, n - 1));
      }
    }
  }

  lemma {:induction false} LemmaPrefixSnoc(s: seq<int>, n: nat)
    requires 0 < n <= |s|
    ensures s[..n] == s[..n - 1] + [s[n - 1]]
  {
  }

  /** A step whose delta is 1 grows the last group. */
  lemma {:induction false} LemmaStepGrows(s: seq<int>, n: nat, g: seq<CallGroup>)
    requires 2 <= n <= |s| && MergePrefix(s, n - 1) == g && s[n - 1] - s[n - 2] == 1
    ensures |g| > 0 && MergePrefix(s, n) == Grow(g)
  {
  }

  /** Any other step opens a new group of one. */
  lemma {:induction false} LemmaStepOpens(s: seq<int>, n: nat, g: seq<CallGroup>)
    requires 1 <= n <= |s| && MergePrefix(s, n - 1) == g && (n == 1 || s[n - 1] - s[n - 2] != 1)
    ensures MergePrefix(s, n) == g + [CallGroup(s[n - 1], 1)]
  {
  }

  lemma {:induction false} LemmaCoversGrow(s: seq<int>, n: nat, g: seq<CallGroup>)
    requires 2 <= n <= |s| && MergePrefix(s, n - 1) == g && s[n - 1] - s[n - 2] == 1
    ensures Expand(MergePrefix(s, n)) == Expand(g) + [s[n - 1]]
  {
    LemmaStepGrows(s, n, g);
    LemmaExpandGrow(g);
  }

  lemma {:induction false} LemmaCoversOpen(s: seq<int>, n: nat, g: seq<CallGroup>)
    requires 1 <= n <= |s| && MergePrefix(s, n - 1) == g && (n == 1 || s[n - 1] - s[n - 2] != 1)
    ensures Expand(MergePrefix(s, n)) == Expand(g) + [s[n - 1]]
  {
    LemmaStepOpens(s, n, g);
    LemmaExpandStep(g, CallGroup(s[n - 1], 1));
    assert Range(s[n - 1], 1) == [s[n - 1]];
  }

  lemma {:induction false} LemmaMergeRunsCovers(s: seq<int>)
    ensures Expand(MergeRuns(s)) == s
  {
    LemmaMergePrefixCovers(s, |s|);
    assert s[..|s|] == s;
  }

  lemma {:induction false} LemmaTotalCountExpand(g: seq<CallGroup>)
    ensures TotalCount(g) == |Expand(g)|
  {
    if g != [] {
      LemmaTotalCountExpand(g[..|g| - 1]);
    }
  }

  /** The register_counts add up to the number of claimed addresses. */
  lemma {:induction false} LemmaMergeRunsCount(s: seq<int>)
    ensures TotalCount(MergeRuns(s)) == |s|
  {
    LemmaMergeRunsCovers(s);
    LemmaTotalCountExpand(MergeRuns(s));
  }

  /** Groups are separated: a new group starts exactly where the delta is
      not 1. */
  lemma {:induction false} LemmaMergePrefixSeparated(s: seq<int>, n: nat)
    requires n <= |s|
    ensures Separated(MergePrefix(s, n))
  {
    if n > 0 {
      LemmaMergePrefixSeparated(s, n - 1);
      LemmaMergePrefixStep(s, n);
      var g := MergePrefix(s, n - 1);
      if n >= 2 && s[n - 1] - s[n - 2] == 1 {
        LemmaSeparatedGrow(g);
      } else {
        LemmaSeparatedAppend(g, CallGroup(s[n - 1], 1));
      }
    }
  }

  /** Growing the last group keeps the groups separated. */
  lemma {:induction false} LemmaSeparatedGrow(g: seq<CallGroup>)
    requires |g| > 0 && Separated(g)
    ensures Separated(Grow(g))
  {
    LemmaGrowKeeps(g);
  }

  /** A non-empty group that does not start where the last one ends can be
      appended. */
  lemma {:induction false} LemmaSeparatedAppend(g: seq<CallGroup>, x: CallGroup)
    requires Separated(g) && x.count >= 1
    requires |g| > 0 ==> x.start != g[|g| - 1].start + g[|g| - 1].count
    ensures Separated(g + [x])
  {
    var r := g + [x];
    assert forall i :: 0 <= i < |g| ==> r[i] == g[i];
  }

  lemma {:induction false} LemmaMergeRunsSeparated(s: seq<int>)
    ensures Separated(MergeRuns(s))
  {
    LemmaMergePrefixSeparated(s, |s|);
  }

  /** For a duplicate-free sorted list the groups are its maximal runs of
      consecutive addresses: inside a group consecutive addresses differ by
      one, and across groups by more than one. */
  lemma {:induction false} LemmaMaximalRuns(s: seq<int>)
    requires StrictlyIncreasing(s)
    ensures var g := MergeRuns(s);
      Expand(g) == s && Separated(g) &&
      forall i :: 0 <= i < |g| - 1 ==> g[i + 1].start > g[i].start + g[i].count
  {
    var g := MergeRuns(s);
    LemmaMergeRunsCovers(s);
    LemmaMergeRunsSeparated(s);
    forall i | 0 <= i < |g| - 1
      ensures g[i + 1].start > g[i].start + g[i].count
    {
      LemmaGroupsIncrease(s, |s|, i);
    }
  }

  /** On a strictly increasing list, the first address of a group lies
      beyond the last address of the previous group. */
  lemma {:induction false} LemmaGroupsIncrease(s: seq<int>, n: nat, i: nat)
    requires StrictlyIncreasing(s) && n <= |s|
    requires i < |MergePrefix(s, n)| - 1
    ensures MergePrefix(s, n)[i + 1].start > MergePrefix(s, n)[i].start + MergePrefix(s, n)[i].count - 1
  {
    LemmaMergePrefixStep(s, n);
    var g := MergePrefix(s, n - 1);
    var r := MergePrefix(s, n);
    if n >= 2 && s[n - 1] - s[n - 2] == 1 {
      LemmaGrowKeeps(g);
      LemmaGroupsIncrease(s, n - 1, i);
      assert r[i] == g[i];
      if i + 1 < |g| - 1 {
        assert r[i + 1] == g[i + 1];
      }
    } else if i + 1 < |g| {
      LemmaGroupsIncrease(s, n - 1, i);
      assert r[i] == g[i] && r[i + 1] == g[i + 1];
    } else {
      assert r[i] == g[i];
    }
  }

  /** Two sorted lists with the same elements are equal. */
  lemma {:induction false} LemmaSortedUnique(a: seq<int>, b: seq<int>)
    requires SortedAsc(a) && SortedAsc(b) && multiset(a) == multiset(b)
    ensures a == b
  {
    assert |a| == |multiset(a)| == |multiset(b)| == |b|;
    if a != [] {
      assert a[0] in multiset(b) && b[0] in multiset(a);
      LemmaHeadIsLeast(a, b[0]);
      LemmaHeadIsLeast(b, a[0]);
      assert a[0] == b[0];
      LemmaTail(a);
      LemmaTail(b);
      assert multiset(a[1..]) == multiset(b[1..]);
      LemmaSortedUnique(a[1..], b[1..]);
      assert a == [a[0]] + a[1..] && b == [b[0]] + b[1..];
    }
  }

  /** The head of a sorted list is no larger than any of its elements. */
  lemma {:induction false} LemmaHeadIsLeast(a: seq<int>, x: int)
    requires SortedAsc(a) && x in multiset(a)
    ensures a[0] <= x
  {
    assert x in a;
  }

  lemma {:induction false} LemmaTail(a: seq<int>)
    requires SortedAsc(a) && a != []
    ensures SortedAsc(a[1..]) && multiset(a[1..]) == multiset(a) - multiset{a[0]}
  {
    assert a == [a[0]] + a[1..];
  }

  /** Grouping does not depend on the order in which addresses were
      claimed. */
  lemma {:induction false} LemmaOrderIndependent(x: seq<int>, y: seq<int>)
    requires multiset(x) == multiset(y)
    ensures MergeRuns(SortAsc(x)) == MergeRuns(SortAsc(y))
  {
    LemmaSortedUnique(SortAsc(x), SortAsc(y));
  }

  /** The grouping loop: walk the sorted addresses, growing the last group
      in place while the delta is 1. */
  method MergeCallGroups(sorted: seq<int>) returns (groups: seq<CallGroup>)
    ensures groups == MergeRuns(sorted)
    ensures Expand(groups) == sorted && TotalCount(groups) == |sorted|
  {
    groups := [];
    var previous: int := 0;
    var i := 0;
    while i < |sorted|
      invariant 0 <= i <= |sorted|
      invariant groups == MergePrefix(sorted, i)
      invariant i > 0 ==> previous == sorted[i - 1]
    {
      var address := sorted[i];
      if i == 0 {
        groups := groups + [CallGroup(address, 1)];
      } else {
        var delta := address - previous;
        if delta == 1 {
          var last := groups[|groups| - 1];
          groups := groups[..|groups| - 1] + [CallGroup(last.start, last.count + 1)];
          assert groups == Grow(MergePrefix(sorted, i));
        } else {
          groups := groups + [CallGroup(address, 1)];
        }
      }
      previous := address;
      i := i + 1;
    }
    LemmaMergeRunsCovers(sorted);
    LemmaMergeRunsCount(sorted);
  }
}
