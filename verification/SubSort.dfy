/**
 BATsubsort (gdk_batop.c), and sorting by several columns with it. Of do_sort only this is
 assumed: it puts its first array in order and permutes the second one along.
 */
module SubSort {
  import Group

  type Pair = (int, nat)

  /** How one segment of a column and of its order are sorted together. */
  type Sorter = (seq<Pair>, bool) -> seq<Pair>

  predicate Before(v: int, w: int, reverse: bool) { if reverse then v > w else v < w }

  ghost predicate OrderedPairs(s: seq<Pair>, reverse: bool) {
    forall i, j :: 0 <= i < j < |s| ==> !Before(s[j].0, s[i].0, reverse)
  }

  ghost predicate DoSortOk(sort: Sorter) {
    forall s, r {:trigger sort(s, r)} :: multiset(sort(s, r)) == multiset(s) && OrderedPairs(sort(s, r), r)
  }

  function Zip(a: seq<int>, b: seq<nat>): (r: seq<Pair>)
    requires |a| == |b|
  {
    seq(|a|, i requires 0 <= i < |a| => (a[i], b[i]))
  }

  function Seconds(s: seq<Pair>): (r: seq<nat>) { seq(|s|, i requires 0 <= i < |s| => s[i].1) }

  // ---------------------------------------------------------------- permutations

  lemma Without<T>(s: seq<T>, k: nat)
    requires k < |s|
    ensures multiset(s) == multiset(s[..k] + s[k + 1..]) + multiset{s[k]}
    ensures multiset(s[..k] + s[k + 1..]) == multiset(s) - multiset{s[k]}
  {
    assert s == s[..k] + [s[k]] + s[k + 1..];
  }

  lemma SecondsWithout(t: seq<Pair>, k: nat)
    requires k < |t|
    ensures multiset(Seconds(t)) == multiset(Seconds(t[..k] + t[k + 1..])) + multiset{t[k].1}
  {
    Without(Seconds(t), k);
    assert Seconds(t)[..k] + Seconds(t)[k + 1..] == Seconds(t[..k] + t[k + 1..]);
  }

  lemma RemoveSame<T>(s: seq<T>, t: seq<T>, k: nat)
    requires multiset(s) == multiset(t) && s != [] && k < |t| && t[k] == s[0]
    ensures multiset(s[..0] + s[1..]) == multiset(t[..k] + t[k + 1..])
  {
    Without(s, 0);
    Without(t, k);
  }

  /** Permuting pairs permutes their second parts. */
  lemma {:induction false} SecondsPermuted(s: seq<Pair>, t: seq<Pair>)
    requires multiset(s) == multiset(t)
    ensures multiset(Seconds(s)) == multiset(Seconds(t))
    decreases |s|
  {
    hide Seconds;
    assert |s| == |multiset(s)| == |multiset(t)| == |t|;
    if s == [] {
      assert s == t;
    } else {
      var k := InBoth(s, t, 0);
      RemoveSame(s, t, k);
      SecondsWithout(s, 0);
      SecondsWithout(t, k);
      SecondsPermuted(s[..0] + s[1..], t[..k] + t[k + 1..]);
    }
  }

  lemma InBoth<T>(s: seq<T>, t: seq<T>, i: nat) returns (j: nat)
    requires multiset(s) == multiset(t) && i < |s|
    ensures j < |t| && t[j] == s[i]
  {
    assert s[i] in multiset(t);
    j :| 0 <= j < |t| && t[j] == s[i];
  }

  // ------------------------------------------------------------------ one column

  /** Row x stands in run k of the given order. */
  ghost predicate FromRun(g: seq<nat>, o: seq<nat>, x: nat, k: nat) {
    exists j: nat {:trigger o[j]} :: j < |g| && j < |o| && g[j] == k && o[j] == x
  }

  /** on permutes o within the runs of g, and bn are the values in that order. */
  ghost predicate Permuted(values: seq<int>, g: seq<nat>, o: seq<nat>, bn: seq<int>, on: seq<nat>) {
    && |g| == |o| == |bn| == |on| && multiset(on) == multiset(o)
    && (forall i: nat {:trigger on[i]} :: i < |on| ==> FromRun(g, o, on[i], g[i]))
    && (forall i: nat {:trigger on[i]} :: i < |on| ==> on[i] < |values| && bn[i] == values[on[i]])
  }

  /** Up to r, every run of g is in order. */
  ghost predicate RunsOrdered(g: seq<nat>, bn: seq<int>, r: nat, reverse: bool)
    requires r <= |g| == |bn|
  {
    forall i: nat, j: nat {:trigger bn[i], bn[j]} :: i < j < r && g[i] == g[j] ==> !Before(bn[j], bn[i], reverse)
  }

  /** [r, p) is a run of g, as far as p. */
  ghost predicate RunAt(g: seq<nat>, r: nat, p: nat) {
    r < p <= |g| && (r > 0 ==> g[r - 1] < g[r]) && forall k :: r <= k < p ==> g[k] == g[r]
  }

  method SortSegment(bn: array<int>, on: array<nat>, lo: nat, hi: nat, sort: Sorter, reverse: bool)
    requires lo <= hi <= bn.Length == on.Length && DoSortOk(sort)
    modifies bn, on
    ensures bn[..lo] == old(bn[..lo]) && bn[hi..] == old(bn[hi..]) && on[..lo] == old(on[..lo])
      && on[hi..] == old(on[hi..])
    ensures Zip(bn[lo..hi], on[lo..hi]) == sort(old(Zip(bn[lo..hi], on[lo..hi])), reverse)
  {
    var seg := sort(Zip(bn[lo..hi], on[lo..hi]), reverse);
    assert |seg| == |multiset(seg)| == hi - lo;
    for k := lo to hi
      invariant bn[..lo] == old(bn[..lo]) && bn[hi..] == old(bn[hi..]) && on[..lo] == old(on[..lo])
        && on[hi..] == old(on[hi..])
      invariant forall i :: lo <= i < k ==> bn[i] == seg[i - lo].0 && on[i] == seg[i - lo].1
    {
      bn[k] := seg[k - lo].0;
      on[k] := seg[k - lo].1;
    }
    assert Zip(bn[lo..hi], on[lo..hi]) == seg;
  }

  lemma SegmentMultiset(bn: seq<int>, on: seq<nat>, bn': seq<int>, on': seq<nat>, r: nat, p: nat)
    requires r <= p <= |bn| == |on| == |bn'| == |on'| && on'[..r] == on[..r] && on'[p..] == on[p..]
    requires multiset(Zip(bn'[r..p], on'[r..p])) == multiset(Zip(bn[r..p], on[r..p]))
    ensures multiset(on') == multiset(on)
  {
    var s, s' := Zip(bn[r..p], on[r..p]), Zip(bn'[r..p], on'[r..p]);
    SecondsPermuted(s, s');
    assert Seconds(s) == on[r..p] && Seconds(s') == on'[r..p];
    assert on == on[..r] + on[r..p] + on[p..] && on' == on'[..r] + on'[r..p] + on'[p..];
  }

  /** Sorting one run keeps everything in its run, and the value of every row. */
  lemma SegmentPermuted(values: seq<int>, g: seq<nat>, o: seq<nat>, bn: seq<int>, on: seq<nat>, bn': seq<int>,
      on': seq<nat>, r: nat, p: nat)
    requires Permuted(values, g, o, bn, on) && RunAt(g, r, p) && |bn'| == |on'| == |bn|
    requires bn'[..r] == bn[..r] && bn'[p..] == bn[p..] && on'[..r] == on[..r] && on'[p..] == on[p..]
    requires multiset(Zip(bn'[r..p], on'[r..p])) == multiset(Zip(bn[r..p], on[r..p]))
    ensures Permuted(values, g, o, bn', on')
  {
    hide FromRun;
    var s, s' := Zip(bn[r..p], on[r..p]), Zip(bn'[r..p], on'[r..p]);
    SegmentMultiset(bn, on, bn', on', r, p);
    forall i: nat | i < |on'| ensures FromRun(g, o, on'[i], g[i]) && on'[i] < |values| && bn'[i] == values[on'[i]] {
      if i < r {
        assert on'[i] == on'[..r][i] == on[i] && bn'[i] == bn'[..r][i] == bn[i];
      } else if p <= i {
        assert on'[i] == on'[p..][i - p] == on[i] && bn'[i] == bn'[p..][i - p] == bn[i];
      } else {
        var j := InBoth(s', s, i - r);
        assert s'[i - r] == (bn'[i], on'[i]) && s[j] == (bn[r + j], on[r + j]);
        assert g[r + j] == g[i];
      }
    }
  }

  lemma SegmentOrdered(g: seq<nat>, bn: seq<int>, on: seq<nat>, bn': seq<int>, on': seq<nat>, r: nat, p: nat,
      reverse: bool)
    requires |g| == |bn| == |bn'| == |on| == |on'| && RunAt(g, r, p) && Group.SortedIds(g)
    requires bn'[..r] == bn[..r] && RunsOrdered(g, bn, r, reverse) && OrderedPairs(Zip(bn'[r..p], on'[r..p]), reverse)
    ensures RunsOrdered(g, bn', p, reverse)
  {
    var s' := Zip(bn'[r..p], on'[r..p]);
    forall i: nat, j: nat | i < j < p && g[i] == g[j] ensures !Before(bn'[j], bn'[i], reverse) {
      if j < r {
        assert bn'[i] == bn'[..r][i] == bn[i] && bn'[j] == bn'[..r][j] == bn[j];
      } else if r <= i {
        assert s'[i - r].0 == bn'[i] && s'[j - r].0 == bn'[j];
      } else {
        assert false;
      }
    }
  }

  // ------------------------------------------------------------------- new groups

  /** gn are the runs of g and bn together. */
  ghost predicate RefinedGroups(g: seq<nat>, bn: seq<int>, gn: seq<nat>) {
    && |gn| == |g| == |bn| && Group.SortedIds(gn)
    && forall i: nat, j: nat {:trigger gn[i], gn[j]} :: i < j < |gn| ==>
      (gn[i] == gn[j] <==> g[i] == g[j] && bn[i] == bn[j])
  }

  /** Groups are numbered 0, 1, 2, ... without gaps. */
  ghost predicate Consecutive(g: seq<nat>) {
    && (|g| > 0 ==> g[0] == 0)
    && forall i: nat :: i + 1 < |g| ==> g[i + 1] == g[i] || g[i + 1] == g[i] + 1
  }

  lemma ClusteredAfter(inp: Group.Input, g: seq<nat>, reverse: bool)
    requires Group.InputOk(inp) && |g| == |inp.b| && Group.SortedIds(g) && RunsOrdered(g, inp.b, |g|, reverse)
    requires if inp.grouped then inp.g == g else forall i, j :: 0 <= i < |g| && 0 <= j < |g| ==> g[i] == g[j]
    ensures Group.Clustered(inp)
  {
    forall i: nat, j: nat, k: nat | i <= j <= k < |inp.b| && Group.Same(inp, i, k) ensures Group.Same(inp, i, j) {
      assert i < j ==> g[i] <= g[j];
      assert j < k ==> g[j] <= g[k];
      assert i < j < k ==> !Before(inp.b[j], inp.b[i], reverse) && !Before(inp.b[k], inp.b[j], reverse);
    }
  }

  lemma GroupsRefined(inp: Group.Input, g: seq<nat>, ids: seq<nat>, exts: seq<nat>, cnts: seq<nat>)
    requires Group.IsGrouping(inp, |inp.b|, ids, exts, cnts) && Group.SortedIds(ids) && |g| == |inp.b|
    requires if inp.grouped then inp.g == g else forall i, j :: 0 <= i < |g| && 0 <= j < |g| ==> g[i] == g[j]
    ensures RefinedGroups(g, inp.b, ids) && Consecutive(ids)
  {
    forall i: nat, j: nat | i < j < |ids| ensures ids[i] == ids[j] <==> g[i] == g[j] && inp.b[i] == inp.b[j] {
      assert ids[i] == ids[j] <==> Group.Same(inp, i, j);
    }
    if |ids| > 0 {
      FirstIdZero(|ids|, ids, exts);
    }
    forall i: nat | i + 1 < |ids| ensures ids[i + 1] == ids[i] || ids[i + 1] == ids[i] + 1 {
      NextId(|ids|, ids, exts, i);
    }
  }

  lemma FirstIdZero(p: nat, ids: seq<nat>, exts: seq<nat>)
    requires |ids| == p > 0 && Group.FirstMembers(p, ids, exts)
    ensures ids[0] == 0
  {
    assert exts[ids[0]] == 0 && exts[0] < p;
  }

  lemma NextId(p: nat, ids: seq<nat>, exts: seq<nat>, i: nat)
    requires |ids| == p && Group.FirstMembers(p, ids, exts) && Group.SortedIds(ids) && i + 1 < p
    ensures ids[i + 1] == ids[i] || ids[i + 1] == ids[i] + 1
  {
    assert ids[i] <= ids[i + 1];
    if ids[i] + 1 < |exts| {
      var e := exts[ids[i] + 1];
      Later(ids, i, e);
      assert i + 1 < e ==> ids[i + 1] <= ids[e];
    }
  }

  lemma Later(ids: seq<nat>, i: nat, e: nat)
    requires Group.SortedIds(ids) && i < |ids| && e < |ids| && ids[i] < ids[e]
    ensures i < e
  {
  }

  // ------------------------------------------------------------------- BATsubsort

  datatype Option<T> = None | Some(value: T)

  function Identity(n: nat): (r: seq<nat>) { seq(n, i => i) }

  /** The order that is refined: o, or the order of the rows. */
  function OrderOf(o: Option<seq<nat>>, n: nat): seq<nat> { if o.Some? then o.value else Identity(n) }

  /** The groups that are sorted one by one: g, or all rows. */
  function GroupsOf(g: Option<seq<nat>>, n: nat): seq<nat> { if g.Some? then g.value else seq(n, i => 0) }

  predicate AllEqual(s: seq<int>) { forall i, j :: 0 <= i < j < |s| ==> s[i] == s[j] }

  lemma RunNext(g: seq<nat>, r: nat, p: nat)
    requires RunAt(g, r, p) && p < |g| && Group.SortedIds(g)
    ensures if g[p] == g[r] then RunAt(g, r, p + 1) else RunAt(g, p, p + 1)
  {
    assert g[p - 1] <= g[p];
  }

  lemma RunStart(g: seq<nat>, bn: seq<int>, reverse: bool)
    requires |g| == |bn| > 0
    ensures RunAt(g, 0, 1) && RunsOrdered(g, bn, 0, reverse)
  {
  }

  /** do_sort on one run. */
  method SortRun(values: seq<int>, g: seq<nat>, ghost o: seq<nat>, bn: array<int>, on: array<nat>, r: nat, p: nat,
      sort: Sorter, reverse: bool)
    requires |g| == bn.Length == on.Length && DoSortOk(sort) && Group.SortedIds(g) && RunAt(g, r, p)
    requires Permuted(values, g, o, bn[..], on[..]) && RunsOrdered(g, bn[..], r, reverse)
    modifies bn, on
    ensures Permuted(values, g, o, bn[..], on[..]) && RunsOrdered(g, bn[..], p, reverse)
  {
    hide Permuted, RunsOrdered, Group.SortedIds, OrderedPairs, Zip;
    assert r < p <= |g|;
    hide RunAt;
    ghost var b0, o0 := bn[..], on[..];
    SortSegment(bn, on, r, p, sort, reverse);
    assert b0[r..p] == old(bn[r..p]) && o0[r..p] == old(on[r..p]);
    assert bn[..][..r] == b0[..r] && bn[..][p..] == b0[p..] && on[..][..r] == o0[..r] && on[..][p..] == o0[p..];
    assert bn[..][r..p] == bn[r..p] && on[..][r..p] == on[r..p];
    SegmentPermuted(values, g, o, b0, o0, bn[..], on[..], r, p);
    SegmentOrdered(g, b0, o0, bn[..], on[..], r, p, reverse);
  }

  ghost predicate OneGroup(g: seq<nat>) { forall k :: 0 <= k < |g| ==> g[k] == g[0] }

  /** The loop over the runs of g; r is the start of the last one. */
  method SortRuns(values: seq<int>, g: seq<nat>, ghost o: seq<nat>, bn: array<int>, on: array<nat>, sort: Sorter,
      reverse: bool)
    returns (r: nat)
    requires |g| == bn.Length == on.Length > 0 && DoSortOk(sort) && Group.SortedIds(g)
    requires Permuted(values, g, o, bn[..], on[..])
    modifies bn, on
    ensures Permuted(values, g, o, bn[..], on[..]) && RunsOrdered(g, bn[..], |g|, reverse)
    ensures r == 0 <==> OneGroup(g)
  {
    hide Permuted, RunsOrdered, DoSortOk, Group.SortedIds;
    r := 0;
    var prev, p := g[0], 1;
    RunStart(g, bn[..], reverse);
    while p < |g|
      invariant r < p <= |g| && RunAt(g, r, p) && prev == g[r] && (r > 0 ==> g[r] != g[r - 1])
      invariant Permuted(values, g, o, bn[..], on[..]) && RunsOrdered(g, bn[..], r, reverse)
    {
      RunNext(g, r, p);
      if g[p] != prev {
        SortRun(values, g, o, bn, on, r, p, sort, reverse);
        r := p;
        prev := g[p];
      }
      p := p + 1;
    }
    SortRun(values, g, o, bn, on, r, p, sort, reverse);
  }

  /** Does the shortcut for ordered columns apply? It does not look at `reverse`. */
  predicate Shortcut(n: nat, tordered: bool, o: Option<seq<nat>>, g: Option<seq<nat>>, groups: bool) {
    n > 1 && tordered && o.None? && g.None? && !groups
  }

  /** An ascending column that is returned as it is has the order asked for iff that is ascending, or it is constant. */
  lemma ShortcutExact(values: seq<int>, reverse: bool)
    requires Group.Sorted(values)
    ensures RunsOrdered(GroupsOf(None, |values|), values, |values|, reverse) <==> !reverse || AllEqual(values)
  {
    var g := GroupsOf(None, |values|);
    if RunsOrdered(g, values, |values|, reverse) && reverse {
      forall i, j | 0 <= i < j < |values| ensures values[i] == values[j] {
        assert g[i] == g[j];
        assert !Before(values[j], values[i], reverse);
      }
    }
  }

  /** So BATsubsort of [1, 2] in descending order, without groups, leaves it ascending. */
  lemma DescendingShortcutFails()
    ensures Group.Sorted([1, 2]) && Shortcut(2, true, None, None, false)
    ensures !RunsOrdered(GroupsOf(None, 2), [1, 2], 2, true)
  {
    var values := [1, 2];
    ShortcutExact(values, true);
    assert values[0] != values[1];
  }

  lemma TrivialOrder(values: seq<int>, o: Option<seq<nat>>, g: Option<seq<nat>>, reverse: bool)
    requires |values| <= 1 || (o.None? && g.None?)
    requires (o.Some? ==> |o.value| == |values| && forall x :: x in o.value ==> x < |values|)
      && (g.Some? ==> |g.value| == |values|)
    ensures var n := |values|;
      Permuted(values, GroupsOf(g, n), OrderOf(o, n), values, Identity(n))
    ensures var n := |values|;
      n <= 1 ==>
        && RunsOrdered(GroupsOf(g, n), values, n, reverse)
        && RefinedGroups(GroupsOf(g, n), values, Identity(n)) && Consecutive(Identity(n))
  {
    var n, os := |values|, OrderOf(o, |values|);
    assert os == Identity(n) by {
      if n == 1 && o.Some? {
        assert o.value[0] in o.value;
      }
    }
    forall i: nat | i < n ensures FromRun(GroupsOf(g, n), os, Identity(n)[i], GroupsOf(g, n)[i]) {
      assert os[i] == i;
    }
  }

  lemma StartPermuted(values: seq<int>, g: seq<nat>, o: seq<nat>, bn: seq<int>, on: seq<nat>)
    requires |g| == |o| == |bn| && on == o && (forall i :: 0 <= i < |o| ==> o[i] < |values| && bn[i] == values[o[i]])
    ensures Permuted(values, g, o, bn, on)
  {
  }

  lemma KeyRuns(g: seq<nat>, bn: seq<int>, reverse: bool)
    requires |g| == |bn| && Group.SortedIds(g) && forall i, j :: 0 <= i < j < |g| ==> g[i] != g[j]
    ensures RunsOrdered(g, bn, |g|, reverse) && RefinedGroups(g, bn, g)
  {
  }

  lemma OneRun(g: seq<nat>, bn: seq<int>, reverse: bool)
    requires |g| == |bn| > 0 && forall i :: 0 <= i < |g| ==> g[i] == 0
    ensures RunAt(g, 0, |g|) && RunsOrdered(g, bn, 0, reverse) && Group.SortedIds(g)
  {
  }

  lemma FlagsTrue(g: seq<nat>, bn: seq<int>, reverse: bool)
    requires |g| == |bn| && RunsOrdered(g, bn, |g|, reverse)
    ensures OneGroup(g) ==> if reverse then Group.RevSorted(bn) else Group.Sorted(bn)
  {
  }

  /** BATgroup_internal on the sorted rows, with its subsorted flag. */
  method NewGroups(bn: seq<int>, g: Option<seq<nat>>, reverse: bool) returns (gn: seq<nat>)
    requires |bn| > 0 && (g.Some? ==> |g.value| == |bn| && Group.SortedIds(g.value))
    requires RunsOrdered(GroupsOf(g, |bn|), bn, |bn|, reverse)
    ensures RefinedGroups(GroupsOf(g, |bn|), bn, gn) && Consecutive(gn)
  {
    hide RunsOrdered, Group.SortedIds, RefinedGroups, Consecutive, Group.IsGrouping, Group.Clustered;
    ghost var gs := GroupsOf(g, |bn|);
    var inp := Group.Input(bn, g.Some?, if g.Some? then g.value else []);
    if g.None? {
      OneRun(gs, bn, reverse);
    }
    ClusteredAfter(inp, gs, reverse);
    var gr := new Group.Grouper(inp, Group.StartCapacity(|bn|, Group.None, Group.None, 8));
    gr.Consecutive();
    gn := gr.ngrps[..];
    assert gr.ngrps[..|bn|] == gn;
    GroupsRefined(inp, gs, gn, gr.exts[..gr.ngrp], gr.cnts[..gr.ngrp]);
  }

  lemma IdentityBelow(n: nat)
    ensures forall x :: x in Identity(n) ==> x < n
  {
  }

  /** BATsubsort after its shortcut: b is fetched in the order os, and sorted in place. */
  method Refine(values: seq<int>, os: seq<nat>, g: Option<seq<nat>>, gkey: bool, groups: bool, reverse: bool,
      sort: Sorter)
    returns (bn: seq<int>, on: seq<nat>, gn: seq<nat>, tsorted: bool, trevsorted: bool)
    requires DoSortOk(sort) && |os| == |values| > 0 && forall x :: x in os ==> x < |values|
    requires g.Some? ==> |g.value| == |values| && Group.SortedIds(g.value)
    requires g.Some? && gkey ==> forall i, j :: 0 <= i < j < |g.value| ==> g.value[i] != g.value[j]
    ensures var n := |values|;
      Permuted(values, GroupsOf(g, n), os, bn, on) && RunsOrdered(GroupsOf(g, n), bn, n, reverse)
    ensures groups ==>
      RefinedGroups(GroupsOf(g, |values|), bn, gn) && ((g.None? || Consecutive(g.value)) ==> Consecutive(gn))
    ensures (tsorted ==> Group.Sorted(bn)) && (trevsorted ==> Group.RevSorted(bn))
    ensures !(g.Some? && gkey) ==>
      (tsorted <==> !reverse && OneGroup(GroupsOf(g, |values|)))
      && (trevsorted <==> reverse && OneGroup(GroupsOf(g, |values|)))
  {
    hide DoSortOk, Permuted, RunsOrdered, Group.Sorted, Group.RevSorted, RefinedGroups, Consecutive, Group.SortedIds;
    var n := |values|;
    assert forall i :: 0 <= i < n ==> os[i] in os;
    var ba, oa := new int[n](i requires 0 <= i < n => values[os[i]]), new nat[n](i requires 0 <= i < n => os[i]);
    assert oa[..] == os;
    gn, tsorted, trevsorted := [], false, false;
    StartPermuted(values, GroupsOf(g, n), os, ba[..], oa[..]);
    if g.Some? {
      if gkey {
        bn, on, gn := ba[..], oa[..], g.value;
        KeyRuns(g.value, bn, reverse);
        return;
      }
      var r := SortRuns(values, g.value, os, ba, oa, sort, reverse);
      tsorted, trevsorted := r == 0 && !reverse, r == 0 && reverse;
    } else {
      OneRun(GroupsOf(g, n), ba[..], reverse);
      SortRun(values, GroupsOf(g, n), os, ba, oa, 0, n, sort, reverse);
      tsorted, trevsorted := !reverse, reverse;
    }
    bn, on := ba[..], oa[..];
    FlagsTrue(GroupsOf(g, n), bn, reverse);
    if groups {
      gn := NewGroups(bn, g, reverse);
    }
  }

  /** What becomes of the arguments; `Crash` is a read through a null pointer. */
  datatype Verdict = Refused | Accepted | Crash

  /** The tests at the start of BATsubsort. The size test of g looks at o. */
  function Check(n: nat, o: Option<seq<nat>>, g: Option<seq<nat>>, gsorted: bool): Verdict {
    if o.Some? && |o.value| != n then Refused
    else if g.None? then Accepted
    else if !gsorted then Refused
    else if o.None? then Crash
    else if |o.value| != n then Refused
    else Accepted
  }

  /** What they are meant to test: o and g are optional, of the size of b, and g is sorted. */
  predicate WellFormed(n: nat, o: Option<seq<nat>>, g: Option<seq<nat>>, gsorted: bool) {
    (o.Some? ==> |o.value| == n) && (g.Some? ==> gsorted && |g.value| == n)
  }

  /** The tests do what they are meant to iff a sorted g comes with an o, and with the size of b. */
  lemma CheckExact(n: nat, o: Option<seq<nat>>, g: Option<seq<nat>>, gsorted: bool)
    ensures Check(n, o, g, gsorted) == (if WellFormed(n, o, g, gsorted) then Accepted else Refused)
      <==> (g.Some? && gsorted && (o.Some? ==> |o.value| == n) ==> o.Some? && |g.value| == n)
  {
  }

  /** Groups without an order crash, and one group for two rows is accepted. */
  lemma CheckFails()
    ensures WellFormed(2, None, Some([0, 0]), true) && Check(2, None, Some([0, 0]), true) == Crash
    ensures !WellFormed(2, Some([0, 1]), Some([0]), true) && Check(2, Some([0, 1]), Some([0]), true) == Accepted
  {
  }

  /**
   BATsubsort: the rows, in the order o, are sorted within the runs of g. gkey tells that g is
   known to have no equal values, gsorted that it is known to be sorted, and `groups` whether
   new groups are asked for. With arguments as they are meant to be, the result is in the order
   asked for exactly if the shortcut for ordered columns did not meet a request for descending
   order.
   */
  method SubSort(values: seq<int>, tordered: bool, o: Option<seq<nat>>, g: Option<seq<nat>>, gsorted: bool, gkey: bool,
                 groups: bool, reverse: bool, sort: Sorter)
    returns (verdict: Verdict, bn: seq<int>, on: seq<nat>, gn: seq<nat>, tsorted: bool, trevsorted: bool)
    requires DoSortOk(sort) && (tordered ==> Group.Sorted(values))
    requires o.Some? ==> forall x :: x in o.value ==> x < |values|
    requires g.Some? && gsorted ==> Group.SortedIds(g.value)
    requires g.Some? && gkey ==> forall i, j :: 0 <= i < j < |g.value| ==> g.value[i] != g.value[j]
    ensures verdict == Check(|values|, o, g, gsorted)
    ensures verdict.Accepted? && WellFormed(|values|, o, g, gsorted) ==> var n := |values|;
      && |OrderOf(o, n)| == n && Permuted(values, GroupsOf(g, n), OrderOf(o, n), bn, on)
      && (RunsOrdered(GroupsOf(g, n), bn, n, reverse) <==>
        !(Shortcut(n, tordered, o, g, groups) && reverse && !AllEqual(values)))
      && (groups ==> RefinedGroups(GroupsOf(g, n), bn, gn) && ((g.None? || Consecutive(g.value)) ==> Consecutive(gn)))
    ensures verdict.Accepted? && WellFormed(|values|, o, g, gsorted) ==>
      (tsorted ==> Group.Sorted(bn)) && (trevsorted ==> Group.RevSorted(bn))
    ensures verdict.Accepted? && WellFormed(|values|, o, g, gsorted) && |values| > 1 && !(g.Some? && gkey) ==>
      var one := OneGroup(GroupsOf(g, |values|));
      if Shortcut(|values|, tordered, o, g, groups) then tsorted
      else (tsorted <==> !reverse && one) && (trevsorted <==> reverse && one)
  {
    var n := |values|;
    verdict := Check(n, o, g, gsorted);
    bn, on, gn, tsorted, trevsorted := [], [], [], false, false;
    if !verdict.Accepted? || (g.Some? && |g.value| != n) {
      return;
    }
    if n <= 1 || (tordered && o.None? && g.None? && !groups) {
      bn, on, gn, tsorted := values, Identity(n), Identity(n), tordered;
      TrivialOrder(values, o, g, reverse);
      if n > 1 {
        ShortcutExact(values, reverse);
      }
      return;
    }
    hide DoSortOk, Permuted, RunsOrdered, Group.Sorted, Group.RevSorted, Group.SortedIds, RefinedGroups, Consecutive,
      AllEqual;
    IdentityBelow(n);
    bn, on, gn, tsorted, trevsorted := Refine(values, OrderOf(o, n), g, gkey, groups, reverse, sort);
  }

  // -------------------------------------------------------------- several columns

  datatype Column = Column(values: seq<int>, reverse: bool, ordered: bool)

  ghost predicate ColumnsOk(cols: seq<Column>, n: nat) {
    forall c :: c in cols ==> |c.values| == n && (c.ordered ==> Group.Sorted(c.values))
  }

  /** Rows x and y agree on all columns. */
  ghost predicate EqualRows(cols: seq<Column>, n: nat, x: nat, y: nat)
    requires ColumnsOk(cols, n) && x < n && y < n
  {
    forall c :: c in cols ==> c.values[x] == c.values[y]
  }

  /** Row x comes before row y: on the first column where they differ, in that column's direction. */
  ghost predicate LessRow(cols: seq<Column>, n: nat, x: nat, y: nat)
    requires ColumnsOk(cols, n) && x < n && y < n
    decreases |cols|
  {
    cols != [] &&
    var first, c := cols[..|cols| - 1], cols[|cols| - 1];
    LessRow(first, n, x, y) || (EqualRows(first, n, x, y) && Before(c.values[x], c.values[y], c.reverse))
  }

  lemma {:induction false} LessNotEqual(cols: seq<Column>, n: nat, x: nat, y: nat)
    requires ColumnsOk(cols, n) && x < n && y < n && LessRow(cols, n, x, y)
    ensures !EqualRows(cols, n, x, y)
    decreases |cols|
  {
    var first := cols[..|cols| - 1];
    assert cols == first + [cols[|cols| - 1]];
    if LessRow(first, n, x, y) {
      LessNotEqual(first, n, x, y);
    }
  }

  lemma {:induction false} LessAsymmetric(cols: seq<Column>, n: nat, x: nat, y: nat)
    requires ColumnsOk(cols, n) && x < n && y < n && LessRow(cols, n, x, y)
    ensures !LessRow(cols, n, y, x)
    decreases |cols|
  {
    var first := cols[..|cols| - 1];
    assert cols == first + [cols[|cols| - 1]];
    if LessRow(first, n, x, y) {
      LessAsymmetric(first, n, x, y);
      LessNotEqual(first, n, x, y);
      assert EqualRows(first, n, x, y) <==> EqualRows(first, n, y, x);
    } else if LessRow(first, n, y, x) {
      LessNotEqual(first, n, y, x);
    }
  }

  /** Positions i < j hold equal rows of one group, or rows in order of different groups. */
  ghost predicate RankedAt(cols: seq<Column>, n: nat, o: seq<nat>, g: seq<nat>, i: nat, j: nat)
    requires ColumnsOk(cols, n) && i < j < |o| == |g| && o[i] < n && o[j] < n
  {
    if g[i] == g[j] then EqualRows(cols, n, o[i], o[j]) else LessRow(cols, n, o[i], o[j])
  }

  ghost predicate RowsOk(o: seq<nat>, n: nat) {
    |o| == n && multiset(o) == multiset(Identity(n)) && forall i :: 0 <= i < n ==> o[i] < n
  }

  /** o sorts the rows by cols, and g numbers the runs of equal rows. */
  ghost predicate Ranked(cols: seq<Column>, n: nat, o: seq<nat>, g: seq<nat>)
    requires ColumnsOk(cols, n)
  {
    && RowsOk(o, n) && |g| == n && Group.SortedIds(g)
    && forall i: nat, j: nat {:trigger RankedAt(cols, n, o, g, i, j)} :: i < j < n ==> RankedAt(cols, n, o, g, i, j)
  }

  lemma RankedPair(cols: seq<Column>, n: nat, o: seq<nat>, g: seq<nat>, i: nat, j: nat)
    requires ColumnsOk(cols, n) && Ranked(cols, n, o, g) && i < n && j < n
    ensures g[i] == g[j] ==> EqualRows(cols, n, o[i], o[j])
    ensures g[i] < g[j] ==> LessRow(cols, n, o[i], o[j])
  {
    assert i < j ==> RankedAt(cols, n, o, g, i, j);
    assert j < i ==> RankedAt(cols, n, o, g, j, i);
  }

  /** Sorting the groups by one more column ranks the rows by the columns and that one. */
  lemma StepRankedAt(cols: seq<Column>, c: Column, n: nat, o: seq<nat>, g: seq<nat>, bn: seq<int>, on: seq<nat>,
      gn: seq<nat>, i: nat, j: nat)
    requires ColumnsOk(cols, n) && ColumnsOk(cols + [c], n) && Ranked(cols, n, o, g) && i < j < n
    requires Permuted(c.values, g, o, bn, on) && RunsOrdered(g, bn, n, c.reverse) && RefinedGroups(g, bn, gn)
    ensures RankedAt(cols + [c], n, on, gn, i, j)
  {
    assert c in cols + [c];
    assert (cols + [c])[..|cols|] == cols;
    assert FromRun(g, o, on[i], g[i]) && FromRun(g, o, on[j], g[j]);
    var i0: nat :| i0 < n && g[i0] == g[i] && o[i0] == on[i];
    var j0: nat :| j0 < n && g[j0] == g[j] && o[j0] == on[j];
    hide Ranked, Permuted, FromRun, LessRow;
    RankedPair(cols, n, o, g, i0, j0);
    LessWith(cols, c, n, on[i], on[j]);
    assert gn[i] <= gn[j] && g[i] <= g[j];
  }

  lemma LessWith(cols: seq<Column>, c: Column, n: nat, x: nat, y: nat)
    requires ColumnsOk(cols, n) && ColumnsOk(cols + [c], n) && x < n && y < n && |c.values| == n
    ensures LessRow(cols + [c], n, x, y) <==>
      LessRow(cols, n, x, y) || (EqualRows(cols, n, x, y) && Before(c.values[x], c.values[y], c.reverse))
  {
    assert (cols + [c])[..|cols|] == cols;
  }

  lemma StepRanked(cols: seq<Column>, c: Column, n: nat, o: seq<nat>, g: seq<nat>, bn: seq<int>, on: seq<nat>,
      gn: seq<nat>)
    requires ColumnsOk(cols, n) && ColumnsOk(cols + [c], n) && Ranked(cols, n, o, g)
    requires |c.values| == n && |g| == n && Permuted(c.values, g, o, bn, on) && RunsOrdered(g, bn, n, c.reverse)
      && RefinedGroups(g, bn, gn)
    ensures Ranked(cols + [c], n, on, gn)
  {
    hide RankedAt, ColumnsOk;
    var cols' := cols + [c];
    forall i: nat, j: nat | i < j < n ensures RankedAt(cols', n, on, gn, i, j) {
      StepRankedAt(cols, c, n, o, g, bn, on, gn, i, j);
    }
  }

  lemma StartRanked(n: nat)
    ensures Ranked([], n, Identity(n), GroupsOf(None, n))
  {
  }

  lemma KeyGroups(g: seq<nat>)
    requires |g| > 0 && Group.SortedIds(g) && Consecutive(g) && g[|g| - 1] + 1 == |g|
    ensures forall i, j :: 0 <= i < j < |g| ==> g[i] != g[j]
  {
    for k := 0 to |g|
      invariant forall i :: 0 <= i < k ==> g[i] <= i
    {
      assert k > 0 ==> g[k] <= g[k - 1] + 1;
    }
    var k := |g| - 1;
    while k > 0
      invariant 0 <= k < |g| && forall i :: k <= i < |g| ==> g[i] >= i
    {
      assert g[k] <= g[k - 1] + 1;
      k := k - 1;
    }
  }

  /** What being ranked means for two positions. */
  lemma RankedMeans(cols: seq<Column>, n: nat, o: seq<nat>, g: seq<nat>, i: nat, j: nat)
    requires ColumnsOk(cols, n) && Ranked(cols, n, o, g) && i < j < n
    ensures !LessRow(cols, n, o[j], o[i])
    ensures g[i] == g[j] <==> EqualRows(cols, n, o[i], o[j])
  {
    hide LessRow, EqualRows;
    assert RankedAt(cols, n, o, g, i, j);
    if g[i] == g[j] {
      EqualNotLess(cols, n, o[i], o[j]);
    } else {
      LessAsymmetric(cols, n, o[i], o[j]);
      LessNotEqual(cols, n, o[i], o[j]);
    }
  }

  lemma EqualNotLess(cols: seq<Column>, n: nat, x: nat, y: nat)
    requires ColumnsOk(cols, n) && x < n && y < n && EqualRows(cols, n, x, y)
    ensures !LessRow(cols, n, y, x)
  {
    if LessRow(cols, n, y, x) {
      LessNotEqual(cols, n, y, x);
    }
  }

  /**
   BATsubsort called for one column after the other, with order and groups passed along: the
   final order sorts the rows lexicographically, each column in its own direction, and the
   final groups are the runs of equal rows, numbered from 0.
   */
  method SortColumns(cols: seq<Column>, n: nat, sort: Sorter) returns (on: seq<nat>, gn: seq<nat>)
    requires cols != [] && ColumnsOk(cols, n) && DoSortOk(sort)
    ensures RowsOk(on, n) && |gn| == n && Group.SortedIds(gn) && Consecutive(gn)
    ensures forall i: nat, j: nat :: i < j < n ==> !LessRow(cols, n, on[j], on[i])
    ensures forall i: nat, j: nat :: i < j < n ==> (gn[i] == gn[j] <==> EqualRows(cols, n, on[i], on[j]))
  {
    hide DoSortOk, Permuted, RunsOrdered, RefinedGroups, Group.Sorted, Group.RevSorted, RankedAt, LessRow, EqualRows,
      Consecutive;
    var o: Option<seq<nat>>, g: Option<seq<nat>> := None, None;
    on, gn := [], [];
    StartRanked(n);
    for k := 0 to |cols|
      invariant ColumnsOk(cols[..k], n)
      invariant if k == 0 then o == None && g == None else o == Some(on) && g == Some(gn) && Consecutive(gn)
      invariant Ranked(cols[..k], n, OrderOf(o, n), GroupsOf(g, n))
    {
      var c := cols[k];
      assert cols[..k + 1] == cols[..k] + [c] && c in cols;
      ghost var o0, g0 := OrderOf(o, n), GroupsOf(g, n);
      var gkey := g.Some? && n > 0 && gn[n - 1] + 1 == n;
      if gkey {
        KeyGroups(gn);
      }
      var verdict, bn, tsorted, trevsorted;
      verdict, bn, on, gn, tsorted, trevsorted := SubSort(c.values, c.ordered, o, g, true, gkey, true, c.reverse, sort);
      StepRanked(cols[..k], c, n, o0, g0, bn, on, gn);
      o, g := Some(on), Some(gn);
    }
    assert cols[..|cols|] == cols;
    forall i: nat, j: nat | i < j < n
      ensures !LessRow(cols, n, on[j], on[i]) && (gn[i] == gn[j] <==> EqualRows(cols, n, on[i], on[j]))
    {
      RankedMeans(cols, n, on, gn, i, j);
    }
  }
}
