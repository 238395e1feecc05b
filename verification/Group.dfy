/**
 The grouping algorithms of BATgroup_internal (gdk_group.c). Each refines one definition: rows
 are in the same group iff they agree on the value and on the prior group, and groups are
 numbered by first appearance. Positions stand for oids, less b's hseqbase.
 */
module Group {

  /** The column b, and the prior grouping g if there is one. */
  datatype Input = Input(b: seq<int>, grouped: bool, g: seq<nat>)

  ghost predicate InputOk(inp: Input) { inp.grouped ==> |inp.g| == |inp.b| }

  predicate Same(inp: Input, i: nat, j: nat)
    requires InputOk(inp) && i < |inp.b| && j < |inp.b|
  {
    inp.b[i] == inp.b[j] && (inp.grouped ==> inp.g[i] == inp.g[j])
  }

  // ----------------------------------------------------------------- specification

  /** Two of the first p rows have the same id iff they are the same. */
  ghost predicate Distinguishes(inp: Input, p: nat, ids: seq<nat>)
    requires InputOk(inp) && p <= |inp.b| && |ids| == p
  {
    forall i: nat, j: nat {:trigger Same(inp, i, j)} :: i < p && j < p ==> (ids[i] == ids[j] <==> Same(inp, i, j))
  }

  /** exts[k] is the first row of group k, and groups are numbered by it. */
  ghost predicate FirstMembers(p: nat, ids: seq<nat>, exts: seq<nat>)
    requires |ids| == p
  {
    && (forall i :: 0 <= i < p ==> ids[i] < |exts| && exts[ids[i]] <= i)
    && (forall k :: 0 <= k < |exts| ==> exts[k] < p && ids[exts[k]] == k)
    && (forall k, l :: 0 <= k < l < |exts| ==> exts[k] < exts[l])
  }

  ghost predicate Counts(ids: seq<nat>, cnts: seq<nat>) {
    forall k :: 0 <= k < |cnts| ==> cnts[k] == multiset(ids)[k]
  }

  /** ids, exts and cnts are the groups, extents and histogram of the first p rows. */
  ghost predicate IsGrouping(inp: Input, p: nat, ids: seq<nat>, exts: seq<nat>, cnts: seq<nat>) {
    && InputOk(inp) && p <= |inp.b| && |ids| == p && |cnts| == |exts|
    && Distinguishes(inp, p, ids) && FirstMembers(p, ids, exts) && Counts(ids, cnts)
  }

  ghost predicate Sorted(s: seq<int>) { forall i, j :: 0 <= i < j < |s| ==> s[i] <= s[j] }

  ghost predicate RevSorted(s: seq<int>) { forall i, j :: 0 <= i < j < |s| ==> s[i] >= s[j] }

  ghost predicate SortedIds(s: seq<nat>) { forall i, j :: 0 <= i < j < |s| ==> s[i] <= s[j] }

  /** No more groups than rows. */
  lemma {:induction false} ExtentBound(p: nat, ids: seq<nat>, exts: seq<nat>, k: nat)
    requires |ids| == p && FirstMembers(p, ids, exts) && k < |exts|
    ensures exts[k] >= k && |exts| <= p
  {
    for l := 0 to |exts|
      invariant forall j :: 0 <= j < l ==> exts[j] >= j
    {
      assert l > 0 ==> exts[l - 1] < exts[l];
    }
    assert exts[|exts| - 1] < p;
  }

  ghost predicate Increasing(a: seq<nat>) { forall k, l :: 0 <= k < l < |a| ==> a[k] < a[l] }

  lemma BothEmpty(a: seq<nat>, b: seq<nat>)
    requires forall x :: x in a <==> x in b
    ensures a == [] <==> b == []
  {
    if a != [] {
      assert a[0] in b;
    }
    if b != [] {
      assert b[0] in a;
    }
  }

  lemma {:induction false} SameIncreasing(a: seq<nat>, b: seq<nat>)
    requires Increasing(a) && Increasing(b) && (forall x :: x in a <==> x in b)
    ensures a == b
  {
    BothEmpty(a, b);
    if a != [] {
      var m, n := |a| - 1, |b| - 1;
      assert a[m] in b && b[n] in a;
      assert a[m] == b[n];
      var a', b' := a[..m], b[..n];
      forall x ensures x in a' <==> x in b' {
        assert x in a <==> x in a' || x == a[m];
        assert x in b <==> x in b' || x == b[n];
      }
      SameIncreasing(a', b');
      assert a == a' + [a[m]] && b == b' + [b[n]];
    }
  }

  ghost predicate IsFirst(inp: Input, x: nat)
    requires InputOk(inp) && x < |inp.b|
  {
    forall j: nat {:trigger Same(inp, j, x)} :: j < x ==> !Same(inp, j, x)
  }

  /** The extents are the rows without an equal before them. */
  lemma ExtentsAreFirst(inp: Input, p: nat, ids: seq<nat>, exts: seq<nat>, x: nat)
    requires InputOk(inp) && p <= |inp.b| && |ids| == p && Distinguishes(inp, p, ids) && FirstMembers(p, ids, exts)
    ensures x in exts <==> x < p && IsFirst(inp, x)
  {
    hide Same;
    if x < p {
      var e := exts[ids[x]];
      assert Same(inp, e, x);
    }
  }

  /** All algorithms that compute a grouping give the same result. */
  lemma Unique(inp: Input, p: nat, ids: seq<nat>, exts: seq<nat>, cnts: seq<nat>, ids': seq<nat>, exts': seq<nat>,
      cnts': seq<nat>)
    requires IsGrouping(inp, p, ids, exts, cnts) && IsGrouping(inp, p, ids', exts', cnts')
    ensures ids == ids' && exts == exts' && cnts == cnts'
  {
    hide Same;
    forall x: nat ensures x in exts <==> x in exts' {
      ExtentsAreFirst(inp, p, ids, exts, x);
      ExtentsAreFirst(inp, p, ids', exts', x);
    }
    SameIncreasing(exts, exts');
    forall i: nat | i < p ensures ids[i] == ids'[i] {
      assert Same(inp, exts[ids[i]], i);
    }
    assert ids == ids';
  }

  function Sum(s: seq<nat>): nat { if s == [] then 0 else Sum(s[..|s| - 1]) + s[|s| - 1] }

  lemma {:induction false} SumUpdate(s: seq<nat>, k: nat, x: nat)
    requires k < |s|
    ensures Sum(s[k := x]) + s[k] == Sum(s) + x
  {
    var n, s' := |s| - 1, s[k := x];
    if k == n {
      assert s'[..n] == s[..n];
    } else {
      SumUpdate(s[..n], k, x);
      assert s'[..n] == s[..n][k := x] && s'[n] == s[n];
    }
  }

  lemma {:induction false} SumZero(s: seq<nat>)
    requires forall k :: 0 <= k < |s| ==> s[k] == 0
    ensures Sum(s) == 0
  {
    if s != [] {
      SumZero(s[..|s| - 1]);
    }
  }

  lemma CountsWithoutLast(ids: seq<nat>, cnts: seq<nat>)
    requires ids != [] && ids[|ids| - 1] < |cnts| && Counts(ids, cnts)
    ensures var k := ids[|ids| - 1]; cnts[k] > 0 && Counts(ids[..|ids| - 1], cnts[k := cnts[k] - 1])
  {
    assert ids == ids[..|ids| - 1] + [ids[|ids| - 1]];
  }

  /** The histogram adds up to the number of rows. */
  lemma {:induction false} HistogramSum(ids: seq<nat>, cnts: seq<nat>)
    requires (forall i :: 0 <= i < |ids| ==> ids[i] < |cnts|) && Counts(ids, cnts)
    ensures Sum(cnts) == |ids|
  {
    if ids == [] {
      SumZero(cnts);
    } else {
      var n := |ids| - 1;
      var k := ids[n];
      CountsWithoutLast(ids, cnts);
      var cnts' := cnts[k := cnts[k] - 1];
      HistogramSum(ids[..n], cnts');
      SumUpdate(cnts, k, cnts[k] - 1);
    }
  }

  // ------------------------------------------------------------------------- steps

  /** A row without an equal before it starts a new group. */
  lemma AddNew(inp: Input, p: nat, ids: seq<nat>, exts: seq<nat>, cnts: seq<nat>)
    requires IsGrouping(inp, p, ids, exts, cnts) && p < |inp.b| && IsFirst(inp, p)
    ensures IsGrouping(inp, p + 1, ids + [|exts|], exts + [p], cnts + [1])
    ensures SortedIds(ids + [|exts|]) <==> SortedIds(ids)
  {
    hide Same;
    var ids': seq<nat> := ids + [|exts|];
    var exts': seq<nat> := exts + [p];
    forall i: nat, j: nat | i < p + 1 && j < p + 1 ensures ids'[i] == ids'[j] <==> Same(inp, i, j) {
      SameSym(inp, i, j);
      SameSym(inp, i, i);
      assert i < p ==> !Same(inp, i, p);
      assert j < p ==> !Same(inp, j, p);
    }
    assert ids == ids'[..p];
    assert multiset(ids') == multiset(ids) + multiset([|exts|]);
    forall i | 0 <= i < p ensures ids[i] != |exts| {
    }
    assert |exts| !in ids;
  }

  /** A row with an equal before it joins that row's group. */
  lemma AddOld(inp: Input, p: nat, ids: seq<nat>, exts: seq<nat>, cnts: seq<nat>, hb: nat)
    requires IsGrouping(inp, p, ids, exts, cnts) && p < |inp.b| && hb < p && Same(inp, hb, p)
    ensures var k := ids[hb];
      k < |cnts| && IsGrouping(inp, p + 1, ids + [k], exts, cnts[k := cnts[k] + 1])
      && (SortedIds(ids + [k]) <==> SortedIds(ids) && k == |exts| - 1)
  {
    hide Same;
    var k := ids[hb];
    var ids': seq<nat> := ids + [k];
    forall i: nat, j: nat | i < p + 1 && j < p + 1 ensures ids'[i] == ids'[j] <==> Same(inp, i, j) {
      SameTrans(inp, i, j, p, hb);
    }
    assert ids == ids'[..p];
    assert multiset(ids') == multiset(ids) + multiset{k};
    SortedWith(p, ids, exts, k);
  }

  lemma SortedWith(p: nat, ids: seq<nat>, exts: seq<nat>, k: nat)
    requires |ids| == p && FirstMembers(p, ids, exts) && p > 0 && k < |exts|
    ensures SortedIds(ids + [k]) <==> SortedIds(ids) && k == |exts| - 1
  {
    var ids': seq<nat> := ids + [k];
    SortedLast(p, ids, exts);
    assert SortedIds(ids) && k == |exts| - 1 ==> SortedIds(ids');
    assert SortedIds(ids') ==> SortedIds(ids) by {
      forall i, j | SortedIds(ids') && 0 <= i < j < p ensures ids[i] <= ids[j] {
        assert ids'[i] <= ids'[j];
      }
    }
    assert SortedIds(ids') ==> k == |exts| - 1 by {
      var e := exts[|exts| - 1];
      assert SortedIds(ids') ==> ids'[e] <= ids'[p];
    }
  }

  lemma SameSym(inp: Input, i: nat, j: nat)
    requires InputOk(inp) && i < |inp.b| && j < |inp.b|
    ensures Same(inp, i, j) <==> Same(inp, j, i)
    ensures Same(inp, i, i)
  {
  }

  lemma SameTrans(inp: Input, i: nat, j: nat, p: nat, hb: nat)
    requires InputOk(inp) && i < |inp.b| && j < |inp.b| && p < |inp.b| && hb < |inp.b| && Same(inp, hb, p)
    ensures Same(inp, i, p) <==> Same(inp, i, hb)
    ensures Same(inp, p, j) <==> Same(inp, hb, j)
    ensures Same(inp, i, i)
  {
  }

  lemma SortedLast(p: nat, ids: seq<nat>, exts: seq<nat>)
    requires |ids| == p && FirstMembers(p, ids, exts) && p > 0
    ensures exts != [] && (SortedIds(ids) ==> ids[p - 1] == |exts| - 1)
  {
    var e := exts[|exts| - 1];
    assert SortedIds(ids) && e < p - 1 ==> ids[e] <= ids[p - 1];
  }

  // -------------------------------------------------------------------- the output

  /** The result columns while they are being filled. */
  class Grouper {
    const inp: Input
    const ngrps: array<nat>
    var exts: array<nat>
    var cnts: array<nat>
    var ngrp: nat
    var maxgrps: nat
    var tsorted: bool
    ghost var extensions: nat

    ghost predicate Shape()
      reads this
    {
      && InputOk(inp) && ngrps.Length == |inp.b| && ngrps != exts && ngrps != cnts && exts != cnts
      && exts.Length == maxgrps && cnts.Length == maxgrps && ngrp <= maxgrps
      && extensions <= 1 && (extensions == 1 ==> maxgrps == |inp.b|)
    }

    /** The first p rows are grouped. */
    ghost predicate Done(p: nat)
      reads this, ngrps, exts, cnts
    {
      Shape() && p <= |inp.b| && IsGrouping(inp, p, ngrps[..p], exts[..ngrp], cnts[..ngrp])
    }

    /** tsorted says whether the ids so far are in order. */
    ghost predicate SortedOk(p: nat)
      requires ngrps.Length >= p
      reads this, ngrps
    {
      tsorted <==> SortedIds(ngrps[..p])
    }

    constructor (inp: Input, maxgrps: nat)
      requires InputOk(inp)
      ensures Done(0) && tsorted && this.inp == inp && extensions == 0 && fresh(ngrps) && fresh(exts) && fresh(cnts)
    {
      this.inp := inp;
      ngrps := new nat[|inp.b|];
      exts := new nat[maxgrps];
      cnts := new nat[maxgrps];
      ngrp, this.maxgrps, tsorted, extensions := 0, maxgrps, true, 0;
    }

    /** Extents and histogram are extended when they are full, and then to the number of rows. */
    method MakeRoom(ghost p: nat)
      requires Shape() && ngrp <= p < |inp.b|
      modifies this`exts, this`cnts, this`maxgrps, this`extensions
      ensures Shape() && ngrp < maxgrps && exts[..ngrp] == old(exts[..ngrp]) && cnts[..ngrp] == old(cnts[..ngrp])
      ensures (exts == old(exts) && cnts == old(cnts)) || (fresh(exts) && fresh(cnts))
    {
      if ngrp == maxgrps {
        maxgrps := |inp.b|;
        exts := Extended(exts, ngrp, maxgrps);
        cnts := Extended(cnts, ngrp, maxgrps);
        extensions := extensions + 1;
      }
    }

    /** GRPnotfound: row p starts a new group. Extents and histogram are extended at most once. */
    method NotFound(p: nat)
      requires Done(p) && p < |inp.b| && IsFirst(inp, p)
      modifies this, ngrps, exts, cnts
      ensures Done(p + 1)
      ensures (exts == old(exts) && cnts == old(cnts)) || (fresh(exts) && fresh(cnts))
      ensures tsorted == old(tsorted) && (SortedIds(ngrps[..p + 1]) <==> old(SortedIds(ngrps[..p])))
      ensures ngrps[p] + 1 == ngrp
    {
      hide IsGrouping, IsFirst, SortedIds;
      ghost var ids, es, cs := ngrps[..p], exts[..ngrp], cnts[..ngrp];
      AddNew(inp, p, ids, es, cs);
      FewGroups(inp, p, ids, es, cs);
      MakeRoom(p);
      exts[ngrp] := p;
      cnts[ngrp] := 1;
      ngrps[p] := ngrp;
      ngrp := ngrp + 1;
      assert ngrps[..p + 1] == ids + [|es|];
      assert exts[..ngrp] == es + [p];
      assert cnts[..ngrp] == cs + [1];
    }

    /** Row p joins the group of row hb; tsorted is as the source keeps it. */
    method Found(p: nat, hb: nat)
      requires Done(p) && p < |inp.b| && hb < p && Same(inp, hb, p)
      modifies this`tsorted, ngrps, cnts
      ensures Done(p + 1)
      ensures old(SortedOk(p)) ==> SortedOk(p + 1)
    {
      hide IsGrouping, SortedIds, Same;
      ghost var ids, es, cs := ngrps[..p], exts[..ngrp], cnts[..ngrp];
      AddOld(inp, p, ids, es, cs, hb);
      GroupInRange(inp, p, ids, es, cs, hb);
      var grp := ngrps[hb];
      ngrps[p] := grp;
      cnts[grp] := cnts[grp] + 1;
      if tsorted && grp != ngrp - 1 {
        tsorted := false;
      }
      assert ngrps[..p + 1] == ids + [grp];
      assert cnts[..ngrp] == cs[grp := cs[grp] + 1];
    }

    /** Row p joins the group of the row before it, which is the last group. */
    method SameAsLast(p: nat)
      requires Done(p) && 0 < p < |inp.b| && Same(inp, p - 1, p) && ngrps[p - 1] + 1 == ngrp
      modifies ngrps, cnts
      ensures Done(p + 1) && ngrps[p] + 1 == ngrp
      ensures old(SortedIds(ngrps[..p])) ==> SortedIds(ngrps[..p + 1])
    {
      hide IsGrouping, SortedIds, Same;
      ghost var ids, es, cs := ngrps[..p], exts[..ngrp], cnts[..ngrp];
      AddOld(inp, p, ids, es, cs, p - 1);
      ngrps[p] := ngrp - 1;
      cnts[ngrp - 1] := cnts[ngrp - 1] + 1;
      assert ngrps[..p + 1] == ids + [ngrp - 1];
      assert cnts[..ngrp] == cs[ngrp - 1 := cs[ngrp - 1] + 1];
    }

    // ---------------------------------------------------------------- the algorithms

    /** Compare consecutive values: for sorted b and g, or rows that the caller has sorted. */
    method Consecutive()
      requires Done(0) && |inp.b| > 0 && Clustered(inp)
      modifies this, ngrps, exts, cnts
      ensures Done(|inp.b|) && SortedOk(|inp.b|) && tsorted
    {
      hide IsGrouping, Clustered, IsFirst, Same;
      NotFound(0) by {
        NothingBefore(inp);
      }
      var p := 1;
      while p < |inp.b|
        invariant 1 <= p <= |inp.b| && Done(p) && ngrps[p - 1] + 1 == ngrp && SortedIds(ngrps[..p])
        invariant (exts == old(exts) && cnts == old(cnts)) || (fresh(exts) && fresh(cnts))
      {
        if (inp.grouped && inp.g[p] != inp.g[p - 1]) || inp.b[p - 1] != inp.b[p] {
          ClusteredFirst(inp, p);
          NotFound(p);
        } else {
          SameAs(inp, p);
          SameAsLast(p);
        }
        p := p + 1;
      }
      tsorted := true;
    }

    /** Sub-scan of old groups: b is sorted, and [j, p) are the rows with the value of row p - 1. */
    method SubScan()
      requires Done(0) && |inp.b| > 0 && inp.grouped && (Sorted(inp.b) || RevSorted(inp.b))
      modifies this, ngrps, exts, cnts
      ensures Done(|inp.b|) && SortedOk(|inp.b|)
    {
      hide IsGrouping, IsFirst, SortedIds, Sorted, RevSorted;
      NotFound(0) by {
        NothingBefore(inp);
      }
      tsorted := true;
      var j, p := 0, 1;
      OneSorted(ngrps[..1]);
      while p < |inp.b|
        invariant 0 <= j < p <= |inp.b| && Done(p) && SortedOk(p) && RunFrom(inp.b, j, p)
        invariant (exts == old(exts) && cnts == old(cnts)) || (fresh(exts) && fresh(cnts))
      {
        var found := false;
        if inp.b[p] == inp.b[p - 1] {
          var i := j;
          while i < p && inp.g[i] != inp.g[p]
            invariant j <= i <= p && forall k :: j <= k < i ==> inp.g[k] != inp.g[p]
            modifies {}
          {
            i := i + 1;
          }
          if i < p {
            Found(p, i);
            found := true;
          } else {
            RunFirst(inp, j, p);
          }
        } else {
          NewValueFirst(inp, p);
          j := p;
        }
        if !found {
          NotFound(p);
        }
        p := p + 1;
      }
    }

    /** Use of a hash table on b that is there already: only rows before p count. */
    method ExistingHash(heads: seq<int>, links: seq<int>, probe: int -> nat)
      requires Done(0) && HashOf(inp.b, heads, links, probe)
      modifies this, ngrps, exts, cnts
      ensures Done(|inp.b|) && SortedOk(|inp.b|)
    {
      hide IsGrouping, IsFirst, SortedIds, HashOf, ChainOk, OnChain, Same;
      tsorted := true;
      NoneSorted(ngrps[..0]);
      for p := 0 to |inp.b|
        invariant Done(p) && SortedOk(p)
        invariant (exts == old(exts) && cnts == old(cnts)) || (fresh(exts) && fresh(cnts))
      {
        HashHead(inp.b, heads, links, probe, p);
        var hb := SearchEarlier(inp, p, heads[probe(inp.b[p])], links);
        if hb == -1 {
          NotFound(p);
        } else {
          Found(p, hb);
        }
      }
    }

    /** No sorting and no hash table: a table of the first rows of all groups is built on the fly. */
    method PartialHash(h: Hashing)
      requires Done(0) && HashingOk(inp, h)
      modifies this, ngrps, exts, cnts
      ensures Done(|inp.b|) && SortedOk(|inp.b|)
    {
      hide IsGrouping, IsFirst, SortedIds, Same, HashingOk, Table;
      tsorted := true;
      NoneSorted(ngrps[..0]);
      var t := new Buckets(inp, h);
      for p := 0 to |inp.b|
        invariant Done(p) && SortedOk(p)
        invariant (exts == old(exts) && cnts == old(cnts)) || (fresh(exts) && fresh(cnts))
        invariant t.inp == inp && fresh(t) && fresh(t.heads) && fresh(t.links) && t.Holds(p)
      {
        var hb := t.Search(p);
        if hb == -1 {
          NotFound(p);
          t.Enter(p);
        } else {
          t.Skip(p, hb);
          Found(p, hb);
        }
      }
    }
  }

  /** The hash table of PartialHash. */
  class Buckets {
    const inp: Input
    const h: Hashing
    const heads: array<int>
    const links: array<int>

    ghost predicate Holds(p: nat)
      reads heads, links
    {
      heads != links && Table(inp, h, heads[..], links[..], p)
    }

    constructor (inp: Input, h: Hashing)
      requires HashingOk(inp, h)
      ensures this.inp == inp && fresh(heads) && fresh(links) && Holds(0)
    {
      this.inp, this.h := inp, h;
      heads := new int[h.size](_ => -1);
      links := new int[|inp.b|];
      new;
      EmptyTable(inp, h, heads[..], links[..]);
    }

    method Search(p: nat) returns (hb: int)
      requires Holds(p) && p < |inp.b|
      ensures if hb == -1 then IsFirst(inp, p) else 0 <= hb < p && Same(inp, hb, p)
    {
      hide IsFirst, Same, Bucket, Sorted, RevSorted, ChainOk, ChainHasFirst;
      TableChain(inp, h, heads[..], links[..], p);
      hb := SearchTable(inp, h, p, heads[Bucket(inp, h, p)], links[..]);
    }

    /** HASHputlink and HASHput. */
    method Enter(p: nat)
      requires Holds(p) && p < |inp.b|
      modifies heads, links
      ensures Holds(p + 1)
    {
      hide IsFirst, Bucket, Sorted, RevSorted, ChainOk, OnChain;
      ghost var hs, ls := heads[..], links[..];
      var prb := Bucket(inp, h, p);
      TableAdd(inp, h, hs, ls, p);
      links[p] := heads[prb];
      heads[prb] := p;
      assert heads[..] == hs[prb := p] && links[..] == ls[p := hs[prb]];
    }

    /** A row that joins a group is not entered. */
    lemma Skip(p: nat, hb: nat)
      requires Holds(p) && hb < p < |inp.b| && Same(inp, hb, p)
      ensures Holds(p + 1)
    {
      TableSkip(inp, h, heads[..], links[..], p, hb);
    }
  }

  lemma EmptyTable(inp: Input, h: Hashing, heads: seq<int>, links: seq<int>)
    requires HashingOk(inp, h) && |links| == |inp.b| && |heads| == h.size && forall c :: 0 <= c < |heads| ==>
      heads[c] == -1
    ensures Table(inp, h, heads, links, 0)
  {
  }

  // ------------------------------------------------------- partial hash table

  /** How rows are hashed: by value, and by prior group if g is not clustered. */
  datatype Hashing = Hashing(gc: bool, hash: int -> nat, mix: (nat, nat) -> nat, size: nat)

  function Bucket(inp: Input, h: Hashing, p: nat): (c: nat)
    requires InputOk(inp) && p < |inp.b| && h.size > 0
    ensures c < h.size
  {
    if inp.grouped && !h.gc then h.mix(h.hash(inp.b[p]), inp.g[p]) % h.size else h.hash(inp.b[p]) % h.size
  }

  ghost predicate HashingOk(inp: Input, h: Hashing) {
    InputOk(inp) && h.size > 0 && (h.gc ==> inp.grouped && (Sorted(inp.g) || RevSorted(inp.g)))
  }

  ghost predicate HeadOk(heads: seq<int>, links: seq<int>, p: nat, c: nat)
    requires c < |heads|
  {
    -1 <= heads[c] < p && ChainOk(links, heads[c])
  }

  /** The table holds the first row of every group of the first p rows, in its bucket. */
  ghost predicate Table(inp: Input, h: Hashing, heads: seq<int>, links: seq<int>, p: nat) {
    && HashingOk(inp, h) && p <= |inp.b| == |links| && |heads| == h.size
    && (forall c: nat {:trigger HeadOk(heads, links, p, c)} :: c < |heads| ==> HeadOk(heads, links, p, c))
    && (forall x: nat {:trigger IsFirst(inp, x)} :: x < p && IsFirst(inp, x) ==>
          HeadOk(heads, links, p, Bucket(inp, h, x)) && OnChain(links, heads[Bucket(inp, h, x)], x))
  }

  /** The chain up to `from` does not see changes above it. */
  lemma {:induction false} ChainFrame(links: seq<int>, p: nat, v: int, from: int, x: nat)
    requires ChainOk(links, from) && from < p < |links|
    ensures ChainOk(links[p := v], from) && (OnChain(links[p := v], from, x) <==> OnChain(links, from, x))
    decreases from
  {
    if from != -1 {
      ChainFrame(links, p, v, links[from], x);
    }
  }

  lemma {:induction false} FirstOf(inp: Input, p: nat, j: nat) returns (e: nat)
    requires InputOk(inp) && j < p < |inp.b| && Same(inp, j, p)
    ensures e <= j && IsFirst(inp, e) && Same(inp, e, p)
  {
    if IsFirst(inp, j) {
      e := j;
    } else {
      var i: nat :| i < j && Same(inp, i, j);
      e := FirstOf(inp, p, i);
    }
  }

  /** The first row of p's group, if there is one, is on p's chain. */
  ghost predicate ChainHasFirst(inp: Input, p: nat, links: seq<int>, from: int)
    requires InputOk(inp) && p < |inp.b| && ChainOk(links, from)
  {
    forall x: nat {:trigger IsFirst(inp, x)} :: x < p && IsFirst(inp, x) && Same(inp, x, p) ==> OnChain(links, from, x)
  }

  lemma TableChain(inp: Input, h: Hashing, heads: seq<int>, links: seq<int>, p: nat)
    requires Table(inp, h, heads, links, p) && p < |inp.b|
    ensures var c := Bucket(inp, h, p); HeadOk(heads, links, p, c) && ChainHasFirst(inp, p, links, heads[c])
  {
    hide IsFirst, ChainOk, OnChain;
    var c := Bucket(inp, h, p);
    assert HeadOk(heads, links, p, c);
    forall x: nat | x < p && IsFirst(inp, x) && Same(inp, x, p) ensures OnChain(links, heads[c], x) {
      assert Bucket(inp, h, x) == c;
    }
  }

  lemma NoFirstOnChain(inp: Input, p: nat, links: seq<int>, from: int)
    requires InputOk(inp) && p < |inp.b| && ChainOk(links, from) && ChainHasFirst(inp, p, links, from)
    requires forall x: nat :: x < p && OnChain(links, from, x) ==> !Same(inp, x, p)
    ensures IsFirst(inp, p)
  {
    forall j: nat | j < p ensures !Same(inp, j, p) {
      if Same(inp, j, p) {
        var e := FirstOf(inp, p, j);
        assert false;
      }
    }
  }

  /** With clustered g, no row before one of another group is in the group of p. */
  lemma {:induction false} ClusteredStop(inp: Input, p: nat, links: seq<int>, hb: int, x: nat)
    requires InputOk(inp) && inp.grouped && (Sorted(inp.g) || RevSorted(inp.g)) && p < |inp.b|
    requires ChainOk(links, hb) && 0 <= hb < p && inp.g[hb] != inp.g[p] && OnChain(links, hb, x)
    ensures x <= hb && !Same(inp, x, p)
  {
    hide Sorted, RevSorted;
    ChainBelow(links, hb, x);
    if inp.g[x] == inp.g[p] {
      Between(inp.g, x, hb, p);
    }
  }

  lemma {:induction false} ChainBelow(links: seq<int>, from: int, x: nat)
    requires ChainOk(links, from) && OnChain(links, from, x)
    ensures x <= from
    decreases from
  {
    if from != x {
      ChainBelow(links, links[from], x);
    }
  }

  lemma NextFirst(inp: Input, p: nat, links: seq<int>, hb: int)
    requires InputOk(inp) && p < |inp.b| && ChainOk(links, hb) && ChainHasFirst(inp, p, links, hb) && 0 <= hb < p
      && !Same(inp, hb, p)
    ensures -1 <= links[hb] < hb && ChainOk(links, links[hb]) && ChainHasFirst(inp, p, links, links[hb])
  {
    hide IsFirst;
  }

  /** The walk along a bucket of the partial table; with clustered g it stops at another group. */
  method SearchTable(inp: Input, h: Hashing, p: nat, head: int, links: seq<int>) returns (hb: int)
    requires HashingOk(inp, h) && p < |inp.b| == |links| && ChainOk(links, head) && -1 <= head < p
      && ChainHasFirst(inp, p, links, head)
    ensures if hb == -1 then IsFirst(inp, p) else 0 <= hb < p && Same(inp, hb, p)
  {
    hide ChainOk, OnChain, ChainHasFirst, IsFirst, Sorted, RevSorted;
    hb := head;
    while hb != -1 && !(h.gc && inp.g[hb] != inp.g[p])
      invariant -1 <= hb < p && ChainOk(links, hb) && ChainHasFirst(inp, p, links, hb)
      decreases hb
    {
      if (h.gc || !inp.grouped || inp.g[hb] == inp.g[p]) && inp.b[p] == inp.b[hb] {
        return;
      }
      NextFirst(inp, p, links, hb);
      hb := links[hb];
    }
    forall x: nat | x < p && OnChain(links, hb, x) ensures !Same(inp, x, p) {
      if hb == -1 {
        EmptyChain(links, x);
      } else {
        ClusteredStop(inp, p, links, hb, x);
      }
    }
    NoFirstOnChain(inp, p, links, hb);
    hb := -1;
  }

  lemma EmptyChain(links: seq<int>, x: nat)
    requires ChainOk(links, -1)
    ensures !OnChain(links, -1, x)
  {
  }

  /** A row that starts a group is entered at the head of its bucket. */
  lemma TableAdd(inp: Input, h: Hashing, heads: seq<int>, links: seq<int>, p: nat)
    requires Table(inp, h, heads, links, p) && p < |inp.b|
    ensures var c := Bucket(inp, h, p); Table(inp, h, heads[c := p], links[p := heads[c]], p + 1)
  {
    hide IsFirst, Same, Bucket, Sorted, RevSorted;
    var c := Bucket(inp, h, p);
    var heads', links' := heads[c := p], links[p := heads[c]];
    var p' := p + 1;
    forall d: nat | d < |heads'| ensures HeadOk(heads', links', p', d) {
      assert HeadOk(heads, links, p, d) && HeadOk(heads, links, p, c);
      ChainFrame(links, p, heads[c], heads[c], 0);
      if d != c {
        ChainFrame(links, p, heads[c], heads[d], 0);
      }
    }
    forall x: nat | x < p' && IsFirst(inp, x)
      ensures HeadOk(heads', links', p', Bucket(inp, h, x)) && OnChain(links', heads'[Bucket(inp, h, x)], x)
    {
      var d := Bucket(inp, h, x);
      assert HeadOk(heads', links', p', d);
      if x < p {
        ChainFrame(links, p, heads[c], heads[d], x);
      }
    }
  }

  lemma TableSkip(inp: Input, h: Hashing, heads: seq<int>, links: seq<int>, p: nat, hb: nat)
    requires Table(inp, h, heads, links, p) && p < |inp.b| && hb < p && Same(inp, hb, p)
    ensures Table(inp, h, heads, links, p + 1)
  {
    hide ChainOk, OnChain, Bucket, Sorted, RevSorted;
    assert !IsFirst(inp, p);
    var p' := p + 1;
    forall d: nat | d < |heads| ensures HeadOk(heads, links, p', d) {
      assert HeadOk(heads, links, p, d);
    }
  }

  // ------------------------------------------------------------------ hash tables

  /** A chain of links from one row to earlier ones, ended by -1. */
  ghost predicate ChainOk(links: seq<int>, from: int) {
    from == -1 || (0 <= from < |links| && -1 <= links[from] < from && ChainOk(links, links[from]))
  }

  ghost predicate OnChain(links: seq<int>, from: int, x: nat)
    requires ChainOk(links, from)
  {
    from != -1 && (from == x || OnChain(links, links[from], x))
  }

  /** A complete hash table: every row is on the chain of its value. */
  ghost predicate HashOf(b: seq<int>, heads: seq<int>, links: seq<int>, probe: int -> nat) {
    && |links| == |b|
    && forall x: nat {:trigger b[x]} :: x < |b| ==>
         probe(b[x]) < |heads| && ChainOk(links, heads[probe(b[x])]) && OnChain(links, heads[probe(b[x])], x)
  }

  /** Every earlier row that is the same as p is on the chain. */
  ghost predicate ChainHasEqual(inp: Input, p: nat, links: seq<int>, from: int)
    requires InputOk(inp) && p < |inp.b| && ChainOk(links, from)
  {
    forall x: nat {:trigger Same(inp, x, p)} :: x < p && Same(inp, x, p) ==> OnChain(links, from, x)
  }

  lemma HashHead(b: seq<int>, heads: seq<int>, links: seq<int>, probe: int -> nat, p: nat)
    requires HashOf(b, heads, links, probe) && p < |b|
    ensures |links| == |b| && probe(b[p]) < |heads| && -1 <= heads[probe(b[p])] < |b|
      && ChainOk(links, heads[probe(b[p])])
    ensures forall x: nat :: x < |b| && b[x] == b[p] ==> OnChain(links, heads[probe(b[p])], x)
  {
  }

  /** The walk along the chain of row p's value, for an earlier row that is the same as p. */
  method SearchEarlier(inp: Input, p: nat, head: int, links: seq<int>) returns (hb: int)
    requires InputOk(inp) && p < |inp.b| == |links| && ChainOk(links, head) && -1 <= head < |inp.b|
    requires forall x: nat :: x < p && inp.b[x] == inp.b[p] ==> OnChain(links, head, x)
    ensures if hb == -1 then IsFirst(inp, p) else 0 <= hb < p && Same(inp, hb, p)
  {
    hide ChainOk, OnChain;
    hb := head;
    while hb != -1
      invariant -1 <= hb < |inp.b| && ChainOk(links, hb) && ChainHasEqual(inp, p, links, hb)
      decreases hb
    {
      if hb < p && (inp.grouped ==> inp.g[hb] == inp.g[p]) && inp.b[p] == inp.b[hb] {
        return;
      }
      NextLink(inp, p, links, hb);
      hb := links[hb];
    }
    EndOfChain(inp, p, links);
  }

  lemma NextLink(inp: Input, p: nat, links: seq<int>, hb: int)
    requires InputOk(inp) && p < |inp.b| && ChainOk(links, hb) && ChainHasEqual(inp, p, links, hb)
      && 0 <= hb < |inp.b| == |links|
    requires !(hb < p && Same(inp, hb, p))
    ensures -1 <= links[hb] < hb && ChainOk(links, links[hb]) && ChainHasEqual(inp, p, links, links[hb])
  {
  }

  lemma EndOfChain(inp: Input, p: nat, links: seq<int>)
    requires InputOk(inp) && p < |inp.b| && ChainOk(links, -1) && ChainHasEqual(inp, p, links, -1)
    ensures IsFirst(inp, p)
  {
  }

  lemma NoneSorted(ids: seq<nat>)
    requires |ids| == 0
    ensures SortedIds(ids)
  {
  }

  /** j starts the run of equal values that ends before p. */
  ghost predicate RunFrom(b: seq<int>, j: nat, p: nat) {
    j < p <= |b| && (forall k :: j <= k < p ==> b[k] == b[j]) && (forall k :: 0 <= k < j ==> b[k] != b[j])
  }

  lemma OneSorted(ids: seq<nat>)
    requires |ids| == 1
    ensures SortedIds(ids)
  {
  }

  lemma RunFirst(inp: Input, j: nat, p: nat)
    requires InputOk(inp) && inp.grouped && p < |inp.b| && RunFrom(inp.b, j, p) && inp.b[p] == inp.b[p - 1]
    requires forall k :: j <= k < p ==> inp.g[k] != inp.g[p]
    ensures IsFirst(inp, p)
  {
  }

  lemma NewValueFirst(inp: Input, p: nat)
    requires InputOk(inp) && (Sorted(inp.b) || RevSorted(inp.b)) && 0 < p < |inp.b| && inp.b[p] != inp.b[p - 1]
    ensures IsFirst(inp, p)
    ensures RunFrom(inp.b, p, p + 1)
  {
    forall k: nat | k < p ensures inp.b[k] != inp.b[p] {
      if inp.b[k] == inp.b[p] {
        Between(inp.b, k, p - 1, p);
      }
    }
  }

  /** Equal rows are next to each other. */
  ghost predicate Clustered(inp: Input)
    requires InputOk(inp)
  {
    forall i: nat, j: nat, k: nat {:trigger Same(inp, i, k), Same(inp, i, j)} ::
      i <= j <= k < |inp.b| && Same(inp, i, k) ==> Same(inp, i, j)
  }

  lemma NothingBefore(inp: Input)
    requires InputOk(inp) && |inp.b| > 0
    ensures IsFirst(inp, 0)
  {
  }

  lemma ClusteredFirst(inp: Input, p: nat)
    requires InputOk(inp) && Clustered(inp) && 0 < p < |inp.b|
    requires (inp.grouped && inp.g[p] != inp.g[p - 1]) || inp.b[p - 1] != inp.b[p]
    ensures IsFirst(inp, p)
  {
    forall j: nat | j < p ensures !Same(inp, j, p) {
      assert Same(inp, j, p) ==> Same(inp, j, p - 1);
    }
  }

  lemma SameAs(inp: Input, p: nat)
    requires InputOk(inp) && 0 < p < |inp.b|
    requires !((inp.grouped && inp.g[p] != inp.g[p - 1]) || inp.b[p - 1] != inp.b[p])
    ensures Same(inp, p - 1, p)
  {
  }

  /** Sorting of b and of g, each in either direction, is enough. */
  lemma SortedClustered(inp: Input)
    requires InputOk(inp) && (Sorted(inp.b) || RevSorted(inp.b)) && (inp.grouped ==> Sorted(inp.g) || RevSorted(inp.g))
    ensures Clustered(inp)
  {
    forall i: nat, j: nat, k: nat | i <= j <= k < |inp.b| && Same(inp, i, k) ensures Same(inp, i, j) {
      Between(inp.b, i, j, k);
      if inp.grouped {
        Between(inp.g, i, j, k);
      }
    }
  }

  lemma Between(s: seq<int>, i: nat, j: nat, k: nat)
    requires (Sorted(s) || RevSorted(s)) && i <= j <= k < |s| && s[i] == s[k]
    ensures s[i] == s[j]
  {
  }

  /** BATextend: a larger column with the same first n values. */
  method Extended(a: array<nat>, n: nat, size: nat) returns (r: array<nat>)
    requires n <= a.Length && n <= size
    ensures fresh(r) && r.Length == size && r[..n] == a[..n]
  {
    r := new nat[size];
    for k := 0 to n
      invariant r[..k] == a[..k]
    {
      r[k] := a[k];
    }
  }

  lemma FewGroups(inp: Input, p: nat, ids: seq<nat>, exts: seq<nat>, cnts: seq<nat>)
    requires IsGrouping(inp, p, ids, exts, cnts)
    ensures |exts| <= p
  {
    if exts != [] {
      ExtentBound(p, ids, exts, 0);
    }
  }

  lemma GroupInRange(inp: Input, p: nat, ids: seq<nat>, exts: seq<nat>, cnts: seq<nat>, hb: nat)
    requires IsGrouping(inp, p, ids, exts, cnts) && hb < p
    ensures ids[hb] < |exts| == |cnts|
  {
  }

  // --------------------------------------------------------------- BATgroup_internal

  datatype Option<T> = None | Some(value: T)

  const GROUPBATINCR: nat := 8192

  /** The capacity that extents and histogram start with; e and h are the sizes of the old ones. */
  function StartCapacity(count: nat, e: Option<nat>, h: Option<nat>, width: nat): (r: nat)
    ensures r > 0 && (width <= 2 ==> r <= 65536)
  {
    var m0 := count / 10;
    var m1 := if e.Some? && m0 < e.value then m0 + e.value else m0;
    var m2 := if h.Some? && m1 < h.value then m1 + h.value else m1;
    var m3 := if m2 < GROUPBATINCR then GROUPBATINCR else m2;
    var limit := if width == 2 then 65536 else 256;
    if width <= 2 && m3 > limit then limit else m3
  }

  /** Properties that are known of the input columns. */
  datatype Known = Known(bsorted: bool, brevsorted: bool, gsorted: bool, grevsorted: bool, subsorted: bool)

  datatype HashTable = HashTable(heads: seq<int>, links: seq<int>, probe: int -> nat)

  ghost predicate KnownOk(inp: Input, k: Known)
    requires InputOk(inp)
  {
    && (k.bsorted ==> Sorted(inp.b)) && (k.brevsorted ==> RevSorted(inp.b))
    && (k.gsorted ==> Sorted(inp.g)) && (k.grevsorted ==> RevSorted(inp.g))
    && (k.subsorted ==> Clustered(inp))
  }

  /**
   BATgroup_internal after the trivial cases. Whatever algorithm is chosen, the result is the
   one grouping of the rows; its tsorted and tkey are exact, and the histogram is complete.
   */
  method GroupInternal(inp: Input, k: Known, hash: Option<HashTable>, h: Hashing, e: Option<nat>, hist: Option<nat>,
      width: nat)
    returns (gn: Grouper, tkey: bool)
    requires InputOk(inp) && |inp.b| > 0 && KnownOk(inp, k) && h.size > 0
    requires hash.Some? ==> HashOf(inp.b, hash.value.heads, hash.value.links, hash.value.probe)
    ensures gn.inp == inp && gn.Done(|inp.b|) && gn.extensions <= 1
    ensures gn.tsorted <==> SortedIds(gn.ngrps[..])
    ensures tkey <==> forall i: nat, j: nat :: i < j < |inp.b| ==> !Same(inp, i, j)
    ensures Sum(gn.cnts[..gn.ngrp]) == |inp.b|
  {
    hide IsGrouping, Sorted, RevSorted, Clustered, HashOf, SortedIds, Same, StartCapacity;
    gn := new Grouper(inp, StartCapacity(|inp.b|, e, hist, width));
    if ((k.bsorted || k.brevsorted) && (!inp.grouped || k.gsorted || k.grevsorted)) || k.subsorted {
      if !k.subsorted {
        SortedClustered(inp);
      }
      gn.Consecutive();
    } else if k.bsorted || k.brevsorted {
      gn.SubScan();
    } else if hash.Some? {
      gn.ExistingHash(hash.value.heads, hash.value.links, hash.value.probe);
    } else {
      gn.PartialHash(h.(gc := inp.grouped && (k.gsorted || k.grevsorted)));
    }
    assert gn.ngrps[..|inp.b|] == gn.ngrps[..];
    tkey := gn.ngrp == |inp.b|;
    KeyExact(inp, gn.ngrps[..], gn.exts[..gn.ngrp], gn.cnts[..gn.ngrp]);
    WholeHistogram(inp, gn.ngrps[..], gn.exts[..gn.ngrp], gn.cnts[..gn.ngrp]);
  }

  lemma WholeHistogram(inp: Input, ids: seq<nat>, exts: seq<nat>, cnts: seq<nat>)
    requires IsGrouping(inp, |ids|, ids, exts, cnts)
    ensures Sum(cnts) == |ids|
  {
    HistogramSum(ids, cnts);
  }

  /** There are as many groups as rows iff no two rows are the same. */
  lemma KeyExact(inp: Input, ids: seq<nat>, exts: seq<nat>, cnts: seq<nat>)
    requires IsGrouping(inp, |ids|, ids, exts, cnts)
    ensures |exts| == |ids| <==> forall i: nat, j: nat :: i < j < |ids| ==> !Same(inp, i, j)
  {
    hide Same;
    var p := |ids|;
    if |exts| == p {
      ExtentsDense(p, ids, exts);
    }
    if forall i: nat, j: nat :: i < j < p ==> !Same(inp, i, j) {
      var rows := seq(p, (i: nat) => i);
      forall x: nat ensures x in exts <==> x in rows {
        ExtentsAreFirst(inp, p, ids, exts, x);
        assert x < p ==> rows[x] == x;
      }
      SameIncreasing(exts, rows);
    }
  }

  lemma {:induction false} ExtentsDense(p: nat, ids: seq<nat>, exts: seq<nat>)
    requires |ids| == p == |exts| && FirstMembers(p, ids, exts)
    ensures forall k :: 0 <= k < p ==> exts[k] == k && ids[k] == k
  {
    var k := p;
    while k > 0
      invariant 0 <= k <= p && forall j :: k <= j < p ==> exts[j] <= j
    {
      k := k - 1;
      assert k + 1 < p ==> exts[k] < exts[k + 1];
    }
    forall k | 0 <= k < p ensures exts[k] == k && ids[k] == k {
      ExtentBound(p, ids, exts, k);
    }
  }
}
