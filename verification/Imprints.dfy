/**
 Imprints (gdk_imprints.c): each page of a column has a mask of the bins that its values fall
 in; the masks are kept in runs, by a dictionary of counts. Masks are sets of bit numbers.
 */
module Imprints {

  // ------------------------------------------------------------------- binary search

  ghost predicate Sorted(bins: seq<int>) { forall i, j :: 0 <= i < j < |bins| ==> bins[i] <= bins[j] }

  predicate Bits(n: nat) { n == 8 || n == 16 || n == 32 || n == 64 }

  predicate PowerOfTwo(n: nat) { n == 2 || n == 4 || n == 8 || n == 16 || n == 32 || n == 64 }

  /** w is the bin of x: the last one whose lower bound x reaches, or the first. */
  predicate IsBin(bins: seq<int>, x: int, w: nat) {
    w < |bins| && (w == 0 || bins[w] <= x) && (w + 1 == |bins| || x < bins[w + 1])
  }

  /**
   The comparison tree of GETBIN8, 16, 32 and 64 for the n bins from b on; z is the value the
   result variable has before. `last` marks the branch that holds the last bin.
   */
  function Tree(bins: seq<int>, x: int, z: int, n: nat, b: nat, last: bool): (r: int)
    requires PowerOfTwo(n) && b + n <= |bins|
    decreases n
  {
    if n == 2 then
      if last && x >= bins[b + 1] then b + 1 else b
    else
      var m := n / 2;
      var z1 := if x >= bins[b + m] then Tree(bins, x, z, m, b + m, last) else z;
      var z2 := if x >= bins[b + m - 1] && x < bins[b + m] then b + m - 1 else z1;
      if x < bins[b + m - 1] then Tree(bins, x, z2, m, b, false) else z2
  }

  /** GETBIN##B(z, x) */
  function GetBin(bins: seq<int>, x: int, z: int): int
    requires Bits(|bins|)
  {
    Tree(bins, x, z, |bins|, 0, true)
  }

  lemma TreeStep(bins: seq<int>, x: int, z: int, n: nat, b: nat, last: bool)
    requires PowerOfTwo(n) && n > 2 && b + n <= |bins|
    ensures PowerOfTwo(n / 2) && n == n / 2 + n / 2
    ensures var m := n / 2;
      var z1 := if x >= bins[b + m] then Tree(bins, x, z, m, b + m, last) else z;
      var z2 := if x >= bins[b + m - 1] && x < bins[b + m] then b + m - 1 else z1;
      Tree(bins, x, z, n, b, last) == if x < bins[b + m - 1] then Tree(bins, x, z2, m, b, false) else z2
  {
  }

  lemma TreeTwo(bins: seq<int>, x: int, z: int, b: nat, last: bool)
    requires b + 2 <= |bins|
    ensures Tree(bins, x, z, 2, b, last) == if last && x >= bins[b + 1] then b + 1 else b
  {
  }

  /** The tree finds the bin, if that is one of its n bins (and not the n-th, unless `last`). */
  lemma {:induction false} TreeExact(bins: seq<int>, x: int, z: int, n: nat, b: nat, last: bool)
    requires Sorted(bins) && PowerOfTwo(n) && b + n <= |bins| && (last ==> b + n == |bins|)
    requires (b == 0 || bins[b] <= x) && (!last ==> x < bins[b + n - 1])
    ensures var r := Tree(bins, x, z, n, b, last); r >= 0 && IsBin(bins, x, r)
    decreases n
  {
    hide Tree, Sorted;
    if n == 2 {
      TreeTwo(bins, x, z, b, last);
    } else {
      TreeStep(bins, x, z, n, b, last);
      var m := n / 2;
      hide PowerOfTwo;
      if x >= bins[b + m] {
        TreeExact(bins, x, z, m, b + m, last);
        SortedAt(bins, b + m - 1, b + m);
      } else if x < bins[b + m - 1] {
        TreeExact(bins, x, z, m, b, false);
      }
    }
  }

  lemma SortedAt(bins: seq<int>, i: nat, j: nat)
    requires Sorted(bins) && i <= j < |bins|
    ensures bins[i] <= bins[j]
  {
  }

  /** Whatever the variable held, GETBIN gives the bin of x. */
  lemma GetBinExact(bins: seq<int>, x: int, z: int)
    requires Sorted(bins) && Bits(|bins|)
    ensures GetBin(bins, x, z) >= 0 && IsBin(bins, x, GetBin(bins, x, z))
  {
    hide Tree;
    TreeExact(bins, x, z, |bins|, 0, true);
  }

  /** Bins follow the order of values; in particular a value has one bin. */
  lemma BinMonotone(bins: seq<int>, x: int, y: int, v: nat, w: nat)
    requires Sorted(bins) && IsBin(bins, x, v) && IsBin(bins, y, w) && x <= y
    ensures v <= w
  {
    hide Sorted;
    if w < v {
      SortedAt(bins, w + 1, v);
    }
  }

  /** The bin of x. */
  function Bin(bins: seq<int>, x: int): (w: nat)
    requires Sorted(bins) && Bits(|bins|)
    ensures IsBin(bins, x, w)
    ensures forall z :: GetBin(bins, x, z) == w
  {
    assert forall z :: GetBin(bins, x, z) == GetBin(bins, x, 0) && GetBin(bins, x, 0) >= 0 by {
      forall z ensures GetBin(bins, x, z) == GetBin(bins, x, 0) && GetBin(bins, x, 0) >= 0 {
        GetBinExact(bins, x, z);
        GetBinExact(bins, x, 0);
        BinMonotone(bins, x, x, GetBin(bins, x, z), GetBin(bins, x, 0));
        BinMonotone(bins, x, x, GetBin(bins, x, 0), GetBin(bins, x, z));
      }
    }
    GetBinExact(bins, x, 0);
    GetBin(bins, x, 0)
  }

  // ---------------------------------------------------------------- the dictionary

  type Mask = set<nat>

  const IMPS_MAX_CNT: nat := 16777215

  /** cchdc_t: a run of cnt pages with one mask, or cnt pages with a mask each. */
  datatype Header = Header(cnt: nat, repeat: bool)

  /** The counter has 24 bits. */
  function Inc(h: Header): Header { h.(cnt := (h.cnt + 1) % 16777216) }

  const COUNTERS: nat := 16777216

  function Masks(h: Header): nat { if h.repeat then 1 else h.cnt }

  /** How many masks the headers use up. */
  function Covers(ds: seq<Header>): nat { if ds == [] then 0 else Covers(ds[..|ds| - 1]) + Masks(ds[|ds| - 1]) }

  /** How many pages the headers stand for. */
  function Total(ds: seq<Header>): nat { if ds == [] then 0 else Total(ds[..|ds| - 1]) + ds[|ds| - 1].cnt }

  function Repeat(m: Mask, n: nat): (r: seq<Mask>) { seq(n, _ => m) }

  /** The pages that a header stands for, whose masks begin at c. */
  function Run(h: Header, ims: seq<Mask>, c: nat): (r: seq<Mask>)
    requires c + Masks(h) <= |ims|
    ensures |r| == h.cnt
  {
    if h.repeat then Repeat(ims[c], h.cnt) else ims[c..c + h.cnt]
  }

  /** The masks of all pages, one by one. */
  function Decode(ds: seq<Header>, ims: seq<Mask>): seq<Mask>
    requires Covers(ds) <= |ims|
  {
    if ds == [] then []
    else Decode(ds[..|ds| - 1], ims) + Run(ds[|ds| - 1], ims, Covers(ds[..|ds| - 1]))
  }

  lemma CoversLast(ds: seq<Header>, h: Header)
    ensures Covers(ds + [h]) == Covers(ds) + Masks(h) && Total(ds + [h]) == Total(ds) + h.cnt
  {
    assert (ds + [h])[..|ds|] == ds;
  }

  lemma DecodeLast(ds: seq<Header>, h: Header, ims: seq<Mask>)
    requires Covers(ds) + Masks(h) <= |ims|
    ensures Covers(ds + [h]) == Covers(ds) + Masks(h)
    ensures Decode(ds + [h], ims) == Decode(ds, ims) + Run(h, ims, Covers(ds))
  {
    assert (ds + [h])[..|ds|] == ds;
  }

  /** Masks that are added later do not matter. */
  lemma {:induction false} DecodeFrame(ds: seq<Header>, ims: seq<Mask>, m: Mask)
    requires Covers(ds) <= |ims|
    ensures Decode(ds, ims + [m]) == Decode(ds, ims)
  {
    if ds != [] {
      DecodeFrame(ds[..|ds| - 1], ims, m);
    }
  }

  lemma {:induction false} DecodeLength(ds: seq<Header>, ims: seq<Mask>)
    requires Covers(ds) <= |ims|
    ensures |Decode(ds, ims)| == Total(ds)
  {
    if ds != [] {
      DecodeLength(ds[..|ds| - 1], ims);
    }
  }

  /** A repeat header counts one page more. */
  lemma BumpRepeat(ds: seq<Header>, c: nat, ims: seq<Mask>)
    requires Covers(ds) + 1 == |ims|
    ensures Covers(ds + [Header(c, true)]) == |ims| == Covers(ds + [Header(c + 1, true)])
    ensures Decode(ds + [Header(c + 1, true)], ims) == Decode(ds + [Header(c, true)], ims) + [ims[|ims| - 1]]
  {
    hide Decode, Covers;
    var m := ims[|ims| - 1];
    DecodeLast(ds, Header(c, true), ims);
    DecodeLast(ds, Header(c + 1, true), ims);
    assert Repeat(m, c + 1) == Repeat(m, c) + [m];
  }

  /** A header for one page becomes a repeat header for two. */
  lemma StartRepeat(ds: seq<Header>, ims: seq<Mask>)
    requires Covers(ds) + 1 == |ims|
    ensures Covers(ds + [Header(1, false)]) == |ims| == Covers(ds + [Header(2, true)])
    ensures Decode(ds + [Header(2, true)], ims) == Decode(ds + [Header(1, false)], ims) + [ims[|ims| - 1]]
  {
    hide Decode, Covers;
    var m := ims[|ims| - 1];
    DecodeLast(ds, Header(1, false), ims);
    DecodeLast(ds, Header(2, true), ims);
    assert Repeat(m, 2) == [m] + [m] && ims[|ims| - 1..|ims|] == [m];
  }

  /** The last page of a header is split off into a repeat header for two. */
  lemma SplitRepeat(ds: seq<Header>, c: nat, ims: seq<Mask>)
    requires Covers(ds) + c == |ims| && c > 1
    ensures Covers(ds + [Header(c, false)]) == |ims| == Covers(ds + [Header(c - 1, false)] + [Header(2, true)])
    ensures Decode(ds + [Header(c - 1, false)] + [Header(2, true)], ims)
      == Decode(ds + [Header(c, false)], ims) + [ims[|ims| - 1]]
  {
    hide Decode, Covers;
    var m, k := ims[|ims| - 1], |ims| - c;
    DecodeLast(ds, Header(c, false), ims);
    DecodeLast(ds, Header(c - 1, false), ims);
    DecodeLast(ds + [Header(c - 1, false)], Header(2, true), ims);
    assert Repeat(m, 2) == [m] + [m];
    assert ims[k..k + c] == ims[k..k + (c - 1)] + [m];
  }

  /** A header without repeat takes one mask more. */
  lemma AppendMask(ds: seq<Header>, c: nat, ims: seq<Mask>, m: Mask)
    requires Covers(ds) + c == |ims|
    ensures Covers(ds + [Header(c, false)]) == |ims| && Covers(ds + [Header(c + 1, false)]) == |ims| + 1
    ensures Decode(ds + [Header(c + 1, false)], ims + [m]) == Decode(ds + [Header(c, false)], ims) + [m]
  {
    hide Decode, Covers;
    var ims', k := ims + [m], |ims| - c;
    DecodeFrame(ds, ims, m);
    DecodeLast(ds, Header(c, false), ims);
    DecodeLast(ds, Header(c + 1, false), ims');
    assert ims'[k..k + (c + 1)] == ims[k..k + c] + [m];
  }

  lemma NewHeader(ds: seq<Header>, ims: seq<Mask>, m: Mask)
    requires Covers(ds) == |ims|
    ensures Covers(ds + [Header(1, false)]) == |ims| + 1
    ensures Decode(ds + [Header(1, false)], ims + [m]) == Decode(ds, ims) + [m]
  {
    hide Decode, Covers;
    var ims' := ims + [m];
    DecodeFrame(ds, ims, m);
    DecodeLast(ds, Header(1, false), ims');
    assert ims'[|ims|..|ims| + 1] == [m];
  }

  /** Counters have 24 bits. */
  ghost predicate Counters(ds: seq<Header>) { forall i :: 0 <= i < |ds| ==> ds[i].cnt < COUNTERS }

  ghost predicate Positive(ds: seq<Header>) { forall i :: 0 <= i < |ds| ==> 0 < ds[i].cnt < COUNTERS }

  /** A dictionary and its imprints, as values. */
  datatype Dict = Dict(ds: seq<Header>, ims: seq<Mask>)

  /** Every header counts some pages, and together they use up the masks. */
  ghost predicate Good(b: Dict) { Covers(b.ds) == |b.ims| && Positive(b.ds) }

  /** A page with the same mask as the one before: its header becomes, or is, a repeat header. */
  function Repeated(ds: seq<Header>): seq<Header>
    requires ds != []
  {
    var init, h := ds[..|ds| - 1], ds[|ds| - 1];
    if h.repeat then init + [Inc(h)]
    else if h.cnt > 1 then init + [Header(h.cnt - 1, false)] + [Header(2, true)]
    else init + [Inc(Header(h.cnt, true))]
  }

  /** The last header is taken for a new mask, because of what the slot behind it holds. */
  predicate Extends(ds: seq<Header>, slot: Header) {
    ds != [] && !ds[|ds| - 1].repeat && slot.cnt < IMPS_MAX_CNT - 1
  }

  /** A page with a new mask. */
  function Extended(ds: seq<Header>, slot: Header): seq<Header> {
    if Extends(ds, slot) then ds[..|ds| - 1] + [Inc(ds[|ds| - 1])] else ds + [Header(1, false)]
  }

  /** The header that is taken is full, so that its counter starts again at 0. */
  predicate RunsOver(ds: seq<Header>, slot: Header) {
    Extends(ds, slot) && ds[|ds| - 1].cnt == IMPS_MAX_CNT
  }

  lemma Parts(ds: seq<Header>)
    requires ds != []
    ensures ds == ds[..|ds| - 1] + [ds[|ds| - 1]]
  {
  }

  /** A repetition adds one page, in all three shapes of the last header. */
  lemma RepeatedExact(b: Dict)
    requires Good(b) && b.ds != [] && b.ds[|b.ds| - 1].cnt < IMPS_MAX_CNT - 1
    ensures b.ims != [] && Good(Dict(Repeated(b.ds), b.ims))
    ensures Decode(Repeated(b.ds), b.ims) == Decode(b.ds, b.ims) + [b.ims[|b.ims| - 1]]
  {
    hide Decode, Covers;
    Parts(b.ds);
    var init, h := b.ds[..|b.ds| - 1], b.ds[|b.ds| - 1];
    CoversLast(init, h);
    if h.repeat {
      BumpRepeat(init, h.cnt, b.ims);
    } else if h.cnt > 1 {
      SplitRepeat(init, h.cnt, b.ims);
    } else {
      StartRepeat(init, b.ims);
    }
  }

  /** A new mask adds one page iff no counter runs over; otherwise all pages of that header are gone. */
  lemma ExtendedExact(b: Dict, mask: Mask, slot: Header)
    requires Good(b)
    ensures var b' := Dict(Extended(b.ds, slot), b.ims + [mask]);
      && Covers(b'.ds) <= |b'.ims|
      && (Good(b') && Decode(b'.ds, b'.ims) == Decode(b.ds, b.ims) + [mask] <==> !RunsOver(b.ds, slot))
      && (RunsOver(b.ds, slot) ==> |Decode(b'.ds, b'.ims)| == |Decode(b.ds, b.ims)| - IMPS_MAX_CNT)
  {
    hide Decode, Covers, Total;
    if Extends(b.ds, slot) {
      Parts(b.ds);
      var init, h := b.ds[..|b.ds| - 1], b.ds[|b.ds| - 1];
      CoversLast(init, h);
      CoversLast(init, Inc(h));
      if h.cnt < IMPS_MAX_CNT {
        AppendMask(init, h.cnt, b.ims, mask);
      } else {
        DecodeLength(b.ds, b.ims);
        DecodeLength(init + [Inc(h)], b.ims + [mask]);
      }
    } else {
      NewHeader(b.ds, b.ims, mask);
    }
  }

  // ------------------------------------------------------------- all pages of a column

  /** What the code does with the mask of one page; `slot` is the one behind the last header. */
  function AddTo(b: Dict, mask: Mask, slot: Header): Dict {
    if b.ds != [] && b.ims != [] && b.ims[|b.ims| - 1] == mask && b.ds[|b.ds| - 1].cnt < IMPS_MAX_CNT - 1
    then Dict(Repeated(b.ds), b.ims)
    else Dict(Extended(b.ds, slot), b.ims + [mask])
  }

  /** The dictionary for the masks of all pages, in slots that held anything before. */
  function Build(masks: seq<Mask>, slots: seq<Header>): (b: Dict)
    requires |masks| <= |slots|
    ensures |b.ds| <= |masks| && |b.ims| <= |masks| && (b.ds == [] <==> masks == []) && (b.ims == [] <==> masks == [])
    ensures masks != [] ==> b.ims[|b.ims| - 1] == masks[|masks| - 1]
  {
    if masks == [] then Dict([], [])
    else
      var b := Build(masks[..|masks| - 1], slots);
      AddTo(b, masks[|masks| - 1], slots[|b.ds|])
  }

  lemma BuildAppend(masks: seq<Mask>, mask: Mask, slots: seq<Header>)
    requires |masks| < |slots|
    ensures var b := Build(masks, slots); Build(masks + [mask], slots) == AddTo(b, mask, slots[|b.ds|])
  {
    assert (masks + [mask])[..|masks|] == masks;
  }

  /** How often a counter runs over. */
  function Losses(masks: seq<Mask>, slots: seq<Header>): nat
    requires |masks| <= |slots|
  {
    if masks == [] then 0
    else
      var b := Build(masks[..|masks| - 1], slots);
      Losses(masks[..|masks| - 1], slots) + if RunsOver(b.ds, slots[|b.ds|]) then 1 else 0
  }

  /** A last header that has just run over. */
  predicate Emptied(ds: seq<Header>) { ds != [] && ds[|ds| - 1] == Header(0, false) }

  /** The headers never use more masks than there are. */
  ghost predicate Slack(b: Dict, losses: nat) {
    Counters(b.ds) && Covers(b.ds) + IMPS_MAX_CNT * losses + (if Emptied(b.ds) then 1 else 0) <= |b.ims|
  }

  lemma AddToCounts(b: Dict, mask: Mask, slot: Header, losses: nat)
    requires Slack(b, losses) && (b.ds == [] <==> b.ims == [])
    ensures var b', l := AddTo(b, mask, slot), if RunsOver(b.ds, slot) then 1 else 0;
      Slack(b', losses + l) && Total(b'.ds) + COUNTERS * l == Total(b.ds) + 1
  {
    hide Covers, Total;
    var b' := AddTo(b, mask, slot);
    if b.ds != [] {
      Parts(b.ds);
      var init, h := b.ds[..|b.ds| - 1], b.ds[|b.ds| - 1];
      CoversLast(init, h);
      CoversLast(init, Inc(h));
      CoversLast(init, Inc(Header(h.cnt, true)));
      if h.cnt > 1 {
        CoversLast(init, Header(h.cnt - 1, false));
        CoversLast(init + [Header(h.cnt - 1, false)], Header(2, true));
      }
    }
    CoversLast(b.ds, Header(1, false));
  }

  lemma NoPages(slots: seq<Header>)
    ensures Build([], slots) == Dict([], []) && Losses([], slots) == 0 && Slack(Dict([], []), 0)
    ensures Total([]) == 0 && Good(Dict([], [])) && Decode([], []) == []
  {
  }

  /** Every page is counted, and every counter that runs over takes 2^24 pages away. */
  lemma {:induction false} PagesCounted(masks: seq<Mask>, slots: seq<Header>)
    requires |masks| <= |slots|
    ensures var b, l := Build(masks, slots), Losses(masks, slots);
      Slack(b, l) && Total(b.ds) + COUNTERS * l == |masks|
  {
    hide Slack, Total, AddTo, RunsOver;
    if masks == [] {
      NoPages(slots);
    } else {
      var init := masks[..|masks| - 1];
      var b := Build(init, slots);
      PagesCounted(init, slots);
      AddToCounts(b, masks[|masks| - 1], slots[|b.ds|], Losses(init, slots));
    }
  }

  lemma AddToExact(b: Dict, mask: Mask, slot: Header)
    requires Good(b) && !RunsOver(b.ds, slot)
    ensures Good(AddTo(b, mask, slot))
    ensures Decode(AddTo(b, mask, slot).ds, AddTo(b, mask, slot).ims) == Decode(b.ds, b.ims) + [mask]
  {
    hide Good, Decode, Repeated, Extended, RunsOver;
    assert Covers(b.ds) == |b.ims| by {
      GoodCovers(b);
    }
    if b.ds != [] && b.ims != [] && b.ims[|b.ims| - 1] == mask && b.ds[|b.ds| - 1].cnt < IMPS_MAX_CNT - 1 {
      RepeatedExact(b);
    } else {
      ExtendedExact(b, mask, slot);
    }
  }

  lemma GoodCovers(b: Dict)
    requires Good(b)
    ensures Covers(b.ds) == |b.ims|
  {
  }

  lemma {:induction false} BuildGood(masks: seq<Mask>, slots: seq<Header>)
    requires |masks| <= |slots| && Losses(masks, slots) == 0
    ensures var b := Build(masks, slots); Good(b) && Decode(b.ds, b.ims) == masks
  {
    hide Good, Decode, AddTo, RunsOver;
    if masks == [] {
      NoPages(slots);
    } else {
      var init := masks[..|masks| - 1];
      assert masks == init + [masks[|masks| - 1]];
      var b := Build(init, slots);
      BuildGood(init, slots);
      AddToExact(b, masks[|masks| - 1], slots[|b.ds|]);
      GoodCovers(Build(masks, slots));
    }
  }

  /** What the dictionary stands for. */
  ghost predicate StandsFor(b: Dict, masks: seq<Mask>) { Covers(b.ds) <= |b.ims| && Decode(b.ds, b.ims) == masks }

  /**
   The dictionary stands for the pages iff no counter ran over, and otherwise lacks 2^24 pages for
   each time one did.
   */
  lemma BuildExact(masks: seq<Mask>, slots: seq<Header>)
    requires |masks| <= |slots|
    ensures var b, l := Build(masks, slots), Losses(masks, slots);
      && Covers(b.ds) <= |b.ims| && |Decode(b.ds, b.ims)| + COUNTERS * l == |masks|
      && (StandsFor(b, masks) <==> l == 0)
  {
    hide Build, Decode, Total, Losses, Covers;
    var b := Build(masks, slots);
    PagesCounted(masks, slots);
    DecodeLength(b.ds, b.ims);
    if Losses(masks, slots) == 0 {
      BuildGood(masks, slots);
    }
  }

  /** No counter can be full while there are not more pages than it can count. */
  lemma {:induction false} FewPages(masks: seq<Mask>, slots: seq<Header>)
    requires |masks| <= |slots| && |masks| <= IMPS_MAX_CNT
    ensures Losses(masks, slots) == 0
  {
    hide Build, Total;
    if masks != [] {
      var init := masks[..|masks| - 1];
      FewPages(init, slots);
      PagesCounted(init, slots);
      var b := Build(init, slots);
      if b.ds != [] {
        Parts(b.ds);
        CoversLast(b.ds[..|b.ds| - 1], b.ds[|b.ds| - 1]);
      }
    }
  }

  /** Two masks in turn. */
  function InTurn(n: nat): (r: seq<Mask>)
    ensures |r| == n
  {
    seq(n, i => if i % 2 == 0 then {0} else {1})
  }

  function Unused(n: nat): (r: seq<Header>)
    ensures |r| == n
  {
    seq(n, _ => Header(0, false))
  }

  lemma {:induction false} OneHeader(n: nat, k: nat)
    requires k <= n && 0 < k <= IMPS_MAX_CNT
    ensures Build(InTurn(k), Unused(n)).ds == [Header(k, false)]
  {
    hide Build;
    assert InTurn(k) == InTurn(k - 1) + [InTurn(k)[k - 1]];
    BuildAppend(InTurn(k - 1), InTurn(k)[k - 1], Unused(n));
    if k == 1 {
      assert InTurn(0) == [];
      NoPages(Unused(n));
    } else {
      OneHeader(n, k - 1);
      var b := Build(InTurn(k - 1), Unused(n));
      assert b.ims[|b.ims| - 1] == InTurn(k - 1)[k - 2] != InTurn(k)[k - 1];
      assert [Header(k - 1, false)][..0] + [Header(k, false)] == [Header(k, false)];
    }
  }

  /** Masks in turn fill one header, whose counter runs over at page 2^24. */
  lemma {:induction false} TooManyPages(n: nat, k: nat)
    requires IMPS_MAX_CNT < k <= n
    ensures Losses(InTurn(k), Unused(n)) > 0
  {
    hide Build;
    assert InTurn(k)[..k - 1] == InTurn(k - 1);
    if k == IMPS_MAX_CNT + 1 {
      OneHeader(n, k - 1);
    } else {
      TooManyPages(n, k - 1);
    }
  }

  /** With 2^24 pages of two masks in turn nothing at all is left. */
  lemma LastPageEmpties()
    ensures var b := Build(InTurn(COUNTERS), Unused(COUNTERS));
      b.ds == [Header(0, false)] && StandsFor(b, [])
  {
    hide Build;
    var n := COUNTERS;
    assert InTurn(n) == InTurn(n - 1) + [InTurn(n)[n - 1]];
    BuildAppend(InTurn(n - 1), InTurn(n)[n - 1], Unused(n));
    OneHeader(n, n - 1);
    assert [Header(n - 1, false)][..0] + [Header(0, false)] == [Header(0, false)];
    CoversLast([], Header(0, false));
    DecodeLast([], Header(0, false), Build(InTurn(n), Unused(n)).ims);
    assert [] + [Header(0, false)] == [Header(0, false)];
  }

  /** The dictionary and the imprints while they are made; slots from dcnt on hold anything. */
  class Dictionary {
    const d: array<Header>
    const im: array<Mask>
    var dcnt: nat
    var icnt: nat

    predicate Valid()
      reads this
    {
      dcnt <= d.Length && icnt <= im.Length
    }

    ghost function Value(): Dict
      requires Valid()
      reads this, d, im
    {
      Dict(d[..dcnt], im[..icnt])
    }

    constructor (d: array<Header>, im: array<Mask>)
      ensures this.d == d && this.im == im && Valid() && Value() == Dict([], [])
    {
      this.d, this.im, dcnt, icnt := d, im, 0, 0;
    }

    /** A page with the same mask as the one before. */
    method AddSame()
      requires Valid() && 0 < dcnt < d.Length && d[dcnt - 1].cnt < IMPS_MAX_CNT - 1
      modifies this`dcnt, d
      ensures Valid() && Value() == Dict(Repeated(old(d[..dcnt])), im[..icnt])
      ensures old(dcnt) <= dcnt && d[dcnt..] == old(d[..])[dcnt..]
      ensures old(Good(Value())) ==>
        icnt > 0 && Good(Value()) && Decode(d[..dcnt], im[..icnt]) ==
          old(Decode(d[..dcnt], im[..icnt])) + [im[icnt - 1]]
    {
      hide Decode, Covers;
      ghost var ds := d[..dcnt];
      if Good(Value()) {
        RepeatedExact(Value());
      }
      if !d[dcnt - 1].repeat {
        if d[dcnt - 1].cnt > 1 {
          d[dcnt - 1] := d[dcnt - 1].(cnt := d[dcnt - 1].cnt - 1);
          dcnt := dcnt + 1;
          d[dcnt - 1] := d[dcnt - 1].(cnt := 1);
        }
        d[dcnt - 1] := d[dcnt - 1].(repeat := true);
      }
      d[dcnt - 1] := Inc(d[dcnt - 1]);
      assert d[..dcnt] == Repeated(ds);
    }

    /**
     A page with a new mask. Whether the last header is taken for it is decided by the slot
     behind that header, which has not been written yet. The page is added iff that header does
     not run over.
     */
    method AddNew(mask: Mask)
      requires Valid() && dcnt < d.Length && icnt < im.Length
      modifies this, d, im
      ensures Valid() && Value() == Dict(Extended(old(d[..dcnt]), old(d[dcnt])), old(im[..icnt]) + [mask])
      ensures old(dcnt) <= dcnt && d[dcnt..] == old(d[..])[dcnt..]
      ensures old(Good(Value())) ==>
        (old(RunsOver(d[..dcnt], d[dcnt])) <==>
         !(Good(Value()) && Decode(d[..dcnt], im[..icnt]) == old(Decode(d[..dcnt], im[..icnt])) + [mask]))
    {
      hide Decode, Covers;
      ghost var ds, slot, ims := d[..dcnt], d[dcnt], im[..icnt];
      if Good(Value()) {
        ExtendedExact(Value(), mask, slot);
      }
      im[icnt] := mask;
      icnt := icnt + 1;
      assert im[..icnt] == ims + [mask];
      if dcnt > 0 && !d[dcnt - 1].repeat && d[dcnt].cnt < IMPS_MAX_CNT - 1 {
        d[dcnt - 1] := Inc(d[dcnt - 1]);
      } else {
        d[dcnt] := Header(1, false);
        dcnt := dcnt + 1;
      }
      assert d[..dcnt] == Extended(ds, slot);
    }
  }

  // -------------------------------------------------------------------- the masks

  /** The bins that occur among the values. */
  function MaskOf(bins: seq<int>, vals: seq<int>): Mask
    requires Sorted(bins) && Bits(|bins|)
  {
    if vals == [] then {} else MaskOf(bins, vals[..|vals| - 1]) + {Bin(bins, vals[|vals| - 1])}
  }

  lemma {:induction false} MaskHas(bins: seq<int>, vals: seq<int>, i: nat)
    requires Sorted(bins) && Bits(|bins|) && i < |vals|
    ensures Bin(bins, vals[i]) in MaskOf(bins, vals)
  {
    if i < |vals| - 1 {
      MaskHas(bins, vals[..|vals| - 1], i);
    }
  }

  /** The number of pages; an empty column has one. */
  function PageCount(n: nat, per: nat): (k: nat)
    requires per > 0
    ensures k > 0
  {
    if n == 0 then 1 else (n - 1) / per + 1
  }

  lemma MulOrder(a: int, b: int, per: nat)
    requires a <= b
    ensures a * per <= b * per
  {
  }

  lemma Distribute(q: int, per: nat)
    ensures (q + 1) * per == q * per + per
  {
  }

  lemma DivBounds(n: nat, per: nat, k: nat)
    requires per > 0 && k * per <= n
    ensures k <= n / per
    ensures n < (k + 1) * per ==> n / per == k
  {
    var q := n / per;
    var p, t, u := q * per, k * per, (k + 1) * per;
    assert n == p + n % per;
    Distribute(q, per);
    if q < k {
      MulOrder(q + 1, k, per);
    } else if k < q {
      MulOrder(k + 1, q, per);
    }
  }

  /** If k full pages and a rest of one page make up the column, there are k + 1 pages. */
  lemma LastPage(n: nat, per: nat, k: nat, s: nat)
    requires per > 0 && s == k * per && s <= n <= s + per && (n == 0 ==> k == 0) && (n > 0 ==> s < n)
    ensures PageCount(n, per) == k + 1
  {
    if n > 0 {
      assert (k + 1) * per == s + per;
      DivBounds(n - 1, per, k);
    }
  }

  lemma PageBelow(n: nat, per: nat, k: nat, s: nat)
    requires per > 0 && s == k * per && s < n
    ensures k < PageCount(n, per)
  {
    DivBounds(n - 1, per, k);
  }

  lemma PageStart(per: nat, k: nat, s: nat, i: nat)
    requires per > 0 && s == k * per && s <= i <= s + per
    ensures i % per == 0 <==> i == s || i == s + per
  {
    var r := i - s;
    assert i == k * per + r;
    if r < per {
      ModOf(i, per, k, r);
    } else {
      ModOf(i, per, k + 1, 0);
    }
  }

  lemma ModOf(i: nat, per: nat, k: nat, r: nat)
    requires per > 0 && i == k * per + r && r < per
    ensures i % per == r
  {
    var q := i / per;
    assert i == q * per + i % per;
    DivBounds(i, per, k);
    assert (k + 1) * per == k * per + per;
  }

  /** The masks of the first k pages. */
  function Masked(col: seq<int>, bins: seq<int>, per: nat, k: nat): seq<Mask>
    requires Sorted(bins) && Bits(|bins|) && k * per <= |col|
  {
    if k == 0 then []
    else
      assert (k - 1) * per == k * per - per;
      Masked(col, bins, per, k - 1) + [MaskOf(bins, col[(k - 1) * per..k * per])]
  }

  /** The masks of all pages, the last of which may be shorter. */
  function AllMasks(col: seq<int>, bins: seq<int>, per: nat): seq<Mask>
    requires Sorted(bins) && Bits(|bins|) && per > 0
  {
    var k := PageCount(|col|, per) - 1;
    LastStart(|col|, per);
    Masked(col, bins, per, k) + [MaskOf(bins, col[k * per..])]
  }

  lemma LastStart(n: nat, per: nat)
    requires per > 0
    ensures (PageCount(n, per) - 1) * per <= n
  {
    if n > 0 {
      var q := (n - 1) / per;
      assert n - 1 == q * per + (n - 1) % per;
    }
  }

  // ---------------------------------------------------------------- imprints_create

  /** The arrays hold the dictionary for these pages; the slots behind it are as they were. */
  ghost predicate Made(dict: Dictionary, masks: seq<Mask>, slots: seq<Header>)
    reads dict, dict.d
    reads dict.im
  {
    && dict.Valid() && |masks| <= |slots| == dict.d.Length
    && dict.Value() == Build(masks, slots) && dict.d[dict.dcnt..] == slots[dict.dcnt..]
  }

  /** The mask of the page before, or no bits before the first. */
  function Before(masks: seq<Mask>): Mask { if masks == [] then {} else masks[|masks| - 1] }

  /** The mask of a page is added, as a repetition or as a new mask. */
  method AddPage(dict: Dictionary, prvmask: Mask, mask: Mask, ghost masks: seq<Mask>, ghost slots: seq<Header>)
    requires Made(dict, masks, slots) && prvmask == Before(masks)
    requires |masks| < dict.d.Length && |masks| < dict.im.Length
    modifies dict, dict.d, dict.im
    ensures Made(dict, masks + [mask], slots)
  {
    hide Decode, Covers, Repeated, Extended, Build;
    BuildAppend(masks, mask, slots);
    assert dict.d[dict.dcnt..][0] == slots[dict.dcnt..][0];
    if prvmask == mask && dict.dcnt > 0 && dict.d[dict.dcnt - 1].cnt < IMPS_MAX_CNT - 1 {
      dict.AddSame();
    } else {
      dict.AddNew(mask);
    }
  }

  /**
   IMPS_CREATE: the dictionary for the masks of all pages. It stands for them iff no counter ran
   over, and so always if there are at most IMPS_MAX_CNT pages.
   */
  method Create(col: seq<int>, bins: seq<int>, per: nat, dict: Dictionary)
    requires Sorted(bins) && Bits(|bins|) && per > 0
    requires dict.Valid() && dict.dcnt == dict.icnt == 0
    requires PageCount(|col|, per) <= dict.d.Length && PageCount(|col|, per) <= dict.im.Length
    modifies dict, dict.d, dict.im
    ensures |AllMasks(col, bins, per)| == PageCount(|col|, per)
    ensures dict.Valid() && dict.Value() == Build(AllMasks(col, bins, per), old(dict.d[..]))
    ensures StandsFor(dict.Value(), AllMasks(col, bins, per)) <==>
      Losses(AllMasks(col, bins, per), old(dict.d[..])) == 0
    ensures PageCount(|col|, per) <= IMPS_MAX_CNT ==> StandsFor(dict.Value(), AllMasks(col, bins, per))
  {
    hide Made, MaskOf, Masked, PageCount, Sorted, GetBin, Bin, IsBin, Bits, Build, StandsFor, Losses;
    var mask: Mask, prvmask: Mask, bin := {}, {}, 0;
    ghost var k, s, slots, masks := 0, 0, dict.d[..], [];
    StartMasks(col, bins, per);
    MadeNone(dict);
    for i := 0 to |col|
      invariant s == k * per && s <= i <= s + per && (i > 0 ==> s < i) && s <= |col| && k < PageCount(|col|, per)
      invariant masks == Masked(col, bins, per, k) && |masks| == k && Made(dict, masks, slots)
      invariant prvmask == Before(masks) && mask == MaskOf(bins, col[s..i])
    {
      PageStart(per, k, s, i);
      if i % per == 0 && i > 0 {
        NextPage(col, bins, per, k, s);
        MaskNonEmpty(bins, col[s..i]);
        assert prvmask == mask ==> masks != []; // why the loop need not test dcnt > 0
        AddPage(dict, prvmask, mask, masks, slots);
        masks := masks + [mask];
        prvmask := mask;
        mask := {};
        k, s := k + 1, s + per;
        PageBelow(|col|, per, k, s);
      }
      BinIs(bins, col[i], bin);
      bin := GetBin(bins, col[i], bin);
      MaskNext(bins, col, s, i);
      mask := mask + {bin};
    }
    LastPage(|col|, per, k, s);
    assert col[s..|col|] == col[s..];
    AddPage(dict, prvmask, mask, masks, slots);
    masks := masks + [mask];
    Finished(dict, masks, slots);
  }

  lemma MadeNone(dict: Dictionary)
    requires dict.Valid() && dict.dcnt == dict.icnt == 0
    ensures Made(dict, [], dict.d[..])
  {
  }

  lemma Finished(dict: Dictionary, masks: seq<Mask>, slots: seq<Header>)
    requires Made(dict, masks, slots)
    ensures dict.Valid() && |masks| <= |slots| && dict.Value() == Build(masks, slots)
    ensures StandsFor(dict.Value(), masks) <==> Losses(masks, slots) == 0
    ensures |masks| <= IMPS_MAX_CNT ==> StandsFor(dict.Value(), masks)
  {
    hide Build, StandsFor;
    BuildExact(masks, slots);
    if |masks| <= IMPS_MAX_CNT {
      FewPages(masks, slots);
    }
  }

  lemma MaskNonEmpty(bins: seq<int>, vals: seq<int>)
    requires Sorted(bins) && Bits(|bins|) && vals != []
    ensures MaskOf(bins, vals) != {}
  {
    MaskHas(bins, vals, 0);
  }

  lemma BinIs(bins: seq<int>, x: int, z: int)
    requires Sorted(bins) && Bits(|bins|)
    ensures GetBin(bins, x, z) == Bin(bins, x) >= 0
  {
    hide GetBin;
    var w := Bin(bins, x);
    assert GetBin(bins, x, z) == w;
  }

  lemma StartMasks(col: seq<int>, bins: seq<int>, per: nat)
    requires Sorted(bins) && Bits(|bins|)
    ensures Masked(col, bins, per, 0) == [] && MaskOf(bins, col[0..0]) == {}
  {
  }

  lemma NextPage(col: seq<int>, bins: seq<int>, per: nat, k: nat, s: nat)
    requires Sorted(bins) && Bits(|bins|) && s == k * per && s + per <= |col|
    ensures s + per == (k + 1) * per
    ensures Masked(col, bins, per, k + 1) == Masked(col, bins, per, k) + [MaskOf(bins, col[s..s + per])]
    ensures MaskOf(bins, col[s + per..s + per]) == {}
  {
    Distribute(k, per);
  }

  lemma MaskNext(bins: seq<int>, col: seq<int>, s: nat, i: nat)
    requires Sorted(bins) && Bits(|bins|) && s <= i < |col|
    ensures MaskOf(bins, col[s..i + 1]) == MaskOf(bins, col[s..i]) + {Bin(bins, col[i])}
  {
    hide Bin, Sorted;
    assert col[s..i + 1][..i - s] == col[s..i];
  }

  // ---------------------------------------------------------------------- reading

  lemma {:induction false} CoversPrefix(ds: seq<Header>, k: nat)
    requires k <= |ds|
    ensures Covers(ds[..k]) <= Covers(ds)
    decreases |ds|
  {
    if k < |ds| {
      assert ds[..|ds| - 1][..k] == ds[..k];
      CoversPrefix(ds[..|ds| - 1], k);
    } else {
      assert ds[..k] == ds;
    }
  }

  /** The loop of IMPSprint reads the dictionary forward, and gives the pages one by one. */
  method ReadPages(ds: seq<Header>, ims: seq<Mask>) returns (pages: seq<Mask>)
    requires Covers(ds) <= |ims|
    ensures pages == Decode(ds, ims)
  {
    hide Decode, Covers;
    pages := [];
    var icnt := 0;
    NoHeaders(ds, ims);
    for dcnt := 0 to |ds|
      invariant icnt == Covers(ds[..dcnt]) && icnt <= |ims| && pages == Decode(ds[..dcnt], ims)
    {
      ghost var i0, pages0 := icnt, pages;
      assert ds[..dcnt + 1] == ds[..dcnt] + [ds[dcnt]];
      CoversPrefix(ds, dcnt + 1);
      CoversLast(ds[..dcnt], ds[dcnt]);
      if ds[dcnt].repeat {
        pages := pages + Repeat(ims[icnt], ds[dcnt].cnt);
        icnt := icnt + 1;
      } else {
        var l := icnt + ds[dcnt].cnt;
        while icnt < l
          invariant i0 <= icnt <= l <= |ims| && pages == pages0 + ims[i0..icnt]
        {
          pages := pages + [ims[icnt]];
          icnt := icnt + 1;
        }
      }
      DecodeLast(ds[..dcnt], ds[dcnt], ims);
    }
    assert ds[..|ds|] == ds;
  }

  lemma NoHeaders(ds: seq<Header>, ims: seq<Mask>)
    ensures Covers(ds[..0]) == 0 && Decode(ds[..0], ims) == []
  {
  }

  lemma {:induction false} MaskedAt(col: seq<int>, bins: seq<int>, per: nat, k: nat, p: nat)
    requires Sorted(bins) && Bits(|bins|) && p < k && k * per <= |col|
    ensures |Masked(col, bins, per, k)| == k && p * per + per <= |col|
    ensures Masked(col, bins, per, k)[p] == MaskOf(bins, col[p * per..p * per + per])
    decreases k
  {
    hide MaskOf;
    Distribute(k - 1, per);
    if p < k - 1 {
      MaskedAt(col, bins, per, k - 1, p);
    } else {
      MaskedLength(col, bins, per, k - 1);
    }
  }

  lemma {:induction false} MaskedLength(col: seq<int>, bins: seq<int>, per: nat, k: nat)
    requires Sorted(bins) && Bits(|bins|) && k * per <= |col|
    ensures |Masked(col, bins, per, k)| == k
  {
    hide MaskOf;
    if k > 0 {
      Distribute(k - 1, per);
      MaskedLength(col, bins, per, k - 1);
    }
  }

  lemma AllMasksAt(col: seq<int>, bins: seq<int>, per: nat, p: nat)
    requires Sorted(bins) && Bits(|bins|) && per > 0 && p < PageCount(|col|, per)
    ensures |AllMasks(col, bins, per)| == PageCount(|col|, per) && p * per <= |col|
    ensures if p + 1 < PageCount(|col|, per) then
        p * per + per <= |col| && AllMasks(col, bins, per)[p] == MaskOf(bins, col[p * per..p * per + per])
      else AllMasks(col, bins, per)[p] == MaskOf(bins, col[p * per..])
  {
    hide MaskOf, Masked, Sorted, PageCount;
    var k := PageCount(|col|, per) - 1;
    LastStart(|col|, per);
    MaskedLength(col, bins, per, k);
    if p < k {
      MaskedAt(col, bins, per, k, p);
    }
  }

  lemma PageOf(n: nat, per: nat, p: nat, i: nat)
    requires p * per <= i < p * per + per && i < n
    ensures p < PageCount(n, per)
  {
    DivBounds(n - 1, per, p);
  }

  /** The mask of page p has the bit of the value of each of its rows i. */
  lemma PageHasBit(col: seq<int>, bins: seq<int>, per: nat, p: nat, i: nat)
    requires Sorted(bins) && Bits(|bins|) && i < |col| && p * per <= i < p * per + per
    ensures p < |AllMasks(col, bins, per)| && Bin(bins, col[i]) in AllMasks(col, bins, per)[p]
  {
    hide AllMasks, MaskOf, Bin, Sorted, PageCount;
    PageOf(|col|, per, p, i);
    var s := p * per;
    AllMasksAt(col, bins, per, p);
    if p + 1 < PageCount(|col|, per) {
      MaskHas(bins, col[s..s + per], i - s);
    } else {
      MaskHas(bins, col[s..], i - s);
    }
  }

  /** Page p has a bit between the bins of lo and hi. */
  ghost predicate Selected(masks: seq<Mask>, p: nat, bins: seq<int>, lo: int, hi: int)
    requires Sorted(bins) && Bits(|bins|)
  {
    p < |masks| && exists w :: w in masks[p] && Bin(bins, lo) <= w <= Bin(bins, hi)
  }

  /** No page with a value in [lo, hi] is missed by a query for the bins of lo to hi. */
  lemma QueryComplete(col: seq<int>, bins: seq<int>, per: nat, p: nat, i: nat, lo: int, hi: int)
    requires Sorted(bins) && Bits(|bins|) && i < |col| && p * per <= i < p * per + per && lo <= col[i] <= hi
    ensures Selected(AllMasks(col, bins, per), p, bins, lo, hi)
  {
    hide AllMasks, Sorted, IsBin;
    PageHasBit(col, bins, per, p, i);
    BinMonotone(bins, lo, col[i], Bin(bins, lo), Bin(bins, col[i]));
    BinMonotone(bins, col[i], hi, Bin(bins, col[i]), Bin(bins, hi));
  }

  // -------------------------------------------------- a column of which nothing is left

  const EIGHT: seq<int> := [0, 1, 2, 3, 4, 5, 6, 7]

  /** n pages, full of 0 and full of 1 in turn. */
  function Stripes(n: nat, per: nat): (col: seq<int>)
    requires per > 0
  {
    seq(n * per, i => if i >= 0 && i / per % 2 == 0 then 0 else 1)
  }

  lemma {:induction false} MaskOfSame(bins: seq<int>, vals: seq<int>, w: nat)
    requires Sorted(bins) && Bits(|bins|) && vals != [] && forall i :: 0 <= i < |vals| ==> Bin(bins, vals[i]) == w
    ensures MaskOf(bins, vals) == {w}
  {
    hide Bin, Sorted, Bits;
    var init := vals[..|vals| - 1];
    if init == [] {
      assert MaskOf(bins, init) == {};
    } else {
      MaskOfSame(bins, init, w);
    }
  }

  lemma BinOf(x: int, w: nat)
    requires w == x < 2
    ensures Bin(EIGHT, x) == w
  {
    BinMonotone(EIGHT, x, x, Bin(EIGHT, x), w);
    BinMonotone(EIGHT, x, x, w, Bin(EIGHT, x));
  }

  lemma StripeMask(n: nat, per: nat, p: nat)
    requires per > 0 && p < n
    ensures (p + 1) * per <= n * per && p * per + per == (p + 1) * per
    ensures MaskOf(EIGHT, Stripes(n, per)[p * per..p * per + per]) == {p % 2}
  {
    hide MaskOf, Bin;
    Distribute(p, per);
    MulOrder(p + 1, n, per);
    var s := p * per;
    var vals := Stripes(n, per)[s..s + per];
    forall i | 0 <= i < |vals| ensures Bin(EIGHT, vals[i]) == p % 2 {
      DivBounds(s + i, per, p);
      BinOf(p % 2, p % 2);
    }
    MaskOfSame(EIGHT, vals, p % 2);
  }

  /** Masks in turn are those of a column, whatever the page size. */
  lemma StripesInTurn(n: nat, per: nat)
    requires per > 0 && n > 0
    ensures PageCount(|Stripes(n, per)|, per) == n && AllMasks(Stripes(n, per), EIGHT, per) == InTurn(n)
  {
    hide MaskOf, Masked, AllMasks;
    var col := Stripes(n, per);
    Distribute(n - 1, per);
    MulOrder(0, n - 1, per);
    LastPage(|col|, per, n - 1, (n - 1) * per);
    AllMasksAt(col, EIGHT, per, 0);
    forall p | 0 <= p < n ensures AllMasks(col, EIGHT, per)[p] == InTurn(n)[p] {
      AllMasksAt(col, EIGHT, per, p);
      StripeMask(n, per, p);
      if p == n - 1 {
        assert col[p * per..] == col[p * per..p * per + per];
      }
    }
  }

  /** imprints_create makes a dictionary that stands for the pages of the column. */
  ghost predicate Represented(col: seq<int>, bins: seq<int>, per: nat, slots: seq<Header>)
    requires Sorted(bins) && Bits(|bins|) && per > 0
  {
    var masks := AllMasks(col, bins, per);
    |masks| <= |slots| && StandsFor(Build(masks, slots), masks)
  }

  /**
   imprints_create is right for all columns of n pages, whatever the slots of the dictionary held,
   iff there are at most IMPS_MAX_CNT pages.
   */
  lemma CreateExact(n: nat, per: nat)
    requires n > 0 && per > 0
    ensures n <= IMPS_MAX_CNT <==>
      (forall col, bins, slots :: Sorted(bins) && Bits(|bins|) && PageCount(|col|, per) == n <= |slots| ==>
        Represented(col, bins, per, slots))
  {
    hide AllMasks, Build, StandsFor, Losses, PageCount, Stripes, Sorted;
    if n <= IMPS_MAX_CNT {
      forall col, bins, slots | Sorted(bins) && Bits(|bins|) && PageCount(|col|, per) == n <= |slots|
        ensures Represented(col, bins, per, slots)
      {
        AllMasksAt(col, bins, per, 0);
        FewPages(AllMasks(col, bins, per), slots);
        BuildExact(AllMasks(col, bins, per), slots);
      }
    } else {
      EightSorted();
      StripesInTurn(n, per);
      TooManyPages(n, n);
      BuildExact(InTurn(n), Unused(n));
      assert !Represented(Stripes(n, per), EIGHT, per, Unused(n));
    }
  }

  lemma EightSorted()
    ensures Sorted(EIGHT)
  {
  }
}
