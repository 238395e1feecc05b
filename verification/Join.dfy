/**
 The equi-joins of gdk_join.c: hashjoin, mergejoin in its binary search mode, and thetajoin as
 the nested loop that the others are held against. Values are integers with one nil.
 */
module Join {
  import Group

  datatype Option<T> = None | Some(value: T)

  // -------------------------------------------------------------------- candidates

  /** A candidate list: dense, or a list of increasing oids. */
  datatype Cand = Dense(first: nat, count: nat) | List(oids: seq<nat>)

  /** The rows that a join looks at: a range of oids, or listed ones. */
  datatype Rows = Range(start: nat, end: nat) | Listed(oids: seq<nat>)

  ghost predicate Increasing(s: seq<nat>) { forall i, j :: 0 <= i < j < |s| ==> s[i] < s[j] }

  ghost predicate RowsOk(rows: Rows) {
    match rows
    case Range(start, end) => start <= end
    case Listed(oids) => oids != [] && Increasing(oids)
  }

  function Size(rows: Rows): nat
    requires RowsOk(rows)
  {
    match rows
    case Range(start, end) => end - start
    case Listed(oids) => |oids|
  }

  function At(rows: Rows, k: nat): nat
    requires RowsOk(rows) && k < Size(rows)
  {
    match rows
    case Range(start, _) => start + k
    case Listed(oids) => oids[k]
  }

  predicate Has(rows: Rows, x: nat) {
    match rows
    case Range(start, end) => start <= x < end
    case Listed(oids) => x in oids
  }

  /** CANDINIT, for a column of `count` rows from oid `base`. */
  function CandInit(base: nat, count: nat, s: Option<Cand>): (rows: Rows)
    requires s.Some? && s.value.List? ==>
      Increasing(s.value.oids) && forall x :: x in s.value.oids ==> base <= x < base + count
    ensures RowsOk(rows)
    ensures forall x: nat :: Has(rows, x) <==> base <= x < base + count && (s.Some? ==> InCand(s.value, x))
  {
    match s
    case None => Range(base, base + count)
    case Some(List(oids)) => if oids == [] then Range(base, base) else Listed(oids)
    case Some(Dense(first, n)) =>
      if n == 0 then Range(base, base)
      else
        var start := if first <= base then 0 else if first >= base + count then count else first - base;
        var end := if first + n >= base + count then count else if first + n <= base then 0 else first + n - base;
        Range(base + start, base + end)
  }

  predicate InCand(s: Cand, x: nat) {
    match s
    case Dense(first, n) => first <= x < first + n
    case List(oids) => x in oids
  }

  /** binsearchcand: hi never drops below 0, although it may end up below lo. */
  method BinSearchCand(cand: seq<nat>, v: nat) returns (found: bool)
    requires cand != [] && Increasing(cand)
    ensures found <==> v in cand
  {
    var lo, hi := 0, |cand| - 1;
    if v < cand[lo] || v > cand[hi] {
      return false;
    }
    while hi > lo
      invariant 0 <= lo <= hi + 1 && 0 <= hi < |cand| && lo < |cand|
      invariant lo > 0 || cand[0] <= v
      invariant lo == hi + 1 ==> cand[lo] > v
      invariant forall i :: 0 <= i < |cand| && cand[i] == v ==> lo <= i <= hi
      decreases hi - lo
    {
      var mid := (lo + hi) / 2;
      if cand[mid] == v {
        return true;
      }
      if cand[mid] < v {
        lo := mid + 1;
      } else {
        hi := mid - 1;
      }
    }
    found := cand[lo] == v;
  }

  // ----------------------------------------------------------------- specification

  datatype Mode = Inner | Outer | Semi

  /** The comparison, as the mask that thetajoin makes of it. */
  datatype Op = Op(lt: bool, eq: bool, gt: bool)

  const EQ: Op := Op(false, true, false)

  predicate Compares(op: Op, v: int, w: int) { (op.lt && v < w) || (op.gt && v > w) || (op.eq && v == w) }

  /** The inputs of a join: two columns, the rows of each that take part, and the comparison. */
  datatype Input = Input(l: seq<int>, lbase: nat, lrows: Rows, r: seq<int>, rbase: nat, rrows: Rows, nil: int, op: Op)

  ghost predicate InputOk(j: Input) {
    && RowsOk(j.lrows) && RowsOk(j.rrows)
    && (forall x: nat :: Has(j.lrows, x) ==> j.lbase <= x < j.lbase + |j.l|)
    && (forall x: nat :: Has(j.rrows, x) ==> j.rbase <= x < j.rbase + |j.r|)
  }

  function LeftValue(j: Input, x: nat): int
    requires InputOk(j) && Has(j.lrows, x)
  {
    j.l[x - j.lbase]
  }

  function RightValue(j: Input, y: nat): int
    requires InputOk(j) && Has(j.rrows, y)
  {
    j.r[y - j.rbase]
  }

  /** Row y of the right column matches the value v of a left row. */
  predicate Match(j: Input, v: int, y: nat)
    requires InputOk(j)
  {
    v != j.nil && Has(j.rrows, y) && RightValue(j, y) != j.nil && Compares(j.op, v, RightValue(j, y))
  }

  ghost predicate Distinct(s: seq<Option<nat>>) { forall a, b :: 0 <= a < b < |s| ==> s[a] != s[b] }

  /** What one left row with value v contributes to the right column of the result. */
  ghost predicate RowResult(j: Input, mode: Mode, v: int, block: seq<Option<nat>>)
    requires InputOk(j)
  {
    var some := exists y :: Match(j, v, y);
    if mode.Semi? then
      (if some then |block| == 1 && block[0].Some? && Match(j, v, block[0].value) else block == [])
    else if mode.Outer? && v != j.nil && !some then block == [None]
    else Distinct(block) && forall y :: y in block <==> y.Some? && Match(j, v, y.value)
  }

  /** The right oids that stand beside left oid x in the result. */
  function BlockOf(r1: seq<nat>, r2: seq<Option<nat>>, x: nat): seq<Option<nat>>
    requires |r1| == |r2|
  {
    if r1 == [] then [] else
      var n := |r1| - 1;
      BlockOf(r1[..n], r2[..n], x) + if r1[n] == x then [r2[n]] else []
  }

  ghost predicate AmongFirst(rows: Rows, k: nat, x: nat)
    requires RowsOk(rows) && k <= Size(rows)
  {
    exists i: nat {:trigger At(rows, i)} :: i < k && At(rows, i) == x
  }

  /** The first k left rows have been joined: r1 is nondecreasing, and every row has its result. */
  ghost predicate Joined(j: Input, mode: Mode, k: nat, r1: seq<nat>, r2: seq<Option<nat>>) {
    && InputOk(j) && k <= Size(j.lrows) && |r1| == |r2|
    && (forall a, b :: 0 <= a < b < |r1| ==> r1[a] <= r1[b])
    && (forall a: nat {:trigger r1[a]} :: a < |r1| ==> AmongFirst(j.lrows, k, r1[a]))
    && (forall i: nat {:trigger At(j.lrows, i)} :: i < k ==>
          Has(j.lrows, At(j.lrows, i)) && RowResult(j, mode, LeftValue(j, At(j.lrows, i)),
            BlockOf(r1, r2, At(j.lrows, i))))
  }

  lemma AtHas(rows: Rows, k: nat)
    requires RowsOk(rows) && k < Size(rows)
    ensures Has(rows, At(rows, k))
    ensures forall i: nat :: i < k ==> At(rows, i) < At(rows, k)
  {
  }

  lemma HasAt(rows: Rows, x: nat) returns (k: nat)
    requires RowsOk(rows) && Has(rows, x)
    ensures k < Size(rows) && At(rows, k) == x
  {
    match rows
    case Range(start, _) => k := x - start;
    case Listed(oids) => k :| 0 <= k < |oids| && oids[k] == x;
  }

  function Repeat(x: nat, n: nat): (s: seq<nat>) { seq(n, _ => x) }

  lemma {:induction false} BlockAppend(r1: seq<nat>, r2: seq<Option<nat>>, x: nat, block: seq<Option<nat>>, z: nat)
    requires |r1| == |r2|
    ensures BlockOf(r1 + Repeat(x, |block|), r2 + block, z) == BlockOf(r1, r2, z) + if z == x then block else []
    decreases |block|
  {
    if block == [] {
      assert r1 + Repeat(x, 0) == r1 && r2 + block == r2;
    } else {
      var n := |block| - 1;
      BlockAppend(r1, r2, x, block[..n], z);
      var s1, s2 := r1 + Repeat(x, |block|), r2 + block;
      assert s1[..|s1| - 1] == r1 + Repeat(x, n) && s2[..|s2| - 1] == r2 + block[..n];
      assert block == block[..n] + [block[n]];
    }
  }

  lemma {:induction false} BlockNone(r1: seq<nat>, r2: seq<Option<nat>>, x: nat)
    requires |r1| == |r2| && x !in r1
    ensures BlockOf(r1, r2, x) == []
  {
    if r1 != [] {
      BlockNone(r1[..|r1| - 1], r2[..|r1| - 1], x);
    }
  }

  /** The next left row is joined by appending its block. */
  lemma AddRow(j: Input, mode: Mode, k: nat, r1: seq<nat>, r2: seq<Option<nat>>, block: seq<Option<nat>>)
    requires Joined(j, mode, k, r1, r2) && k < Size(j.lrows) && Has(j.lrows, At(j.lrows, k))
    requires RowResult(j, mode, LeftValue(j, At(j.lrows, k)), block)
    ensures Joined(j, mode, k + 1, r1 + Repeat(At(j.lrows, k), |block|), r2 + block)
  {
    hide RowResult, At, Size, Has;
    var x := At(j.lrows, k);
    var s1, s2 := r1 + Repeat(x, |block|), r2 + block;
    AtHas(j.lrows, k);
    assert x !in r1;
    BlockNone(r1, r2, x);
    forall i: nat | i < k + 1 ensures Has(j.lrows, At(j.lrows, i))
      && RowResult(j, mode, LeftValue(j, At(j.lrows, i)), BlockOf(s1, s2, At(j.lrows, i))) {
      BlockAppend(r1, r2, x, block, At(j.lrows, i));
      assert [] + block == block && BlockOf(r1, r2, At(j.lrows, i)) + [] == BlockOf(r1, r2, At(j.lrows, i));
    }
    forall a: nat | a < |s1| ensures AmongFirst(j.lrows, k + 1, s1[a]) {
      if a < |r1| {
        assert s1[a] == r1[a] && AmongFirst(j.lrows, k, r1[a]);
      }
    }
    forall a, b | 0 <= a < b < |s1| ensures s1[a] <= s1[b] {
      assert a < |r1| ==> s1[a] == r1[a] && r1[a] < x;
    }
  }

  // --------------------------------------------------- the results are the same

  function Zip(r1: seq<nat>, r2: seq<Option<nat>>): (s: seq<(nat, Option<nat>)>)
    requires |r1| == |r2|
  {
    seq(|r1|, i requires 0 <= i < |r1| => (r1[i], r2[i]))
  }

  lemma {:induction false} PairCount(r1: seq<nat>, r2: seq<Option<nat>>, x: nat, y: Option<nat>)
    requires |r1| == |r2|
    ensures multiset(Zip(r1, r2))[(x, y)] == multiset(BlockOf(r1, r2, x))[y]
  {
    if r1 != [] {
      var n := |r1| - 1;
      PairCount(r1[..n], r2[..n], x, y);
      assert Zip(r1, r2) == Zip(r1[..n], r2[..n]) + [(r1[n], r2[n])];
    }
  }

  lemma {:induction false} DistinctCount(s: seq<Option<nat>>, y: Option<nat>)
    requires Distinct(s)
    ensures multiset(s)[y] == if y in s then 1 else 0
  {
    if s != [] {
      var n := |s| - 1;
      DistinctCount(s[..n], y);
      assert s == s[..n] + [s[n]];
      assert s[n] !in s[..n];
    }
  }

  lemma SameRow(j: Input, mode: Mode, v: int, block: seq<Option<nat>>, block': seq<Option<nat>>, y: Option<nat>)
    requires InputOk(j) && !mode.Semi? && RowResult(j, mode, v, block) && RowResult(j, mode, v, block')
    ensures multiset(block)[y] == multiset(block')[y]
  {
    hide Match;
    if Distinct(block) && Distinct(block') {
      DistinctCount(block, y);
      DistinctCount(block', y);
    }
  }

  lemma InRows(j: Input, mode: Mode, r1: seq<nat>, r2: seq<Option<nat>>, a: nat)
    requires InputOk(j) && Joined(j, mode, Size(j.lrows), r1, r2) && a < |r1|
    ensures Has(j.lrows, r1[a])
  {
    hide RowResult, Has, At, Size;
    assert AmongFirst(j.lrows, Size(j.lrows), r1[a]);
    var i: nat :| i < Size(j.lrows) && At(j.lrows, i) == r1[a];
    AtHas(j.lrows, i);
  }

  lemma NoBlock(j: Input, mode: Mode, r1: seq<nat>, r2: seq<Option<nat>>, x: nat)
    requires InputOk(j) && Joined(j, mode, Size(j.lrows), r1, r2) && !Has(j.lrows, x)
    ensures BlockOf(r1, r2, x) == []
  {
    forall a | 0 <= a < |r1| ensures r1[a] != x {
      InRows(j, mode, r1, r2, a);
    }
    BlockNone(r1, r2, x);
  }

  /** Two inner (or two outer) joins of the same inputs give the same multiset of pairs. */
  lemma SamePairs(j: Input, mode: Mode, r1: seq<nat>, r2: seq<Option<nat>>, s1: seq<nat>, s2: seq<Option<nat>>)
    requires !mode.Semi? && InputOk(j) && |r1| == |r2| && |s1| == |s2|
    requires Joined(j, mode, Size(j.lrows), r1, r2) && Joined(j, mode, Size(j.lrows), s1, s2)
    ensures multiset(Zip(r1, r2)) == multiset(Zip(s1, s2))
  {
    hide RowResult, Has, Joined;
    var m, n := multiset(Zip(r1, r2)), multiset(Zip(s1, s2));
    forall p: (nat, Option<nat>) ensures m[p] == n[p] {
      var (x, y) := p;
      PairCount(r1, r2, x, y);
      PairCount(s1, s2, x, y);
      SameBlockCount(j, mode, r1, r2, s1, s2, x, y);
    }
  }

  lemma SameBlockCount(j: Input, mode: Mode, r1: seq<nat>, r2: seq<Option<nat>>, s1: seq<nat>, s2: seq<Option<nat>>,
      x: nat, y: Option<nat>)
    requires !mode.Semi? && InputOk(j) && Joined(j, mode, Size(j.lrows), r1, r2)
      && Joined(j, mode, Size(j.lrows), s1, s2)
    ensures multiset(BlockOf(r1, r2, x))[y] == multiset(BlockOf(s1, s2, x))[y]
  {
    hide RowResult, Has, At, BlockOf;
    if Has(j.lrows, x) {
      var k := HasAt(j.lrows, x);
      SameRow(j, mode, LeftValue(j, x), BlockOf(r1, r2, x), BlockOf(s1, s2, x), y);
    } else {
      NoBlock(j, mode, r1, r2, x);
      NoBlock(j, mode, s1, s2, x);
    }
  }

  // --------------------------------------------------------------------- thetajoin

  /** Of the first n right rows, block holds those that match v, in order. */
  ghost predicate Scanned(j: Input, v: int, n: nat, block: seq<Option<nat>>)
    requires InputOk(j) && n <= Size(j.rrows)
  {
    && Distinct(block)
    && (forall y :: y in block ==> y.Some? && Match(j, v, y.value) && AmongFirst(j.rrows, n, y.value))
    && (forall i: nat {:trigger At(j.rrows, i)} :: i < n && Match(j, v, At(j.rrows, i)) ==>
      Some(At(j.rrows, i)) in block)
  }

  lemma ScanNext(j: Input, v: int, n: nat, block: seq<Option<nat>>)
    requires InputOk(j) && n < Size(j.rrows) && Scanned(j, v, n, block)
    ensures var y := At(j.rrows, n);
      Scanned(j, v, n + 1, if Match(j, v, y) then block + [Some(y)] else block)
  {
    hide Match, At, Size;
    AtHas(j.rrows, n);
    var y := At(j.rrows, n);
    assert Some(y) !in block;
  }

  lemma ScanAll(j: Input, v: int, block: seq<Option<nat>>)
    requires InputOk(j) && Scanned(j, v, Size(j.rrows), block)
    ensures RowResult(j, Inner, v, block)
  {
    forall y: Option<nat> | y.Some? && Match(j, v, y.value) ensures y in block {
      var i := HasAt(j.rrows, y.value);
    }
  }

  /** The inner loop of thetajoin. */
  method ThetaRow(j: Input, v: int) returns (block: seq<Option<nat>>)
    requires InputOk(j) && v != j.nil
    ensures RowResult(j, Inner, v, block)
  {
    hide RowResult, Scanned, Match;
    block := [];
    ScanNone(j, v);
    for n := 0 to Size(j.rrows)
      invariant Scanned(j, v, n, block)
    {
      ScanNext(j, v, n, block);
      AtHas(j.rrows, n);
      var ro := At(j.rrows, n);
      var vr := RightValue(j, ro);
      MatchIs(j, v, ro);
      if vr != j.nil && Compares(j.op, v, vr) {
        block := block + [Some(ro)];
      }
    }
    ScanAll(j, v, block);
  }

  lemma ScanNone(j: Input, v: int)
    requires InputOk(j)
    ensures Scanned(j, v, 0, [])
  {
  }

  lemma MatchIs(j: Input, v: int, y: nat)
    requires InputOk(j) && Has(j.rrows, y)
    ensures Match(j, v, y) <==> v != j.nil && RightValue(j, y) != j.nil && Compares(j.op, v, RightValue(j, y))
  {
  }

  lemma JoinNone(j: Input, mode: Mode)
    requires InputOk(j)
    ensures Joined(j, mode, 0, [], [])
  {
  }

  lemma NilRow(j: Input, mode: Mode)
    requires InputOk(j)
    ensures RowResult(j, mode, j.nil, [])
  {
  }

  /** thetajoin: the nested loop, for any comparison. */
  method ThetaJoin(j: Input) returns (r1: seq<nat>, r2: seq<Option<nat>>)
    requires InputOk(j)
    ensures Joined(j, Inner, Size(j.lrows), r1, r2)
  {
    hide Joined, RowResult;
    r1, r2 := [], [];
    JoinNone(j, Inner);
    for k := 0 to Size(j.lrows)
      invariant |r1| == |r2| && Joined(j, Inner, k, r1, r2)
    {
      AtHas(j.lrows, k);
      var lo := At(j.lrows, k);
      var vl := LeftValue(j, lo);
      var block := [];
      if vl != j.nil {
        block := ThetaRow(j, vl);
      } else {
        NilRow(j, Inner);
      }
      AddRow(j, Inner, k, r1, r2, block);
      r1, r2 := r1 + Repeat(lo, |block|), r2 + block;
    }
  }

  ghost predicate Paired(r1: seq<nat>, r2: seq<Option<nat>>, x: nat, y: nat)
    requires |r1| == |r2|
  {
    exists k :: 0 <= k < |r1| && r1[k] == x && r2[k] == Some(y)
  }

  lemma {:induction false} PairedInBlock(r1: seq<nat>, r2: seq<Option<nat>>, x: nat, y: nat)
    requires |r1| == |r2|
    ensures Paired(r1, r2, x, y) <==> Some(y) in BlockOf(r1, r2, x)
  {
    if r1 != [] {
      var n := |r1| - 1;
      PairedInBlock(r1[..n], r2[..n], x, y);
      if Paired(r1[..n], r2[..n], x, y) {
        var k :| 0 <= k < n && r1[..n][k] == x && r2[..n][k] == Some(y);
        assert r1[k] == x && r2[k] == Some(y);
      }
      if Paired(r1, r2, x, y) {
        var k :| 0 <= k < |r1| && r1[k] == x && r2[k] == Some(y);
        assert k < n ==> r1[..n][k] == x && r2[..n][k] == Some(y);
      }
    }
  }

  /** Whether two rows are paired is decided by one bit of the mask, that of their order; nil pairs with nothing. */
  lemma ThetaPairs(j: Input, r1: seq<nat>, r2: seq<Option<nat>>, x: nat, y: nat)
    requires InputOk(j) && Joined(j, Inner, Size(j.lrows), r1, r2) && Has(j.lrows, x) && Has(j.rrows, y)
    ensures
      var v, w := LeftValue(j, x), RightValue(j, y);
      if v == j.nil || w == j.nil then !Paired(r1, r2, x, y)
      else
        && (v < w ==> (Paired(r1, r2, x, y) <==> j.op.lt)) && (v == w ==> (Paired(r1, r2, x, y) <==> j.op.eq))
        && (v > w ==> (Paired(r1, r2, x, y) <==> j.op.gt))
  {
    PairedInBlock(r1, r2, x, y);
    var k := HasAt(j.lrows, x);
    assert RowResult(j, Inner, LeftValue(j, x), BlockOf(r1, r2, x));
  }

  // ---------------------------------------------------------------------- hashjoin

  ghost predicate EquiJoin(j: Input) { InputOk(j) && j.op == EQ }

  /** Position p of the right column matches v. */
  predicate MatchAt(j: Input, v: int, p: nat)
    requires InputOk(j)
  {
    Match(j, v, p + j.rbase)
  }

  /** block has matches at positions above hb only. */
  ghost predicate Collected(j: Input, v: int, hb: int, block: seq<Option<nat>>)
    requires InputOk(j)
  {
    && Distinct(block)
    && (forall y :: y in block ==> y.Some? && Match(j, v, y.value) && y.value - j.rbase > hb)
  }

  /** A match that is not in block is on the chain from hb. */
  ghost predicate Ahead(j: Input, links: seq<int>, v: int, hb: int, block: seq<Option<nat>>)
    requires InputOk(j) && Group.ChainOk(links, hb)
  {
    forall p: nat {:trigger MatchAt(j, v, p)} :: MatchAt(j, v, p) ==>
      Some(p + j.rbase) in block || Group.OnChain(links, hb, p)
  }

  /**
   The right rows that hashjoin lets take part. Without a candidate list it compares the oids of
   rows with positions in the column.
   */
  function Tested(j: Input): (t: Input)
    requires InputOk(j)
    ensures InputOk(t) && t == j.(rrows := t.rrows)
    ensures j.rrows.Range? && Size(j.rrows) > 0 ==>
      forall y: nat :: Has(t.rrows, y) <==> j.rbase <= y < j.rbase + |j.r| && Has(j.rrows, y + j.rbase)
    ensures j.rrows.Listed? || Size(j.rrows) == 0 || j.rbase == 0 ==> t == j
  {
    match j.rrows
    case Listed(_) => j
    case Range(start, end) =>
      if start == end then j
      else
        assert Has(j.rrows, start) && Has(j.rrows, end - 1);
        var lo := if start - j.rbase < j.rbase then j.rbase else start - j.rbase;
        var hi := if end - j.rbase < lo then lo else end - j.rbase;
        j.(rrows := Range(lo, hi))
  }

  /** The test whether a row of the right column takes part: by range or in the candidate list. */
  method TakesPart(j: Input, ro: nat) returns (b: bool)
    requires InputOk(j) && j.rbase <= ro < j.rbase + |j.r|
    ensures b <==> Has(Tested(j).rrows, ro)
  {
    match j.rrows
    case Range(start, end) =>
      var rstart, rend := start - j.rbase, end - j.rbase;
      b := !(ro < rstart || ro >= rend);
    case Listed(oids) => b := BinSearchCand(oids, ro);
  }

  lemma ChainNext(links: seq<int>, hb: int, z: nat)
    requires Group.ChainOk(links, hb) && hb >= 0
    ensures hb < |links| && -1 <= links[hb] < hb && Group.ChainOk(links, links[hb])
    ensures Group.OnChain(links, hb, z) <==> hb == z || Group.OnChain(links, links[hb], z)
  {
  }

  lemma CollectStep(j: Input, v: int, hb: int, hb': int, block: seq<Option<nat>>)
    requires InputOk(j) && Collected(j, v, hb, block) && hb' < hb && hb >= 0
    ensures var y := hb + j.rbase;
      Collected(j, v, hb', if Match(j, v, y) then block + [Some(y)] else block)
  {
    hide Match;
    assert Some(hb + j.rbase) !in block;
  }

  lemma AheadStep(j: Input, links: seq<int>, v: int, hb: int, block: seq<Option<nat>>)
    requires InputOk(j) && Group.ChainOk(links, hb) && hb >= 0 && Ahead(j, links, v, hb, block)
    ensures var y := hb + j.rbase;
      hb < |links| && -1 <= links[hb] < hb && Group.ChainOk(links, links[hb])
      && Ahead(j, links, v, links[hb], if Match(j, v, y) then block + [Some(y)] else block)
  {
    hide Group.ChainOk, Group.OnChain, Match;
    var y := hb + j.rbase;
    ChainNext(links, hb, 0);
    var block' := if Match(j, v, y) then block + [Some(y)] else block;
    forall p: nat | MatchAt(j, v, p) ensures Some(p + j.rbase) in block' || Group.OnChain(links, links[hb], p) {
      ChainNext(links, hb, p);
    }
  }

  lemma AheadAll(j: Input, links: seq<int>, v: int, head: int)
    requires EquiJoin(j) && Group.ChainOk(links, head)
    requires forall p: nat :: p < |j.r| && j.r[p] == v ==> Group.OnChain(links, head, p)
    ensures Ahead(j, links, v, head, []) && Collected(j, v, head, [])
  {
  }

  lemma WalkedAll(j: Input, mode: Mode, links: seq<int>, v: int, block: seq<Option<nat>>)
    requires InputOk(j) && v != j.nil && Group.ChainOk(links, -1) && Collected(j, v, -1, block)
      && Ahead(j, links, v, -1, block)
    requires mode.Semi? ==> block == []
    ensures RowResult(j, mode, v, if mode.Outer? && block == [] then [None] else block)
  {
    hide Match;
    forall y: nat | Match(j, v, y) ensures Some(y) in block {
      MatchInColumn(j, v, y);
      assert MatchAt(j, v, y - j.rbase);
    }
    if block != [] {
      assert block[0] in block;
    }
  }

  lemma MatchInColumn(j: Input, v: int, y: nat)
    requires InputOk(j) && Match(j, v, y)
    ensures j.rbase <= y
  {
  }

  /** The HASHloop of hashjoin for one left value that is not nil. */
  method HashRow(j: Input, mode: Mode, v: int, head: int, links: seq<int>) returns (block: seq<Option<nat>>)
    requires EquiJoin(j) && v != j.nil && |links| == |j.r| && Group.ChainOk(links, head) && -1 <= head < |j.r|
    requires forall p: nat :: p < |j.r| && j.r[p] == v ==> Group.OnChain(links, head, p)
    ensures RowResult(Tested(j), mode, v, block)
  {
    hide Group.ChainOk, Group.OnChain, Match, Collected, Ahead, RowResult, Tested;
    block := [];
    var rb := head;
    ghost var t := Tested(j);
    AheadAll(t, links, v, head);
    while rb != -1
      invariant -1 <= rb < |j.r| && Group.ChainOk(links, rb) && Collected(t, v, rb, block)
        && Ahead(t, links, v, rb, block)
      invariant mode.Semi? ==> block == []
      decreases rb
    {
      AheadStep(t, links, v, rb, block);
      CollectStep(t, v, rb, links[rb], block);
      if j.r[rb] == v {
        var ro := rb + j.rbase;
        var part := TakesPart(j, ro);
        if part {
          block := block + [Some(ro)];
          MatchIs(t, v, ro);
          if mode.Semi? {
            OneMatch(t, v, ro);
            return;
          }
        } else {
          NotMatch(t, v, ro);
        }
      } else {
        NotMatch(t, v, rb + j.rbase);
      }
      rb := links[rb];
    }
    WalkedAll(t, mode, links, v, block);
    if block == [] && mode.Outer? {
      block := [None];
    }
  }

  lemma OneMatch(j: Input, v: int, y: nat)
    requires InputOk(j) && Match(j, v, y)
    ensures RowResult(j, Semi, v, [] + [Some(y)])
  {
  }

  lemma NotMatch(j: Input, v: int, y: nat)
    requires EquiJoin(j) && j.rbase <= y < j.rbase + |j.r| && (!Has(j.rrows, y) || j.r[y - j.rbase] != v)
    ensures !Match(j, v, y)
  {
  }

  /**
   hashjoin, with a hash table on the right column. Without a right candidate list the source
   compares oids with positions, so that it joins with other rows, unless the right column starts
   at oid 0.
   */
  method HashJoin(j: Input, mode: Mode, heads: seq<int>, links: seq<int>, probe: int -> nat)
    returns (r1: seq<nat>, r2: seq<Option<nat>>)
    requires EquiJoin(j) && Group.HashOf(j.r, heads, links, probe)
    requires forall v ::
      probe(v) < |heads| && -1 <= heads[probe(v)] < |j.r| && Group.ChainOk(links, heads[probe(v)])
    ensures Joined(Tested(j), mode, Size(j.lrows), r1, r2)
    ensures j.rrows.Listed? || Size(j.rrows) == 0 || j.rbase == 0 ==> Joined(j, mode, Size(j.lrows), r1, r2)
  {
    hide Joined, RowResult, Group.HashOf, Group.ChainOk, Group.OnChain, Tested;
    r1, r2 := [], [];
    ghost var t := Tested(j);
    JoinNone(t, mode);
    if Size(j.lrows) == 0 || (!mode.Outer? && Size(j.rrows) == 0) {
      NothingToJoin(t, mode);
      return;
    }
    for k := 0 to Size(j.lrows)
      invariant |r1| == |r2| && Joined(t, mode, k, r1, r2)
    {
      AtHas(j.lrows, k);
      var lo := At(j.lrows, k);
      var v := LeftValue(j, lo);
      var block := [];
      if v != j.nil {
        ChainComplete(j.r, heads, links, probe, v);
        block := HashRow(j, mode, v, heads[probe(v)], links);
      } else {
        NilRow(t, mode);
      }
      AddRow(t, mode, k, r1, r2, block);
      r1, r2 := r1 + Repeat(lo, |block|), r2 + block;
    }
  }

  /** One left row, and a right column that has its value in the last row of the range only. */
  function LastMatches(rbase: nat, count: nat, start: nat, end: nat): Input
    requires start < end
  {
    var r := seq(count, i => if i + rbase == end - 1 then 1 else 0);
    Input([1], 0, Range(0, 1), r, rbase, Range(start, end), -1, EQ)
  }

  lemma LastMissed(mode: Mode, rbase: nat, count: nat, start: nat, end: nat)
    requires 0 < rbase <= start < end <= rbase + count
    ensures var j := LastMatches(rbase, count, start, end);
      && EquiJoin(j) && RowsOk(j.lrows) && Size(j.lrows) == 1
      && var block := if mode.Outer? then [None] else [];
         RowResult(Tested(j), mode, 1, block) && !RowResult(j, mode, 1, block)
  {
    hide Tested;
    var j := LastMatches(rbase, count, start, end);
    assert RowsOk(j.lrows) && RowsOk(j.rrows);
    assert Match(j, 1, end - 1);
    var t := Tested(j);
    assert forall y: nat :: !Match(t, 1, y);
    var block: seq<Option<nat>> := if mode.Outer? then [None] else [];
    var missed: Option<nat> := Some(end - 1);
    assert missed !in block && Match(j, 1, missed.value);
    assert mode.Outer? ==> None in block;
  }

  /** What hashjoin may answer for j is a join of j. */
  ghost predicate HashRight(j: Input, mode: Mode, r1: seq<nat>, r2: seq<Option<nat>>)
    requires EquiJoin(j)
  {
    Joined(Tested(j), mode, Size(j.lrows), r1, r2) ==> Joined(j, mode, Size(j.lrows), r1, r2)
  }

  /**
   Without a right candidate list, hashjoin is right for all columns iff the right one starts at
   oid 0 or no row of it takes part.
   */
  lemma HashJoinExact(mode: Mode, rbase: nat, count: nat, start: nat, end: nat)
    requires rbase <= start <= end <= rbase + count
    ensures rbase == 0 || start == end <==>
      forall j, r1, r2 :: EquiJoin(j) && j.rbase == rbase && |j.r| == count && j.rrows == Range(start, end) ==>
        HashRight(j, mode, r1, r2)
  {
    hide Joined, RowResult, Tested, InputOk;
    if 0 < rbase && start < end {
      var j := LastMatches(rbase, count, start, end);
      LastMissed(mode, rbase, count, start, end);
      var block: seq<Option<nat>> := if mode.Outer? then [None] else [];
      var r1 := LastResult(mode, j, block);
      assert !HashRight(j, mode, r1, block);
    } else {
      forall j, r1, r2 | EquiJoin(j) && j.rbase == rbase && |j.r| == count && j.rrows == Range(start, end)
        ensures HashRight(j, mode, r1, r2)
      {
        TestedSame(j);
      }
    }
  }

  lemma TestedSame(j: Input)
    requires InputOk(j) && j.rrows.Range? && (j.rbase == 0 || j.rrows.start == j.rrows.end)
    ensures Tested(j) == j
  {
  }

  lemma LastResult(mode: Mode, j: Input, block: seq<Option<nat>>) returns (r1: seq<nat>)
    requires EquiJoin(j) && j.lrows == Range(0, 1) && j.l == [1] && j.lbase == 0
    requires RowResult(Tested(j), mode, 1, block) && !RowResult(j, mode, 1, block)
    ensures Joined(Tested(j), mode, 1, r1, block) && !Joined(j, mode, 1, r1, block)
  {
    hide RowResult, Tested;
    var t := Tested(j);
    JoinNone(t, mode);
    assert At(t.lrows, 0) == 0 && Has(t.lrows, 0) && LeftValue(t, 0) == 1;
    AddRow(t, mode, 0, [], [], block);
    r1 := [] + Repeat(0, |block|);
    assert [] + block == block;
    var none: seq<Option<nat>> := [];
    BlockAppend([], none, 0, block, 0);
    assert BlockOf([], none, 0) + block == block;
    assert At(j.lrows, 0) == 0 && LeftValue(j, 0) == 1;
  }

  lemma ChainComplete(r: seq<int>, heads: seq<int>, links: seq<int>, probe: int -> nat, v: int)
    requires Group.HashOf(r, heads, links, probe) && probe(v) < |heads| && Group.ChainOk(links, heads[probe(v)])
    ensures |links| == |r| && forall p: nat :: p < |r| && r[p] == v ==> Group.OnChain(links, heads[probe(v)], p)
  {
  }

  /** Without left rows, or without right rows unless misses count, the result is empty. */
  lemma {:induction false} NothingToJoin(j: Input, mode: Mode)
    requires InputOk(j) && (Size(j.lrows) == 0 || (!mode.Outer? && Size(j.rrows) == 0))
    ensures Joined(j, mode, Size(j.lrows), [], [])
  {
    JoinNone(j, mode);
    for k := 0 to Size(j.lrows)
      invariant Joined(j, mode, k, [], [])
    {
      AtHas(j.lrows, k);
      NoMatches(j, mode, LeftValue(j, At(j.lrows, k)));
      var none: seq<Option<nat>> := [];
      AddRow(j, mode, k, [], none, none);
      assert [] + Repeat(At(j.lrows, k), 0) == [] && none + none == none;
    }
  }

  lemma NoMatches(j: Input, mode: Mode, v: int)
    requires InputOk(j) && !mode.Outer? && Size(j.rrows) == 0
    ensures RowResult(j, mode, v, [])
  {
    forall y: nat | Has(j.rrows, y) ensures false {
      var k := HasAt(j.rrows, y);
    }
  }

  // --------------------------------------------- mergejoin, with binary search on r

  predicate Precedes(v: int, w: int, reverse: bool) { if reverse then v > w else v < w }

  /** The value of the i-th right row that takes part. */
  function Key(j: Input, i: nat): int
    requires InputOk(j) && i < Size(j.rrows)
  {
    AtHas(j.rrows, i);
    RightValue(j, At(j.rrows, i))
  }

  ghost predicate Ordered(j: Input, reverse: bool)
    requires InputOk(j)
  {
    forall a: nat, b: nat {:trigger Key(j, a), Key(j, b)} :: a < b < Size(j.rrows) ==>
      !Precedes(Key(j, b), Key(j, a), reverse)
  }

  /** A right column in order gives right rows in order. */
  lemma ColumnOrdered(j: Input, reverse: bool)
    requires InputOk(j) && if reverse then Group.RevSorted(j.r) else Group.Sorted(j.r)
    ensures Ordered(j, reverse)
  {
    forall a: nat, b: nat | a < b < Size(j.rrows) ensures !Precedes(Key(j, b), Key(j, a), reverse) {
      AtHas(j.rrows, a);
      AtHas(j.rrows, b);
    }
  }

  /** Row i stays behind the place that binsearch looks for. */
  predicate Behind(j: Input, v: int, reverse: bool, last: bool, i: nat)
    requires InputOk(j) && i < Size(j.rrows)
  {
    if last then !Precedes(v, Key(j, i), reverse) else Precedes(Key(j, i), v, reverse)
  }

  lemma BehindMonotone(j: Input, v: int, reverse: bool, last: bool, a: nat, b: nat)
    requires InputOk(j) && Ordered(j, reverse) && a <= b < Size(j.rrows) && Behind(j, v, reverse, last, b)
    ensures Behind(j, v, reverse, last, a)
  {
    hide Key;
    assert a < b ==> !Precedes(Key(j, b), Key(j, a), reverse);
  }

  /** binsearch: the first row in [lo, hi) with a value >= v, or > v if `last`. */
  method BinSearch(j: Input, lo0: nat, hi0: nat, v: int, reverse: bool, last: bool) returns (p: nat)
    requires InputOk(j) && Ordered(j, reverse) && lo0 < hi0 <= Size(j.rrows)
    ensures lo0 <= p <= hi0
    ensures forall i: nat :: lo0 <= i < hi0 ==> (Behind(j, v, reverse, last, i) <==> i < p)
  {
    hide Key, Ordered;
    var lo, hi := lo0, hi0 - 1;
    if !Behind(j, v, reverse, last, lo) {
      Split(j, v, reverse, last, lo0, hi0, lo);
      return lo;
    }
    if Behind(j, v, reverse, last, hi) {
      Split(j, v, reverse, last, lo0, hi0, hi + 1);
      return hi + 1;
    }
    while hi - lo > 1
      invariant lo0 <= lo < hi < hi0 && Behind(j, v, reverse, last, lo) && !Behind(j, v, reverse, last, hi)
    {
      var mid := (hi + lo) / 2;
      if !Behind(j, v, reverse, last, mid) {
        hi := mid;
      } else {
        lo := mid;
      }
    }
    Split(j, v, reverse, last, lo0, hi0, hi);
    p := hi;
  }

  lemma Split(j: Input, v: int, reverse: bool, last: bool, lo: nat, hi: nat, p: nat)
    requires InputOk(j) && Ordered(j, reverse) && lo <= p <= hi <= Size(j.rrows)
    requires (p > lo ==> Behind(j, v, reverse, last, p - 1)) && (p < hi ==> !Behind(j, v, reverse, last, p))
    ensures forall i: nat :: lo <= i < hi ==> (Behind(j, v, reverse, last, i) <==> i < p)
  {
    hide Behind, Ordered;
    forall i: nat | lo <= i < hi ensures Behind(j, v, reverse, last, i) <==> i < p {
      if i < p {
        BehindMonotone(j, v, reverse, last, i, p - 1);
      } else if Behind(j, v, reverse, last, i) {
        BehindMonotone(j, v, reverse, last, p, i);
      }
    }
  }

  /** The window in which r is scanned before binary search is tried. */
  method ScanWindow(n: nat) returns (w: nat)
    ensures w >= 4
  {
    w := 4;
    var m := n;
    while m > 0
      invariant w >= 4
    {
      m := m / 2;
      w := w + 1;
    }
  }

  /** [s, s + nr) are the right rows with value v. */
  ghost predicate IsRange(j: Input, v: int, s: nat, nr: nat)
    requires InputOk(j)
  {
    s + nr <= Size(j.rrows) && forall i: nat {:trigger Key(j, i)} :: i < Size(j.rrows) ==>
      (Key(j, i) == v <==> s <= i < s + nr)
  }

  /** The range of right rows that are equal to v; how many there are is found by scan or search. */
  method EqualRange(j: Input, v: int, reverse: bool, rscan: nat) returns (s: nat, nr: nat)
    requires InputOk(j) && Ordered(j, reverse) && Size(j.rrows) > 0
    ensures s + nr <= Size(j.rrows) && IsRange(j, v, s, nr)
  {
    hide Key, Ordered;
    var rend := Size(j.rrows);
    s := BinSearch(j, 0, rend, v, reverse, false);
    nr := 0;
    if rscan < rend - s && Key(j, s + rscan) == v {
      var p := BinSearch(j, s + rscan, rend, v, reverse, true);
      nr := p - s;
      SearchedRange(j, v, reverse, s, rscan, p);
    } else {
      while s + nr < rend && v == Key(j, s + nr)
        invariant s + nr <= rend && forall i: nat {:trigger Key(j, i)} :: s <= i < s + nr ==> Key(j, i) == v
      {
        nr := nr + 1;
      }
      ScannedRange(j, v, reverse, s, nr);
    }
  }

  lemma SearchedRange(j: Input, v: int, reverse: bool, s: nat, rscan: nat, p: nat)
    requires InputOk(j) && Ordered(j, reverse) && s + rscan <= p <= Size(j.rrows) && s + rscan < Size(j.rrows)
    requires forall i: nat :: i < Size(j.rrows) ==> (Behind(j, v, reverse, false, i) <==> i < s)
    requires forall i: nat :: s + rscan <= i < Size(j.rrows) ==> (Behind(j, v, reverse, true, i) <==> i < p)
    requires Key(j, s + rscan) == v
    ensures IsRange(j, v, s, p - s)
  {
    hide Key;
    forall i: nat | i < Size(j.rrows) ensures Key(j, i) == v <==> s <= i < p {
      assert Behind(j, v, reverse, false, i) <==> i < s;
      if i < s + rscan {
        assert !Precedes(Key(j, s + rscan), Key(j, i), reverse);
      } else {
        assert Behind(j, v, reverse, true, i) <==> i < p;
      }
    }
  }

  lemma ScannedRange(j: Input, v: int, reverse: bool, s: nat, nr: nat)
    requires InputOk(j) && Ordered(j, reverse) && s + nr <= Size(j.rrows)
    requires forall i: nat :: i < Size(j.rrows) ==> (Behind(j, v, reverse, false, i) <==> i < s)
    requires forall i: nat {:trigger Key(j, i)} :: s <= i < s + nr ==> Key(j, i) == v
    requires s + nr < Size(j.rrows) ==> Key(j, s + nr) != v
    ensures IsRange(j, v, s, nr)
  {
    hide Key;
    forall i: nat | i < Size(j.rrows) ensures Key(j, i) == v <==> s <= i < s + nr {
      assert Behind(j, v, reverse, false, i) <==> i < s;
      if i >= s + nr {
        assert Behind(j, v, reverse, false, s + nr) <==> s + nr < s;
        assert i > s + nr ==> !Precedes(Key(j, i), Key(j, s + nr), reverse);
      }
    }
  }

  /** The right oids of a range of rows. */
  function Slice(j: Input, s: nat, nr: nat): (block: seq<Option<nat>>)
    requires InputOk(j) && s + nr <= Size(j.rrows)
  {
    seq(nr, i requires 0 <= i < nr => Some(At(j.rrows, s + i)))
  }

  lemma KeyMatch(j: Input, v: int, i: nat)
    requires EquiJoin(j) && v != j.nil && i < Size(j.rrows)
    ensures Match(j, v, At(j.rrows, i)) <==> Key(j, i) == v
  {
    AtHas(j.rrows, i);
  }

  /** What one value of the left column gives, in each mode. */
  lemma RangeResult(j: Input, mode: Mode, v: int, s: nat, nr: nat)
    requires EquiJoin(j) && v != j.nil && IsRange(j, v, s, nr)
    ensures RowResult(j, mode, v,
      if nr == 0 then (if mode.Outer? then [None] else [])
      else if mode.Semi? then Slice(j, s + nr - 1, 1) else Slice(j, s, nr))
  {
    hide Match, Key, At, Size;
    forall y: nat | Match(j, v, y)
      ensures exists i: nat {:trigger At(j.rrows, i)} :: s <= i < s + nr && At(j.rrows, i) == y {
      var i := MatchRow(j, v, y);
      KeyMatch(j, v, i);
    }
    if nr > 0 {
      KeyMatch(j, v, s + nr - 1);
      SliceDistinct(j, s, nr);
      SliceMatches(j, v, s, nr);
    }
  }

  lemma MatchRow(j: Input, v: int, y: nat) returns (i: nat)
    requires InputOk(j) && Match(j, v, y)
    ensures i < Size(j.rrows) && At(j.rrows, i) == y
  {
    i := HasAt(j.rrows, y);
  }

  lemma SliceDistinct(j: Input, s: nat, nr: nat)
    requires InputOk(j) && s + nr <= Size(j.rrows)
    ensures Distinct(Slice(j, s, nr))
  {
    hide At, Size;
    forall a, b | 0 <= a < b < nr ensures Slice(j, s, nr)[a] != Slice(j, s, nr)[b] {
      AtHas(j.rrows, s + b);
    }
  }

  lemma SliceMatches(j: Input, v: int, s: nat, nr: nat)
    requires EquiJoin(j) && v != j.nil && IsRange(j, v, s, nr)
    ensures forall y :: y in Slice(j, s, nr) <==> y.Some? && Match(j, v, y.value)
  {
    hide Match, Key, At, Size;
    forall y: Option<nat> ensures y in Slice(j, s, nr) <==> y.Some? && Match(j, v, y.value) {
      if y in Slice(j, s, nr) {
        var a :| 0 <= a < nr && Slice(j, s, nr)[a] == y;
        KeyMatch(j, v, s + a);
      }
      if y.Some? && Match(j, v, y.value) {
        var i := MatchRow(j, v, y.value);
        KeyMatch(j, v, i);
        assert Slice(j, s, nr)[i - s] == y;
      }
    }
  }

  function LeftAt(j: Input, k: nat): int
    requires InputOk(j) && k < Size(j.lrows)
  {
    AtHas(j.lrows, k);
    LeftValue(j, At(j.lrows, k))
  }

  /** The run of left rows with the value of row k. */
  method LeftRun(j: Input, k: nat) returns (nl: nat)
    requires InputOk(j) && k < Size(j.lrows)
    ensures nl > 0 && k + nl <= Size(j.lrows) && forall i: nat :: k <= i < k + nl ==> LeftAt(j, i) == LeftAt(j, k)
    ensures k + nl < Size(j.lrows) ==> LeftAt(j, k + nl) != LeftAt(j, k)
  {
    nl := 1;
    while k + nl < Size(j.lrows) && LeftAt(j, k + nl) == LeftAt(j, k)
      invariant k + nl <= Size(j.lrows) && forall i: nat :: k <= i < k + nl ==> LeftAt(j, i) == LeftAt(j, k)
    {
      nl := nl + 1;
    }
  }

  /** The same right oids are inserted for each left row of a run. */
  method InsertRun(j: Input, mode: Mode, k: nat, nl: nat, block: seq<Option<nat>>, q1: seq<nat>, q2: seq<Option<nat>>)
    returns (r1: seq<nat>, r2: seq<Option<nat>>)
    requires InputOk(j) && k + nl <= Size(j.lrows) && |q1| == |q2| && Joined(j, mode, k, q1, q2)
    requires forall i: nat :: k <= i < k + nl ==> RowResult(j, mode, LeftAt(j, i), block)
    ensures |r1| == |r2| && Joined(j, mode, k + nl, r1, r2)
  {
    hide Joined, RowResult;
    r1, r2 := q1, q2;
    for i := k to k + nl
      invariant |r1| == |r2| && Joined(j, mode, i, r1, r2)
    {
      assert RowResult(j, mode, LeftAt(j, i), block);
      AtHas(j.lrows, i);
      AddRow(j, mode, i, r1, r2, block);
      r1, r2 := r1 + Repeat(At(j.lrows, i), |block|), r2 + block;
    }
  }

  /**
   mergejoin for a left column that is not sorted (lscan == 0): binary search on r for each
   value. binsearch asserts that there is something to search, so an outer join must not come
   here with an empty right side unless every left value is nil; `violated` tells that it did.
   */
  method MergeJoin(j: Input, mode: Mode, reverse: bool) returns (violated: bool, r1: seq<nat>, r2: seq<Option<nat>>)
    requires EquiJoin(j) && if reverse then Group.RevSorted(j.r) else Group.Sorted(j.r)
    ensures !violated ==> Joined(j, mode, Size(j.lrows), r1, r2)
    ensures violated <==>
      mode.Outer? && Size(j.rrows) == 0 && exists k: nat :: k < Size(j.lrows) && LeftAt(j, k) != j.nil
  {
    hide Joined, RowResult, LeftAt, Ordered, Group.Sorted, Group.RevSorted, IsRange;
    violated, r1, r2 := false, [], [];
    JoinNone(j, mode);
    if Size(j.lrows) == 0 || (!mode.Outer? && Size(j.rrows) == 0) {
      NothingToJoin(j, mode);
      return;
    }
    ColumnOrdered(j, reverse);
    var rscan := ScanWindow(Size(j.rrows));
    var k := 0;
    while k < Size(j.lrows)
      invariant k <= Size(j.lrows) && |r1| == |r2| && Joined(j, mode, k, r1, r2)
      invariant Size(j.rrows) == 0 ==> forall i: nat :: i < k ==> LeftAt(j, i) == j.nil
    {
      var v := LeftAt(j, k);
      var nl := LeftRun(j, k);
      var block := [];
      if v == j.nil {
        NilRow(j, mode);
      } else {
        if Size(j.rrows) == 0 {
          violated := true;
          return;
        }
        var s, nr := EqualRange(j, v, reverse, rscan);
        RangeResult(j, mode, v, s, nr);
        if nr == 0 {
          block := if mode.Outer? then [None] else [];
        } else {
          block := if mode.Semi? then Slice(j, s + nr - 1, 1) else Slice(j, s, nr);
        }
      }
      r1, r2 := InsertRun(j, mode, k, nl, block, r1, r2);
      k := k + nl;
    }
  }

  /** One row on the left, none on the right. */
  function OneAndNone(): Input { Input([5], 0, Range(0, 1), [], 0, Range(0, 0), -1, EQ) }

  lemma OneAndNoneOk()
    ensures var j := OneAndNone();
      EquiJoin(j) && Group.Sorted(j.r) && Size(j.rrows) == 0 < Size(j.lrows) && LeftAt(j, 0) != j.nil
  {
    var j := OneAndNone();
    assert RowsOk(j.lrows) && RowsOk(j.rrows);
    assert EquiJoin(j);
    hide InputOk;
    AtHas(j.lrows, 0);
    assert LeftValue(j, 0) == 5;
  }

  /** A run: the outer join of one row with an empty column reaches the assertion. */
  method OuterWithNothing() returns (violated: bool)
    ensures violated
  {
    hide *;
    OneAndNoneOk();
    var r1, r2;
    violated, r1, r2 := MergeJoin(OneAndNone(), Outer, false);
  }

  // ----------------------------------- mergejoin, for an outer join with a sorted left column

  /** In the window [a, b) of right rows, [s, s + nr) are those with value v. */
  ghost predicate InWindow(j: Input, v: int, rev: bool, a: nat, b: nat, s: nat, nr: nat)
    requires InputOk(j) && b <= Size(j.rrows)
  {
    && a <= s && s + nr <= b
    && (forall i: nat {:trigger Key(j, i)} :: a <= i < s ==> Precedes(Key(j, i), v, rev))
    && (forall i: nat {:trigger Key(j, i)} :: s <= i < s + nr ==> Key(j, i) == v)
    && (forall i: nat {:trigger Key(j, i)} :: s + nr <= i < b ==> Precedes(v, Key(j, i), rev))
  }

  lemma OrderedAt(j: Input, rev: bool, x: nat, y: nat)
    requires InputOk(j) && Ordered(j, rev) && x <= y < Size(j.rrows)
    ensures !Precedes(Key(j, y), Key(j, x), rev)
  {
    hide Key;
    if x < y {
      assert !Precedes(Key(j, y), Key(j, x), rev);
    }
  }

  /** The ends of a window in order tell all of it. */
  lemma WindowOf(j: Input, v: int, rev: bool, a: nat, b: nat, s: nat, nr: nat)
    requires InputOk(j) && Ordered(j, rev) && a <= s && s + nr <= b <= Size(j.rrows)
    requires a < s ==> Precedes(Key(j, s - 1), v, rev)
    requires nr > 0 ==> Key(j, s) == v && Key(j, s + nr - 1) == v
    requires s + nr < b ==> Precedes(v, Key(j, s + nr), rev)
    ensures InWindow(j, v, rev, a, b, s, nr)
  {
    hide Key, Ordered;
    forall i: nat | a <= i < s ensures Precedes(Key(j, i), v, rev) {
      OrderedAt(j, rev, i, s - 1);
    }
    forall i: nat | s <= i < s + nr ensures Key(j, i) == v {
      OrderedAt(j, rev, s, i);
      OrderedAt(j, rev, i, s + nr - 1);
    }
    forall i: nat | s + nr <= i < b ensures Precedes(v, Key(j, i), rev) {
      OrderedAt(j, rev, s + nr, i);
    }
  }

  /** Scanning in the order of r: the first row of the window that is not before v. */
  method SeekForward(j: Input, v: int, rev: bool, rscan: nat, a: nat, b: nat) returns (s: nat)
    requires InputOk(j) && Ordered(j, rev) && a <= b <= Size(j.rrows)
    ensures a <= s <= b && (a < s ==> Precedes(Key(j, s - 1), v, rev)) && (s < b ==> !Precedes(Key(j, s), v, rev))
  {
    hide Key, Ordered;
    if rscan < b - a && Precedes(Key(j, a + rscan), v, rev) {
      s := BinSearch(j, a + rscan, b, v, rev, false);
      assert Behind(j, v, rev, false, a + rscan);
      assert Behind(j, v, rev, false, s - 1);
      assert s < b ==> !Behind(j, v, rev, false, s);
    } else {
      s := a;
      while s < b && Precedes(Key(j, s), v, rev)
        invariant a <= s <= b && (a < s ==> Precedes(Key(j, s - 1), v, rev))
      {
        s := s + 1;
      }
    }
  }

  /** The rows equal to v in the window, counted from their first one. */
  method CountForward(j: Input, v: int, rev: bool, rscan: nat, s: nat, b: nat) returns (nr: nat)
    requires InputOk(j) && Ordered(j, rev) && s <= b <= Size(j.rrows) && (s < b ==> !Precedes(Key(j, s), v, rev))
    ensures s + nr <= b && (nr > 0 ==> Key(j, s) == v && Key(j, s + nr - 1) == v)
    ensures s + nr < b ==> Precedes(v, Key(j, s + nr), rev)
  {
    hide Key, Ordered;
    nr := 0;
    if rscan < b - s && Key(j, s + rscan) == v {
      var p := BinSearch(j, s + rscan, b, v, rev, true);
      nr := p - s;
      OrderedAt(j, rev, s, s + rscan);
      assert Behind(j, v, rev, true, s + rscan);
      assert Behind(j, v, rev, true, p - 1);
      OrderedAt(j, rev, s, p - 1);
      assert p < b ==> !Behind(j, v, rev, true, p);
    } else {
      while s + nr < b && Key(j, s + nr) == v
        invariant s + nr <= b && (nr > 0 ==> Key(j, s) == v && Key(j, s + nr - 1) == v)
      {
        nr := nr + 1;
      }
      if s + nr < b {
        OrderedAt(j, rev, s, s + nr);
      }
    }
  }

  /** Scanning against the order of r: the end of the rows that are not behind v. */
  method SeekBackward(j: Input, v: int, rev: bool, rscan: nat, a: nat, b: nat) returns (e: nat)
    requires InputOk(j) && Ordered(j, rev) && a <= b <= Size(j.rrows)
    ensures a <= e <= b && (a < e ==> !Precedes(v, Key(j, e - 1), rev)) && (e < b ==> Precedes(v, Key(j, e), rev))
  {
    hide Key, Ordered;
    if rscan < b - a && Precedes(v, Key(j, b - rscan - 1), rev) {
      e := BinSearch(j, a, b - rscan, v, rev, true);
      assert !Behind(j, v, rev, true, b - rscan - 1);
      assert a < e ==> Behind(j, v, rev, true, e - 1);
      assert !Behind(j, v, rev, true, e);
    } else {
      e := b;
      while a < e && Precedes(v, Key(j, e - 1), rev)
        invariant a <= e <= b && (e < b ==> Precedes(v, Key(j, e), rev))
      {
        e := e - 1;
      }
    }
  }

  /** The rows equal to v in the window, counted from their last one. */
  method CountBackward(j: Input, v: int, rev: bool, rscan: nat, a: nat, e: nat) returns (nr: nat)
    requires InputOk(j) && Ordered(j, rev) && a <= e <= Size(j.rrows) && (a < e ==> !Precedes(v, Key(j, e - 1), rev))
    ensures a + nr <= e && (nr > 0 ==> Key(j, e - nr) == v && Key(j, e - 1) == v)
    ensures a < e - nr ==> Precedes(Key(j, e - nr - 1), v, rev)
  {
    hide Key, Ordered;
    nr := 0;
    if rscan < e - a && Key(j, e - rscan - 1) == v {
      var p := BinSearch(j, a, e - rscan, v, rev, false);
      nr := e - p;
      OrderedAt(j, rev, e - rscan - 1, e - 1);
      assert !Behind(j, v, rev, false, e - rscan - 1);
      assert !Behind(j, v, rev, false, p);
      OrderedAt(j, rev, p, e - rscan - 1);
      assert a < p ==> Behind(j, v, rev, false, p - 1);
    } else {
      while a < e - nr && Key(j, e - nr - 1) == v
        invariant a + nr <= e && (nr > 0 ==> Key(j, e - nr) == v && Key(j, e - 1) == v)
      {
        nr := nr + 1;
      }
      if a < e - nr {
        OrderedAt(j, rev, e - nr - 1, e - 1);
      }
    }
  }

  /** All right rows with value v are in the window. */
  ghost predicate Seen(j: Input, v: int, a: nat, b: nat)
    requires InputOk(j)
  {
    forall p: nat {:trigger Key(j, p)} :: p < Size(j.rrows) && Key(j, p) == v ==> a <= p < b
  }

  function OuterBlock(j: Input, s: nat, nr: nat): seq<Option<nat>>
    requires InputOk(j) && s + nr <= Size(j.rrows)
  {
    if nr == 0 then [None] else Slice(j, s, nr)
  }

  /** What is found in the window is the result of the left row iff no right row was passed by. */
  lemma WindowResult(j: Input, v: int, rev: bool, a: nat, b: nat, s: nat, nr: nat)
    requires EquiJoin(j) && v != j.nil && b <= Size(j.rrows) && InWindow(j, v, rev, a, b, s, nr)
    ensures RowResult(j, Outer, v, OuterBlock(j, s, nr)) <==> Seen(j, v, a, b)
  {
    hide Key, RowResult, Slice;
    if Seen(j, v, a, b) {
      RangeResult(j, Outer, v, s, nr);
    } else {
      var p: nat :| p < Size(j.rrows) && Key(j, p) == v && !(a <= p < b);
      MissedResult(j, v, s, nr, p);
    }
  }

  lemma MissedResult(j: Input, v: int, s: nat, nr: nat, p: nat)
    requires EquiJoin(j) && v != j.nil && s + nr <= Size(j.rrows)
    requires p < Size(j.rrows) && Key(j, p) == v && !(s <= p < s + nr)
    ensures !RowResult(j, Outer, v, OuterBlock(j, s, nr))
  {
    hide Match, Key, At, Size;
    KeyMatch(j, v, p);
    var y: Option<nat> := Some(At(j.rrows, p));
    if nr == 0 {
      assert None in OuterBlock(j, s, nr);
    } else {
      forall i | 0 <= i < nr ensures OuterBlock(j, s, nr)[i] != y {
        DifferentRows(j.rrows, s + i, p);
      }
      assert y !in OuterBlock(j, s, nr);
    }
  }

  lemma DifferentRows(rows: Rows, x: nat, y: nat)
    requires RowsOk(rows) && x < Size(rows) && y < Size(rows) && x != y
    ensures At(rows, x) != At(rows, y)
  {
  }

  /** The first k left rows have been given these blocks, right or wrong. */
  ghost predicate Laid(j: Input, r1: seq<nat>, r2: seq<Option<nat>>, blocks: seq<seq<Option<nat>>>) {
    && InputOk(j) && |blocks| <= Size(j.lrows) && |r1| == |r2|
    && (forall a, b :: 0 <= a < b < |r1| ==> r1[a] <= r1[b])
    && (forall a: nat {:trigger r1[a]} :: a < |r1| ==> AmongFirst(j.lrows, |blocks|, r1[a]))
    && (forall i: nat {:trigger blocks[i]} :: i < |blocks| ==> BlockOf(r1, r2, At(j.lrows, i)) == blocks[i])
  }

  lemma LayNone(j: Input)
    requires InputOk(j)
    ensures Laid(j, [], [], [])
  {
  }

  lemma LayRow(j: Input, r1: seq<nat>, r2: seq<Option<nat>>, blocks: seq<seq<Option<nat>>>, block: seq<Option<nat>>)
    requires Laid(j, r1, r2, blocks) && |blocks| < Size(j.lrows)
    ensures Laid(j, r1 + Repeat(At(j.lrows, |blocks|), |block|), r2 + block, blocks + [block])
  {
    hide At, Size;
    var k := |blocks|;
    var x := At(j.lrows, k);
    var s1, s2 := r1 + Repeat(x, |block|), r2 + block;
    AtHas(j.lrows, k);
    assert x !in r1;
    BlockNone(r1, r2, x);
    forall i: nat | i < k + 1 ensures BlockOf(s1, s2, At(j.lrows, i)) == (blocks + [block])[i] {
      BlockAppend(r1, r2, x, block, At(j.lrows, i));
      assert [] + block == block && BlockOf(r1, r2, At(j.lrows, i)) + [] == BlockOf(r1, r2, At(j.lrows, i));
      if i < k {
        assert blocks[i] == BlockOf(r1, r2, At(j.lrows, i));
      }
    }
    forall a: nat | a < |s1| ensures AmongFirst(j.lrows, k + 1, s1[a]) {
      if a < |r1| {
        assert s1[a] == r1[a] && AmongFirst(j.lrows, k, r1[a]);
      }
    }
    forall a, b | 0 <= a < b < |s1| ensures s1[a] <= s1[b] {
      assert a < |r1| ==> s1[a] == r1[a] && r1[a] < x;
    }
  }

  /** A result is a join iff every left row was given its own. */
  lemma LaidJoined(j: Input, mode: Mode, r1: seq<nat>, r2: seq<Option<nat>>, blocks: seq<seq<Option<nat>>>)
    requires Laid(j, r1, r2, blocks) && |blocks| == Size(j.lrows)
    ensures Joined(j, mode, Size(j.lrows), r1, r2) <==>
      forall i: nat :: i < |blocks| ==> RowResult(j, mode, LeftAt(j, i), blocks[i])
  {
    hide RowResult, At, Size, LeftValue;
    forall i: nat | i < |blocks|
      ensures Has(j.lrows, At(j.lrows, i)) && BlockOf(r1, r2, At(j.lrows, i)) == blocks[i]
      ensures LeftAt(j, i) == LeftValue(j, At(j.lrows, i))
    {
      AtHas(j.lrows, i);
    }
    if Joined(j, mode, Size(j.lrows), r1, r2) {
      forall i: nat | i < |blocks| ensures RowResult(j, mode, LeftAt(j, i), blocks[i]) {
        assert RowResult(j, mode, LeftValue(j, At(j.lrows, i)), BlockOf(r1, r2, At(j.lrows, i)));
      }
    }
  }

  /** How mergejoin scans: along, against, or along r although l goes the other way. */
  datatype Scan = Along | Against | Odd

  ghost predicate LeftOrdered(j: Input, rev: bool)
    requires InputOk(j)
  {
    forall x: nat, y: nat {:trigger LeftAt(j, x), LeftAt(j, y)} :: x < y < Size(j.lrows) ==>
      !Precedes(LeftAt(j, y), LeftAt(j, x), rev)
  }

  ghost predicate ScanOk(j: Input, scan: Scan, rev: bool)
    requires InputOk(j)
  {
    && Ordered(j, rev)
    && match scan
       case Along => LeftOrdered(j, rev)
       case Against => LeftOrdered(j, !rev)
       case Odd => !rev && LeftOrdered(j, true) && Ordered(j, true)
  }

  /** A left row with a value before k that is not nil and not below the (only) right value. */
  ghost predicate Eaten(j: Input, k: nat)
    requires InputOk(j) && Size(j.rrows) > 0 && k <= Size(j.lrows)
  {
    exists i: nat {:trigger LeftAt(j, i)} :: i < k && LeftAt(j, i) != j.nil && LeftAt(j, i) >= Key(j, 0)
  }

  /** Left row k has the right value, and comes behind a larger one. */
  ghost predicate Clash(j: Input, k: nat)
    requires InputOk(j) && k < Size(j.lrows)
  {
    && Size(j.rrows) > 0 && LeftAt(j, k) == Key(j, 0) != j.nil
    && exists i: nat {:trigger LeftAt(j, i)} :: i < k && LeftAt(j, i) != j.nil && LeftAt(j, i) > LeftAt(j, k)
  }

  /** No right row outside the window can still match. */
  ghost predicate Passed(j: Input, k: nat, a: nat, b: nat)
    requires InputOk(j)
  {
    forall i: nat {:trigger LeftAt(j, i)} :: k <= i < Size(j.lrows) && LeftAt(j, i) != j.nil ==>
      Seen(j, LeftAt(j, i), a, b)
  }

  ghost predicate WindowOk(j: Input, scan: Scan, k: nat, a: nat, b: nat)
    requires InputOk(j) && k <= Size(j.lrows)
  {
    var n := Size(j.rrows);
    && a <= b <= n
    && if scan.Odd? then b == n && (n > 0 ==> a == if Eaten(j, k) then n else 0) else Passed(j, k, a, b)
  }

  ghost predicate RunStart(j: Input, k: nat)
    requires InputOk(j)
  {
    0 < k < Size(j.lrows) ==> LeftAt(j, k - 1) != LeftAt(j, k)
  }

  lemma LeftOrderedAt(j: Input, rev: bool, x: nat, y: nat)
    requires InputOk(j) && LeftOrdered(j, rev) && x <= y < Size(j.lrows)
    ensures !Precedes(LeftAt(j, y), LeftAt(j, x), rev)
  {
    hide LeftAt;
    if x < y {
      assert !Precedes(LeftAt(j, y), LeftAt(j, x), rev);
    }
  }

  /** Later rows lie strictly behind a whole run. */
  lemma LaterRows(j: Input, rev: bool, k: nat, nl: nat, i: nat)
    requires InputOk(j) && LeftOrdered(j, rev) && 0 < nl && k + nl <= i < Size(j.lrows)
    requires LeftAt(j, k + nl) != LeftAt(j, k)
    ensures Precedes(LeftAt(j, k), LeftAt(j, i), rev)
  {
    hide LeftAt, LeftOrdered;
    LeftOrderedAt(j, rev, k, k + nl);
    LeftOrderedAt(j, rev, k + nl, i);
  }

  /** The window for the rows behind a run, scanning along or against. */
  lemma PassRun(j: Input, scan: Scan, rev: bool, k: nat, nl: nat, a: nat, b: nat, s: nat, nr: nat)
    requires InputOk(j) && !scan.Odd? && ScanOk(j, scan, rev) && 0 < nl && k + nl <= Size(j.lrows)
    requires WindowOk(j, scan, k, a, b) && InWindow(j, LeftAt(j, k), rev, a, b, s, nr)
    requires k + nl < Size(j.lrows) ==> LeftAt(j, k + nl) != LeftAt(j, k)
    ensures if scan.Along? then Passed(j, k + nl, s + nr, b) else Passed(j, k + nl, a, s)
  {
    hide LeftAt, LeftOrdered, Key, Ordered;
    forall i: nat | k + nl <= i < Size(j.lrows) && LeftAt(j, i) != j.nil
      ensures if scan.Along? then Seen(j, LeftAt(j, i), s + nr, b) else Seen(j, LeftAt(j, i), a, s)
    {
      LaterRows(j, if scan.Along? then rev else !rev, k, nl, i);
      assert Seen(j, LeftAt(j, i), a, b);
    }
  }

  lemma PassNil(j: Input, scan: Scan, k: nat, nl: nat, a: nat, b: nat)
    requires InputOk(j) && k + nl <= Size(j.lrows) && WindowOk(j, scan, k, a, b)
    requires forall i: nat :: k <= i < k + nl ==> LeftAt(j, i) == j.nil
    ensures WindowOk(j, scan, k + nl, a, b)
  {
    hide LeftAt, Seen, Key;
    if scan.Odd? && Size(j.rrows) > 0 && Eaten(j, k) {
      var i: nat :| i < k && LeftAt(j, i) != j.nil && LeftAt(j, i) >= Key(j, 0);
      assert Eaten(j, k + nl);
    }
  }

  /** All right rows have one value, if they are in order both ways. */
  lemma OneValue(j: Input, p: nat)
    requires InputOk(j) && Ordered(j, false) && Ordered(j, true) && p < Size(j.rrows)
    ensures Key(j, p) == Key(j, 0)
  {
    hide Key, Ordered;
    OrderedAt(j, false, 0, p);
    OrderedAt(j, true, 0, p);
  }

  /** In the odd case the window is all or nothing. */
  lemma PassOdd(j: Input, k: nat, nl: nat, a: nat, s: nat, nr: nat)
    requires InputOk(j) && ScanOk(j, Odd, false) && 0 < nl && k + nl <= Size(j.lrows) && LeftAt(j, k) != j.nil
    requires WindowOk(j, Odd, k, a, Size(j.rrows))
    requires InWindow(j, LeftAt(j, k), false, a, Size(j.rrows), s, nr)
    requires forall i: nat :: k <= i < k + nl ==> LeftAt(j, i) == LeftAt(j, k)
    ensures WindowOk(j, Odd, k + nl, s + nr, Size(j.rrows))
  {
    hide LeftAt, LeftOrdered, Key, Ordered;
    var n, v := Size(j.rrows), LeftAt(j, k);
    if n > 0 {
      forall p: nat | p < n ensures Key(j, p) == Key(j, 0) {
        OneValue(j, p);
      }
      if Eaten(j, k) {
        var i: nat :| i < k && LeftAt(j, i) != j.nil && LeftAt(j, i) >= Key(j, 0);
        assert Eaten(j, k + nl);
      } else {
        EatenRun(j, k, nl);
        var x, y := if s + nr < n then s + nr else 0, if s + nr > 0 then s + nr - 1 else 0;
        assert Key(j, x) == Key(j, 0) && Key(j, y) == Key(j, 0);
      }
    }
  }

  lemma EatenRun(j: Input, k: nat, nl: nat)
    requires InputOk(j) && Size(j.rrows) > 0 && 0 < nl && k + nl <= Size(j.lrows) && LeftAt(j, k) != j.nil
      && !Eaten(j, k)
    requires forall i: nat :: k <= i < k + nl ==> LeftAt(j, i) == LeftAt(j, k)
    ensures Eaten(j, k + nl) <==> LeftAt(j, k) >= Key(j, 0)
  {
    hide LeftAt, Key;
    if LeftAt(j, k) >= Key(j, 0) {
      assert k < k + nl && LeftAt(j, k) != j.nil;
    }
  }

  /** In the odd case a row is seen iff it does not clash. */
  lemma OddSeen(j: Input, k: nat, nl: nat, a: nat, i: nat)
    requires InputOk(j) && ScanOk(j, Odd, false) && k <= i < k + nl <= Size(j.lrows) && LeftAt(j, k) != j.nil
    requires WindowOk(j, Odd, k, a, Size(j.rrows)) && RunStart(j, k)
    requires forall x: nat :: k <= x < k + nl ==> LeftAt(j, x) == LeftAt(j, k)
    ensures Seen(j, LeftAt(j, k), a, Size(j.rrows)) <==> !Clash(j, i)
  {
    hide LeftAt, LeftOrdered, Key, Ordered;
    var n, v := Size(j.rrows), LeftAt(j, k);
    if n > 0 && v == Key(j, 0) {
      if Eaten(j, k) {
        var x: nat :| x < k && LeftAt(j, x) != j.nil && LeftAt(j, x) >= Key(j, 0);
        LeftOrderedAt(j, true, x, k - 1);
        LeftOrderedAt(j, true, k - 1, k);
        assert x < i && LeftAt(j, x) > LeftAt(j, i);
        assert Clash(j, i);
        assert Key(j, 0) == v;
      }
    } else if n > 0 {
      forall p: nat | p < n ensures Key(j, p) != v {
        OneValue(j, p);
      }
    }
  }

  /** Row i is given its result: always, except for a clash in the odd case. */
  ghost predicate Right(j: Input, scan: Scan, i: nat, block: seq<Option<nat>>)
    requires InputOk(j) && i < Size(j.lrows)
  {
    RowResult(j, Outer, LeftAt(j, i), block) <==> !(scan.Odd? && Clash(j, i))
  }

  lemma RunRight(j: Input, scan: Scan, rev: bool, k: nat, nl: nat, a: nat, b: nat, s: nat, nr: nat)
    requires EquiJoin(j) && ScanOk(j, scan, rev) && k + nl <= Size(j.lrows) && 0 < nl && LeftAt(j, k) != j.nil
    requires WindowOk(j, scan, k, a, b) && RunStart(j, k) && InWindow(j, LeftAt(j, k), rev, a, b, s, nr)
    requires forall x: nat :: k <= x < k + nl ==> LeftAt(j, x) == LeftAt(j, k)
    ensures forall i: nat :: k <= i < k + nl ==> Right(j, scan, i, OuterBlock(j, s, nr))
  {
    hide LeftAt, LeftOrdered, Key, Ordered, RowResult, InWindow;
    WindowBounds(j, LeftAt(j, k), rev, a, b, s, nr);
    WindowResult(j, LeftAt(j, k), rev, a, b, s, nr);
    forall i: nat | k <= i < k + nl ensures Right(j, scan, i, OuterBlock(j, s, nr)) {
      if scan.Odd? {
        OddSeen(j, k, nl, a, i);
      }
    }
  }

  lemma NilRight(j: Input, scan: Scan, k: nat, nl: nat)
    requires EquiJoin(j) && k + nl <= Size(j.lrows) && forall x: nat :: k <= x < k + nl ==> LeftAt(j, x) == j.nil
    ensures forall i: nat :: k <= i < k + nl ==> Right(j, scan, i, [])
  {
    hide LeftAt, RowResult, Key;
    NilRow(j, Outer);
  }

  /** The same block for each left row of a run. */
  method LayRun(j: Input, k: nat, nl: nat, block: seq<Option<nat>>, q1: seq<nat>, q2: seq<Option<nat>>,
                ghost blocks: seq<seq<Option<nat>>>)
    returns (r1: seq<nat>, r2: seq<Option<nat>>, ghost blocks': seq<seq<Option<nat>>>)
    requires InputOk(j) && Laid(j, q1, q2, blocks) && |blocks| == k && k + nl <= Size(j.lrows) && |q1| == |q2|
    ensures |r1| == |r2| && Laid(j, r1, r2, blocks') && |blocks'| == k + nl
    ensures forall i: nat :: i < |blocks'| ==> blocks'[i] == if i < k then blocks[i] else block
  {
    hide Laid;
    r1, r2, blocks' := q1, q2, blocks;
    for i := k to k + nl
      invariant |r1| == |r2| && Laid(j, r1, r2, blocks') && |blocks'| == i
      invariant forall x: nat :: x < |blocks'| ==> blocks'[x] == if x < k then blocks[x] else block
    {
      LayRow(j, r1, r2, blocks', block);
      r1, r2 := r1 + Repeat(At(j.lrows, i), |block|), r2 + block;
      blocks' := blocks' + [block];
    }
  }

  /** One left value: where its matches are in the window, and the window that is left. */
  method Advance(j: Input, v: int, rev: bool, rscan: nat, along: bool, a: nat, b: nat)
    returns (s: nat, nr: nat, a': nat, b': nat)
    requires InputOk(j) && Ordered(j, rev) && a <= b <= Size(j.rrows)
    ensures InWindow(j, v, rev, a, b, s, nr)
    ensures if along then a' == s + nr && b' == b else a' == a && b' == s
  {
    hide Key, Ordered, InWindow;
    if along {
      s := SeekForward(j, v, rev, rscan, a, b);
      nr := CountForward(j, v, rev, rscan, s, b);
      WindowOf(j, v, rev, a, b, s, nr);
      a', b' := s + nr, b;
    } else {
      var e := SeekBackward(j, v, rev, rscan, a, b);
      nr := CountBackward(j, v, rev, rscan, a, e);
      s := e - nr;
      WindowOf(j, v, rev, a, b, s, nr);
      a', b' := a, s;
    }
    WindowBounds(j, v, rev, a, b, s, nr);
  }

  lemma WindowBounds(j: Input, v: int, rev: bool, a: nat, b: nat, s: nat, nr: nat)
    requires InputOk(j) && b <= Size(j.rrows) && InWindow(j, v, rev, a, b, s, nr)
    ensures a <= s && s + nr <= b
  {
  }

  lemma NextWindow(j: Input, scan: Scan, rev: bool, k: nat, nl: nat, a: nat, b: nat, s: nat, nr: nat)
    requires InputOk(j) && ScanOk(j, scan, rev) && 0 < nl && k + nl <= Size(j.lrows) && LeftAt(j, k) != j.nil
    requires WindowOk(j, scan, k, a, b) && InWindow(j, LeftAt(j, k), rev, a, b, s, nr)
    requires k + nl < Size(j.lrows) ==> LeftAt(j, k + nl) != LeftAt(j, k)
    requires forall i: nat :: k <= i < k + nl ==> LeftAt(j, i) == LeftAt(j, k)
    ensures if scan.Against? then WindowOk(j, scan, k + nl, a, s) else WindowOk(j, scan, k + nl, s + nr, b)
  {
    hide LeftAt, LeftOrdered, Key, Ordered, Passed;
    WindowBounds(j, LeftAt(j, k), rev, a, b, s, nr);
    if scan.Odd? {
      PassOdd(j, k, nl, a, s, nr);
    } else {
      PassRun(j, scan, rev, k, nl, a, b, s, nr);
    }
  }

  /** What the order flags of l and r make of the scan. */
  function ScanOf(lsorted: bool, lrev: bool, rsorted: bool, rrev: bool): Scan {
    if lsorted == rsorted || lrev == rrev then
      if lrev && !lsorted && rsorted then Odd else Along
    else Against
  }

  lemma FlagsOk(j: Input, lsorted: bool, lrev: bool, rsorted: bool, rrev: bool)
    requires InputOk(j) && (lsorted || lrev) && (rsorted || rrev)
    requires (lsorted ==> Group.Sorted(j.l)) && (lrev ==> Group.RevSorted(j.l))
    requires (rsorted ==> Group.Sorted(j.r)) && (rrev ==> Group.RevSorted(j.r))
    ensures ScanOk(j, ScanOf(lsorted, lrev, rsorted, rrev), !rsorted)
    ensures ScanOf(lsorted, lrev, rsorted, rrev).Odd? <==> !lsorted && rsorted && rrev
  {
    hide LeftOrdered, Ordered, Group.Sorted, Group.RevSorted;
    if rsorted {
      ColumnOrdered(j, false);
    }
    if rrev {
      ColumnOrdered(j, true);
    }
    if lsorted {
      LeftColumn(j, false);
    }
    if lrev {
      LeftColumn(j, true);
    }
  }

  lemma LeftColumn(j: Input, rev: bool)
    requires InputOk(j) && if rev then Group.RevSorted(j.l) else Group.Sorted(j.l)
    ensures LeftOrdered(j, rev)
  {
    forall x: nat, y: nat | x < y < Size(j.lrows) ensures !Precedes(LeftAt(j, y), LeftAt(j, x), rev) {
      AtHas(j.lrows, x);
      AtHas(j.lrows, y);
    }
  }

  lemma StartWindow(j: Input, scan: Scan)
    requires InputOk(j)
    ensures WindowOk(j, scan, 0, 0, Size(j.rrows)) && RunStart(j, 0)
  {
    hide Key;
  }

  /**
   mergejoin for an outer join with a left column that is sorted, by the flags of the columns. One
   window of r is narrowed from the front or from the back. The result is right, except if l is
   known in descending order only and r, with all values equal, in both: r is then scanned from the
   front, and a larger left value consumes it.
   */
  method MergeOuter(j: Input, lsorted: bool, lrev: bool, rsorted: bool, rrev: bool)
    returns (r1: seq<nat>, r2: seq<Option<nat>>)
    requires EquiJoin(j) && (lsorted || lrev) && (rsorted || rrev)
    requires (lsorted ==> Group.Sorted(j.l)) && (lrev ==> Group.RevSorted(j.l))
    requires (rsorted ==> Group.Sorted(j.r)) && (rrev ==> Group.RevSorted(j.r))
    ensures Joined(j, Outer, Size(j.lrows), r1, r2) <==>
      !(!lsorted && rsorted && rrev && exists k: nat :: k < Size(j.lrows) && Clash(j, k))
  {
    hide Laid, RowResult, LeftAt, Ordered, LeftOrdered, Group.Sorted, Group.RevSorted, InWindow, WindowOk, Key, Clash,
      Joined, RunStart, Right;
    FlagsOk(j, lsorted, lrev, rsorted, rrev);
    var along, rev := lsorted == rsorted || lrev == rrev, !rsorted;
    ghost var scan := ScanOf(lsorted, lrev, rsorted, rrev);
    var rscan := ScanWindow(Size(j.rrows));
    var k: nat, a: nat, b: nat := 0, 0, Size(j.rrows);
    ghost var blocks := [];
    r1, r2 := [], [];
    LayNone(j);
    StartWindow(j, scan);
    while k < Size(j.lrows)
      invariant k == |blocks| <= Size(j.lrows) && |r1| == |r2| && Laid(j, r1, r2, blocks)
      invariant WindowOk(j, scan, k, a, b) && a <= b <= Size(j.rrows) && RunStart(j, k)
      invariant forall i: nat {:trigger blocks[i]} :: i < k ==> Right(j, scan, i, blocks[i])
    {
      var v := LeftAt(j, k);
      var nl := LeftRun(j, k);
      var block := [];
      if v == j.nil {
        NilRight(j, scan, k, nl);
        PassNil(j, scan, k, nl, a, b);
      } else {
        var s, nr, a', b' := Advance(j, v, rev, rscan, along, a, b);
        WindowBounds(j, v, rev, a, b, s, nr);
        RunRight(j, scan, rev, k, nl, a, b, s, nr);
        NextWindow(j, scan, rev, k, nl, a, b, s, nr);
        block := OuterBlock(j, s, nr);
        a, b := a', b';
      }
      r1, r2, blocks := LayRun(j, k, nl, block, r1, r2, blocks);
      NextRun(j, k, nl);
      k := k + nl;
    }
    LaidJoined(j, Outer, r1, r2, blocks);
    AllRight(j, scan, blocks);
  }

  lemma NextRun(j: Input, k: nat, nl: nat)
    requires InputOk(j) && 0 < nl && k + nl <= Size(j.lrows)
    requires forall i: nat :: k <= i < k + nl ==> LeftAt(j, i) == LeftAt(j, k)
    requires k + nl < Size(j.lrows) ==> LeftAt(j, k + nl) != LeftAt(j, k)
    ensures RunStart(j, k + nl)
  {
    hide LeftAt;
    assert LeftAt(j, k + nl - 1) == LeftAt(j, k);
  }

  lemma AllRight(j: Input, scan: Scan, blocks: seq<seq<Option<nat>>>)
    requires InputOk(j) && |blocks| == Size(j.lrows)
    requires forall i: nat {:trigger blocks[i]} :: i < |blocks| ==> Right(j, scan, i, blocks[i])
    ensures (forall i: nat :: i < |blocks| ==> RowResult(j, Outer, LeftAt(j, i), blocks[i])) <==>
      !(scan.Odd? && exists k: nat :: k < Size(j.lrows) && Clash(j, k))
  {
    hide RowResult, LeftAt, Clash;
    if scan.Odd? && exists k: nat :: k < Size(j.lrows) && Clash(j, k) {
      var k: nat :| k < Size(j.lrows) && Clash(j, k);
      assert Right(j, scan, k, blocks[k]);
    }
  }

  /** The left column is x, y and the right one y. */
  function TwoAndOne(x: int, y: int, nil: int): Input {
    Input([x, y], 0, Range(0, 2), [y], 0, Range(0, 1), nil, EQ)
  }

  /** Inputs without candidate lists. */
  lemma PlainInput(j: Input)
    requires j.lrows == Range(j.lbase, j.lbase + |j.l|) && j.rrows == Range(j.rbase, j.rbase + |j.r|)
    ensures InputOk(j) && Size(j.lrows) == |j.l| && Size(j.rrows) == |j.r|
    ensures forall k: nat :: k < |j.l| ==> LeftAt(j, k) == j.l[k]
    ensures forall k: nat :: k < |j.r| ==> Key(j, k) == j.r[k]
  {
  }

  lemma ClashOf(j: Input)
    requires InputOk(j) && Size(j.lrows) == 2 && Size(j.rrows) == 1
    requires LeftAt(j, 1) == Key(j, 0) != j.nil && LeftAt(j, 0) > LeftAt(j, 1) && LeftAt(j, 0) != j.nil
    ensures Clash(j, 1)
  {
    hide LeftAt, Key, InputOk, Size;
  }

  lemma TwoAndOneOrder(j: Input, x: int, y: int)
    requires j.l == [x, y] && j.r == [y] && y < x
    ensures Group.RevSorted(j.l) && Group.Sorted(j.r) && Group.RevSorted(j.r)
  {
  }

  lemma TwoAndOneClash(j: Input, x: int, y: int)
    requires j.l == [x, y] && j.r == [y] && y < x && x != j.nil && y != j.nil && j.op == EQ
    requires j.lrows == Range(j.lbase, j.lbase + 2) && j.rrows == Range(j.rbase, j.rbase + 1)
    ensures EquiJoin(j) && Size(j.lrows) == 2 && Clash(j, 1)
  {
    PlainInput(j);
    hide InputOk, LeftAt, Key, At, Has, Clash;
    ClashOf(j);
  }

  /** A run, for any two values in descending order: the outer join misses the match of the second. */
  method MatchMissed(x: int, y: int, nil: int) returns (r1: seq<nat>, r2: seq<Option<nat>>)
    requires y < x && x != nil && y != nil
    ensures !Joined(TwoAndOne(x, y, nil), Outer, 2, r1, r2)
  {
    hide InputOk, Clash, Joined, Group.Sorted, Group.RevSorted, RowsOk;
    var j := TwoAndOne(x, y, nil);
    TwoAndOneOrder(j, x, y);
    TwoAndOneClash(j, x, y);
    r1, r2 := MergeOuter(j, false, true, true, true);
  }
}
