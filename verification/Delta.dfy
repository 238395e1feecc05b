/**
 Transaction deltas and property flags (gdk_bat.c: BUNins, BUNdelete, BATclear, BUNinplace,
 setcolprops; gdk_delta.c: BATcommit, BATundo, BATprev, BATalpha, BATdelta).

 The BUNs of a BAT stand in one array. From batDeleted up to batFirst stand those that were
 deleted since the last commit, then up to batInserted the stable ones, then the inserted ones.
 */
module Delta {

  const NIL: int := -0x8000_0000_0000_0000

  // ---------------------------------------------------------------- property flags

  /** What is known of a column; seq is the first value of a dense one. */
  datatype Flags = Flags(sorted: bool, revsorted: bool, key: bool, dense: bool, seq_: int)

  ghost predicate Sorted(c: seq<int>) { forall i, j :: 0 <= i < j < |c| ==> c[i] <= c[j] }

  ghost predicate RevSorted(c: seq<int>) { forall i, j :: 0 <= i < j < |c| ==> c[i] >= c[j] }

  ghost predicate Distinct(c: seq<int>) { forall i, j :: 0 <= i < j < |c| ==> c[i] != c[j] }

  ghost predicate Dense(c: seq<int>, first: int) { forall i :: 0 <= i < |c| ==> c[i] == first + i }

  /** Oids are not negative, but for nil. */
  ghost predicate Legal(c: seq<int>, isOid: bool) { isOid ==> forall i :: 0 <= i < |c| ==> c[i] == NIL || c[i] >= 0 }

  /** No flag claims what is not so. Only oid columns are dense, and those are sorted and key. */
  ghost predicate Truthful(f: Flags, c: seq<int>, isOid: bool) {
    && (f.sorted ==> Sorted(c)) && (f.revsorted ==> RevSorted(c)) && (f.key ==> Distinct(c))
      && (f.dense ==> Dense(c, f.seq_))
    && (f.dense ==> isOid && f.sorted && f.key) && Legal(c, isOid)
  }

  /** setcolprops, before x is appended to the column c: only the last value is looked at. */
  function SetColProps(f: Flags, c: seq<int>, x: int, isOid: bool): Flags {
    if c == [] then
      Flags(true, true, true, if isOid then x != NIL else f.dense, if isOid then x else f.seq_)
    else
      var prv := c[|c| - 1];
      var nokey := prv == x || (|c| > 1
        && ((f.sorted && prv > x) || (f.revsorted && prv < x) || (!f.sorted && !f.revsorted)));
      Flags(f.sorted && prv <= x, f.revsorted && prv >= x, f.key && !nokey, f.dense && prv < x && prv + 1 == x, f.seq_)
  }

  lemma InsertTruthful(f: Flags, c: seq<int>, x: int, isOid: bool)
    requires Truthful(f, c, isOid) && (isOid ==> x == NIL || x >= 0)
    ensures Truthful(SetColProps(f, c, x, isOid), c + [x], isOid)
  {
    var f', c' := SetColProps(f, c, x, isOid), c + [x];
    if c != [] {
      var n := |c| - 1;
      forall i | 0 <= i < n ensures (f.sorted ==> c[i] <= c[n]) && (f.revsorted ==> c[i] >= c[n]) {
      }
      assert f.dense && |c| > 1 ==> c[0] < c[1];
    }
  }

  /** What inserting alone can tell: key is claimed for values that go strictly up or strictly down. */
  ghost predicate Exact(f: Flags, c: seq<int>, isOid: bool) {
    && c != [] && (f.sorted <==> Sorted(c)) && (f.revsorted <==> RevSorted(c))
    && (f.key <==> Distinct(c) && (Sorted(c) || RevSorted(c)))
    && (isOid ==> (f.dense <==> c[0] != NIL && Dense(c, c[0])) && (f.dense ==> f.seq_ == c[0]))
  }

  /** As long as values are only inserted, sorted and revsorted say exactly whether the column is. */
  lemma InsertExact(f: Flags, c: seq<int>, x: int, isOid: bool)
    requires c == [] || Exact(f, c, isOid)
    ensures Exact(SetColProps(f, c, x, isOid), c + [x], isOid)
  {
    hide Sorted, RevSorted, Distinct, Dense;
    if c == [] {
      Single(c + [x]);
    } else {
      if |c| == 1 {
        Single(c);
      }
      SortedGrown(c, x);
      RevSortedGrown(c, x);
      DistinctGrown(c, x);
      DenseGrown(c, x);
    }
  }

  lemma Single(c: seq<int>)
    requires |c| == 1
    ensures Sorted(c) && RevSorted(c) && Distinct(c) && Dense(c, c[0])
  {
  }

  lemma DenseGrown(c: seq<int>, x: int)
    requires c != []
    ensures Dense(c + [x], c[0]) <==> Dense(c, c[0]) && x == c[|c| - 1] + 1
  {
    var c' := c + [x];
    assert forall i :: 0 <= i < |c| ==> c'[i] == c[i];
    assert c'[|c|] == x;
  }

  lemma SortedGrown(c: seq<int>, x: int)
    requires c != []
    ensures Sorted(c + [x]) <==> Sorted(c) && c[|c| - 1] <= x
  {
    var c' := c + [x];
    assert forall i :: 0 <= i < |c| ==> c'[i] == c[i];
    assert c'[|c|] == x;
    if Sorted(c) && c[|c| - 1] <= x {
      forall i, j | 0 <= i < j < |c'| ensures c'[i] <= c'[j] {
        assert i < |c| - 1 ==> c[i] <= c[|c| - 1];
      }
    }
  }

  lemma RevSortedGrown(c: seq<int>, x: int)
    requires c != []
    ensures RevSorted(c + [x]) <==> RevSorted(c) && c[|c| - 1] >= x
  {
    var c' := c + [x];
    assert forall i :: 0 <= i < |c| ==> c'[i] == c[i];
    assert c'[|c|] == x;
    if RevSorted(c) && c[|c| - 1] >= x {
      forall i, j | 0 <= i < j < |c'| ensures c'[i] >= c'[j] {
        assert i < |c| - 1 ==> c[i] >= c[|c| - 1];
      }
    }
  }

  /** A column that goes strictly up or down, with another value. */
  lemma DistinctGrown(c: seq<int>, x: int)
    requires c != []
    ensures Distinct(c + [x]) ==> Distinct(c) && c[|c| - 1] != x
    ensures Distinct(c) && Sorted(c) && c[|c| - 1] < x ==> Distinct(c + [x])
    ensures Distinct(c) && RevSorted(c) && c[|c| - 1] > x ==> Distinct(c + [x])
    ensures |c| > 1 && Sorted(c) && RevSorted(c) ==> !Distinct(c)
  {
    assert |c| > 1 && Sorted(c) && RevSorted(c) ==> c[0] == c[1];
    var c', n := c + [x], |c| - 1;
    assert forall i :: 0 <= i < |c| ==> c'[i] == c[i];
    assert c'[n + 1] == x;
  }

  /** The flags when the first BUN of the BAT is deleted. */
  function DropFirst(f: Flags): Flags {
    if f.dense && f.sorted && f.seq_ != NIL then f.(seq_ := f.seq_ + 1) else f
  }

  lemma DropFirstTruthful(f: Flags, c: seq<int>, isOid: bool)
    requires Truthful(f, c, isOid) && c != []
    ensures Truthful(DropFirst(f), c[1..], isOid)
    ensures DropFirst(f).(seq_ := f.seq_) == f
  {
    var c' := c[1..];
    assert forall i :: 0 <= i < |c'| ==> c'[i] == c[i + 1];
    assert f.dense && |c| > 1 ==> c[1] == f.seq_ + 1;
  }

  /** The flags when the first BUN takes the place of a deleted one. */
  function MoveFirst(f: Flags): Flags { f.(sorted := false, revsorted := false, dense := false) }

  lemma MoveFirstTruthful(f: Flags, c: seq<int>, p: nat, isOid: bool)
    requires Truthful(f, c, isOid) && 0 < p < |c|
    ensures Truthful(MoveFirst(f), c[p := c[0]][1..], isOid)
    ensures MoveFirst(f).key <==> f.key
  {
    var c' := c[p := c[0]][1..];
    assert forall i :: 0 <= i < |c'| ==> c'[i] == if i + 1 == p then c[0] else c[i + 1];
  }

  /** The flags when the last BUN, x, takes the place of one that is followed by `next`. */
  function MoveLast(f: Flags, last: bool, x: int, next: int): Flags {
    Flags(f.sorted && (last || x <= next), f.revsorted && (last || x >= next), f.key, f.dense && !f.sorted, f.seq_)
  }

  lemma MoveLastTruthful(f: Flags, c: seq<int>, p: nat, isOid: bool)
    requires Truthful(f, c, isOid) && p + 1 < |c|
    ensures
      var n := |c| - 1;
      var f', c' := MoveLast(f, p + 1 == n, c[n], c[p + 1]), c[p := c[n]][..n];
      && Truthful(f', c', isOid) && (f'.key <==> f.key)
      && (f'.sorted <==> f.sorted && Sorted(c')) && (f'.revsorted <==> f.revsorted && RevSorted(c'))
  {
    var n := |c| - 1;
    var c', f' := c[p := c[n]][..n], MoveLast(f, p + 1 == n, c[n], c[p + 1]);
    assert forall i :: 0 <= i < n ==> c'[i] == if i == p then c[n] else c[i];
    assert p + 1 < n ==> c'[p] == c[n] && c'[p + 1] == c[p + 1];
    if f'.sorted && p + 1 < n {
      forall i | p < i < n ensures c[i] == c[n] {
        assert c[p + 1] <= c[i] || i == p + 1;
        assert c[i] <= c[n];
      }
    }
    if f'.revsorted && p + 1 < n {
      forall i | p < i < n ensures c[i] == c[n] {
        assert c[p + 1] >= c[i] || i == p + 1;
        assert c[i] >= c[n];
      }
    }
  }

  lemma DropLastTruthful(f: Flags, c: seq<int>, n: nat, isOid: bool)
    requires Truthful(f, c, isOid) && n <= |c|
    ensures Truthful(f, c[..n], isOid)
  {
  }

  /** BATundo with deleted BUNs to bring back: nothing is known any more. */
  function Zap(f: Flags): Flags { Flags(false, false, false, f.dense && !f.key, f.seq_) }

  lemma ZapTruthful(f: Flags, c: seq<int>, c': seq<int>, isOid: bool)
    requires Truthful(f, c, isOid) && Legal(c', isOid)
    ensures Truthful(Zap(f), c', isOid)
  {
  }

  /** BATsettrivprop of an empty BAT. */
  function Trivial(f: Flags): Flags { f.(sorted := true, revsorted := true, key := true) }

  /** The flags of the tail when the value at p of the column c is replaced by x. */
  function ReplaceAt(f: Flags, c: seq<int>, p: nat, x: int): Flags
    requires p < |c|
  {
    var last := |c| - 1;
    var order := (p > 0 && x < c[p - 1]) || (p < last && x > c[p + 1]);
    var reverse := (p > 0 && x > c[p - 1]) || (p < last && x < c[p + 1]);
    var gap := (p > 0 && 1 + c[p - 1] != x) || (p < last && c[p + 1] != 1 + x);
    var dense := f.dense && !(f.sorted && !order && gap);
    var first := if f.sorted && !order && f.dense && !gap && last == 0 then x else f.seq_;
    var key := f.key && last == 0;
    Flags(f.sorted && !order, f.revsorted && !reverse, key, dense && (f.key ==> key), first)
  }

  lemma ReplaceTruthful(f: Flags, c: seq<int>, p: nat, x: int, isOid: bool)
    requires Truthful(f, c, isOid) && p < |c| && (isOid ==> x == NIL || x >= 0)
    ensures
      var f', c' := ReplaceAt(f, c, p, x), c[p := x];
      && Truthful(f', c', isOid) && (f'.key <==> f.key && |c| == 1) && (f'.dense <==> f.dense && |c| == 1)
      && (f'.sorted <==> f.sorted && Sorted(c')) && (f'.revsorted <==> f.revsorted && RevSorted(c'))
  {
    var c', f' := c[p := x], ReplaceAt(f, c, p, x);
    assert c'[p] == x && (p > 0 ==> c'[p - 1] == c[p - 1]) && (p + 1 < |c| ==> c'[p + 1] == c[p + 1]);
    if f'.sorted {
      forall i, j | 0 <= i < j < |c'| ensures c'[i] <= c'[j] {
        assert i < p - 1 ==> c[i] <= c[p - 1];
        assert p + 1 < j ==> c[p + 1] <= c[j];
      }
    }
    if f'.revsorted {
      forall i, j | 0 <= i < j < |c'| ensures c'[i] >= c'[j] {
        assert i < p - 1 ==> c[i] >= c[p - 1];
        assert p + 1 < j ==> c[p + 1] >= c[j];
      }
    }
  }

  // --------------------------------------------------------------------- the BAT

  datatype Bun = Bun(head: int, tail: int)

  function Heads(s: seq<Bun>): (r: seq<int>)
    ensures |r| == |s|
  {
    seq(|s|, i requires 0 <= i < |s| => s[i].head)
  }

  function Tails(s: seq<Bun>): (r: seq<int>)
    ensures |r| == |s|
  {
    seq(|s|, i requires 0 <= i < |s| => s[i].tail)
  }

  ghost predicate Marked(slots: seq<Bun>, deleted: nat, first: nat, inserted: nat, count: nat) {
    deleted <= first <= inserted <= first + count <= |slots|
  }

  /** Current BUNs and deleted ones are together the previous BUNs and the inserted ones. */
  lemma Conservation(slots: seq<Bun>, deleted: nat, first: nat, inserted: nat, count: nat)
    requires Marked(slots, deleted, first, inserted, count)
    ensures multiset(slots[first..first + count]) + multiset(slots[deleted..first])
      == multiset(slots[deleted..inserted]) + multiset(slots[inserted..first + count])
  {
    var whole := slots[deleted..first + count];
    var gone, now := slots[deleted..first], slots[first..first + count];
    var prev, alpha := slots[deleted..inserted], slots[inserted..first + count];
    assert whole == gone + now && whole == prev + alpha;
    assert multiset(whole) == multiset(gone) + multiset(now) == multiset(prev) + multiset(alpha);
  }

  /** acc_move: two BUNs change place. */
  function Swap(slots: seq<Bun>, a: nat, b: nat): (r: seq<Bun>)
    requires a < |slots| && b < |slots|
    ensures |r| == |slots|
  {
    slots[a := slots[b]][b := slots[a]]
  }

  /** Swapping two BUNs of a range does not change what it holds. */
  lemma SwapIn(slots: seq<Bun>, a: nat, b: nat, lo: nat, hi: nat)
    requires lo <= a < hi <= |slots| && lo <= b < hi
    ensures multiset(Swap(slots, a, b)[lo..hi]) == multiset(slots[lo..hi])
  {
    var s, s' := slots[lo..hi], Swap(slots, a, b)[lo..hi];
    assert s' == s[a - lo := s[b - lo]][b - lo := s[a - lo]];
  }

  lemma SwapWithFirst(slots: seq<Bun>, first: nat, p: nat, last: nat)
    requires first <= p < last <= |slots|
    ensures var cur := slots[first..last]; Swap(slots, first, p)[first + 1..last] == cur[p - first := cur[0]][1..]
  {
  }

  lemma SwapWithLast(slots: seq<Bun>, lo: nat, first: nat, hi: nat, p: nat, last: nat)
    requires lo <= hi <= p <= last < |slots| && first <= p
    ensures Swap(slots, p, last)[first..last] == WithoutByLast(slots[first..last + 1], p - first)
    ensures Swap(slots, p, last)[lo..hi] == slots[lo..hi]
  {
  }

  /**
   After BATundo the BAT has the `inserted` BUNs from batDeleted on. Those are the committed
   ones iff batDeleted is 0: otherwise there are too many of them.
   */
  lemma UndoExact(slots: seq<Bun>, deleted: nat, inserted: nat)
    requires deleted <= inserted && deleted + inserted <= |slots|
    ensures multiset(slots[deleted..deleted + inserted]) == multiset(slots[deleted..inserted]) <==> deleted == 0
  {
    assert |multiset(slots[deleted..deleted + inserted])| == inserted;
    assert |multiset(slots[deleted..inserted])| == inserted - deleted;
  }

  // ------------------------------------------------------- both columns at once

  ghost predicate BothTruthful(hf: Flags, tf: Flags, cur: seq<Bun>, hoid: bool, toid: bool) {
    Truthful(hf, Heads(cur), hoid) && Truthful(tf, Tails(cur), toid)
  }

  lemma InsertBoth(hf: Flags, tf: Flags, cur: seq<Bun>, b: Bun, hoid: bool, toid: bool)
    requires BothTruthful(hf, tf, cur, hoid, toid) && (hoid ==> b.head == NIL || b.head >= 0)
      && (toid ==> b.tail == NIL || b.tail >= 0)
    ensures BothTruthful(SetColProps(hf, Heads(cur), b.head, hoid), SetColProps(tf, Tails(cur), b.tail, toid),
      cur + [b], hoid, toid)
  {
    hide Truthful, SetColProps;
    InsertTruthful(hf, Heads(cur), b.head, hoid);
    InsertTruthful(tf, Tails(cur), b.tail, toid);
    assert Heads(cur + [b]) == Heads(cur) + [b.head] && Tails(cur + [b]) == Tails(cur) + [b.tail];
  }

  ghost predicate BothExact(hf: Flags, tf: Flags, cur: seq<Bun>, hoid: bool, toid: bool) {
    Exact(hf, Heads(cur), hoid) && Exact(tf, Tails(cur), toid)
  }

  lemma InsertExactBoth(hf: Flags, tf: Flags, cur: seq<Bun>, b: Bun, hoid: bool, toid: bool)
    requires cur == [] || BothExact(hf, tf, cur, hoid, toid)
    ensures BothExact(SetColProps(hf, Heads(cur), b.head, hoid), SetColProps(tf, Tails(cur), b.tail, toid),
      cur + [b], hoid, toid)
  {
    hide Exact, SetColProps;
    InsertExact(hf, Heads(cur), b.head, hoid);
    InsertExact(tf, Tails(cur), b.tail, toid);
    assert Heads(cur + [b]) == Heads(cur) + [b.head] && Tails(cur + [b]) == Tails(cur) + [b.tail];
  }

  lemma DropFirstBoth(hf: Flags, tf: Flags, cur: seq<Bun>, hoid: bool, toid: bool)
    requires BothTruthful(hf, tf, cur, hoid, toid) && cur != []
    ensures BothTruthful(DropFirst(hf), DropFirst(tf), cur[1..], hoid, toid)
  {
    hide Truthful, DropFirst;
    DropFirstTruthful(hf, Heads(cur), hoid);
    DropFirstTruthful(tf, Tails(cur), toid);
    assert Heads(cur[1..]) == Heads(cur)[1..] && Tails(cur[1..]) == Tails(cur)[1..];
  }

  lemma MoveFirstBoth(hf: Flags, tf: Flags, cur: seq<Bun>, k: nat, hoid: bool, toid: bool)
    requires BothTruthful(hf, tf, cur, hoid, toid) && 0 < k < |cur|
    ensures BothTruthful(MoveFirst(hf), MoveFirst(tf), cur[k := cur[0]][1..], hoid, toid)
  {
    hide Truthful, MoveFirst;
    var r := cur[k := cur[0]][1..];
    MoveFirstTruthful(hf, Heads(cur), k, hoid);
    MoveFirstTruthful(tf, Tails(cur), k, toid);
    assert Heads(r) == Heads(cur)[k := Heads(cur)[0]][1..];
    assert Tails(r) == Tails(cur)[k := Tails(cur)[0]][1..];
  }

  lemma MoveLastBoth(hf: Flags, tf: Flags, cur: seq<Bun>, k: nat, hoid: bool, toid: bool)
    requires BothTruthful(hf, tf, cur, hoid, toid) && k + 1 < |cur|
    ensures var n := |cur| - 1;
      BothTruthful(MoveLast(hf, k + 1 == n, cur[n].head, cur[k + 1].head),
        MoveLast(tf, k + 1 == n, cur[n].tail, cur[k + 1].tail),
                   WithoutByLast(cur, k), hoid, toid)
  {
    hide Truthful, MoveLast;
    var n := |cur| - 1;
    var r := cur[k := cur[n]][..n];
    MoveLastTruthful(hf, Heads(cur), k, hoid);
    MoveLastTruthful(tf, Tails(cur), k, toid);
    assert Heads(r) == Heads(cur)[k := Heads(cur)[n]][..n];
    assert Tails(r) == Tails(cur)[k := Tails(cur)[n]][..n];
  }

  lemma DropLastBoth(hf: Flags, tf: Flags, cur: seq<Bun>, n: nat, hoid: bool, toid: bool)
    requires BothTruthful(hf, tf, cur, hoid, toid) && n <= |cur|
    ensures BothTruthful(hf, tf, cur[..n], hoid, toid)
  {
    hide Truthful;
    DropLastTruthful(hf, Heads(cur), n, hoid);
    DropLastTruthful(tf, Tails(cur), n, toid);
    assert Heads(cur[..n]) == Heads(cur)[..n] && Tails(cur[..n]) == Tails(cur)[..n];
  }

  lemma ReplaceBoth(hf: Flags, tf: Flags, cur: seq<Bun>, k: nat, t: int, hoid: bool, toid: bool)
    requires BothTruthful(hf, tf, cur, hoid, toid) && k < |cur| && (toid ==> t == NIL || t >= 0)
    ensures BothTruthful(hf, ReplaceAt(tf, Tails(cur), k, t), cur[k := Bun(cur[k].head, t)], hoid, toid)
  {
    hide Truthful, ReplaceAt;
    var r := cur[k := Bun(cur[k].head, t)];
    ReplaceTruthful(tf, Tails(cur), k, t, toid);
    assert Heads(r) == Heads(cur) && Tails(r) == Tails(cur)[k := t];
  }

  lemma ZapBoth(hf: Flags, tf: Flags, cur: seq<Bun>, cur': seq<Bun>, hoid: bool, toid: bool)
    requires BothTruthful(hf, tf, cur, hoid, toid) && Legal(Heads(cur'), hoid) && Legal(Tails(cur'), toid)
    ensures BothTruthful(Zap(hf), Zap(tf), cur', hoid, toid)
  {
  }

  lemma TrivialBoth(hf: Flags, tf: Flags, cur: seq<Bun>, hoid: bool, toid: bool)
    requires BothTruthful(hf, tf, cur, hoid, toid)
    ensures BothTruthful(Trivial(hf), Trivial(tf), [], hoid, toid)
    ensures forall f :: f in {Trivial(hf), Trivial(tf)} ==> f.sorted && f.revsorted && f.key
  {
  }

  /** The BUNs without the k-th, in whose place the first or the last has been put. */
  function WithoutByFirst(cur: seq<Bun>, k: nat): seq<Bun>
    requires k < |cur|
  {
    cur[k := cur[0]][1..]
  }

  function WithoutByLast(cur: seq<Bun>, k: nat): seq<Bun>
    requires k < |cur|
  {
    cur[k := cur[|cur| - 1]][..|cur| - 1]
  }

  /** Taking out BUN k, by putting the first in its place and dropping that. */
  lemma RemoveByFirst(cur: seq<Bun>, k: nat)
    requires k < |cur|
    ensures multiset(WithoutByFirst(cur, k)) == multiset(cur) - multiset{cur[k]}
  {
    var s := cur[k := cur[0]];
    assert s == [cur[0]] + s[1..];
    UpdateMultiset(cur, k, cur[0]);
    Cancel(multiset(s[1..]), multiset(cur) - multiset{cur[k]}, cur[0]);
  }

  lemma RemoveByLast(cur: seq<Bun>, k: nat)
    requires k < |cur|
    ensures multiset(WithoutByLast(cur, k)) == multiset(cur) - multiset{cur[k]}
  {
    var n := |cur| - 1;
    var s := cur[k := cur[n]];
    assert s == s[..n] + [cur[n]];
    UpdateMultiset(cur, k, cur[n]);
    Cancel(multiset(s[..n]), multiset(cur) - multiset{cur[k]}, cur[n]);
  }

  lemma Cancel(a: multiset<Bun>, b: multiset<Bun>, x: Bun)
    requires a + multiset{x} == b + multiset{x}
    ensures a == b
  {
    assert a == a + multiset{x} - multiset{x};
    assert b == b + multiset{x} - multiset{x};
  }

  lemma UpdateMultiset(cur: seq<Bun>, k: nat, b: Bun)
    requires k < |cur|
    ensures multiset(cur[k := b]) == multiset(cur) - multiset{cur[k]} + multiset{b}
  {
    assert cur == cur[..k] + [cur[k]] + cur[k + 1..];
    assert cur[k := b] == cur[..k] + [b] + cur[k + 1..];
  }

  /** The markers and the BUNs of a BAT. */
  datatype State = State(slots: seq<Bun>, deleted: nat, first: nat, inserted: nat, count: nat, hflags: Flags,
      tflags: Flags)

  ghost predicate Shape(s: State) { Marked(s.slots, s.deleted, s.first, s.inserted, s.count) }

  ghost function Now(s: State): seq<Bun>
    requires Shape(s)
  {
    s.slots[s.first..s.first + s.count]
  }

  ghost function Committed(s: State): multiset<Bun>
    requires Shape(s)
  {
    multiset(s.slots[s.deleted..s.inserted])
  }

  /** What BATalpha copies. */
  ghost function Alpha(s: State): seq<Bun>
    requires Shape(s)
  {
    s.slots[s.inserted..s.first + s.count]
  }

  /** What BATdelta copies. */
  ghost function Gone(s: State): seq<Bun>
    requires Shape(s)
  {
    s.slots[s.deleted..s.first]
  }

  /** The BUNs from batInserted on are `added`, and those before batFirst are `removed`. */
  ghost predicate History(s: State, added: multiset<Bun>, removed: multiset<Bun>) {
    Shape(s) && multiset(Alpha(s)) == added && multiset(Gone(s)) == removed
  }

  /** The markers are in order and the flags of both columns are right. */
  ghost predicate StateOk(s: State, hoid: bool, toid: bool) {
    Shape(s) && AllLegal(s.slots, hoid, toid) && BothTruthful(s.hflags, s.tflags, Now(s), hoid, toid)
  }

  ghost predicate Ok(s: State, hoid: bool, toid: bool, committed: multiset<Bun>, added: multiset<Bun>,
      removed: multiset<Bun>) {
    StateOk(s, hoid, toid) && Committed(s) == committed && History(s, added, removed)
  }

  ghost predicate LegalBun(b: Bun, hoid: bool, toid: bool) {
    (hoid ==> b.head == NIL || b.head >= 0) && (toid ==> b.tail == NIL || b.tail >= 0)
  }

  ghost predicate AllLegal(slots: seq<Bun>, hoid: bool, toid: bool) {
    forall i :: 0 <= i < |slots| ==> LegalBun(slots[i], hoid, toid)
  }

  lemma SwapLegal(slots: seq<Bun>, a: nat, b: nat, hoid: bool, toid: bool)
    requires a < |slots| && b < |slots| && AllLegal(slots, hoid, toid)
    ensures AllLegal(Swap(slots, a, b), hoid, toid)
  {
  }

  /** The state s' holds the BUNs cur, and has the same committed ones as s. */
  ghost predicate Becomes(s: State, s': State, cur: seq<Bun>) {
    Shape(s) && Shape(s') && Now(s') == cur && Committed(s') == Committed(s) && s'.deleted == s.deleted
      && s'.inserted == s.inserted
  }

  ghost function Inserted(s: State, b: Bun, hoid: bool, toid: bool): State
    requires Shape(s)
  {
    var last := s.first + s.count;
    State(PutSlot(s.slots, last, b), s.deleted, s.first, s.inserted, s.count + 1,
          SetColProps(s.hflags, Heads(Now(s)), b.head, hoid), SetColProps(s.tflags, Tails(Now(s)), b.tail, toid))
  }

  lemma InsertOk(s: State, b: Bun, hoid: bool, toid: bool)
    requires StateOk(s, hoid, toid) && (hoid ==> b.head == NIL || b.head >= 0)
      && (toid ==> b.tail == NIL || b.tail >= 0)
    ensures StateOk(Inserted(s, b, hoid, toid), hoid, toid) && Becomes(s, Inserted(s, b, hoid, toid), Now(s) + [b])
  {
    hide BothTruthful, Heads, Tails, SetColProps, PutSlot, AllLegal;
    InsertBoth(s.hflags, s.tflags, Now(s), b, hoid, toid);
    PutSlotOk(s.slots, s.first, s.first + s.count, b, hoid, toid);
    PutSlotOk(s.slots, s.deleted, s.first + s.count, b, hoid, toid);
    var s' := Inserted(s, b, hoid, toid);
    assert s'.first + s'.count == s.first + s.count + 1;
    assert s'.slots[s.deleted..s.inserted] == s.slots[s.deleted..s.inserted] by {
      TakeSlice(s.slots, s.deleted, s.first + s.count, s.inserted - s.deleted);
      TakeSlice(s'.slots, s.deleted, s.first + s.count, s.inserted - s.deleted);
    }
  }

  lemma InsertSlices(s: State, b: Bun, hoid: bool, toid: bool)
    requires Shape(s)
    ensures
      var s' := Inserted(s, b, hoid, toid);
      Shape(s') && Alpha(s') == Alpha(s) + [b] && Gone(s') == Gone(s)
  {
    hide Heads, Tails, SetColProps, Now;
  }

  lemma InsertHistory(s: State, b: Bun, hoid: bool, toid: bool, added: multiset<Bun>, removed: multiset<Bun>)
    requires History(s, added, removed)
    ensures History(Inserted(s, b, hoid, toid), added + multiset{b}, removed)
  {
    hide Alpha, Gone;
    InsertSlices(s, b, hoid, toid);
  }

  lemma InsertStep(s: State, b: Bun, hoid: bool, toid: bool, committed: multiset<Bun>, added: multiset<Bun>,
      removed: multiset<Bun>)
    requires Ok(s, hoid, toid, committed, added, removed) && LegalBun(b, hoid, toid)
    ensures
      var s' := Inserted(s, b, hoid, toid);
      && Ok(s', hoid, toid, committed, added + multiset{b}, removed) && Shape(s') && Now(s') == Now(s) + [b]
    ensures Now(s) == s.slots[s.first..s.first + s.count]
    ensures
      var s' := Inserted(s, b, hoid, toid);
      Now(s) == [] || BothExact(s.hflags, s.tflags, Now(s), hoid, toid) ==>
        BothExact(s'.hflags, s'.tflags, Now(s'), hoid, toid)
  {
    hide StateOk, Now, Committed, History, BothExact, Heads, Tails, SetColProps;
    ShapeOf(s, hoid, toid);
    InsertOk(s, b, hoid, toid);
    InsertHistory(s, b, hoid, toid, added, removed);
    NowIs(s);
    if Now(s) == [] || BothExact(s.hflags, s.tflags, Now(s), hoid, toid) {
      InsertExactBoth(s.hflags, s.tflags, Now(s), b, hoid, toid);
    }
  }

  /** The slot behind the last BUN is written; the array grows if there is none. */
  function PutSlot(slots: seq<Bun>, last: nat, b: Bun): (r: seq<Bun>)
    requires last <= |slots|
    ensures |r| > last && |r| >= |slots|
  {
    if last < |slots| then slots[last := b] else slots + [b]
  }

  lemma PutSlotOk(slots: seq<Bun>, first: nat, last: nat, b: Bun, hoid: bool, toid: bool)
    requires first <= last <= |slots| && AllLegal(slots, hoid, toid) && LegalBun(b, hoid, toid)
    ensures PutSlot(slots, last, b)[first..last + 1] == slots[first..last] + [b]
    ensures PutSlot(slots, last, b)[first..last] == slots[first..last]
    ensures AllLegal(PutSlot(slots, last, b), hoid, toid)
  {
  }

  ghost function DeletedFirst(s: State): State
    requires Shape(s) && s.count > 0
  {
    s.(first := s.first + 1, count := s.count - 1, hflags := DropFirst(s.hflags), tflags := DropFirst(s.tflags))
  }

  lemma DeleteFirstOk(s: State, hoid: bool, toid: bool)
    requires StateOk(s, hoid, toid) && s.first < s.inserted
    ensures StateOk(DeletedFirst(s), hoid, toid) && Becomes(s, DeletedFirst(s), WithoutByFirst(Now(s), 0))
  {
    hide BothTruthful, DropFirst;
    var cur := Now(s);
    DropFirstBoth(s.hflags, s.tflags, cur, hoid, toid);
    assert s.slots[s.first + 1..s.first + s.count] == cur[1..];
    assert cur[0 := cur[0]] == cur;
  }

  ghost function DeletedStable(s: State, p: nat): State
    requires Shape(s) && s.first < p < s.inserted
  {
    State(Swap(s.slots, s.first, p), s.deleted, s.first + 1, s.inserted, s.count - 1, MoveFirst(s.hflags),
      MoveFirst(s.tflags))
  }

  lemma DeleteStableOk(s: State, p: nat, hoid: bool, toid: bool)
    requires StateOk(s, hoid, toid) && s.first < p < s.inserted
    ensures StateOk(DeletedStable(s, p), hoid, toid)
      && Becomes(s, DeletedStable(s, p), WithoutByFirst(Now(s), p - s.first))
  {
    hide BothTruthful, MoveFirst, Swap, AllLegal;
    var s' := DeletedStable(s, p);
    MoveFirstBoth(s.hflags, s.tflags, Now(s), p - s.first, hoid, toid);
    SwapWithFirst(s.slots, s.first, p, s.first + s.count);
    assert s'.first + s'.count == s.first + s.count;
    assert Now(s') == WithoutByFirst(Now(s), p - s.first);
    SwapIn(s.slots, s.first, p, s.deleted, s.inserted);
    SwapLegal(s.slots, s.first, p, hoid, toid);
  }

  ghost function DeletedInserted(s: State, p: nat): State
    requires Shape(s) && s.inserted <= p < s.first + s.count - 1
  {
    var last := s.first + s.count - 1;
    State(Swap(s.slots, p, last), s.deleted, s.first, s.inserted, s.count - 1,
          MoveLast(s.hflags, p + 1 == last, s.slots[last].head, s.slots[p + 1].head),
          MoveLast(s.tflags, p + 1 == last, s.slots[last].tail, s.slots[p + 1].tail))
  }

  lemma DeleteInsertedOk(s: State, p: nat, hoid: bool, toid: bool)
    requires StateOk(s, hoid, toid) && s.inserted <= p < s.first + s.count - 1
    ensures StateOk(DeletedInserted(s, p), hoid, toid)
      && Becomes(s, DeletedInserted(s, p), WithoutByLast(Now(s), p - s.first))
  {
    hide BothTruthful, MoveLast, Swap, AllLegal, WithoutByLast;
    var s', last := DeletedInserted(s, p), s.first + s.count - 1;
    MoveLastBoth(s.hflags, s.tflags, Now(s), p - s.first, hoid, toid);
    SwapWithLast(s.slots, s.deleted, s.first, s.inserted, p, last);
    SwapLegal(s.slots, p, last, hoid, toid);
    assert s'.first + s'.count == last;
  }

  lemma DeleteLastOk(s: State, hoid: bool, toid: bool)
    requires StateOk(s, hoid, toid) && s.inserted < s.first + s.count
    ensures StateOk(s.(count := s.count - 1), hoid, toid)
      && Becomes(s, s.(count := s.count - 1), WithoutByLast(Now(s), s.count - 1))
  {
    hide BothTruthful;
    var cur, n := Now(s), s.count - 1;
    DropLastBoth(s.hflags, s.tflags, cur, n, hoid, toid);
    assert cur[n := cur[n]] == cur;
    TakeSlice(s.slots, s.first, s.first + s.count, n);
  }

  lemma TakeSlice(slots: seq<Bun>, a: nat, b: nat, n: nat)
    requires a + n <= b <= |slots|
    ensures slots[a..b][..n] == slots[a..a + n]
  {
  }

  /** Whichever BUN was put in its place, BUN p has been taken out. */
  lemma Taken(s: State, s': State, p: nat)
    requires Shape(s) && s.first <= p < s.first + s.count && |Now(s)| == s.count
    requires Becomes(s, s', WithoutByFirst(Now(s), p - s.first)) || Becomes(s, s', WithoutByLast(Now(s), p - s.first))
    ensures Shape(s') && Committed(s') == Committed(s) && multiset(Now(s')) == multiset(Now(s)) - multiset{s.slots[p]}
  {
    hide Committed, Now, WithoutByFirst, WithoutByLast;
    var cur, k := Now(s), p - s.first;
    NowAt(s, p);
    if Becomes(s, s', WithoutByFirst(cur, k)) {
      RemoveByFirst(cur, k);
    } else {
      RemoveByLast(cur, k);
    }
  }

  lemma NowAt(s: State, p: nat)
    requires Shape(s) && s.first <= p < s.first + s.count
    ensures |Now(s)| == s.count && Now(s)[p - s.first] == s.slots[p]
  {
  }

  ghost function DeletedCommitted(s: State, p: nat): State
    requires Shape(s) && s.first <= p < s.inserted
  {
    if p == s.first then DeletedFirst(s) else DeletedStable(s, p)
  }

  lemma DeleteCommittedOk(s: State, p: nat, hoid: bool, toid: bool)
    requires StateOk(s, hoid, toid) && s.first <= p < s.inserted
    ensures var s' := DeletedCommitted(s, p);
      && StateOk(s', hoid, toid) && Shape(s') && Committed(s') == Committed(s)
      && multiset(Now(s')) == multiset(Now(s)) - multiset{s.slots[p]}
  {
    hide StateOk, DeletedFirst, DeletedStable, Committed, Now, Becomes, WithoutByFirst;
    ShapeOf(s, hoid, toid);
    NowIs(s);
    if p == s.first {
      DeleteFirstOk(s, hoid, toid);
    } else {
      DeleteStableOk(s, p, hoid, toid);
    }
    Taken(s, DeletedCommitted(s, p), p);
  }

  lemma DeleteCommittedSlices(s: State, p: nat)
    requires Shape(s) && s.first <= p < s.inserted
    ensures
      var s' := DeletedCommitted(s, p);
      Shape(s') && Alpha(s') == Alpha(s) && Gone(s') == Gone(s) + [s.slots[p]]
  {
    hide DropFirst, MoveFirst, Now;
  }

  lemma DeleteCommittedHistory(s: State, p: nat, added: multiset<Bun>, removed: multiset<Bun>)
    requires History(s, added, removed) && s.first <= p < s.inserted
    ensures History(DeletedCommitted(s, p), added, removed + multiset{s.slots[p]})
  {
    hide Alpha, Gone, DeletedCommitted;
    DeleteCommittedSlices(s, p);
  }

  lemma DeleteCommittedStep(s: State, p: nat, hoid: bool, toid: bool, committed: multiset<Bun>, added: multiset<Bun>,
      removed: multiset<Bun>)
    requires Ok(s, hoid, toid, committed, added, removed) && Shape(s) && s.first <= p < s.inserted
    ensures
      var s' := DeletedCommitted(s, p);
      && Ok(s', hoid, toid, committed, added, removed + multiset{s.slots[p]})
      && Shape(s') && multiset(Now(s')) == Without(multiset(Now(s)), s.slots[p])
  {
    hide StateOk, Now, Committed, History, DeletedCommitted;
    DeleteCommittedOk(s, p, hoid, toid);
    DeleteCommittedHistory(s, p, added, removed);
  }

  ghost function DeletedOther(s: State, p: nat): State
    requires Shape(s) && s.inserted <= p < s.first + s.count
  {
    if p == s.first + s.count - 1 then s.(count := s.count - 1) else DeletedInserted(s, p)
  }

  lemma DeleteOtherOk(s: State, p: nat, hoid: bool, toid: bool)
    requires StateOk(s, hoid, toid) && s.inserted <= p < s.first + s.count
    ensures var s' := DeletedOther(s, p);
      && StateOk(s', hoid, toid) && Shape(s') && Committed(s') == Committed(s)
      && multiset(Now(s')) == multiset(Now(s)) - multiset{s.slots[p]}
  {
    hide StateOk, DeletedInserted, Committed, Now, Becomes, WithoutByLast;
    ShapeOf(s, hoid, toid);
    NowIs(s);
    if p == s.first + s.count - 1 {
      DeleteLastOk(s, hoid, toid);
    } else {
      DeleteInsertedOk(s, p, hoid, toid);
    }
    Taken(s, DeletedOther(s, p), p);
  }

  lemma DeleteOtherSlices(s: State, p: nat)
    requires Shape(s) && s.inserted <= p < s.first + s.count
    ensures |Alpha(s)| == s.first + s.count - s.inserted && Alpha(s)[p - s.inserted] == s.slots[p]
    ensures
      var s' := DeletedOther(s, p);
      Shape(s') && Alpha(s') == WithoutByLast(Alpha(s), p - s.inserted) && Gone(s') == Gone(s)
  {
    hide MoveLast, Now, Swap;
    var last := s.first + s.count - 1;
    SwapWithLast(s.slots, s.deleted, s.inserted, s.first, p, last);
    if p == last {
      var a, n := Alpha(s), p - s.inserted;
      assert a[n := a[n]] == a;
      TakeSlice(s.slots, s.inserted, last + 1, n);
    }
  }

  lemma DeleteOtherHistory(s: State, p: nat, added: multiset<Bun>, removed: multiset<Bun>)
    requires History(s, added, removed) && s.inserted <= p < s.first + s.count
    ensures History(DeletedOther(s, p), added - multiset{s.slots[p]}, removed)
  {
    hide Alpha, Gone, DeletedOther, WithoutByLast;
    DeleteOtherSlices(s, p);
    RemoveByLast(Alpha(s), p - s.inserted);
  }

  lemma DeleteOtherStep(s: State, p: nat, hoid: bool, toid: bool, committed: multiset<Bun>, added: multiset<Bun>,
      removed: multiset<Bun>)
    requires Ok(s, hoid, toid, committed, added, removed) && Shape(s) && s.inserted <= p < s.first + s.count
    ensures
      var s' := DeletedOther(s, p);
      && Ok(s', hoid, toid, committed, Without(added, s.slots[p]), removed)
      && Shape(s') && multiset(Now(s')) == Without(multiset(Now(s)), s.slots[p])
  {
    hide StateOk, Now, Committed, History, DeletedOther;
    DeleteOtherOk(s, p, hoid, toid);
    DeleteOtherHistory(s, p, added, removed);
  }

  lemma OkShape(s: State, hoid: bool, toid: bool, committed: multiset<Bun>, added: multiset<Bun>,
      removed: multiset<Bun>)
    requires Ok(s, hoid, toid, committed, added, removed)
    ensures Shape(s)
  {
  }

  lemma ShapeOf(s: State, hoid: bool, toid: bool)
    requires StateOk(s, hoid, toid)
    ensures Shape(s)
  {
  }

  lemma EmptyOk(hoid: bool, toid: bool)
    ensures var f := Flags(false, false, false, false, 0);
      var s := State([], 0, 0, 0, 0, f, f); StateOk(s, hoid, toid) && Now(s) == [] && Committed(s) == multiset{}
  {
  }

  /** The BUNs m with c in place of b. */
  ghost function Exchanged(m: multiset<Bun>, b: Bun, c: Bun): multiset<Bun> { m - multiset{b} + multiset{c} }

  /** The BUNs m without one b. */
  ghost function Without(m: multiset<Bun>, b: Bun): multiset<Bun> { m - multiset{b} }

  /** BUN b was committed and is deleted; c is inserted. */
  ghost predicate Moved(added: multiset<Bun>, removed: multiset<Bun>, b: Bun, c: Bun, added': multiset<Bun>,
      removed': multiset<Bun>) {
    added' == added + multiset{c} && removed' == removed + multiset{b}
  }

  /** BUN b was inserted since the last commit, and is c now. */
  ghost predicate Overwritten(added: multiset<Bun>, removed: multiset<Bun>, b: Bun, c: Bun, added': multiset<Bun>,
      removed': multiset<Bun>) {
    added' == Exchanged(added, b, c) && removed' == removed
  }

  class Bat {
    var slots: seq<Bun>
    var deleted: nat
    var first: nat
    var inserted: nat
    var count: nat
    var hflags: Flags
    var tflags: Flags
    const hoid: bool
    const toid: bool
    ghost var committed: multiset<Bun>
    ghost var added: multiset<Bun>
    ghost var removed: multiset<Bun>

    /** BUNlast */
    function Last(): nat
      reads this
    {
      first + count
    }

    ghost function S(): State
      reads this
    {
      State(slots, deleted, first, inserted, count, hflags, tflags)
    }

    /**
     The flags are right. The committed BUNs stand between batDeleted and batInserted, those
     deleted since before batFirst, and those inserted since from batInserted on.
     */
    ghost predicate Valid()
      reads this
    {
      Ok(S(), hoid, toid, committed, added, removed)
    }

    ghost function Current(): seq<Bun>
      requires Shape(S())
      reads this
    {
      Now(S())
    }

    constructor (hoid: bool, toid: bool)
      ensures Valid() && Current() == [] && deleted == 0 && first == 0 && count == 0 && committed == multiset{}
        && added == multiset{} && removed == multiset{} && this.hoid == hoid && this.toid == toid
    {
      hide StateOk, Now, Committed;
      slots, deleted, first, inserted, count := [], 0, 0, 0, 0;
      hflags, tflags := Flags(false, false, false, false, 0), Flags(false, false, false, false, 0);
      this.hoid, this.toid, committed, added, removed := hoid, toid, multiset{}, multiset{}, multiset{};
      new;
      EmptyOk(hoid, toid);
    }

    /** BUNins */
    method Ins(h: int, t: int)
      requires Valid() && (hoid ==> h == NIL || h >= 0) && (toid ==> t == NIL || t >= 0)
      modifies this
      ensures Valid() && deleted == old(deleted) && first == old(first) && inserted == old(inserted)
        && committed == old(committed)
      ensures Current() == old(Current()) + [Bun(h, t)] && count == old(count) + 1 && |slots| >= old(|slots|)
      ensures added == old(added) + multiset{Bun(h, t)} && removed == old(removed)
      ensures old(Current() == [] || BothExact(hflags, tflags, Current(), hoid, toid)) ==>
        BothExact(hflags, tflags, Current(), hoid, toid)
    {
      hide Ok, BothExact, Heads, Tails, SetColProps, Now, PutSlot;
      ghost var s := S();
      OkShape(s, hoid, toid, committed, added, removed);
      InsertStep(s, Bun(h, t), hoid, toid, committed, added, removed);
      var cur, last := slots[first..first + count], Last();
      hflags, tflags := SetColProps(hflags, Heads(cur), h, hoid), SetColProps(tflags, Tails(cur), t, toid);
      slots := PutSlot(slots, last, Bun(h, t));
      count, added := count + 1, added + multiset{Bun(h, t)};
      assert S() == Inserted(s, Bun(h, t), hoid, toid);
    }

    /** BUNdelete of a committed BUN: it changes place with the first, and goes to the deleted ones. */
    method DeleteCommitted(p: nat)
      requires Valid() && first <= p < inserted
      modifies this
      ensures Valid() && deleted == old(deleted) && inserted == old(inserted) && committed == old(committed)
      ensures added == old(added) && removed == old(removed) + multiset{old(slots[p])}
      ensures count == old(count) - 1 && first == old(first) + 1 && |slots| == old(|slots|)
      ensures multiset(Current()) == Without(old(multiset(Current())), old(slots[p]))
    {
      hide Ok, Swap, DropFirst, MoveFirst, Now, Without;
      ghost var s := S();
      OkShape(s, hoid, toid, committed, added, removed);
      DeleteCommittedStep(s, p, hoid, toid, committed, added, removed);
      if p == first {
        hflags, tflags := DropFirst(hflags), DropFirst(tflags);
      } else {
        slots := Swap(slots, first, p);
        hflags, tflags := MoveFirst(hflags), MoveFirst(tflags);
      }
      first, count, removed := first + 1, count - 1, removed + multiset{s.slots[p]};
      assert S() == DeletedCommitted(s, p);
    }

    /** BUNdelete of a BUN that is not committed: the last one is put in its place. */
    method DeleteInserted(p: nat)
      requires Valid() && inserted <= p < Last()
      modifies this
      ensures Valid() && deleted == old(deleted) && inserted == old(inserted) && committed == old(committed)
      ensures added == Without(old(added), old(slots[p])) && removed == old(removed)
      ensures count == old(count) - 1 && first == old(first) && |slots| == old(|slots|)
      ensures multiset(Current()) == Without(old(multiset(Current())), old(slots[p]))
    {
      hide Ok, Swap, MoveLast, Now, Without;
      ghost var s := S();
      OkShape(s, hoid, toid, committed, added, removed);
      DeleteOtherStep(s, p, hoid, toid, committed, added, removed);
      ghost var s', added' := DeletedOther(s, p), Without(added, slots[p]);
      var last := Last() - 1;
      if p != last {
        hflags := MoveLast(hflags, p + 1 == last, slots[last].head, slots[p + 1].head);
        tflags := MoveLast(tflags, p + 1 == last, slots[last].tail, slots[p + 1].tail);
        slots := Swap(slots, p, last);
      }
      count, added := count - 1, added';
      assert S() == s';
    }

    /** BUNdelete, not forced. The result is where a loop goes on. */
    method Delete(p: nat) returns (q: int)
      requires Valid() && first <= p < Last()
      modifies this
      ensures Valid() && deleted == old(deleted) && inserted == old(inserted) && committed == old(committed)
      ensures count == old(count) - 1 && multiset(Current()) == Without(old(multiset(Current())), old(slots[p]))
      ensures if p < inserted then q == p && first == old(first) + 1 else q == p - 1 && first == old(first)
      ensures if p < inserted then added == old(added) && removed == old(removed) + multiset{old(slots[p])}
        else added == Without(old(added), old(slots[p])) && removed == old(removed)
      ensures |slots| == old(|slots|)
    {
      hide Ok, Now, Without;
      OkShape(S(), hoid, toid, committed, added, removed);
      if p < inserted {
        DeleteCommitted(p);
        q := p;
      } else {
        DeleteInserted(p);
        q := p - 1;
      }
    }

    /** The loop of BATclear: BUNs are deleted one by one, as long as there is one. */
    method DeleteAll()
      requires Valid()
      modifies this
      ensures Valid() && deleted == old(deleted) && inserted == old(inserted) && committed == old(committed)
      ensures count == 0
    {
      hide Ok, Now;
      OkShape(S(), hoid, toid, committed, added, removed);
      var p: int, q := first, Last();
      while p < q
        invariant Valid() && Shape(S()) && deleted == old(deleted) && inserted == old(inserted)
          && committed == old(committed)
        invariant p == first && q == Last()
        decreases count
      {
        p := Delete(p);
        q := if q < Last() then q else Last();
        p := p + 1;
      }
    }

    /** BATclear, not forced: few BUNs are deleted one by one, many at once. */
    method Clear()
      requires Valid()
      modifies this
      ensures Valid() && deleted == old(deleted) && inserted == old(inserted) && committed == old(committed)
      ensures Current() == [] && first == inserted && added == multiset{} && removed == committed
    {
      hide Ok, Now, Trivial;
      ghost var s := S();
      OkShape(s, hoid, toid, committed, added, removed);
      if count < 20 {
        DeleteAll();
        ClearHistory(S(), hoid, toid, committed, added, removed);
      } else {
        ClearStep(s, hoid, toid, committed, added, removed);
        added, removed := multiset{}, committed;
        first := inserted;
        count := 0;
        hflags, tflags := Trivial(hflags), Trivial(tflags);
      }
    }

    /** BATcommit: deleted BUNs are forgotten, and all others are committed. */
    method Commit()
      requires Valid()
      modifies this`deleted, this`inserted, this`committed, this`added, this`removed
      ensures Valid() && Current() == old(Current()) && committed == multiset(Current())
      ensures deleted == first && inserted == Last() && added == multiset{} && removed == multiset{}
    {
      hide Ok, Now;
      ghost var s := S();
      OkShape(s, hoid, toid, committed, added, removed);
      CommitStep(s, hoid, toid, committed, added, removed);
      committed, added, removed := multiset(Current()), multiset{}, multiset{};
      deleted, inserted := first, Last();
    }

    /**
     BATundo, when the BUNs it makes current are inside the heap: it restores the committed
     BUNs iff batDeleted is 0. In that case the flags are right as well.
     */
    method Undo()
      requires Valid() && deleted + inserted <= |slots|
      modifies this`first, this`count, this`hflags, this`tflags, this`added, this`removed
      ensures Shape(S()) && first == deleted && added == multiset{} && removed == multiset{}
      ensures multiset(Current()) == committed <==> deleted == 0
      ensures deleted == 0 ==> Valid()
    {
      hide Ok, Zap, Now;
      ghost var s := S();
      OkShape(s, hoid, toid, committed, added, removed);
      UndoStep(s, hoid, toid, committed, added, removed);
      if first > deleted {
        hflags, tflags := Zap(hflags), Zap(tflags);
      }
      first := deleted;
      count := inserted;
      added, removed := multiset{}, multiset{};
      assert S() == Undone(s);
    }

    /** The uncommitted case of BUNinplace: the tail is overwritten. */
    method ReplaceInserted(p: nat, t: int)
      requires Valid() && inserted <= p < Last() && (toid ==> t == NIL || t >= 0)
      modifies this`slots, this`tflags, this`added
      ensures added == Exchanged(old(added), old(slots[p]), Bun(old(slots)[p].head, t))
      ensures Valid() && slots == old(slots)[p := Bun(old(slots)[p].head, t)]
      ensures multiset(Current()) == Exchanged(old(multiset(Current())), old(slots[p]), Bun(old(slots)[p].head, t))
    {
      hide Ok, ReplaceAt, Tails, Now, Exchanged;
      ghost var s := S();
      OkShape(s, hoid, toid, committed, added, removed);
      NowIs(s);
      InPlaceStep(s, p, t, hoid, toid, committed, added, removed);
      ghost var b := Bun(slots[p].head, t);
      tflags := ReplaceAt(tflags, Tails(slots[first..first + count]), p - first, t);
      slots := slots[p := Bun(slots[p].head, t)];
      added := Exchanged(added, s.slots[p], b);
      assert S() == Overwrote(s, p, t);
    }

    /** BUNinplace: an inserted BUN gets another tail; a committed one is deleted, and the new one inserted. */
    method InPlace(p: nat, h: int, t: int)
      requires Valid() && first <= p < Last() && slots[p].head == h
      requires (hoid ==> h == NIL || h >= 0) && (toid ==> t == NIL || t >= 0)
      modifies this
      ensures Valid() && deleted == old(deleted) && inserted == old(inserted) && committed == old(committed)
      ensures multiset(Current()) == Exchanged(old(multiset(Current())), old(slots[p]), Bun(h, t))
        && count == old(count)
      ensures if p < inserted then Moved(old(added), old(removed), old(slots[p]), Bun(h, t), added, removed)
        else Overwritten(old(added), old(removed), old(slots[p]), Bun(h, t), added, removed)
      ensures p >= inserted ==> slots == old(slots)[p := Bun(h, t)] && first == old(first)
    {
      hide Ok, Now;
      OkShape(S(), hoid, toid, committed, added, removed);
      if p >= inserted {
        ReplaceInserted(p, t);
      } else {
        var q := Delete(p);
        Ins(h, t);
      }
    }

    /** BUNreplace: the first BUN with head h, if there is one, gets tail t. */
    method Replace(h: int, t: int)
      requires Valid() && (hoid ==> h == NIL || h >= 0) && (toid ==> t == NIL || t >= 0)
      modifies this
      ensures Valid() && deleted == old(deleted) && inserted == old(inserted) && committed == old(committed)
      ensures count == old(count)
      ensures (forall b :: b in old(Current()) ==> b.head != h) ||
        (exists b :: b in old(Current()) && b.head == h
          && multiset(Current()) == Exchanged(old(multiset(Current())), b, Bun(h, t))
          && (Moved(old(added), old(removed), b, Bun(h, t), added, removed)
              || Overwritten(old(added), old(removed), b, Bun(h, t), added, removed)))
      ensures (forall b :: b in old(Current()) ==> b.head != h) ==>
        Current() == old(Current()) && added == old(added) && removed == old(removed)
    {
      hide Ok, Now, Moved, Overwritten, Exchanged;
      OkShape(S(), hoid, toid, committed, added, removed);
      NowIs(S());
      var p := first;
      while p < Last() && slots[p].head != h
        invariant first <= p <= Last() && forall i :: first <= i < p ==> slots[i].head != h
        modifies {}
      {
        p := p + 1;
      }
      if p < Last() {
        assert slots[p] == Current()[p - first];
        InPlace(p, h, t);
      } else {
        assert forall i :: 0 <= i < count ==> Current()[i] == slots[first + i];
      }
    }

    /** BATprev, BATalpha and BATdelta: the BUNs before all changes, those inserted, those deleted. */
    method Versions() returns (prev: seq<Bun>, alpha: seq<Bun>, delta: seq<Bun>)
      requires Valid()
      ensures multiset(prev) == committed && multiset(alpha) == added && multiset(delta) == removed
      ensures multiset(Current()) + multiset(delta) == multiset(prev) + multiset(alpha)
    {
      hide StateOk, Now, Committed;
      ShapeOf(S(), hoid, toid);
      VersionsOk(S());
      prev := Copy(slots, deleted, inserted);
      alpha := Copy(slots, inserted, Last());
      delta := Copy(slots, deleted, first);
    }
  }

  lemma CommitOk(s: State, hoid: bool, toid: bool)
    requires StateOk(s, hoid, toid)
    ensures var s' := s.(deleted := s.first, inserted := s.first + s.count);
      StateOk(s', hoid, toid) && Shape(s') && Now(s') == Now(s) && Committed(s') == multiset(Now(s))
  {
    hide BothTruthful, AllLegal;
  }

  lemma CommitStep(s: State, hoid: bool, toid: bool, committed: multiset<Bun>, added: multiset<Bun>,
      removed: multiset<Bun>)
    requires Ok(s, hoid, toid, committed, added, removed) && Shape(s)
    ensures
      var s' := s.(deleted := s.first, inserted := s.first + s.count);
      Ok(s', hoid, toid, multiset(Now(s)), multiset{}, multiset{}) && Shape(s') && Now(s') == Now(s)
  {
    hide StateOk, Now, Committed;
    CommitOk(s, hoid, toid);
  }

  lemma VersionsOk(s: State)
    requires Shape(s)
    ensures multiset(s.slots[s.deleted..s.inserted]) == Committed(s)
    ensures multiset(Now(s)) + multiset(s.slots[s.deleted..s.first]) ==
      Committed(s) + multiset(s.slots[s.inserted..s.first + s.count])
  {
    Conservation(s.slots, s.deleted, s.first, s.inserted, s.count);
  }

  /** The loops of BATprev, BATalpha and BATdelta. */
  method Copy(slots: seq<Bun>, lo: nat, hi: nat) returns (r: seq<Bun>)
    requires lo <= hi <= |slots|
    ensures r == slots[lo..hi]
  {
    r := [];
    for p := lo to hi
      invariant r == slots[lo..p]
    {
      r := r + [slots[p]];
    }
  }

  method TwoCommitted() returns (b: Bat)
    ensures fresh(b) && b.Valid() && !b.hoid && !b.toid && b.first == b.deleted == 0 && b.count == b.inserted == 2
  {
    hide Ok, Now;
    b := new Bat(false, false);
    b.Ins(1, 1);
    b.Ins(2, 2);
    b.Commit();
  }

  /** A run that ends in a wrong undo: after a delete has been committed, the BAT gets a BUN too many. */
  method UndoAfterCommittedDelete() returns (b: Bat)
    ensures Shape(b.S()) && multiset(b.Current()) != b.committed
  {
    hide Ok, Now;
    b := TwoCommitted();
    OkShape(b.S(), b.hoid, b.toid, b.committed, b.added, b.removed);
    var q := b.Delete(b.first);
    b.Commit();
    OkShape(b.S(), b.hoid, b.toid, b.committed, b.added, b.removed);
    b.Ins(3, 3);
    OkShape(b.S(), b.hoid, b.toid, b.committed, b.added, b.removed);
    NowIs(b.S());
    b.Undo();
  }

  ghost function Undone(s: State): State {
    var zap := s.first > s.deleted;
    State(s.slots, s.deleted, s.deleted, s.inserted, s.inserted, if zap then Zap(s.hflags) else s.hflags,
      if zap then Zap(s.tflags) else s.tflags)
  }

  lemma UndoStep(s: State, hoid: bool, toid: bool, committed: multiset<Bun>, added: multiset<Bun>,
      removed: multiset<Bun>)
    requires Ok(s, hoid, toid, committed, added, removed) && s.deleted + s.inserted <= |s.slots|
    ensures
      var s' := Undone(s);
      && Shape(s') && (multiset(Now(s')) == committed <==> s.deleted == 0)
      && (s.deleted == 0 ==> Ok(s', hoid, toid, committed, multiset{}, multiset{}))
  {
    hide StateOk, Zap;
    ShapeOf(s, hoid, toid);
    UndoExact(s.slots, s.deleted, s.inserted);
    if s.deleted == 0 {
      UndoOk(s, hoid, toid);
    }
  }

  /** BATundo in a BAT that starts at slot 0. */
  lemma UndoOk(s: State, hoid: bool, toid: bool)
    requires StateOk(s, hoid, toid) && s.deleted == 0
    ensures
      var s' := Undone(s);
      StateOk(s', hoid, toid) && Shape(s') && Now(s') == s.slots[0..s.inserted]
  {
    hide BothTruthful, Heads, Tails, Zap;
    var cur' := s.slots[0..s.inserted];
    if s.first > 0 {
      LegalColumns(cur', hoid, toid);
      ZapBoth(s.hflags, s.tflags, Now(s), cur', hoid, toid);
    } else {
      DropLastBoth(s.hflags, s.tflags, Now(s), s.inserted, hoid, toid);
      TakeSlice(s.slots, 0, s.count, s.inserted);
    }
  }

  lemma LegalColumns(cur: seq<Bun>, hoid: bool, toid: bool)
    requires AllLegal(cur, hoid, toid)
    ensures Legal(Heads(cur), hoid) && Legal(Tails(cur), toid)
  {
    forall i | 0 <= i < |cur| ensures LegalBun(cur[i], hoid, toid) {
    }
  }

  lemma UpdateLegal(slots: seq<Bun>, p: nat, t: int, hoid: bool, toid: bool)
    requires AllLegal(slots, hoid, toid) && p < |slots| && (toid ==> t == NIL || t >= 0)
    ensures AllLegal(slots[p := Bun(slots[p].head, t)], hoid, toid)
  {
    assert LegalBun(slots[p], hoid, toid);
  }

  ghost function Overwrote(s: State, p: nat, t: int): State
    requires Shape(s) && s.first <= p < s.first + s.count
  {
    s.(slots := s.slots[p := Bun(s.slots[p].head, t)], tflags := ReplaceAt(s.tflags, Tails(Now(s)), p - s.first, t))
  }

  lemma InPlaceStep(s: State, p: nat, t: int, hoid: bool, toid: bool, committed: multiset<Bun>, added: multiset<Bun>,
      removed: multiset<Bun>)
    requires Ok(s, hoid, toid, committed, added, removed) && Shape(s) && s.inserted <= p < s.first + s.count
    requires toid ==> t == NIL || t >= 0
    ensures
      var s', b := Overwrote(s, p, t), Bun(s.slots[p].head, t);
      && Ok(s', hoid, toid, committed, Exchanged(added, s.slots[p], b), removed) && Shape(s')
      && multiset(Now(s')) == Exchanged(multiset(Now(s)), s.slots[p], b)
  {
    hide StateOk, Now, Committed, History, ReplaceAt, Tails;
    NowIs(s);
    InPlaceOk(s, p, t, hoid, toid);
    InPlaceHistory(s, p, Bun(s.slots[p].head, t), Overwrote(s, p, t).tflags, added, removed);
  }

  lemma InPlaceOk(s: State, p: nat, t: int, hoid: bool, toid: bool)
    requires StateOk(s, hoid, toid) && s.inserted <= p < s.first + s.count && (toid ==> t == NIL || t >= 0)
    ensures var b := Bun(s.slots[p].head, t);
      var s' := s.(slots := s.slots[p := b], tflags := ReplaceAt(s.tflags, Tails(Now(s)), p - s.first, t));
      && StateOk(s', hoid, toid) && Shape(s') && Committed(s') == Committed(s)
      && multiset(Now(s')) == multiset(Now(s)) - multiset{s.slots[p]} + multiset{b}
  {
    hide BothTruthful, ReplaceAt, Tails, AllLegal, Now, Committed;
    var b, cur, k := Bun(s.slots[p].head, t), Now(s), p - s.first;
    NowAt(s, p);
    ReplaceBoth(s.hflags, s.tflags, cur, k, t, hoid, toid);
    UpdateLegal(s.slots, p, t, hoid, toid);
    UpdateMultiset(cur, k, b);
    InPlaceNow(s, p, b, ReplaceAt(s.tflags, Tails(cur), k, t));
  }

  lemma InPlaceNow(s: State, p: nat, b: Bun, tflags: Flags)
    requires Shape(s) && s.inserted <= p < s.first + s.count
    ensures
      var s' := s.(slots := s.slots[p := b], tflags := tflags);
      && Shape(s') && |Now(s)| == s.count && Now(s') == Now(s)[p - s.first := b]
      && s'.slots[s'.deleted..s'.inserted] == s.slots[s.deleted..s.inserted] && Committed(s') == Committed(s)
  {
    assert s.slots[p := b][s.deleted..s.inserted] == s.slots[s.deleted..s.inserted];
  }

  lemma InPlaceSlices(s: State, p: nat, b: Bun, tflags: Flags)
    requires Shape(s) && s.inserted <= p < s.first + s.count
    ensures |Alpha(s)| == s.first + s.count - s.inserted && Alpha(s)[p - s.inserted] == s.slots[p]
    ensures
      var s' := s.(slots := s.slots[p := b], tflags := tflags);
      Shape(s') && Alpha(s') == Alpha(s)[p - s.inserted := b] && Gone(s') == Gone(s)
  {
  }

  lemma InPlaceHistory(s: State, p: nat, b: Bun, tflags: Flags, added: multiset<Bun>, removed: multiset<Bun>)
    requires History(s, added, removed) && s.inserted <= p < s.first + s.count
    ensures History(s.(slots := s.slots[p := b], tflags := tflags), added - multiset{s.slots[p]} + multiset{b}, removed)
  {
    hide Alpha, Gone;
    InPlaceSlices(s, p, b, tflags);
    UpdateMultiset(Alpha(s), p - s.inserted, b);
  }

  /** When no BUN is left, none is new and all committed ones are deleted. */
  lemma ClearHistory(s: State, hoid: bool, toid: bool, committed: multiset<Bun>, added: multiset<Bun>,
      removed: multiset<Bun>)
    requires Ok(s, hoid, toid, committed, added, removed) && s.count == 0
    ensures Shape(s) && Now(s) == [] && added == multiset{} && removed == committed
  {
    hide StateOk;
  }

  lemma ClearStep(s: State, hoid: bool, toid: bool, committed: multiset<Bun>, added: multiset<Bun>,
      removed: multiset<Bun>)
    requires Ok(s, hoid, toid, committed, added, removed)
    ensures
      var s' := State(s.slots, s.deleted, s.inserted, s.inserted, 0, Trivial(s.hflags), Trivial(s.tflags));
      Ok(s', hoid, toid, committed, multiset{}, committed) && Shape(s') && Now(s') == []
  {
    hide StateOk, Trivial;
    ClearOk(s, hoid, toid);
  }

  lemma ClearOk(s: State, hoid: bool, toid: bool)
    requires StateOk(s, hoid, toid)
    ensures var s' := State(s.slots, s.deleted, s.inserted, s.inserted, 0, Trivial(s.hflags), Trivial(s.tflags));
      StateOk(s', hoid, toid) && Becomes(s, s', [])
  {
    hide BothTruthful;
    TrivialBoth(s.hflags, s.tflags, Now(s), hoid, toid);
    assert s.slots[s.inserted..s.inserted] == [];
  }

  lemma NowIs(s: State)
    requires Shape(s)
    ensures Now(s) == s.slots[s.first..s.first + s.count] && |Now(s)| == s.count
  {
  }
}
