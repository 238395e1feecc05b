/**
 Reference and share counts of BATs and of the views on them (gdk_bbp.c, gdk_align.c).

 A view has up to four links to other BATs: the parents of its head and tail heaps and the
 owners of its head and tail vheaps. Everything else that holds a BAT, by a physical fix or by
 a logical reference, is outside. In the middle of an operation some counts are still to be
 lowered or raised; that difference is kept in a Debt.
 */
module ViewRefs {

  /** parent: heap.parentid, 0 if none. vheap: the owner of the vheap, 0 if there is none. */
  datatype Column = Column(isVoid: bool, parent: nat, vheap: nat)

  /** A slot of the BBP. stamp is the P.stamp that BBPinsert gives. */
  datatype Slot =
    | Free
    | Bat(refs: nat, lrefs: nat, share: nat, head: Column, tail: Column, stamp: nat)

  /** Counts above what fixes, logical references and links account for. */
  datatype Debt = Debt(phys: multiset<nat>, log: multiset<nat>, share: multiset<nat>)

  /** References held from outside the BBP. */
  datatype Outside = Outside(fixes: multiset<nat>, keeps: multiset<nat>)

  const VoidColumn: Column := Column(true, 0, 0)

  const NoDebt: Debt := Debt(multiset{}, multiset{}, multiset{})

  // ------------------------------------------------------------------------- links

  function One(p: nat): multiset<nat> { if p == 0 then multiset{} else multiset{p} }

  /** VIEWvhparent and VIEWvtparent: the vheap's owner, if that is another BAT. */
  function VheapParent(c: Column, id: nat): nat { if c.vheap == id then 0 else c.vheap }

  function Links(s: Slot, id: nat): multiset<nat> {
    match s
    case Free => multiset{}
    case Bat(_, _, _, head, tail, _) =>
      One(head.parent) + One(tail.parent) + One(VheapParent(head, id)) + One(VheapParent(tail, id))
  }

  function ActiveLinks(s: Slot, id: nat): multiset<nat> {
    if s.Bat? && s.refs > 0 then Links(s, id) else multiset{}
  }

  /** The links of all existing BATs. */
  ghost function All(bats: seq<Slot>): multiset<nat> {
    if bats == [] then multiset{} else All(bats[..|bats| - 1]) + Links(bats[|bats| - 1], |bats| - 1)
  }

  /** The links of the BATs that have physical references. */
  ghost function Active(bats: seq<Slot>): multiset<nat> {
    if bats == [] then multiset{} else Active(bats[..|bats| - 1]) + ActiveLinks(bats[|bats| - 1], |bats| - 1)
  }

  lemma {:induction false} AllUpdate(bats: seq<Slot>, i: nat, x: Slot, p: nat)
    requires i < |bats|
    ensures All(bats[i := x])[p] + Links(bats[i], i)[p] == All(bats)[p] + Links(x, i)[p]
  {
    hide Links;
    var n := |bats| - 1;
    var bats' := bats[i := x];
    if i == n {
      assert bats'[..n] == bats[..n];
    } else {
      AllUpdate(bats[..n], i, x, p);
      assert bats'[..n] == bats[..n][i := x] && bats'[n] == bats[n];
    }
  }

  lemma {:induction false} ActiveUpdate(bats: seq<Slot>, i: nat, x: Slot, p: nat)
    requires i < |bats|
    ensures Active(bats[i := x])[p] + ActiveLinks(bats[i], i)[p] == Active(bats)[p] + ActiveLinks(x, i)[p]
  {
    hide ActiveLinks;
    var n := |bats| - 1;
    var bats' := bats[i := x];
    if i == n {
      assert bats'[..n] == bats[..n];
    } else {
      ActiveUpdate(bats[..n], i, x, p);
      assert bats'[..n] == bats[..n][i := x] && bats'[n] == bats[n];
    }
  }

  lemma {:induction false} LinksIn(bats: seq<Slot>, i: nat)
    requires i < |bats|
    ensures Links(bats[i], i) <= All(bats)
    ensures ActiveLinks(bats[i], i) <= Active(bats)
  {
    hide Links, ActiveLinks;
    var n := |bats| - 1;
    if i < n {
      LinksIn(bats[..n], i);
    }
  }

  lemma {:induction false} ActiveInAll(bats: seq<Slot>, p: nat)
    ensures Active(bats)[p] <= All(bats)[p]
  {
    hide Links;
    if bats != [] {
      ActiveInAll(bats[..|bats| - 1], p);
    }
  }

  /** A linked BAT is linked by some BAT. */
  lemma {:induction false} Linker(bats: seq<Slot>, p: nat) returns (v: nat)
    requires p in All(bats)
    ensures v < |bats| && p in Links(bats[v], v)
  {
    hide Links;
    var n := |bats| - 1;
    if p in Links(bats[n], n) {
      v := n;
    } else {
      v := Linker(bats[..n], p);
    }
  }

  // --------------------------------------------------------------------- invariant

  predicate Is(bats: seq<Slot>, i: nat) { 0 < i < |bats| && bats[i].Bat? }

  predicate ColumnOk(c: Column) { c.isVoid ==> c.parent == 0 && c.vheap == 0 }

  /** BAT p has column c. */
  predicate Has(bats: seq<Slot>, p: nat, c: Column) { Is(bats, p) && (bats[p].head == c || bats[p].tail == c) }

  /** The heap parent of a column owns the column it lends, and so does the parent of its vheap. */
  predicate Lent(bats: seq<Slot>, c: Column) {
    && (c.parent != 0 ==> Has(bats, c.parent, Column(false, 0, c.vheap)))
    && (c.vheap != 0 ==> Has(bats, c.vheap, Column(false, 0, c.vheap)))
  }

  /** A view links to BATs that exist and are older, and that own what the view shares. */
  ghost predicate BatOk(bats: seq<Slot>, v: nat, clock: nat)
    requires v < |bats|
  {
    bats[v].Bat? ==>
      && ColumnOk(bats[v].head) && ColumnOk(bats[v].tail) && bats[v].stamp <= clock
      && Lent(bats, bats[v].head) && Lent(bats, bats[v].tail)
      && forall p :: p in Links(bats[v], v) ==> Is(bats, p) && bats[p].stamp < bats[v].stamp
  }

  ghost predicate WellFormed(bats: seq<Slot>, clock: nat) {
    |bats| > 0 && bats[0].Free? && forall v: nat {:trigger BatOk(bats, v, clock)} :: v < |bats| ==>
      BatOk(bats, v, clock)
  }

  ghost predicate Exist(bats: seq<Slot>, m: multiset<nat>) {
    forall i :: i in m ==> Is(bats, i)
  }

  /** BAT i has the counts that are due to it, and is referenced. */
  ghost predicate BalancedAt(bats: seq<Slot>, out: Outside, d: Debt, up: multiset<nat>, i: nat)
    requires i < |bats|
  {
    bats[i].Bat? ==>
      && bats[i].refs + up[i] == out.fixes[i] + Active(bats)[i] + d.phys[i]
      && bats[i].lrefs == out.keeps[i] + All(bats)[i] + d.log[i]
      && bats[i].share == All(bats)[i] + d.share[i]
      && bats[i].refs + bats[i].lrefs > 0
  }

  ghost predicate Balanced(bats: seq<Slot>, out: Outside, d: Debt, up: multiset<nat>) {
    forall i: nat {:trigger BalancedAt(bats, out, d, up, i)} :: i < |bats| ==> BalancedAt(bats, out, d, up, i)
  }

  /**
   refs counts the outside fixes and the links of BATs with refs > 0, lrefs the outside logical
   references and the links of all BATs, sharecnt the links of all BATs; plus the debt, and
   minus the physical references `up` that are still to be taken.
   */
  ghost predicate Inv(bats: seq<Slot>, clock: nat, out: Outside, d: Debt, up: multiset<nat>) {
    && WellFormed(bats, clock)
    && Exist(bats, out.fixes) && Exist(bats, out.keeps) && Exist(bats, d.phys) && Exist(bats, d.log) && Exist(bats, up)
    && d.share <= d.log
    && Balanced(bats, out, d, up)
  }

  /** The same BATs with the same links; only counts differ. */
  ghost predicate SameLinks(old_: seq<Slot>, bats: seq<Slot>) {
    && |bats| == |old_|
    && forall i :: 0 <= i < |bats| ==>
         (bats[i].Free? <==> old_[i].Free?)
         && (bats[i].Bat? ==>
               bats[i].head == old_[i].head && bats[i].tail == old_[i].tail && bats[i].stamp == old_[i].stamp)
  }

  /** Some BATs are gone; the others are as they were, but for the counts. */
  ghost predicate Shrunk(old_: seq<Slot>, bats: seq<Slot>) {
    && |bats| == |old_|
    && forall i :: 0 <= i < |bats| && bats[i].Bat? ==>
         old_[i].Bat? && bats[i].head == old_[i].head && bats[i].tail == old_[i].tail && bats[i].stamp == old_[i].stamp
  }

  // ------------------------------------------------- what the invariant says

  /** Every linked BAT exists, and is referenced through every count. */
  lemma LinkedAlive(bats: seq<Slot>, clock: nat, out: Outside, d: Debt, v: nat, p: nat)
    requires Inv(bats, clock, out, d, multiset{}) && Is(bats, v) && p in Links(bats[v], v)
    ensures Is(bats, p) && bats[p].lrefs > 0 && bats[p].share > 0
    ensures bats[v].refs > 0 ==> bats[p].refs > 0
  {
    LinksIn(bats, v);
    assert BatOk(bats, v, clock);
    assert BalancedAt(bats, out, d, multiset{}, p);
  }

  /** Between operations the counts are exact, and a BAT exists only while it is referenced. */
  lemma CountsExact(bats: seq<Slot>, clock: nat, out: Outside, i: nat)
    requires Inv(bats, clock, out, NoDebt, multiset{}) && Is(bats, i)
    ensures bats[i].refs == out.fixes[i] + Active(bats)[i]
    ensures bats[i].lrefs == out.keeps[i] + All(bats)[i]
    ensures bats[i].share == All(bats)[i]
    ensures out.fixes[i] + out.keeps[i] + All(bats)[i] > 0
  {
    ActiveInAll(bats, i);
    assert BalancedAt(bats, out, NoDebt, multiset{}, i);
  }

  /** A BAT that owns no column: each of them is void or a view. */
  predicate OnlyViews(s: Slot) {
    s.Bat? && (s.head.isVoid || s.head.parent != 0) && (s.tail.isVoid || s.tail.parent != 0)
  }

  lemma LinkedOwns(bats: seq<Slot>, clock: nat, u: nat, p: nat)
    requires WellFormed(bats, clock) && Is(bats, u) && p in Links(bats[u], u)
    ensures Is(bats, p) && !OnlyViews(bats[p])
  {
    hide Links;
    LinkIs(bats[u], u, p);
    assert BatOk(bats, u, clock);
  }

  lemma LinkIs(s: Slot, id: nat, p: nat)
    requires s.Bat? && p in Links(s, id)
    ensures p != 0 && p in {s.head.parent, s.tail.parent, s.head.vheap, s.tail.vheap}
  {
  }

  /** No BAT shares a view: what looks like a view on a view links past it, so that it is held from outside alone. */
  lemma ViewNotShared(bats: seq<Slot>, clock: nat, out: Outside, i: nat)
    requires Inv(bats, clock, out, NoDebt, multiset{}) && Is(bats, i) && OnlyViews(bats[i])
    ensures i !in All(bats)
    ensures bats[i].share == 0 && bats[i].refs == out.fixes[i] && bats[i].lrefs == out.keeps[i]
  {
    hide All, Active, Balanced, Links, OnlyViews, WellFormed;
    CountsExact(bats, clock, out, i);
    ActiveInAll(bats, i);
    if i in All(bats) {
      var u := YoungerLinker(bats, clock, i);
      LinkedOwns(bats, clock, u, i);
    }
  }

  lemma YoungerLinker(bats: seq<Slot>, clock: nat, p: nat) returns (u: nat)
    requires WellFormed(bats, clock) && p in All(bats)
    ensures Is(bats, u) && p in Links(bats[u], u) && Is(bats, p) && bats[p].stamp < bats[u].stamp
  {
    u := Linker(bats, p);
    assert BatOk(bats, u, clock);
  }

  /** A chain of links from a BAT, through the views on it, to one that is referenced from outside. */
  ghost predicate Chain(bats: seq<Slot>, out: Outside, path: seq<nat>) {
    && path != []
    && if |path| == 1 then path[0] in out.fixes || path[0] in out.keeps
       else path[1] < |bats| && path[0] in Links(bats[path[1]], path[1]) && Chain(bats, out, path[1..])
  }

  lemma StampOk(bats: seq<Slot>, clock: nat, i: nat)
    requires WellFormed(bats, clock) && Is(bats, i)
    ensures bats[i].stamp <= clock
  {
    assert BatOk(bats, i, clock);
  }

  /** Nothing leaks: every BAT is held from outside, directly or through views on it. */
  lemma {:induction false} NoLeak(bats: seq<Slot>, clock: nat, out: Outside, i: nat) returns (path: seq<nat>)
    requires Inv(bats, clock, out, NoDebt, multiset{}) && Is(bats, i)
    ensures Chain(bats, out, path) && path[0] == i
    decreases clock - bats[i].stamp
  {
    hide Links, All, Active, WellFormed, Balanced;
    StampOk(bats, clock, i);
    CountsExact(bats, clock, out, i);
    if i in out.fixes || i in out.keeps {
      path := [i];
    } else {
      var u := YoungerLinker(bats, clock, i);
      StampOk(bats, clock, u);
      var rest := NoLeak(bats, clock, out, u);
      path := [i] + rest;
      assert path[1..] == rest;
    }
  }

  // ------------------------------------------------------------- changing one slot

  ghost predicate SameColumns(s: Slot, x: Slot) {
    s.Bat? && x.Bat? && s.head == x.head && s.tail == x.tail && s.stamp == x.stamp
  }

  function Refs(s: Slot): nat { if s.Free? then 0 else s.refs }

  function Lrefs(s: Slot): nat { if s.Free? then 0 else s.lrefs }

  function Shares(s: Slot): nat { if s.Free? then 0 else s.share }

  /** Of BAT j, the change from s to x in slot i is what the change in links and debts accounts for. */
  ghost predicate Accounted(s: Slot, x: Slot, i: nat, d: Debt, up: multiset<nat>, d': Debt, up': multiset<nat>,
      j: nat) {
    && d'.phys[j] + ActiveLinks(x, i)[j] + up[j] + (if j == i then Refs(s) else 0)
       == d.phys[j] + ActiveLinks(s, i)[j] + up'[j] + (if j == i then Refs(x) else 0)
    && d'.log[j] + Links(x, i)[j] + (if j == i then Lrefs(s) else 0) ==
      d.log[j] + Links(s, i)[j] + (if j == i then Lrefs(x) else 0)
    && d'.share[j] + Links(x, i)[j] + (if j == i then Shares(s) else 0) ==
      d.share[j] + Links(s, i)[j] + (if j == i then Shares(x) else 0)
  }

  ghost predicate AllAccounted(s: Slot, x: Slot, i: nat, d: Debt, up: multiset<nat>, d': Debt, up': multiset<nat>) {
    forall j: nat {:trigger Accounted(s, x, i, d, up, d', up', j)} :: Accounted(s, x, i, d, up, d', up', j)
  }

  lemma BatOkChange(bats: seq<Slot>, clock: nat, i: nat, x: Slot, v: nat)
    requires v < |bats| && BatOk(bats, v, clock) && Is(bats, i)
    requires SameColumns(bats[i], x) || (x.Free? && i !in All(bats[i := x]))
    ensures BatOk(bats[i := x], v, clock)
  {
    hide Links, All, Active, Lent;
    LinksIn(bats[i := x], v);
    if x.Bat? {
      SameLinksOf(bats[i], x, i);
    }
    if bats[i := x][v].Bat? {
      assert x.Free? ==> v != i;
      LentChange(bats, i, x, v, Head);
      LentChange(bats, i, x, v, Tail);
    }
  }

  lemma LentChange(bats: seq<Slot>, i: nat, x: Slot, v: nat, side: Side)
    requires v < |bats| && bats[v].Bat? && Is(bats, i) && Lent(bats, Col(bats[v], side))
    requires SameColumns(bats[i], x) || (x.Free? && v != i && i !in Links(bats[v], v))
    ensures Lent(bats[i := x], Col(bats[v], side))
  {
  }

  lemma WellFormedChange(bats: seq<Slot>, clock: nat, i: nat, x: Slot)
    requires WellFormed(bats, clock) && Is(bats, i)
    requires SameColumns(bats[i], x) || (x.Free? && i !in All(bats[i := x]))
    ensures WellFormed(bats[i := x], clock)
  {
    hide BatOk, SameColumns, All;
    var bats' := bats[i := x];
    forall v: nat | v < |bats'| ensures BatOk(bats', v, clock) {
      BatOkChange(bats, clock, i, x, v);
    }
  }

  lemma SameLinksOf(s: Slot, x: Slot, i: nat)
    requires SameColumns(s, x)
    ensures Links(s, i) == Links(x, i)
  {
  }

  lemma FreeLinks(i: nat)
    ensures Links(Free, i) == multiset{}
  {
  }

  lemma BalancedChange(bats: seq<Slot>, out: Outside, d: Debt, up: multiset<nat>, i: nat, x: Slot, d': Debt,
      up': multiset<nat>, j: nat)
    requires j < |bats| && i < |bats| && BalancedAt(bats, out, d, up, j) && Accounted(bats[i], x, i, d, up, d', up', j)
    requires bats[i].Bat? && (x.Bat? ==> x.refs + x.lrefs > 0)
    ensures BalancedAt(bats[i := x], out, d', up', j)
    ensures j == i && x.Free? && up'[i] == 0 ==>
      out.fixes[i] == 0 && out.keeps[i] == 0 && d'.phys[i] == 0 && d'.log[i] == 0 && All(bats[i := x])[i] == 0
  {
    hide All, Active, Links, ActiveLinks;
    AllUpdate(bats, i, x, j);
    ActiveUpdate(bats, i, x, j);
  }

  /** One slot changes, or is cleared, and the debt takes up the difference. */
  lemma Change(bats: seq<Slot>, clock: nat, out: Outside, d: Debt, up: multiset<nat>, i: nat, x: Slot, d': Debt,
      up': multiset<nat>)
    requires Inv(bats, clock, out, d, up) && Is(bats, i)
    requires if x.Free? then up' == multiset{} else SameColumns(bats[i], x) && x.refs + x.lrefs > 0
    requires AllAccounted(bats[i], x, i, d, up, d', up')
    requires Exist(bats, d'.phys) && Exist(bats, d'.log) && Exist(bats, up') && d'.share <= d'.log
    ensures Inv(bats[i := x], clock, out, d', up')
  {
    hide All, Active, Links, ActiveLinks, Accounted, BalancedAt, WellFormed, SameColumns;
    var bats' := bats[i := x];
    forall j: nat | j < |bats|
      ensures BalancedAt(bats', out, d', up', j)
    {
      assert BalancedAt(bats, out, d, up, j) && Accounted(bats[i], x, i, d, up, d', up', j);
      BalancedChange(bats, out, d, up, i, x, d', up', j);
    }
    assert BalancedAt(bats, out, d, up, i) && Accounted(bats[i], x, i, d, up, d', up', i);
    BalancedChange(bats, out, d, up, i, x, d', up', i);
    WellFormedChange(bats, clock, i, x);
  }

  // ------------------------------------------------------------------------- steps

  function Owing(d: Debt, i: nat, logical: bool): Debt {
    if logical then Debt(d.phys, d.log + multiset{i}, d.share) else Debt(d.phys + multiset{i}, d.log, d.share)
  }

  function OwingLinks(d: Debt, ls: multiset<nat>): Debt { Debt(d.phys, d.log + ls, d.share + ls) }

  function PhysLinks(d: Debt, ls: multiset<nat>): Debt { Debt(d.phys + ls, d.log, d.share) }

  lemma LinksExist(bats: seq<Slot>, clock: nat, i: nat)
    requires WellFormed(bats, clock) && Is(bats, i)
    ensures Exist(bats, Links(bats[i], i))
  {
    assert BatOk(bats, i, clock);
  }

  /** decref of a physical reference that is owed. */
  lemma DropPhysical(bats: seq<Slot>, clock: nat, out: Outside, d: Debt, i: nat)
    requires Inv(bats, clock, out, Owing(d, i, false), multiset{})
    ensures Is(bats, i) && bats[i].refs > 0
    ensures bats[i].refs > 1 ==> Inv(bats[i := bats[i].(refs := bats[i].refs - 1)], clock, out, d, multiset{})
    ensures bats[i].refs == 1 && bats[i].lrefs > 0 ==>
      Inv(bats[i := bats[i].(refs := 0)], clock, out, PhysLinks(d, Links(bats[i], i)), multiset{})
    ensures bats[i].refs == 1 && bats[i].lrefs == 0 ==>
      bats[i].share == 0 && Inv(bats[i := Free], clock, out,
        OwingLinks(PhysLinks(d, Links(bats[i], i)), Links(bats[i], i)), multiset{})
  {
    hide Links, WellFormed, All, Active;
    var d0 := Owing(d, i, false);
    assert i in d0.phys;
    assert BalancedAt(bats, out, d0, multiset{}, i);
    var s := bats[i];
    LinksExist(bats, clock, i);
    FreeLinks(i);
    var x := if s.refs + s.lrefs > 1 then s.(refs := s.refs - 1) else Free;
    var d' := if s.refs > 1 then d else if s.lrefs > 0 then PhysLinks(d, Links(s, i))
      else OwingLinks(PhysLinks(d, Links(s, i)), Links(s, i));
    forall j: nat ensures Accounted(s, x, i, d0, multiset{}, d', multiset{}, j) {
      if x.Bat? {
        SameLinksOf(s, x, i);
      }
    }
    Change(bats, clock, out, d0, multiset{}, i, x, d', multiset{});
  }

  /** decref of a logical reference that is owed. */
  lemma DropLogical(bats: seq<Slot>, clock: nat, out: Outside, d: Debt, i: nat)
    requires Inv(bats, clock, out, Owing(d, i, true), multiset{}) && d.share <= d.log
    ensures Is(bats, i) && bats[i].lrefs > 0
    ensures bats[i].refs + bats[i].lrefs > 1 ==>
      Inv(bats[i := bats[i].(lrefs := bats[i].lrefs - 1)], clock, out, d, multiset{})
    ensures bats[i].refs + bats[i].lrefs == 1 ==>
      bats[i].share == 0 && Inv(bats[i := Free], clock, out, OwingLinks(d, Links(bats[i], i)), multiset{})
  {
    hide Links, WellFormed, All, Active;
    var d0 := Owing(d, i, true);
    assert i in d0.log;
    assert BalancedAt(bats, out, d0, multiset{}, i);
    var s := bats[i];
    LinksExist(bats, clock, i);
    FreeLinks(i);
    var x := if s.refs + s.lrefs > 1 then s.(lrefs := s.lrefs - 1) else Free;
    var d' := if x.Bat? then d else OwingLinks(d, Links(s, i));
    forall j: nat ensures Accounted(s, x, i, d0, multiset{}, d', multiset{}, j) {
      if x.Bat? {
        SameLinksOf(s, x, i);
      }
    }
    Change(bats, clock, out, d0, multiset{}, i, x, d', multiset{});
  }

  lemma DropShare(bats: seq<Slot>, clock: nat, out: Outside, d: Debt, i: nat)
    requires Inv(bats, clock, out, Debt(d.phys, d.log, d.share + multiset{i}), multiset{})
    ensures Is(bats, i) && bats[i].share > 0
    ensures Inv(bats[i := bats[i].(share := bats[i].share - 1)], clock, out, d, multiset{})
  {
    hide Links, WellFormed, All, Active;
    var d0 := Debt(d.phys, d.log, d.share + multiset{i});
    assert i in d0.share;
    assert BalancedAt(bats, out, d0, multiset{}, i);
    var s := bats[i];
    var x := s.(share := s.share - 1);
    SameLinksOf(s, x, i);
    forall j: nat ensures Accounted(s, x, i, d0, multiset{}, d, multiset{}, j) {
    }
    Change(bats, clock, out, d0, multiset{}, i, x, d, multiset{});
  }

  /** incref of a physical reference that is to be taken. */
  lemma TakePhysical(bats: seq<Slot>, clock: nat, out: Outside, d: Debt, up: multiset<nat>, i: nat)
    requires Inv(bats, clock, out, d, up + multiset{i})
    ensures Is(bats, i) && bats[i].refs + bats[i].lrefs > 0
    ensures Inv(bats[i := bats[i].(refs := bats[i].refs + 1)], clock, out, d, if bats[i].refs == 0 then
      up + Links(bats[i], i) else up)
  {
    hide Links, WellFormed, All, Active;
    var up0 := up + multiset{i};
    assert i in up0;
    assert BalancedAt(bats, out, d, up0, i);
    var s := bats[i];
    var x := s.(refs := s.refs + 1);
    var up' := if s.refs == 0 then up + Links(s, i) else up;
    LinksExist(bats, clock, i);
    SameLinksOf(s, x, i);
    forall j: nat ensures Accounted(s, x, i, d, up0, d, up', j) {
    }
    Change(bats, clock, out, d, up0, i, x, d, up');
  }

  lemma TakeLogical(bats: seq<Slot>, clock: nat, out: Outside, d: Debt, up: multiset<nat>, i: nat)
    requires Inv(bats, clock, out, d, up) && Is(bats, i)
    ensures Inv(bats[i := bats[i].(lrefs := bats[i].lrefs + 1)], clock, out, Owing(d, i, true), up)
  {
    hide Links, WellFormed, All, Active;
    var s := bats[i];
    assert BalancedAt(bats, out, d, up, i);
    var x := s.(lrefs := s.lrefs + 1);
    SameLinksOf(s, x, i);
    var d' := Owing(d, i, true);
    forall j: nat ensures Accounted(s, x, i, d, up, d', up, j) {
    }
    Change(bats, clock, out, d, up, i, x, d', up);
  }

  lemma TakeShare(bats: seq<Slot>, clock: nat, out: Outside, d: Debt, i: nat)
    requires Inv(bats, clock, out, Owing(d, i, true), multiset{}) && d.share <= d.log && Is(bats, i)
    ensures Inv(bats[i := bats[i].(share := bats[i].share + 1)], clock, out, OwingLinks(d, multiset{i}), multiset{})
  {
    hide Links, WellFormed, All, Active;
    var s := bats[i];
    var d0 := Owing(d, i, true);
    assert BalancedAt(bats, out, d0, multiset{}, i);
    var x := s.(share := s.share + 1);
    SameLinksOf(s, x, i);
    var d' := OwingLinks(d, multiset{i});
    forall j: nat ensures Accounted(s, x, i, d0, multiset{}, d', multiset{}, j) {
    }
    Change(bats, clock, out, d0, multiset{}, i, x, d', multiset{});
  }

  // --------------------------------------------------------------------- measures

  ghost function Total(bats: seq<Slot>): nat {
    if bats == [] then 0 else Total(bats[..|bats| - 1]) + Refs(bats[|bats| - 1]) + Lrefs(bats[|bats| - 1])
  }

  lemma {:induction false} TotalUpdate(bats: seq<Slot>, i: nat, x: Slot)
    requires i < |bats|
    ensures Total(bats[i := x]) + Refs(bats[i]) + Lrefs(bats[i]) == Total(bats) + Refs(x) + Lrefs(x)
  {
    hide Refs, Lrefs;
    var n := |bats| - 1;
    var bats' := bats[i := x];
    if i == n {
      assert bats'[..n] == bats[..n];
    } else {
      TotalUpdate(bats[..n], i, x);
      assert bats'[..n] == bats[..n][i := x] && bats'[n] == bats[n];
    }
  }

  function Unfixed(s: Slot): nat { if s.Bat? && s.refs == 0 then 1 else 0 }

  /** The number of BATs without physical references. */
  ghost function Zeros(bats: seq<Slot>): nat {
    if bats == [] then 0 else Zeros(bats[..|bats| - 1]) + Unfixed(bats[|bats| - 1])
  }

  lemma {:induction false} ZerosUpdate(bats: seq<Slot>, i: nat, x: Slot)
    requires i < |bats|
    ensures Zeros(bats[i := x]) + Unfixed(bats[i]) == Zeros(bats) + Unfixed(x)
  {
    hide Unfixed;
    var n := |bats| - 1;
    var bats' := bats[i := x];
    if i == n {
      assert bats'[..n] == bats[..n];
    } else {
      ZerosUpdate(bats[..n], i, x);
      assert bats'[..n] == bats[..n][i := x] && bats'[n] == bats[n];
    }
  }

  // ----------------------------------------------------------------------- the BBP

  function Bump(s: Slot, refs: nat, lrefs: nat, share: nat): Slot
    requires s.Bat?
  {
    s.(refs := s.refs + refs, lrefs := s.lrefs + lrefs, share := s.share + share)
  }

  class Pool {
    var bats: seq<Slot>
    var clock: nat
    ghost var out: Outside

    ghost predicate Valid()
      reads this
    {
      Inv(bats, clock, out, NoDebt, multiset{})
    }

    ghost predicate Owes(d: Debt, up: multiset<nat>)
      reads this
    {
      Inv(bats, clock, out, d, up)
    }

    /** incref of a physical reference: the first one on a view also fixes the view's parents. */
    method Incref(i: nat, ghost d: Debt, ghost up: multiset<nat>)
      requires Owes(d, up + multiset{i})
      modifies this`bats
      ensures Owes(d, up)
      ensures SameLinks(old(bats), bats) && RefsGrown(old(bats), bats) && Zeros(bats) <= old(Zeros(bats))
      ensures Is(old(bats), i) && (old(bats)[i].refs > 0 ==> bats == old(bats)[i := Bump(old(bats)[i], 1, 0, 0)])
      decreases Zeros(bats), 0
    {
      hide Inv, Links, Zeros, One, VheapParent, SameLinks, RefsGrown;
      TakePhysical(bats, clock, out, d, up, i);
      assert bats[i].refs + bats[i].lrefs > 0;
      var s := bats[i];
      var x := Bump(s, 1, 0, 0);
      ZerosUpdate(bats, i, x);
      SameLinksUpdate(bats, i, x);
      bats := bats[i := x];
      if s.refs == 0 {
        var hp, tp, hvp, tvp := s.head.parent, s.tail.parent, VheapParent(s.head, i), VheapParent(s.tail, i);
        LinksAre(s, i, up);
        ghost var b0 := bats;
        IncrefIf(hp, d, up + One(tvp) + One(hvp) + One(tp));
        ghost var b1 := bats;
        IncrefIf(tp, d, up + One(tvp) + One(hvp));
        ghost var b2 := bats;
        IncrefIf(hvp, d, up + One(tvp));
        ghost var b3 := bats;
        IncrefIf(tvp, d, up);
        SameLinksTrans(old(bats), b0, b1);
        SameLinksTrans(old(bats), b1, b2);
        SameLinksTrans(old(bats), b2, b3);
        SameLinksTrans(old(bats), b3, bats);
      }
    }

    method IncrefIf(p: nat, ghost d: Debt, ghost up: multiset<nat>)
      requires Owes(d, up + One(p))
      modifies this`bats
      ensures Owes(d, up)
      ensures SameLinks(old(bats), bats) && RefsGrown(old(bats), bats) && Zeros(bats) <= old(Zeros(bats))
      decreases Zeros(bats), 1
    {
      hide Inv, Zeros;
      if p != 0 {
        Incref(p, d, up);
      } else {
        assert up + multiset{} == up;
      }
    }

    /**
     decref without releaseShare. A BAT without references is destroyed at once; a view that
     loses its last physical reference then gives up those on its parents.
     */
    method Decref(i: nat, logical: bool, ghost d: Debt)
      requires Owes(Owing(d, i, logical), multiset{}) && d.share <= d.log
      modifies this`bats
      ensures Owes(d, multiset{})
      ensures Shrunk(old(bats), bats) && Total(bats) < old(Total(bats))
      decreases Total(bats), 0
    {
      hide Inv, Links, Total, One, VheapParent, Shrunk, OwingLinks;
      if logical {
        DropLogical(bats, clock, out, d, i);
      } else {
        DropPhysical(bats, clock, out, d, i);
        assert forall p :: p in Links(bats[i], i) ==> Is(bats, p) && bats[p].refs > 0 by {
          forall p | p in Links(bats[i], i) ensures Is(bats, p) && bats[p].refs > 0 {
            LinkedAlive(bats, clock, out, Owing(d, i, logical), i, p);
          }
        }
      }
      var s := bats[i];
      var x := if logical then s.(lrefs := s.lrefs - 1) else s.(refs := s.refs - 1);
      var hp, tp, hvp, tvp := 0, 0, 0, 0;
      if !logical && x.refs == 0 {
        hp, tp, hvp, tvp := s.head.parent, s.tail.parent, VheapParent(s.head, i), VheapParent(s.tail, i);
      }
      ghost var d' := PhysLinks(d, One(tvp) + One(hvp) + One(tp) + One(hp));
      AfterDrop(s, i, d, hp, tp, hvp, tvp, !logical && x.refs == 0);
      TotalUpdate(bats, i, x);
      ShrunkUpdate(bats, i, x);
      bats := bats[i := x];
      ghost var b0 := bats;
      if x.refs == 0 && x.lrefs == 0 {
        assert b0[i := Free] == old(bats)[i := Free];
        SameLinksOf(s, x, i);
        Destroy(i, d');
      } else {
        ShrunkRefl(bats);
      }
      ghost var b1 := bats;
      ReleaseParents(hp, tp, hvp, tvp, d);
      ShrunkTrans(old(bats), b0, b1);
      ShrunkTrans(old(bats), b1, bats);
    }

    method ReleaseParents(hp: nat, tp: nat, hvp: nat, tvp: nat, ghost d: Debt)
      requires Owes(PhysLinks(d, One(tvp) + One(hvp) + One(tp) + One(hp)), multiset{}) && d.share <= d.log
      modifies this`bats
      ensures Owes(d, multiset{})
      ensures Shrunk(old(bats), bats) && Total(bats) <= old(Total(bats))
      decreases Total(bats), 2
    {
      hide Inv, Total, One, Shrunk;
      ghost var d3 := PhysLinks(d, One(tvp));
      ghost var d2 := PhysLinks(d3, One(hvp));
      ghost var d1 := PhysLinks(d2, One(tp));
      assert PhysLinks(d, One(tvp) + One(hvp) + One(tp) + One(hp)) == PhysLinks(d1, One(hp));
      DecrefIf(hp, d1);
      ghost var b1 := bats;
      DecrefIf(tp, d2);
      ghost var b2 := bats;
      DecrefIf(hvp, d3);
      ghost var b3 := bats;
      DecrefIf(tvp, d);
      ShrunkTrans(old(bats), b1, b2);
      ShrunkTrans(old(bats), b2, b3);
      ShrunkTrans(old(bats), b3, bats);
    }

    method DecrefIf(p: nat, ghost d: Debt)
      requires Owes(PhysLinks(d, One(p)), multiset{}) && d.share <= d.log
      modifies this`bats
      ensures Owes(d, multiset{})
      ensures Shrunk(old(bats), bats) && Total(bats) <= old(Total(bats))
      decreases Total(bats), 1
    {
      hide Inv, Total;
      if p != 0 {
        Decref(p, false, d);
      } else {
        assert PhysLinks(d, multiset{}) == d;
      }
    }

    /** BBPdestroy: the slot is cleared, and the parents of the BAT are unshared. */
    method Destroy(i: nat, ghost d: Debt)
      requires i < |bats| && bats[i].Bat? && bats[i].refs == 0 && bats[i].lrefs == 0 && bats[i].share == 0
      requires Inv(bats[i := Free], clock, out, OwingLinks(d, Links(bats[i], i)), multiset{}) && d.share <= d.log
      modifies this`bats
      ensures Owes(d, multiset{})
      ensures Shrunk(old(bats), bats) && Total(bats) <= old(Total(bats))
      decreases Total(bats), 3
    {
      hide Inv, Links, Total, One, VheapParent, Shrunk;
      var s := bats[i];
      var hp, tp, hvp, tvp := s.head.parent, s.tail.parent, VheapParent(s.head, i), VheapParent(s.tail, i);
      TotalUpdate(bats, i, Free);
      ShrunkUpdate(bats, i, Free);
      bats := bats[i := Free];
      ghost var b0 := bats;
      ghost var d3 := OwingLinks(d, One(tvp));
      ghost var d2 := OwingLinks(d3, One(tp));
      ghost var d1 := OwingLinks(d2, One(hvp));
      DestroyDebt(s, i, d);
      UnshareIf(hp, d1);
      ghost var b1 := bats;
      UnshareIf(hvp, d2);
      ghost var b2 := bats;
      UnshareIf(tp, d3);
      ghost var b3 := bats;
      UnshareIf(tvp, d);
      ShrunkTrans(old(bats), b0, b1);
      ShrunkTrans(old(bats), b1, b2);
      ShrunkTrans(old(bats), b2, b3);
      ShrunkTrans(old(bats), b3, bats);
    }

    /** GDKunshare: first the share is released, then the logical reference. */
    method UnshareIf(p: nat, ghost d: Debt)
      requires Owes(OwingLinks(d, One(p)), multiset{}) && d.share <= d.log
      modifies this`bats
      ensures Owes(d, multiset{})
      ensures Shrunk(old(bats), bats) && Total(bats) <= old(Total(bats))
      decreases Total(bats), 1
    {
      hide Inv, Total, Shrunk;
      if p != 0 {
        DropShare(bats, clock, out, Owing(d, p, true), p);
        var x := bats[p].(share := bats[p].share - 1);
        TotalUpdate(bats, p, x);
        ShrunkUpdate(bats, p, x);
        bats := bats[p := x];
        ghost var b1 := bats;
        Decref(p, true, d);
        ShrunkTrans(old(bats), b1, bats);
      } else {
        assert OwingLinks(d, multiset{}) == d;
        ShrunkRefl(bats);
      }
    }

    // ------------------------------------------------------- operations from outside

    constructor ()
      ensures Valid() && bats == [Free] && out == Outside(multiset{}, multiset{})
    {
      bats, clock, out := [Free], 0, Outside(multiset{}, multiset{});
    }

    /** BBPextend: one more free slot. */
    method Extend()
      requires Valid()
      modifies this`bats
      ensures Valid() && bats == old(bats) + [Free]
    {
      ExtendInv(bats, clock, out);
      bats := bats + [Free];
    }

    /** BBPfix, or BBPincref(i, FALSE). */
    method Fix(i: nat)
      requires Valid() && Is(bats, i)
      modifies this`bats, this`out
      ensures Valid() && out == Outside(old(out.fixes) + multiset{i}, old(out.keeps))
      ensures SameLinks(old(bats), bats) && RefsGrown(old(bats), bats)
    {
      hide Inv;
      ghost var out' := Outside(out.fixes + multiset{i}, out.keeps);
      Exchange(bats, clock, out, NoDebt, multiset{}, i, out', NoDebt, multiset{} + multiset{i});
      out := out';
      Incref(i, NoDebt, multiset{});
    }

    /** BBPincref(i, TRUE). */
    method Keep(i: nat)
      requires Valid() && Is(bats, i)
      modifies this`bats, this`out
      ensures Valid() && out == Outside(old(out.fixes), old(out.keeps) + multiset{i})
      ensures bats == old(bats)[i := old(bats)[i].(lrefs := old(bats)[i].lrefs + 1)]
    {
      hide Inv;
      TakeLogical(bats, clock, out, NoDebt, multiset{}, i);
      bats := bats[i := bats[i].(lrefs := bats[i].lrefs + 1)];
      ghost var out' := Outside(out.fixes, out.keeps + multiset{i});
      Exchange(bats, clock, out, Owing(NoDebt, i, true), multiset{}, i, out', NoDebt, multiset{});
      out := out';
    }

    /** BBPdecref(i, logical), by someone who holds that reference. */
    method Release(i: nat, logical: bool)
      requires Valid() && i in (if logical then out.keeps else out.fixes)
      modifies this`bats, this`out
      ensures Valid() && Shrunk(old(bats), bats)
      ensures out == if logical then Outside(old(out.fixes), old(out.keeps) - multiset{i})
        else Outside(old(out.fixes) - multiset{i}, old(out.keeps))
    {
      hide Inv;
      ghost var out' := if logical then Outside(out.fixes, out.keeps - multiset{i})
          else Outside(out.fixes - multiset{i}, out.keeps);
      OutsideExist(bats, clock, out, i);
      Exchange(bats, clock, out, NoDebt, multiset{}, i, out', Owing(NoDebt, i, logical), multiset{});
      out := out';
      Decref(i, logical, NoDebt);
    }

    /** BBPkeepref: a physical reference becomes a logical one. */
    method KeepRef(i: nat)
      requires Valid() && i in out.fixes
      modifies this`bats, this`out
      ensures Valid() && Shrunk(old(bats), bats)
      ensures out == Outside(old(out.fixes) - multiset{i}, old(out.keeps) + multiset{i})
    {
      OutsideExist(bats, clock, out, i);
      hide Inv;
      ShrunkUpdate(bats, i, bats[i].(lrefs := bats[i].lrefs + 1));
      Keep(i);
      ghost var b1 := bats;
      Release(i, false);
      ShrunkTrans(old(bats), b1, bats);
    }

    // ------------------------------------------------------------------------ views

    /** BBPshare, for a link that is about to be made. */
    method ShareIf(p: nat, ghost m: multiset<nat>)
      requires Owes(Debt(m, m, m), multiset{})
      requires p != 0 ==> Is(bats, p) && bats[p].refs > 0
      modifies this`bats
      ensures Owes(Debt(m + One(p), m + One(p), m + One(p)), multiset{})
      ensures SameLinks(old(bats), bats) && RefsGrown(old(bats), bats)
      ensures bats == if p == 0 then old(bats) else old(bats)[p := Bump(old(bats)[p], 1, 1, 1)]
    {
      hide Inv, SameLinks, RefsGrown;
      if p != 0 {
        ghost var d, d' := Debt(m, m, m), Debt(m + One(p), m + One(p), m + One(p));
        TakeLogical(bats, clock, out, d, multiset{}, p);
        var x := bats[p].(lrefs := bats[p].lrefs + 1);
        SameLinksUpdate(bats, p, x);
        bats := bats[p := x];
        TakeShare(bats, clock, out, d, p);
        ghost var b1 := bats;
        var y := x.(share := x.share + 1);
        SameLinksUpdate(bats, p, y);
        bats := bats[p := y];
        ghost var b2 := bats;
        assert bats[p].refs > 0;
        Exchange(bats, clock, out, OwingLinks(d, multiset{p}), multiset{}, p, out, d', multiset{} + multiset{p});
        Incref(p, d', multiset{});
        SameLinksTrans(old(bats), b1, b2);
        SameLinksTrans(old(bats), b2, bats);
        assert bats == old(bats)[p := Bump(old(bats)[p], 1, 1, 1)];
      } else {
        assert m + multiset{} == m;
        SameLinksRefl(bats);
      }
    }

    /** BATnew: a BAT that is no view, with its own vheaps. */
    method New(at: nat, hvoid: bool, hvar: bool, tvoid: bool, tvar: bool)
      requires Valid() && 0 < at < |bats| && bats[at].Free? && !(hvoid && hvar) && !(tvoid && tvar)
      modifies this
      ensures Valid() && out == Outside(old(out.fixes) + multiset{at}, old(out.keeps)) && clock == old(clock) + 1
      ensures bats == old(bats)[at := Bat(1, 0, 0, Column(hvoid, 0, if hvar then at else 0),
        Column(tvoid, 0, if tvar then at else 0), clock)]
    {
      hide Inv;
      clock := clock + 1;
      var x := Bat(1, 0, 0, Column(hvoid, 0, if hvar then at else 0),
        Column(tvoid, 0, if tvar then at else 0), clock);
      PlaceNew(bats, clock - 1, out, at, x, multiset{});
      bats := bats[at := x];
      out := Outside(out.fixes + multiset{at}, out.keeps);
    }

    /**
     VIEWcreate_ on the head column of h and the tail column of t, where h and t may be mirrors.
     The columns of the view link to the parents of h and t, or to h and t themselves.
     */
    method ViewCreate(at: nat, h: nat, hside: Side, t: nat, tside: Side)
      requires Valid() && 0 < at < |bats| && bats[at].Free?
      requires Is(bats, h) && bats[h].refs > 0 && Is(bats, t) && bats[t].refs > 0
      modifies this
      ensures Valid() && out == Outside(old(out.fixes) + multiset{at}, old(out.keeps)) && clock == old(clock) + 1
      ensures at < |bats| && bats[at] ==
        Bat(1, 0, 0, ViewColumn(Col(old(bats)[h], hside), h), ViewColumn(Col(old(bats)[t], tside), t), clock)
      ensures SameLinks(old(bats), bats[at := Free])
    {
      hide Inv, One, SameLinks, RefsGrown, Links, ActiveLinks, ColumnParents, VheapParent, Lent;
      ViewColumnOk(bats, clock, out, h, hside);
      ViewColumnOk(bats, clock, out, t, tside);
      var head, tail := ViewColumn(Col(bats[h], hside), h), ViewColumn(Col(bats[t], tside), t);
      ShareColumn(h, hside, at, multiset{});
      ghost var b1 := bats;
      SameLinksAt(old(bats), b1, h, at);
      SameLinksAt(old(bats), b1, t, at);
      ShareColumn(t, tside, at, multiset{} + ColumnParents(head, at));
      ghost var b2 := bats;
      SameLinksTrans(old(bats), b1, b2);
      SameLinksAt(old(bats), b2, h, at);
      ghost var m := multiset{} + ColumnParents(head, at) + ColumnParents(tail, at);
      clock := clock + 1;
      var x := Bat(1, 0, 0, head, tail, clock);
      ColumnLinks(x, at);
      assert Links(x, at) == m;
      LentGrown(old(bats), bats, at, x, head);
      LentGrown(old(bats), bats, at, x, tail);
      PlaceNew(bats, clock - 1, out, at, x, m);
      assert bats[at := x][at := Free] == bats;
      bats := bats[at := x];
      out := Outside(out.fixes + multiset{at}, out.keeps);
    }

    /** The shares that VIEWcreate_ takes for one column of the new view `at`. */
    method ShareColumn(h: nat, side: Side, ghost at: nat, ghost m: multiset<nat>)
      requires Owes(Debt(m, m, m), multiset{}) && 0 < at < |bats| && bats[at].Free?
      requires Is(bats, h) && bats[h].refs > 0
      modifies this`bats
      ensures var m' := m + ColumnParents(ViewColumn(Col(old(bats)[h], side), h), at);
        Owes(Debt(m', m', m'), multiset{})
      ensures SameLinks(old(bats), bats) && RefsGrown(old(bats), bats)
    {
      hide Inv, One, SameLinks, RefsGrown, Links, ActiveLinks;
      var c := ViewColumn(Col(bats[h], side), h);
      ParentsFixed(bats, clock, out, Debt(m, m, m), h, side, at);
      ghost var b0 := bats;
      ShareIf(c.parent, m);
      ghost var b1 := bats;
      SameLinksAt(b0, b1, c.vheap, at);
      ShareIf(c.vheap, m + One(c.parent));
      SameLinksTrans(b0, b1, bats);
      assert m + One(c.parent) + One(c.vheap) == m + ColumnParents(c, at);
    }

    /** VIEWhcreate: a view on one column of h, with a void tail. */
    method ViewHead(at: nat, h: nat, side: Side)
      requires Valid() && 0 < at < |bats| && bats[at].Free? && Is(bats, h) && bats[h].refs > 0
      modifies this
      ensures Valid() && out == Outside(old(out.fixes) + multiset{at}, old(out.keeps)) && clock == old(clock) + 1
      ensures at < |bats| && bats[at] == Bat(1, 0, 0, ViewColumn(Col(old(bats)[h], side), h), VoidColumn, clock)
      ensures SameLinks(old(bats), bats[at := Free])
    {
      hide Inv, One, SameLinks, RefsGrown, Links, ActiveLinks, VheapParent;
      ViewColumnOk(bats, clock, out, h, side);
      var head := ViewColumn(Col(bats[h], side), h);
      ShareColumn(h, side, at, multiset{});
      SameLinksAt(old(bats), bats, h, at);
      clock := clock + 1;
      var x := Bat(1, 0, 0, head, VoidColumn, clock);
      HeadLinks(x, at);
      LentGrown(old(bats), bats, at, x, head);
      PlaceNew(bats, clock - 1, out, at, x, multiset{} + ColumnParents(head, at));
      assert bats[at := x][at := Free] == bats;
      bats := bats[at := x];
      out := Outside(out.fixes + multiset{at}, out.keeps);
    }

    /**
     VIEWcombine: a view with the same column as head and as tail. The tail's shares come on top
     of those that VIEWhcreate took. (The source redirects the tail before it takes the shares.)
     */
    method ViewCombine(at: nat, h: nat, side: Side)
      requires Valid() && 0 < at < |bats| && bats[at].Free? && Is(bats, h) && bats[h].refs > 0
      modifies this
      ensures Valid() && out == Outside(old(out.fixes) + multiset{at}, old(out.keeps)) && clock == old(clock) + 1
      ensures var c := ViewColumn(Col(old(bats)[h], side), h);
        at < |bats| && bats[at] == Bat(1, 0, 0, c, if c.isVoid then VoidColumn else c, clock)
      ensures SameLinks(old(bats), bats[at := Free])
    {
      hide Inv, One, SameLinks, RefsGrown, Links, VheapParent;
      ViewHead(at, h, side);
      var c := bats[at].head;
      if !c.isVoid {
        ghost var b0 := bats;
        CombineFixed(bats, clock, out, at);
        ShareIf(c.parent, multiset{});
        ghost var b1 := bats;
        SameLinksAt(b0, b1, VheapParent(c, at), at);
        ShareIf(VheapParent(c, at), multiset{} + One(c.parent));
        ghost var b2 := bats;
        SameLinksTrans(b0, b1, b2);
        ghost var m := ColumnParents(c, at);
        assert multiset{} + One(c.parent) + One(VheapParent(c, at)) == m;
        PlaceTail(bats, clock, out, at, m);
        SameLinksWithout(old(bats), b0, b2, at);
        bats := bats[at := bats[at].(tail := c)];
        assert bats[at := Free] == b2[at := Free];
      }
    }
  }

  lemma CombineFixed(bats: seq<Slot>, clock: nat, out: Outside, at: nat)
    requires Inv(bats, clock, out, NoDebt, multiset{}) && Is(bats, at) && bats[at].refs > 0
    ensures forall p :: p in ColumnParents(bats[at].head, at) ==> Is(bats, p) && bats[p].refs > 0 && p != at
    ensures bats[at].head.parent != 0 ==> bats[at].head.parent in ColumnParents(bats[at].head, at)
    ensures VheapParent(bats[at].head, at) != 0 ==> VheapParent(bats[at].head, at) in ColumnParents(bats[at].head, at)
  {
    forall p | p in ColumnParents(bats[at].head, at) ensures Is(bats, p) && bats[p].refs > 0 && p != at {
      assert p in Links(bats[at], at);
      LinkedAlive(bats, clock, out, NoDebt, at, p);
      assert BatOk(bats, at, clock);
    }
  }

  /** The tail of a view becomes its head column, whose links have been shared once more. */
  lemma PlaceTail(bats: seq<Slot>, clock: nat, out: Outside, i: nat, m: multiset<nat>)
    requires Inv(bats, clock, out, Debt(m, m, m), multiset{}) && Is(bats, i) && bats[i].refs > 0
    requires bats[i].tail == VoidColumn && m == ColumnParents(bats[i].head, i)
    ensures Inv(bats[i := bats[i].(tail := bats[i].head)], clock, out, NoDebt, multiset{})
  {
    hide All, Active, BalancedAt, ColumnParents, Links;
    var x := bats[i].(tail := bats[i].head);
    var bats' := bats[i := x];
    HeadLinks(bats[i], i);
    ColumnLinks(x, i);
    forall j: nat | j < |bats'| ensures BalancedAt(bats', out, NoDebt, multiset{}, j) {
      assert BalancedAt(bats, out, Debt(m, m, m), multiset{}, j);
      PlaceTailBalanced(bats, out, m, i, x, j);
    }
    forall v: nat | v < |bats'| ensures BatOk(bats', v, clock) {
      assert BatOk(bats, v, clock);
    }
  }

  lemma PlaceTailBalanced(bats: seq<Slot>, out: Outside, m: multiset<nat>, i: nat, x: Slot, j: nat)
    requires i < |bats| && j < |bats| && bats[i].Bat? && bats[i].refs > 0
      && BalancedAt(bats, out, Debt(m, m, m), multiset{}, j)
    requires x == bats[i].(tail := bats[i].head) && Links(bats[i], i) == m && Links(x, i) == multiset{} + m + m
    ensures BalancedAt(bats[i := x], out, NoDebt, multiset{}, j)
  {
    hide All, Active, Links;
    AllUpdate(bats, i, x, j);
    ActiveUpdate(bats, i, x, j);
  }

  lemma HeadLinks(x: Slot, at: nat)
    requires x.Bat? && x.tail == VoidColumn
    ensures Links(x, at) == multiset{} + ColumnParents(x.head, at)
  {
  }

  lemma SameLinksWithout(a: seq<Slot>, b: seq<Slot>, c: seq<Slot>, at: nat)
    requires at < |b| && SameLinks(a, b[at := Free]) && SameLinks(b, c)
    ensures at < |c| && SameLinks(a, c[at := Free])
  {
  }

  datatype Side = Head | Tail

  function Col(s: Slot, side: Side): Column
    requires s.Bat?
  {
    if side.Head? then s.head else s.tail
  }

  /** The column of a view on column c of BAT id. */
  function ViewColumn(c: Column, id: nat): Column {
    Column(c.isVoid, if c.parent == 0 && !c.isVoid then id else c.parent, c.vheap)
  }

  function ColumnParents(c: Column, at: nat): multiset<nat> { One(c.parent) + One(VheapParent(c, at)) }

  lemma ColumnLinks(x: Slot, at: nat)
    requires x.Bat?
    ensures Links(x, at) == multiset{} + ColumnParents(x.head, at) + ColumnParents(x.tail, at)
  {
  }

  lemma SameLinksAt(a: seq<Slot>, b: seq<Slot>, h: nat, at: nat)
    requires SameLinks(a, b) && RefsGrown(a, b)
    ensures Is(a, h) ==>
      Is(b, h) && b[h].refs >= a[h].refs && Col(b[h], Head) == Col(a[h], Head) && Col(b[h], Tail) == Col(a[h], Tail)
    ensures at < |a| && a[at].Free? ==> at < |b| && b[at].Free?
  {
  }

  /** What a view on a fixed BAT links to is fixed. */
  lemma ParentsFixed(bats: seq<Slot>, clock: nat, out: Outside, d: Debt, h: nat, side: Side, at: nat)
    requires Inv(bats, clock, out, d, multiset{}) && Is(bats, h) && bats[h].refs > 0 && at < |bats| && bats[at].Free?
    ensures var c := ViewColumn(Col(bats[h], side), h);
      && (c.parent != 0 ==> Is(bats, c.parent) && bats[c.parent].refs > 0)
      && (c.vheap != 0 ==> Is(bats, c.vheap) && bats[c.vheap].refs > 0)
      && VheapParent(c, at) == c.vheap
  {
    hide Inv;
    var c := ViewColumn(Col(bats[h], side), h);
    if c.parent != 0 && c.parent != h {
      LinkedAlive(bats, clock, out, d, h, c.parent);
    }
    if c.vheap != 0 && c.vheap != h {
      LinkedAlive(bats, clock, out, d, h, c.vheap);
    }
  }

  /** The column of a view has the type and the vheap of the column it is on, and links to the BAT that owns it. */
  lemma ViewColumnOk(bats: seq<Slot>, clock: nat, out: Outside, h: nat, side: Side)
    requires Inv(bats, clock, out, NoDebt, multiset{}) && Is(bats, h)
    ensures
      var c, s := ViewColumn(Col(bats[h], side), h), if side == Head then bats[h].head else bats[h].tail;
      && ColumnOk(c) && Lent(bats, c)
      && c.isVoid == s.isVoid && c.vheap == s.vheap
      && (!c.isVoid ==> Has(bats, c.parent, Column(false, 0, c.vheap)) && (c.parent == h || c.parent == s.parent))
  {
    assert BatOk(bats, h, clock);
  }

  /** Columns are lent as before where only counts have changed and BATs have been entered. */
  lemma LentGrown(a: seq<Slot>, b: seq<Slot>, at: nat, x: Slot, c: Column)
    requires Lent(a, c) && SameLinks(a, b) && at < |b| && b[at].Free?
    ensures Lent(b[at := x], c)
  {
  }

  // ------------------------------------------------------------- entering a view

  lemma PlaceBalanced(bats: seq<Slot>, out: Outside, m: multiset<nat>, i: nat, x: Slot, j: nat)
    requires i < |bats| && bats[i].Free? && j < |bats| && j != i && BalancedAt(bats, out, Debt(m, m, m), multiset{}, j)
    requires x.Bat? && x.refs > 0 && Links(x, i) == m
    ensures BalancedAt(bats[i := x], Outside(out.fixes + multiset{i}, out.keeps), NoDebt, multiset{}, j)
  {
    hide All, Active, Links;
    AllUpdate(bats, i, x, j);
    ActiveUpdate(bats, i, x, j);
    FreeLinks(i);
  }

  /** A slot that is free is not linked. */
  lemma NotLinked(bats: seq<Slot>, clock: nat, i: nat)
    requires WellFormed(bats, clock) && i < |bats| && bats[i].Free?
    ensures All(bats)[i] == 0 && Active(bats)[i] == 0
  {
    ActiveInAll(bats, i);
    if i in All(bats) {
      var u := YoungerLinker(bats, clock, i);
    }
  }

  /** A new BAT is entered, whose links have been shared. */
  lemma PlaceNew(bats: seq<Slot>, clock: nat, out: Outside, i: nat, x: Slot, m: multiset<nat>)
    requires Inv(bats, clock, out, Debt(m, m, m), multiset{}) && 0 < i < |bats| && bats[i].Free?
    requires x.Bat? && x.refs == 1 && x.lrefs == 0 && x.share == 0 && x.stamp == clock + 1
    requires ColumnOk(x.head) && ColumnOk(x.tail) && Links(x, i) == m
    requires Lent(bats[i := x], x.head) && Lent(bats[i := x], x.tail)
    ensures Inv(bats[i := x], clock + 1, Outside(out.fixes + multiset{i}, out.keeps), NoDebt, multiset{})
  {
    hide All, Active, Links, BalancedAt;
    var bats', out', clock' := bats[i := x], Outside(out.fixes + multiset{i}, out.keeps), clock + 1;
    forall j: nat | j < |bats| && j != i ensures BalancedAt(bats', out', NoDebt, multiset{}, j) {
      PlaceBalanced(bats, out, m, i, x, j);
    }
    PlaceBalancedNew(bats, clock, out, m, i, x);
    forall v: nat | v < |bats'| ensures BatOk(bats', v, clock') {
      assert BatOk(bats, v, clock);
      if v == i {
        forall p | p in m ensures Is(bats', p) && bats'[p].stamp < x.stamp {
          assert BatOk(bats, p, clock);
        }
      }
    }
  }

  lemma PlaceBalancedNew(bats: seq<Slot>, clock: nat, out: Outside, m: multiset<nat>, i: nat, x: Slot)
    requires WellFormed(bats, clock) && i < |bats| && bats[i].Free? && Exist(bats, m) && Exist(bats, out.fixes)
      && Exist(bats, out.keeps)
    requires x.Bat? && x.refs == 1 && x.lrefs == 0 && x.share == 0 && Links(x, i) == m
    ensures BalancedAt(bats[i := x], Outside(out.fixes + multiset{i}, out.keeps), NoDebt, multiset{}, i)
  {
    hide All, Active, Links;
    NotLinked(bats, clock, i);
    AllUpdate(bats, i, x, i);
    ActiveUpdate(bats, i, x, i);
    FreeLinks(i);
    assert i !in m && i !in out.fixes && i !in out.keeps;
  }

  lemma SameLinksRefl(bats: seq<Slot>)
    ensures SameLinks(bats, bats) && RefsGrown(bats, bats)
  {
  }

  lemma ExtendInv(bats: seq<Slot>, clock: nat, out: Outside)
    requires Inv(bats, clock, out, NoDebt, multiset{})
    ensures Inv(bats + [Free], clock, out, NoDebt, multiset{})
  {
    hide Links;
    var bats', n := bats + [Free], |bats|;
    assert bats'[..n] == bats;
    FreeLinks(n);
    assert All(bats') == All(bats) && Active(bats') == Active(bats);
    forall v: nat | v < |bats'| ensures BatOk(bats', v, clock) && BalancedAt(bats', out, NoDebt, multiset{}, v) {
      if v < n {
        assert BatOk(bats, v, clock) && BalancedAt(bats, out, NoDebt, multiset{}, v);
      }
    }
  }

  lemma OutsideExist(bats: seq<Slot>, clock: nat, out: Outside, i: nat)
    requires Inv(bats, clock, out, NoDebt, multiset{}) && (i in out.fixes || i in out.keeps)
    ensures Is(bats, i)
  {
  }

  /** A reference to i moves between the outside and the debt. */
  lemma Exchange(bats: seq<Slot>, clock: nat, out: Outside, d: Debt, up: multiset<nat>, i: nat, out': Outside,
      d': Debt, up': multiset<nat>)
    requires Inv(bats, clock, out, d, up) && Is(bats, i)
    requires forall j :: out.fixes[j] + d.phys[j] + up'[j] == out'.fixes[j] + d'.phys[j] + up[j]
    requires forall j :: out.keeps[j] + d.log[j] == out'.keeps[j] + d'.log[j]
    requires d'.share == d.share && d'.share <= d'.log
    requires forall j :: j != i ==>
      && out'.fixes[j] == out.fixes[j] && out'.keeps[j] == out.keeps[j]
      && d'.phys[j] == d.phys[j] && d'.log[j] == d.log[j] && up'[j] == up[j]
    ensures Inv(bats, clock, out', d', up')
  {
    hide WellFormed;
    forall j: nat | j < |bats| ensures BalancedAt(bats, out', d', up', j) {
      assert BalancedAt(bats, out, d, up, j);
    }
  }

  lemma AfterDrop(s: Slot, i: nat, d: Debt, hp: nat, tp: nat, hvp: nat, tvp: nat, last: bool)
    requires s.Bat?
    requires if last then hp == s.head.parent && tp == s.tail.parent && hvp == VheapParent(s.head, i)
      && tvp == VheapParent(s.tail, i)
      else hp == tp == hvp == tvp == 0
    ensures PhysLinks(d, One(tvp) + One(hvp) + One(tp) + One(hp)) == if last then PhysLinks(d, Links(s, i)) else d
  {
    assert One(tvp) + One(hvp) + One(tp) + One(hp) == if last then Links(s, i) else multiset{};
  }

  lemma DestroyDebt(s: Slot, i: nat, d: Debt)
    requires s.Bat?
    ensures OwingLinks(d, Links(s, i))
      == OwingLinks(OwingLinks(OwingLinks(OwingLinks(d, One(VheapParent(s.tail, i))), One(s.tail.parent)),
        One(VheapParent(s.head, i))), One(s.head.parent))
  {
    hide VheapParent, One;
    var a, b, c, e := One(VheapParent(s.tail, i)), One(s.tail.parent), One(VheapParent(s.head, i)), One(s.head.parent);
    assert d.log + Links(s, i) == d.log + a + b + c + e;
    assert d.share + Links(s, i) == d.share + a + b + c + e;
  }

  lemma ShrunkRefl(bats: seq<Slot>)
    ensures Shrunk(bats, bats)
  {
  }

  lemma ShrunkUpdate(bats: seq<Slot>, i: nat, x: Slot)
    requires i < |bats| && (x.Free? || SameColumns(bats[i], x))
    ensures Shrunk(bats, bats[i := x])
  {
  }

  lemma ShrunkTrans(a: seq<Slot>, b: seq<Slot>, c: seq<Slot>)
    requires Shrunk(a, b) && Shrunk(b, c)
    ensures Shrunk(a, c)
  {
  }

  ghost predicate RefsGrown(old_: seq<Slot>, bats: seq<Slot>) {
    |bats| == |old_| && forall j :: 0 <= j < |bats| ==> Refs(bats[j]) >= Refs(old_[j])
  }

  lemma SameLinksUpdate(bats: seq<Slot>, i: nat, x: Slot)
    requires i < |bats| && SameColumns(bats[i], x)
    ensures SameLinks(bats, bats[i := x])
    ensures Refs(x) >= Refs(bats[i]) ==> RefsGrown(bats, bats[i := x])
  {
  }

  lemma SameLinksTrans(a: seq<Slot>, b: seq<Slot>, c: seq<Slot>)
    requires SameLinks(a, b) && SameLinks(b, c)
    ensures SameLinks(a, c)
    ensures RefsGrown(a, b) && RefsGrown(b, c) ==> RefsGrown(a, c)
  {
  }

  lemma LinksAre(s: Slot, i: nat, m: multiset<nat>)
    requires s.Bat?
    ensures m + Links(s, i) == m + One(VheapParent(s.tail, i)) + One(VheapParent(s.head,
      i)) + One(s.tail.parent) + One(s.head.parent)
  {
  }
}
