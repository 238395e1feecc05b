/**
 Columns of offsets into a string heap (gdk.h: HTputvalue, VarHeapValRaw; gdk_heap.c:
 GDKupgradevarheap). An offset takes 1, 2, 4 or 8 bytes; widths 1 and 2 store it minus
 GDK_VAROFFSET. When an offset does not fit, the whole column is widened in place.
 The model works on the bytes of the heap, stored low byte first.
 */
module VarHeap {

  type byte = x: int | 0 <= x < 256

  const VAROFFSET: nat := 8192

  /** 1 << (8 * w) */
  function Limit(w: nat): (r: nat)
    ensures r >= 1
  {
    if w == 0 then 1 else 256 * Limit(w - 1)
  }

  /** The unsigned integer in the w bytes at p. */
  function Load(b: seq<byte>, p: nat, w: nat): (r: nat)
    requires p + w <= |b|
    ensures r < Limit(w)
    decreases w
  {
    if w == 0 then 0 else b[p] + 256 * Load(b, p + 1, w - 1)
  }

  /** The low w bytes of v. */
  function Bytes(v: nat, w: nat): (r: seq<byte>)
    ensures |r| == w
  {
    if w == 0 then [] else [v % 256] + Bytes(v / 256, w - 1)
  }

  lemma LoadFrame(b: seq<byte>, p: nat, b': seq<byte>, p': nat, w: nat)
    requires p + w <= |b| && p' + w <= |b'| && b[p..p + w] == b'[p'..p' + w]
    ensures Load(b, p, w) == Load(b', p', w)
    decreases w
  {
    if w > 0 {
      assert b[p] == b[p..p + w][0] && b'[p'] == b'[p'..p' + w][0];
      assert b[p + 1..p + w] == b[p..p + w][1..];
      assert b'[p' + 1..p' + w] == b'[p'..p' + w][1..];
      LoadFrame(b, p + 1, b', p' + 1, w - 1);
    }
  }

  lemma ModSplit(v: nat, m: nat)
    requires m >= 1
    ensures v % (256 * m) == v % 256 + 256 * (v / 256 % m)
  {
    var q, r := v / 256, v % 256;
    var k, s := q / m, q % m;
    assert v == 256 * (k * m + s) + r;
    assert v == k * (256 * m) + (256 * s + r);
    assert 256 * s + r < 256 * m;
    DivModUnique(v, 256 * m, k, 256 * s + r);
  }

  lemma SmallMultiple(e: int, d: int)
    requires d > 0 && -d < e * d < d
    ensures e == 0
  {
  }

  lemma DivModUnique(v: nat, d: nat, k: int, r: int)
    requires d > 0 && v == k * d + r && 0 <= r < d
    ensures v % d == r
  {
    var q := v / d;
    assert v == q * d + v % d;
    assert (q - k) * d == q * d - k * d;
    SmallMultiple(q - k, d);
  }

  /** Reading back what was stored gives the value, cut off to the width. */
  lemma LoadBytes(v: nat, w: nat)
    ensures Load(Bytes(v, w), 0, w) == v % Limit(w)
  {
    if w > 0 {
      var bs := Bytes(v, w);
      LoadFrame(bs, 1, Bytes(v / 256, w - 1), 0, w - 1);
      LoadBytes(v / 256, w - 1);
      ModSplit(v, Limit(w - 1));
    }
  }

  predicate Width(w: nat) { w == 1 || w == 2 || w == 4 || w == 8 }

  lemma Limits()
    ensures Limit(1) == 0x100 && Limit(2) == 0x1_0000 && Limit(4) == 0x1_0000_0000
    ensures Limit(8) == 0x1_0000_0000_0000_0000
  {
    assert Limit(3) == 0x100_0000 && Limit(5) == 0x100_0000_0000;
    assert Limit(6) == 0x1_0000_0000_0000 && Limit(7) == 0x100_0000_0000_0000;
  }

  /** The number kept in a slot of width w for offset d, before it is cut off. */
  function Stored(d: nat, w: nat): int { if w <= 2 then d - VAROFFSET else d }

  predicate FitsIn(d: nat, w: nat) { Stored(d, w) < Limit(w) }

  /** The offset that a slot of width w holds after d was stored in it. */
  function Cut(d: nat, w: nat): nat
    requires VAROFFSET <= d
  {
    if w <= 2 then VAROFFSET + (d - VAROFFSET) % Limit(w) else d % Limit(w)
  }

  /** What the widening loops add to an entry. */
  function Shift(w: nat, w': nat): nat { if w <= 2 && w' > 2 then VAROFFSET else 0 }

  lemma SlotOrder(i: nat, j: nat, w: nat)
    requires i < j
    ensures i * w + w <= j * w
  {
    assert j * w == i * w + w + (j - i - 1) * w;
  }

  lemma SlotGrowth(i: nat, w: nat, w': nat)
    requires w <= w'
    ensures i * w <= i * w'
  {
  }

  /** Write v at byte p, cut off to w bytes. */
  method Store(base: array<byte>, p: nat, v: nat, w: nat)
    requires p + w <= base.Length
    modifies base
    ensures base[..p] == old(base[..p]) && base[p + w..] == old(base[p + w..])
    ensures Load(base[..], p, w) == v % Limit(w)
    ensures Load(base[..], p, w) == v <==> v < Limit(w)
  {
    var rest, k := v, 0;
    while k < w
      invariant k <= w
      invariant base[..p] == old(base[..p]) && base[p + w..] == old(base[p + w..])
      invariant base[p..p + k] + Bytes(rest, w - k) == Bytes(v, w)
    {
      base[p + k] := rest % 256;
      assert base[p..p + k + 1] == base[p..p + k] + [rest % 256];
      rest := rest / 256;
      k := k + 1;
    }
    assert base[..][p..p + w] == base[p..p + w] == Bytes(v, w)[0..w];
    LoadFrame(base[..], p, Bytes(v, w), 0, w);
    LoadBytes(v, w);
    SmallMod(v, Limit(w));
  }

  lemma SmallMod(v: nat, m: nat)
    requires m >= 1
    ensures v % m == v <==> v < m
  {
  }

  lemma Untouched(b: seq<byte>, b': seq<byte>, p: nat, w: nat, q: nat, u: nat)
    requires |b| == |b'| && p + w <= |b| && q + u <= |b|
    requires b[..p] == b'[..p] && b[p + w..] == b'[p + w..]
    requires q + u <= p || p + w <= q
    ensures Load(b', q, u) == Load(b, q, u)
  {
    if q + u <= p {
      assert b[q..q + u] == b[..p][q..q + u] && b'[q..q + u] == b'[..p][q..q + u];
    } else {
      var o := p + w;
      assert b[q..q + u] == b[o..][q - o..q + u - o];
      assert b'[q..q + u] == b'[o..][q - o..q + u - o];
    }
    LoadFrame(b, q, b', q, u);
  }

  /** There is room for n entries of width w. */
  ghost predicate Room(b: seq<byte>, n: nat, w: nat) {
    n * w <= |b|
  }

  lemma InRoom(b: seq<byte>, n: nat, w: nat, i: nat)
    requires Room(b, n, w) && i < n
    ensures i * w + w <= |b|
  {
    SlotOrder(i, n, w);
  }

  /** Entry i of width w; 0 outside the buffer. */
  ghost function Entry(b: seq<byte>, i: nat, w: nat): nat {
    if i * w + w <= |b| then Load(b, i * w, w) else 0
  }

  ghost predicate Unread(b: seq<byte>, b0: seq<byte>, k: nat, w: nat) {
    forall i: nat :: i < k ==> Entry(b, i, w) == Entry(b0, i, w)
  }

  ghost predicate Converted(b: seq<byte>, b0: seq<byte>, k: nat, n: nat, w: nat, w': nat) {
    forall i: nat :: k <= i < n ==> Entry(b, i, w') == Entry(b0, i, w) + Shift(w, w')
  }

  /** Writing entry k at the new width touches neither the unread entries nor the converted ones. */
  lemma WidenStep(b0: seq<byte>, b: seq<byte>, b': seq<byte>, k: nat, n: nat, w: nat, w': nat)
    requires 0 < w < w' && k < n && |b| == |b'| && Room(b, n, w')
    requires k * w' + w' <= |b|
    requires b[..k * w'] == b'[..k * w'] && b[k * w' + w'..] == b'[k * w' + w'..]
    requires Unread(b, b0, k + 1, w) && Converted(b, b0, k + 1, n, w, w')
    requires Load(b', k * w', w') == Entry(b0, k, w) + Shift(w, w')
    ensures Unread(b', b0, k, w) && Converted(b', b0, k, n, w, w')
  {
    SlotGrowth(k, w, w');
    forall i: nat | i < k ensures Entry(b', i, w) == Entry(b0, i, w) {
      assert Entry(b, i, w) == Entry(b0, i, w);
      SlotOrder(i, k, w);
      Untouched(b, b', k * w', w', i * w, w);
    }
    forall i: nat | k <= i < n ensures Entry(b', i, w') == Entry(b0, i, w) + Shift(w, w') {
      if k < i {
        assert Entry(b, i, w') == Entry(b0, i, w) + Shift(w, w');
        SlotOrder(k, i, w');
        InRoom(b, n, w', i);
        Untouched(b, b', k * w', w', i * w', w');
      }
    }
  }

  /** One step of a conversion loop: `*--wide = *--narrow` (plus GDK_VAROFFSET). */
  method WidenEntry(base: array<byte>, k: nat, w: nat, w': nat)
    requires 0 < w < w' && k * w' + w' <= base.Length && Limit(w) + Shift(w, w') <= Limit(w')
    modifies base
    ensures base[..k * w'] == old(base[..k * w']) && base[k * w' + w'..] == old(base[k * w' + w'..])
    ensures Load(base[..], k * w', w') == old(Entry(base[..], k, w)) + Shift(w, w')
  {
    SlotGrowth(k, w, w');
    var from, to := k * w, k * w';
    var v := Load(base[..], from, w) + Shift(w, w');
    Store(base, to, v, w');
  }

  /**
   The conversion loops of GDKupgradevarheap: n entries of width w become entries of width w',
   back to front, inside one buffer. No entry is overwritten before it has been read.
   */
  method Widen(base: array<byte>, n: nat, w: nat, w': nat)
    requires 0 < w < w' && Room(base[..], n, w')
    requires Limit(w) + Shift(w, w') <= Limit(w')
    modifies base
    ensures Converted(base[..], old(base[..]), 0, n, w, w')
  {
    hide Limit, Load, Entry, Shift;
    ghost var b0 := base[..];
    var k: nat := n;
    while k > 0
      invariant k <= n
      invariant Unread(base[..], b0, k, w) && Converted(base[..], b0, k, n, w, w')
    {
      k := k - 1;
      InRoom(base[..], n, w', k);
      ghost var b := base[..];
      assert Entry(b, k, w) == Entry(b0, k, w);
      WidenEntry(base, k, w, w');
      ghost var o := k * w';
      assert b[..o] == base[..][..o] && b[o + w'..] == base[..][o + w'..];
      WidenStep(b0, b, base[..], k, n, w, w');
    }
  }

  // ------------------------------------------------------------- the column

  /** The offset that slot i of a column denotes, in terms of its bytes (VarHeapValRaw). */
  ghost function Offset(b: seq<byte>, i: nat, w: nat): nat {
    Entry(b, i, w) + if w <= 2 then VAROFFSET else 0
  }

  /** The width that GDKupgradevarheap settles on: the first one, doubling from w, that holds d. */
  method GrowWidth(d: nat, w: nat) returns (w': nat)
    requires Width(w) && w < 8 && d >= VAROFFSET && !FitsIn(d, w) && d < Limit(8)
    ensures Width(w') && w < w' && FitsIn(d, w')
    ensures forall u: nat :: Width(u) && w <= u < w' ==> !FitsIn(d, u)
    ensures Limit(w) + Shift(w, w') <= Limit(w')
  {
    Limits();
    w' := w;
    while w' < 8 && !FitsIn(d, w')
      invariant Width(w') && w <= w'
      invariant forall u: nat :: Width(u) && w <= u < w' ==> !FitsIn(d, u)
      decreases 8 - w'
    {
      w' := w' * 2;
    }
  }

  /** HEAPextend, when it succeeds: more room, and the first `used` bytes are kept. */
  method Extend(base: array<byte>, used: nat, size: nat) returns (bigger: array<byte>)
    requires used <= base.Length <= size
    ensures fresh(bigger) && bigger.Length == size && bigger[..used] == base[..used]
  {
    bigger := new byte[size](_ => 0);
    for i := 0 to used
      invariant bigger[..i] == base[..i]
    {
      bigger[i] := base[i];
    }
  }

  lemma SameSlots(b: seq<byte>, b': seq<byte>, n: nat, w: nat)
    requires n * w <= |b| && n * w <= |b'| && b[..n * w] == b'[..n * w]
    ensures forall i: nat :: i < n ==> Entry(b, i, w) == Entry(b', i, w)
  {
    var m := n * w;
    forall i: nat | i < n ensures Entry(b, i, w) == Entry(b', i, w) {
      SlotOrder(i, n, w);
      var p := i * w;
      assert b[p..p + w] == b[..m][p..p + w] && b'[p..p + w] == b'[..m][p..p + w];
      LoadFrame(b, p, b', p, w);
    }
  }

  /** Extending and converting a buffer: all n offsets stay what they were. */
  method ExtendAndWiden(base: array<byte>, n: nat, cap: nat, w: nat, w': nat) returns (bigger: array<byte>)
    requires Width(w) && Width(w') && w < w' && Limit(w) + Shift(w, w') <= Limit(w')
    requires n <= cap && cap * w == base.Length
    ensures fresh(bigger) && bigger.Length == cap * w'
    ensures forall i: nat :: i < n ==> Offset(bigger[..], i, w') == Offset(base[..], i, w)
  {
    SlotGrowth(cap, w, w');
    assert n * w <= cap * w && n * w' <= cap * w' by {
      assert cap * w == n * w + (cap - n) * w && cap * w' == n * w' + (cap - n) * w';
    }
    bigger := Extend(base, n * w, cap * w');
    ghost var b1 := bigger[..];
    assert b1[..n * w] == base[..][..n * w];
    SameSlots(b1, base[..], n, w);
    Widen(bigger, n, w, w');
    forall i: nat | i < n ensures Offset(bigger[..], i, w') == Offset(base[..], i, w) {
      assert Entry(bigger[..], i, w') == Entry(b1, i, w) + Shift(w, w');
    }
  }

  /**
   COLrec with its heap. `cap` and `cnt` are heap.size >> shift and heap.free >> shift: the
   slots there is room for and the slots in use.
   */
  class OffsetColumn {
    var base: array<byte>
    var cap: nat
    var cnt: nat
    var width: nat

    ghost predicate Valid()
      reads this
    {
      Width(width) && base.Length == cap * width && cnt <= cap
    }

    /** A column with one-byte offsets. */
    constructor (cap: nat)
      ensures Valid() && fresh(base) && this.cap == cap && cnt == cap && width == 1
    {
      base, this.cap, cnt, width := new byte[cap](_ => 0), cap, cap, 1;
    }

    ghost function At(i: nat): nat
      reads this, base
    {
      Offset(base[..], i, width)
    }

    /**
     GDKupgradevarheap. `extended` is the answer of HEAPextend; when it fails the column keeps
     its bytes, but with copyall set heap.free has already been moved to heap.size.
     */
    method Upgrade(d: nat, copyall: bool, extended: bool) returns (ok: bool)
      requires Valid() && width < 8 && VAROFFSET <= d < Limit(8) && !FitsIn(d, width)
      modifies this
      ensures Valid() && ok == extended && cap == old(cap)
      ensures !ok ==> width == old(width) && base == old(base) && cnt == if copyall then cap else old(cnt)
      ensures ok ==> fresh(base) && FitsIn(d, width) && width > old(width) && cnt == old(cnt)
      ensures ok ==> forall i: nat :: i < (if copyall then cap else cnt) ==> At(i) == old(At(i))
    {
      var w' := GrowWidth(d, width);
      var n := if copyall then cap else cnt;
      if !extended {
        cnt := n;
        return false;
      }
      base := ExtendAndWiden(base, n, cap, width, w');
      width := w';
      return true;
    }

    /**
     HTputvalue for a string column, after ATOMput has produced the offset d: widen if d does
     not fit, then store it in slot p. Every other slot in use keeps its offset. The slot holds
     d exactly when d fitted or the heap could be extended: the result of the upgrade is not
     looked at, so after a failed one the offset is cut off.
     */
    method PutValue(p: nat, d: nat, copyall: bool, extended: bool)
      requires Valid() && p < cap && VAROFFSET <= d < Limit(8)
      modifies this, base
      ensures Valid() && cap == old(cap) && (base == old(base) || fresh(base))
      ensures At(p) == d <==> old(FitsIn(d, width)) || extended
      ensures !extended ==> At(p) == Cut(d, old(width))
      ensures forall i: nat :: i < (if copyall then cap else old(cnt)) && i != p ==> At(i) == old(At(i))
    {
      if width < 8 && !FitsIn(d, width) {
        var ok := Upgrade(d, copyall, extended);
      }
      StoreOffset(base, p, cap, width, d);
    }
  }

  /** The last part of HTputvalue: the switch on the width. */
  method StoreOffset(base: array<byte>, p: nat, cap: nat, w: nat, d: nat)
    requires Width(w) && base.Length == cap * w && p < cap && VAROFFSET <= d
    modifies base
    ensures Offset(base[..], p, w) == Cut(d, w) && (Offset(base[..], p, w) == d <==> FitsIn(d, w))
    ensures forall i: nat :: i < cap && i != p ==> Offset(base[..], i, w) == old(Offset(base[..], i, w))
  {
    SlotOrder(p, cap, w);
    ghost var b := base[..];
    var at := p * w;
    Store(base, at, if w <= 2 then d - VAROFFSET else d, w);
    assert b[..at] == base[..][..at] && b[at + w..] == base[..][at + w..];
    OtherSlots(b, base[..], p, cap, w);
  }

  lemma OtherSlots(b: seq<byte>, b': seq<byte>, p: nat, cap: nat, w: nat)
    requires |b| == |b'| == cap * w && p < cap && p * w + w <= |b|
    requires b[..p * w] == b'[..p * w] && b[p * w + w..] == b'[p * w + w..]
    ensures forall i: nat :: i < cap && i != p ==> Entry(b', i, w) == Entry(b, i, w)
  {
    forall i: nat | i < cap && i != p ensures Entry(b', i, w) == Entry(b, i, w) {
      SlotOrder(i, cap, w);
      if i < p {
        SlotOrder(i, p, w);
      } else {
        SlotOrder(p, i, w);
      }
      Untouched(b, b', p * w, w, i * w, w);
    }
  }

  /**
   A run: offset 8448 is put into a column with one-byte offsets, and the heap cannot be extended.
   The slot then holds offset 8192, where another string is.
   */
  method CutOff() returns (column: OffsetColumn)
    ensures column.Valid() && column.cap == 1 && column.At(0) == VAROFFSET
  {
    hide Load;
    Limits();
    column := new OffsetColumn(1);
    column.PutValue(0, VAROFFSET + 256, false, false);
  }
}
