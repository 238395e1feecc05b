/**
 BBPdir_subcommit (gdk_bbp.c): the BBP.dir of a subcommit is the last one, in which the lines
 of the listed BATs are replaced, or dropped when the BAT is no longer persistent.
 */
module SubcommitDir {
  import opened Commit

  /** A line of BBP.dir, with the BAT id it starts with. */
  datatype Entry = Entry(id: nat, line: Line)

  ghost predicate Increasing(es: seq<Entry>) {
    forall i, j :: 0 <= i < j < |es| ==> es[i].id < es[j].id
  }

  ghost predicate Sorted(list: seq<nat>) {
    forall i, j :: 0 <= i < j < |list| ==> list[i] <= list[j]
  }

  /** The catalog that a BBP.dir with these lines stands for. */
  ghost function CatalogOf(es: seq<Entry>): (cat: Catalog)
    requires Increasing(es)
    ensures forall e :: e in es ==> e.id in cat && cat[e.id] == e.line
    ensures forall id :: id in cat ==> Entry(id, cat[id]) in es
  {
    if es == [] then map[]
    else
      var last := es[|es| - 1];
      assert es == es[..|es| - 1] + [last];
      CatalogOf(es[..|es| - 1])[last.id := last.line]
  }

  /** What the new BBP.dir holds: the listed persistent BATs, and the old lines of all others. */
  predicate Belongs(e: Entry, old_: seq<Entry>, list: seq<nat>, status: map<nat, Line>) {
    if e.id in list then e.id in status && e.line == status[e.id] else e in old_
  }

  // ---------------------------------------------------------------- loop invariant

  /** The first k old lines and j listed ids have been dealt with. */
  ghost predicate Written(out: seq<Entry>, old_: seq<Entry>, k: nat, list: seq<nat>, j: nat, status: map<nat, Line>)
    requires k <= |old_| && j <= |list|
  {
    forall e {:trigger e in out} :: e in out <==>
      Belongs(e, old_, list, status) && (if e.id in list then e.id in list[..j] else e in old_[..k])
  }

  /** Everything still to come has a larger id than everything dealt with. */
  ghost predicate Ahead(old_: seq<Entry>, k: nat, list: seq<nat>, j: nat)
    requires k <= |old_| && j <= |list|
  {
    && (forall x, i :: 0 <= x < j && k <= i < |old_| ==> list[x] < old_[i].id)
    && (forall x, i :: j <= x < |list| && 0 <= i < k ==> old_[i].id < list[x])
    && (forall x, y :: 0 <= x < j <= y < |list| ==> list[x] < list[y])
  }

  ghost predicate Progress(out: seq<Entry>, old_: seq<Entry>, k: nat, list: seq<nat>, j: nat, status: map<nat, Line>)
    requires k <= |old_| && j <= |list|
  {
    Increasing(out) && Written(out, old_, k, list, j, status) && Ahead(old_, k, list, j)
  }

  lemma Append(out: seq<Entry>, e: Entry)
    requires Increasing(out) && forall f :: f in out ==> f.id < e.id
    ensures Increasing(out + [e])
  {
    forall i, j | 0 <= i < j < |out + [e]| ensures (out + [e])[i].id < (out + [e])[j].id {
      assert i < |out| ==> out[i] in out;
    }
  }

  lemma Smaller(out: seq<Entry>, old_: seq<Entry>, k: nat, list: seq<nat>, j: nat, status: map<nat, Line>, f: Entry)
    requires k <= |old_| && j <= |list| && Progress(out, old_, k, list, j, status) && Increasing(old_) && f in out
    ensures k < |old_| ==> f.id < old_[k].id
    ensures j < |list| ==> f.id < list[j]
  {
    if f.id in list {
      var x :| 0 <= x < j && list[x] == f.id;
    } else {
      var i :| 0 <= i < k && old_[i] == f;
    }
  }

  /** An old line before the next listed id is copied. */
  lemma CopyStep(out: seq<Entry>, old_: seq<Entry>, k: nat, list: seq<nat>, j: nat, status: map<nat, Line>)
    requires k < |old_| && j <= |list| && Progress(out, old_, k, list, j, status) && Increasing(old_) && Sorted(list)
    requires j < |list| ==> old_[k].id < list[j]
    ensures Progress(out + [old_[k]], old_, k + 1, list, j, status)
  {
    forall f | f in out ensures f.id < old_[k].id {
      Smaller(out, old_, k, list, j, status, f);
    }
    Append(out, old_[k]);
    assert old_[..k + 1] == old_[..k] + [old_[k]];
    assert old_[k].id !in list by {
      forall x | 0 <= x < |list| ensures list[x] != old_[k].id {
        assert x >= j ==> list[j] <= list[x];
      }
    }
    forall x, i | j <= x < |list| && 0 <= i < k + 1 ensures old_[i].id < list[x] {
      assert list[j] <= list[x];
    }
  }

  /** The next listed id, with its duplicates, comes before the old line k or replaces it. */
  lemma ListAhead(old_: seq<Entry>, k: nat, k': nat, list: seq<nat>, j: nat, j': nat)
    requires k <= k' <= |old_| && j < j' <= |list| && Ahead(old_, k, list, j) && Increasing(old_) && Sorted(list)
    requires (k' == k + 1 && old_[k].id == list[j]) || (k' == k && (k < |old_| ==> list[j] < old_[k].id))
    requires (forall x :: j <= x < j' ==> list[x] == list[j]) && (j' < |list| ==> list[j] < list[j'])
    ensures Ahead(old_, k', list, j')
  {
    forall x | j' <= x < |list| ensures list[j] < list[x] {
      assert list[j'] <= list[x];
    }
  }

  lemma ListWritten(out: seq<Entry>, old_: seq<Entry>, k: nat, k': nat, list: seq<nat>, j: nat, j': nat,
      status: map<nat, Line>)
    requires k <= k' <= |old_| && j < j' <= |list| && Written(out, old_, k, list, j, status)
    requires k' == k || (k' == k + 1 && old_[k].id == list[j])
    requires forall x :: j <= x < j' ==> list[x] == list[j]
    ensures var id := list[j];
      Written(if id in status then out + [Entry(id, status[id])] else out, old_, k', list, j', status)
  {
    var id := list[j];
    forall x ensures x in list[..j'] <==> x in list[..j] || x == id {
      assert list[..j'][j] == id;
      assert list[..j] == list[..j'][..j];
    }
    if k' == k + 1 {
      assert old_[..k'] == old_[..k] + [old_[k]];
    }
  }

  lemma ListStep(out: seq<Entry>, old_: seq<Entry>, k: nat, list: seq<nat>, j: nat, j': nat, status: map<nat, Line>)
    requires k <= |old_| && j < j' <= |list| && Progress(out, old_, k, list, j, status) && Increasing(old_)
      && Sorted(list)
    requires k < |old_| ==> list[j] <= old_[k].id
    requires (forall x :: j <= x < j' ==> list[x] == list[j]) && (j' < |list| ==> list[j] < list[j'])
    ensures var id := list[j];
      var out' := if id in status then out + [Entry(id, status[id])] else out;
      var k' := if k < |old_| && old_[k].id == id then k + 1 else k;
      Progress(out', old_, k', list, j', status)
  {
    var id := list[j];
    var k' := if k < |old_| && old_[k].id == id then k + 1 else k;
    ListAhead(old_, k, k', list, j, j');
    ListWritten(out, old_, k, k', list, j, j', status);
    forall f | f in out ensures f.id < id {
      Smaller(out, old_, k, list, j, status, f);
    }
    if id in status {
      Append(out, Entry(id, status[id]));
    }
  }

  // ------------------------------------------------------------------------ the loop

  /** The inner loop, over the duplicates of subcommit[j]. */
  method SkipDuplicates(list: seq<nat>, j: nat) returns (j': nat)
    requires j < |list| && Sorted(list)
    ensures j < j' <= |list| && (forall x :: j <= x < j' ==> list[x] == list[j]) && (j' < |list| ==> list[j] < list[j'])
  {
    j' := j + 1;
    while j' < |list| && list[j'] == list[j]
      invariant j < j' <= |list| && forall x :: j <= x < j' ==> list[x] == list[j]
    {
      j' := j' + 1;
    }
  }

  /**
   The loop of BBPdir_subcommit. `old_` are the lines of the backed-up BBP.dir, `list` is the
   sorted subcommit list after its unused first element, and `status` has the lines of the
   persistent BATs. Every line that belongs in the new directory is written once, in id order.
   */
  method MergeDirectory(old_: seq<Entry>, list: seq<nat>, status: map<nat, Line>) returns (out: seq<Entry>)
    requires Increasing(old_) && Sorted(list) && (forall e :: e in old_ ==> e.id > 0)
    ensures Increasing(out)
    ensures forall e :: e in out <==> Belongs(e, old_, list, status)
  {
    hide Progress, Belongs, Increasing, Sorted;
    out := [];
    var k, j, n, eof := 0, 0, 0, false;
    StartProgress(old_, list, status);
    while true
      invariant 0 <= k <= |old_| && 0 <= j <= |list|
      invariant if n == 0 then true else k > 0 && old_[k - 1].id == n
      invariant eof ==> k == |old_| && n == 0
      invariant Progress(out, old_, if n == 0 then k else k - 1, list, j, status)
      decreases |old_| - (if n == 0 then k else k - 1) + |list| - j, !eof
    {
      ghost var done := if n == 0 then k else k - 1;
      if n == 0 && !eof {
        if k == |old_| {
          eof := true;
        } else {
          assert old_[k] in old_;
          n := old_[k].id;
          k := k + 1;
        }
      }
      if j == |list| && n == 0 {
        break;
      }
      if j < |list| && (n == 0 || list[j] <= n || eof) {
        var i := list[j];
        var j' := SkipDuplicates(list, j);
        ListStep(out, old_, done, list, j, j', status);
        if i in status {
          out := out + [Entry(i, status[i])];
        }
        if i == n {
          n := 0;
        }
        j := j';
      } else {
        CopyStep(out, old_, done, list, j, status);
        out := out + [old_[k - 1]];
        n := 0;
      }
    }
    EndProgress(out, old_, list, status);
  }

  lemma StartProgress(old_: seq<Entry>, list: seq<nat>, status: map<nat, Line>)
    ensures Progress([], old_, 0, list, 0, status)
  {
  }

  lemma EndProgress(out: seq<Entry>, old_: seq<Entry>, list: seq<nat>, status: map<nat, Line>)
    requires Progress(out, old_, |old_|, list, |list|, status)
    ensures Increasing(out) && forall e :: e in out <==> Belongs(e, old_, list, status)
  {
    assert old_[..|old_|] == old_ && list[..|list|] == list;
  }

  /**
   So the directory that a subcommit writes is a goal that the protocol of module Commit
   accepts: only the listed BATs differ from the checkpoint.
   */
  lemma MergedAdvances(old_: seq<Entry>, list: seq<nat>, status: map<nat, Line>, out: seq<Entry>, img: Image,
      goal: Image)
    requires Increasing(old_) && Increasing(out) && forall e :: e in out <==> Belongs(e, old_, list, status)
    requires img.cat == CatalogOf(old_) && goal.cat == CatalogOf(out)
    requires forall n: Name :: n.bat !in list && Named(img.cat, n) ==>
      n in goal.files && n in img.files && goal.files[n] == img.files[n]
    ensures Advances(img, goal, set b | b in list)
    ensures forall b :: b in list ==> (b in goal.cat <==> b in status) && (b in status ==> goal.cat[b] == status[b])
  {
    hide CatalogOf;
    forall b | b !in list
      ensures b in goal.cat <==> b in img.cat
      ensures b in img.cat ==> goal.cat[b] == img.cat[b]
    {
      if b in img.cat {
        assert Belongs(Entry(b, img.cat[b]), old_, list, status);
      }
      if b in goal.cat {
        assert Belongs(Entry(b, goal.cat[b]), old_, list, status);
      }
    }
    forall b | b in list
      ensures b in goal.cat <==> b in status
      ensures b in status ==> goal.cat[b] == status[b]
    {
      if b in status {
        assert Belongs(Entry(b, status[b]), old_, list, status);
      }
      if b in goal.cat {
        assert Belongs(Entry(b, goal.cat[b]), old_, list, status);
      }
    }
  }
}
