/**
 The string heap (gdk_atoms.c: strPut, strLocate; gdk_atoms.h), in bytes. Its first 8192 bytes
 are a hash table of 1024 words. While the heap is below 64KB, a bucket starts a chain of
 nodes, each a word that precedes its string; above that, it only remembers the last string.
 */
module StrHeap {
  import opened VarHeap

  /** A C string, without its terminating zero. */
  type Text = s: seq<byte> | 0 !in s

  const TABLE: nat := 8192

  const ELIMLIMIT: nat := 65536

  const NILBYTE: byte := 0x80

  /** GDK_STRNIL */
  predicate IsNil(v: Text) { v != [] && v[0] == NILBYTE }

  /** GDK_STRLEN */
  function Len(v: Text): nat { (if IsNil(v) then 1 else |v|) + 1 }

  /** GDK_STRCMP(v, w) == 0 */
  predicate StrEq(v: Text, w: Text) { if IsNil(v) then IsNil(w) else v == w }

  // ---------------------------------------------------------------- hash function

  /** A (signed) char, extended to 64 bits. */
  function Extend(c: byte): bv64 { if c < 128 then c as bv64 else 0xFFFF_FFFF_FFFF_FF00 | (c as bv64) }

  function HashStep(y: bv64, c: byte): bv64 {
    var y1 := y + Extend(c);
    var y2 := y1 + (y1 << 10);
    y2 ^ (y2 >> 6)
  }

  function HashChars(v: seq<byte>): bv64 {
    if v == [] then 0 else HashStep(HashChars(v[..|v| - 1]), v[|v| - 1])
  }

  /** The last three steps. */
  function HashEnd(y: bv64): nat {
    var y1 := y + (y << 3);
    var y2 := y1 ^ (y1 >> 11);
    (y2 + (y2 << 15)) as nat
  }

  function Hash(v: Text): nat { HashEnd(HashChars(v)) }

  /** GDK_STRHASH: the loop over the characters. */
  method StrHash(v: Text) returns (h: nat)
    ensures h == Hash(v)
  {
    hide HashStep, HashEnd;
    var y: bv64 := 0;
    for i := 0 to |v|
      invariant y == HashChars(v[..i])
    {
      y := HashStep(y, v[i]);
      assert v[..i + 1][..i] == v[..i];
    }
    assert v[..|v|] == v;
    h := HashEnd(y);
  }

  /** The hash values of "", "a", "ab" and nil, whose byte is extended with its sign. */
  lemma HashValues()
    ensures HashChars([]) == 0 && Hash([]) == 0 && Hash([97]) == 0x6_CA2E_9442 && Hash([97, 98]) == 0x1B5D_45E6_1E58
    ensures Hash([NILBYTE]) == 0x9C1B_8009_2725_CE27
  {
    assert [97, 98][..1] == [97] && [97][..0] == [] && [NILBYTE][..0] == [];
    assert HashChars([97]) == HashStep(0, 97) && HashChars([NILBYTE]) == HashStep(0, NILBYTE);
    assert HashChars([97, 98]) == HashStep(HashStep(0, 97), 98);
  }

  function Bucket(v: Text): (k: nat)
    ensures k < 1024
  {
    Hash(v) % 1024
  }

  // ------------------------------------------------------------ strings in memory

  /** The string at pos, inside the first `free` bytes of m, compares equal to v. */
  ghost predicate TextAt(m: seq<byte>, free: nat, pos: nat, v: Text) {
    && TABLE <= pos < free <= |m|
    && if IsNil(v) then m[pos] == NILBYTE
       else pos + |v| < free && m[pos..pos + |v|] == v && m[pos + |v|] == 0
  }

  /** A string that can be compared without running off the heap: nil, or terminated. */
  ghost predicate Readable(m: seq<byte>, free: nat, pos: nat) {
    && TABLE <= pos < free <= |m|
    && (m[pos] == NILBYTE || exists n :: pos <= n < free && m[n] == 0)
  }

  lemma TextReadable(m: seq<byte>, free: nat, pos: nat, v: Text)
    requires TextAt(m, free, pos, v)
    ensures Readable(m, free, pos)
  {
    if !IsNil(v) {
      assert m[pos + |v|] == 0;
    }
  }

  /** A string that is not nil has no zero before its end, and does not start like nil. */
  lemma TextBytes(m: seq<byte>, free: nat, pos: nat, v: Text)
    requires TextAt(m, free, pos, v) && !IsNil(v)
    ensures m[pos] != NILBYTE
    ensures forall k :: 0 <= k < |v| ==> m[pos + k] == v[k] && m[pos + k] != 0
  {
    forall k | 0 <= k < |v| ensures m[pos + k] == v[k] && m[pos + k] != 0 {
      assert m[pos..pos + |v|][k] == v[k];
      assert v[k] in v;
    }
  }

  lemma TwoTexts(m: seq<byte>, free: nat, pos: nat, v: Text, w: Text)
    requires TextAt(m, free, pos, v) && TextAt(m, free, pos, w)
    ensures StrEq(v, w) && StrEq(w, v)
  {
    if !IsNil(v) {
      TextBytes(m, free, pos, v);
    }
    if !IsNil(w) {
      TextBytes(m, free, pos, w);
    }
  }

  lemma TextCongruent(m: seq<byte>, free: nat, pos: nat, v: Text, w: Text)
    requires TextAt(m, free, pos, v) && StrEq(v, w)
    ensures TextAt(m, free, pos, w)
  {
  }

  /** GDK_STRCMP(v, base + pos) == 0, by the loop of strCmpNoNil. */
  method Compare(base: array<byte>, ghost free: nat, pos: nat, v: Text) returns (eq: bool)
    requires Readable(base[..], free, pos)
    ensures eq <==> TextAt(base[..], free, pos, v)
  {
    if v != [] && v[0] == NILBYTE {
      return base[pos] == NILBYTE;
    }
    if base[pos] == NILBYTE {
      NotNil(base[..], free, pos, v);
      return false;
    }
    ghost var n :| pos <= n < free && base[..][n] == 0;
    var i := 0;
    while base[pos + i] == (v + [0])[i]
      invariant 0 <= i <= |v| && pos + i <= n && (forall k :: 0 <= k < i ==> base[pos + k] == v[k])
      decreases |v| - i
    {
      if base[pos + i] == 0 {
        return true;
      }
      i := i + 1;
    }
    eq := false;
  }

  lemma NotNil(m: seq<byte>, free: nat, pos: nat, v: Text)
    requires pos < |m| && m[pos] == NILBYTE && !IsNil(v)
    ensures !TextAt(m, free, pos, v)
  {
    if TextAt(m, free, pos, v) {
      TextBytes(m, free, pos, v);
    }
  }

  // -------------------------------------------------------------- invariants

  /** A string that was put, and the offset that was returned for it. */
  datatype Put = Put(text: Text, off: nat)

  /** The same string in the same bucket. For all but odd spellings of nil, StrEq implies it. */
  predicate Equiv(v: Text, w: Text) { StrEq(v, w) && Bucket(v) == Bucket(w) }

  /** GDK_ELIMBASE */
  function ElimBase(free: nat): nat { free / ELIMLIMIT * ELIMLIMIT }

  function Head(m: seq<byte>, k: nat): nat
    requires k < 1024 && TABLE <= |m|
  {
    Load(m, 8 * k, 8)
  }

  /** A chain of nodes, each at a lower address than the one before, ended by 0. */
  ghost predicate ChainOk(m: seq<byte>, free: nat, x: nat, w: nat) {
    w == 0 || (TABLE <= w && w + 8 + x < free <= |m| && Load(m, w, 8) < w && ChainOk(m, free, x, Load(m, w, 8)))
  }

  ghost predicate OnChain(m: seq<byte>, free: nat, x: nat, w: nat, node: nat)
    requires ChainOk(m, free, x, w)
  {
    w != 0 && (w == node || OnChain(m, free, x, Load(m, w, 8), node))
  }

  ghost predicate IsGiven(given: seq<Put>, k: nat, off: nat) {
    exists p {:trigger p in given} :: p in given && p.off == off && Bucket(p.text) == k
  }

  /** Every node of the chain holds a string of bucket k that was put. */
  ghost predicate ChainGiven(m: seq<byte>, free: nat, x: nat, w: nat, k: nat, given: seq<Put>)
    requires ChainOk(m, free, x, w)
  {
    w == 0 || (IsGiven(given, k, w + 8 + x) && ChainGiven(m, free, x, Load(m, w, 8), k, given))
  }

  /** Every offset denotes the string it was returned for. */
  ghost predicate Kept(m: seq<byte>, free: nat, given: seq<Put>) {
    forall p :: p in given ==> TextAt(m, free, p.off, p.text)
  }

  ghost predicate IsOff(given: seq<Put>, off: nat) {
    exists q {:trigger q in given} :: q in given && q.off == off
  }

  /** The first n offsets are multiples of 8. */
  ghost predicate Aligned(given: seq<Put>, n: nat) {
    n <= |given| && forall i :: 0 <= i < n ==> given[i].off % 8 == 0
  }

  /** A string that is put again is as aligned as it was. */
  lemma AlignedAgain(given: seq<Put>, p: Put)
    requires Aligned(given, |given|) && IsOff(given, p.off)
    ensures Aligned(given + [p], |given| + 1)
  {
  }

  /** The word before off holds the hash value of a string that was given this offset. */
  ghost predicate HashAt(m: seq<byte>, free: nat, given: seq<Put>, off: nat) {
    && TABLE + 8 <= off <= free <= |m|
    && exists q {:trigger q in given} :: q in given && q.off == off && Load(m, off - 8, 8) == Hash(q.text)
  }

  /** Every string has its hash value stored before it. */
  ghost predicate Hashed(m: seq<byte>, free: nat, given: seq<Put>) {
    forall p :: p in given ==> HashAt(m, free, given, p.off)
  }

  ghost predicate BucketOk(m: seq<byte>, free: nat, x: nat, k: nat, given: seq<Put>)
    requires k < 1024 && TABLE <= |m|
  {
    ChainOk(m, free, x, Head(m, k)) && ChainGiven(m, free, x, Head(m, k), k, given)
  }

  ghost predicate Listed(m: seq<byte>, free: nat, x: nat, p: Put)
    requires TABLE <= |m|
  {
    p.off >= TABLE + 8 + x && ChainOk(m, free, x, Head(m, Bucket(p.text)))
      && OnChain(m, free, x, Head(m, Bucket(p.text)), p.off - 8 - x)
  }

  /** Below 64KB: the chains hold all strings that were put, and nothing else. */
  ghost predicate SmallOk(m: seq<byte>, free: nat, x: nat, given: seq<Put>)
    requires TABLE <= |m|
  {
    && (forall k: nat {:trigger BucketOk(m, free, x, k, given)} :: k < 1024 ==> BucketOk(m, free, x, k, given))
    && (forall p {:trigger Listed(m, free, x, p)} :: p in given ==> Listed(m, free, x, p))
  }

  /** From 64KB on, a bucket is empty or holds the place of a string in the current 64KB. */
  ghost predicate LastOk(m: seq<byte>, base: nat, x: nat, k: nat, given: seq<Put>)
    requires k < 1024 && TABLE <= |m|
  {
    Head(m, k) == 0 || exists p {:trigger p in given} :: p in given && p.off == base + Head(m, k) + x
  }

  ghost predicate LargeOk(m: seq<byte>, free: nat, x: nat, given: seq<Put>)
    requires TABLE <= |m|
  {
    forall k: nat {:trigger LastOk(m, ElimBase(free), x, k, given)} :: k < 1024 ==>
      LastOk(m, ElimBase(free), x, k, given)
  }

  /**
   The first `exact` puts were made below 64KB; of those, equal strings have equal offsets, and
   equal offsets are of strings in one bucket.
   */
  ghost predicate Dedup(given: seq<Put>, exact: nat) {
    && exact <= |given|
    && (forall i, j :: 0 <= i < exact && 0 <= j < exact && Equiv(given[i].text, given[j].text) ==>
          given[i].off == given[j].off)
    && (forall i, j :: 0 <= i < exact && 0 <= j < exact && given[i].off == given[j].off ==>
          Bucket(given[i].text) == Bucket(given[j].text))
  }

  // ------------------------------------------------------------------- frames

  ghost predicate SameStrings(m: seq<byte>, m': seq<byte>, free: nat) {
    TABLE <= free <= |m| && free <= |m'| && m'[TABLE..free] == m[TABLE..free]
  }

  lemma SameByte(m: seq<byte>, m': seq<byte>, free: nat, i: nat)
    requires SameStrings(m, m', free) && TABLE <= i < free
    ensures m'[i] == m[i]
  {
    assert m'[TABLE..free][i - TABLE] == m[TABLE..free][i - TABLE];
  }

  lemma SameWord(m: seq<byte>, m': seq<byte>, free: nat, w: nat)
    requires SameStrings(m, m', free) && TABLE <= w && w + 8 <= free
    ensures Load(m', w, 8) == Load(m, w, 8)
  {
    forall i | w <= i < w + 8 ensures m'[i] == m[i] {
      SameByte(m, m', free, i);
    }
    assert m'[w..w + 8] == m[w..w + 8];
    LoadFrame(m', w, m, w, 8);
  }

  lemma TextFrame(m: seq<byte>, m': seq<byte>, free: nat, free': nat, pos: nat, v: Text)
    requires SameStrings(m, m', free) && free <= free' <= |m'| && TextAt(m, free, pos, v)
    ensures TextAt(m', free', pos, v)
  {
    SameByte(m, m', free, pos);
    if !IsNil(v) {
      forall i | pos <= i <= pos + |v| ensures m'[i] == m[i] {
        SameByte(m, m', free, i);
      }
      assert m'[pos..pos + |v|] == m[pos..pos + |v|];
    }
  }

  lemma {:induction false} ChainFrame(m: seq<byte>, m': seq<byte>, free: nat, free': nat, x: nat, w: nat, k: nat,
      given: seq<Put>, given': seq<Put>)
    requires SameStrings(m, m', free) && free <= free' <= |m'| && ChainOk(m, free, x, w)
    requires forall p :: p in given ==> p in given'
    ensures ChainOk(m', free', x, w)
    ensures forall node: nat :: OnChain(m, free, x, w, node) ==> OnChain(m', free', x, w, node)
    ensures ChainGiven(m, free, x, w, k, given) ==> ChainGiven(m', free', x, w, k, given')
    decreases w
  {
    if w != 0 {
      SameWord(m, m', free, w);
      ChainFrame(m, m', free, free', x, Load(m, w, 8), k, given, given');
    }
  }

  // -------------------------------------------------------------------- steps

  lemma KeptFrame(m: seq<byte>, m': seq<byte>, free: nat, free': nat, given: seq<Put>, p: Put)
    requires SameStrings(m, m', free) && free <= free' <= |m'| && Kept(m, free, given)
      && TextAt(m', free', p.off, p.text)
    ensures Kept(m', free', given + [p])
  {
    hide TextAt;
    forall q | q in given + [p] ensures TextAt(m', free', q.off, q.text) {
      if q in given {
        TextFrame(m, m', free, free', q.off, q.text);
      }
    }
  }

  lemma HashAtFrame(m: seq<byte>, m': seq<byte>, free: nat, free': nat, given: seq<Put>, given': seq<Put>, off: nat)
    requires SameStrings(m, m', free) && free <= free' <= |m'| && HashAt(m, free, given, off)
    requires forall q :: q in given ==> q in given'
    ensures HashAt(m', free', given', off)
  {
    hide Load, Hash;
    SameWord(m, m', free, off - 8);
    var q :| q in given && q.off == off && Load(m, off - 8, 8) == Hash(q.text);
    assert q in given';
  }

  lemma HashedFrame(m: seq<byte>, m': seq<byte>, free: nat, free': nat, given: seq<Put>)
    requires SameStrings(m, m', free) && free <= free' <= |m'| && Hashed(m, free, given)
    ensures Hashed(m', free', given)
  {
    hide HashAt, SameStrings;
    forall p | p in given ensures HashAt(m', free', given, p.off) {
      HashAtFrame(m, m', free, free', given, given, p.off);
    }
  }

  /** A new string is written behind the others, with its hash value before it. */
  lemma HashedNew(m: seq<byte>, m': seq<byte>, free: nat, free': nat, given: seq<Put>, p: Put)
    requires SameStrings(m, m', free) && free <= free' <= |m'| && Hashed(m, free, given)
    requires TABLE + 8 <= p.off <= free' && Load(m', p.off - 8, 8) == Hash(p.text)
    ensures Hashed(m', free', given + [p])
  {
    hide SameStrings, Load, Hash;
    var given' := given + [p];
    assert p in given';
    assert HashAt(m', free', given', p.off);
    hide HashAt;
    forall q | q in given' ensures HashAt(m', free', given', q.off) {
      if q in given {
        HashAtFrame(m, m', free, free', given, given', q.off);
      }
    }
  }

  /** A string is found at an offset that was given before. */
  lemma HashedFound(m: seq<byte>, free: nat, given: seq<Put>, p: Put)
    requires TABLE <= free <= |m| && Hashed(m, free, given) && IsOff(given, p.off)
    ensures Hashed(m, free, given + [p])
  {
    hide HashAt;
    forall q | q in given + [p] ensures HashAt(m, free, given + [p], q.off) {
      var q0 :| q0 in given && q0.off == q.off;
      HashAtFrame(m, m, free, free, given, given + [p], q.off);
    }
  }

  lemma SameStringsFrom(m: seq<byte>, m': seq<byte>, free: nat)
    requires TABLE <= free <= |m| && |m'| == |m| && m'[TABLE..] == m[TABLE..]
    ensures SameStrings(m, m', free)
  {
    assert m'[TABLE..free] == m'[TABLE..][..free - TABLE] && m[TABLE..free] == m[TABLE..][..free - TABLE];
  }

  /** A new node in front of the chain of bucket k. */
  lemma SmallBucket(m: seq<byte>, m': seq<byte>, free: nat, free': nat, x: nat, given: seq<Put>, p: Put, b: nat)
    requires SameStrings(m, m', free) && free <= free' <= |m'| && b < 1024 && BucketOk(m, free, x, b, given)
    requires var k := Bucket(p.text);
      if b == k then p.off >= free + 8 + x && p.off < free' && Head(m', k) == p.off - 8 - x
        && Load(m', p.off - 8 - x, 8) == Head(m, k)
      else Head(m', b) == Head(m, b)
    ensures BucketOk(m', free', x, b, given + [p])
  {
    hide Head, Bucket, IsGiven;
    ChainFrame(m, m', free, free', x, Head(m, b), b, given, given + [p]);
    if b == Bucket(p.text) {
      NewGiven(given, p);
      HeadBelow(m, free, x, b, given);
    }
  }

  lemma HeadBelow(m: seq<byte>, free: nat, x: nat, b: nat, given: seq<Put>)
    requires b < 1024 && TABLE <= free <= |m| && BucketOk(m, free, x, b, given)
    ensures Head(m, b) < free
  {
  }

  lemma NewGiven(given: seq<Put>, p: Put)
    ensures IsGiven(given + [p], Bucket(p.text), p.off)
  {
    assert p in given + [p];
  }

  lemma SmallListed(m: seq<byte>, m': seq<byte>, free: nat, free': nat, x: nat, given: seq<Put>, p: Put, q: Put)
    requires SameStrings(m, m', free) && free <= free' <= |m'| && Listed(m, free, x, q)
      && BucketOk(m', free', x, Bucket(q.text), given)
    requires var k := Bucket(p.text);
      if Bucket(q.text) == k then p.off >= free + 8 + x && Head(m', k) == p.off - 8 - x
        && Load(m', p.off - 8 - x, 8) == Head(m, k)
      else Head(m', Bucket(q.text)) == Head(m, Bucket(q.text))
    ensures Listed(m', free', x, q)
  {
    hide Head, Bucket, ChainGiven;
    ChainFrame(m, m', free, free', x, Head(m, Bucket(q.text)), 0, [], []);
  }

  /** A string is inserted below 64KB. */
  lemma SmallInsert(m: seq<byte>, m': seq<byte>, free: nat, free': nat, x: nat, given: seq<Put>, p: Put)
    requires SameStrings(m, m', free) && free <= free' <= |m'| && SmallOk(m, free, x, given)
    requires free + 8 + x <= p.off < free'
    requires var k := Bucket(p.text); Head(m', k) == p.off - 8 - x && Load(m', p.off - 8 - x, 8) == Head(m, k)
    requires forall b: nat {:trigger Head(m', b)} :: b < 1024 && b != Bucket(p.text) ==> Head(m', b) == Head(m, b)
    ensures SmallOk(m', free', x, given + [p])
  {
    hide Head, Bucket, BucketOk, Listed, ChainOk, OnChain;
    var given' := given + [p];
    forall b: nat | b < 1024 ensures BucketOk(m', free', x, b, given') {
      assert BucketOk(m, free, x, b, given);
      assert b != Bucket(p.text) ==> Head(m', b) == Head(m, b);
      SmallBucket(m, m', free, free', x, given, p, b);
    }
    forall q | q in given' ensures Listed(m', free', x, q) {
      assert BucketOk(m', free', x, Bucket(q.text), given');
      if q in given {
        assert Bucket(q.text) != Bucket(p.text) ==> Head(m', Bucket(q.text)) == Head(m, Bucket(q.text));
        SmallListed(m, m', free, free', x, given', p, q);
      } else {
        NewListed(m', free', x, given', p);
      }
    }
  }

  lemma NewListed(m': seq<byte>, free': nat, x: nat, given': seq<Put>, p: Put)
    requires TABLE <= |m'| && p.off >= TABLE + 8 + x && Head(m', Bucket(p.text)) == p.off - 8 - x
      && BucketOk(m', free', x, Bucket(p.text), given')
    ensures Listed(m', free', x, p)
  {
  }

  /** A string that is put again gets the offset it had. */
  lemma SmallFound(m: seq<byte>, free: nat, x: nat, given: seq<Put>, p: Put, q: Put)
    requires TABLE <= free <= |m| && SmallOk(m, free, x, given) && q in given && q.off == p.off
      && Bucket(p.text) == Bucket(q.text)
    ensures SmallOk(m, free, x, given + [p])
  {
    hide Head, Bucket, IsGiven;
    var given' := given + [p];
    forall b: nat | b < 1024 ensures BucketOk(m, free, x, b, given') {
      assert BucketOk(m, free, x, b, given);
      ChainFrame(m, m, free, free, x, Head(m, b), b, given, given');
    }
    assert Listed(m, free, x, q);
  }

  lemma DedupFound(given: seq<Put>, p: Put, q: Put)
    requires Dedup(given, |given|) && q in given && q.off == p.off && Equiv(q.text, p.text)
    ensures Dedup(given + [p], |given| + 1)
  {
    hide Bucket;
    var given' := given + [p];
    var a :| 0 <= a < |given| && given[a] == q;
    forall i | 0 <= i < |given| && Equiv(given[i].text, p.text) ensures given[i].off == p.off {
      assert Equiv(given[i].text, given[a].text);
    }
    forall i | 0 <= i < |given| && Equiv(p.text, given[i].text) ensures given[i].off == p.off {
      assert Equiv(given[i].text, given[a].text);
    }
  }

  lemma DedupNew(given: seq<Put>, p: Put)
    requires Dedup(given, |given|) && forall q :: q in given ==> !Equiv(q.text, p.text) && q.off != p.off
    ensures Dedup(given + [p], |given| + 1)
  {
    hide Bucket;
    var given' := given + [p];
    forall i | 0 <= i < |given| ensures !Equiv(given[i].text, p.text) && !Equiv(p.text, given[i].text) {
      assert given[i] in given;
      EquivSym(p.text, given[i].text);
    }
  }

  // ------------------------------------------------------------------- searching

  /** All strings put that are the same as v are on the chain. */
  ghost predicate ChainHas(m: seq<byte>, free: nat, x: nat, w: nat, v: Text, given: seq<Put>)
    requires ChainOk(m, free, x, w)
  {
    forall p {:trigger p in given} :: p in given && Equiv(p.text, v) ==>
      p.off >= 8 + x && OnChain(m, free, x, w, p.off - 8 - x)
  }

  lemma SearchStart(m: seq<byte>, free: nat, x: nat, v: Text, given: seq<Put>)
    requires TABLE <= |m| && SmallOk(m, free, x, given)
    ensures var k := Bucket(v); BucketOk(m, free, x, k, given) && ChainHas(m, free, x, Head(m, k), v, given)
  {
    hide Head, Bucket, ChainOk, OnChain, ChainGiven;
    var k := Bucket(v);
    assert BucketOk(m, free, x, k, given);
    forall p | p in given && Equiv(p.text, v) ensures p.off >= 8 + x && OnChain(m, free, x, Head(m, k), p.off - 8 - x) {
      assert Listed(m, free, x, p);
    }
  }

  lemma SearchNext(m: seq<byte>, free: nat, x: nat, w: nat, v: Text, given: seq<Put>)
    requires w != 0 && ChainOk(m, free, x, w) && ChainGiven(m, free, x, w, Bucket(v), given)
      && ChainHas(m, free, x, w, v, given)
    requires Kept(m, free, given) && !TextAt(m, free, w + 8 + x, v)
    ensures w + 8 + x < free <= |m| && Load(m, w, 8) < w
    ensures ChainOk(m, free, x, Load(m, w, 8)) && ChainGiven(m, free, x, Load(m, w, 8), Bucket(v), given)
    ensures ChainHas(m, free, x, Load(m, w, 8), v, given)
  {
    hide TextAt, IsGiven, Bucket;
    forall p | p in given && Equiv(p.text, v)
      ensures p.off >= 8 + x && OnChain(m, free, x, Load(m, w, 8), p.off - 8 - x) {
      if p.off == w + 8 + x {
        TextCongruent(m, free, p.off, p.text, v);
      }
    }
  }

  /** The node at w can be compared, and what it holds was put. */
  lemma NodeReadable(m: seq<byte>, free: nat, x: nat, w: nat, k: nat, given: seq<Put>)
    requires w != 0 && ChainOk(m, free, x, w) && ChainGiven(m, free, x, w, k, given) && Kept(m, free, given)
    ensures Readable(m, free, w + 8 + x) && IsGiven(given, k, w + 8 + x) && w + 8 <= |m|
  {
    hide TextAt, Readable, Bucket;
    var p :| p in given && p.off == w + 8 + x && Bucket(p.text) == k;
    TextReadable(m, free, p.off, p.text);
  }

  lemma SearchEnd(m: seq<byte>, free: nat, x: nat, v: Text, given: seq<Put>)
    requires ChainOk(m, free, x, 0) && ChainHas(m, free, x, 0, v, given)
    ensures forall p :: p in given ==> !Equiv(p.text, v)
  {
  }

  lemma EquivSym(v: Text, w: Text)
    ensures Equiv(v, w) <==> Equiv(w, v)
  {
  }

  // --------------------------------------------------------------------- the heap

  const VAR_MAX: nat := 0x7FFF_FFFF_FFFF_FFFF

  class Heap {
    var base: array<byte>
    var free: nat
    var maxsize: nat
    const hashash: bool
    ghost var given: seq<Put>
    ghost var exact: nat

    /** EXTRALEN, if the heap keeps hash values. */
    function ExtraLen(): nat { if hashash then 8 else 0 }

    /**
     Every string can be read at its offset, with its hash value before it if the heap keeps those.
     Offsets are aligned if hash values are kept, and in a heap below 64KB.
     */
    ghost predicate Valid()
      reads this, base
    {
      && TABLE <= free < base.Length <= Limit(8)
      && Kept(base[..], free, given) && Dedup(given, exact) && (hashash ==> Hashed(base[..], free, given))
      && Aligned(given, if hashash then |given| else exact)
      && if free < ELIMLIMIT then exact == |given| && SmallOk(base[..], free, ExtraLen(), given)
         else LargeOk(base[..], free, ExtraLen(), given)
    }

    /** The walk along the chain of v, in a heap below 64KB: the node of v, or 0. */
    method Search(v: Text, k: nat) returns (ref: nat)
      requires Valid() && free < ELIMLIMIT && k == Bucket(v)
      ensures ref == 0 ==> forall p :: p in given ==> !Equiv(p.text, v)
      ensures ref != 0 ==> TextAt(base[..], free, ref + 8 + ExtraLen(), v) && IsGiven(given, k, ref + 8 + ExtraLen())
    {
      hide Bucket, ChainOk, ChainGiven, ChainHas, IsGiven, TextAt, Readable, Kept, Dedup, SmallOk, Load;
      ghost var m, x := base[..], ExtraLen();
      SearchStart(m, free, x, v, given);
      ref := LoadWord(base, 8 * k);
      while ref != 0
        invariant ChainOk(m, free, x, ref) && ChainGiven(m, free, x, ref, k, given)
          && ChainHas(m, free, x, ref, v, given)
        invariant base[..] == m
        decreases ref
      {
        NodeReadable(m, free, x, ref, k, given);
        var eq := Compare(base, free, ref + 8 + ExtraLen(), v);
        if eq {
          return;
        }
        SearchNext(m, free, x, ref, v, given);
        ref := LoadWord(base, ref);
      }
      SearchEnd(m, free, x, v, given);
    }

    /** strLocate: the offset of v, or 0 exactly if it was never put. */
    method Locate(v: Text) returns (off: nat)
      requires Valid() && free < ELIMLIMIT
      ensures off == 0 <==> forall p :: p in given ==> !Equiv(p.text, v)
      ensures off != 0 ==> forall p :: p in given && Equiv(p.text, v) ==> p.off == off
    {
      var h := StrHash(v);
      var ref := Search(v, h % 1024);
      off := if ref == 0 then 0 else 8 + ref + ExtraLen();
      if ref != 0 {
        ghost var q := FoundGiven(base[..], free, given, v, off);
      }
    }

    /** An empty heap: a table of zeros, and `extra` more bytes. */
    constructor (hashash: bool, extra: nat, maxsize: nat)
      requires 0 < extra && TABLE + extra <= Limit(8)
      ensures Valid() && free == TABLE && given == [] && exact == 0 && this.hashash == hashash && fresh(base)
    {
      base := new byte[TABLE + extra](_ => 0);
      free, this.maxsize, this.hashash, given, exact := TABLE, maxsize, hashash, [], 0;
      new;
      EmptyHeap(base[..], ExtraLen());
    }

    /** The heap is made larger than `need` bytes, if that can be had. */
    method Grow(need: nat, grows: bool) returns (ok: bool)
      requires Valid() && need >= base.Length
      modifies this`base
      ensures ok <==> grows && need < VAR_MAX
      ensures if ok then Valid() && fresh(base) && need < base.Length else base == old(base)
    {
      hide Kept, Dedup, SmallOk, LargeOk, Hashed;
      Limits();
      var newsize := if base.Length > 4096 then base.Length else 4096;
      newsize := newsize * 2;
      while newsize <= need
        invariant 0 < newsize && (newsize <= 8192 || newsize <= 2 * need)
        decreases need + 1 - newsize
      {
        newsize := newsize * 2;
      }
      if need >= VAR_MAX {
        return false;
      }
      if need < maxsize && maxsize < newsize {
        newsize := maxsize;
      }
      if !grows {
        return false;
      }
      ghost var m := base[..];
      var copy := new byte[newsize];
      for i := 0 to free
        invariant base == old(base) && base[..] == m
        invariant forall k :: 0 <= k < i ==> copy[k] == m[k]
      {
        copy[i] := base[i];
      }
      Moved(m, copy[..], free, ExtraLen(), given);
      if hashash {
        assert copy[..][TABLE..free] == m[TABLE..free];
        HashedFrame(m, copy[..], free, free, given);
      }
      base := copy;
      ok := true;
    }

    /** A string is found at off: nothing changes but what has been given out. */
    ghost method Reuse(v: Text, off: nat)
      requires Valid() && off != 0 && TextAt(base[..], free, off, v) && IsOff(given, off)
      requires free < ELIMLIMIT ==> IsGiven(given, Bucket(v), off)
      modifies this`given, this`exact
      ensures Valid() && given == old(given) + [Put(v, off)]
      ensures exact == if free < ELIMLIMIT then |given| else old(exact)
    {
      hide TextAt, Bucket, ChainOk, OnChain, ChainGiven, BucketOk, Listed, Head, Equiv, Hashed;
      var p := Put(v, off);
      if hashash || free < ELIMLIMIT {
        AlignedAgain(given, p);
      }
      if hashash {
        HashedFound(base[..], free, given, p);
      }
      if free < ELIMLIMIT {
        var q := FoundGiven(base[..], free, given, v, off);
        EquivBucket(q.text, v);
        SmallFound(base[..], free, ExtraLen(), given, p, q);
        DedupFound(given, p, q);
        exact := exact + 1;
      } else {
        LargeMore(base[..], free, ExtraLen(), given, p);
      }
      given := given + [p];
    }

    /** The rest of strPut, when the string is not found: there is room, and it is appended. */
    method Append(v: Text, h: nat, pad: nat) returns (off: nat)
      requires Valid() && h == Hash(v) && free + pad + Len(v) + ExtraLen() < base.Length
      requires free < ELIMLIMIT ==> pad >= 8 && forall p :: p in given ==> !Equiv(p.text, v)
      requires hashash || free < ELIMLIMIT ==> (free + pad) % 8 == 0
      modifies this, base
      ensures Valid() && off > 0 && given == old(given) + [Put(v, off)] && base == old(base)
      ensures exact == if old(free) < ELIMLIMIT then |given| else old(exact)
      ensures old(free) <= off && free == old(free) + pad + Len(v) + ExtraLen()
    {
      hide TextAt, Load, SameStrings, Head, Kept, SmallOk, LargeOk, Dedup, Hash, Equiv, ElimBase, Limit, Bucket, Hashed;
      ghost var m, free0 := base[..], free;
      ElimFacts(free, free + pad + Len(v) + ExtraLen());
      var elimbase, x := ElimBase(free), ExtraLen();
      var k, small := h % 1024, elimbase == 0;
      var pos := free + pad + x;
      var bucket := pos - x - elimbase - (if small then 8 else 0);
      HashBound(v);
      WriteString(base, hashash, free, free + pad + Len(v) + x, pos, v, h, k, small, bucket);
      free := free + pad + Len(v) + x;
      off := pos;
      ghost var p := Put(v, pos);
      KeptFrame(m, base[..], free0, free, given, p);
      if hashash {
        HashedNew(m, base[..], free0, free, given, p);
      }
      if small {
        SmallInsert(m, base[..], free0, free, x, given, p);
        AllBelow(m, free0, given);
        DedupNew(given, p);
        exact := exact + 1;
      } else {
        LargeInsert(m, base[..], free0, free, x, given, p);
        MoreDedup(given, p, exact);
      }
      given := given + [p];
      if free >= elimbase + ELIMLIMIT {
        Flush();
      }
    }

    /** The last string of bucket k, from 64KB on: its place, or 0 if there is none or it is not v. */
    method SearchLast(v: Text, k: nat) returns (last: nat, pos: nat)
      requires Valid() && free >= ELIMLIMIT && k == Bucket(v)
      ensures last == Head(base[..], k)
      ensures var at := ElimBase(free) + last + ExtraLen();
        pos == if last != 0 && TextAt(base[..], free, at, v) then at else 0
      ensures pos != 0 ==> IsOff(given, pos)
    {
      hide TextAt, Load, Kept, Dedup, Hash, Readable, ElimBase, Hashed;
      pos := 0;
      last := LoadWord(base, 8 * k);
      if last != 0 {
        var at := ElimBase(free) + last + ExtraLen();
        LastReadable(base[..], free, ExtraLen(), k, given);
        var eq := Compare(base, free, at, v);
        if eq {
          pos := at;
        }
      }
    }

    /** Room is made if there is none, and the string is appended. */
    method Insert(v: Text, h: nat, pad: nat, grows: bool) returns (off: nat)
      requires Valid() && h == Hash(v) && pad <= 16
      requires free < ELIMLIMIT ==> pad >= 8 && forall p :: p in given ==> !Equiv(p.text, v)
      requires hashash || free < ELIMLIMIT ==> (free + pad) % 8 == 0
      modifies this, base
      ensures Valid() && (base == old(base) || fresh(base))
      ensures off != 0 ==> given == old(given) + [Put(v, off)]
      ensures off != 0 ==> exact == if old(free) < ELIMLIMIT then |given| else old(exact)
      ensures off == 0 ==> given == old(given) && free == old(free) && exact == old(exact)
      ensures off == 0 ==> !grows || old(free) + 16 + Len(v) + ExtraLen() >= VAR_MAX
      ensures old(free) <= free <= old(free) + 16 + Len(v) + ExtraLen()
    {
      hide Hash, Equiv, Kept, Dedup, SmallOk, LargeOk, Hashed;
      var need := free + pad + Len(v) + ExtraLen();
      if need >= base.Length {
        var ok := Grow(need, grows);
        if !ok {
          return 0;
        }
      }
      off := Append(v, h, pad);
    }

    /**
     strPut. The returned offset denotes the string from then on (Valid), and 0 means that the
     heap could not grow. Below 64KB a string that was put before gets its old offset.
     */
    method PutString(v: Text, grows: bool) returns (off: nat)
      requires Valid()
      modifies this, base
      ensures Valid() && (base == old(base) || fresh(base))
      ensures off != 0 ==> given == old(given) + [Put(v, off)]
      ensures off != 0 ==> exact == if old(free) < ELIMLIMIT then |given| else old(exact)
      ensures off == 0 ==> given == old(given) && free == old(free) && exact == old(exact)
      ensures off == 0 ==> !grows || old(free) + 16 + Len(v) + ExtraLen() >= VAR_MAX
      ensures old(free) <= free <= old(free) + 16 + Len(v) + ExtraLen()
    {
      hide TextAt, Head, Kept, SmallOk, LargeOk, Dedup, Hash, Equiv, ElimBase, Len, Hashed;
      ElimFacts(free, free);
      var pad := 8 - free % 8;
      var h := StrHash(v);
      HashBound(v);
      if ElimBase(free) == 0 {
        var ref := Search(v, h % 1024);
        if ref != 0 {
          off := 8 + ref + ExtraLen();
          Reuse(v, off);
          return;
        }
        if pad < 8 {
          pad := pad + 8;
        }
      } else {
        var last, pos := SearchLast(v, h % 1024);
        if pos != 0 {
          off := pos;
          Reuse(v, off);
          return;
        }
        if last != 0 {
          pad := if ExtraLen() == 0 then 0 else pad % 8;
        }
      }
      off := Insert(v, h, pad, grows);
    }

    /** memset of the hash table. */
    method Flush()
      requires TABLE <= free < base.Length && Kept(base[..], free, given)
      requires hashash ==> Hashed(base[..], free, given)
      modifies base
      ensures Kept(base[..], free, given) && LargeOk(base[..], free, ExtraLen(), given)
      ensures hashash ==> Hashed(base[..], free, given)
    {
      hide TextAt, Hashed, SameStrings;
      ghost var m := base[..];
      for i := 0 to TABLE
        invariant forall k :: 0 <= k < i ==> base[k] == 0
        invariant base[TABLE..] == m[TABLE..]
      {
        base[i] := 0;
      }
      Flushed(base[..], free, ExtraLen(), given);
      FlushKept(m, base[..], free, given);
      if hashash {
        SameStringsFrom(m, base[..], free);
        HashedFrame(m, base[..], free, free, given);
      }
    }
  }

  lemma AllBelow(m: seq<byte>, free: nat, given: seq<Put>)
    requires Kept(m, free, given)
    ensures forall q :: q in given ==> q.off < free
  {
  }

  lemma ElimFacts(free: nat, free': nat)
    ensures ElimBase(free) <= free && (ElimBase(free) == 0 <==> free < ELIMLIMIT)
    ensures free <= free' < ElimBase(free) + ELIMLIMIT ==> ElimBase(free') == ElimBase(free)
  {
  }

  lemma EquivBucket(v: Text, w: Text)
    requires Equiv(v, w)
    ensures Bucket(v) == Bucket(w)
  {
  }

  lemma HashBound(v: Text)
    ensures Hash(v) < Limit(8) && Bucket(v) == Hash(v) % 1024
  {
    Limits();
  }

  lemma FlushKept(m: seq<byte>, m': seq<byte>, free: nat, given: seq<Put>)
    requires TABLE <= free <= |m| && |m'| == |m| && m'[TABLE..] == m[TABLE..] && Kept(m, free, given)
    ensures Kept(m', free, given)
  {
    hide TextAt;
    assert m'[TABLE..free] == m'[TABLE..][..free - TABLE] && m[TABLE..free] == m[TABLE..][..free - TABLE];
    forall p | p in given ensures TextAt(m', free, p.off, p.text) {
      TextFrame(m, m', free, free, p.off, p.text);
    }
  }

  lemma LastReadable(m: seq<byte>, free: nat, x: nat, k: nat, given: seq<Put>)
    requires TABLE <= |m| && LargeOk(m, free, x, given) && Kept(m, free, given) && k < 1024 && Load(m, 8 * k, 8) != 0
    ensures var off := ElimBase(free) + Load(m, 8 * k, 8) + x; Readable(m, free, off) && IsOff(given, off)
  {
    hide TextAt, Readable, Load, ElimBase;
    assert LastOk(m, ElimBase(free), x, k, given);
    var p :| p in given && p.off == ElimBase(free) + Head(m, k) + x;
    TextReadable(m, free, p.off, p.text);
  }

  lemma MoreDedup(given: seq<Put>, p: Put, exact: nat)
    requires Dedup(given, exact)
    ensures Dedup(given + [p], exact)
  {
    hide Equiv;
  }

  lemma LastMore(m: seq<byte>, m': seq<byte>, base: nat, x: nat, k: nat, given: seq<Put>, p: Put)
    requires k < 1024 && TABLE <= |m| && TABLE <= |m'| && LastOk(m, base, x, k, given) && Head(m', k) == Head(m, k)
    ensures LastOk(m', base, x, k, given + [p])
  {
    hide Head;
    if Head(m, k) != 0 {
      var q :| q in given && q.off == base + Head(m, k) + x;
      assert q in given + [p];
    }
  }

  lemma LargeMore(m: seq<byte>, free: nat, x: nat, given: seq<Put>, p: Put)
    requires TABLE <= |m| && LargeOk(m, free, x, given)
    ensures LargeOk(m, free, x, given + [p])
  {
    hide Head;
    forall k: nat | k < 1024 ensures LastOk(m, ElimBase(free), x, k, given + [p]) {
      assert LastOk(m, ElimBase(free), x, k, given);
      LastMore(m, m, ElimBase(free), x, k, given, p);
    }
  }

  /** A string is appended from 64KB on: its bucket now names it. */
  lemma LargeInsert(m: seq<byte>, m': seq<byte>, free: nat, free': nat, x: nat, given: seq<Put>, p: Put)
    requires TABLE <= |m| && TABLE <= |m'| && LargeOk(m, free, x, given) && free <= p.off - x && p.off < free'
    requires Head(m', Bucket(p.text)) == p.off - x - ElimBase(free)
    requires forall b: nat {:trigger Head(m', b)} :: b < 1024 && b != Bucket(p.text) ==> Head(m', b) == Head(m, b)
    ensures ElimBase(free') == ElimBase(free) ==> LargeOk(m', free', x, given + [p])
  {
    hide Head, Bucket, ElimBase;
    var given', base := given + [p], ElimBase(free);
    forall k: nat | k < 1024 ensures LastOk(m', base, x, k, given') {
      assert LastOk(m, base, x, k, given);
      if k == Bucket(p.text) {
        assert p in given';
      } else {
        LastMore(m, m', base, x, k, given, p);
      }
    }
  }

  /** All words of a table of zeros are 0. */
  lemma {:induction false} LoadZero(m: seq<byte>, p: nat, w: nat)
    requires p + w <= |m| && forall i :: p <= i < p + w ==> m[i] == 0
    ensures Load(m, p, w) == 0
    decreases w
  {
    if w > 0 {
      LoadZero(m, p + 1, w - 1);
    }
  }

  lemma ZeroHeads(m: seq<byte>, k: nat)
    requires k < 1024 && TABLE <= |m| && forall i :: 0 <= i < TABLE ==> m[i] == 0
    ensures Head(m, k) == 0
  {
    LoadZero(m, 8 * k, 8);
  }

  lemma EmptyHeap(m: seq<byte>, x: nat)
    requires TABLE < |m| && forall i :: 0 <= i < TABLE ==> m[i] == 0
    ensures Kept(m, TABLE, []) && Dedup([], 0) && SmallOk(m, TABLE, x, []) && Hashed(m, TABLE, [])
  {
    hide Head;
    forall k: nat | k < 1024 ensures BucketOk(m, TABLE, x, k, []) {
      ZeroHeads(m, k);
    }
  }

  /** After a flush every bucket is empty. */
  lemma Flushed(m: seq<byte>, free: nat, x: nat, given: seq<Put>)
    requires TABLE <= |m| && forall i :: 0 <= i < TABLE ==> m[i] == 0
    ensures LargeOk(m, free, x, given)
  {
    hide Head;
    forall k: nat | k < 1024 ensures LastOk(m, ElimBase(free), x, k, given) {
      ZeroHeads(m, k);
    }
  }

  /** Moving the heap to a larger place keeps what it holds. */
  lemma Moved(m: seq<byte>, m': seq<byte>, free: nat, x: nat, given: seq<Put>)
    requires TABLE <= free <= |m| && free <= |m'| && forall i :: 0 <= i < free ==> m'[i] == m[i]
    ensures Kept(m, free, given) ==> Kept(m', free, given)
    ensures SmallOk(m, free, x, given) ==> SmallOk(m', free, x, given)
    ensures LargeOk(m, free, x, given) ==> LargeOk(m', free, x, given)
  {
    hide Head, TextAt, ChainOk, OnChain, ChainGiven;
    assert m'[TABLE..free] == m[TABLE..free];
    assert SameHeads(m, m') by {
      forall k: nat | k < 1024 ensures Head(m', k) == Head(m, k) {
        SameHead(m, m', k);
      }
    }
    if Kept(m, free, given) {
      forall p | p in given ensures TextAt(m', free, p.off, p.text) {
        TextFrame(m, m', free, free, p.off, p.text);
      }
    }
    if SmallOk(m, free, x, given) {
      MovedSmall(m, m', free, x, given);
    }
    if LargeOk(m, free, x, given) {
      forall k: nat | k < 1024 ensures LastOk(m', ElimBase(free), x, k, given) {
        assert LastOk(m, ElimBase(free), x, k, given);
      }
    }
  }

  lemma SameHead(m: seq<byte>, m': seq<byte>, k: nat)
    requires k < 1024 && TABLE <= |m| && TABLE <= |m'| && forall i :: 0 <= i < TABLE ==> m'[i] == m[i]
    ensures Head(m', k) == Head(m, k)
  {
    assert m'[8 * k..8 * k + 8] == m[8 * k..8 * k + 8];
    LoadFrame(m', 8 * k, m, 8 * k, 8);
  }

  lemma MovedSmall(m: seq<byte>, m': seq<byte>, free: nat, x: nat, given: seq<Put>)
    requires SameStrings(m, m', free) && SameHeads(m, m') && SmallOk(m, free, x, given)
    ensures SmallOk(m', free, x, given)
  {
    hide Head, ChainOk, OnChain, ChainGiven, Bucket;
    forall k: nat | k < 1024 ensures BucketOk(m', free, x, k, given) {
      assert BucketOk(m, free, x, k, given) && Head(m', k) == Head(m, k);
      ChainFrame(m, m', free, free, x, Head(m, k), k, given, given);
    }
    forall p | p in given ensures Listed(m', free, x, p) {
      assert Listed(m, free, x, p);
      assert Head(m', Bucket(p.text)) == Head(m, Bucket(p.text));
      ChainFrame(m, m', free, free, x, Head(m, Bucket(p.text)), 0, given, given);
    }
  }

  method LoadWord(base: array<byte>, p: nat) returns (r: nat)
    requires p + 8 <= base.Length
    ensures r == Load(base[..], p, 8)
  {
    r := 0;
    var i := 8;
    while i > 0
      invariant 0 <= i <= 8 && r == Load(base[..], p + i, 8 - i)
    {
      i := i - 1;
      r := base[p + i] + 256 * r;
    }
  }

  /** The string that is found is one that was put, and has the offset of all that are the same. */
  lemma FoundGiven(m: seq<byte>, free: nat, given: seq<Put>, v: Text, off: nat) returns (q: Put)
    requires Kept(m, free, given) && TextAt(m, free, off, v) && IsGiven(given, Bucket(v), off)
    ensures q in given && q.off == off && Equiv(q.text, v)
    ensures Dedup(given, |given|) ==> forall p :: p in given && Equiv(p.text, v) ==> p.off == off
  {
    hide TextAt, Bucket;
    q :| q in given && q.off == off && Bucket(q.text) == Bucket(v);
    TwoTexts(m, free, off, q.text, v);
    if Dedup(given, |given|) {
      forall p | p in given && Equiv(p.text, v) ensures p.off == off {
        assert Equiv(p.text, q.text);
      }
    }
  }

  // ----------------------------------------------------------------- writing

  ghost predicate SameHeads(m: seq<byte>, m': seq<byte>) {
    TABLE <= |m| && TABLE <= |m'| && forall b: nat {:trigger Head(m', b)} {:trigger Head(m, b)} :: b < 1024 ==>
      Head(m', b) == Head(m, b)
  }

  /** Only the bytes [p, p + w) may differ. */
  ghost predicate Differs(m: seq<byte>, m': seq<byte>, p: nat, w: nat) {
    |m'| == |m| && p + w <= |m| && m'[..p] == m[..p] && m'[p + w..] == m[p + w..]
  }

  lemma ByteOutside(m: seq<byte>, m': seq<byte>, p: nat, w: nat, i: nat)
    requires Differs(m, m', p, w) && i < |m| && (i < p || p + w <= i)
    ensures m'[i] == m[i]
  {
    if i < p {
      assert m'[..p][i] == m[..p][i];
    } else {
      assert m'[p + w..][i - p - w] == m[p + w..][i - p - w];
    }
  }

  lemma StringsOutside(m: seq<byte>, m': seq<byte>, p: nat, w: nat, free: nat)
    requires Differs(m, m', p, w) && TABLE <= free <= |m| && (free <= p || p + w <= TABLE)
    ensures SameStrings(m, m', free)
  {
    assert |m'| == |m|;
    hide Differs;
    forall i | TABLE <= i < free ensures m'[i] == m[i] {
      ByteOutside(m, m', p, w, i);
    }
  }

  lemma HeadsOutside(m: seq<byte>, m': seq<byte>, p: nat, w: nat)
    requires Differs(m, m', p, w) && TABLE <= p
    ensures SameHeads(m, m')
  {
    hide Load;
    forall b: nat | b < 1024 ensures Head(m', b) == Head(m, b) {
      Untouched(m, m', p, w, 8 * b, 8);
    }
  }

  lemma TextOutside(m: seq<byte>, m': seq<byte>, p: nat, w: nat, free: nat, pos: nat, v: Text)
    requires Differs(m, m', p, w) && TextAt(m, free, pos, v) && p + w <= pos
    ensures TextAt(m', free, pos, v)
  {
    assert |m'| == |m|;
    hide Differs;
    forall i | pos <= i < |m| ensures m'[i] == m[i] {
      ByteOutside(m, m', p, w, i);
    }
  }

  lemma SameTrans(a: seq<byte>, b: seq<byte>, c: seq<byte>, free: nat)
    requires SameStrings(a, b, free) && SameStrings(b, c, free)
    ensures SameStrings(a, c, free)
    ensures SameHeads(a, b) && SameHeads(b, c) ==> SameHeads(a, c)
  {
    hide Head;
  }

  /** memcpy of the string with its end, or of the first two bytes if it is nil. */
  method CopyText(base: array<byte>, pos: nat, v: Text, ghost free': nat)
    requires TABLE <= pos && pos + Len(v) <= free' <= base.Length
    modifies base
    ensures Differs(old(base[..]), base[..], pos, Len(v)) && TextAt(base[..], free', pos, v)
  {
    var n := Len(v);
    for i := 0 to n
      invariant base[..pos] == old(base[..pos]) && base[pos + n..] == old(base[pos + n..])
      invariant forall k :: 0 <= k < i ==> base[pos + k] == (v + [0])[k]
    {
      base[pos + i] := (v + [0])[i];
    }
    assert base[..][..pos] == old(base[..])[..pos] && base[..][pos + n..] == old(base[..])[pos + n..];
    assert base[pos + 0] == (v + [0])[0];
    if !IsNil(v) {
      forall i | pos <= i < pos + |v| ensures base[..][i] == v[i - pos] {
        assert base[pos + (i - pos)] == (v + [0])[i - pos];
      }
      assert base[..][pos..pos + |v|] == v;
      assert base[pos + |v|] == (v + [0])[|v|];
    }
  }

  /** Store, in terms of the whole memory. */
  method StoreWord(base: array<byte>, p: nat, v: nat)
    requires p + 8 <= base.Length && v < Limit(8)
    modifies base
    ensures Differs(old(base[..]), base[..], p, 8) && Load(base[..], p, 8) == v
  {
    hide Load;
    Store(base, p, v, 8);
    assert base[..][..p] == old(base[..])[..p] && base[..][p + 8..] == old(base[..])[p + 8..];
  }

  /**
   What strPut writes for a new string: the string itself, its hash value, the next pointer of
   its node below 64KB, and the bucket.
   */
  method WriteString(base: array<byte>, hashash: bool, ghost free: nat, ghost free': nat, pos: nat, v: Text, h: nat,
      k: nat, small: bool, bucket: nat)
    requires k < 1024 && h < Limit(8) && bucket < Limit(8)
    requires TABLE <= free && pos + Len(v) <= free' <= base.Length
    requires var x := if hashash then 8 else 0; free + x + (if small then 8 else 0) <= pos
    modifies base
    ensures SameStrings(old(base[..]), base[..], free) && TextAt(base[..], free', pos, v) && Head(base[..], k) == bucket
    ensures forall b: nat {:trigger Head(base[..], b)} :: b < 1024 && b != k ==>
      Head(base[..], b) == Head(old(base[..]), b)
    ensures small ==>
      var node := pos - (if hashash then 16 else 8);
      node + 8 <= base.Length && Load(base[..], node, 8) == Head(old(base[..]), k)
    ensures hashash ==> Load(base[..], pos - 8, 8) == h
  {
    hide TextAt, Load, Differs, SameStrings;
    ghost var m0 := base[..];
    CopyText(base, pos, v, free');
    ghost var m1 := base[..];
    StringsOutside(m0, m1, pos, Len(v), free);
    HeadsOutside(m0, m1, pos, Len(v));
    var p := pos;
    if hashash {
      p := p - 8;
      StoreWord(base, p, h);
    }
    ghost var m2 := base[..];
    if hashash {
      AfterStore(m0, m1, m2, p, free, free', pos, v);
    }
    ghost var m3 := m2;
    if small {
      p := p - 8;
      var next := LoadWord(base, 8 * k);
      NextIs(m0, base[..], k);
      StoreWord(base, p, next);
      m3 := base[..];
      AfterStore(m0, m2, m3, p, free, free', pos, v);
      if hashash {
        WordOutside(m2, m3, p, pos - 8);
      }
    }
    StoreWord(base, 8 * k, bucket);
    AfterBucket(m0, m3, base[..], k, free, free', pos, v, p);
    if hashash {
      WordOutside(m3, base[..], 8 * k, pos - 8);
    }
  }

  lemma WordOutside(m: seq<byte>, m': seq<byte>, p: nat, q: nat)
    requires Differs(m, m', p, 8) && q + 8 <= |m| && (q + 8 <= p || p + 8 <= q)
    ensures q + 8 <= |m'| && Load(m', q, 8) == Load(m, q, 8)
  {
    hide Load;
    Untouched(m, m', p, 8, q, 8);
  }

  lemma NextIs(m0: seq<byte>, m: seq<byte>, k: nat)
    requires SameHeads(m0, m) && k < 1024
    ensures Load(m, 8 * k, 8) == Head(m0, k) < Limit(8)
  {
    hide Load;
    assert Head(m, k) == Head(m0, k);
  }

  lemma AfterStore(m0: seq<byte>, m: seq<byte>, m': seq<byte>, p: nat, free: nat, free': nat, pos: nat, v: Text)
    requires SameStrings(m0, m, free) && SameHeads(m0, m) && TextAt(m, free', pos, v)
    requires Differs(m, m', p, 8) && free <= p && p + 8 <= pos
    ensures SameStrings(m0, m', free) && SameHeads(m0, m') && TextAt(m', free', pos, v)
  {
    assert |m'| == |m| && TABLE <= free <= |m|;
    hide TextAt, Differs, Head;
    StringsOutside(m, m', p, 8, free);
    HeadsOutside(m, m', p, 8);
    TextOutside(m, m', p, 8, free', pos, v);
    SameTrans(m0, m, m', free);
  }

  lemma AfterBucket(m0: seq<byte>, m: seq<byte>, m': seq<byte>, k: nat, free: nat, free': nat, pos: nat, v: Text,
      p: nat)
    requires SameStrings(m0, m, free) && SameHeads(m0, m) && TextAt(m, free', pos, v) && k < 1024
    requires Differs(m, m', 8 * k, 8) && free <= p
    ensures SameStrings(m0, m', free) && TextAt(m', free', pos, v) && |m'| == |m|
      && (p + 8 <= |m| ==> Load(m', p, 8) == Load(m, p, 8))
    ensures forall b: nat {:trigger Head(m', b)} :: b < 1024 && b != k ==> Head(m', b) == Head(m0, b)
  {
    assert |m'| == |m| && TABLE <= free <= |m| && TABLE <= pos;
    hide TextAt, Load;
    if p + 8 <= |m| {
      Untouched(m, m', 8 * k, 8, p, 8);
    }
    forall b: nat | b < 1024 && b != k ensures Head(m', b) == Head(m0, b) {
      Untouched(m, m', 8 * k, 8, 8 * b, 8);
      assert Head(m, b) == Head(m0, b);
    }
    hide Differs;
    StringsOutside(m, m', 8 * k, 8, free);
    TextOutside(m, m', 8 * k, 8, free', pos, v);
    hide Head;
    BothSame(m0, m, m', free);
  }

  lemma BothSame(a: seq<byte>, b: seq<byte>, c: seq<byte>, free: nat)
    requires SameStrings(a, b, free) && SameStrings(b, c, free)
    ensures SameStrings(a, c, free)
  {
  }

  // ------------------------------------------------------------- what it amounts to

  /** A string in its normal spelling: not nil, or the one byte that nil is written as. */
  predicate Canonical(v: Text) { IsNil(v) ==> v == [NILBYTE] }

  /**
   Strings put below 64KB have the same offset iff they compare equal and are in one bucket. For
   strings in their normal spelling that is iff they are the same string; for others StrEq may
   hold across buckets, and then the offsets differ.
   */
  lemma OffsetsExact(m: seq<byte>, free: nat, given: seq<Put>, exact: nat, i: nat, j: nat)
    requires Kept(m, free, given) && Dedup(given, exact) && i < exact && j < exact
    ensures given[i].off == given[j].off <==> Equiv(given[i].text, given[j].text)
    ensures Canonical(given[i].text) && Canonical(given[j].text) ==>
      (given[i].off == given[j].off <==> given[i].text == given[j].text)
  {
    hide TextAt, Bucket;
    assert given[i] in given && given[j] in given;
    if given[i].off == given[j].off {
      TwoTexts(m, free, given[i].off, given[i].text, given[j].text);
    }
    assert given[i].text == given[j].text ==> Equiv(given[i].text, given[j].text);
  }

  /** At any time, one offset is never given to strings that compare different. */
  lemma OffsetsSound(m: seq<byte>, free: nat, given: seq<Put>, i: nat, j: nat)
    requires Kept(m, free, given) && i < |given| && j < |given| && given[i].off == given[j].off
    ensures StrEq(given[i].text, given[j].text)
  {
    hide TextAt;
    assert given[i] in given && given[j] in given;
    TwoTexts(m, free, given[i].off, given[i].text, given[j].text);
  }

  /**
   The hash value that is stored before a string, and that hash tables on the column are built
   with, is that of the string. For nil it is that of a spelling of nil which was given this offset.
   */
  lemma StoredHash(m: seq<byte>, free: nat, given: seq<Put>, i: nat)
    requires Kept(m, free, given) && Hashed(m, free, given) && i < |given|
    ensures var p := given[i];
      && 8 <= p.off <= |m|
      && (!IsNil(p.text) ==> Load(m, p.off - 8, 8) == Hash(p.text))
      && exists j :: 0 <= j < |given| && given[j].off == p.off && Load(m, p.off - 8, 8) == Hash(given[j].text)
           && StrEq(given[j].text, p.text)
  {
    hide TextAt, Load, Hash;
    var p := given[i];
    assert p in given && HashAt(m, free, given, p.off);
    var q :| q in given && q.off == p.off && Load(m, p.off - 8, 8) == Hash(q.text);
    TwoTexts(m, free, p.off, p.text, q.text);
    var j :| 0 <= j < |given| && given[j] == q;
  }

  /** If nil is put in its normal spelling only, every stored value is the hash of the string. */
  lemma StoredHashes(m: seq<byte>, free: nat, given: seq<Put>, i: nat)
    requires Kept(m, free, given) && Hashed(m, free, given) && i < |given|
    requires forall j :: 0 <= j < |given| ==> Canonical(given[j].text)
    ensures 8 <= given[i].off <= |m| && Load(m, given[i].off - 8, 8) == Hash(given[i].text)
  {
    hide TextAt, Load, Hash, Kept, Hashed;
    StoredHash(m, free, given, i);
  }

  const NIL: Text := [NILBYTE]

  const OTHER_NIL: Text := [NILBYTE, 1]

  /** Spellings of nil that compare equal can be in different buckets. */
  lemma OddNil()
    ensures StrEq(NIL, OTHER_NIL) && !Equiv(NIL, OTHER_NIL)
  {
    assert OTHER_NIL[..1] == NIL && NIL[..0] == [];
    assert HashChars(NIL) == HashStep(0, NILBYTE);
    assert HashChars(OTHER_NIL) == HashStep(HashStep(0, NILBYTE), 1);
  }

  /** A run: two spellings of nil are put into an empty heap, and it stores them both. */
  method NilStoredTwice(hashash: bool) returns (off1: nat, off2: nat)
    ensures off1 != 0 && off2 != 0 && off1 != off2 && StrEq(NIL, OTHER_NIL)
  {
    hide Hash, Kept, Dedup, SmallOk, LargeOk, Equiv;
    Limits();
    var heap := new Heap(hashash, 1024, 0);
    off1 := heap.PutString(NIL, true);
    off2 := heap.PutString(OTHER_NIL, true);
    OddNil();
    OffsetsExact(heap.base[..], heap.free, heap.given, heap.exact, 0, 1);
  }
}
