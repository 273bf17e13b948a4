/** Node lists and bucket chains of the intrusive hash table in src/uthash.h. */
module Chains {
  import opened Bits
  import opened StreamRecord

  /** `UT_hash_bucket` */
  datatype Bucket = Bucket(hhHead: Stream?, count: nat, expandMult: nat)

  const EMPTY_BUCKET := Bucket(null, 0, 0)

  // ----- Lists of nodes

  ghost function Nth(s: seq<Stream>, i: int): Stream? {
    if 0 <= i < |s| then s[i] else null
  }

  /** Marks an index; quantifiers triggered by it are only used where a proof asks for them. */
  ghost predicate At(i: int) {
    true
  }

  ghost predicate NoDup<T>(s: seq<T>) {
    forall i, j {:trigger At(i), At(j)} :: 0 <= i < j < |s| ==> s[i] != s[j]
  }

  lemma NoDupElim<T>(s: seq<T>)
    requires NoDup(s)
    ensures forall i, j :: 0 <= i < j < |s| ==> s[i] != s[j]
  {
    forall i, j | 0 <= i < j < |s|
      ensures s[i] != s[j]
    {
      assert At(i) && At(j);
    }
  }

  /** The insertion-order list: `prev` and `next` follow s, with null at both ends. */
  ghost predicate ListLinked(s: seq<Stream>)
    reads s`next, s`prev
  {
    && (forall i {:trigger s[i].next} :: 0 <= i < |s| ==> s[i].next == Nth(s, i + 1))
    && (forall i {:trigger s[i].prev} :: 0 <= i < |s| ==> s[i].prev == Nth(s, i - 1))
  }

  /** A bucket chain: `hhPrev` and `hhNext` follow c. */
  ghost predicate ChainLinked(c: seq<Stream>)
    reads c`hhNext, c`hhPrev
  {
    && (forall i {:trigger c[i].hhNext} :: 0 <= i < |c| ==> c[i].hhNext == Nth(c, i + 1))
    && (forall i {:trigger c[i].hhPrev} :: 0 <= i < |c| ==> c[i].hhPrev == Nth(c, i - 1))
  }

  ghost function Elems<T>(s: seq<T>): set<T> {
    set x | x in s
  }

  lemma Position<T>(s: seq<T>, x: T) returns (k: nat)
    requires x in s
    ensures k < |s| && s[k] == x
  {
    k :| k < |s| && s[k] == x;
  }

  ghost function Without<T>(s: seq<T>, k: nat): seq<T>
    requires k < |s|
  {
    s[..k] + s[k + 1..]
  }

  lemma {:induction false} CountInNoDup<T>(s: seq<T>, x: T)
    requires NoDup(s)
    ensures multiset(s)[x] <= 1
  {
    if s != [] {
      NoDupElim(s);
      var r := s[..|s| - 1];
      CountInNoDup(r, x);
      assert s == r + [s[|s| - 1]];
      if s[|s| - 1] == x {
        assert x !in r;
      }
    }
  }

  /** A rearrangement has the same elements, and duplicates nothing. */
  lemma NoDupPermuted<T>(s: seq<T>, t: seq<T>)
    requires NoDup(s) && multiset(s) == multiset(t)
    ensures NoDup(t) && Elems(t) == Elems(s) && |t| == |s|
  {
    forall i, j | 0 <= i < j < |t|
      ensures t[i] != t[j]
    {
      var x := t[i];
      CountInNoDup(s, x);
      assert t == t[..j] + [t[j]] + t[j + 1..];
      assert multiset(t)[x] == multiset(t[..j])[x] + multiset([t[j]])[x] + multiset(t[j + 1..])[x];
      assert t[..j][i] == x && x in multiset(t[..j]);
    }
    forall x
      ensures x in s <==> x in t
    {
      assert x in multiset(s) <==> x in multiset(t);
    }
    assert |multiset(s)| == |s| && |multiset(t)| == |t|;
  }

  /** The last element of a list without duplicates occurs there only; removing it leaves the rest. */
  lemma LastPosition<T>(s: seq<T>)
    requires NoDup(s) && s != []
    ensures forall k :: 0 <= k < |s| && s[k] == s[|s| - 1] ==> Without(s, k) == s[..|s| - 1]
  {
    NoDupElim(s);
    assert Without(s, |s| - 1) == s[..|s| - 1];
  }

  lemma WithoutElems<T>(s: seq<T>, k: nat)
    requires k < |s| && NoDup(s)
    ensures NoDup(Without(s, k))
    ensures forall x :: x in Without(s, k) <==> x in s && x != s[k]
    ensures Elems(Without(s, k)) == Elems(s) - {s[k]}
  {
    var w := Without(s, k);
    NoDupElim(s);
    forall x | x in s && x != s[k]
      ensures x in w
    {
      var i := Position(s, x);
      assert w[if i < k then i else i - 1] == x;
    }
  }

  /** The not yet walked part of a chain is still reachable. */
  ghost predicate Forward(c: seq<Stream>, j: nat)
    reads c`hhNext
  {
    forall k {:trigger c[k].hhNext} :: j <= k < |c| ==> c[k].hhNext == Nth(c, k + 1)
  }

  /** The insertion order fixes all `prev` and `next` links. */
  twostate lemma SameListLinks(s: seq<Stream>)
    requires old(ListLinked(s)) && ListLinked(s)
    ensures unchanged(s`next, s`prev)
  {
    forall n | n in s
      ensures n.next == old(n.next) && n.prev == old(n.prev)
    {
      var i: int := Position(s, n);
      assert s[i].next == Nth(s, i + 1) && s[i].prev == Nth(s, i - 1);
      assert old(s[i].next) == Nth(s, i + 1) && old(s[i].prev) == Nth(s, i - 1);
    }
  }

  /** The chains fix all `hhPrev` and `hhNext` links. */
  twostate lemma SameChainLinks(c: seq<Stream>)
    requires old(ChainLinked(c)) && ChainLinked(c)
    ensures unchanged(c`hhNext, c`hhPrev)
  {
    forall n | n in c
      ensures n.hhNext == old(n.hhNext) && n.hhPrev == old(n.hhPrev)
    {
      var i: int := Position(c, n);
      assert c[i].hhNext == Nth(c, i + 1) && c[i].hhPrev == Nth(c, i - 1);
      assert old(c[i].hhNext) == Nth(c, i + 1) && old(c[i].hhPrev) == Nth(c, i - 1);
    }
  }

  // ----- Chains

  /** `HASH_TO_BKT` */
  function ToBkt(hashv: Word, numBuckets: nat): nat
    requires numBuckets > 0
  {
    And(hashv, numBuckets - 1)
  }

  /** Every chain member sits in the bucket its hash value selects. */
  ghost predicate Placed(cs: seq<seq<Stream>>, hash: Word -> Word) {
    forall b, n {:trigger n in cs[b]} :: 0 <= b < |cs| && n in cs[b] ==> ToBkt(hash(n.id), |cs|) == b
  }

  /** Members of different chains differ. */
  lemma OthersKept(cs: seq<seq<Stream>>, b: nat, hash: Word -> Word)
    requires Placed(cs, hash) && b < |cs|
    ensures forall i, l {:trigger cs[i][l]} :: 0 <= i < |cs| && i != b && 0 <= l < |cs[i]| ==> cs[i][l] !in cs[b]
  {
    forall i, l {:trigger cs[i][l]} | 0 <= i < |cs| && i != b && 0 <= l < |cs[i]|
      ensures cs[i][l] !in cs[b]
    {
      assert cs[i][l] in cs[i];
    }
  }

  /** A node missing from the bucket it belongs in is in no chain. */
  lemma Absent(cs: seq<seq<Stream>>, b: nat, hash: Word -> Word, n: Stream)
    requires Placed(cs, hash) && b < |cs| && ToBkt(hash(n.id), |cs|) == b && n !in cs[b]
    ensures forall i, l {:trigger cs[i][l]} :: 0 <= i < |cs| && 0 <= l < |cs[i]| ==> cs[i][l] != n
  {
    forall i, l {:trigger cs[i][l]} | 0 <= i < |cs| && 0 <= l < |cs[i]|
      ensures cs[i][l] != n
    {
      assert cs[i][l] in cs[i];
    }
  }

  /** The chains are duplicate free, linked, and headed by their buckets; all members are among nodes. */
  ghost predicate Family(bs: array<Bucket>, cs: seq<seq<Stream>>, nodes: set<Stream>)
    reads bs, nodes`hhNext, nodes`hhPrev
  {
    && |cs| == bs.Length
    && (forall b, k {:trigger cs[b][k]} :: 0 <= b < |cs| && 0 <= k < |cs[b]| ==> cs[b][k] in nodes)
    && (forall b :: 0 <= b < |cs| ==> NoDup(cs[b]) && ChainLinked(cs[b]) && bs[b].hhHead == Nth(cs[b], 0))
  }

  /** Links a node before the first of a chain. */
  method Prepend(n: Stream, first: Stream?, ghost c: seq<Stream>)
    requires NoDup(c) && ChainLinked(c) && first == Nth(c, 0) && n !in c
    modifies n`hhNext, n`hhPrev, c`hhPrev
    ensures NoDup([n] + c) && ChainLinked([n] + c)
  {
    NoDupElim(c);
    n.hhNext := first;
    n.hhPrev := null;
    if first != null {
      first.hhPrev := n;
    }
  }

  /** Links a detached node in front of chain b. */
  method PushFront(bs: array<Bucket>, b: nat, n: Stream,
                   ghost cs: seq<seq<Stream>>, ghost nodes: set<Stream>, ghost hash: Word -> Word)
    returns (ghost cs': seq<seq<Stream>>)
    requires Family(bs, cs, nodes) && Placed(cs, hash)
    requires b < bs.Length && ToBkt(hash(n.id), bs.Length) == b
    requires n in nodes && n !in cs[b]
    modifies bs, n`hhNext, n`hhPrev, cs[b]`hhPrev
    ensures cs' == cs[b := [n] + cs[b]]
    ensures Family(bs, cs', nodes) && Placed(cs', hash)
    ensures bs[b] == old(bs[b]).(hhHead := n)
    ensures forall i :: 0 <= i < bs.Length && i != b ==> bs[i] == old(bs[i])
  {
    OthersKept(cs, b, hash);
    Absent(cs, b, hash, n);
    Prepend(n, bs[b].hhHead, cs[b]);
    bs[b] := bs[b].(hhHead := n);
    cs' := cs[b := [n] + cs[b]];
  }

  /** Routes a chain around its k-th member; a detached node has nothing to route around. */
  method Bypass(n: Stream, ghost c: seq<Stream>, ghost k: int)
    requires 0 <= k ==> NoDup(c) && ChainLinked(c) && k < |c| && c[k] == n
    requires k < 0 ==> n.hhNext == null && n.hhPrev == null
    modifies c`hhNext, c`hhPrev
    ensures 0 <= k ==> NoDup(Without(c, k)) && ChainLinked(Without(c, k))
    ensures n.hhNext == old(n.hhNext) && n.hhPrev == old(n.hhPrev)
    ensures k < 0 ==> forall x :: x in c ==> x.hhNext == old(x.hhNext) && x.hhPrev == old(x.hhPrev)
  {
    if 0 <= k {
      NoDupElim(c);
      WithoutElems(c, k);
    }
    if n.hhPrev != null {
      n.hhPrev.hhNext := n.hhNext;
    }
    if n.hhNext != null {
      n.hhNext.hhPrev := n.hhPrev;
    }
  }

  /** `HASH_DEL_IN_BKT`: unlinks the k-th member of chain b, or just uncounts a node that is already detached. */
  method DelInBkt(bs: array<Bucket>, b: nat, n: Stream,
                  ghost cs: seq<seq<Stream>>, ghost k: int, ghost nodes: set<Stream>, ghost hash: Word -> Word)
    returns (ghost cs': seq<seq<Stream>>)
    requires Family(bs, cs, nodes) && Placed(cs, hash)
    requires b < bs.Length && bs[b].count > 0
    requires 0 <= k ==> k < |cs[b]| && cs[b][k] == n
    requires k < 0 ==> bs[b].hhHead != n && n.hhNext == null && n.hhPrev == null
    modifies bs, cs[b]`hhNext, cs[b]`hhPrev
    ensures cs' == if 0 <= k then cs[b := Without(cs[b], k)] else cs
    ensures Family(bs, cs', if 0 <= k then nodes - {n} else nodes) && Placed(cs', hash)
    ensures n.hhNext == old(n.hhNext) && n.hhPrev == old(n.hhPrev)
    ensures k < 0 ==> forall x :: x in cs[b] ==> x.hhNext == old(x.hhNext) && x.hhPrev == old(x.hhPrev)
    ensures bs[b] == old(bs[b]).(hhHead := Nth(cs'[b], 0), count := old(bs[b]).count - 1)
    ensures forall i :: 0 <= i < bs.Length && i != b ==> bs[i] == old(bs[i])
  {
    bs[b] := bs[b].(count := bs[b].count - 1);
    if bs[b].hhHead == n {
      bs[b] := bs[b].(hhHead := n.hhNext);
    }
    Bypass(n, cs[b], k);
    if 0 <= k {
      cs' := cs[b := Without(cs[b], k)];
      WithoutElems(cs[b], k);
      OthersKept(cs, b, hash);
    } else {
      cs' := cs;
    }
  }

  /** A non-empty insertion-order list with its two ends. */
  ghost predicate ListHeld(s: seq<Stream>, head: Stream?, tail: Stream)
    reads s`next, s`prev
  {
    s != [] && NoDup(s) && ListLinked(s) && head == s[0] && tail == s[|s| - 1]
  }

  /** Links a new node behind the tail. */
  method LinkLast(tail: Stream, add: Stream, ghost s: seq<Stream>, ghost head: Stream?)
    requires ListHeld(s, head, tail) && add !in s
    modifies add`next, add`prev, tail`next
    ensures ListHeld(s + [add], head, add)
  {
    NoDupElim(s);
    add.next := null;
    add.prev := tail;
    tail.next := add;
  }

  /** A node without neighbours is the whole list. */
  lemma OnlyNode(s: seq<Stream>, n: Stream)
    requires ListLinked(s) && n in s
    ensures n.prev == null && n.next == null <==> s == [n]
  {
    var k: int := Position(s, n);
    assert s[k].prev == Nth(s, k - 1) && s[k].next == Nth(s, k + 1);
  }

  lemma OnlyHeld(s: seq<Stream>, head: Stream?, tail: Stream, n: Stream)
    requires ListHeld(s, head, tail) && n in s
    ensures n.prev == null && n.next == null <==> s == [n]
  {
    OnlyNode(s, n);
  }

  /** Routes the insertion-order list around its k-th element. */
  method BypassList(n: Stream, ghost s: seq<Stream>, ghost k: nat)
    requires NoDup(s) && ListLinked(s) && k < |s| && s[k] == n
    modifies s`next, s`prev
    ensures ListLinked(Without(s, k))
    ensures n.next == old(n.next) && n.prev == old(n.prev)
  {
    NoDupElim(s);
    if n.prev != null {
      n.prev.next := n.next;
    }
    if n.next != null {
      n.next.prev := n.prev;
    }
  }

  // ----- Counting

  lemma {:induction false} CardElems<T>(s: seq<T>)
    requires NoDup(s)
    ensures |Elems(s)| == |s|
  {
    NoDupElim(s);
    if s != [] {
      var r, x := s[..|s| - 1], s[|s| - 1];
      CardElems(r);
      assert s == r + [x];
      assert Elems(s) == Elems(r) + {x} && x !in r;
    }
  }

  /** The number of nodes in the first n chains. */
  ghost function Total(cs: seq<seq<Stream>>, n: nat): nat
    requires n <= |cs|
  {
    if n == 0 then 0 else Total(cs, n - 1) + |cs[n - 1]|
  }

  ghost function Gathered(cs: seq<seq<Stream>>, n: nat): set<Stream>
    requires n <= |cs|
  {
    if n == 0 then {} else Gathered(cs, n - 1) + Elems(cs[n - 1])
  }

  lemma {:induction false} GatheredFrom(cs: seq<seq<Stream>>, n: nat, x: Stream)
    requires n <= |cs|
    ensures x in Gathered(cs, n) <==> exists b :: 0 <= b < n && x in cs[b]
  {
    if n > 0 {
      GatheredFrom(cs, n - 1, x);
    }
  }

  lemma DisjointCard<T>(a: set<T>, b: set<T>)
    requires forall x :: x in b ==> x !in a
    ensures |a + b| == |a| + |b|
  {
    assert a !! b;
  }

  lemma NotYetGathered(cs: seq<seq<Stream>>, hash: Word -> Word, n: nat, c: seq<Stream>)
    requires Placed(cs, hash) && n < |cs| && c == cs[n]
    ensures forall x :: x in Elems(c) ==> x !in Gathered(cs, n)
  {
    forall x | x in Elems(c)
      ensures x !in Gathered(cs, n)
    {
      GatheredFrom(cs, n, x);
    }
  }

  lemma {:induction false} TotalIsCard(cs: seq<seq<Stream>>, hash: Word -> Word, n: nat)
    requires Placed(cs, hash) && n <= |cs| && forall b :: 0 <= b < |cs| ==> NoDup(cs[b])
    ensures Total(cs, n) == |Gathered(cs, n)|
  {
    hide Elems, Placed, NoDup;
    if n > 0 {
      var c := cs[n - 1];
      TotalIsCard(cs, hash, n - 1);
      CardElems(c);
      NotYetGathered(cs, hash, n - 1, c);
      DisjointCard(Gathered(cs, n - 1), Elems(c));
    }
  }

  // ----- Lookup

  /** The first chain member with the given key. */
  ghost function FirstWith(c: seq<Stream>, key: Word): Stream? {
    if c == [] then null else if c[0].id == key then c[0] else FirstWith(c[1..], key)
  }

  lemma {:induction false} FirstWithFinds(c: seq<Stream>, key: Word)
    ensures var r := FirstWith(c, key); r != null ==> r in c && r.id == key
    ensures FirstWith(c, key) == null <==> forall n :: n in c ==> n.id != key
  {
    if c != [] {
      assert c == [c[0]] + c[1..];
      FirstWithFinds(c[1..], key);
    }
  }

  // ----- Rehashing

  /** The bucket of the smaller table that feeds bucket b of the doubled one. */
  function Source(b: nat, n: nat): nat {
    if b < n then b else b - n
  }

  /** What one old chain contributes to new bucket b of m: its members for b, each pushed on the front. */
  ghost function Picked(c: seq<Stream>, hash: Word -> Word, m: nat, b: nat): seq<Stream>
    requires m > 0
  {
    if c == [] then []
    else
      var x := c[|c| - 1];
      var r := Picked(c[..|c| - 1], hash, m, b);
      if ToBkt(hash(x.id), m) == b then [x] + r else r
  }

  /** The chains after doubling. */
  ghost predicate Rehashed(cs: seq<seq<Stream>>, cs': seq<seq<Stream>>, hash: Word -> Word) {
    && |cs'| == 2 * |cs|
    && forall b {:trigger cs'[b]} :: 0 <= b < |cs'| ==> cs'[b] == Picked(cs[Source(b, |cs|)], hash, |cs'|, b)
  }

  /** The next hash bit decides between the two new buckets an old bucket splits into. */
  lemma BktDouble(h: Word, k: nat)
    ensures ToBkt(h, Pow2(k)) < Pow2(k)
    ensures ToBkt(h, Pow2(k + 1)) == ToBkt(h, Pow2(k)) + (if Shr(h, k) % 2 == 1 then Pow2(k) else 0)
    ensures Source(ToBkt(h, Pow2(k + 1)), Pow2(k)) == ToBkt(h, Pow2(k))
  {
    MaskBound(h, k);
    MaskOneMore(h, k);
  }

  /** The bucket of a hash value is its remainder. */
  lemma BktIsRemainder(h: Word, k: nat)
    ensures ToBkt(h, Pow2(k)) == h % Pow2(k)
  {
    hide Pow2, And, Shr;
    ShiftAndMask(h, k);
  }

  /** The bucket of a node in a table of 2^k buckets. */
  function ToBktIn(hash: Word -> Word, n: Stream, k: nat): (b: nat)
    ensures b < Pow2(k)
  {
    MaskBound(hash(n.id), k);
    ToBkt(hash(n.id), Pow2(k))
  }

  lemma {:induction false} PickedMember(c: seq<Stream>, hash: Word -> Word, m: nat, b: nat, x: Stream)
    requires m > 0
    ensures x in Picked(c, hash, m, b) <==> x in c && ToBkt(hash(x.id), m) == b
  {
    if c != [] {
      var c' := c[..|c| - 1];
      PickedMember(c', hash, m, b, x);
      assert c == c' + [c[|c| - 1]];
    }
  }

  /** Pushing one more member of the old chain. */
  lemma PickedSnoc(c: seq<Stream>, j: nat, hash: Word -> Word, m: nat, b: nat)
    requires m > 0 && j < |c|
    ensures Picked(c[..j + 1], hash, m, b) ==
      if ToBkt(hash(c[j].id), m) == b then [c[j]] + Picked(c[..j], hash, m, b) else Picked(c[..j], hash, m, b)
  {
    assert c[..j + 1][..j] == c[..j];
  }

  /** The part of old chain r already moved when chain i has been walked up to its j-th member. */
  ghost function Taken(cs: seq<seq<Stream>>, i: nat, j: nat, r: nat): seq<Stream>
    requires r < |cs| && (i < |cs| ==> j <= |cs[i]|)
  {
    if r < i then cs[r] else if r == i then cs[i][..j] else []
  }

  ghost predicate Redistributed(cs: seq<seq<Stream>>, nc: seq<seq<Stream>>, i: nat, j: nat, hash: Word -> Word)
    requires i < |cs| ==> j <= |cs[i]|
  {
    && |nc| == 2 * |cs|
    && forall b {:trigger nc[b]} :: 0 <= b < |nc| ==> nc[b] == Picked(Taken(cs, i, j, Source(b, |cs|)), hash, |nc|, b)
  }

  /** The first i old chains have been moved. */
  ghost predicate Moved(cs: seq<seq<Stream>>, nc: seq<seq<Stream>>, i: nat, hash: Word -> Word) {
    if i < |cs| then Redistributed(cs, nc, i, 0, hash) else Rehashed(cs, nc, hash)
  }

  lemma RedistributeNode(cs: seq<seq<Stream>>, nc: seq<seq<Stream>>, i: nat, j: nat, hash: Word -> Word, k: nat)
    requires |cs| == Pow2(k) && i < |cs| && j < |cs[i]|
    requires Placed(cs, hash) && NoDup(cs[i]) && Redistributed(cs, nc, i, j, hash)
    ensures var b := ToBkt(hash(cs[i][j].id), |nc|);
      b < |nc| && cs[i][j] !in nc[b] && Redistributed(cs, nc[b := [cs[i][j]] + nc[b]], i, j + 1, hash)
    ensures forall l :: j < l < |cs[i]| ==> cs[i][l] != cs[i][j]
  {
    NoDupElim(cs[i]);
    var x, m := cs[i][j], |nc|;
    var b := ToBkt(hash(x.id), m);
    assert x in cs[i];
    BktDouble(hash(x.id), k);
    assert b < m && Source(b, |cs|) == i;
    PickedMember(cs[i][..j], hash, m, b, x);
    var nc' := nc[b := [x] + nc[b]];
    forall b' {:trigger nc'[b']} | 0 <= b' < m
      ensures nc'[b'] == Picked(Taken(cs, i, j + 1, Source(b', |cs|)), hash, m, b')
    {
      if Source(b', |cs|) == i {
        PickedSnoc(cs[i], j, hash, m, b');
      }
      assert nc[b'] == Picked(Taken(cs, i, j, Source(b', |cs|)), hash, m, b');
    }
  }

  /** No node is lost or duplicated by rehashing: each is still exactly in the chain it hashes to. */
  lemma RehashedMember(cs: seq<seq<Stream>>, nc: seq<seq<Stream>>, hash: Word -> Word, k: nat, n: Stream)
    requires |cs| == Pow2(k) && Rehashed(cs, nc, hash)
    requires n in cs[ToBktIn(hash, n, k)]
    ensures ToBktIn(hash, n, k + 1) < |nc| && n in nc[ToBktIn(hash, n, k + 1)]
  {
    BktDouble(hash(n.id), k);
    var b := ToBktIn(hash, n, k + 1);
    PickedMember(cs[Source(b, |cs|)], hash, |nc|, b, n);
  }

  lemma RedistributeNext(cs: seq<seq<Stream>>, nc: seq<seq<Stream>>, i: nat, hash: Word -> Word)
    requires i < |cs| && Redistributed(cs, nc, i, |cs[i]|, hash)
    ensures Moved(cs, nc, i + 1, hash)
  {
    forall b | 0 <= b < |nc|
      ensures nc[b] == Picked(Taken(cs, i + 1, 0, Source(b, |cs|)), hash, |nc|, b)
    {
      assert cs[i][..|cs[i]|] == cs[i];
    }
  }

  /** Chain members counted beyond the ideal length, over all chains. */
  ghost function Overflow(cs: seq<seq<Stream>>, ideal: nat): nat {
    if cs == [] then 0
    else Overflow(cs[..|cs| - 1], ideal) + Excess(|cs[|cs| - 1]|, ideal)
  }

  function Excess(count: nat, ideal: nat): nat {
    if count > ideal then count - ideal else 0
  }

  /** What each chain adds: its members beyond the ideal length. */
  lemma OverflowIs(cs: seq<seq<Stream>>, c: seq<Stream>, ideal: nat)
    ensures Overflow([], ideal) == 0
    ensures Overflow(cs + [c], ideal) == Overflow(cs, ideal) + if |c| > ideal then |c| - ideal else 0
  {
    assert (cs + [c])[..|cs|] == cs;
  }

  lemma {:induction false} OverflowUpdate(cs: seq<seq<Stream>>, b: nat, c: seq<Stream>, ideal: nat)
    requires b < |cs|
    ensures Overflow(cs[b := c], ideal) == Overflow(cs, ideal) - Excess(|cs[b]|, ideal) + Excess(|c|, ideal)
  {
    var last := |cs| - 1;
    if b == last {
      assert cs[b := c][..last] == cs[..last];
    } else {
      assert cs[b := c][..last] == cs[..last][b := c];
      OverflowUpdate(cs[..last], b, c, ideal);
    }
  }

  lemma {:induction false} OverflowEmpty(cs: seq<seq<Stream>>, ideal: nat)
    requires forall b :: 0 <= b < |cs| ==> cs[b] == []
    ensures Overflow(cs, ideal) == 0
  {
    if cs != [] {
      OverflowEmpty(cs[..|cs| - 1], ideal);
    }
  }

  /** The `expand_mult` of a bucket whose members all arrived in one redistribution. */
  ghost predicate Multiplied(count: nat, expandMult: nat, ideal: nat) {
    if count <= ideal then expandMult == 0
    else if ideal == 1 then expandMult == count - 1
    else if count == ideal + 1 then expandMult == 1
    else expandMult >= 2 && Times(expandMult - 1, ideal) < count <= Times(expandMult, ideal)
  }

  /** In numbers: none up to the ideal length, one for the next member, and from then on the rounded-up
      multiple of the ideal length (with ideal length 1 it lags one behind). */
  lemma MultiplierIs(count: nat, expandMult: nat, ideal: nat)
    requires ideal > 0
    ensures var m :=
        if count <= ideal then 0
        else if ideal == 1 then count - 1
        else if count == ideal + 1 then 1
        else (count - 1) / ideal + 1;
      Multiplied(count, expandMult, ideal) <==> expandMult == m
  {
    if count > ideal + 1 && ideal > 1 {
      MultiplierCeil(count, expandMult, ideal);
    }
  }

  lemma MultiplierCeil(count: nat, m: nat, ideal: nat)
    requires 1 < ideal && ideal + 1 < count
    ensures (m >= 2 && Times(m - 1, ideal) < count <= Times(m, ideal)) <==> m == (count - 1) / ideal + 1
  {
    hide Times;
    var q, r := (count - 1) / ideal, (count - 1) % ideal;
    TimesIsProduct(q, ideal);
    TimesIsProduct(q + 1, ideal);
    assert q >= 1 && q * ideal < count <= q * ideal + ideal;
    if m >= 2 {
      TimesIsProduct(m - 1, ideal);
      TimesIsProduct(m, ideal);
      if Times(m - 1, ideal) < count <= Times(m, ideal) {
        Divided(count - 1, m - 1, count - 1 - (m - 1) * ideal, ideal);
      }
    }
  }

  /** So a bucket's count stays below one more multiple of the ideal length than its multiplier. */
  lemma MultiplierBounds(count: nat, expandMult: nat, ideal: nat)
    requires ideal > 0 && Multiplied(count, expandMult, ideal)
    ensures count <= (expandMult + 1) * ideal
  {
    TimesIsProduct(expandMult + 1, ideal);
    TimesIsProduct(expandMult, ideal);
    OneMoreTime(expandMult, ideal);
  }

  lemma OneMoreTime(p: nat, q: nat)
    ensures Times(p + 1, q) == Times(p, q) + q && (q == 1 ==> Times(p, q) == p)
  {
    TimesIsProduct(p, q);
  }

  /** q is n / d rounded up. */
  ghost predicate IsCeil(q: nat, n: nat, d: nat) {
    Times(d, q) >= n && (q > 0 ==> Times(d, q - 1) < n)
  }

  lemma CeilIs(q: nat, n: nat, d: nat)
    requires d > 0
    ensures IsCeil(q, n, d) <==> q == (n + d - 1) / d
  {
    hide Times;
    var c, r := (n + d - 1) / d, (n + d - 1) % d;
    TimesIsProduct(d, c);
    assert c * d <= n + d - 1 < c * d + d;
    TimesIsProduct(d, q);
    if q > 0 {
      TimesIsProduct(d, q - 1);
      assert d * (q - 1) == d * q - d;
    }
    if IsCeil(q, n, d) {
      Divided(n + d - 1, q, n + d - 1 - q * d, d);
    }
  }

  lemma IdealIsCeil(n: nat, k: nat, q: nat)
    requires q == Shr(n, k) + (if And(n, Pow2(k) - 1) != 0 then 1 else 0)
    ensures IsCeil(q, n, Pow2(k))
    ensures n > 0 ==> q > 0
  {
    SplitAt(n, k);
    MaskBound(n, k);
    var p, s := Pow2(k), Shr(n, k);
    TimesSucc(p, s);
    if s > 0 {
      TimesSucc(p, s - 1);
    } else {
      TimesIsProduct(p, 0);
    }
  }
}
