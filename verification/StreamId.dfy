/** Stream ids: the exclusive or of djb2 hashes (include/aggregator/aggregator-common.h). */
module StreamId {
  import opened Bits

  /** A character of a C string, which cannot be NUL. */
  type Octet = x: nat | 0 < x < 256 witness 1
  type CString = seq<Octet>

  /** The `uint32_t` a `char` is assigned to: whether `char` is signed depends on the platform. */
  function CharValue(c: Octet, signedChar: bool): Word {
    if signedChar && c >= 128 then c + 0xFFFF_FF00 else c
  }

  /** `((hash << 5) + hash) + c` in 32 bits */
  function Mix(hash: Word, c: Word): Word {
    ((hash * 32) % WORD_MODULUS + hash + c) % WORD_MODULUS
  }

  /** The hash of a string, one character at a time. */
  function Djb2(s: CString, signedChar: bool): Word {
    if s == [] then 5381 else Mix(Djb2(s[..|s| - 1], signedChar), CharValue(s[|s| - 1], signedChar))
  }

  /** The unreduced polynomial in 33 that the hash evaluates. */
  function Poly33(s: CString, signedChar: bool): nat {
    if s == [] then 5381 else Poly33(s[..|s| - 1], signedChar) * 33 + CharValue(s[|s| - 1], signedChar)
  }

  lemma MixMod(p: nat, c: Word)
    ensures Mix(p % WORD_MODULUS, c) == (p * 33 + c) % WORD_MODULUS
  {
    var q, r := p / 0x1_0000_0000, p % 0x1_0000_0000;
    var t, u := (r * 32) / 0x1_0000_0000, (r * 32) % 0x1_0000_0000;
    AddMultiple(u + r + c, t);
    AddMultiple(r * 33 + c, q * 33);
  }

  /** The hash is the polynomial modulo 2^32: reducing at every step loses nothing. */
  lemma {:induction false} Djb2IsPoly(s: CString, signedChar: bool)
    ensures Djb2(s, signedChar) == Poly33(s, signedChar) % WORD_MODULUS
  {
    if s != [] {
      Djb2IsPoly(s[..|s| - 1], signedChar);
      MixMod(Poly33(s[..|s| - 1], signedChar), CharValue(s[|s| - 1], signedChar));
    }
  }

  /** `aggregator_hash` */
  method Hash(str: CString, signedChar: bool) returns (hash: Word)
    ensures hash == Djb2(str, signedChar)
  {
    hash := 5381;
    var i := 0;
    while i < |str|
      invariant i <= |str| && hash == Djb2(str[..i], signedChar)
    {
      assert str[..i + 1][..i] == str[..i];
      hash := Mix(hash, CharValue(str[i], signedChar));
      i := i + 1;
    }
    assert str[..i] == str;
  }

  /** The exclusive or of the hashes of some strings. */
  function XorAll(xs: seq<CString>, signedChar: bool): Word {
    if xs == [] then 0 else XorWord(XorAll(xs[..|xs| - 1], signedChar), Djb2(xs[|xs| - 1], signedChar))
  }

  function IdOf(ns: CString, name: CString, tags: seq<CString>, signedChar: bool): Word {
    XorAll([ns, name] + tags, signedChar)
  }

  /** `aggregator_id_from_string_identifiers` */
  method IdFromStrings(ns: CString, name: CString, tags: seq<CString>, signedChar: bool) returns (id: Word)
    ensures id == IdOf(ns, name, tags, signedChar)
  {
    ghost var xs := [ns, name] + tags;
    id := Hash(ns, signedChar);
    var tempId := Hash(name, signedChar);
    id := XorWord(id, tempId);
    FirstTwo(ns, name, signedChar);
    var i := 0;
    while i < |tags|
      invariant i <= |tags| && id == XorAll([ns, name] + tags[..i], signedChar)
    {
      tempId := Hash(tags[i], signedChar);
      id := XorWord(id, tempId);
      var ys := [ns, name] + tags[..i + 1];
      assert ys[..|ys| - 1] == [ns, name] + tags[..i];
      i := i + 1;
    }
    assert tags[..i] == tags;
  }

  lemma FirstTwo(ns: CString, name: CString, signedChar: bool)
    ensures XorAll([ns, name] + [], signedChar) == XorWord(Djb2(ns, signedChar), Djb2(name, signedChar))
  {
    var h := Djb2(ns, signedChar);
    assert [ns, name] + [] == [ns, name] && [ns, name][..1] == [ns] && [ns][..0] == [];
    XorComm(0, h);
    XorZero(h);
    assert XorAll([ns], signedChar) == XorWord(0, h) == h;
    assert XorAll([ns, name], signedChar) == XorWord(XorAll([ns], signedChar), Djb2(name, signedChar));
  }

  /** The hash in plain arithmetic: 5381 for the empty string, and 33 times the hash plus the next
      character, which a signed `char` above 127 turns into that character plus 2^32 - 256. */
  lemma HashIs(s: CString, c: Octet, signedChar: bool)
    ensures Djb2([], signedChar) == 5381
    ensures var value := if signedChar && c >= 128 then c + 0xFFFF_FF00 else c;
      Djb2(s + [c], signedChar) == (33 * Djb2(s, signedChar) + value) % 0x1_0000_0000
  {
    hide Mix;
    assert (s + [c])[..|s|] == s;
    MixIs(Djb2(s, signedChar), CharValue(c, signedChar));
  }

  lemma MixIs(hash: Word, c: Word)
    ensures Mix(hash, c) == (33 * hash + c) % 0x1_0000_0000
  {
    hide Mix;
    MixMod(hash, c);
    assert hash % WORD_MODULUS == hash;
  }

  /** An id in plain arithmetic: the hashes of namespace and name, and of one tag after another. */
  lemma IdIs(ns: CString, name: CString, tags: seq<CString>, tag: CString, signedChar: bool)
    ensures IdOf(ns, name, [], signedChar) == Xor(Djb2(ns, signedChar), Djb2(name, signedChar))
    ensures IdOf(ns, name, tags + [tag], signedChar) == Xor(IdOf(ns, name, tags, signedChar), Djb2(tag, signedChar))
  {
    FirstTwo(ns, name, signedChar);
    var all := [ns, name] + (tags + [tag]);
    assert all[..|all| - 1] == [ns, name] + tags;
  }

  // ----- What an id depends on

  lemma {:induction false} XorAllConcat(a: seq<CString>, b: seq<CString>, signedChar: bool)
    ensures XorAll(a + b, signedChar) == Xor(XorAll(a, signedChar), XorAll(b, signedChar))
    decreases b
  {
    if b == [] {
      assert a + b == a;
      XorZero(XorAll(a, signedChar));
    } else {
      var b', x := b[..|b| - 1], Djb2(b[|b| - 1], signedChar);
      assert (a + b)[..|a + b| - 1] == a + b';
      XorAllConcat(a, b', signedChar);
      XorAssoc(XorAll(a, signedChar), XorAll(b', signedChar), x);
    }
  }

  /** A pair of equal strings contributes nothing. */
  lemma PairCancels(x: CString, b: seq<CString>, c: seq<CString>, signedChar: bool)
    ensures XorAll([x] + b + [x] + c, signedChar) == XorAll(b + c, signedChar)
  {
    var h, hb, hc := XorAll([x], signedChar), XorAll(b, signedChar), XorAll(c, signedChar);
    XorAllConcat([x] + b + [x], c, signedChar);
    XorAllConcat([x] + b, [x], signedChar);
    XorAllConcat([x], b, signedChar);
    XorAllConcat(b, c, signedChar);
    XorComm(h, hb);
    XorCancel(hb, h);
  }

  ghost predicate SameParity(a: seq<CString>, b: seq<CString>) {
    forall x :: multiset(a)[x] % 2 == multiset(b)[x] % 2
  }

  lemma {:induction false} EvenIsZero(xs: seq<CString>, signedChar: bool)
    requires forall x :: multiset(xs)[x] % 2 == 0
    ensures XorAll(xs, signedChar) == 0
    decreases |xs|
  {
    if xs != [] {
      var x, b, c := SplitPair(xs);
      EvenRest(xs, x, b, c);
      EvenIsZero(b + c, signedChar);
      PairCancels(x, b, c, signedChar);
    }
  }

  /** With even counts, the first string occurs again. */
  lemma SplitPair(xs: seq<CString>) returns (x: CString, b: seq<CString>, c: seq<CString>)
    requires xs != [] && forall y :: multiset(xs)[y] % 2 == 0
    ensures xs == [x] + b + [x] + c
  {
    var r := xs[1..];
    x := xs[0];
    assert xs == [x] + r;
    assert multiset(xs)[x] == 1 + multiset(r)[x];
    var j :| 0 <= j < |r| && r[j] == x;
    b, c := r[..j], r[j + 1..];
  }

  lemma EvenRest(xs: seq<CString>, x: CString, b: seq<CString>, c: seq<CString>)
    requires xs == [x] + b + [x] + c && forall y :: multiset(xs)[y] % 2 == 0
    ensures forall y :: multiset(b + c)[y] % 2 == 0
  {
    forall y
      ensures multiset(b + c)[y] % 2 == 0
    {
      assert multiset(xs)[y] == multiset{x, x}[y] + multiset(b + c)[y];
    }
  }

  /** Only the strings that occur an odd number of times determine the exclusive or. */
  lemma ParityDecides(a: seq<CString>, b: seq<CString>, signedChar: bool)
    requires SameParity(a, b)
    ensures XorAll(a, signedChar) == XorAll(b, signedChar)
  {
    forall x
      ensures multiset(a + b)[x] % 2 == 0
    {
      assert multiset(a + b)[x] == multiset(a)[x] + multiset(b)[x];
    }
    EvenIsZero(a + b, signedChar);
    XorAllConcat(a, b, signedChar);
    var p, q := XorAll(a, signedChar), XorAll(b, signedChar);
    XorCancel(p, q);
    XorComm(0, q);
    XorZero(q);
  }

  /** The id depends only on which strings occur an odd number of times among namespace, name and tags. */
  lemma IdDependsOnParity(ns: CString, name: CString, tags: seq<CString>,
                          ns': CString, name': CString, tags': seq<CString>, signedChar: bool)
    requires SameParity([ns, name] + tags, [ns', name'] + tags')
    ensures IdOf(ns, name, tags, signedChar) == IdOf(ns', name', tags', signedChar)
  {
    ParityDecides([ns, name] + tags, [ns', name'] + tags', signedChar);
  }

  /** Any ordering of the tags gives the same id. */
  lemma TagOrderIrrelevant(ns: CString, name: CString, tags: seq<CString>, tags': seq<CString>, signedChar: bool)
    requires multiset(tags) == multiset(tags')
    ensures IdOf(ns, name, tags, signedChar) == IdOf(ns, name, tags', signedChar)
  {
    assert multiset([ns, name] + tags) == multiset([ns, name] + tags');
    ParityDecides([ns, name] + tags, [ns, name] + tags', signedChar);
  }
}
