/**
 What it means for a reader to undo a writer exactly, the consequences that
 hold for every such pair, and the ways TPM structures are built from smaller
 ones: side by side, size-prefixed, and counted.
 */
module Codecs {
  import opened Basics
  import opened Marshal

  datatype Codec<!T> = Codec(enc: T -> bytes, fits: T -> bool, read: bytes -> Parsed<T>)

  ghost predicate Inverts<T>(c: Codec<T>, x: T, post: bytes) {
    c.fits(x) ==> c.read(c.enc(x) + post) == Parsed(x, post)
  }

  ghost predicate Canonical<T>(c: Codec<T>, s: bytes) {
    c.read(s).Parsed? ==>
      && c.fits(c.read(s).value)
      && s == c.enc(c.read(s).value) + c.read(s).rest
  }

  /** Reading undoes writing, and whatever reads was written that way. */
  ghost predicate Exact<T(!new)>(c: Codec<T>) {
    && (forall x, post :: Inverts(c, x, post))
    && (forall s :: Canonical(c, s))
  }

  /** A successful parse does not look past the bytes it consumes. */
  lemma Local<T(!new)>(c: Codec<T>, s: bytes, more: bytes)
    requires Exact(c) && c.read(s).Parsed?
    ensures c.read(s + more) == Parsed(c.read(s).value, c.read(s).rest + more)
  {
    var x, rest := c.read(s).value, c.read(s).rest;
    assert Canonical(c, s);
    assert s + more == c.enc(x) + (rest + more);
    assert Inverts(c, x, rest + more);
  }

  /** What was written is read back exactly when it fits. */
  lemma DecodesIff<T(!new)>(c: Codec<T>, x: T, post: bytes)
    requires Exact(c)
    ensures c.read(c.enc(x) + post) == Parsed(x, post) <==> c.fits(x)
  {
    assert Inverts(c, x, post);
    assert Canonical(c, c.enc(x) + post);
  }

  /** No strict prefix of an encoding parses. */
  lemma PrefixFree<T(!new)>(c: Codec<T>, x: T, k: nat)
    requires Exact(c) && c.fits(x) && k < |c.enc(x)|
    ensures c.read(c.enc(x)[..k]).Stuck?
  {
    var s, more := c.enc(x)[..k], c.enc(x)[k..];
    assert s + more == c.enc(x) + [];
    assert Inverts(c, x, []);
    if c.read(s).Parsed? {
      Local(c, s, more);
      assert false;
    }
  }

  // ---------- two structures side by side ----------

  function ReadPair<A, B>(a: Codec<A>, b: Codec<B>, s: bytes): Parsed<(A, B)> {
    var (x, s) :- a.read(s);
    var (y, s) :- b.read(s);
    Parsed((x, y), s)
  }

  function Pair<A, B>(a: Codec<A>, b: Codec<B>): Codec<(A, B)> {
    Codec((p: (A, B)) => a.enc(p.0) + b.enc(p.1),
          (p: (A, B)) => a.fits(p.0) && b.fits(p.1),
          (s: bytes) => ReadPair(a, b, s))
  }

  lemma PairExact<A(!new), B(!new)>(a: Codec<A>, b: Codec<B>)
    requires Exact(a) && Exact(b)
    ensures Exact(Pair(a, b))
  {
    var c := Pair(a, b);
    forall x, post ensures Inverts(c, x, post) {
      assert Inverts(a, x.0, b.enc(x.1) + post) && Inverts(b, x.1, post);
      assert c.enc(x) + post == a.enc(x.0) + (b.enc(x.1) + post);
    }
    forall s ensures Canonical(c, s) {
      assert Canonical(a, s);
      if a.read(s).Parsed? {
        assert Canonical(b, a.read(s).rest);
      }
    }
  }

  // ---------- a structure inside a TPM2B ----------

  function ReadSized<T>(c: Codec<T>, s: bytes): Parsed<T> {
    var (inner, s) :- ReadTpm2b(s);
    var (x, unused) :- c.read(inner);
    if unused == [] then Parsed(x, s) else Stuck(Malformed, s)
  }

  function Sized<T>(c: Codec<T>): Codec<T> {
    Codec((x: T) => BufferBytes(c.enc(x)),
          (x: T) => c.fits(x) && |c.enc(x)| <= U16_MAX,
          (s: bytes) => ReadSized(c, s))
  }

  lemma SizedInverts<T(!new)>(c: Codec<T>, x: T, post: bytes)
    requires Exact(c) && c.fits(x) && |c.enc(x)| <= U16_MAX
    ensures ReadSized(c, BufferBytes(c.enc(x)) + post) == Parsed(x, post)
  {
    ReadTpm2bInverts(c.enc(x), post);
    assert Inverts(c, x, []);
    assert c.enc(x) + [] == c.enc(x);
  }

  lemma SizedCanonical<T(!new)>(c: Codec<T>, s: bytes)
    requires Exact(c) && ReadSized(c, s).Parsed?
    ensures var (x, rest) := ReadSized(c, s).Extract();
      c.fits(x) && |c.enc(x)| <= U16_MAX && s == BufferBytes(c.enc(x)) + rest
  {
    var (inner, rest) := ReadTpm2b(s).Extract();
    assert |inner| <= U16_MAX && s == BufferBytes(inner) + rest by { ReadTpm2bCanonical(s); }
    assert Canonical(c, inner);
    var x := c.read(inner).value;
    assert inner == c.enc(x) + [] == c.enc(x);
  }

  lemma SizedExact<T(!new)>(c: Codec<T>)
    requires Exact(c)
    ensures Exact(Sized(c))
  {
    forall x, post ensures Inverts(Sized(c), x, post) {
      if c.fits(x) && |c.enc(x)| <= U16_MAX {
        SizedInverts(c, x, post);
      }
    }
    forall s ensures Canonical(Sized(c), s) {
      if ReadSized(c, s).Parsed? {
        SizedCanonical(c, s);
      }
    }
  }

  /** What is taken out of a TPM2B was written as exactly its contents. */
  lemma SizedDetermines<T(!new)>(c: Codec<T>, inner: bytes, post: bytes)
    requires Exact(c) && |inner| <= U16_MAX
    ensures var r := ReadSized(c, BufferBytes(inner) + post);
      r.Parsed? ==> c.fits(r.value) && c.enc(r.value) == inner && r.rest == post
  {
    ReadTpm2bInverts(inner, post);
    assert Canonical(c, inner);
  }

  // ---------- counted lists ----------

  function ListBytes<T>(enc: T -> bytes, xs: seq<T>): bytes {
    if xs == [] then [] else enc(xs[0]) + ListBytes(enc, xs[1..])
  }

  lemma {:induction false} ListBytesBound<T>(enc: T -> bytes, xs: seq<T>, most: nat)
    requires forall i | 0 <= i < |xs| :: |enc(xs[i])| <= most
    ensures |ListBytes(enc, xs)| <= |xs| * most
  {
    if xs != [] {
      ListBytesBound(enc, xs[1..], most);
      assert |xs| * most == most + (|xs| - 1) * most;
    }
  }

  /** A loop that has written the entries before i and is to write the i-th. */
  lemma ListBytesStep<T>(enc: T -> bytes, xs: seq<T>, i: nat, done: bytes)
    requires i < |xs|
    ensures done + ListBytes(enc, xs[i..]) == done + enc(xs[i]) + ListBytes(enc, xs[i + 1..])
  {
    assert xs[i..][0] == xs[i] && xs[i..][1..] == xs[i + 1..];
  }

  function ReadMany<T>(read: bytes -> Parsed<T>, n: nat, s: bytes): Parsed<seq<T>> {
    if n == 0 then Parsed([], s)
    else
      var (x, s) :- read(s);
      var (xs, s) :- ReadMany(read, n - 1, s);
      Parsed([x] + xs, s)
  }

  function CountedBytes<T>(enc: T -> bytes, xs: seq<T>): bytes {
    U32Bytes(LowU32(|xs|)) + ListBytes(enc, xs)
  }

  function ReadCounted<T>(read: bytes -> Parsed<T>, limit: nat, s: bytes): Parsed<seq<T>> {
    var (count, s) :- ReadU32(s);
    if count > limit then Stuck(Malformed, s) else ReadMany(read, count, s)
  }

  predicate AllFit<T>(fits: T -> bool, xs: seq<T>) {
    forall i | 0 <= i < |xs| :: fits(xs[i])
  }

  function Counted<T>(c: Codec<T>, limit: u32): Codec<seq<T>> {
    Codec((xs: seq<T>) => CountedBytes(c.enc, xs),
          (xs: seq<T>) => |xs| <= limit && AllFit(c.fits, xs),
          (s: bytes) => ReadCounted(c.read, limit, s))
  }

  lemma {:induction false} ReadManyInverts<T(!new)>(c: Codec<T>, xs: seq<T>, post: bytes)
    requires Exact(c) && AllFit(c.fits, xs)
    ensures ReadMany(c.read, |xs|, ListBytes(c.enc, xs) + post) == Parsed(xs, post)
  {
    if xs == [] {
      assert ListBytes(c.enc, xs) + post == post;
    } else {
      var tail := ListBytes(c.enc, xs[1..]) + post;
      assert Inverts(c, xs[0], tail);
      assert ListBytes(c.enc, xs) + post == c.enc(xs[0]) + tail;
      ReadManyInverts(c, xs[1..], post);
      assert [xs[0]] + xs[1..] == xs;
    }
  }

  lemma {:induction false} ReadManyCanonical<T(!new)>(c: Codec<T>, n: nat, s: bytes)
    requires Exact(c) && ReadMany(c.read, n, s).Parsed?
    ensures var p := ReadMany(c.read, n, s);
      |p.value| == n && AllFit(c.fits, p.value) && s == ListBytes(c.enc, p.value) + p.rest
  {
    if n > 0 {
      assert Canonical(c, s);
      ReadManyCanonical(c, n - 1, c.read(s).rest);
    }
  }

  lemma CountedInverts<T(!new)>(c: Codec<T>, limit: u32, xs: seq<T>, post: bytes)
    requires Exact(c) && |xs| <= limit && AllFit(c.fits, xs)
    ensures ReadCounted(c.read, limit, CountedBytes(c.enc, xs) + post) == Parsed(xs, post)
  {
    var tail := ListBytes(c.enc, xs) + post;
    assert CountedBytes(c.enc, xs) + post == U32Bytes(|xs|) + tail;
    ReadU32Inverts(|xs|, tail);
    ReadManyInverts(c, xs, post);
  }

  lemma CountedShape<T>(enc: T -> bytes, xs: seq<T>, n: u32, t: bytes, rest: bytes)
    requires n == |xs| && t == ListBytes(enc, xs) + rest
    ensures U32Bytes(n) + t == CountedBytes(enc, xs) + rest
  {
    assert LowU32(n) == n;
  }

  lemma CountedCanonical<T(!new)>(c: Codec<T>, limit: u32, s: bytes)
    requires Exact(c) && ReadCounted(c.read, limit, s).Parsed?
    ensures var p := ReadCounted(c.read, limit, s);
      |p.value| <= limit && AllFit(c.fits, p.value) && s == CountedBytes(c.enc, p.value) + p.rest
  {
    var n, t := ReadU32(s).value, ReadU32(s).rest;
    var p := ReadMany(c.read, n, t);
    assert s == U32Bytes(n) + t by { ReadU32Canonical(s); }
    ReadManyCanonical(c, n, t);
    CountedShape(c.enc, p.value, n, t, p.rest);
  }

  lemma CountedExact<T(!new)>(c: Codec<T>, limit: u32)
    requires Exact(c)
    ensures Exact(Counted(c, limit))
  {
    var l := Counted(c, limit);
    forall xs, post ensures Inverts(l, xs, post) {
      if l.fits(xs) {
        CountedInverts(c, limit, xs, post);
      }
    }
    forall s ensures Canonical(l, s) {
      if l.read(s).Parsed? {
        CountedCanonical(c, limit, s);
      }
    }
  }

  /** A list parse continued after the entries xs. */
  ghost function Prepend<T>(xs: seq<T>, p: Parsed<seq<T>>): (q: Parsed<seq<T>>)
    ensures xs == [] ==> q == p
    ensures p.Parsed? && p.value == [] ==> q == Parsed(xs, p.rest)
  {
    assert p.Parsed? && xs == [] ==> xs + p.value == p.value;
    assert p.Parsed? && p.value == [] ==> xs + p.value == xs;
    if p.Parsed? then Parsed(xs + p.value, p.rest) else p
  }

  lemma PrependStep<T>(read: bytes -> Parsed<T>, xs: seq<T>, n: nat, s: bytes)
    requires n > 0
    ensures Prepend(xs, ReadMany(read, n, s))
         == if read(s).Parsed? then Prepend(xs + [read(s).value], ReadMany(read, n - 1, read(s).rest))
            else Stuck(read(s).error, read(s).rest)
  {
    if read(s).Parsed? {
      var p := ReadMany(read, n - 1, read(s).rest);
      if p.Parsed? {
        assert xs + ([read(s).value] + p.value) == xs + [read(s).value] + p.value;
      }
    }
  }

  // ---------- untrusted counts ----------

  /** How many entries a list reader pushes before it finishes or gets stuck. */
  function Pushed<T>(read: bytes -> Parsed<T>, n: nat, s: bytes): nat {
    if n == 0 || read(s).Stuck? then 0 else 1 + Pushed(read, n - 1, read(s).rest)
  }

  /** Every entry costs bytes: whatever count a list declares, the entries
      pushed are bounded by the bytes consumed, on success and on failure. */
  lemma {:induction false} PushedBound<T(!new)>(read: bytes -> Parsed<T>, n: nat, s: bytes, least: nat)
    requires forall t :: |read(t).rest| <= |t|
    requires forall t :: read(t).Parsed? ==> |read(t).rest| + least <= |t|
    ensures least * Pushed(read, n, s) + |ReadMany(read, n, s).rest| <= |s|
    ensures Pushed(read, n, s) <= n
  {
    if n > 0 && read(s).Parsed? {
      PushedBound(read, n - 1, read(s).rest, least);
      var k := Pushed(read, n - 1, read(s).rest);
      assert least * (1 + k) == least + least * k;
    }
  }
}
