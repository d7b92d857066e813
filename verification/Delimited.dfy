/** Concatenations of self-delimiting code words, and the one way to take them apart. */
module Delimited {
  import opened BitString

  type Bytes = seq<byte>

  /** The words back to back; split in two like the functions of `BitString`. */
  function Flat(cs: seq<Bytes>): Bytes
    decreases |cs|, 1
  {
    if cs == [] then [] else FlatStep(cs)
  }

  function FlatStep(cs: seq<Bytes>): Bytes
    requires cs != []
    decreases |cs|, 0
  {
    Flat(cs[..|cs| - 1]) + cs[|cs| - 1]
  }

  /** No word of one list is empty or a proper prefix of a word of the other. */
  predicate NoneInside(cs: seq<Bytes>, ds: seq<Bytes>) {
    && (forall i | 0 <= i < |cs| :: cs[i] != [])
    && (forall j | 0 <= j < |ds| :: ds[j] != [])
    && forall i, j | 0 <= i < |cs| && 0 <= j < |ds| :: cs[i] <= ds[j] || ds[j] <= cs[i] ==> cs[i] == ds[j]
  }

  lemma {:induction false} Assoc<T>(x: seq<T>, a: seq<T>, b: seq<T>)
    ensures x + a + b == x + (a + b)
  {
  }

  lemma {:induction false} FlatSnoc(cs: seq<Bytes>, c: Bytes)
    ensures Flat(cs + [c]) == Flat(cs) + c
  {
    assert (cs + [c])[..|cs|] == cs;
  }

  lemma {:induction false} FlatAppend(cs: seq<Bytes>, ds: seq<Bytes>)
    ensures Flat(cs + ds) == Flat(cs) + Flat(ds)
  {
    if ds == [] {
      assert cs + ds == cs;
    } else {
      var n := |ds| - 1;
      FlatAppend(cs, ds[..n]);
      assert (cs + ds)[..|cs + ds| - 1] == cs + ds[..n];
      Assoc(Flat(cs), Flat(ds[..n]), ds[n]);
    }
  }

  lemma {:induction false} FlatFirst(cs: seq<Bytes>)
    requires cs != []
    ensures Flat(cs) == cs[0] + Flat(cs[1..])
  {
    FlatAppend([cs[0]], cs[1..]);
    assert [cs[0]] + cs[1..] == cs;
    FlatSnoc([], cs[0]);
    assert [] + [cs[0]] == [cs[0]];
  }

  lemma {:induction false} TwoPrefixes(x: Bytes, z: Bytes, d: Bytes)
    requires x <= d && z <= d
    ensures x <= z || z <= x
  {
    assert x == d[..|x|] && z == d[..|z|];
  }

  lemma {:induction false} SplitStep(done: seq<Bytes>, rest: Bytes, cs: seq<Bytes>, rest': Bytes)
    requires NoneInside(done, cs) && done != [] && cs != [] && Flat(done) + rest == Flat(cs) + rest'
    ensures cs[0] == done[0] && Flat(done[1..]) + rest == Flat(cs[1..]) + rest'
  {
    FlatFirst(done);
    FlatFirst(cs);
    var x, z, d := done[0], cs[0], Flat(done) + rest;
    Assoc(x, Flat(done[1..]), rest);
    Assoc(z, Flat(cs[1..]), rest');
    TwoPrefixes(x, z, d);
    assert Flat(done[1..]) + rest == d[|x|..];
    assert Flat(cs[1..]) + rest' == d[|x|..];
  }

  lemma {:induction false} FirstAndRest<T>(s: seq<T>, t: seq<T>)
    requires s != [] && t != [] && |s| <= |t| && s[0] == t[0] && t[1..][..|s| - 1] == s[1..]
    ensures t[..|s|] == s && t[|s|..] == t[1..][|s| - 1..]
  {
    assert t[..|s|] == [t[0]] + t[1..][..|s| - 1];
    assert s == [s[0]] + s[1..];
  }

  /** Of two ways to take words off the front of a string, the shorter begins the longer. */
  lemma {:induction false} SplitCompare(done: seq<Bytes>, rest: Bytes, cs: seq<Bytes>, rest': Bytes)
    requires NoneInside(done, cs) && |done| <= |cs| && Flat(done) + rest == Flat(cs) + rest'
    ensures cs[..|done|] == done && rest == Flat(cs[|done|..]) + rest'
  {
    if done == [] {
      assert cs[0..] == cs;
    } else {
      SplitStep(done, rest, cs, rest');
      NoneInsideRest(done, cs);
      SplitCompare(done[1..], rest, cs[1..], rest');
      FirstAndRest(done, cs);
    }
  }

  /** However a string splits into words, the words already taken off its front begin the split. */
  lemma {:induction false} SplitStarts(done: seq<Bytes>, rest: Bytes, cs: seq<Bytes>)
    requires NoneInside(done, cs) && Flat(done) + rest == Flat(cs)
    ensures |done| <= |cs| && cs[..|done|] == done && rest == Flat(cs[|done|..])
  {
    if |done| <= |cs| {
      SplitCompare(done, rest, cs, []);
    } else {
      assert NoneInside(cs, done);
      FlatFirst(done[|cs|..]);
      SplitCompare(cs, [], done, rest);
      assert false;
    }
  }

  lemma {:induction false} NoneInsideRest(cs: seq<Bytes>, ds: seq<Bytes>)
    requires NoneInside(cs, ds) && cs != [] && ds != []
    ensures NoneInside(cs[1..], ds[1..])
  {
  }

  /** A string splits into words in at most one way. */
  lemma {:induction false} SplitUnique(cs: seq<Bytes>, ds: seq<Bytes>)
    requires NoneInside(cs, ds) && Flat(cs) == Flat(ds)
    ensures cs == ds
  {
    assert NoneInside(ds, cs);
    assert Flat(cs) + [] == Flat(ds) && Flat(ds) + [] == Flat(cs);
    SplitStarts(cs, [], ds);
    SplitStarts(ds, [], cs);
  }
}
