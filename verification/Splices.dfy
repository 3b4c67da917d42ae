/** Overwriting part of a sequence: how the methods that fill arrays state their effect. */
module Splices {

  /** n times c. */
  function Fill<T>(n: nat, c: T): (s: seq<T>)
    ensures |s| == n && forall i :: 0 <= i < n ==> s[i] == c
  {
    seq(n, _ => c)
  }

  /** s with p written over it from index at on. */
  ghost function Splice<T>(s: seq<T>, at: nat, p: seq<T>): (r: seq<T>)
    requires at + |p| <= |s|
    ensures |r| == |s|
  {
    s[..at] + p + s[at + |p|..]
  }

  /** Writing the next element extends what was written. */
  lemma SpliceStep<T>(s: seq<T>, at: nat, p: seq<T>, c: T)
    requires at + |p| < |s|
    ensures Splice(s, at, p)[at + |p| := c] == Splice(s, at, p + [c])
  {
  }

  lemma SpliceReads<T>(s: seq<T>, at: nat, p: seq<T>)
    requires at + |p| <= |s|
    ensures Splice(s, at, p)[at..at + |p|] == p
  {
  }

  lemma SpliceNothing<T>(s: seq<T>, at: nat)
    requires at <= |s|
    ensures Splice(s, at, []) == s
  {
  }

  lemma SpliceOne<T>(s: seq<T>, at: nat, c: T)
    requires at < |s|
    ensures s[at := c] == Splice(s, at, [c])
  {
  }

  /** Writing further on, right behind. */
  lemma SpliceMore<T>(s: seq<T>, at: nat, p: seq<T>, q: seq<T>)
    requires at + |p| + |q| <= |s|
    ensures Splice(Splice(s, at, p), at + |p|, q) == Splice(s, at, p + q)
  {
    var t := Splice(s, at, p);
    assert t[..at + |p|] == s[..at] + p;
    assert t[at + |p| + |q|..] == s[at + |p| + |q|..];
  }

  /** Replacing the first part of what was written. */
  lemma SpliceReplace<T>(s: seq<T>, p: seq<T>, q: seq<T>, rest: seq<T>, t: seq<T>)
    requires |p| == |q| && |p| + |rest| <= |s| == |t|
    requires t[..|p|] == q && t[|p|..] == Splice(s, 0, p + rest)[|p|..]
    ensures t == Splice(s, 0, q + rest)
  {
    var u := Splice(s, 0, p + rest);
    assert u == p + (rest + s[|p| + |rest|..]);
    assert t == q + (rest + s[|p| + |rest|..]);
  }
}
