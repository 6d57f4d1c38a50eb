/**
 Bytes, and sequences: without repetitions, or partly overwritten.
 */
module ByteSeqs {
  import opened Hiding

  type byte = b: int | 0 <= b < 256

  /** No number occurs twice. */
  ghost predicate Distinct(l: seq<nat>) {
    forall i, j :: 0 <= i < j < |l| ==> l[i] != l[j]
  }

  /** Different numbers below n are at most n. */
  lemma {:induction false} Pigeonhole(l: seq<nat>, n: nat)
    requires Distinct(l) && forall i :: 0 <= i < |l| ==> l[i] < n
    ensures |l| <= n
    decreases n
  {
    if |l| > 0 {
      assert l[0] < n;
      if i :| 0 <= i < |l| && l[i] == n - 1 {
        Pigeonhole(l[..i] + l[i + 1..], n - 1);
      } else {
        Pigeonhole(l, n - 1);
      }
    }
  }

  /** A part of s replaced by data of the same length. */
  function Replace<T>(s: seq<T>, at: nat, data: seq<T>): (r: seq<T>)
    requires at + |data| <= |s|
    ensures |r| == |s|
    ensures forall i :: 0 <= i < |s| ==> r[i] == if at <= i < at + |data| then data[i - at] else s[i]
  {
    s[..at] + data + s[at + |data|..]
  }

  /** Copy bytes into a buffer. */
  method CopyInto(dst: array<byte>, i: nat, bytes: seq<byte>)
    requires i + |bytes| <= dst.Length
    modifies dst
    ensures dst[..] == Replace(old(dst[..]), i, bytes)
  {
    forall k | 0 <= k < |bytes| { dst[i + k] := bytes[k]; }
  }

  /** content with data written at p, which is at most its length. */
  function Spliced(content: seq<byte>, p: nat, data: seq<byte>): (r: seq<byte>)
    requires p <= |content|
    ensures |r| == if p + |data| > |content| then p + |data| else |content|
  {
    content[..p] + data + if p + |data| <= |content| then content[p + |data|..] else []
  }

  /** Writing in two steps is writing once. */
  lemma SplicedTwice(content: seq<byte>, p: nat, a: seq<byte>, b: seq<byte>)
    requires p <= |content|
    ensures Spliced(Spliced(content, p, a), p + |a|, b) == Spliced(content, p, a + b)
  {
  }

  lemma Leading(data: seq<byte>, n: nat, done: seq<byte>, rest: seq<byte>)
    requires n <= |data| && done + rest == data[..n]
    ensures |rest| <= n && done == data[..n - |rest|]
  {
    assert done == (done + rest)[..|done|];
  }

  /** Content c with d written at p is c'. */
  ghost predicate Wrote(c: seq<byte>, p: nat, d: seq<byte>, c': seq<byte>) {
    && p <= |c| && |c'| == (if p + |d| > |c| then p + |d| else |c|)
    && forall k {:trigger Glance(k)} :: Glance(k) ==> c' == Spliced(c, p, d)
  }

  lemma WroteMore(c: seq<byte>, p: nat, d: seq<byte>, c1: seq<byte>, d2: seq<byte>, c2: seq<byte>)
    requires Wrote(c, p, d, c1) && Wrote(c1, p + |d|, d2, c2)
    ensures Wrote(c, p, d + d2, c2)
  {
    assert Glance(0);
    SplicedTwice(c, p, d, d2);
  }

  lemma WroteStep(c: seq<byte>, p: nat, d: seq<byte>, c1: seq<byte>, rest: seq<byte>, n: nat, c2: seq<byte>)
    returns (d': seq<byte>)
    requires n <= |rest| && Wrote(c, p, d, c1) && Wrote(c1, p + |d|, rest[..n], c2)
    ensures Wrote(c, p, d', c2) && d' + rest[n..] == d + rest && |d'| == |d| + n
  {
    d' := d + rest[..n];
    WroteMore(c, p, d, c1, rest[..n], c2);
  }

  lemma WroteNothing(c: seq<byte>, p: nat)
    requires p <= |c|
    ensures Wrote(c, p, [], c)
  {
  }
}
