/** Byte sequences and the notions the similarity estimator is measured
    against: the common prefix of two sequences and alignments (witnesses of
    a common subsequence) between two suffixes. */
module ByteAlignment {

  /** One byte of a file's contents (a `char` of the `std::string` buffer). */
  type Byte = bv8

  /** A file's contents, read in full. */
  type Bytes = seq<Byte>

  function Min(a: nat, b: nat): nat { if a <= b then a else b }

  function Max(a: nat, b: nat): nat { if a <= b then b else a }

  /** `a` and `b` both have at least `k` bytes and agree on the first `k`. */
  ghost predicate AgreeUpTo(a: Bytes, b: Bytes, k: nat) {
    k <= |a| && k <= |b| && forall n :: 0 <= n < k ==> a[n] == b[n]
  }

  /** Length of the longest common prefix of `a` and `b`: they agree up to
      it, and either one of them ends there or they differ there. */
  function CommonPrefixLen(a: Bytes, b: Bytes): (k: nat)
    ensures AgreeUpTo(a, b, k)
    ensures k < |a| && k < |b| ==> a[k] != b[k]
  {
    if a == [] || b == [] || a[0] != b[0] then 0
    else
      var k' := CommonPrefixLen(a[1..], b[1..]);
      assert forall n :: 1 <= n < k' + 1 ==> a[n] == a[1..][n - 1] && b[n] == b[1..][n - 1];
      k' + 1
  }

  /** The two conditions of CommonPrefixLen's contract determine it. */
  lemma CommonPrefixLenUnique(a: Bytes, b: Bytes, k: nat)
    requires AgreeUpTo(a, b, k)
    requires k < |a| && k < |b| ==> a[k] != b[k]
    ensures k == CommonPrefixLen(a, b)
  {
  }

  /** `pairs` aligns `a[s1..]` with `b[s2..]`: every pair matches two equal
      bytes inside the suffixes, and both coordinates strictly increase. The
      bytes at the first coordinates then form a common subsequence of the
      two suffixes, of length `|pairs|`. */
  ghost predicate IsAlignment(a: Bytes, b: Bytes, s1: nat, s2: nat, pairs: seq<(nat, nat)>) {
    (forall k :: 0 <= k < |pairs| ==>
       s1 <= pairs[k].0 < |a| && s2 <= pairs[k].1 < |b| && a[pairs[k].0] == b[pairs[k].1])
    && (forall k, l :: 0 <= k < l < |pairs| ==>
          pairs[k].0 < pairs[l].0 && pairs[k].1 < pairs[l].1)
  }

  /** No byte of `a[s1..]` equals any byte of `b[s2..]`. */
  ghost predicate NoCommonByte(a: Bytes, b: Bytes, s1: nat, s2: nat) {
    forall m, n :: s1 <= m < |a| && s2 <= n < |b| ==> a[m] != b[n]
  }

  /** A common subsequence of two suffixes is no longer than either suffix. */
  lemma {:induction false} AlignmentBound(a: Bytes, b: Bytes, s1: nat, s2: nat, pairs: seq<(nat, nat)>)
    requires s1 <= |a| && s2 <= |b|
    requires IsAlignment(a, b, s1, s2, pairs)
    ensures |pairs| <= |a| - s1 && |pairs| <= |b| - s2
    decreases |pairs|
  {
    if pairs != [] {
      var p := pairs[0];
      var rest := pairs[1..];
      assert IsAlignment(a, b, p.0 + 1, p.1 + 1, rest) by {
        forall k | 0 <= k < |rest|
          ensures p.0 + 1 <= rest[k].0 && p.1 + 1 <= rest[k].1
        {
          assert rest[k] == pairs[k + 1];
        }
        forall k, l | 0 <= k < l < |rest|
          ensures rest[k].0 < rest[l].0 && rest[k].1 < rest[l].1
        {
          assert rest[k] == pairs[k + 1] && rest[l] == pairs[l + 1];
        }
      }
      AlignmentBound(a, b, p.0 + 1, p.1 + 1, rest);
    }
  }

  /** A non-empty alignment exhibits a byte the two suffixes share; so
      suffixes without a common byte admit only the empty alignment. */
  lemma AlignmentSharesByte(a: Bytes, b: Bytes, s1: nat, s2: nat, pairs: seq<(nat, nat)>)
    requires IsAlignment(a, b, s1, s2, pairs)
    requires pairs != []
    ensures !NoCommonByte(a, b, s1, s2)
  {
    var p := pairs[0];
    assert s1 <= p.0 < |a| && s2 <= p.1 < |b| && a[p.0] == b[p.1];
  }
}
