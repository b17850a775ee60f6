/** The randomized similarity estimator of `DirectoryComparator`: a score of
    how many bytes two files have in common, found by a common-prefix scan
    followed by random-walk probes (`RandomAttemptTillEnd`, `RandomDist`).

    The process-wide random generator behind `BernoulliHalf` is made explicit:
    a `Coins` stream gives the outcome of every draw, and the number of draws
    made so far (`drawn`) is passed in and handed back by each method. Every
    property below is proved for every stream, that is, for all coin outcomes. */
module DirectoryComparator {
  import opened ByteAlignment

  /** `flip(k)` is the outcome of the `k`-th call of `BernoulliHalf`;
      `true` advances the cursor in the first file. */
  type Coins = nat -> bool

  /** Where a probe stops: the bytes it counted as matched, its two cursors,
      and how many coins had been drawn in all by then. */
  datatype Probe = Probe(matched: nat, i: nat, j: nat, drawn: nat)

  /** One probe from cursors `i`, `j`, taken one cursor move at a time: on
      differing bytes one coin decides which cursor advances, on equal bytes
      both advance and one more byte counts as matched; it stops as soon as a
      cursor reaches the end of its file. Its measure, the bytes left in the
      two files together, drops by at least one at every move, so a probe
      ends under every coin stream. */
  function Walk(d1: Bytes, d2: Bytes, i: nat, j: nat, flip: Coins, drawn: nat): Probe
    requires i <= |d1| && j <= |d2|
    decreases |d1| - i + |d2| - j
  {
    if i == |d1| || j == |d2| then Probe(0, i, j, drawn)
    else if d1[i] == d2[j] then
      var rest := Walk(d1, d2, i + 1, j + 1, flip, drawn);
      rest.(matched := rest.matched + 1)
    else if flip(drawn) then Walk(d1, d2, i + 1, j, flip, drawn + 1)
    else Walk(d1, d2, i, j + 1, flip, drawn + 1)
  }

  /** Where a probe stops: both cursors have only moved forward and stay in
      their files, at least one is at the end of its file, every counted byte
      moved both cursors (so the count is at most what either cursor
      travelled), and exactly one coin was drawn per single-cursor move. */
  lemma {:induction false} WalkStops(d1: Bytes, d2: Bytes, i: nat, j: nat, flip: Coins, drawn: nat)
    requires i <= |d1| && j <= |d2|
    ensures var p := Walk(d1, d2, i, j, flip, drawn);
      && i <= p.i <= |d1| && j <= p.j <= |d2|
      && (p.i == |d1| || p.j == |d2|)
      && p.matched <= p.i - i && p.matched <= p.j - j
      && p.drawn == drawn + (p.i - i) + (p.j - j) - 2 * p.matched
    decreases |d1| - i + |d2| - j
  {
    if i == |d1| || j == |d2| {
    } else if d1[i] == d2[j] {
      WalkStops(d1, d2, i + 1, j + 1, flip, drawn);
    } else if flip(drawn) {
      WalkStops(d1, d2, i + 1, j, flip, drawn + 1);
    } else {
      WalkStops(d1, d2, i, j + 1, flip, drawn + 1);
    }
  }

  /** The position pairs a probe counts as matched, in the order it meets
      them: an alignment of the two suffixes, so the probe's count is the
      length of a common subsequence of `d1[i..]` and `d2[j..]`. */
  ghost function MatchedPairs(d1: Bytes, d2: Bytes, i: nat, j: nat, flip: Coins, drawn: nat): (pairs: seq<(nat, nat)>)
    requires i <= |d1| && j <= |d2|
    ensures |pairs| == Walk(d1, d2, i, j, flip, drawn).matched
    ensures IsAlignment(d1, d2, i, j, pairs)
    decreases |d1| - i + |d2| - j
  {
    if i == |d1| || j == |d2| then []
    else if d1[i] == d2[j] then
      var rest := MatchedPairs(d1, d2, i + 1, j + 1, flip, drawn);
      assert forall k :: 0 < k < |rest| + 1 ==> ([(i, j)] + rest)[k] == rest[k - 1];
      [(i, j)] + rest
    else if flip(drawn) then MatchedPairs(d1, d2, i + 1, j, flip, drawn + 1)
    else MatchedPairs(d1, d2, i, j + 1, flip, drawn + 1)
  }

  /** A probe that counts a byte has found a byte the two suffixes share;
      so on suffixes with no common byte every probe counts 0. */
  lemma WalkSharesByte(d1: Bytes, d2: Bytes, i: nat, j: nat, flip: Coins, drawn: nat)
    requires i <= |d1| && j <= |d2|
    requires Walk(d1, d2, i, j, flip, drawn).matched > 0
    ensures !NoCommonByte(d1, d2, i, j)
  {
    AlignmentSharesByte(d1, d2, i, j, MatchedPairs(d1, d2, i, j, flip, drawn));
  }

  /** The probe that resumes at cursors `i`, `j` with `drawn` coins used and
      `matched` bytes already counted ends as `total`. */
  ghost predicate Resumes(d1: Bytes, d2: Bytes, flip: Coins, total: Probe, i: nat, j: nat, drawn: nat, matched: nat) {
    i <= |d1| && j <= |d2| &&
    var rest := Walk(d1, d2, i, j, flip, drawn);
    total == rest.(matched := matched + rest.matched)
  }

  /** A search step keeps the probe on course: one coin moves one cursor. */
  lemma SearchStep(d1: Bytes, d2: Bytes, flip: Coins, total: Probe, i: nat, j: nat, drawn: nat, matched: nat)
    requires Resumes(d1, d2, flip, total, i, j, drawn, matched)
    requires i < |d1| && j < |d2| && d1[i] != d2[j]
    ensures flip(drawn) ==> Resumes(d1, d2, flip, total, i + 1, j, drawn + 1, matched)
    ensures !flip(drawn) ==> Resumes(d1, d2, flip, total, i, j + 1, drawn + 1, matched)
  {
  }

  /** A match step keeps the probe on course: both cursors move, one more
      byte counts. */
  lemma MatchStep(d1: Bytes, d2: Bytes, flip: Coins, total: Probe, i: nat, j: nat, drawn: nat, matched: nat)
    requires Resumes(d1, d2, flip, total, i, j, drawn, matched)
    requires i < |d1| && j < |d2| && d1[i] == d2[j]
    ensures Resumes(d1, d2, flip, total, i + 1, j + 1, drawn, matched + 1)
  {
  }

  /** Once a cursor is at the end, the count and the coins drawn so far are
      the whole probe's. */
  lemma ProbeEnds(d1: Bytes, d2: Bytes, flip: Coins, total: Probe, i: nat, j: nat, drawn: nat, matched: nat)
    requires Resumes(d1, d2, flip, total, i, j, drawn, matched)
    requires i == |d1| || j == |d2|
    ensures total.matched == matched && total.drawn == drawn
  {
  }

  /** The probe as the source runs it: a search loop that moves one cursor
      per coin while the bytes differ, then a match loop that moves both and
      counts, repeated until a cursor reaches the end. Returns the count and
      the number of coins drawn in all. */
  method RandomAttemptTillEnd(d1: Bytes, d2: Bytes, start1: nat, start2: nat, flip: Coins, drawn: nat)
    returns (result: nat, drawnAfter: nat)
    requires start1 <= |d1| && start2 <= |d2|
    ensures Walk(d1, d2, start1, start2, flip, drawn).matched == result
    ensures Walk(d1, d2, start1, start2, flip, drawn).drawn == drawnAfter
    ensures result <= |d1| - start1 && result <= |d2| - start2
    ensures NoCommonByte(d1, d2, start1, start2) ==> result == 0
  {
    ghost var total := Walk(d1, d2, start1, start2, flip, drawn);
    result, drawnAfter := 0, drawn;
    var i: nat, j: nat := start1, start2;
    while i < |d1| && j < |d2|
      invariant Resumes(d1, d2, flip, total, i, j, drawnAfter, result)
      decreases |d1| - i + |d2| - j
    {
      ghost var i0, j0 := i, j;
      // search: the bytes under the cursors differ, a coin picks the cursor to move
      while i < |d1| && j < |d2| && d1[i] != d2[j]
        invariant Resumes(d1, d2, flip, total, i, j, drawnAfter, result)
        invariant i0 <= i && j0 <= j
        decreases |d1| - i + |d2| - j
      {
        SearchStep(d1, d2, flip, total, i, j, drawnAfter, result);
        var heads := flip(drawnAfter);
        drawnAfter := drawnAfter + 1;
        if heads {
          i := i + 1;
        } else {
          j := j + 1;
        }
      }
      if i < |d1| && j < |d2| {
        ghost var i1, j1 := i, j;
        // match: both cursors move together while the bytes agree
        while i < |d1| && j < |d2| && d1[i] == d2[j]
          invariant Resumes(d1, d2, flip, total, i, j, drawnAfter, result)
          invariant i1 <= i && j1 <= j
          decreases |d1| - i + |d2| - j
        {
          MatchStep(d1, d2, flip, total, i, j, drawnAfter, result);
          i, j, result := i + 1, j + 1, result + 1;
        }
      }
    }
    ProbeEnds(d1, d2, flip, total, i, j, drawnAfter, result);
    WalkStops(d1, d2, start1, start2, flip, drawn);
    if result > 0 {
      WalkSharesByte(d1, d2, start1, start2, flip, drawn);
    }
  }

  /** `floor(sqrt(n))`: the number of probes, `std::sqrt` of the longer
      length truncated to an integer. */
  function ISqrt(n: nat): (r: nat)
    ensures r * r <= n < (r + 1) * (r + 1)
  {
    if n == 0 then 0
    else
      var r := ISqrt(n - 1);
      if (r + 1) * (r + 1) <= n then r + 1 else r
  }

  /** Coins drawn in all once the probes `ps` have run, starting from `drawn`. */
  function DrawnAfter(ps: seq<Probe>, drawn: nat): nat {
    if ps == [] then drawn else ps[|ps| - 1].drawn
  }

  /** `p` is where some probe from offset `e` in both files stops, under some
      state of the coin stream. */
  ghost predicate ProbeFrom(d1: Bytes, d2: Bytes, e: nat, flip: Coins, p: Probe)
    requires e <= |d1| && e <= |d2|
  {
    exists start :: p == Walk(d1, d2, e, e, flip, start)
  }

  /** The first `n` probes from offset `e` in both files, in order; each one
      continues the coin stream where the previous one left it, so every one
      of them is a walk from offset `e` under some state of the stream. */
  function Probes(d1: Bytes, d2: Bytes, e: nat, n: nat, flip: Coins, drawn: nat): (ps: seq<Probe>)
    requires e <= |d1| && e <= |d2|
    ensures |ps| == n
    ensures forall k :: 0 <= k < n ==> ProbeFrom(d1, d2, e, flip, ps[k])
  {
    if n == 0 then []
    else
      var prev := Probes(d1, d2, e, n - 1, flip, drawn);
      var ps := prev + [Walk(d1, d2, e, e, flip, DrawnAfter(prev, drawn))];
      assert forall k :: 0 <= k < n - 1 ==> ps[k] == prev[k];
      assert ProbeFrom(d1, d2, e, flip, ps[n - 1]) by {
        assert ps[n - 1] == Walk(d1, d2, e, e, flip, DrawnAfter(prev, drawn));
      }
      ps
  }

  /** The largest count among the probes `ps`, or 0 when there are none. */
  function Best(ps: seq<Probe>): (m: nat)
    ensures forall k :: 0 <= k < |ps| ==> ps[k].matched <= m
    ensures ps == [] ==> m == 0
    ensures ps != [] ==> exists k :: 0 <= k < |ps| && m == ps[k].matched
  {
    if ps == [] then 0
    else
      var prev := ps[..|ps| - 1];
      assert forall k :: 0 <= k < |prev| ==> prev[k] == ps[k];
      Max(Best(prev), ps[|ps| - 1].matched)
  }

  /** One more probe raises the best count to its own count if that is larger. */
  lemma BestAppend(ps: seq<Probe>, p: Probe)
    ensures Best(ps + [p]) == Max(Best(ps), p.matched)
  {
    assert (ps + [p])[..|ps|] == ps;
  }

  /** A score and the number of coins drawn in all after computing it. */
  datatype Outcome = Outcome(score: nat, drawn: nat)

  /** The score with `attempts` probes: the common prefix length, plus the
      best probe count when neither file is a prefix of the other. */
  function Estimate(d1: Bytes, d2: Bytes, attempts: nat, flip: Coins, drawn: nat): Outcome {
    var e := CommonPrefixLen(d1, d2);
    if e < Min(|d1|, |d2|) then
      var ps := Probes(d1, d2, e, attempts, flip, drawn);
      Outcome(e + Best(ps), DrawnAfter(ps, drawn))
    else
      Outcome(e, drawn)
  }

  /** The estimator as the source runs it: a loop that finds where the
      leading equal bytes end, then, unless one file is a prefix of the
      other, `ISqrt` of the longer length probes from there, keeping the
      running maximum. */
  method RandomDist(d1: Bytes, d2: Bytes, flip: Coins, drawn: nat) returns (result: nat, drawnAfter: nat)
    ensures Estimate(d1, d2, ISqrt(Max(|d1|, |d2|)), flip, drawn) == Outcome(result, drawnAfter)
    ensures CommonPrefixLen(d1, d2) <= result <= Min(|d1|, |d2|)
    ensures CommonPrefixLen(d1, d2) == Min(|d1|, |d2|) ==> result == Min(|d1|, |d2|) && drawnAfter == drawn
  {
    var minLen := Min(|d1|, |d2|);
    var equalityEnd := 0;
    while equalityEnd < minLen && d1[equalityEnd] == d2[equalityEnd]
      invariant equalityEnd <= minLen
      invariant AgreeUpTo(d1, d2, equalityEnd)
    {
      equalityEnd := equalityEnd + 1;
    }
    CommonPrefixLenUnique(d1, d2, equalityEnd);

    result, drawnAfter := equalityEnd, drawn;
    if equalityEnd < minLen {
      var randomAttempts := ISqrt(Max(|d1|, |d2|));
      ghost var probes: seq<Probe> := [];
      for att := 0 to randomAttempts
        invariant probes == Probes(d1, d2, equalityEnd, att, flip, drawn)
        invariant result == equalityEnd + Best(probes)
        invariant drawnAfter == DrawnAfter(probes, drawn)
      {
        ghost var before := drawnAfter;
        var matched;
        matched, drawnAfter := RandomAttemptTillEnd(d1, d2, equalityEnd, equalityEnd, flip, drawnAfter);
        ghost var probe := Walk(d1, d2, equalityEnd, equalityEnd, flip, before);
        BestAppend(probes, probe);
        probes := probes + [probe];
        var attemptResult := equalityEnd + matched;
        result := Max(result, attemptResult);
      }
    }
    EstimateBounds(d1, d2, ISqrt(Max(|d1|, |d2|)), flip, drawn);
  }

  /** The score lies between the common prefix length and the shorter length. */
  lemma EstimateBounds(d1: Bytes, d2: Bytes, attempts: nat, flip: Coins, drawn: nat)
    ensures CommonPrefixLen(d1, d2) <= Estimate(d1, d2, attempts, flip, drawn).score <= Min(|d1|, |d2|)
  {
    var e := CommonPrefixLen(d1, d2);
    if e < Min(|d1|, |d2|) && attempts > 0 {
      var ps := Probes(d1, d2, e, attempts, flip, drawn);
      var k :| 0 <= k < |ps| && Best(ps) == ps[k].matched;
      assert ProbeFrom(d1, d2, e, flip, ps[k]);
      var start :| ps[k] == Walk(d1, d2, e, e, flip, start);
      WalkStops(d1, d2, e, e, flip, start);
    }
  }

  /** When one file is a prefix of the other (in particular when either is
      empty) the score is the shorter length and no coin is drawn. */
  lemma PrefixCaseIsExact(d1: Bytes, d2: Bytes, attempts: nat, flip: Coins, drawn: nat)
    requires d1 <= d2 || d2 <= d1
    ensures Estimate(d1, d2, attempts, flip, drawn) == Outcome(Min(|d1|, |d2|), drawn)
  {
    var m := Min(|d1|, |d2|);
    assert AgreeUpTo(d1, d2, m) by {
      forall n | 0 <= n < m ensures d1[n] == d2[n] {
      }
    }
    CommonPrefixLenUnique(d1, d2, m);
  }

  /** A file compared with itself scores its full length. */
  lemma IdenticalFilesScoreLength(d: Bytes, attempts: nat, flip: Coins, drawn: nat)
    ensures Estimate(d, d, attempts, flip, drawn).score == |d|
  {
    PrefixCaseIsExact(d, d, attempts, flip, drawn);
  }

  /** An empty file scores 0 against anything. */
  lemma EmptyFileScoresZero(d: Bytes, attempts: nat, flip: Coins, drawn: nat)
    ensures Estimate([], d, attempts, flip, drawn).score == 0
    ensures Estimate(d, [], attempts, flip, drawn).score == 0
  {
    PrefixCaseIsExact([], d, attempts, flip, drawn);
    PrefixCaseIsExact(d, [], attempts, flip, drawn);
  }

  /** If the parts after the common prefix share no byte, no probe counts
      anything and the score is exactly the common prefix length. */
  lemma DisjointTailsScorePrefix(d1: Bytes, d2: Bytes, attempts: nat, flip: Coins, drawn: nat)
    requires NoCommonByte(d1, d2, CommonPrefixLen(d1, d2), CommonPrefixLen(d1, d2))
    ensures Estimate(d1, d2, attempts, flip, drawn).score == CommonPrefixLen(d1, d2)
  {
    var e := CommonPrefixLen(d1, d2);
    if e < Min(|d1|, |d2|) && attempts > 0 {
      var ps := Probes(d1, d2, e, attempts, flip, drawn);
      var k :| 0 <= k < |ps| && Best(ps) == ps[k].matched;
      assert ProbeFrom(d1, d2, e, flip, ps[k]);
      var start :| ps[k] == Walk(d1, d2, e, e, flip, start);
      if ps[k].matched > 0 {
        WalkSharesByte(d1, d2, e, e, flip, start);
      }
    }
  }

  /** Files with no byte value in common score 0. */
  lemma DisjointFilesScoreZero(d1: Bytes, d2: Bytes, attempts: nat, flip: Coins, drawn: nat)
    requires NoCommonByte(d1, d2, 0, 0)
    ensures Estimate(d1, d2, attempts, flip, drawn).score == 0
  {
    if 0 < |d1| && 0 < |d2| {
      assert d1[0] != d2[0];
    }
    DisjointTailsScorePrefix(d1, d2, attempts, flip, drawn);
  }

  /** Running more probes replays the first ones unchanged. */
  lemma {:induction false} ProbesExtend(d1: Bytes, d2: Bytes, e: nat, n: nat, m: nat, flip: Coins, drawn: nat)
    requires e <= |d1| && e <= |d2|
    requires n <= m
    ensures Probes(d1, d2, e, m, flip, drawn)[..n] == Probes(d1, d2, e, n, flip, drawn)
    decreases m
  {
    if n < m {
      var prev := Probes(d1, d2, e, m - 1, flip, drawn);
      var w := Walk(d1, d2, e, e, flip, DrawnAfter(prev, drawn));
      assert Probes(d1, d2, e, m, flip, drawn) == prev + [w];
      assert (prev + [w])[..n] == prev[..n];
      ProbesExtend(d1, d2, e, n, m - 1, flip, drawn);
    }
  }

  /** With the coin stream fixed, more attempts never lower the score: the
      score is a running maximum over the probes. */
  lemma MoreAttemptsNeverLower(d1: Bytes, d2: Bytes, n: nat, m: nat, flip: Coins, drawn: nat)
    requires n <= m
    ensures Estimate(d1, d2, n, flip, drawn).score <= Estimate(d1, d2, m, flip, drawn).score
  {
    var e := CommonPrefixLen(d1, d2);
    if e < Min(|d1|, |d2|) && n > 0 {
      var short := Probes(d1, d2, e, n, flip, drawn);
      var long := Probes(d1, d2, e, m, flip, drawn);
      ProbesExtend(d1, d2, e, n, m, flip, drawn);
      var k :| 0 <= k < |short| && Best(short) == short[k].matched;
      assert short[k] == long[k];
    }
  }

  /** "abcXXXXX" against "abcYYYYY": the tails share no byte, so every run
      scores exactly the common prefix, 3. */
  lemma DivergentTailsExample(d1: Bytes, d2: Bytes, attempts: nat, flip: Coins, drawn: nat)
    requires d1 == [0x61, 0x62, 0x63, 0x58, 0x58, 0x58, 0x58, 0x58]
    requires d2 == [0x61, 0x62, 0x63, 0x59, 0x59, 0x59, 0x59, 0x59]
    ensures Estimate(d1, d2, attempts, flip, drawn).score == 3
  {
    assert AgreeUpTo(d1, d2, 3) && d1[3] != d2[3];
    CommonPrefixLenUnique(d1, d2, 3);
    assert forall m :: 3 <= m < |d1| ==> d1[m] == 0x58;
    assert forall n :: 3 <= n < |d2| ==> d2[n] == 0x59;
    DisjointTailsScorePrefix(d1, d2, attempts, flip, drawn);
  }
}
