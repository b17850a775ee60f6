# Randomized byte-similarity estimator of DirectoryComparator

The program compares the files of two directories. For every pair it reports a
similarity score: a count of bytes it judged to be matched. The score comes from
`DirectoryComparator::RandomDist`, which works in two phases:

- It scans for the end of the leading equal bytes of the two files (`equalityEnd`).
- Unless one file is a prefix of the other, it runs `floor(sqrt(longer length))`
  random-walk probes (`RandomAttemptTillEnd`), each starting at `equalityEnd` in
  both files. The score is `equalityEnd` plus the best probe.

A probe moves two cursors. While the bytes under them differ, a fair coin
(`BernoulliHalf`) picks the one cursor to advance. While they agree, both advance
and the count goes up by one. It stops when a cursor reaches the end of its file.

This project models that estimator in Dafny. It is in two files:

- `alignments.dfy` (module `ByteAlignment`): byte sequences, the longest common
  prefix, and alignments. An alignment is a list of position pairs with equal bytes,
  strictly increasing in both files: a witness of a common subsequence.
- `directory_comparator.dfy` (module `DirectoryComparator`): the two methods, in
  the source's imperative form, together with their reference definitions.
  - `RandomAttemptTillEnd` keeps the source's nested search and match loops.
  - `RandomDist` keeps the prefix loop and the `for` loop that keeps a running
    maximum.
  - `Walk` defines one probe a single cursor move at a time. `Probes` lists the
    attempts in order. `Best` is their running maximum. `Estimate` is the score.

The random generator is an explicit coin stream, `Coins = nat -> bool`:

- `flip(k)` is the outcome of the `k`-th draw, and `true` advances the cursor in
  the first file.
- Both methods take the number of coins drawn so far and return the new number.
  This makes the generator's hidden global state an explicit value.
- Every lemma holds for every stream, so every property holds for all coin outcomes.

## Model

| member | source | states |
|---|---|---|
| ByteAlignment.CommonPrefixLen | main.cpp:124-128 | The result `k` is at most both lengths, and the files agree on their first `k` bytes. If both files are longer than `k`, they differ at `k`. So `k` is the longest common prefix. |
| ByteAlignment.CommonPrefixLenUnique | main.cpp:126-128 | Any `k` where the files agree below `k` and that stops at a difference or at an end equals `CommonPrefixLen`. This is what the prefix loop's exit condition establishes. |
| ByteAlignment.AlignmentBound | main.cpp:112-116 | An alignment of `a[s1..]` and `b[s2..]` has at most `|a|-s1` and at most `|b|-s2` pairs, because every counted pair moves both cursors forward. |
| ByteAlignment.AlignmentSharesByte | main.cpp:101-116 | A non-empty alignment shows that the two suffixes share a byte value. |
| DirectoryComparator.WalkStops | main.cpp:100-118 | When a probe stops, both cursors have moved forward only and are still in range. At least one cursor is at the end of its file. The count is at most the distance either cursor moved. Exactly one coin was drawn for each single-cursor move. Termination holds for every coin stream, by the measure "bytes left in both files". |
| DirectoryComparator.MatchedPairs | main.cpp:93-120 | The positions a probe counts form an alignment of `d1[i..]` and `d2[j..]`, and there are as many of them as the probe's count. So the count is the length of a common subsequence of the two suffixes ("sum of equal parts lengths"). |
| DirectoryComparator.WalkSharesByte | main.cpp:101-116 | A probe with a positive count has met a byte value that both suffixes contain. So on suffixes with no common byte, every probe counts 0 whatever the coins. |
| DirectoryComparator.SearchStep | main.cpp:101-107 | One search move keeps the loop state on the path of the reference probe: the coin picks the cursor, and one more coin is drawn. |
| DirectoryComparator.MatchStep | main.cpp:112-116 | One match move keeps the loop state on the path of the reference probe: both cursors advance and the count goes up by one. |
| DirectoryComparator.ProbeEnds | main.cpp:100 | Once a cursor is at the end, the count and the coins drawn so far are those of the whole probe. |
| DirectoryComparator.RandomAttemptTillEnd | main.cpp:94-120 | The nested search and match loops return exactly the count and coin total of the reference probe `Walk`. The count is at most `|d1|-start1` and at most `|d2|-start2`. It is 0 whenever the two suffixes share no byte. Requires `start1 <= |d1|` and `start2 <= |d2|`, as the iterator arithmetic at lines 97-98 does. |
| DirectoryComparator.ISqrt | main.cpp:134 | The number of probes `r` satisfies `r*r <= n < (r+1)*(r+1)`: the square root of the longer length, truncated. |
| DirectoryComparator.Probes | main.cpp:138-142 | There are exactly `n` attempts, and each is a probe from offset `equalityEnd` in both files under some state of the coin stream. |
| DirectoryComparator.Best | main.cpp:138-142 | The running maximum is at least every attempt's count. It equals the count of one of the attempts, or 0 when there are none. So the score is the max of `equalityEnd` and every `equalityEnd + attemptResult`. |
| DirectoryComparator.BestAppend | main.cpp:141 | One more attempt changes the running maximum to the larger of the old maximum and the new count. |
| DirectoryComparator.RandomDist | main.cpp:123-146 | The loops return exactly `Estimate` with `ISqrt(max length)` attempts: the score and the coins drawn. The score lies between the common prefix length and the shorter length. When one file is a prefix of the other, the score is the shorter length and no coin is drawn. |
| DirectoryComparator.EstimateBounds | main.cpp:123-146 | For any number of attempts: common prefix length <= score <= min(|d1|, |d2|). |
| DirectoryComparator.PrefixCaseIsExact | main.cpp:124-132 | If one file is a prefix of the other, the score is exactly the shorter length and the stream is left untouched. No probe runs. |
| DirectoryComparator.IdenticalFilesScoreLength | main.cpp:124-131 | A file compared with itself scores its own length. |
| DirectoryComparator.EmptyFileScoresZero | main.cpp:124-132 | An empty file scores 0 against any file, in either position. |
| DirectoryComparator.DisjointTailsScorePrefix | main.cpp:131-142 | If the parts after the common prefix share no byte value, the score is exactly the common prefix length, for every coin stream. |
| DirectoryComparator.DisjointFilesScoreZero | main.cpp:123-145 | Files with no byte value in common score 0. |
| DirectoryComparator.ProbesExtend | main.cpp:138-142 | With the stream fixed, the first `n` of `m >= n` attempts are the same as running only `n` attempts. |
| DirectoryComparator.MoreAttemptsNeverLower | main.cpp:138-142 | With the stream fixed, more attempts never lower the score, because the score is a running maximum. |
| DirectoryComparator.DivergentTailsExample | main.cpp:123-146 | "abcXXXXX" against "abcYYYYY" scores exactly 3 under every coin stream. |

## Left out

- `CheckDir` (main.cpp:25-34): a filesystem existence check that prints to the console. It is I/O.
- `CompareFilesize` (main.cpp:36-41): it orders paths by on-disk file size, a filesystem call.
- `CompareNocheck` (main.cpp:47-87): directory listing, sorting, reading files and printing the score matrix. It is I/O.
  - At main.cpp:74 it takes the second buffer from `stream1` (the first file's contents) rather than `stream2`.
  - The estimator model does not depend on where its two inputs come from.
- `Solve` and `main` (main.cpp:151-169): they read standard input and write standard output.
- `Uniform01` (main.cpp:15-17): it is unused and works in floating point.
- `BernoulliHalf` (main.cpp:19-21) and `std::rand`'s global state are not modelled as a generator.
  - An arbitrary coin stream stands in for them.
  - Fairness of the coin and any probability or expected-cost statement are not modelled.
- The unused local `similarPartLen` (main.cpp:111).
- ISqrt: it is the exact integer square root. Rounding of the floating-point `std::sqrt` is not modelled.
- RandomDist: lengths are unbounded naturals. The `uint32_t` narrowing of the shorter length (main.cpp:124), of the attempt count (main.cpp:134) and of the score is not modelled. It matches the source for inputs shorter than 2^32 bytes.
- RandomAttemptTillEnd: the `uint32_t` start offsets and count are unbounded naturals. This matches the source for inputs shorter than 2^32 bytes.
- Probes: its contract says only that each attempt is a probe under some state of the stream. That each attempt resumes the stream where the previous one stopped is given by its definition.
- Cursors are indices into the byte sequences rather than `std::string` iterators.
