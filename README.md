# leveldb-sharp utilities and skip-list node, in Dafny

This project models the small stateful building blocks of the C# port of
LevelDB's in-memory skip list (namespace `leveldb`):

- `Random` is the Park–Miller "minimal standard" generator. On each draw its
  state is replaced by `state * 16807 mod (2^31 - 1)`, except that the states
  0 and M = 2^31 - 1 stay fixed. The source computes
  this without a division: it folds the 64-bit product (2^31 is 1 modulo
  2^31 - 1) and subtracts the modulus at most once. `Uniform`, `OneIn` and
  `Skewed` draw from it (module `Rand`, file `random.dfy`).
- `ByteBuffer` is a growable byte array. `Extend(size)` marks `size` bytes as
  in use. When they do not fit, it reallocates to the larger of `size` and
  twice the capacity and copies the used prefix (module `ByteBuffers`).
- `Slice` is an (offset, size) window over a shared byte array. It has
  indexing, size, emptiness and constant-time prefix removal (module
  `Slices`).
- `SkipList.Node` is a key plus a fixed-height array of forward references.
  All the references are empty at construction. The list's `kMaxHeight` is 12
  (module `SkipLists`, constant `MaxHeight`).

The integer widths of .NET are explicit in the model (module `Ints`).
`UInt32`, `UInt64` and `int` are subset types of Dafny's unbounded integers.
On the inputs the model admits, the one place where C# `int` arithmetic can
wrap is the doubling in `ByteBuffer.Extend`, and `WrapInt32` models it. The
source can also wrap elsewhere: `1 << b` for b = 31 and `max_log + 1` in
`Skewed`, and `off_ + n` and `off_ + i` in `Slice`. The preconditions listed
under "Left out" exclude those inputs. The bit masks and shifts of the
generator are written as remainders and quotients by 2^31.

Stateful entities are classes. Each field the source updates in place is a
field, and each method states the whole new state. The generator's
arithmetic is the pure function `Step`. The method `Next` is proved equal to it, and
the lemmas about `Step` carry these promises of the source's comments:
- the true remainder is computed;
- nothing overflows;
- the range [1, M-1] is closed under a step;
- 0 and M are fixed points.

The comment's promise that the sequence cycles through every value of
[1, M-1] is not proved (see "Left out").

## Model

| member | source | states |
|---|---|---|
| `Rand.InitialSeed` | Random.cs:15-18 | the constructor's state is below 2^31 and agrees with the seed in its low 31 bits |
| `Rand.Step` | Random.cs:28-37 | for every 32-bit state, the fold plus the conditional subtraction yields at most M |
| `Rand.Lehmer` | Random.cs:22-23 | the intended next state `(s * 16807) % M` lies below M |
| `Rand.NoOverflow` | Random.cs:28-31 | the 64-bit product is below 2^47 (below 2^46 for a 31-bit state); the fold is below 2^32, so the `(UInt32)` cast loses nothing |
| `Rand.NotDivisible` | Random.cs:25-27 | 16807 is invertible modulo M (inverse 1407677000), so no state in [1, M-1] multiplies to a multiple of M |
| `Rand.FoldCongruent` | Random.cs:30-31 | adding the bits above position 31 to the low 31 bits leaves the remainder modulo M unchanged, because 2^31 = M + 1 |
| `Rand.StepIsLehmer` | Random.cs:22-37 | for every state below M, the division-free computation equals `(s * 16807) % M` |
| `Rand.StepDegenerate` | Random.cs:25-26 | a state of 0 steps to 0 and a state of M steps to M |
| `Rand.StepInRange` | Random.cs:25-27 | a state in [1, M-1] steps to a state in [1, M-1] |
| `Rand.IterateInRange` | Random.cs:25-27 | from a state in [1, M-1], every later state is in [1, M-1] |
| `Rand.IterateDegenerate` | Random.cs:25-26 | 0 and M are absorbing for any number of steps |
| `Rand.IterateClosedForm` | Random.cs:22-23 | after k steps from a state s below M, the state is `s * 16807^k mod M` |
| `Rand.Pow2Int32` | Random.cs:54 | for a shift of at most 30, `1 << b` is a positive `int`, which is what `Uniform` requires |
| `Rand.SkewedFrom` | Random.cs:49-55 | the value `Skewed(maxLog)` returns from a state is below 2^maxLog |
| `Rand.DegenerateSeedSticks` | Random.cs:15-18 | seeds 0, 0x7fffffff and 0xffffffff give a generator that returns 0 or M forever |
| `Rand.GuardedSeed` | Random.cs:15-18 | the corrected initial state is in [1, M-1]; it equals the masked seed unless that is 0 or M, and is 1 for those two |
| `Rand.GuardedSeedCycles` | Random.cs:25-27 | from a corrected initial state, every state of the sequence is in [1, M-1] |
| `Rand.Random.constructor` | Random.cs:15-18 | the state is the seed's low 31 bits |
| `Rand.Random.Guarded` | Random.cs:15-18 | the corrected constructor's state is in [1, M-1], and is 1 when the masked seed is 0 or M |
| `Rand.Random.Next` | Random.cs:20-39 | the new state is `Step` of the old and is returned; it equals `(s * 16807) % M` below M; [1, M-1] is preserved; 0 and M stay fixed |
| `Rand.Random.Uniform` | Random.cs:41-43 | exactly one step; the result is the new state modulo n, so below n |
| `Rand.Random.OneIn` | Random.cs:45-47 | exactly one step; true exactly when the new state is a multiple of n |
| `Rand.Random.Skewed` | Random.cs:49-55 | exactly two steps; the result is the second state modulo 2^b, where b is the first state modulo maxLog + 1; it is below 2^maxLog |
| `Ints.WrapInt32` | ByteBuffer.cs:14 | the wrapped `int` agrees with the exact value modulo 2^32 and equals it when it fits |
| `ByteBuffers.GrownCapacity` | ByteBuffer.cs:14 | the new capacity is at least the request and a valid `int`; it is max(size, 2 * capacity) when the doubling fits, and exactly size when the doubling wraps |
| `ByteBuffers.ByteBuffer.Extend` | ByteBuffer.cs:10-20 | `used == size`; the capacity is at least size and never shrinks; `used <= capacity` is kept; without growth the same array keeps every byte; on growth a fresh array of `GrownCapacity` holds the old used bytes followed by zeros; the used prefix common to both states is unchanged |
| `Slices.Slice.constructor` | Slice.cs:10-13 | offset 0, size 0, no array, no bytes |
| `Slices.Slice.Of` | Slice.cs:15-20 | offset 0 and the given size over the shared array; the slice's i-th byte is the array's i-th byte; a null array gives an empty slice |
| `Slices.Slice.Size` | Slice.cs:22-25 | the size is the number of bytes the slice stands for |
| `Slices.Slice.IsEmpty` | Slice.cs:27-30 | true exactly when the slice stands for no bytes |
| `Slices.Slice.At` | Slice.cs:32-38 | for 0 <= i < size, the indexer returns the slice's i-th byte |
| `Slices.Slice.RemovePrefix` | Slice.cs:40-45 | the size drops by exactly n; the bytes are the old bytes after the first n; the new i-th byte is the old (i+n)-th; the array and its contents are unchanged |
| `Slices.RemovePrefixTwice` | Slice.cs:43-44 | removing a and then b bytes is removing a + b bytes |
| `Slices.RemoveAll` | Slice.cs:41-45 | removing `Size()` bytes leaves the slice empty |
| `SkipLists.Node.constructor` | SkipList.cs:12-16 | stores the key; exactly one fresh forward slot, which is null |
| `SkipLists.Node.WithHeight` | SkipList.cs:18-22 | stores the key; exactly `height` fresh forward slots, all null |

## Left out

- The skip list itself is left out. SkipList.cs has no insert, search or iterator, and its comparator field `compare_` is never set, so only the node, its constructors and `kMaxHeight` are modelled. The test program (SkipListTest/Program.cs) calls members that SkipList.cs lacks and is not part of this model.
- The statistical claims about `Random` are left out: uniformity, the ~1/n frequency of `OneIn` and the bias of `Skewed`. They are probabilistic, and only the exact arithmetic is proved.
- `Rand.Random.Skewed`: requires 0 <= maxLog <= 30. For a larger maxLog, `1 << b` is no longer a positive `int` (and `max_log + 1` wraps at the largest `int`), so the source's own requirement on `Uniform` (n > 0) is broken. A maxLog of -1 is excluded too: the source then calls `Uniform(0)`, which divides by zero.
- `Rand.Random.Uniform` and `Rand.Random.OneIn`: require n > 0, the requirement stated in the source's comments. The source does not check it.
- `ByteBuffers.ByteBuffer.Extend`: requires size >= 0. The source stores a negative size in `used_`, and the next growing `Extend` would then throw in `Array.Copy`.
- The source's `ByteBuffer` has no constructor, and its `data_` is never initialised, so `Extend` on a fresh instance dereferences null. The model's constructor, which allocates a zeroed array of a given capacity, stands in for whatever would set `data_`.
- `Slices.Slice.RemovePrefix`: requires 0 <= n <= Size(). The source does not check n. An out-of-range n leaves a window whose indexing would fault.
- `Slices.Slice.Of`: requires 0 <= size, size <= data.Length for an array, and size 0 for a null array. The source accepts a negative size, a longer size, or a positive size over a null array; indexing such a slice then faults.
- `Slices.Slice.At`: requires 0 <= i < Size(). The source does not check i, and an index inside the array but outside the window would be accepted.
- `SkipLists.Node.WithHeight`: requires height >= 0. A negative height makes the array allocation throw.
- `Rand.IterateInRange`: proves only that the range [1, M-1] is closed under a step. The promise at Random.cs:27 that the sequence cycles through every value of [1, M-1] (a full period of M - 1, which needs 16807 to have order M - 1 modulo M) is not proved.
- Every array length is bounded by the largest `int`, as .NET's is. Garbage collection and memory reclamation are not modelled.

## Findings

| source | as written | input that shows it | evidently intended | confidence | as-written member | corrected member |
|---|---|---|---|---|---|---|
| Random.cs:15-18 | the constructor only masks the seed to 31 bits, although the comment at Random.cs:25-27 says the state must never be 0 or M | `new Random(0)` returns 0 forever; `new Random(0x7fffffff)` and `new Random(0xffffffff)` return M = 2147483647 forever | replace the degenerate states 0 and M by 1, as LevelDB's C++ generator does, so every draw is in [1, M-1] | medium, not executed | `Rand.DegenerateSeedSticks` | `Rand.GuardedSeed` |
