# sgcn steganography codecs in Dafny

This project models the three graph-steganography codecs of `sgcn`, together
with their helpers, and proves properties about them.

- **BIND** (`bind.py`) hides a message as two-bit symbols. The symbol carried
  by an edge `(a, b)` is the pair of degree parities `(deg a % 2, deg b % 2)`.
  The edge rows of the cover edge list are sorted into four buckets, EE, EO,
  OE and OO. A big-endian header carrying the message length comes first, and
  each symbol of the stream takes the next unused row of its bucket. The
  unused rows follow in bucket order. The whole list is then shuffled with a
  password-seeded permutation.
- **BYMOND** (`bymond.py`) does the same with bytes. The key of an edge is
  `(deg a + deg b) % 256`, so there are 256 buckets. The stream is
  `[bytewidth][count, little-endian][payload]`, and the bytewidth must be one
  of the four keys of the `bw2fmt` table.
- **BYNIS** (`bynis.py`) builds a new graph instead of reordering an existing
  one.
  - Each stream byte is offset by `n_adjusted`, the power of two above the
    node estimate, floored at 256.
  - The byte becomes an edge `(cur, d - cur)`.
  - `cur` walks down a reference degree sequence sorted in descending order.
  - Collisions with existing edges are resolved by shifting the target by
    `256·j`, which keeps the residue `(a + b) % 256`.
  - Decoding reads back the residues of the rows.
- **Utilities** (`utils.py`): the bit width `2^ceil(log2 log2 2n)`, the byte
  width, the iterative extended Euclid algorithm and the modular inverse.
- **Experiment helpers** (the `*_ogb_payload.py` scripts): stand-alone
  capacity estimates and the dry-run checks of the encoders.

**How the model is built**
- A graph backend is modelled as its degree function plus its edge count
  (`Common.Graph`).
- An edge list is a sequence of rows. A pandas index label is taken to be the
  row's position in the edge list.
- The numpy shuffle is a parameter `sh: (n, seed) -> seq<nat>`. The only
  thing assumed about it is that every `sh(n, s)` is a permutation of
  `[0, n)`. Seeds outside `[0, 2^32)` raise ValueError, as `np.random.seed`
  does.
- Python exceptions are values of `Common.Error`, returned in a `Result`.
- `BIND` and `BYMOND` keep mutable fields, so they are classes (`BindCodec`,
  `BymondCodec`) whose methods update those fields. Their loops are methods
  with invariants, each proved equal to a specification function. The
  properties are then lemmas about those functions:
  - the encoder only permutes the cover rows;
  - the capacity checks succeed exactly when every bucket is large enough;
  - decoding an encoded list with the same password returns the message.
- The BYNIS graph under construction is a class `EdgeGraph` with a mutable
  edge set. The degree walk is a method proved equal to the fold `Run`.

Files:

| File | Contents |
|---|---|
| `common.dfy` | types, errors, password-to-seed rule |
| `permutations.dfy` | permutations, `iloc` gathering, inverse permutation |
| `buckets.dfy` | stable filters, bucket consumption and assembly, first overflow, minimum |
| `utils.dfy` | `utils.py` |
| `header.dfy` | little-endian counts, big-endian bit headers, the byte stream of BYMOND and BYNIS |
| `bind.dfy`, `bind_ogb.dfy` | BIND and its experiment helpers |
| `bymond.dfy`, `bymond_ogb.dfy` | BYMOND and its experiment helpers |
| `bynis.dfy` | BYNIS |

## Model

| member | source | states |
|---|---|---|
| Utils.BitWidth | sgcn/utils.py:12-15 | fails with ValueError exactly when n <= 0; otherwise returns `Width(n)` |
| Utils.WidthSpec | sgcn/utils.py:15 | the width is a power of two with `2^w >= 2n`, and it is the least such power (`2^(w/2) < 2n` unless w = 1) |
| Utils.WidthLeast | sgcn/utils.py:15 | every power of two v with `2^v >= 2n` is at least the width |
| Utils.WidthIs | sgcn/utils.py:15 | the width is `2^e` for the e with `2^(2^(e-1)) < 2n <= 2^(2^e)` |
| Utils.WidthMonotone | sgcn/utils.py:15 | the width does not decrease as n grows |
| Utils.ByteWidth | sgcn/utils.py:17-20 | fails with ValueError exactly when n <= 0; otherwise returns the bit width floor-divided by 8 |
| Utils.ByteWidthTable | sgcn/utils.py:17-20 | the byte width is 0 for n <= 8, 1 up to 128, 2 up to 2^15, 4 up to 2^31 and 8 up to 2^63 |
| Utils.CountFitsBytes | sgcn/utils.py:17-20 | for n >= 9 the byte width is at least 1 and n fits in that many bytes |
| Utils.FloorMod | sgcn/utils.py:34 | Python's `//` and `%`: `b == a*q + r`, with r in [0, a) for a > 0 and in (a, 0] for a < 0 |
| Utils.IterativeEgcd | sgcn/utils.py:31-36 | the returned g is a combination `x*a + y*b` that divides both inputs; g >= 0 for non-negative inputs and g < 0 when a < 0 < b |
| Utils.CombinationIsGcd | sgcn/utils.py:31-36 | a non-negative common divisor that is an integer combination of a and b is their greatest common divisor |
| Utils.ModInv | sgcn/utils.py:38-43 | for a >= 0, None exactly when gcd(a, m) != 1; None for a < 0; otherwise an r in [0, m) with `a*r ≡ 1 (mod m)` |
| Header.FromToLE | sgcn/algorithms/realnet/bymond.py:87 | unpacking a little-endian count of w bytes inverts packing it |
| Header.ToFromLE | sgcn/algorithms/realnet/bymond.py:173 | packing the unpacked value of w bytes gives back the same bytes |
| Header.FromToBitsBE | sgcn/algorithms/realnet/bind.py:82 | reading an unsigned big-endian bit field inverts `bitstring.pack("uint:w")` |
| Header.ToFromBitsBE | sgcn/algorithms/realnet/bind.py:189 | packing the value read from w bits gives back the same bits |
| Header.DataStream | sgcn/algorithms/realnet/bymond.py:82-99 | a stream is produced only for a `bytes` or `ndarray` payload |
| Header.DataStreamErrors | sgcn/algorithms/realnet/bymond.py:82-99 | the errors come in the source's order: ValueError for an empty payload, KeyError from `bw2fmt` for at most 8 bytes, struct.error or KeyError beyond 2^63 bytes, and the unsupported-type error only for a length that would otherwise succeed |
| Header.DataStreamDefined | sgcn/algorithms/realnet/bymond.py:84-87 | for a bytes or ndarray payload the stream exists exactly when it has 9 to 2^63 bytes |
| Header.WidthBeyond64 | sgcn/algorithms/realnet/bymond.py:22 | beyond 2^63 bytes the width is at least 16, which `bw2fmt` lacks |
| Header.DataStreamLayout | sgcn/algorithms/realnet/bymond.py:84-99 | the stream is the width byte (a `bw2fmt` key equal to the byte width of the length), then the length in little-endian, then the payload |
| Permutations.Gather | sgcn/algorithms/realnet/bind.py:142 | `iloc[idx]`: element k of the result is row `idx[k]` |
| Permutations.PermutationInjective | sgcn/algorithms/realnet/bind.py:140-141 | a shuffled index array has no repeated entry |
| Permutations.PermutationOnto | sgcn/algorithms/realnet/bind.py:140-141 | every index appears in a shuffled index array |
| Permutations.GatherPermutationMultiset | sgcn/algorithms/realnet/bind.py:142 | reordering rows by a permutation keeps the same multiset of rows |
| Permutations.Inverse | sgcn/algorithms/realnet/bind.py:176-177 | `index_ori[index_rand] = arange(n)` is the two-sided inverse of the shuffle |
| Permutations.GatherInverse | sgcn/algorithms/realnet/bind.py:176-178 | gathering with the inverse undoes the shuffled `iloc` |
| Permutations.InverseUnique | sgcn/algorithms/realnet/bind.py:176-177 | any q with `q[p[k]] == k` for all k is that inverse |
| Permutations.InvertShuffle | sgcn/algorithms/realnet/bind.py:176-177 | the scatter loop computes exactly the inverse permutation |
| Buckets.IndicesOf | sgcn/algorithms/realnet/bind.py:42-45 | a boolean-mask `.index` holds exactly as many indices as there are rows with that key, each the index of such a row |
| Buckets.IndicesOfComplete | sgcn/algorithms/realnet/bind.py:42-45 | it contains every row with that key, in increasing order |
| Buckets.PartitionCovers | sgcn/algorithms/realnet/bind.py:42-45 | the buckets together hold each row index exactly once |
| Buckets.FirstOverflow | sgcn/algorithms/realnet/bind.py:94-110 | the first class, in order, whose symbol count exceeds its bucket, or -1 exactly when none does |
| Buckets.MinOf | sgcn/algorithms/realnet/bind.py:47-50 | Python's `min` over the bucket sizes: a lower bound that is attained |
| Buckets.SmallStreamFits | sgcn/algorithms/realnet/bind.py:47-50 | a stream no longer than the smallest bucket never overflows |
| Buckets.ConsumedClass | sgcn/algorithms/realnet/bind.py:117-126 | symbol i takes a row whose key is that symbol |
| Buckets.AssembledKeys | sgcn/algorithms/realnet/bind.py:129-133 | the first `|syms|` rows of the assembled list carry the symbols in order |
| Buckets.ConsumedMultiset | sgcn/algorithms/realnet/bind.py:117-126 | the consumed rows are exactly the used prefix of every bucket |
| Buckets.AssembleIsPermutation | sgcn/algorithms/realnet/bind.py:129-133 | consumed rows followed by the unused bucket tails are a permutation of all rows: nothing duplicated or lost |
| Bind.ParityKey | sgcn/algorithms/realnet/bind.py:42-45 | the class of an edge is one of EE, EO, OE, OO (0..3) |
| Bind.Keys | sgcn/algorithms/realnet/bind.py:38-45 | one parity class per row, in row order |
| Bind.Symbols | sgcn/algorithms/realnet/bind.py:87-92 | `zip(bits[0::2], bits[1::2])`: `|bits|/2` symbols in 0..3 made from consecutive bit pairs, with an odd last bit dropped |
| Bind.SymbolBitsOfSymbols | sgcn/algorithms/realnet/bind.py:183-194 | joining the two-bit strings of a range of symbols gives back that range of the stream |
| Bind.Stream | sgcn/algorithms/realnet/bind.py:79-84 | the stream exists exactly when there are edges and the byte count fits the header width; it is the big-endian byte count in `Width(n)` bits followed by the message (otherwise ValueError) |
| Bind.FirstOverflowOfFour | sgcn/algorithms/realnet/bind.py:94-110 | the checks run in the order EE, EO, OE, OO and stop at the first class that is short of edges |
| Bind.Scatter | sgcn/algorithms/realnet/bind.py:117-126 | the four fancy-index assignments give symbol i the next unused edge of its bucket |
| Bind.EncodeRows | sgcn/algorithms/realnet/bind.py:79-142 | the encoder's loops compute `EncodeSpec`: stream ValueError, empty-symbol ValueError, RuntimeError naming the first short class, seed ValueError, or the shuffled assembled rows |
| Bind.DecodeRows | sgcn/algorithms/realnet/bind.py:167-199 | the decoder computes `DecodeSpec`: width, inverse shuffle, parity read, header, message, then the `8 * _estimated_max_bits` of the stats |
| Bind.BindCodec.Buckets | sgcn/algorithms/realnet/bind.py:26-29 | the four bucket fields, as a list of four |
| Bind.BindCodec.constructor | sgcn/algorithms/realnet/bind.py:22-33 | a new codec has four empty buckets (the source's `None`), no capacity, and has not estimated |
| Bind.BindCodec.Initialize | sgcn/algorithms/realnet/bind.py:25-33 | resets to the unestimated state: four empty buckets, no capacity |
| Bind.BindCodec.EstimateMaxBits | sgcn/algorithms/realnet/bind.py:36-55 | stores the parity buckets of the cover rows and returns 8 times the smallest bucket size |
| Bind.BindCodec.Encode | sgcn/algorithms/realnet/bind.py:57-156 | estimates only when not yet estimated (otherwise the cached buckets are reused unchanged), then returns `EncodeSpec` over the buckets |
| Bind.BindCodec.Decode | sgcn/algorithms/realnet/bind.py:159-202 | returns `DecodeSpec` with the codec's cached estimate; it changes nothing |
| Bind.BucketsExact | sgcn/algorithms/realnet/bind.py:42-45 | row i is in bucket c exactly when its parity class is c, and each bucket is in increasing order |
| Bind.SmallMessageFits | sgcn/algorithms/realnet/bind.py:47-50 | a stream with no more symbols than the estimate's smallest bucket passes every class check |
| Bind.EncodePermutes | sgcn/algorithms/realnet/bind.py:117-142 | with fresh buckets the encoder never indexes past a bucket, and its output is a reordering of the cover rows |
| Bind.EncodeSpecOk | sgcn/algorithms/realnet/bind.py:79-142 | a successful encode had a valid, non-empty stream that fit every bucket, and its output is the assembled list, shuffled |
| Bind.ArrangeUnshuffled | sgcn/algorithms/realnet/bind.py:136-142 | decoding with the same password undoes the shuffle: the decoder sees the parities of the assembled rows |
| Bind.AssembledParities | sgcn/algorithms/realnet/bind.py:117-133 | the assembled list is a permutation whose first rows carry the symbols |
| Bind.EncodedParities | sgcn/algorithms/realnet/bind.py:57-156 | after encode, the decoder's unshuffled parities start with the stream's symbols |
| Bind.WidthEven | sgcn/algorithms/realnet/bind.py:186 | for at least two edges the header width is even, so `n_bitwidth // 2` header symbols hold it exactly |
| Bind.StreamSymbolBounds | sgcn/algorithms/realnet/bind.py:186-192 | the stream holds the header symbols and four symbols per message byte |
| Bind.HeaderReadBack | sgcn/algorithms/realnet/bind.py:186-189 | the header symbols read back the byte count |
| Bind.BodyReadBack | sgcn/algorithms/realnet/bind.py:192-194 | the next `4 * count` symbols read back the whole bytes of the message |
| Bind.BodyOfBits | sgcn/algorithms/realnet/bind.py:192-194 | after the header, the symbols hold the whole bytes of the message, two bits each |
| Bind.ReadEncodedStream | sgcn/algorithms/realnet/bind.py:183-199 | reading a symbol sequence that starts with the stream returns the message truncated to whole bytes |
| Bind.ReadMessageOk | sgcn/algorithms/realnet/bind.py:186-194 | with enough symbols, the decoder returns the bits of the symbols after the header |
| Bind.RoundTrip | sgcn/algorithms/realnet/bind.py:57-202 | decoding an encoded list, given the same graph and password, returns the message cut to whole bytes |
| Bind.SingleEdgeDecodeFails | sgcn/algorithms/realnet/bind.py:167-168 | a graph with one edge has width 1, so `bitstring` reads an empty header and decode raises ValueError |
| BindOgb.EstimateMaxBits | experiments/bind_ogb_payload.py:13-31 | returns the stable parity buckets [EE, EO, OE, OO] that `BIND` caches: each holds every row of its class once and nothing else, so its size is the class count, and the capacity is 8 times the smallest bucket size |
| BindOgb.EncodeCheck | experiments/bind_ogb_payload.py:33-81 | the dry run passes only with four buckets, a valid non-empty stream and every class within its bucket; any failure is IndexError (too few buckets), ValueError (stream or empty symbols) or a RuntimeError naming one class |
| BindOgb.EncodeCheckMeaning | experiments/bind_ogb_payload.py:33-81 | the dry run passes exactly when the stream is valid, non-empty and fits every bucket; a failure names the first short class |
| BindOgb.EncodeCheckAgrees | experiments/bind_ogb_payload.py:33-81 | the dry run fails with exactly the error `BIND.encode` raises; when it passes, the encoder goes on to shuffle the assembled rows |
| Bymond.Keys | sgcn/algorithms/realnet/bymond.py:37-43 | one residue `(deg a + deg b) % 256` per row |
| Bymond.Consume | sgcn/algorithms/realnet/bymond.py:105-112 | the placement loop succeeds exactly when every byte value has enough rows, takes the next unused row of the byte's bucket, and counts every value |
| Bymond.PickOne | sgcn/algorithms/realnet/bymond.py:105-112 | one byte takes the next unused row of its bucket, or the loop stops because that bucket is used up |
| Bymond.CollectTails | sgcn/algorithms/realnet/bymond.py:117-123 | concatenates the unused tails of the 256 buckets, failing exactly when a label is not a row |
| Bymond.PlaceRows | sgcn/algorithms/realnet/bymond.py:105-123 | computes `Place`: IndexError on an exhausted bucket, then IndexError from `iloc`, then KeyError from `loc` |
| Bymond.EncodeRows | sgcn/algorithms/realnet/bymond.py:82-132 | (corrected encoder, see ## Findings) the encoder computes `EncodeSpec`: stream errors, placement, then the shuffle seeded with the password or 1 |
| Bymond.DecodeRows | sgcn/algorithms/realnet/bymond.py:150-178 | the decoder computes `DecodeSpec`: inverse shuffle, residues, then reading the stream |
| Bymond.ReadStream | sgcn/algorithms/realnet/bymond.py:166-178 | computes `ReadData`: IndexError on too few rows, KeyError on an unknown width, then the payload slice, truncated at the end of the rows |
| Bymond.Tally | sgcn/algorithms/realnet/bymond.py:41-51 | the loop builds the 256 buckets, stores each count in the array and keeps the running minimum |
| Bymond.TallyOne | sgcn/algorithms/realnet/bymond.py:42-48 | one residue appends its bucket, stores its count and advances the running minimum |
| Bymond.TallyCap | sgcn/algorithms/realnet/bymond.py:40-50 | the running minimum kept by the loop is the least count, so the capacity is at most 256 times the row count |
| Bymond.RunningMinBounds | sgcn/algorithms/realnet/bymond.py:41-49 | the running minimum, started at the row count, is at most every count and is either the start or one of the counts |
| Bymond.RunningMinIsMin | sgcn/algorithms/realnet/bymond.py:41-49 | when no count exceeds the row count, the running minimum is the minimum of the counts |
| Bymond.BymondCodec.constructor | sgcn/algorithms/realnet/bymond.py:25-34 | a new codec has a zeroed count array, no buckets and no estimate |
| Bymond.BymondCodec.Initialize | sgcn/algorithms/realnet/bymond.py:28-34 | resets to a fresh zeroed array and no buckets |
| Bymond.BymondCodec.EstimateMaxBytes | sgcn/algorithms/realnet/bymond.py:36-55 | appends the 256 buckets, stores their counts and returns 256 times the smallest, at most 256 times the row count |
| Bymond.BymondCodec.Encode | sgcn/algorithms/realnet/bymond.py:58-140 | (corrected encoder, see ## Findings) estimates only when not yet estimated (otherwise the codec is unchanged); after that estimate the same count array holds every residue count, the cached buckets are the 256 residue buckets and the capacity is 256 times the least count; then returns `EncodeSpec` over the buckets |
| Bymond.BymondCodec.Decode | sgcn/algorithms/realnet/bymond.py:142-185 | returns `DecodeSpec`; it changes nothing |
| Bymond.BucketsExact | sgcn/algorithms/realnet/bymond.py:42-45 | row i is in bucket c exactly when its residue is c, and buckets are increasing |
| Bymond.FreshPlace | sgcn/algorithms/realnet/bymond.py:105-123 | with fresh buckets, placement succeeds exactly when the stream fits, fails only with IndexError, and yields a permutation of the rows |
| Bymond.SmallStreamPlaced | sgcn/algorithms/realnet/bymond.py:41-51 | a stream no longer than the smallest bucket is always placed |
| Bymond.EncodePermutes | sgcn/algorithms/realnet/bymond.py:58-140 | an encoded list is a reordering of the cover rows; with a valid seed and stream, encode succeeds exactly when the stream fits the buckets |
| Bymond.EncodeSpecOk | sgcn/algorithms/realnet/bymond.py:82-132 | a successful encode had a valid seed, a stream and a placement, and returned the placement shuffled |
| Bymond.ShuffledUnshuffled | sgcn/algorithms/realnet/bymond.py:150-164 | un-shuffling with the same seed recovers the residues of the placed rows |
| Bymond.PlacedResidues | sgcn/algorithms/realnet/bymond.py:105-123 | the placed list is a permutation whose first residues are the stream |
| Bymond.EncodedResidues | sgcn/algorithms/realnet/bymond.py:58-164 | after encode, the decoder's residues start with the stream |
| Bymond.ReadDataBack | sgcn/algorithms/realnet/bymond.py:166-178 | residues that start with the stream read back exactly the payload |
| Bymond.ReadLaidOut | sgcn/algorithms/realnet/bymond.py:166-178 | residues that start with a well-formed width, count and payload read back that payload |
| Bymond.RoundTrip | sgcn/algorithms/realnet/bymond.py:58-185 | decoding an encoded list with the same graph and password returns the payload (for the corrected encoder) |
| Bymond.EncodeAsWritten | sgcn/algorithms/realnet/bymond.py:58-140 | the encoder as written (`if pw: pw = 1`, then `if not pw: pw = 1`) equals the corrected encoder given no password: the shuffle is seeded with 1 whatever the password |
| Bymond.AsWrittenRoundTrip | sgcn/algorithms/realnet/bymond.py:78-80 | as written, the round trip holds when the decoder's seed is also 1 (no password, 0 or 1) |
| Bymond.SeedMismatchBreaksRoundTrip | sgcn/algorithms/realnet/bymond.py:78-80 | a concrete graph, payload, shuffler and password 42 for which the as-written encoder's output decodes to KeyError while the corrected encoder's output decodes to the payload |
| BymondOgb.EstimateMaxBytes | experiments/bymond_ogb_payload.py:17-37 | returns the per-residue row counts and 256 times their minimum |
| BymondOgb.EncodeCheck | experiments/bymond_ogb_payload.py:39-72 | the stream's errors, or the first byte value that occurs more often than its residue has rows, or -1 |
| BymondOgb.EncodeCheckAgrees | experiments/bymond_ogb_payload.py:39-72 | with the counts of the cover rows, the dry run says -1 exactly when `BYMOND.encode` succeeds, and a value exactly when the encoder fails with IndexError |
| Bynis.EdgeGraph.constructor | sgcn/algorithms/synnet/bynis.py:80 | `create_graph(directed)`: an empty graph of the given kind |
| Bynis.EdgeGraph.AddEdge | sgcn/algorithms/synnet/bynis.py:108 | adds exactly the one edge |
| Bynis.CeilPow2 | sgcn/algorithms/synnet/bynis.py:65 | `2**ceil(log2 n)`: the least power of two at least n |
| Bynis.NAdjusted | sgcn/algorithms/synnet/bynis.py:65 | `n_adjusted` is a power of two, at least 256 and at least the node estimate, the least such, and a multiple of 256 |
| Bynis.AdjustedResidues | sgcn/algorithms/synnet/bynis.py:66 | the offset does not change any byte's residue modulo 256 |
| Bynis.SortDescending | sgcn/algorithms/synnet/bynis.py:75-76 | `degree_ref[::-1].sort()`: a non-increasing rearrangement of the degrees |
| Bynis.Insert | sgcn/algorithms/synnet/bynis.py:76 | inserting into a non-increasing list keeps it non-increasing and adds exactly one element |
| Bynis.Probe | sgcn/algorithms/synnet/bynis.py:94-105 | the collision loop yields a target whose edge is absent and which is no smaller than the start; it fails only when the first edge is present, with ValueError (only for a negative start) or the rename RuntimeError |
| Bynis.ProbeShift | sgcn/algorithms/synnet/bynis.py:94-105 | the final target is the start shifted by `256 * (j + (j+1) + ...)` over at most the allowed tries |
| Bynis.ProbedTarget | sgcn/algorithms/synnet/bynis.py:94-105 | the probed target differs from `d - cur` by 256 times a sum of tries, with fewer shifts than `max_try_rename`, so the edge's residue is still the byte |
| Bynis.ProbeTarget | sgcn/algorithms/synnet/bynis.py:94-105 | the `while g.has_edge` loop computes `Probe` on the graph's current edges |
| Bynis.Step | sgcn/algorithms/synnet/bynis.py:88-110 | one byte of the walk either fails with IndexError, ValueError or the rename RuntimeError, or adds exactly one edge |
| Bynis.Run | sgcn/algorithms/synnet/bynis.py:87-111 | the walk over all bytes produces one edge per byte |
| Bynis.RunFailed | sgcn/algorithms/synnet/bynis.py:87-111 | the first failing byte ends the walk with its error |
| Bynis.RunNext | sgcn/algorithms/synnet/bynis.py:87-111 | the walk over one more byte is one more step |
| Bynis.StepGood | sgcn/algorithms/synnet/bynis.py:88-110 | each step keeps the walk's invariant: distinct edges recorded in the graph, each keyed by its byte, `cur` advancing by 0 or 1, counters bounded by the reference degrees |
| Bynis.GoodSnoc | sgcn/algorithms/synnet/bynis.py:88-110 | adding one absent edge, keyed by the byte, from the node the counters point at keeps the walk's invariant |
| Bynis.RunGood | sgcn/algorithms/synnet/bynis.py:87-111 | the invariant holds after any successful walk |
| Bynis.RunCapacity | sgcn/algorithms/synnet/bynis.py:78-110 | a successful walk embeds at most the sum over the reference degrees (each counted at least once) bytes |
| Bynis.EmbedByte | sgcn/algorithms/synnet/bynis.py:88-110 | one iteration of the loop on the graph and the counter array performs `Step` |
| Bynis.Embed | sgcn/algorithms/synnet/bynis.py:82-111 | the loop over the adjusted bytes performs `Run` on an empty graph, leaving the walk's edges in the graph |
| Bynis.Encode | sgcn/algorithms/synnet/bynis.py:31-129 | returns `EncodeSpec` and, on success, a fresh graph of the requested kind whose edges are exactly the returned rows |
| Bynis.EncodeSpecParts | sgcn/algorithms/synnet/bynis.py:46-111 | a successful encode had a stream and a successful walk over the sorted degrees, whose edges it returns |
| Bynis.EncodedRows | sgcn/algorithms/synnet/bynis.py:31-129 | encoded rows are distinct edges whose residues are the stream, and whose sources advance from 0 along the reference degrees |
| Bynis.KeyedResidues | sgcn/algorithms/synnet/bynis.py:66-110 | rows keyed by the adjusted bytes have the original bytes as residues |
| Bynis.Residues | sgcn/algorithms/synnet/bynis.py:138-155 | the residues, one per row, `sum(row[:2]) % 256` |
| Bynis.Decode | sgcn/algorithms/synnet/bynis.py:131-162 | the decoder computes `DecodeSpec`: IndexError for missing rows, KeyError for an unknown width, IndexError when more rows follow than the count, then the residues padded with zeros |
| Bynis.Fill | sgcn/algorithms/synnet/bynis.py:146-156 | the message loop writes the residues into a zeroed array of the count, failing with IndexError when rows run past it |
| Bynis.DecodeStream | sgcn/algorithms/synnet/bynis.py:131-162 | rows whose residues are a stream decode to its payload |
| Bynis.RoundTrip | sgcn/algorithms/synnet/bynis.py:31-162 | decoding the rows of a successful encode returns the payload |

## Left out

- The numpy shuffle is a parameter. It is assumed only to be a permutation for each seed. The dependence on the Mersenne Twister state is not modelled.
- pandas is modelled on positions. An index label is taken to equal the row's position, which holds for the default `RangeIndex` of a loaded edge list.
- A graph backend is its degree function and edge count. The backend code `sgcn/graph.py` and `sgcn/engine.py` is not part of this model.
- Logging, the `stats` dictionaries, `tqdm` progress bars and `gc.collect()` are left out. They do not affect results. The BYNIS `num_try_rename` counter feeds only `stats`.
- `get_bitwidth` uses floating-point `log2`. The model uses the exact integer characterisation instead: the least power of two w with `2^w >= 2n`. Floating-point rounding for n near 2^53 and above is not modelled.
- BYNIS `estimate_number_of_nodes` uses floating-point `log10`. Its result is the parameter `nNodes` of `Bynis.Encode`.
- The BYNIS reference graph comes from `powerlaw_cluster_graph` or from `g_ref`. Only its degree sequence enters the encoding, so that sequence is the parameter `refDegrees`. The BYNIS password only seeds this generator, so it is not a parameter either.
- Bynis.Encode: BYNIS arithmetic uses mathematical integers. Under numpy 1.x, `data_origin.astype(np.uint16) + n_adjusted` follows value-based casting, which promotes the array when the Python int does not fit in uint16, and the scalar operations `d - cur_num` and `node_b + 256*j` are promoted to int64, so none of them wraps at the sizes that matter. numpy 2 raises OverflowError for `n_adjusted >= 65536`, and that is not modelled. Under numpy 2 a uint16 byte `d` also keeps `d - cur_num` and `node_b + 256*j` (bynis.py:92 and 97) in uint16 arithmetic, which wraps modulo 65536 instead of going negative, so the negative-ID ValueError of `Bynis.Probe` cannot happen there; the model follows numpy 1.x. The uint32 wrap of `num_use_degree` needs 2^32 bytes and is left out.
- Utils.ModInv: requires a positive modulus, which every use of modular inverses assumes. For `m <= 0` the Python result depends on the sign conventions of `//` and `% m`.
- `utils.py` helpers other than the four widths and gcd functions (`get_rand_indices`, `rand_degree_power`) are outside the core.
- BymondOgb.EncodeCheck: requires `|counts| == 256`. That is the shape of the array `_estimate_max_bytes` returns.
- Bymond.AsWrittenRoundTrip: proves only that the as-written encoder round-trips for passwords that decode turns into seed 1. The converse, that other passwords fail, depends on the shuffler (one that ignores its seed round-trips every password), so it is shown only for one concrete shuffler, by `Bymond.SeedMismatchBreaksRoundTrip`.
- Bymond.BymondCodec.Encode: the invariant does not tie `cntDeg` to the last 256 buckets after repeated estimates. Encode reads only the first 256 buckets, which it does tie to the cover rows.
- RuntimeError values carry the class name (`"EE"` ... `"OO"`) or the BYNIS rename message, not the formatted message text. The texts of `bind.py` and `bind_ogb_payload.py` differ only in their wording.
- `struct` formats in `bw2fmt` use native byte order. The model takes it to be little-endian.
- MemoryError from allocating huge zero arrays is not modelled.
- The graph that BYNIS decode builds feeds only `stats`. The `pw` and `directed` arguments of BYNIS decode are unused, so they are left out.
- The BYNIS object holds no state between calls, so its encode and decode are module-level methods rather than a class.
- The result `pd.DataFrame(list_edges_stego)` is the sequence of rows.
- Sorting the reference degrees (`degree_ref[::-1].sort()`) is modelled on values, as `Bynis.SortDescending`, not as an in-place array sort.
- `bitstring` objects are bit sequences. Message bits that are not a whole number of bytes are carried through: the header counts whole bytes, and decode returns only those.

## Findings

| source | as written | input that shows it | evidently intended | confidence | as-written member | corrected member |
|---|---|---|---|---|---|---|
| sgcn/algorithms/realnet/bymond.py:78-80 | `if pw: pw = 1` before seeding, so encode always shuffles with seed 1, while decode seeds with the password | password 42 with a shuffler that is the identity for seed 1 and a reversal otherwise, on `Bymond.DemoGraph` with the 11 rows of `Bymond.DemoRows`: decode raises KeyError | `if not pw: pw = 1`, as in `BYMOND.decode` and in `BIND.encode` | high (likely a typo); not executed | Bymond.EncodeAsWritten, Bymond.SeedMismatchBreaksRoundTrip | Bymond.RoundTrip |

The same `if pw: pw = 1` appears at `sgcn/algorithms/synnet/bynis.py:42-44`. There
the seed only drives the reference-graph generator, and decode does not depend
on it, so no round trip is affected.
