# Htc.Mock in Dafny

Htc.Mock is a mock workload for high-throughput-computing grids. A run is
described by a `RunConfiguration`. From it comes a head request. Processing
a request either yields a value or splits the request into child requests
plus one aggregation request that combines the children's values. The
durations the children pretend to take are drawn from a table of samples
indexed by a CRC-32 checksum of their ids. A local runner evaluates the
whole request tree in one process, caching every value by request id.

This project models the sequential core of that system as pure Dafny
functions over immutable datatypes:

- **Shape trees** (`BitArrays`, `TreeBuilder`, `TreeExt`, `RunConfigurationExt`,
  with the balanced-word theory in `Dyck`). A decomposition tree is a bit
  sequence, 1 for a descent and 0 for a return. The builder accepts bits under
  a depth bound and counts descents per depth. `GetSubTrees` peels off the top
  level. `BuildTree` feeds random bits into a builder and wraps the result in
  a root pair.
- **Checksums** (`Crc32`, `CryptoHashCode`, `StringExt`, `Encodings`). The
  table-driven reflected CRC-32 with polynomial 0xEDB88320, over the UTF-16
  octets of a string in the Core (no final complement). In the Common library
  it runs over ASCII or UTF-8 bytes, is complemented, byte-swapped and read
  as a signed `int`.
- **Requests and their processing** (`CoreRequests`, `CoreAnswers`,
  `RequestResults`, `CoreProcessor`, `CommonRequests`, `CommonProcessor`,
  `RunConfiguration`). Requests are a closed union, and constructor
  `Debug.Assert`s become preconditions. Thrown exceptions become `Err` values
  of a `Result`.
- **The local runner** (`LocalRunner`). A recursive evaluator threading an
  append-only id-to-value map and the list of raised events. Its headline
  lemma is the conservation law behind the runner test: from the default head
  request, exactly `TotalNbSubTasks` requests are spawned and one more is
  processed.

The floating-point parts are parameters:

- the duration samples and the derived duration bounds (`RunConfiguration.FloatingPoint`);
- the root `(int)Math.Pow(n, 1.0 / depth)` (a function `root` of which only
  `CoreProcessor.RootSpec` is assumed);
- the configuration's `IsLeaf`/`GetNbSubtasks` (`CommonProcessor.Splitting`).

The random byte stream of `BuildTree` is a finite sequence of bytes.

Where the code and the documented design disagree, the model follows the code:

- The design describes a shape tree as a balanced word. `GetSubTrees` accepts
  one more form, a single unmatched descent before the final return (see
  Findings).
- The design's local engine chases `hasResult = false` redirections. Both
  local runners read the value their aggregation cached under the compute
  request's id; they chase nothing.

## Model

| member | source | states |
|---|---|---|
| BitArrays.Empty | Htc.Mock/Core/BitArray.cs:26-28 | a new array holds no bytes and no bits |
| BitArrays.WithData | Htc.Mock/Core/BitArray.cs:30-38 | the `Data` init adopts the bytes and sets the length to their count; bit i is bit 0 of byte i |
| BitArrays.Get | Htc.Mock/Core/BitArray.cs:104-112 | an index below 0 or at least `Length` throws IndexOutOfRange; otherwise the result is bit `index` |
| BitArrays.Set | Htc.Mock/Core/BitArray.cs:113-126 | the same bounds error; otherwise the length is kept, bit `index` becomes `value`, every other bit reads as before, and the upper seven bits of every byte are untouched |
| BitArrays.Resize | Htc.Mock/Core/BitArray.cs:45-46 | `Array.Resize` keeps the first bytes and pads with zero bytes to exactly `n` |
| BitArrays.SetLength | Htc.Mock/Core/BitArray.cs:40-49 | a negative length throws ArgumentOutOfRange; otherwise the length becomes `n`, the first min(old, n) bits are kept and new bits read false |
| BitArrays.Clear | Htc.Mock/Core/BitArray.cs:78-96 | the count drops to zero and no bits remain |
| BitArrays.Clone | Htc.Mock/Core/BitArray.cs:102 | the copy has the same count and the same bits |
| BitArrays.FromList | Htc.Mock/Core/BitArray.cs:52-60 | the list constructor gives `Count == array.Count` and bit i equal to `array[i]` for every i |
| BitArrays.GrowThenSetLastAppends | Htc.Mock/Core/TreeBuilder.cs:55-57 | `Length++` then writing the last bit never throws and appends that bit to the sequence of bits |
| BitArrays.FromBits | Htc.Mock/Core/BitArray.cs:52-60 | the array built from 0/1 bytes stands for exactly the given bits |
| TreeBuilder.New | Htc.Mock/Core/TreeBuilder.cs:26-30 | a fresh builder has an empty encoding, depth 0 and the given depth bound, and satisfies the builder invariant |
| TreeBuilder.TryAdd | Htc.Mock/Core/TreeBuilder.cs:37-59 | a return at depth 0 and a descent at the depth bound are refused and change nothing; an accepted bit is appended and moves the depth by one; the invariant (depth = descents − returns, no prefix below 0, depth within the bound, shape keys exactly 1..peak) is kept |
| TreeBuilder.AdvanceValid | Htc.Mock/Core/TreeBuilder.cs:42-57 | the accepted branch keeps the builder invariant |
| TreeBuilder.Shape | Htc.Mock/Core/TreeBuilder.cs:33 | the ordered shape has one positive entry per depth up to the deepest one reached, each the dictionary value at that depth, and the entries sum to the number of descents |
| TreeBuilder.Build | Htc.Mock/Core/TreeBuilder.cs:61-66 | closing appends `Depth` returns, ends at depth 0 with a balanced encoding, keeps the shape dictionary, and `TotalNbTasks` equals the number of descents |
| TreeExt.GetShape | Htc.Mock/Core/TreeExt.cs:26-51 | the entries sum to the number of descents; on a word that never dips below 0 there is one entry per depth up to the peak and entry k counts the descents reaching depth k+1 |
| TreeExt.GetShapeString | Htc.Mock/Core/TreeExt.cs:53 | the entries joined by "."; splitting the string at "." gives back the decimal rendering of every entry |
| TreeExt.GetSubTrees | Htc.Mock/Core/TreeExt.cs:55-83 | an empty encoding throws IndexOutOfRange; a first bit 0 or a last bit 1 throws ArgumentException; on success every subtree is one complete block, and wrapping their concatenation in 1…0 rebuilds the input, up to one trailing lone descent |
| TreeExt.GetSubTreesLanguage | Htc.Mock/Core/TreeExt.cs:58-81 | `GetSubTrees` succeeds exactly on a descent, a balanced word optionally followed by one unmatched descent, and a return |
| TreeExt.GetSubTreesOfBlocks | Htc.Mock/Core/TreeExt.cs:63-78 | for `1·B1…Bk·0` with complete blocks Bi the result is exactly B1…Bk in order |
| TreeExt.SubTreeCount | Htc.Mock/Core/TreeExt.cs:63-78 | on a balanced interior the number of subtrees is the number of descents to depth 2, which is `GetShape(tree)[1]` when there is one |
| TreeExt.GetSubTreesStrict | Htc.Mock/Core/TreeExt.cs:55-83 | the corrected reading: the same errors, and on success the blocks wrapped in 1…0 are exactly the input |
| TreeExt.GetSubTreesStrictLanguage | Htc.Mock/Core/TreeExt.cs:58-81 | the corrected reading succeeds exactly on a descent, a balanced word, and a return |
| TreeExt.LoneDescentDropped | Htc.Mock/Core/TreeExt.cs:80-81 | the encoding 110 is accepted by `GetSubTrees` with no subtrees, while `GetSubTreesStrict` rejects it |
| RunConfigurationExt.ByteBits | Htc.Mock/Core/RunConfigurationExt.cs:37-38 | a random byte yields its 8 bits least significant first, as `(b & (1 << j)) != 0` |
| RunConfigurationExt.StreamBits | Htc.Mock/Core/RunConfigurationExt.cs:33-39 | the stream's bits are its bytes' bits in order, 8 per byte |
| RunConfigurationExt.Feed | Htc.Mock/Core/RunConfigurationExt.cs:33-39 | the stop test is made before every bit; when the stream suffices the builder ends with `TotalNbTasks + Depth / 2` at least the target, its encoding extending the old one by at most the bits offered |
| RunConfigurationExt.WrapRoot | Htc.Mock/Core/RunConfigurationExt.cs:45-48 | growing by two, shifting and setting both ends gives `[1] + bits + [0]` |
| RunConfigurationExt.BuildTree | Htc.Mock/Core/RunConfigurationExt.cs:27-51 | fails only when the stream runs out; otherwise `GetShape(tree) == [1] + shape`, the tree is at most levels + 1 deep, holds at least `TotalNbSubTasks + 1` nodes, and is accepted by `GetSubTrees` with its top-level blocks as subtrees |
| RunConfigurationExt.SameShape | Htc.Mock/Core/TreeBuilder.cs:33 | builders with the same dictionary have the same ordered shape |
| RunConfigurationExt.RootedShape | Htc.Mock/Core/RunConfigurationExt.cs:41-50 | wrapping a closed builder's word in a root pair prepends one node at depth 1 to its shape and raises its peak by one |
| RunConfigurationExt.EnoughNodes | Htc.Mock/Core/RunConfigurationExt.cs:33-43 | a builder that met the stop test holds at least the target number of nodes once built |
| RunConfigurationExt.RootedSubTrees | Htc.Mock/Core/RunConfigurationExt.cs:43-50 | a balanced word under one root pair is accepted by `GetSubTrees`, which yields its blocks |
| RunConfigurationExt.BuildRequest | Htc.Mock/Core/RunConfigurationExt.cs:53-59 | without levels the request is "root" with tree 10 and shape [1]; otherwise "root" with the built tree, and the shape out-parameter is the builder's shape under the root |
| Crc32.ComputeEntry | Htc.Mock/Utils/CryptoHashCode.cs:43-45 | the inner loop gives entry `index` of the table, eight shift-and-fold steps |
| Crc32.BuildTable | Htc.Mock/Utils/CryptoHashCode.cs:37-48 | the static constructor fills exactly the 256-entry table |
| Crc32.TableZero | Htc.Mock/Utils/CryptoHashCode.cs:37-48 | table entry 0 is 0 |
| Crc32.StepLinear | Htc.Mock/Utils/CryptoHashCode.cs:45 | one reflected shift-and-fold step is linear over GF(2) |
| Crc32.RoundsLinear | Htc.Mock/Utils/CryptoHashCode.cs:45 | n steps are linear over GF(2) |
| Crc32.HighPart | Htc.Mock/Utils/CryptoHashCode.cs:60 | eight steps on a register with a zero low byte are a shift by 8 |
| Crc32.AbsorbIsRounds | Htc.Mock/Utils/CryptoHashCode.cs:57-61 | the table update `Table[(h ^ b) & 0xFF] ^ (h >> 8)` equals eight bitwise reflected steps on `h ^ b` |
| Crc32.StreamUpdateAbsorbs | Htc.Mock.Common/StringExt.cs:55 | the Common update `Table[(r & 0xFF) ^ b] ^ (r >> 8)` is the Core update |
| Crc32.CrcAppend | Htc.Mock/Utils/CryptoHashCode.cs:57-61 | absorbing `a + b` is absorbing `b` from where `a` left the register |
| Crc32.TableCrc | Htc.Mock/Utils/CryptoHashCode.cs:52-64 | the table-driven loop computes the CRC register of the bytes |
| Crc32.StreamCrc | Htc.Mock.Common/StringExt.cs:49-56 | the stream loop computes the same register |
| Crc32.StandardCheckValue | Htc.Mock.Common/StringExt.cs:49-57 | the ASCII digits "123456789" give the published CRC-32 check value 0xCBF43926 |
| CryptoHashCode.HashValue | Htc.Mock/Utils/CryptoHashCode.cs:67 | the string checksum is a `uint` |
| CryptoHashCode.SeqHashValue | Htc.Mock/Utils/CryptoHashCode.cs:71-75 | the sequence checksum is a `uint` |
| CryptoHashCode.InternalsAppend | Htc.Mock/Utils/CryptoHashCode.cs:52-64 | hashing `a + b` from a register is hashing `b` from where `a` left it |
| CryptoHashCode.HashFoldConcat | Htc.Mock/Utils/CryptoHashCode.cs:71-75 | the `Aggregate` over the strings threads the register, so it hashes their concatenation |
| CryptoHashCode.HashSeqIsConcat | Htc.Mock/Utils/CryptoHashCode.cs:67-75 | the sequence overload equals the string overload on the concatenation |
| CryptoHashCode.EmptyHashes | Htc.Mock/Utils/CryptoHashCode.cs:67-75 | the empty string, the empty sequence and [""] all hash to 0xFFFFFFFF |
| CryptoHashCode.NoFinalComplement | Htc.Mock/Utils/CryptoHashCode.cs:52-67 | the checksum is the standard CRC-32 of the UTF-16 octets without its final complement |
| CryptoHashCode.StringBytesLayout | Htc.Mock/Utils/CryptoHashCode.cs:54 | in the Basic Multilingual Plane there are two octets per character, low byte first |
| Encodings.Utf16Append | Htc.Mock/Utils/CryptoHashCode.cs:54 | the UTF-16 code units of `a + b` are those of `a` then those of `b` |
| Encodings.Ascii | Htc.Mock.Common/StringExt.cs:70 | `Encoding.ASCII` keeps characters below 128 and turns every other one into '?' (0x3F), one byte per character |
| Encodings.Utf8OfAscii | Htc.Mock.Common/StringExt.cs:73-87 | on ASCII text the UTF-8 bytes the writer emits are the ASCII bytes |
| StringExt.StreamChecksum | Htc.Mock.Common/StringExt.cs:49-60 | the loop's result, as a signed 32-bit value, has as its own bytes the bytes of the standard CRC-32 in reverse order |
| StringExt.StreamHashIsStandard | Htc.Mock.Common/StringExt.cs:49-67 | the stream checksum is the byte-reversed standard CRC-32 read as an `int`, negative exactly when the CRC's low byte has its top bit set |
| StringExt.Int32BytesOfToInt32 | Htc.Mock.Common/StringExt.cs:57-59 | `ToInt32` loses nothing: `GetBytes(ToInt32(bs)) == bs` |
| StringExt.ReverseReverse | Htc.Mock.Common/StringExt.cs:58 | reversing four bytes twice gives them back |
| StringExt.WrittenBytesConcat | Htc.Mock.Common/StringExt.cs:73-87 | writing the strings one by one writes the UTF-8 bytes of their concatenation |
| StringExt.HashSeqOfAscii | Htc.Mock.Common/StringExt.cs:70-87 | on ASCII text the sequence overload equals the string overload on the concatenation |
| StringExt.HashStringReplaces | Htc.Mock.Common/StringExt.cs:70 | a non-ASCII character hashes as '?' |
| StringExt.HashOfB | Htc.Mock.Common/StringExt.cs:49-70 | "b" has standard CRC-32 0x71BEEFF9 and hashes to the negative -101728655 |
| CoreRequests.BaseWith | Htc.Mock/Core/Request.cs:29-33 | `Request(id, dependencies)` stores both unchecked |
| CoreRequests.BaseOf | Htc.Mock/Core/Request.cs:35-39 | a null id throws ArgumentNullException, an empty id ArgumentException "id cannot be null or empty"; otherwise the id is kept with no dependencies |
| CoreRequests.NewFinal | Htc.Mock/Core/FinalRequest.cs:39-42 | succeeds exactly for a non-null, non-empty id, with the base constructor's two errors, giving a final request with that id |
| CoreRequests.HeadFinal | Htc.Mock/Core/FinalRequest.cs:31-37 | the parameterless constructor gives a final request "HeadId" |
| CoreRequests.NewCompute | Htc.Mock/Core/ComputeRequest.cs:51-61 | under the asserted `nbSubrequests > 1` and `depth > 0`, succeeds exactly for a non-empty id and stores depth and count unchanged |
| CoreRequests.HeadCompute | Htc.Mock/Core/ComputeRequest.cs:33-44 | the id-less constructor uses "HeadId" |
| CoreRequests.NewAggregation | Htc.Mock/Core/AggregationRequest.cs:35-49 | under the asserted `depth >= 0`, stores parent id (unchecked, possibly empty), depth and required ids unchanged; the dependencies stay empty |
| RequestResults.ValueResult | Htc.Mock/Core/RequestResult.cs:34-39 | a value result has `HasResult`, the given non-empty value, no subrequests and no output |
| RequestResults.ForwardResult | Htc.Mock/Core/RequestResult.cs:41-62 | a forwarding result has no value, an empty `Result` and the given subrequests |
| RequestResults.WithOutput | Htc.Mock/Core/RequestResult.cs:70-74 | only the output changes, and validity is kept |
| RequestResults.ResultKinds | Htc.Mock.Common/RequestResult.cs:47-61 | in a valid result, having a value, having no subrequests and having a non-empty `Result` coincide, and it is one of the two public forms |
| CoreAnswers.NoResult | Htc.Mock/Core/RequestAnswer.cs:27 | `RequestResult()` is (false, "") |
| CoreAnswers.ResultOf | Htc.Mock/Core/RequestAnswer.cs:29 | `RequestResult(v)` is (true, v) |
| CoreAnswers.ValueAnswer | Htc.Mock/Core/RequestAnswer.cs:35-58 | a value answer has the value and no subrequests, and satisfies the private constructor's assertions |
| CoreAnswers.ForwardingAnswer | Htc.Mock/Core/RequestAnswer.cs:40-58 | a forwarding answer has no value, carries the redirection and the subrequests, and satisfies the assertions |
| CoreAnswers.AnswerKinds | Htc.Mock/Core/RequestAnswer.cs:45-58 | every valid answer is one of the two public forms, chosen by whether it has a value |
| CoreProcessor.GetResultString | Htc.Mock/Core/RequestProcessor.cs:151 | the result string is the id followed by "_result" |
| CoreProcessor.ResultStringInjective | Htc.Mock/Core/RequestProcessor.cs:151 | different ids give different result strings |
| CoreProcessor.AggregateStringInjective | Htc.Mock/Core/RequestProcessor.cs:158 | the aggregate string is "Aggregate_" followed by digits that read back as the checksum, so different checksums give different strings |
| CoreProcessor.GetAggregationRes | Htc.Mock/Core/RequestProcessor.cs:153-156 | the aggregation checksum is a `uint` |
| CoreProcessor.FinalResult | Htc.Mock/Core/RequestProcessor.cs:72-79 | any input throws ArgumentException with the message naming the count; otherwise the value is `id_result` |
| CoreProcessor.AggregationResult | Htc.Mock/Core/RequestProcessor.cs:56-69 | an input count other than the required one throws ArgumentException with both counts; otherwise a valid value result for the request |
| CoreProcessor.AggregationOfConcat | Htc.Mock/Core/RequestProcessor.cs:65-66 | the aggregated value is the result string of the aggregate string of the checksum of the concatenated inputs |
| CoreProcessor.Target | Htc.Mock/Core/RequestProcessor.cs:87-89 | `targetNbRq` lies in [2, N] and is N whenever fewer than 2 requests would remain |
| CoreProcessor.Share | Htc.Mock/Core/RequestProcessor.cs:95-103 | the switch throws InvalidOperationException exactly when one request remains |
| CoreProcessor.ShareKeepsInvariant | Htc.Mock/Core/RequestProcessor.cs:93-111 | with 0 or at least 2 requests remaining, the `1 => throw` arm is dead, a compute child gets at least 2, and 0 or at least 2 remain after it |
| CoreProcessor.SpawnInvariant | Htc.Mock/Core/RequestProcessor.cs:93-111 | the loop never throws, builds one child per iteration with ids `{id}_i`, keeps the remainder 0 or at least 2 and accounts for every request |
| CoreProcessor.NbSumAppend | Htc.Mock/Core/RequestProcessor.cs:123-125 | the sum of the compute children's counts is additive |
| CoreProcessor.LastChild | Htc.Mock/Core/RequestProcessor.cs:113-117 | the last child takes what the loop left and keeps the children's shape and the count |
| CoreProcessor.SplitChildrenShape | Htc.Mock/Core/RequestProcessor.cs:87-117 | there are `targetNbRq − 1` children of the stated shape, accounting for every request |
| CoreProcessor.Aggregator | Htc.Mock/Core/RequestProcessor.cs:119-134 | the aggregation request has the request as parent, one level less depth, and the children's ids in order as required ids |
| CoreProcessor.ComputeSplit | Htc.Mock/Core/RequestProcessor.cs:81-136 | any input throws ArgumentException; a success is a valid forwarding result for the request |
| CoreProcessor.ComputeSplitShape | Htc.Mock/Core/RequestProcessor.cs:87-136 | without inputs the split never throws: children `{id}_0…{id}_{target−2}`, final or compute one level down, then one aggregation with the children's ids; the `Debug.Assert` 1 + #children + Σ counts = N holds |
| CoreProcessor.DepthOneAllFinal | Htc.Mock/Core/RequestProcessor.cs:87-117 | at depth 1 (root = N) the N − 1 children are all final requests |
| CoreProcessor.SplitChildrenValid | Htc.Mock/Core/RequestProcessor.cs:105-134 | every subrequest of a split satisfies its own constructor's assertions |
| CoreProcessor.ComputeResult | Htc.Mock/Core/RequestProcessor.cs:140-149 | any other request type throws ArgumentException "Htc.Mock.Core.Request request cannot be handled."; a success is a valid result for the request's id |
| CoreProcessor.GetResult | Htc.Mock/Core/RequestProcessor.cs:50-54 | succeeds exactly when `ComputeResult` does, with the emulated output attached and nothing else changed |
| CommonRequests.NewRequest | Htc.Mock.Common/Request.cs:67-90 | under the asserts (non-empty id, non-negative duration, memory and output), every field is stored unchanged; it is an aggregation exactly when the parent id is non-empty |
| CommonRequests.NewTask | Htc.Mock.Common/Request.cs:50-65 | the id constructor gives no required ids and an empty parent, so never an aggregation |
| CommonRequests.NewHead | Htc.Mock.Common/Request.cs:35-48 | the head constructor gives id "HeadId", no required ids, an empty parent and current depth 0 |
| CommonProcessor.GetAggregateString | Htc.Mock.Common/RequestProcessor.cs:102 | "Aggregate_" followed by the signed decimal rendering of the checksum |
| CommonProcessor.GetAggregationRes | Htc.Mock.Common/RequestProcessor.cs:97-100 | the aggregation checksum is an `int` |
| CommonProcessor.LeafRule | Htc.Mock.Common/RequestProcessor.cs:47-56 | a root above depth 0 is split; a request at or below the tree's depth is a leaf; below the root an aggregation is a leaf and a plain request is split exactly when the configuration does not call it a leaf |
| CommonProcessor.LeafValues | Htc.Mock.Common/RequestProcessor.cs:58-69 | a leaf never throws; without inputs its value is `id_result`; with ASCII inputs it is the result string of the aggregate string of the checksum of their concatenation |
| CommonProcessor.HeadLeafValue | Htc.Mock.Common/RequestProcessor.cs:47-62 | the head request at depth 0 yields "HeadId_result" |
| CommonProcessor.ChildTask | Htc.Mock.Common/RequestProcessor.cs:76-79 | a child has the id, a duration drawn from the table, the configuration's memory and data, the same depth and one more current depth |
| CommonProcessor.ChildTaskAsWritten | Htc.Mock.Common/RequestProcessor.cs:76-79 | as written, building a child throws IndexOutOfRange exactly when its duration lookup does |
| CommonProcessor.ChildrenAsWritten | Htc.Mock.Common/RequestProcessor.cs:74-81 | `ToList` fails exactly when some child's lookup fails; otherwise child k is the one built for id k |
| CommonProcessor.Aggregator | Htc.Mock.Common/RequestProcessor.cs:84-90 | the aggregation request has the request as parent, the children's ids in order as required ids, a drawn duration, and one more current depth |
| CommonProcessor.AggregatorAsWritten | Htc.Mock.Common/RequestProcessor.cs:84-90 | as written, it throws IndexOutOfRange exactly when its name's duration lookup does |
| CommonProcessor.SortedChildIds | Htc.Mock.Common/RequestProcessor.cs:75-80 | the child ids `{id}_0…{id}_{n−1}` in sorted order: sorted, and a permutation of the ids in index order |
| CommonProcessor.Split | Htc.Mock.Common/RequestProcessor.cs:74-92 | with the corrected lookup, n + 1 subrequests: the children in id order, then their aggregation |
| CommonProcessor.SplitAsWritten | Htc.Mock.Common/RequestProcessor.cs:74-92 | as written, the split succeeds exactly when every duration lookup does, with n + 1 subrequests, and throws IndexOutOfRange otherwise |
| CommonProcessor.ComputeResult | Htc.Mock.Common/RequestProcessor.cs:38-93 | as written: a wrong input count throws ArgumentException; a success is a valid result for the id, with a value exactly for a leaf |
| CommonProcessor.ComputeResultIntended | Htc.Mock.Common/RequestProcessor.cs:38-93 | the same, with durations drawn at the unsigned index, so it never throws IndexOutOfRange |
| CommonProcessor.GetResult | Htc.Mock.Common/RequestProcessor.cs:35-36 | succeeds exactly when `ComputeResult` does, with the output attached; an error is `ComputeResult`'s |
| CommonProcessor.SplitShape | Htc.Mock.Common/RequestProcessor.cs:71-92 | intended fan-out: nbRq plain children `{id}_i` in sorted id order one level down, then one aggregation with the request as parent and the children's ids in order |
| CommonProcessor.SplitShapeAsWritten | Htc.Mock.Common/RequestProcessor.cs:71-92 | as written, the fan-out succeeds exactly when every lookup does, throws IndexOutOfRange otherwise, and on success has the same shape |
| CommonProcessor.SplitAgrees | Htc.Mock.Common/RequestProcessor.cs:74-92 | with no negative checksum among the ids involved, the written split is the intended one |
| CommonProcessor.ComputeResultAgreesNonNegative | Htc.Mock.Common/RequestProcessor.cs:38-93 | with no negative checksum among the ids a split reads, the written `ComputeResult` is the intended one |
| CommonProcessor.RootFanOut | Htc.Mock.Common/RequestProcessor.cs:71-72 | a root at depth 1 fans out into `TotalNbSubTasks` children plus an aggregation; a negative count throws ArgumentOutOfRange |
| RunConfiguration.WrapFoldSum | Htc.Mock/Core/RunConfiguration.cs:73-80 | evaluating the sum with 32-bit wrap-around at every step gives the exact sum reduced once to 32 bits |
| RunConfiguration.SeedIsWeightedSum | Htc.Mock/Core/RunConfiguration.cs:73-80 | the seed is `ticks + 2N + 3·data + 4·memory + 5·levels + 6·min + 7·max + 8·100000`, reduced to 32 bits |
| RunConfiguration.New | Htc.Mock/Core/RunConfiguration.cs:51-86 | under the written asserts, the fields are stored, a bound of −1 is replaced by the derived one and any other is kept, and the table holds the 100000 draws of the generator seeded with the seed |
| RunConfiguration.NewSeed | Htc.Mock.Common/RunConfiguration.cs:69-76 | a constructed configuration's seed is the weighted sum of its fields, reduced to 32 bits |
| RunConfiguration.SampleIndex | Htc.Mock/Core/RunConfiguration.cs:126-127 | the unsigned checksum modulo 100000 is always a valid index |
| RunConfiguration.GetTaskDurationMs | Htc.Mock/Core/RunConfiguration.cs:123-129 | the Core duration is always a drawn sample |
| RunConfiguration.TaskDurationIsDraw | Htc.Mock/Core/RunConfiguration.cs:123-129 | a task's duration is the draw numbered by its checksum modulo 100000 |
| RunConfiguration.CommonTaskDurationAsWritten | Htc.Mock.Common/RunConfiguration.cs:111-117 | the signed checksum's truncating remainder is negative exactly when the lookup throws IndexOutOfRange; otherwise the value is a drawn sample |
| RunConfiguration.CommonTaskDurationMs | Htc.Mock.Common/RunConfiguration.cs:111-117 | corrected: the checksum read as unsigned always indexes a drawn sample |
| RunConfiguration.CommonTaskDurationAgrees | Htc.Mock.Common/RunConfiguration.cs:111-117 | for a non-negative checksum the written and corrected lookups agree; the written one throws exactly for negative checksums that 100000 does not divide |
| RunConfiguration.CommonTaskDurationOfB | Htc.Mock.Common/RunConfiguration.cs:114-115 | the id "b" gives index −28655 and throws; read as unsigned it gives index 38641 |
| RunConfiguration.DefaultHeadRequest | Htc.Mock/Core/RunConfiguration.cs:35-38 | without levels a final request "HeadId"; otherwise the compute request ("HeadId", levels, N) |
| RunConfiguration.HeadRequestGap | Htc.Mock/Core/RunConfiguration.cs:35-63 | the written asserts admit one level with one task, for which the head request `ComputeRequest(1, 1)` breaks its own assertion |
| RunConfiguration.AcceptsHasHeadRequest | Htc.Mock/Core/RunConfiguration.cs:59-63 | the corrected asserts hold exactly when the written ones hold and the head request can be built |
| RunConfiguration.Minimal | Htc.Mock/Core/RunConfiguration.cs:132-136 | 100 ms, no task, no level; its head request is the final request "HeadId" |
| RunConfiguration.XSmall | Htc.Mock/Core/RunConfiguration.cs:139-143 | 2 minutes, 10 tasks, 1 level; head request ("HeadId", 1, 10) |
| RunConfiguration.Small | Htc.Mock/Core/RunConfiguration.cs:146-150 | 10 minutes, 100 tasks, 2 levels |
| RunConfiguration.Medium | Htc.Mock/Core/RunConfiguration.cs:153-157 | 1 hour, 10000 tasks, 3 levels |
| RunConfiguration.Large | Htc.Mock/Core/RunConfiguration.cs:160-164 | 36 hours, 4000000 tasks, memory 2, 5 levels |
| RunConfiguration.XLarge | Htc.Mock/Core/RunConfiguration.cs:167-171 | 24000 hours, 6000000 tasks, memory 3, 7 levels |
| Ordinal.Sort | Htc.Mock.Common/RequestProcessor.cs:80 | sorting gives a sorted permutation of the ids |
| Ordinal.SortedUnique | Htc.Mock.Common/RequestProcessor.cs:80 | a sorted permutation is unique, so the order does not depend on how it is computed |
| Text.NatToStringRoundTrip | Htc.Mock/Core/RequestProcessor.cs:158 | the decimal rendering of a number reads back as the number |
| Text.SplitJoin | Htc.Mock/Core/TreeExt.cs:53 | splitting a join at a separator no part contains gives the parts back |
| LocalRunner.TryAdd | Htc.Mock/RequestRunners/LocalRequestRunner.cs:66-84 | `TryAdd` keeps an existing entry and adds a missing one; nothing else changes |
| LocalRunner.Lookup | Htc.Mock/RequestRunners/LocalRequestRunner.cs:77-79 | the inputs are the cached values of the required ids in order; a missing key throws KeyNotFound |
| LocalRunner.AggregationToRun | Htc.Mock.Common/LocalRequestRunner.cs:92-107 | the Core runner takes the last aggregation its filter saw and rejects null; the Common runner's `Single()` throws InvalidOperation unless there is exactly one |
| LocalRunner.FinalStep | Htc.Mock/RequestRunners/LocalRequestRunner.cs:61-72 | a final request raises one start, returns `id_result` and caches it under its id unless already present |
| LocalRunner.AggregationStep | Htc.Mock/RequestRunners/LocalRequestRunner.cs:74-90 | an aggregation with an uncached input throws KeyNotFound; otherwise its value is cached under its id and its parent's id, first write winning |
| LocalRunner.UnsupportedRequest | Htc.Mock/RequestRunners/LocalRequestRunner.cs:133-134 | any other request type throws ArgumentException before anything happens |
| LocalRunner.SubRequestsSplit | Htc.Mock/RequestRunners/LocalRequestRunner.cs:95-107 | a compute request's subrequests are its valid final or compute children and then one aggregation, adding up to its count |
| LocalRunner.ProcessCounts | Htc.Mock/RequestRunners/LocalRequestRunner.cs:57-137 | processing never fails, caches the request's value under its id, only grows the cache, raises one start per request of the tree and spawnings summing to the requests below it |
| LocalRunner.RunSubRequestsCounts | Htc.Mock/RequestRunners/LocalRequestRunner.cs:100-130 | the children are processed before the aggregation, the compute value is the one cached under its id, and one start and one spawning are raised per request below |
| LocalRunner.ProcessAllCounts | Htc.Mock.Common/LocalRequestRunner.cs:95-105 | the loop over children never fails, caches every child, and adds their events plus, for the Core runner, one spawning per child |
| LocalRunner.HeadRequestCounts | Htc.Mock.Tests/LocalRequestRunnerTests.cs:68-69 | from the default head request, exactly `TotalNbSubTasks` requests are spawned (none without levels) and one more is processed |
| LocalRunner.MinimalRun | Htc.Mock.Common.Tests/LocalRequestRunnerTests.cs:71 | the Minimal configuration's run yields "HeadId_result" and processes one request |

## Left out

- Floating point: the Beta sampler of the duration table, the derived duration bounds, `AvgDurationMs` and `(int)Math.Pow(n, 1.0 / depth)` are parameters. Only what the code relies on is assumed: the root lies in [0, n] and is n at depth 1.
- `EmulateComputation` in both processors: a timed delay, memory touching and dummy output with no effect on results. Its output is a parameter of `GetResult`.
- Logging (`ILogger`, `Console.WriteLine`) has no effect on results and is not modelled.
- The parallel branches of both local runners (`Parallel.ForEach`), `ConcurrentDictionary` thread safety and event thread safety. Only the sequential branch is modelled. Nested calls actually pass `ParallelRun`, which defaults to true (Htc.Mock/RequestRunners/LocalRequestRunner.cs:46,123), and the Common runner's nested calls use the default `parallelRun = true`. So below the top level both runners run in parallel, which the model evaluates in order.
- The Common local runner is modelled over the Core request union and the Core processor. Htc.Mock.Common/LocalRequestRunner.cs:54-117 switches on `FinalRequest`/`AggregationRequest`/`ComputeRequest`, but the Common processor's subrequests are plain Common `Request`s, which that switch rejects. The Common request subclasses are stale copies whose `base(id)` matches no constructor, and they are not part of this model.
- The distributed runners, the grid libraries, the local grid sample, serialization (protobuf data adapters, `TreeWrapper`) and the interfaces and plumbing around them.
- Tree.cs is not part of this model beyond `TreeExt.Tree`, a bit sequence.
- BitArray's enumerator and `Add`/`Contains`/`Remove`/`CopyTo` are not used by the tree code and are unimplemented or type-mismatched, so they are not modelled. Its first `MoveNext` skips index 0.
- The seed-driven `System.Random` byte stream of `BuildTree` is a finite sequence of bytes. `BuildTree` returns `None` when the stream runs out, where the C# loop would draw more. Grouping the draws into chunks of 100 bytes only regroups the same bits.
- TreeExt.GetSubTrees: modelled as the list `ToList` would build. The C# method is a lazy `yield` iterator (Htc.Mock/Core/TreeExt.cs:55-83), so its argument check runs only when enumeration starts, and blocks before a malformed part are yielded before the exception.
- CommonProcessor.SortedChildIds: `OrderBy(rq => rq.Id)` uses the current culture's string comparer (Htc.Mock.Common/RequestProcessor.cs:80); the model sorts by ordinal (code-unit) order. The two agree on ids of letters, digits and '_' only under cultures that order them the same way.
- CommonProcessor.ComputeResult: requires `DurationsNonNegative`, the request constructor's assertion on the durations it receives. A user-supplied negative `minDurationMs` breaks it: with a negative lower bound the sampler may draw negative durations, which the C# passes to the `Request` constructor's `Debug.Assert(durationMs >= 0)`.
- CommonProcessor.Splitting: `IsLeaf(id)` and `GetNbSubtasks(id)` of the Common configuration are not shown in the source. They are uninterpreted functions.
- Encodings.CodeUnits: a Dafny `char` is a Unicode scalar value, so strings holding lone surrogates, which C# strings can contain, cannot be represented.
- The newer processor exercised by Htc.Mock.Tests/RequestProcessorTests.cs (values "1", "root.2") is not part of this model.

## Findings

| source | as written | input that shows it | evidently intended | confidence | as-written member | corrected member |
|---|---|---|---|---|---|---|
| Htc.Mock/Core/TreeExt.cs:80-81 | the remainder check tests `TotalNbTasks > 0`, which is `Count / 2`, so a single trailing unmatched descent passes and is silently dropped | the encoding 110 yields no subtrees and no exception | reject any leftover bits, accepting exactly a root pair around a balanced word | not executed | TreeExt.GetSubTrees, TreeExt.LoneDescentDropped | TreeExt.GetSubTreesStrict |
| Htc.Mock.Common/RunConfiguration.cs:114-115 | the checksum is a signed `int`, so `hash % NbSamples` is negative for a negative hash and indexing the table throws IndexOutOfRangeException; every split whose child or aggregate id hashes negative throws | the id "b": standard CRC-32 0x71BEEFF9, hashed to −101728655, index −28655 | index with the checksum read as unsigned, as the Core does (index 38641 for "b") | not executed | RunConfiguration.CommonTaskDurationAsWritten, RunConfiguration.CommonTaskDurationOfB, CommonProcessor.ComputeResult | RunConfiguration.CommonTaskDurationMs, CommonProcessor.ComputeResultIntended |
| Htc.Mock/Core/RunConfiguration.cs:60 | the constructor asserts only `subTasksLevels == 0 \|\| totalNbSubTasks > 0`, but the head request built from it asserts more than one subrequest (Htc.Mock/Core/ComputeRequest.cs:57) | one level and one task (10000 ticks, N = 1, data 1, memory 1, levels 1) is accepted, and `DefaultHeadRequest` then builds `ComputeRequest(1, 1)` | assert `totalNbSubTasks > 1` when there are levels | not executed | RunConfiguration.AssertsAsWritten, RunConfiguration.HeadRequestGap | RunConfiguration.Accepts, RunConfiguration.AcceptsHasHeadRequest |
