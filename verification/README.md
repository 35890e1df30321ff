# Proofs about the engine's algorithmic cores

This project models, in Dafny, the hand-optimised algorithms under the HTTP, HTML and JavaScript engine and
proves that each computes what its simple specification says, over all inputs, all runs or all interleavings.

- **Documents** (`Forests`, `Arena`, `Dom`). The DOM arena is a class over parallel vectors with doubly linked
  sibling lists, a free list and generation counts. A ghost forest says what the vectors represent. Pushing,
  removing in place without a stack, and numbering with an explicit stack keep the representation; the interval
  test on the numbers is the ancestor walk. An id that stops being valid comes back only after its slot's
  32-bit generation has wrapped.
- **Puzzles** (`Words`, `Decimal`, `Sha`, `PowScan`, `BatchScan`, `Puzzles`, `Solve`). SHA-256 is built around an arbitrary
  compression function. Midstates, frames with patched digits, in-place decimal counters and eight-lane batches
  return exactly what the one-nonce-at-a-time scan over one-shot hashes returns, for the plain, HMAC and chained
  puzzle.
- **Search** (`WidthSearch`, `SearchProtocol`, `Solve`). The jobs tile the nonces; producer, workers, abort and
  result collection are a state machine whose loads may be stale. The result is the least hit for every schedule
  if and only if there is one worker or no two jobs before the last both hold a hit; put together with the
  eight-lane search, or the scan of the Argon2id puzzle, this is a statement about nonces and digests.
- **Checksums and hashes** (`Crc`, `Adler`, `Blake2b`). Slice-by-8 CRC-32 against the bitwise register, Adler-32
  with deferred reduction against the per-byte definition, and the incremental BLAKE2b buffer and its
  variable-length form around an arbitrary compression function.
- **PNG** (`Zlib`, `Png`). The streaming writer that patches block headers in its own output, against a decoder of
  stored blocks, zlib and PNG chunks.
- **Time** (`Calendar`, `Tz`). Day numbers and dates as a bijection that meets the dates in order, weekday rules,
  and offsets as a step function behind a one-entry memo.
- **Argon2** (`ArgonIndex`, `ArgonFill`, `Argon`). Reference positions in wrapping arithmetic with division by
  multiplication, the segment loop against the block recurrence, and the whole digest around an arbitrary
  permutation.
- **robots.txt** (`Robots`, `RobotsRules`). Greedy wildcard matching against its declarative meaning, groups, and
  the deciding rule.
- **Runtime bookkeeping** (`Timer`, `Budget`, `Utf8`). A timer heap with dead keys, a two-counter budget under any
  interleaving, and UTF-8 validation over arbitrary chunk borders.

Code the model treats as arbitrary functions: SHA-256 compression, BLAKE2b compression, the Argon2 permutation.
They are parameters, so the results hold for every choice. Machine integers wrap or truncate where the code's
values can pass their width, as in a release build; the exceptions are named under "Left out". CPU features appear
as flags that select a path.

What the code and its specification both call is tied down by a law of its own: byte orders by the numbers they stand
for, CRC fields by the residue, constants by the roots they come from, weekdays and transitions by what clocks show.

Where the code departs from the claim one would expect, the theorem says exactly when:

- The PNG data length is declared 5 bytes short when `(1 + 4 * width) * height` is a multiple of 65535; the file
  is readable exactly otherwise (`Png.FileDecodes`, `Png.BorderData`, `Png.TallCanvas`).
- The BLAKE2b hasher compresses a full buffer at once, so its digest is the standard's, for every compression
  function, exactly when the length is 0 or not a multiple of 128 (`Blake2b.EagerIsRfc`). For H' that is when
  4 plus the input length is not a multiple of 128 (`Blake2b.LongIsHPrime`); for the Argon2 initial hash when
  40 plus the lengths of password and salt is not (`Argon.InitialHashIsRfc`).
- The search returns the least hit under every schedule exactly when there is one worker or no two jobs before the
  last both hold a hit (`SearchProtocol.FindsLeastExactly`). Two threads and the hits 3 and 9 are a case where it
  may return 9 (`SearchProtocol.TwoWorkersMayMiss`).
- Fields make an instant that gives the fields back exactly when their local time fits in 64 bits
  (`Calendar.CivilOfEpoch`); the year 300,000,000 is too late (`Calendar.FarNewYear`).
- A record that is neither a rule nor an agent line ends the agent lines of a group in the parser but not in the
  standard. The rules found are the standard's exactly when no rule is cut off that way
  (`RobotsRules.StandardUnlessInterrupted`, `RobotsRules.SitemapCutsOff`).
- An interval cancelled from its own callback goes on (`Timer.IntervalGoesOn`).
- The count of live timers is right exactly as long as no timer is set under an id that is still pending
  (`Timer.CountDrifts`), and each pending timer has one key exactly as long as none is set under an id that a key in
  the heap still carries (`Timer.PushTidy`). Ids come round after 2^32 - 1 of them, and then both can happen
  (`Timer.ComeRound`); until then, or 2^64 keys, since the last clearing the whole invariant of the queue holds.
- `is_descendant` is ancestry exactly where `Dom.AnswerIsAncestry` says. If every push since the numbering reused a
  slot, it is right for numbered nodes, but misses a new leaf below its parent (`Dom.PushedLeafMissed`) and takes
  one new leaf for an ancestor of the next (`Dom.PushedLeafMistaken`). If a push made the arena grow, or nothing was
  numbered yet, it follows parents for every pair of nodes and finds ancestors up to 513 generations away. The
  crate's public functions reach neither state: elements are pushed only before `attach_name_tables` numbers them.
- `adler32_zeros` agrees with feeding zeros exactly when there are none, or the low half of the state is below 65521
  and the 64-bit sum does not wrap (`Adler.ZerosAreFed`, with failing inputs in `Adler.ZerosNotFed`).
- Storing rules for a domain a second time has no effect (`RobotsRules.RobotsCache.ParseAndStore`).

## Model

| member | source | states |
|---|---|---|
| `Forests.WalkSound` | crates/parser-pipeline/src/dom.rs:680-708 | every event of a depth-first walk belongs to a descendant of its start |
| `Forests.WalkComplete` | crates/parser-pipeline/src/dom.rs:680-708 | every descendant is entered and left in the walk |
| `Forests.WalkDistinct` | crates/parser-pipeline/src/dom.rs:680-708 | no event occurs twice in a walk |
| `Forests.IntervalsDecideAncestry` | crates/parser-pipeline/src/dom.rs:733-741 | one node is entered after and left before another exactly when it is in the other's subtree |
| `Forests.PendingEnter` | crates/parser-pipeline/src/dom.rs:683-706 | replacing a node on the explicit stack by its exit and its children leaves the events still to come unchanged |
| `Forests.WalkLength` | crates/parser-pipeline/src/dom.rs:676-682 | a walk of the document has at most two events a node and two for the root |
| `Forests.PostOrderIsSubtree` | crates/parser-pipeline/src/dom.rs:496-524 | the exit order of a subtree lists each of its nodes once and no other |
| `Forests.Descend` | crates/parser-pipeline/src/dom.rs:496-505 | going down to the first child continues the walk where entering a node left it |
| `Forests.AfterChild` | crates/parser-pipeline/src/dom.rs:506-524 | after a node comes its next sibling's subtree, or the exit of its parent |
| `Forests.PruneOk` | crates/parser-pipeline/src/dom.rs:487-534 | a forest without one subtree is a forest |
| `Forests.PruneLists` | crates/parser-pipeline/src/dom.rs:487-534 | the remaining child lists lose the removed root only, in place |
| `Forests.PruneKeepsAncestry` | crates/parser-pipeline/src/dom.rs:487-534 | removing a subtree changes no ancestor relation among the rest |
| `Forests.AddLeafKeepsAncestry` | crates/parser-pipeline/src/dom.rs:287-344 | adding a last child changes no ancestor relation among the others |
| `Arena.LinkRep` | crates/parser-pipeline/src/dom.rs:334-344 | linking a fresh slot behind the tail of a child list represents the forest with that leaf added |
| `Arena.UnlinkLists` | crates/parser-pipeline/src/dom.rs:452-470 | unlinking rewrites exactly one sibling list, dropping one node |
| `Arena.FreedAllCells` | crates/parser-pipeline/src/dom.rs:471-486 | freeing a list of distinct slots clears exactly those, counts one generation each, and touches no other link |
| `Dom.NodeCount` | crates/parser-pipeline/src/dom.rs:276-286 | live nodes and free slots add up to the arena: an element can be refused only when all slots are live |
| `Dom.RemovedCore` | crates/parser-pipeline/src/dom.rs:487-534 | after a removal the arrays represent the pruned forest and the free list is exactly the slots with flags 0 |
| `Dom.RemovedIndex` | crates/parser-pipeline/src/dom.rs:525-534 | the script, form and input lists and the title and description nodes keep exactly their surviving entries |
| `Dom.OpenedInOrder` | crates/parser-pipeline/src/dom.rs:405-415 | opening keeps the script, form and input lists in the order in which their nodes were opened |
| `Dom.FirstTaken` | crates/parser-pipeline/src/dom.rs:415-426 | title and description: the first one opened while there is none is taken, one that is set stays |
| `Dom.RemovedInOrder` | crates/parser-pipeline/src/dom.rs:525-534 | a removal keeps that order |
| `Dom.KeptSingles` | crates/parser-pipeline/src/dom.rs:525-534 | a title or description stays set exactly as long as its node is there |
| `Dom.NumberingStep` | crates/parser-pipeline/src/dom.rs:683-706 | one round of the numbering loop stamps the next event of the walk |
| `Dom.NumberingDone` | crates/parser-pipeline/src/dom.rs:672-711 | when the stack is empty every node carries its positions in the walk, and other slots carry none |
| `Dom.OrdersDecide` | crates/parser-pipeline/src/dom.rs:730-741 | the interval test on stored orders equals the ancestor test for numbered nodes; about a node pushed since it answers whether the root is also new |
| `Dom.AnswerIsAncestry` | crates/parser-pipeline/src/dom.rs:712-742 | the answer for two live nodes is ancestry exactly: with orders, for numbered nodes and where being an ancestor and being unnumbered agree; without, up to 513 generations |
| `Dom.PushedLeafMissed` | crates/parser-pipeline/src/dom.rs:730-733 | a leaf pushed into a reused slot after the numbering is not seen below its parent |
| `Dom.PushedLeafMistaken` | crates/parser-pipeline/src/dom.rs:730-733 | and is taken for an ancestor of the next such leaf |
| `Dom.WithinIsBoundedAncestry` | crates/parser-pipeline/src/dom.rs:712-728 | the fallback walk finds exactly the ancestors within its hop limit |
| `Dom.RunEvolves` | crates/parser-pipeline/src/dom.rs:208-236 | over a run slots are freed more and more often, and one not freed meanwhile stays live |
| `Dom.RevivalTakesAWrap` | crates/parser-pipeline/src/dom.rs:537-540 | an id that lost its validity gets it back only after its slot has been freed 2^32 times |
| `Dom.DomTree.constructor` | crates/parser-pipeline/src/dom.rs:244-274 | the empty document is a well-formed forest with no slots |
| `Dom.DomTree.AllocSlot` | crates/parser-pipeline/src/dom.rs:276-286 | a free slot is reused before the arena grows, and the arena stops at its limit |
| `Dom.DomTree.PushSlot` | crates/parser-pipeline/src/dom.rs:287-316 | the new node is the last child of its parent, every other node stays, the representation holds |
| `Dom.DomTree.OpenElement` | crates/parser-pipeline/src/dom.rs:364-428 | adds exactly one leaf, flagged as an element, and its index entry; fails exactly when every slot of a full arena is live, and then changes nothing |
| `Dom.DomTree.PushText` | crates/parser-pipeline/src/dom.rs:429-450 | nothing without a parent, when the text continues the last child, or when the arena is full; otherwise one new text leaf |
| `Dom.DomTree.FreeSubtree` | crates/parser-pipeline/src/dom.rs:496-524 | the loop without a stack terminates and frees exactly the subtree, each node once, children before parents |
| `Dom.DomTree.ComputeOrders` | crates/parser-pipeline/src/dom.rs:672-711 | the numbering loop terminates and its orders are the entry and exit positions of the document walk |
| `Dom.DomTree.RemoveNode` | crates/parser-pipeline/src/dom.rs:487-534 | succeeds exactly for a valid id; then the forest is pruned, the free list grows by the subtree in post-order, the indexes are filtered and the nodes renumbered |
| `Dom.DomTree.IsDescendant` | crates/parser-pipeline/src/dom.rs:712-742 | exactly ancestry while the orders are fresh, and exactly what it answers otherwise |
| `Words.LeadingZerosBound` | crates/challenge-solver/src/scan.rs:14-16 | at least k leading zero bits means below a power of two |
| `Words.LeadingZerosTop` | crates/core-utils/src/crypto.rs:103-112 | the first nonzero word decides the count |
| `Words.LzWordsBe` | crates/core-utils/src/crypto.rs:103-112 | the branch-free count is the number of leading zero bits of the 256-bit number |
| `Words.LzCarryChain` | crates/core-utils/src/crypto.rs:89-101 | the early-exit count over (count, zero) pairs is the same number |
| `Words.WordsBeOfBeWords` | crates/challenge-solver/src/scan.rs:140-152 | bytes to big-endian words and back |
| `Words.BeWordsOfWordsBe` | crates/challenge-solver/src/scan.rs:140-152 | big-endian words to bytes and back |
| `Words.WordsBeValue` | crates/core-utils/src/crypto.rs:103-112 | a digest stands for the same number as its words |
| `Decimal.FixedValue` | crates/core-utils/src/math.rs:273-282 | the digits written stand for n modulo 10^width |
| `Decimal.FixedIsDigits` | crates/core-utils/src/math.rs:8-22 | with just enough room the fixed and the shortest forms agree |
| `Decimal.FixedInjective` | crates/challenge-solver/src/scan.rs:76-80 | different nonces of one width have different digits |
| `Decimal.DigitsFixedInto` | crates/core-utils/src/math.rs:273-282 | writes the last width digits and nothing else |
| `Decimal.DigitsInto` | crates/core-utils/src/math.rs:8-22 | writes all digits at the end of the buffer, no leading zero |
| `Decimal.IncrDec` | crates/challenge-solver/src/scan.rs:31-41 | adds to a decimal counter in place, for one row of lanes |
| `Sha.Midstate` | crates/core-utils/src/crypto.rs:26-36 | absorbs whole blocks and keeps the rest |
| `Sha.ZeroCountIsLeast` | crates/core-utils/src/crypto.rs:837-842 | the padding of section 5.1.1 of FIPS 180-4 uses the fewest zeros |
| `Sha.Be64Value` | crates/core-utils/src/crypto.rs:837-842 | the eight bytes stand for the 64-bit number, most significant first |
| `Sha.PaddingIs` | crates/core-utils/src/crypto.rs:837-842 | a marker, zeros, and the length in bits as a big-endian number |
| `Sha.StartsFromRoots` | crates/core-utils/src/crypto.rs:26-36 | the initial state is that of section 5.3.3 of FIPS 180-4: the fractional parts of the square roots of the first eight primes |
| `Sha.TailPad` | crates/core-utils/src/crypto.rs:837-842 | writes marker, zeros and length of the standard padding in place; the last eight bytes stand for the bit length |
| `Sha.FrameBlocks` | crates/challenge-solver/src/scan.rs:477-487 | the one or two last blocks of the message with zero digits |
| `Sha.PatchDigits` | crates/challenge-solver/src/scan.rs:489-508 | digits go in place, also across the block border |
| `Sha.TailDigest` | crates/challenge-solver/src/scan.rs:140-152 | the digest of the framed message |
| `Sha.FrameAbsorbed` | crates/challenge-solver/src/scan.rs:188-206 | patched blocks absorb to the state of the framed message |
| `Sha.FramedIsSha256` | crates/core-utils/src/crypto.rs:26-36 | midstate, tail and frame give the fold over the padded whole message |
| `PowScan.HitsIsLeadingZeros` | crates/challenge-solver/src/scan.rs:14-16 | the hit test is a leading-zero count of the digest |
| `PowScan.FirstWordDecides` | crates/challenge-solver/src/scan.rs:155-186 | up to 32 bits only the first word matters |
| `PowScan.IsHit` | crates/challenge-solver/src/scan.rs:102-126 | the scalar test decides a hit |
| `PowScan.MaskFirst` | crates/challenge-solver/src/scan.rs:155-186 | the lowest set bit of a lane mask is the first lane that passes |
| `PowScan.Check8` | crates/challenge-solver/src/scan.rs:155-186 | the first of eight lanes that hits, on either path |
| `PowScan.OuterRound` | crates/challenge-solver/src/hmac.rs:68-76 | the outer hash of an inner digest from the stored outer midstate |
| `PowScan.ChainBlock` | crates/challenge-solver/src/chain.rs:37-41 | a 32-byte digest padded to one block |
| `PowScan.MidOne` | crates/challenge-solver/src/hmac.rs:103-105 | one lane: plain, outer hash or repeated hash |
| `PowScan.InitBlocks` | crates/challenge-solver/src/hmac.rs:107-111 | the lane blocks end as the outer hash needs them |
| `PowScan.MidStep` | crates/challenge-solver/src/chain.rs:71-79 | eight lanes in place agree with the one-lane form, lane by lane |
| `BatchScan.FirstHitIsLeast` | crates/challenge-solver/src/scan.rs:102-126 | the result of a scan is the least hit of its range and its digest, or nothing exactly when there is none |
| `BatchScan.PlanOf` | crates/challenge-solver/src/scan.rs:91-99 | the prepared blocks are the frame with zero digits |
| `BatchScan.ScalarScan` | crates/challenge-solver/src/scan.rs:188-206 | one nonce at a time returns the first hit |
| `BatchScan.NonceDigits.constructor` | crates/challenge-solver/src/scan.rs:454-461 | lane k starts at base + k |
| `BatchScan.NonceDigits.Patch` | crates/challenge-solver/src/scan.rs:463-468 | every lane gets its own digits and nothing else changes |
| `BatchScan.NonceDigits.Bump` | crates/challenge-solver/src/scan.rs:470-474 | every lane moves on by eight |
| `BatchScan.LaneStates` | crates/challenge-solver/src/scan.rs:234-246 | each lane holds the state of its own framed nonce |
| `BatchScan.LanesDecide` | crates/challenge-solver/src/scan.rs:250-256 | the lowest hitting lane is the first hit of the range |
| `BatchScan.Batch8` | crates/challenge-solver/src/scan.rs:224-262 | eight lanes and a scalar rest return exactly what the scalar scan returns |
| `Puzzles.NewPow` | crates/challenge-solver/src/pow.rs:15-43 | the plain context computes SHA-256 of data and decimal nonce |
| `Puzzles.KeyPads` | crates/challenge-solver/src/hmac.rs:17-30 | both pads of the key, hashed first if it is long |
| `Puzzles.XorByteBits` | crates/challenge-solver/src/hmac.rs:24-28 | each bit of the result is set where exactly one of the two bits is |
| `Puzzles.NewHmac` | crates/challenge-solver/src/hmac.rs:17-48 | the HMAC context computes HMAC (section 2 of RFC 2104) of message and decimal nonce |
| `Puzzles.NewChain` | crates/challenge-solver/src/chain.rs:12-35 | the chain context computes SHA-256 of salt and nonce and then rounds - 1 more, none for 0 rounds |
| `Puzzles.Job` | crates/challenge-solver/src/scan.rs:271-289 | what a worker runs for a job returns the first hit of the range |
| `Puzzles.HmacJob` | crates/challenge-solver/src/hmac.rs:50-76 | from key and message to the least nonce of the range whose HMAC has the required leading zeros |
| `WidthSearch.ChunkAndJobs` | crates/challenge-solver/src/scan.rs:43-74 | the jobs cover the range, and one job fewer would not |
| `WidthSearch.ChunkIsLeast` | crates/challenge-solver/src/scan.rs:43-66 | the chunk is the least multiple of eight not below the minimum that makes no more jobs than asked for, or the cap |
| `WidthSearch.AllJobsTile` | crates/challenge-solver/src/scan.rs:357-376 | the jobs of all widths tile 0 to 10^max_width without gap or overlap |
| `WidthSearch.AllJobsWidth` | crates/challenge-solver/src/scan.rs:357-376 | every nonce of a job has the digit count of the job's width |
| `WidthSearch.JobBoundsFit` | crates/challenge-solver/src/scan.rs:366-374 | job bounds stay within 64 bits |
| `SearchProtocol.InvNext` | crates/challenge-solver/src/scan.rs:349-446 | every step of every party, aborting included, keeps the invariant of the protocol |
| `SearchProtocol.RunInv` | crates/challenge-solver/src/scan.rs:349-446 | the invariant holds throughout every run |
| `SearchProtocol.Outcome` | crates/challenge-solver/src/scan.rs:423-446 | at the end of a run that was not aborted the least report is the least hit noted, a hit; no report means no hit; a smaller hit can only lie in a dropped job |
| `SearchProtocol.OneWorkerFindsLeast` | crates/challenge-solver/src/scan.rs:349-446 | with one worker the result is the least hit, or nothing exactly when there is none |
| `SearchProtocol.ReportsAreHits` | crates/challenge-solver/src/scan.rs:434-446 | in every run, aborted or not, whatever is returned is a hit of its job |
| `SearchProtocol.DroppedIsCrowded` | crates/challenge-solver/src/scan.rs:379-382 | if a hit smaller than the one returned exists, two jobs before the last both hold hits |
| `SearchProtocol.UncrowdedFindsLeast` | crates/challenge-solver/src/scan.rs:349-446 | with any number of workers: the least hit, unless two jobs before the last both hold one |
| `SearchProtocol.CrowdedMayMiss` | crates/challenge-solver/src/scan.rs:379-413 | with two or more workers and two such jobs there is a run to the end that returns a hit that is not the least |
| `SearchProtocol.FindsLeastExactly` | crates/challenge-solver/src/scan.rs:349-446 | all completed runs return the least hit if and only if there is one worker, or no two jobs before the last both hold a hit |
| `SearchProtocol.TwoWorkersMayMiss` | crates/challenge-solver/src/scan.rs:43-74 | on the jobs made for two threads, with 3 and 9 as the hits, a run ends with 9 |
| `WidthSearch.FirstJobs` | crates/challenge-solver/src/scan.rs:43-74 | those jobs: the first three for two threads |
| `Solve.ScanIsFirstHit` | crates/challenge-solver/src/scan.rs:271-289 | what a worker notes for a job is what the eight-lane search returns for it |
| `Solve.SearchSolves` | crates/challenge-solver/src/scan.rs:343-446 | the whole search, from jobs to result, for any digest and any number of digits: the least nonce whose digest hits, or none exactly when there is none; with one worker or hits in at most one job before the last |
| `Solve.HmacSearch` | crates/challenge-solver/src/hmac.rs:50-76 | for HMAC the hits are the nonces whose HMAC of message and decimal nonce has the required leading zeros |
| `Solve.ArgonJob` | crates/challenge-solver/src/argon.rs:440-456 | for Argon2id: scanning a job sends the least nonce of the job whose digest hits, whatever the memory held |
| `Crc.StepXor` | crates/core-utils/src/crypto.rs:412-419 | the shift register is linear under exclusive or |
| `Crc.UpdateConcat` | crates/core-utils/src/crypto.rs:457-469 | feeding two pieces is feeding them together |
| `Crc.Step8Table` | crates/core-utils/src/crypto.rs:421-429 | eight steps are a shift and the step of the low byte |
| `Crc.CrcTables` | crates/core-utils/src/crypto.rs:408-432 | table s holds the register after a byte and s zero bytes |
| `Crc.Update8` | crates/core-utils/src/crypto.rs:436-447 | eight bytes at once equal eight bytes one bit at a time |
| `Crc.Fold8Correct` | crates/core-utils/src/crypto.rs:436-447 | the eight lookups compute that value |
| `Crc.Feed` | crates/core-utils/src/crypto.rs:455-469 | slice-by-8 equals the bitwise CRC (section 15 of RFC 2083) for every length and start state |
| `Crc.FieldChecks` | crates/payload-gen/src/canvas.rs:731 | any data followed by its field, low byte first, leaves the residue DEBB20E3 |
| `Adler.Deferred` | crates/core-utils/src/crypto.rs:380-394 | reducing once equals reducing at every byte (section 8.2 of RFC 1950), from any state |
| `Adler.NoOverflow` | crates/core-utils/src/crypto.rs:376-394 | 5552 bytes from any 32-bit state stay below 2^32 |
| `Adler.WeightedIsSteps` | crates/core-utils/src/crypto.rs:350-362 | byte sum and weighted sum equal single steps, for any block length |
| `Adler.Block16` | crates/core-utils/src/crypto.rs:342-373 | both forms of the 16-byte step |
| `Adler.FeedBlock` | crates/core-utils/src/crypto.rs:380-394 | one chunk with no overflow |
| `Adler.Feed` | crates/core-utils/src/crypto.rs:376-396 | equals the per-byte checksum for every state and data |
| `Adler.ChecksumConcat` | crates/core-utils/src/crypto.rs:376-396 | feeding two pieces is feeding them together |
| `Adler.ZerosAreFed` | crates/core-utils/src/crypto.rs:398-406 | the closed form equals feeding n zeros exactly when n is 0, or the low half of the state is reduced and the 64-bit sum does not wrap; for every n of 64 bits |
| `Adler.ZerosNotFed` | crates/core-utils/src/crypto.rs:398-406 | state 0xFFFF and one zero, and state 0x10001 and 2^64 - 1 zeros, are such failures |
| `Zlib.FullAppend` | crates/payload-gen/src/canvas.rs:749-760 | closing one more full block appends it |
| `Zlib.StoredInflates` | crates/payload-gen/src/canvas.rs:785-790 | a decoder of stored blocks (section 3.2.4 of RFC 1951) gets back the data and what follows |
| `Zlib.CutInflatesToNothing` | crates/payload-gen/src/canvas.rs:720-722 | a stream cut inside its last header decodes to nothing |
| `Zlib.Reopen` | crates/payload-gen/src/canvas.rs:749-760 | patching the placeholder of a full block and appending a new one |
| `Zlib.Finish` | crates/payload-gen/src/canvas.rs:785-789 | patching the last placeholder completes the stream |
| `Png.PngDims` | crates/payload-gen/src/canvas.rs:702-709 | dimensions are within limits and the raw data within the cap |
| `Png.DimsAre` | crates/payload-gen/src/canvas.rs:702-709 | each dimension becomes the nearest in range, both become 1 exactly when the raw data would pass the cap |
| `Png.ScanlineByte` | crates/payload-gen/src/canvas.rs:740-745 | each scanline is a 0 byte and then the pixel bytes, zero where no whole pixel is left |
| `Png.RowIsSlice` | crates/payload-gen/src/canvas.rs:740-745 | the slice taken for a row and its padding make up the row |
| `Png.Names` | crates/payload-gen/src/canvas.rs:724-735 | signature and chunk types spell the names of sections 3.1 and 4.1 of RFC 2083 |
| `Png.ChunkRoundTrip` | crates/payload-gen/src/canvas.rs:725-735 | a chunk reads back, by a reader that checks the CRC through the residue |
| `Png.DeclaredLengthOff` | crates/payload-gen/src/canvas.rs:717-722 | a header, the stored blocks and a trailer have the declared length except when the raw length is a multiple of 65535, then 5 more |
| `Png.StreamLength` | crates/payload-gen/src/canvas.rs:717-722 | the same of the emitted stream |
| `Png.StreamUnzips` | crates/payload-gen/src/canvas.rs:738-791 | the emitted stream decodes to the scanlines, Adler-32 checked (section 2.2 of RFC 1950) |
| `Png.CutIs` | crates/payload-gen/src/canvas.rs:717-722 | when the raw length is a multiple of 65535 the stream short by 5 ends inside its last block header |
| `Png.CutStream` | crates/payload-gen/src/canvas.rs:717-722 | and that decodes to nothing |
| `Png.FileDecodes` | crates/payload-gen/src/canvas.rs:716-802 | a reader recovers dimensions and scanlines exactly when the raw length is not a multiple of 65535 |
| `Png.BorderData` | crates/payload-gen/src/canvas.rs:716-802 | when the raw length is a multiple of 65535 the stream is good and declared 5 bytes short, and no reader gets the image |
| `Png.TallCanvas` | crates/payload-gen/src/canvas.rs:702-709 | a canvas 1 wide and 13107 high has raw data of exactly 65535 bytes |
| `Png.WriteRun` | crates/payload-gen/src/canvas.rs:772-783 | pixels, then zeros, inside the open block |
| `Png.WriteRow` | crates/payload-gen/src/canvas.rs:740-784 | one scanline is appended, blocks opened and closed as needed, and the loop terminates with room left |
| `Png.PngBytes` | crates/payload-gen/src/canvas.rs:716-802 | the bytes are exactly the file laid out by the format, and what a reader makes of them |
| `Blake2b.FoldAppend` | crates/core-utils/src/crypto.rs:257-269 | absorbing one more block |
| `Blake2b.EagerIsRfc` | crates/core-utils/src/crypto.rs:257-268 | the hasher computes BLAKE2b (section 3.3 of RFC 7693) for every compression exactly when the length is 0 or not a multiple of 128 |
| `Blake2b.InitIsRfc` | crates/core-utils/src/crypto.rs:230-241 | the constants xored with the parameter block are the initial state of section 3.3 of RFC 7693 without a key |
| `Blake2b.IvFromRoots` | crates/core-utils/src/crypto.rs:135-144 | the constants of section 2.6 of RFC 7693: the fractional parts of the square roots of the first eight primes |
| `Blake2b.Le64Value` | crates/core-utils/src/crypto.rs:285-288 | the eight bytes of a word stand for it, least significant first, and read back |
| `Blake2b.Le32Value` | crates/core-utils/src/crypto.rs:305-307 | the same for four bytes |
| `Blake2b.LeBytesAt` | crates/core-utils/src/crypto.rs:285-288 | each word of the state has its eight bytes in its place |
| `Blake2b.Hasher.constructor` | crates/core-utils/src/crypto.rs:230-248 | nothing fed |
| `Blake2b.Hasher.Update` | crates/core-utils/src/crypto.rs:250-272 | only the concatenation of what was fed matters |
| `Blake2b.Hasher.Finish` | crates/core-utils/src/crypto.rs:274-291 | the digest of everything fed |
| `Blake2b.Hash` | crates/core-utils/src/crypto.rs:293-303 | the one-shot digest |
| `Blake2b.HashLong` | crates/core-utils/src/crypto.rs:305-336 | fills the output with H' of section 3.3 of RFC 9106 over the hasher, for every length |
| `Blake2b.LongIsHPrime` | crates/core-utils/src/crypto.rs:305-336 | that is H' over BLAKE2b exactly when 4 + |input| is not a multiple of 128 |
| `Calendar.YearOfEraCorrect` | crates/core-utils/src/math.rs:113-118 | the year formula inverts the day of the year's start |
| `Calendar.WideDateInverts` | crates/core-utils/src/math.rs:126-138 | every day number has a valid date with that number |
| `Calendar.DayInverts` | crates/core-utils/src/math.rs:102-138 | every date comes back from its number |
| `Calendar.NextDay` | crates/core-utils/src/math.rs:102-110 | the next date has the next number |
| `Calendar.DatesInOrder` | crates/core-utils/src/math.rs:126-138 | day 0 is 1 January 1970 and each day's date follows the day before |
| `Calendar.Weekdays` | crates/core-utils/src/math.rs:140-143 | day 0 is a Thursday and each day is followed by the next weekday |
| `Calendar.YearOfDay` | crates/core-utils/src/math.rs:113-124 | the year of a day is the one whose first days enclose it |
| `Calendar.CivilRoundTrip` | crates/core-utils/src/math.rs:126-138 | of all 64-bit day numbers, day to date to day is the identity exactly for those whose year fits 32 bits |
| `Calendar.DayRoundTrip` | crates/core-utils/src/math.rs:102-138 | date to day to date is the identity for 32-bit years |
| `Calendar.CivilOfEpoch` | crates/core-utils/src/tz.rs:1533-1547 | the fields of an instant are the fields it was made from, under any offset, exactly when their local time fits in 64 bits |
| `Calendar.EpochOfCivil` | crates/core-utils/src/math.rs:264-271 | the fields are always in range, and make the local time again, to the millisecond, exactly when it fits in 64 bits |
| `Calendar.LocalRoundTrip` | crates/core-utils/src/tz.rs:1533-1547 | every 64-bit local time is the one its fields make |
| `Calendar.FarNewYear` | crates/core-utils/src/math.rs:264-271 | 1 January of the year 300,000,000 does not come back |
| `Tz.NthWeekday` | crates/core-utils/src/tz.rs:1549-1567 | the day is in the month, on the weekday, the n-th from the start or the end; a missing fifth becomes the last |
| `Tz.TransitionShows` | crates/core-utils/src/tz.rs:1569-1573 | clocks on the offset of the frame show the hour, weekday and month of the rule when the transition happens |
| `Tz.RuleShows` | crates/core-utils/src/tz.rs:1617-1635 | daylight time starts by clocks on standard time and ends by clocks on daylight time |
| `Tz.TransitionsInside` | crates/core-utils/src/tz.rs:1569-1573 | both transitions are strictly inside the UTC year, in month order, for every 16-bit standard offset |
| `Tz.RuleOffsetExact` | crates/core-utils/src/tz.rs:1617-1646 | for every 64-bit instant the offset is that of the exact transitions, even in the first and last year, where a transition wraps |
| `Tz.OffsetChanges` | crates/core-utils/src/tz.rs:1617-1646 | the offset changes exactly at the year's two transitions, never where years meet, for every 64-bit instant |
| `Tz.OffsetAtTransitions` | crates/core-utils/src/tz.rs:1617-1646 | from standard to daylight at a start, back at an end |
| `Tz.ZoneChanges` | crates/core-utils/src/tz.rs:1604-1646 | so for every zone with a rule and no listed offsets: its offset changes exactly at the two transitions of its rule |
| `Tz.ZoneAtTransitions` | crates/core-utils/src/tz.rs:1604-1646 | and goes to daylight time at a start and back at an end |
| `Tz.EmbOffset` | crates/core-utils/src/tz.rs:1576-1584 | the listed offset of the last instant passed |
| `Tz.Offsets.TzOffsetMin` | crates/core-utils/src/tz.rs:1604-1646 | whatever was asked before, the memo gives the answer computed without it |
| `ArgonIndex.FastDivExact` | crates/core-utils/src/math.rs:375-398 | multiply and shift is exact division for n below 2^32 and 0 < d < 2^31 |
| `ArgonIndex.WindowEnumerated` | crates/challenge-solver/src/argon.rs:106-155 | counting on from the oldest block enumerates exactly the window of section 3.4.2 of RFC 9106 |
| `ArgonIndex.IndexAlphaCorrect` | crates/challenge-solver/src/argon.rs:106-155 | the wrapping arithmetic picks the specified block, in the window: filled, not this one, not the previous |
| `ArgonFill.SameRun` | crates/challenge-solver/src/argon.rs:326-331 | the final lane does not depend on what the memory held before |
| `ArgonFill.FillBlock` | crates/challenge-solver/src/argon.rs:53-68 | one block: the compression of two, combined with the old block in later passes |
| `ArgonFill.NextAddresses` | crates/challenge-solver/src/argon.rs:71-84 | steps the counter and compresses twice |
| `ArgonFill.NextWord` | crates/challenge-solver/src/argon.rs:206-212 | the address word of a block, a new address block every 128 |
| `ArgonFill.RandIsRfc` | crates/challenge-solver/src/argon.rs:177-212 | section 3.4.1 of RFC 9106: address words in the first half of the first pass, the first word of the block before everywhere else |
| `ArgonFill.LowWordIs` | crates/challenge-solver/src/argon.rs:216-224 | the low 32 bits of the word |
| `ArgonFill.CellOfIs` | crates/challenge-solver/src/argon.rs:181-187 | a field of the address seed is the number itself |
| `ArgonFill.XorTwice` | crates/challenge-solver/src/argon.rs:53-68 | combining a block with another twice undoes it |
| `ArgonFill.Segment` | crates/challenge-solver/src/argon.rs:173-248 | the loop computes the block recurrence; prev_offset is the cyclic predecessor throughout |
| `Argon.InitialHash` | crates/challenge-solver/src/argon.rs:276-300 | the hash input has the fields of section 3.2 of RFC 9106 in order |
| `Argon.BlockWords` | crates/challenge-solver/src/argon.rs:303-339 | word i of a block is its bytes 8 i to 8 i + 7, least significant first, both ways |
| `Argon.GeoIsRfc` | crates/challenge-solver/src/argon.rs:254-322 | section 3.2 of RFC 9106, step 2: the lane is the memory cost rounded down to a multiple of four, in four segments, type 2 |
| `Argon.Digest` | crates/challenge-solver/src/argon.rs:276-341 | the tag is Argon2id of salt and decimal nonce, whatever the memory held before |
| `Argon.InitialHashIsRfc` | crates/challenge-solver/src/argon.rs:276-300 | the initial hash is the standard's exactly when 40 + |password| + |salt| is not a multiple of 128 |
| `Argon.DigestIsArgon2id` | crates/challenge-solver/src/argon.rs:276-341 | and then so is the digest |
| `Robots.UnanchoredIsPrefix` | crates/net-client/src/robots.rs:125-162 | an open pattern matches when a first part of the path does |
| `Robots.GlobIsChain` | crates/net-client/src/robots.rs:135-145 | a pattern means: its segments occur one after another |
| `Robots.Greedy` | crates/net-client/src/robots.rs:139-144 | the first occurrence loses nothing unless the segment must end the path |
| `Robots.ConsumeMids` | crates/net-client/src/robots.rs:140-158 | consuming segments greedily decides the chain |
| `Robots.PathMatches` | crates/net-client/src/robots.rs:125-162 | true exactly when the pattern matches (section 2.2.3 of RFC 9309) |
| `RobotsRules.ParseSection` | crates/net-client/src/robots.rs:73-123 | collects exactly the values standing in groups that select the agent, in order, where any other line ends the agent lines |
| `RobotsRules.TokenNames` | crates/net-client/src/robots.rs:96-105 | an agent with a version is named by its name or by both, without regard to case |
| `RobotsRules.SameLetter` | crates/net-client/src/robots.rs:87-101 | two bytes match exactly if they are the same or the two forms of one letter |
| `RobotsRules.Keywords` | crates/net-client/src/robots.rs:87-112 | the keys and the wildcard spell what the file format names |
| `RobotsRules.StandardUnlessInterrupted` | crates/net-client/src/robots.rs:87-117 | those are the rules of sections 2.2.1 and 2.2.4 of RFC 9309 exactly when no rule is cut off from its agent line by another record |
| `RobotsRules.CutOffIsUngoverned` | crates/net-client/src/robots.rs:87-117 | a record is governed under the standard and not in the code exactly when it is cut off |
| `RobotsRules.SitemapCutsOff` | crates/net-client/src/robots.rs:113-117 | a Sitemap between two agent lines: the standard gives the first agent the rule, the code does not |
| `RobotsRules.ParseRobotsTxt` | crates/net-client/src/robots.rs:57-64 | groups naming the agent if any, else the wildcard groups; and when that is what the standard gives |
| `RobotsRules.Verdict` | crates/net-client/src/robots.rs:38-55 | allowed exactly when every matching disallow rule is outmatched by an allow rule at least as long |
| `RobotsRules.RobotsCache.ParseAndStore` | crates/net-client/src/robots.rs:23-26 | the first rules stored for a domain stay |
| `RobotsRules.RobotsCache.IsAllowed` | crates/net-client/src/robots.rs:38-55 | a domain without rules allows everything |
| `Timer.IdsComeRound` | crates/core-utils/src/math.rs:165-167 | ids repeat after exactly 2^32 - 1 of them |
| `Timer.SetKeepsCount` | crates/runtime-exec/src/timer.rs:217-229 | setting a timer keeps the count equal to the tasks exactly when the queue is full or the id is not pending |
| `Timer.CountDrifts` | crates/runtime-exec/src/timer.rs:217-278 | over any sequence of calls the count runs ahead by exactly the number of timers set under a pending id |
| `Timer.ComeRound` | crates/runtime-exec/src/timer.rs:231-259 | one long timer, 2^32 - 2 more that are cancelled, and the next: one task, counted as two |
| `Timer.Top` | crates/runtime-exec/src/timer.rs:91-104 | the heap order puts the least due time, then the earliest arrival, on top |
| `Timer.DelayKept` | crates/runtime-exec/src/timer.rs:244-257 | a wanted timer is not due before its delay is over, and due from then on |
| `Timer.RetainKeyed` | crates/runtime-exec/src/timer.rs:221-224 | dropping dead keys leaves no more keys than tasks |
| `Timer.PushTidy` | crates/runtime-exec/src/timer.rs:217-229 | counters wrapped or not: a push keeps one key for each pending timer exactly when no key left in the heap carries its id |
| `Timer.TakeTidy` | crates/runtime-exec/src/timer.rs:407-426 | taking a key away keeps that always |
| `Timer.TimerState.ClearAll` | crates/runtime-exec/src/timer.rs:192-200 | back to the empty queue |
| `Timer.TimerState.PushTimer` | crates/runtime-exec/src/timer.rs:217-229 | refuses at the cap; otherwise one new task and key, the count one up, no wanted key lost, invariant kept |
| `Timer.TimerState.Schedule` | crates/runtime-exec/src/timer.rs:231-259 | due exactly the delay later, or at the end of time; the id is fresh until ids come round; one key for each pending timer is kept exactly when the queue is full or no key left in the heap carries the next id |
| `Timer.TimerState.Unschedule` | crates/runtime-exec/src/timer.rs:269-278 | removes exactly a pending timer |
| `Timer.TimerState.PopDue` | crates/runtime-exec/src/timer.rs:407-426 | the task popped is due, wanted and first; nothing is popped only when no wanted timer is due |
| `Timer.TimerState.Rearm` | crates/runtime-exec/src/timer.rs:455-461 | an interval whose callback went well is pending again, due exactly the interval later |
| `Timer.OwnClearIgnored` | crates/runtime-exec/src/timer.rs:269-278 | among any calls, clearing an id that is not pending changes nothing |
| `Timer.IntervalGoesOn` | crates/runtime-exec/src/timer.rs:407-461 | whatever its callback does, an interval fires again whether or not it cancels itself, unless the callback filled the queue |
| `Timer.RunCallback` | crates/runtime-exec/src/timer.rs:415-453 | what a callback does to the tasks |
| `Timer.Fire` | crates/runtime-exec/src/timer.rs:407-461 | one round with any callback: the tasks after it, and what fires was never cancelled while pending |
| `Budget.InvNext` | crates/runtime-exec/src/cache.rs:168-216 | every atomic step keeps both counters equal to what is outstanding and within limits |
| `Budget.RunSafe` | crates/runtime-exec/src/cache.rs:168-216 | so in every state of every interleaving |
| `Budget.NoUnderflow` | crates/runtime-exec/src/cache.rs:199-216 | no subtraction goes below zero |
| `Budget.SoloReserve` | crates/runtime-exec/src/cache.rs:168-208 | an undisturbed reservation takes its charge if it fits beside everything outstanding, and is refused if not |
| `Budget.AllReturned` | crates/runtime-exec/src/cache.rs:211-216 | when every charge is given back both counters are zero |
| `Budget.HeldWithinLimits` | crates/runtime-exec/src/cache.rs:168-208 | charges held together never exceed the limits |
| `Utf8.ShortIsIncomplete` | crates/parser-pipeline/src/pipeline.rs:54-61 | input that ends too early is exactly a proper beginning of a character, at most 3 bytes |
| `Utf8.EncodedIsChar` | crates/parser-pipeline/src/pipeline.rs:51-53 | every scalar value encoded by the table of section 3 of RFC 3629 is a character |
| `Utf8.CharIsEncoded` | crates/parser-pipeline/src/pipeline.rs:51-53 | and every byte sequence taken for a character is such an encoding |
| `Utf8.CleanIsUnbroken` | crates/parser-pipeline/src/pipeline.rs:51-70 | no wrong byte means: well-formed text, then at most the beginning of a character |
| `Utf8.Resume` | crates/parser-pipeline/src/pipeline.rs:72-82 | after valid bytes only the beginning of the last character matters |
| `Utf8.StreamState.CheckJoined` | crates/parser-pipeline/src/pipeline.rs:72-107 | the kept tail and the next bytes together: it never gives up, and a wrong sequence always ends past the old tail, so the branch for a shorter skip is never taken |
| `Utf8.StreamState.Check` | crates/parser-pipeline/src/pipeline.rs:48-110 | terminates; while all answers were yes, the answer is whether the stream is still clean, and the tail is its incomplete end |
| `Utf8.CountBadChunks` | crates/parser-pipeline/src/pipeline.rs:320-325 | no chunk counts as bad exactly when the whole stream is clean, however it is cut |

## Left out

- Dom.DomTree.PushText: whether the text continues the one before is a parameter; the text pool, spans and the 65535-byte merge limit are not modelled.
- Dom.DomTree.OpenElement: attributes, names, the hidden flag and the id index are not modelled; whether a meta element is the description is a parameter.
- SearchProtocol.Outcome: promises nothing of completeness for aborted runs; there every report is still a hit (`SearchProtocol.ReportsAreHits`). The watch is an abort. A worker pool that refuses tasks and the bound of the job queue are not modelled.
- WidthSearch.ChunkAndJobs: `threads * jobs_mult` and `chunk + 7` are exact here; they would have to pass 2^64 to wrap, far above any sizing in use.
- Blake2b.Hasher.Update: the 128-bit byte counter is unbounded here, so messages of 2^128 bytes and more are not distinguished.
- Calendar.DayRoundTrip: years are 32-bit as all callers pass them; the day formula is exact for them, and not modelled for the larger years its 64-bit parameter admits. Weekdays are likewise taken of day numbers far from the 64-bit limits.
- Tz.NthWeekday: weeks outside 1 to 5 and -1 to -4 are not covered; no rule uses them.
- ArgonIndex.IndexAlphaCorrect: positions in another lane are not covered; there is one lane.
- Tz.Offsets.TzOffsetMin: the zone and listed-offset tables are parameters with their shape as the only assumption.
- Argon.DigestIsArgon2id: one direction only for the whole digest; that it fails on the other lengths is shown for the initial hash (`Argon.InitialHashIsRfc`). A witness that carries the difference through every pass, for every memory size, is not given.
- Solve.ArgonJob: memory that cannot be had, where the worker reports nothing for its jobs, is not modelled.
- ArgonFill.Segment: the lane argument is the constant 0, the only value its caller passes; prefetching is not modelled.
- RobotsRules.ParseSection: starts from records; cutting a text into lines, trimming, comments and lines without a colon are not modelled.
- Robots.PathMatches: works on bytes; that a match on UTF-8 bytes is a match on characters is not stated.
- Timer.TimerState.Schedule: converting a floating-point delay, the animation-frame queue, the fire limit and the deadline are not modelled.
- Utf8.StreamState.Check: the library validator of whole slices is modelled by its documented result, not by its code.
- Png.PngBytes: capacities and the data-URL form are not modelled.
- SIMD instructions, inline assembly and CPU detection: only their scalar meaning is modelled.
- Compression functions of SHA-256 and BLAKE2b and the Argon2 permutation: arbitrary functions here.
- The mmap arena, thread pinning, channels' capacities and wall-clock time: environment.
- HTTP clients, proxies, cookies, JavaScript bindings, layout, canvas drawing, personas and their tables: no exact properties or finite data.
- The answer cache and lookup by element id: no joint consistency or completeness to prove.
