# Verified models of the BusyBox compressor, diff and patch, package check, awk core and uuencode

This project models the parts of BusyBox that carry the most state and arithmetic, and proves what
they are for.

* **gzip** (`archival/gzip.c`): the whole deflate compressor, from the sliding window and its hash
  chains through lazy matching, Huffman construction, the length-limit repair, canonical codes, the
  run-length coded tree headers and the choice of block form down to the 16-bit bit packer. The main
  theorem, `Zip.Deflated`, says that for every input, and however reading splits it, the bytes written
  decompress to that input under a decoder written from RFC 1951 (`Inflate`, `Streams`), and that the
  size computed on the way is the size of the output. It also says which tokens the stream is made of,
  in terms of the text alone: those of lazy evaluation over the longest matches in reach, in blocks that
  end as soon as they are full. Beside it stand the results of the layers: Huffman lengths that are
  optimal exactly if some optimal code keeps the length limit, Kraft equality after a repair with only
  one outcome, prefix-free codes and exact bit accounting. The block form that is sent counts the fewest
  bytes, but the count is not exact: it is known when that form is the shortest one, by how much it can
  miss, and a text of 15 bytes for which it does.
* **diff and patch** (`coreutils/diff.c`, `editors/patch.c`): Stone's algorithm finds a longest common
  subsequence, the edit script takes out and puts in exactly the lines that are not matched, no script
  with fewer lines does, the unified hunks show exactly their lines under headers that say how many and
  where, and it is known for any two files and any context exactly when applying them gives the new
  file.
* **dpkg** (`archival/dpkg.c`): double hashing over a prime table, the order of version strings, which
  is a total preorder and is decided by the first part that differs, and the dependency check with
  groups of alternatives, from the names and versions in the paragraphs of the status file to the
  answer, decided exactly.
* **awk** (`editors/awk.c`): the hash with chains refines a map, and the expression parser on linked
  nodes builds the one tree that the priorities allow; what each operator has on its right is known from
  the tokens.
* **uuencode and uudecode** (`coreutils/uuencode.c`, `coreutils/uudecode.c`): decoding undoes encoding
  in both formats; of every text it is known which bytes it gives in the historical format and whether
  it is accepted, and what line breaks and foreign characters do in base64.

State that the C code updates in place is a class or an array here, and its loops are loops with
invariants; `dafny verify dfyconfig.toml` checks everything.

## How the model reads the source

* Window positions, frequencies, bit totals and line counters are unbounded integers. A block has
  fewer than 8192 tokens, so frequencies stay below the 16 bits of the source. `depth` is kept modulo
  256, `bi_buf` and the codes are 16-bit words, and `match_start` may become negative after a slide.
* Overlaid storage (`prev` and the output code buffer, `Freq` and `Code`, `Dad` and `Len`, `member`
  and `class`) is separate arrays.
* `read_buf` delivers any non-empty part of the input that fits, or fails; both are covered.
* A symbol that `build_tree` forces counts with its one-bit code afterwards instead of being taken off
  `opt_len` before. The forced symbol can be 2, although a comment says that only 0 or 1 are forced.
* The choice of the block form in `flush_block` compares whole bytes and counts neither the three bits in
  front of a stored block nor the padding behind them.
* The branch of `flush_block` that needs a seekable output is never taken, as `seekable()` is 0.
* Lines of files are values and their hash is any non-zero function of them; `isqrt` is replaced by an
  arbitrary bound on tries, and a bound above the number of lines is never reached (as under `-d`).
* In patch, a negative count is a very large unsigned one, and the destination start line that the
  source leaves unset when no hunk is read is an arbitrary number. Only the decision to remove an empty
  result is modelled: the source then unlinks the new and the original name, and dies at the second call if
  they are the same.
* The hash of a string and `atoi` are arbitrary functions, and strings and nodes are values. `make_hash`
  cuts the hash number to an `unsigned int` for the start of the probes but not for the step; the model
  takes both from one number, as where `long` has 32 bits.
* Where a package with that name and an equal version is in the table, `fill_package_struct` frees the new
  node and then stores it; here the new package is stored.
* The window of the model has MAX_MATCH bytes behind the 2 * WSIZE bytes that gzip allocates: near the end
  of the input the comparison in `longest_match` looks at bytes there, which are arbitrary.
* A match never starts at window position 0, so whether the most distant position counts depends on how often
  the window has moved, and that on how reading splits the input. The laws about tokens name the start of
  the window, which is a multiple of WSIZE; nearer positions are in reach wherever it is. Where a match
  runs into the end of the text, the bytes behind the end can decide which of several equally long ones is
  taken, and whether one of three bytes counts as too far away.
* In awk, storage is numbered, so that a pointer given out by the hash is seen to stay good, and tree
  nodes are numbered in the order of their tokens. An operand in parentheses, an array element or a
  call is one token. The tokens are those with an operator between two operands; `next_token` puts one in
  except after a regular expression, where the source attaches a following operand to the node of the
  expression. The model also takes a postfix operator after a postfix one, where `next_token` expects a
  prefix operator instead.
* In dpkg all strings are interned before the first package is indexed. Indices stay good, so the order
  plays no part.
* In base64 a line break between digits and their padding takes the digits away: `QQ==` is one byte, but with
  a line break in front of the first `=` it is none. Elsewhere line breaks change nothing but the terminator.
* An empty line in the historical uuencode format is an error. The source steps over its terminator there
  and finds the zero that the line reader has put behind it.

## Model

| member | source | states |
|---|---|---|
| `Zip.Deflated` | archival/gzip.c:1002-1104 | For every input and every way of reading it, the bytes written decompress under RFC 1951 to exactly the bytes read, which are all of the input unless reading failed; the computed size is the number of bytes; every reference has a length of 3 to 258 and a distance of 1 to MAX_DIST. The tokens are those that lazy evaluation chooses for the text, and the blocks are these tokens, each block ending at the first token that fills it |
| `Deflate.Deflater.Run` | archival/gzip.c:1002-1104 | The blocks expand by LZ77 copying to exactly the text that was read, with every length and distance in range; the last block is marked. All tokens are chosen as lazy evaluation says and cover the text, and are cut into blocks where one is full |
| `Deflate.Deflater.Step` | archival/gzip.c:1011-1090 | One turn keeps the lazy-evaluation invariant: tokens so far expand to the text before the pending position, and are chosen from the text. If a position waits, it gets its token: the match found there if the search at the next position found none that is longer, else its byte |
| `Deflate.Deflater.LongestMatch` | archival/gzip.c:832-905 | A result above the previous length is a true match of that length at `matchStart`, the nearest of that length on the chain; none of the chain positions in reach and budget has a longer one |
| `Deflate.Deflater.MatchLength` | archival/gzip.c:863-895 | The two-byte filter and the unrolled comparison find the length of the match at a candidate, or that it is no better; the third byte is never compared |
| `Deflate.Deflater.InsertString` | archival/gzip.c:765-778 | The chain invariant is kept, and the old head is the last position before with the same three-byte key, or there is none in the window |
| `Deflate.Deflater.FillWindow` | archival/gzip.c:938-987 | Sliding and reading keep window and dictionary, move all positions alike, lose no input byte, and set `eofile` only when nothing more can be read |
| `Deflate.Deflater.Slide` | archival/gzip.c:953-976 | After the slide every chain is still valid and every position moved down by WSIZE |
| `Deflate.Deflater.FindMatch` | archival/gzip.c:1019-1040 | In terms of the text: a length above the previous one is that of the longest match among the positions that the search visits, cut at the end of the text, and it starts at the nearest such position; otherwise no visited position has a longer match, but for one of three bytes that is too far away |
| `Deflate.Deflater.Adopt` | archival/gzip.c:1044-1069 | The turn that adopts the pending match, which the search at the next position did not beat |
| `Deflate.Deflater.Skip` | archival/gzip.c:1071-1081 | The turn that makes the pending byte a literal, because there is no match or the next one is longer |
| `Deflate.Deflater.EmitMatch` | archival/gzip.c:1044-1069 | Adopting the previous match extends the expanded text by its length |
| `Deflate.Deflater.EmitLiteral` | archival/gzip.c:1071-1081 | Emitting the previous byte extends the expanded text by one |
| `Deflate.Deflater.Flush` | archival/gzip.c:993-996 | At a block end the blocks expand to the text up to the block end. The text of the block is offered for storing exactly if the window still holds it, and the block is that text or the pending tokens as the choice for their true lengths says |
| `HashChains.InsertKeepsChains` | archival/gzip.c:775-778 | Inserting a string keeps every chain: each link leads to the last earlier position with the same key |
| `HashChains.SlideKeepsChains` | archival/gzip.c:953-976 | So does sliding the window |
| `HashChains.ReadKeepsChains` | archival/gzip.c:978-986 | So does reading text behind the inserted strings |
| `ChainSearch.ChainExact` | archival/gzip.c:832-903 | The positions that a search follows from the head of a chain are exactly the last n positions in the window with the same key, within MAX_DIST |
| `WindowSearch.SearchShown` | archival/gzip.c:1019-1040 | A search in the window, with its limit, its budget and the cut at the end of the input, is the search in the text |
| `LazyParse.SearchedGrown` | archival/gzip.c:1092-1098 | Text that is read later does not change what a search with enough lookahead found |
| `LazyParse.LiteralMissesNothing` | archival/gzip.c:1041-1081 | No match is missed: a literal that stands where a match of four bytes is in reach, or one of three that is not too far away, is followed by a longer match |
| `LazyParse.MatchIsLongest` | archival/gzip.c:1041-1069 | Every reference is a longest match in reach of its position, and the next position has no longer one |
| `RollingHash.RollingIsHash3` | archival/gzip.c:765-765 | After three updates the key depends on the last three bytes only |
| `RollingHash.ThirdByteForced` | archival/gzip.c:868-877 | Equal keys and two equal bytes force the third byte to be equal |
| `Lz77.CopyReproduces` | archival/gzip.c:1044-1049 | A reference to equal text, overlapping or not, extends a prefix of that text |
| `HuffmanHeap.PqDownHeap` | archival/gzip.c:1741-1763 | Restores the heap below a node and rearranges the queue |
| `HuffmanHeap.RootIsLeast` | archival/gzip.c:1720-1725 | The first node of a heap is the least |
| `HuffmanBuild.Builder.PqRemove` | archival/gzip.c:1720-1725 | Takes the least node out of the queue and leaves a heap of the others |
| `HuffmanBuild.Builder.Grow` | archival/gzip.c:1963-1984 | Combining the two least nodes is one greedy step on the forest that heap, depths and fathers represent |
| `HuffmanBuild.DescendStep` | archival/gzip.c:1964-1982 | A combination keeps the list by decreasing frequency, with the nodes in the queue at least as frequent |
| `HuffmanTree.JoinUncles` | archival/gzip.c:1960-1986 | Joining the two lightest trees keeps that no node weighs more than a brother of its father |
| `HuffmanBuild.Builder.Force` | archival/gzip.c:1940-1951 | Unused symbols get frequency 1 until two codes exist; other frequencies stay |
| `HuffmanBuild.Builder.Construct` | archival/gzip.c:1913-1986 | The arrays represent a Huffman tree whose leaves are the used symbols, with the cost of the greedy construction and, while heights fit into a byte, no higher than any best depths of the symbols; the nodes are listed by decreasing frequency, fathers first |
| `HuffmanHeight.SwapHung` | archival/gzip.c:1731-1733 | In best depths for a forest, a tree that comes earlier in the queue can hang lower, and no leaf gets deeper than before |
| `HuffmanHeight.JoinAttains` | archival/gzip.c:1727-1733 | Joining the first two trees of the queue keeps every height that best depths for the forest can attain |
| `HuffmanTies.JoinDeep` | archival/gzip.c:1972-1972 | The depth recorded for a father is its height, as long as no height in the forest exceeds a byte |
| `HuffmanTies.JoinShallow` | archival/gzip.c:1964-1982 | With such depths the two least nodes are the roots of the first two trees, so a combination keeps every height that best depths for the used symbols attain |
| `LimitedCodes.HeightIsNeeded` | archival/gzip.c:1727-1730 | The tie breaker minimizes the worst case: no optimal code has all its lengths below the height of the tree |
| `HuffmanCost.GreedyIsOptimal` | archival/gzip.c:1960-1986 | No code lengths that satisfy Kraft's inequality cost less than the greedy construction |
| `TreeLengths.KraftExcess` | archival/gzip.c:1798-1820 | Cutting depths at the maximum raises the Kraft sum by exactly half the number of nodes that are too deep |
| `TreeLengths.DepthCost` | archival/gzip.c:1798-1818 | Without overflow the message length is the weight of the inner nodes |
| `HuffmanDepth.DeepIsHeavy` | archival/gzip.c:1801-1802 | A Huffman tree of height h has at least Fib(h + 2) occurrences |
| `HuffmanDepth.ShortNeedsNoRepair` | archival/gzip.c:1819-1820 | With fewer than Fib(m + 3) occurrences no code is longer than m bits, so the repair is not needed |
| `HuffmanDepth.Limits` | archival/gzip.c:1793-1795 | The limit is 55 occurrences for the code length code and 2584 for the other two |
| `LengthPass.PassResult` | archival/gzip.c:1796-1804 | Every node is one longer than its father, cut at the maximum, although fathers are overwritten by lengths on the way |
| `BitLengths.FirstPass` | archival/gzip.c:1790-1818 | Lengths, counts, overflow and both bit totals of the first pass are those of the tree |
| `BitLengths.Repair` | archival/gzip.c:1826-1837 | The repair loop ends with Kraft equality and the same number of codes, and never takes from an empty counter; up to some length no code has moved, and between that and the maximum at most one code of each length is left, or two of the longest |
| `BitLengths.RepairStep` | archival/gzip.c:1827-1836 | One repair keeps the number of codes and takes one unit off the Kraft sum |
| `BitLengths.ShorterExists` | archival/gzip.c:1827-1829 | While the Kraft sum is too large, some code is shorter than the maximum, so the search in the repair stops |
| `Deepening.DeepenStep` | archival/gzip.c:1827-1836 | Moving down one of the longest codes below the maximum keeps that |
| `Deepening.OneOutcome` | archival/gzip.c:1826-1837 | There is only one distribution like that with the same number of codes and the same Kraft sum |
| `DealLengths.Deal` | archival/gzip.c:1844-1859 | Dealing the repaired counts to the symbols makes the counts true and corrects the bit total exactly |
| `LengthOrder.RisingIsMonotone` | archival/gzip.c:1839-1859 | Dealing the longest codes from the end of the list gives rarer symbols no shorter codes |
| `CodeLengths.OptimalIsMonotone` | archival/gzip.c:1798-1818 | Without a repair the same follows from optimality, or an exchange would save bits |
| `CodeLengths.GenBitlen` | archival/gzip.c:1775-1860 | Every used symbol has a length from 1 to the maximum, unused ones none; Kraft equality; counts exact; rarer symbols have no shorter codes, also after a repair; `opt_len` and `static_len` grow by exactly the bits of the message; without overflow no prefix code is shorter |
| `CodeLengths.RepairAndDeal` | archival/gzip.c:1826-1859 | After an overflow the lengths are those of the repaired counts, rarer symbols with no shorter codes, and the bit total is exact |
| `BuildTree.ForcedOneBit` | archival/gzip.c:1942-1951 | What forcing a symbol takes off `opt_len` is what its one-bit code puts on |
| `BuildTree.BuildTree` | archival/gzip.c:1913-1995 | Lengths are a full code with canonical reversed codes, rarer symbols with no shorter ones; both totals are exact for the original frequencies; with two symbols or more and fewer than Fib(258) occurrences no prefix code makes the message shorter if and only if some code within the limit is like that, and with fewer than Fib(m + 3) one always is |
| `GenCodes.FirstCodes` | archival/gzip.c:1880-1882 | `next_code` holds the first canonical code of each length |
| `GenCodes.GenCodes` | archival/gzip.c:1870-1903 | Every symbol with a length gets its canonical code of section 3.2.2 of RFC 1951, bits reversed |
| `Canonical.FirstIsKraft` | archival/gzip.c:1880-1887 | The first code of a length starts where the shorter codes end |
| `Canonical.CanonFits` | archival/gzip.c:1883-1896 | Canonical codes of lengths that satisfy Kraft's inequality fit their length |
| `Canonical.PrefixFree` | archival/gzip.c:1870-1903 | No two codes are prefixes of the same bits |
| `Canonical.DecodeCode` | archival/gzip.c:1870-1903 | Decoding from the lengths alone undoes coding, whatever follows |
| `Bits.BiReverse` | archival/gzip.c:485-494 | The result is the reversal of the low bits |
| `Bits.LowOfRev` | archival/gzip.c:485-494 | Sending the reversed value low bit first is sending the value high bit first |
| `BitOutput.BitWriter.SendBits` | archival/gzip.c:458-478 | Appends exactly the low bits of the value to the bits sent, across the word boundary too |
| `BitOutput.BitWriter.PutShort` | archival/gzip.c:289-298 | Appends the two bytes, low byte first, also when the buffer has room for one |
| `BitOutput.BitWriter.BiWindup` | archival/gzip.c:499-511 | Pads with zero bits to the next byte |
| `BitOutput.BitWriter.CopyBlock` | archival/gzip.c:517-534 | After padding: the length, its complement and the bytes |
| `BitOutput.BitWriter.FlushOutbuf` | archival/gzip.c:2482-2489 | Writes the buffer out; the bits sent stay the same |
| `Tables.InitLengths` | archival/gzip.c:1629-1642 | Every length gets the code whose range of section 3.2.5 of RFC 1951 it lies in; 258 has a code of its own |
| `Tables.InitDists` | archival/gzip.c:1644-1660 | The two-part table answers for every distance |
| `Tables.CodeTables.DCode` | archival/gzip.c:1600-1601 | The code whose range the distance lies in |
| `StaticTrees.InitStaticL` | archival/gzip.c:1662-1678 | The static tree has the lengths and codes of section 3.2.6 of RFC 1951 |
| `StaticTrees.InitStaticD` | archival/gzip.c:1680-1684 | So has the static distance tree |
| `StaticTrees.FixedLIsCode` | archival/gzip.c:1662-1678 | The fixed literal and length code satisfies Kraft with equality |
| `TokenBuffers.TokenBuffer.Save` | archival/gzip.c:2262-2287 | The literal, distance and flag buffers hold the tokens so far and the new one |
| `Blocks.BlockWriter.CountToken` | archival/gzip.c:2265-2276 | The frequencies are those of the tokens so far and the new one |
| `Blocks.BlockWriter.Tally` | archival/gzip.c:2262-2312 | The token joins the pending ones; the block has to end if and only if a buffer is full, or, every 4096 tokens, fewer than half of them are matches and the estimated size is below half of the text |
| `BlockEnds.EstimateIs` | archival/gzip.c:2289-2299 | The estimate computed from the distance counts is eight bits for every token, and for every match five and the extra bits of its distance |
| `BlockEnds.DividedMore` | archival/gzip.c:1068-1079 | A block with the pending tokens, or with their text, keeps the tokens divided into blocks that end as soon as they are full |
| `TokenCounts.TextLength` | archival/gzip.c:1813-1817 | The frequencies and lengths tell exactly how many bits the tokens take |
| `RunLengths.RunsUnroll` | archival/gzip.c:2003-2043 | For every list of lengths the run-length symbols stand for exactly that list, and every count fits its extra bits |
| `RunLengths.DecodeRuns` | archival/gzip.c:2049-2100 | Reading the symbols under section 3.2.7 of RFC 1951 gives the lengths back |
| `GreedyRuns.RunsGreedy` | archival/gzip.c:2003-2043 | The counting loop is greedy: three or more zeros make a symbol for up to 138 of them, three or more repetitions of the length before one for up to six, and any other length stands for itself |
| `TreeOutput.ScanTree` | archival/gzip.c:2003-2043 | Counts each symbol as often as `send_tree` will send it, and sets the guard |
| `TreeOutput.SendTree` | archival/gzip.c:2049-2100 | Sends exactly the codes of those symbols with their extra bits |
| `TokenCounts.RunsLength` | archival/gzip.c:2106-2133 | The counted symbols tell exactly how many bits the coded lengths take |
| `BlockTrees.Trees.ScanTrees` | archival/gzip.c:2111-2112 | Both trees are counted in one table |
| `BlockTrees.Trees.LastBlIndex` | archival/gzip.c:2124-2127 | The last code length code that is used |
| `BlockTrees.Trees.BuildBl` | archival/gzip.c:2106-2133 | The code length code satisfies Kraft with equality and is optimal if and only if its limit allows it, which it does for fewer than 55 symbols, and the header bits are added to `opt_len` exactly |
| `BlockTrees.Trees.Build` | archival/gzip.c:2180-2193 | `opt_len` and `static_len` are the exact lengths of the dynamic and static block, forced codes, extra bits, header and repair included; all three codes are as good as their limits allow |
| `BestBlocks.BlockIsBest` | archival/gzip.c:2180-2193 | For every block with 16-bit counts, the two codes for its data are optimal if and only if some optimal code keeps the limit of 15 bits |
| `BlockTrees.OptIsExact` | archival/gzip.c:2128-2129 | The sum of the parts is the length of the dynamic block |
| `TreeHeader.SendAllTrees` | archival/gzip.c:2140-2162 | Sends the header of section 3.2.7 of RFC 1951 |
| `TreeHeader.DecodeHeader` | archival/gzip.c:2140-2162 | The header decodes to the lengths of both codes |
| `CompressBlock.CompressBlock` | archival/gzip.c:2317-2361 | Sends exactly the codes and extra bits of the tokens in the buffers and the end mark |
| `TextCoding.DecodeText` | archival/gzip.c:2317-2361 | Given only code lengths, those bits decode to the tokens and stop after the end mark |
| `Streams.StoredIsBlock` | archival/gzip.c:2228-2232 | A stored block reads back as its text at any bit position |
| `Streams.StaticIsBlock` | archival/gzip.c:2234-2237 | A block with the fixed codes reads back as its tokens |
| `Streams.DynamicIsBlock` | archival/gzip.c:2238-2243 | A block with its own codes reads back as its tokens |
| `Blocks.BlockWriter.SendBlock` | archival/gzip.c:2195-2244 | The form that counts the fewest bytes among those available is sent, the bits sent are that form of the block and as many as it takes, and `compressed_len` is their number |
| `BlockForms.ShortestIff` | archival/gzip.c:2195-2234 | The form that is sent is the shortest if and only if what the choice does not count makes no difference: a stored block is no longer with its padding, the fixed codes take no more bits than the own ones |
| `BlockForms.NearlyShortest` | archival/gzip.c:2195-2234 | It is never more than 17 bits longer than the shortest |
| `BlockForms.SeventeenBits` | archival/gzip.c:2217-2234 | That bound is reached |
| `StoredExample.OwnLength` | archival/gzip.c:2180-2193 | A block of these 15 literals with its own trees takes at least the 142 bits that it takes with the fixed codes, header included |
| `StoredExample.FifteenBytes` | archival/gzip.c:2217-2234 | The bytes 0x90 to 0x9e at the start of the output are stored in 160 bits, while the fixed codes take 145 |
| `Blocks.BlockWriter.FlushBlock` | archival/gzip.c:2169-2256 | The stream gains exactly one block, with the stored text or the pending tokens as the choice for its true lengths says, and grows by exactly the bits of that form, padded at the end of the file; counts, buffers and totals start anew |
| `Blocks.BlockWriter.InitBlock` | archival/gzip.c:1693-1710 | All frequencies are zero but that of the end mark |
| `Blocks.NewWriter` | archival/gzip.c:1614-1688 | A valid, empty writer |
| `DiffSort.Sort` | coreutils/diff.c:584-612 | The shell sort leaves the same lines in order of value and serial number |
| `DiffClasses.Lookup` | coreutils/diff.c:325-335 | Lines get the index of the equal lines of the other file, or 0 |
| `DiffClasses.Squeeze` | coreutils/diff.c:336-345 | Runs of equal values become runs of serial numbers with a negative head |
| `DiffClasses.Unsort` | coreutils/diff.c:463-473 | Class indices return to file order |
| `DiffClasses.Classify` | coreutils/diff.c:321-346 | Sorting, classing and unsorting lead every line to exactly the equal lines of the other file, in order |
| `MatchVector.Prune` | coreutils/diff.c:304-319 | The longest common start, and the longest common end of the rest |
| `Stone.Differ.Search` | coreutils/diff.c:381-402 | The first length whose candidate is not before the line |
| `Stone.Differ.Row` | coreutils/diff.c:420-446 | Candidates stay ends of common subsequences; every equal line is tried unless the bound stops it, which takes more lines of that value than the bound |
| `Stone.RowExact` | coreutils/diff.c:419-447 | If every equal line was tried, candidates stay the nearest possible for each length |
| `Stone.Differ.Stone` | coreutils/diff.c:405-449 | The result is the length of a longest common subsequence, unless some value of the first file occurs more often than the bound in the second; chains are common subsequences in any case |
| `MatchVector.Unravel` | coreutils/diff.c:451-460 | The vector matches the common ends and the pairs of the chain |
| `MatchVector.VectorMatches` | coreutils/diff.c:451-460 | That vector rises, pairs equal values and matches as many lines as ends and chain have |
| `MatchVector.LongestWhole` | coreutils/diff.c:304-319 | A longest common subsequence of the middle and the common ends make one of the whole |
| `MatchVector.Check` | coreutils/diff.c:491-581 | Matches of different lines are dropped, others kept |
| `MatchVector.Correspond` | coreutils/diff.c:971-998 | All matches are real and rising; the total is the length of a longest common subsequence of the hash values, unless some value of the old file occurs more often than the bound in the new one, and without collisions that many lines are matched |
| `EditScript.NextChange` | coreutils/diff.c:838-848 | One turn of the loop covers the lines up to its record exactly once and progresses, even where the index stays; the records so far have exactly the old lines that are not matched and the new lines that no match leads to, and as many |
| `EditScript.RewritesAll` | coreutils/diff.c:826-855 | Records that cover both files rewrite the old file into the new one |
| `Unified.Printer.Record` | coreutils/diff.c:779-823 | An empty change is ignored; another joins the open group if at most twice the context lies between it and the last change, else closes it |
| `Unified.Printer.Dump` | coreutils/diff.c:681-755 | Prints the hunk of the collected changes under its header |
| `Unified.HunkShows` | coreutils/diff.c:681-755 | The kept and removed lines of a hunk are exactly its old lines, the kept and added ones exactly its new lines, removed ones first; in front of the first change and behind the last one it has as many lines as asked for or as there are, and it lies behind the hunks before it |
| `Unified.HunksHeaded` | coreutils/diff.c:615-623 | The header of every hunk says how many lines it has of each file and where they start, or after which line if there are none |
| `Unified.Printer.Output` | coreutils/diff.c:826-855 | For every rising match vector: records cover both files, never adjacent, and have exactly the lines that are not matched; they are cut into groups of near changes far from each other, one hunk each; every header is true; hunks are disjoint and ascending on both sides with equal lines between them |
| `DiffRun.KeptLines` | coreutils/diff.c:826-855 | The lines that any edit script keeps are a common subsequence, so many as it does not take out or put in |
| `DiffRun.LongestIsMinimal` | coreutils/diff.c:826-855 | Records for the lines that a longest matching leaves take out and put in no more lines than any edit script |
| `DiffRun.CutBears` | coreutils/diff.c:681-755 | The hunks have one line with a minus or a plus for every line that the records take out or put in |
| `DiffRun.Diff` | coreutils/diff.c:955-999 | For any two files the printed text is that of a sound run: the records have the lines that the matching leaves, the hunks are theirs, with true headers; nothing is printed if and only if the files are equal. Unless some hash value occurs too often, and without collisions, no edit script takes out or puts in fewer lines |
| `Patch.Patcher.CopyLines` | editors/patch.c:28-47 | Copies that many lines, or what is left |
| `Patch.Patcher.ApplyHunk` | editors/patch.c:185-233 | A hunk whose old lines are in place replaces them by its new ones; otherwise it is counted bad or patch dies |
| `Patch.Patcher.PatchFile` | editors/patch.c:168-239 | The hunks up to the first header that is not recognised all apply if and only if they are clean, and then the result is what they make of the source |
| `Patch.HunksApply` | editors/patch.c:168-239 | Recognised hunks always apply, and make a prefix of the new file if and only if every line that is put in one line too early is harmless |
| `Patch.EarlyApplies` | editors/patch.c:187-197 | A hunk without context that only puts in lines puts them in front of the line they follow; that is harmless if and only if they all equal it |
| `Patch.Outcome` | editors/patch.c:168-239 | The result is the new file if and only if the recognised hunks fit and what is copied behind them, or not copied, is right |
| `Patch.ContextApplies` | editors/patch.c:178-180 | With context and non-empty files that is unless both files are single lines |
| `Patch.ContextZero` | editors/patch.c:187-192 | Without context, appending 3 to the lines 1, 2 does not arrive |
| `Patch.SingleLines` | editors/patch.c:178-180 | Between two different files of one line the header is not recognised |
| `Patch.PatchText` | editors/patch.c:168-259 | On the text of any hunks that lead from the old file to the new one no hunk fails, what is left and whether the file is removed are known exactly, and it is the new file if and only if the hunks apply |
| `Patch.DiffThenPatch` | editors/patch.c:168-259 | For any two files and any context no hunk of the text that the run of diff prints fails, and the result is the new file if and only if the hunks of that run apply; with context or an empty file that is unless the files are two different single lines, and then the file is removed |
| `Probing.NoSmallProduct` | archival/dpkg.c:124-141 | A prime divides no product of two smaller numbers |
| `Probing.ProbesDiffer` | archival/dpkg.c:144-163 | The first p probes are all different |
| `Probing.ProbesReach` | archival/dpkg.c:144-163 | So every slot is probed |
| `Interning.NameTable.Search` | archival/dpkg.c:144-163 | While a slot is free for the key, the search ends at the slot of the key, adding it if it is new; other slots stay |
| `Interning.NameTable.SearchAll` | archival/dpkg.c:144-163 | Over any run with room for its new strings, two results are equal if and only if the strings are, and earlier indices stay good |
| `Interning.OneIndex` | archival/dpkg.c:144-163 | No string is in the table twice |
| `Versions.ComparePart` | archival/dpkg.c:188-249 | Negative if and only if, in the texts and numbers that the strings are made of in turn, the first that differ are in order; zero if and only if none differ |
| `Versions.StrCmpMeans` | archival/dpkg.c:218-224 | Before means to end first or to have the smaller character at the first difference |
| `Versions.PartsSplit` | archival/dpkg.c:211-245 | Every string is made of texts without digits and digits in turn |
| `Versions.CompareMeans` | archival/dpkg.c:188-249 | For any such division of two strings the first part that differs decides, texts before numbers, and a part that is missing is empty |
| `Versions.VersionMeans` | archival/dpkg.c:255-315 | A version is before another if its epoch is smaller, or the upstream part is before at equal epochs, or the revision behind the last dash at equal upstream parts |
| `Versions.OperatorsMean` | archival/dpkg.c:317-350 | Each operator of a dependency says what its name does about this order |
| `Versions.VersionPreorder` | archival/dpkg.c:255-315 | Version comparison is a total preorder on all strings |
| `Versions.BoundsCarry` | archival/dpkg.c:317-350 | A bound met by a version is met by every version beyond it |
| `Dependencies.AddField` | archival/dpkg.c:443-517 | One field becomes one edge, or a counting edge and its alternatives |
| `Dependencies.AddSplit` | archival/dpkg.c:425-522 | A dependency line becomes the edges of its fields, in order |
| `Dependencies.Database.SearchPackage` | archival/dpkg.c:353-374 | A package of the name whose version passes, or a free slot if the table has none |
| `Dependencies.Database.AddPackage` | archival/dpkg.c:603-607 | The package takes the slot found and every package can still be found |
| `Dependencies.Database.SearchProvider` | archival/dpkg.c:392-403 | The next package that provides the name |
| `Statuses.StatusTable.Search` | archival/dpkg.c:168-185 | The entry of the name, or the free slot where it would go if there is none |
| `Statuses.StatusTable.Put` | archival/dpkg.c:715-718 | The name has the new state; every other name keeps its own |
| `Dependencies.Database.PackageSatisfies` | archival/dpkg.c:889-904 | Pre-depends needs the package installed, depends needs it wanted |
| `Dependencies.Database.CheckEdge` | archival/dpkg.c:1062-1078 | A dependency is met if and only if a package of that name and version, or a provider, is in the needed state |
| `Dependencies.Database.CheckEdges` | archival/dpkg.c:1031-1107 | The loop with its count of alternatives succeeds if and only if every plain dependency and one alternative of every group is met |
| `Dependencies.Database.CheckDeps` | archival/dpkg.c:990-1108 | The pass succeeds if and only if that holds for every package that is wanted |
| `PackageIndex.FillEdges` | archival/dpkg.c:551-598 | The edges of a package are those of its lines, in order |
| `PackageIndex.IndexedAdd` | archival/dpkg.c:599-607 | The table keeps the last package for each name and equal version |
| `PackageIndex.IndexParagraph` | archival/dpkg.c:701-720 | A paragraph adds its package and state, and takes new slots only for a new name or version |
| `PackageIndex.IndexAndCheck` | archival/dpkg.c:990-1108 | From the paragraphs of the status file to the answer: the check succeeds if and only if everything that each wanted package lists is met |
| `StatusText.InternAll` | archival/dpkg.c:550-598 | With a slot for every string of the file, all paragraphs are read and every index stands for its string |
| `StatusFile.SlotIsLive` | archival/dpkg.c:603-607 | A package in the table is that of the last paragraph for its name and version |
| `StatusFile.SlotMeets` | archival/dpkg.c:1062-1078 | A slot meets a dependency if and only if its paragraph does, by name and version or as a provider |
| `StatusFile.CheckFile` | archival/dpkg.c:990-1108 | From the names and versions in the file to the answer: yes if and only if, for every last paragraph of a package that is wanted, every field of its dependency lines has an alternative that some such package in the right state meets by name and version or provides |
| `AwkHash.Hash.Search` | editors/awk.c:485-496 | The storage of the name in the map, or nothing |
| `AwkHash.Hash.Rebuild` | editors/awk.c:499-524 | The next prime size while there is one, and exactly the same map |
| `AwkHash.Hash.Find` | editors/awk.c:527-548 | The map gains the name if it is new; `nel` and `glen` stay its size and the bytes of its names; the table grows exactly when there are eleven names for every chain, so there are fewer until it is as big as it gets |
| `AwkHash.Hash.Remove` | editors/awk.c:555-571 | The map loses the name; counts stay exact |
| `AwkHash.Hash.Clear` | editors/awk.c:632-648 | The map is empty; counts stay exact |
| `AwkHash.Hash.WalkInit` | editors/awk.c:1583-1602 | The buffer is filled with exactly `glen` bytes and has every name once |
| `AwkHash.Walker.Next` | editors/awk.c:1604-1615 | The names come one after another until there are none |
| `AwkPrecedence.ParsedIsGrouped` | editors/awk.c:1021-1134 | The tree has the tokens in order, and every operator has on its left what it jumps over and on its right what does not jump over it |
| `AwkPrecedence.OneGroupedTree` | editors/awk.c:218-224 | There is only one such tree |
| `AwkPrecedence.LeftBindsTighter` | editors/awk.c:218-224 | Without postfix operators, everything on the left of an operator binds tighter, or as tight if the priority is odd |
| `AwkPrecedence.RightBindsTighter` | editors/awk.c:218-224 | With binary operators only, everything on the right binds tighter, or as tight if the priority is even |
| `AwkBinding.RightSideIs` | editors/awk.c:1041-1073 | With prefix and postfix operators too: a token stands on the right of an operator if and only if every binary or postfix operator from there up to the token binds tighter, or as tight at an even priority, than some operator from there on whose right side is still open |
| `AwkBinding.NextOperator` | editors/awk.c:1041-1073 | The operator behind an operand belongs to the right side of an operator in front of it if and only if it binds tighter, or as tight at an even priority, than that one or a prefix operator between |
| `AwkBinding.MinusPower` | editors/awk.c:329-342 | So a minus sign in front of a power takes the whole power |
| `AwkParser.Parser.JumpBack` | editors/awk.c:1044-1047 | The walk up the parents ends where the operator belongs |
| `AwkParser.Parser.Take` | editors/awk.c:1041-1073 | Relinking for one token keeps nodes and spine in agreement |
| `AwkParser.Parser.ParseExpr` | editors/awk.c:1021-1134 | For every sequence of operands and prefix, binary and postfix operators, the nodes hold the one tree with all tokens in order that the priorities fix, and each operator has on its right exactly the tokens that the priorities of the tokens between say; an error is reported if and only if an operand is missing |
| `Uuencode.FourMeans` | coreutils/uuencode.c:67-73 | Four characters carry the same 24 bits as three bytes |
| `Uuencode.Encode` | coreutils/uuencode.c:61-83 | The buffer holds the characters of the bytes with the last group padded, and a zero |
| `Uuencode.Write` | coreutils/uuencode.c:123-141 | The output is the lines of all 45-byte chunks and the trailer |
| `Merging.MergeFour` | coreutils/uudecode.c:48-67 | Merging six-bit numbers undoes the split |
| `Uudecode.ReadStduu` | coreutils/uudecode.c:21-71 | The text is accepted if and only if an end line comes before the first line that is too long or too short, and the bytes written are those that the lines before it carry |
| `Uudecode.StduuLaw` | coreutils/uudecode.c:21-71 | The same for any division of a text into lines: the loop over characters stops at the first end line or bad line, and the bytes are those of the lines before it |
| `Uudecode.MergedBytes` | coreutils/uudecode.c:46-67 | A line that says it has n bytes gives n, each the eight bits at its place in the 24 bits of its four characters |
| `Base64.ReadBase64` | coreutils/uudecode.c:73-130 | The bytes that the characters decode to, up to the terminator or the end of the text |
| `Base64Text.DigitsDecode` | coreutils/uudecode.c:73-130 | In a text without padding the digits give three bytes for every four, whatever stands between them |
| `Base64Text.ForeignSkipped` | coreutils/uudecode.c:87-93 | A character that is not in the table can be left out anywhere |
| `Base64Text.LineBreak` | coreutils/uudecode.c:105-111 | So can a line break, but for the terminator, unless padding follows |
| `Base64Text.LineBreakIff` | coreutils/uudecode.c:98-111 | Whatever follows, a line break can be left out if and only if it stands at the start or behind another one |
| `Base64Text.PaddingAfterBreak` | coreutils/uudecode.c:98-111 | A line break in front of its padding takes a byte away |
| `Base64Text.FourPads` | coreutils/uudecode.c:98-111 | Four padding characters end the text only on a line of their own |
| `Uudecode.StdRoundTrip` | coreutils/uudecode.c:21-71 | Decoding the historical format gives every input back |
| `Base64.Base64RoundTrip` | coreutils/uudecode.c:73-130 | Decoding base64 gives every input back, padding and terminator included |
| `UuRoundTrip.EncodeThenDecode` | coreutils/uudecode.c:21-130 | The same for the encoder and decoders run one after the other |

## Left out

- gzip header, trailer, checksum and file handling: input and output plumbing.
- The decompressors: the decoder here is a specification written from RFC 1951.
- `set_file_type`: it only sets a hint in headers.
- diff: reading lines and byte offsets, the flags that ignore case and blanks, binary files, directories and headers.
- patch: file names, backups, the removal of files and the text scanner; hunks are records, and a header is recognised as the scanner's formats allow.
- dpkg: cutting status files into paragraphs, lines and fields, unpacking, removal and the conflicts pass; lifetime of strings.
- Dependencies.Database.AddPackage: the new node that the source frees before it stores it is a value here.
- awk: tokens and evaluation; in the parser also the ternary operator, pipes and getline.
- uuencode and uudecode: the begin line and file modes.
- Everything else in the repository: mostly thin calls into the system or logic that rests on libc.
