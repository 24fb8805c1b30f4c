# Verification models

A Minecraft server in C and the libraries it bundles, modelled and proved in Dafny. Run `dafny verify dfyconfig.toml`.

Eight components are modelled in the form the C code has: structures that are changed in place are classes with the
same fields and links, loops are loops, and every such method is proved against a function or a predicate that says
what it means.

- **Thread pool** (`ThreadPool.dfy`, `JobQueue.dfy`). A transition system with any number of workers, threads that add
  jobs and threads that wait, over the queue's lock, the semaphore's own lock and the counter's lock. A lock and its
  condition variable are atomic steps with spurious wakeups, unlocked reads are single steps.
- **AVL tree** (`AvlShapes.dfy`, `AvlRemoval.dfy`, `AvlTree.dfy`). Nodes with parent links on the heap. A rotation
  updates the two heights in the wrong order; the proof follows the stale heights until they are repaired.
- **Binomial heap** (`BinomialTrees.dfy`, `BinomialHeap.dfy`). Reference-counted trees shared between root arrays, a
  ripple-carry merge, and the way back when memory runs out.
- **Trie** (`Trie.dfy`). Nodes with tables of 256 pointers and use counts. The proofs see a map from prefixes to
  nodes; insertion counts the key prefix by prefix and rolls back when memory runs out.
- **JSON** (`Utf8.dfy`, `JsonText.dfy`, `JsonPrinter.dfy`, `JsonGrammar.dfy`, `JsonStream.dfy`, `JsonLexer.dfy`,
  `JsonParser.dfy`, `JsonRoundTrip.dfy`, `JsonSyntax.dfy`, `JsonLaws.dfy`, `JsonLoaded.dfy`, `JsonAlphabet.dfy`).
  Printer and parser with its pushback stream, each against a functional description, the round trip between the
  descriptions, and the parser against the grammar of RFC 8259 as syntax trees: within its limits (2048 levels, 64-bit
  integers, finite reals, surrogates in pairs, keys without NUL) it accepts all their sources, and nothing else but a
  NUL here and there.
- **Jansson's hash table** (`HashtableLists.dfy`, `HashtableRuns.dfy`, `JanssonHashtable.dfy`). All buckets share one
  circular list; a second list through the same nodes keeps insertion order.
- **NBT** (`NbtFormat.dfy`, `NbtCodec.dfy`, `NbtWriter.dfy`). Reader with cursor and sticky `errno`, writer with a
  growing buffer.
- **Chunk sections** (`ChunkPacking.dfy`). 13-bit values packed across 64-bit words.

Four findings about the code are proved rather than assumed away, each with its exact condition.

- thpool_wait can sleep forever when two threads wait: `ThreadPool.WakeupsLostExactlyWhen`, with a run in
  `ThreadPool.TwoWaitersStrand`.
- json_loadb skips a NUL byte after a number or a word. What it accepts is JSON if and only if there is no NUL in the
  input: `JsonLaws.NulDecides`, with inputs in `JsonLaws.NulAfterNumber` and `JsonLaws.NulAfterWord`. json_loads is not
  affected.
- json_dumps does not notice an object key that is not UTF-8. What it writes is read back if and only if all keys are:
  `JsonLoaded.KeysDecide`, with an input in `JsonLoaded.BadKey`.
- A packed chunk section can be read back if and only if all block types are below 512 and all block data below 16:
  `ChunkPacking.SectionBackExactly`, with inputs in `ChunkPacking.SectionLost`. The program itself makes only sections
  with types 0 and 1 and data 0 (src/world/world.c:187-209).

What both sides of a round trip share is stated once more without the functions they share, in characters and literal
numbers: JSON's characters, escapes, digits and layout in `JsonAlphabet.dfy`, the order of keys in
`JsonPrinter.BeforeIsAtMost`, the encodings of UTF-8 in `Utf8.EncodeTable`, the bytes of NBT in `NbtFormat.Layout`, the
place of every bit and byte of a chunk section in the contract of `ChunkPacking.EncodeBlocks`.

Machine integers are unbounded unless a contract says otherwise: 64-bit JSON integers, the bytes of UTF-8 and NBT
numbers, and the 64-bit words of chunk sections have their width; counters and sizes do not wrap. Bytes are numbers from
0 to 255, masks and shifts are remainders and quotients by powers of two. Allocation may fail in the binomial heap and
in the trie, and nowhere else.

## Model

| member | source | states |
|---|---|---|
| ThreadPool.InvStep | lib/thpool.c:333-403 | Every step of any worker, adding thread or waiting thread keeps the invariant: exact working count, queue equal to the unpulled rest of the added jobs, locks held by whoever the program counters say, jobs in hand genuine, posts and sleepers covered, waiters' knowledge sound |
| ThreadPool.ReachableInv | lib/thpool.c:199-403 | The invariant holds in every state of every run, for any finite sets of workers, adding threads and waiting threads |
| ThreadPool.NothingLostOrRunTwice | lib/thpool.c:365-397 | In every reachable state the jobs added are exactly those queued, in one worker's hands, or run once; the queue is the unpulled suffix, so pull order is push order; what ran is the job that was pushed under that ticket |
| ThreadPool.QueuedJobsAreCovered | lib/thpool.c:460-511 | With the queue unlocked and jobs waiting, the binary semaphore is 1 or some worker has taken the token and not pulled yet, although posts collapse and pulls may find nothing |
| ThreadPool.TokenCoveredStep | lib/thpool.c:546-571 | Each step keeps the queue covered by the flag, by a worker between taking the token and pulling, or by a post that is still due |
| ThreadPool.SleepersStep | lib/thpool.c:564-571 | No worker stays asleep on the semaphore while its flag is 1 without another worker on the way |
| ThreadPool.WaitReturnsWhenDone | lib/thpool.c:222-228 | In any run in which a thread calls the wait and later returns from it, every job added before the call has been run by the time of the return |
| ThreadPool.PoolNeverStuck | lib/thpool.c:333-397 | While a job is queued or in hand and there is a worker, some thread can take a step that makes progress |
| ThreadPool.ProgressFalls | lib/thpool.c:199-403 | Every step but a new job, a new wait and a spurious wakeup lowers the amount of work left, falling asleep and posting included |
| ThreadPool.EveryRunEnds | lib/thpool.c:199-403 | Without new jobs, new waits and spurious wakeups every run from a reachable state is bounded. Where it cannot go on, every job that was added has run, adding threads are away, workers asleep and waiting threads returned or asleep; with one waiting thread at most every thpool_wait has returned |
| ThreadPool.StuckIsRest | lib/thpool.c:199-403 | A thread that can go nowhere is at rest: nobody is left holding a lock, woken from the condition variable, or half way through a job |
| ThreadPool.AnyJobIsAdded | lib/thpool.c:460-480 | Any job can be added while the queue is unlocked, and it is this job that goes to the end of the queue |
| ThreadPool.WakeupsLostExactlyWhen | lib/thpool.c:222-228 | No reachable state has a waiter asleep and unsignalled with an idle, empty pool, if and only if there is at most one waiting thread, or no worker, or nobody who adds jobs |
| ThreadPool.TwoWaitersStrand | lib/thpool.c:385-395 | The run that strands the second of two waiters: one signal, and the woken thread signals nobody |
| JobQueue.Queue.Push | lib/thpool.c:460-480 | On linked nodes with front, rear and length: the job goes to the end, the semaphore is posted |
| JobQueue.Queue.Pull | lib/thpool.c:486-511 | The front job leaves; nothing for an empty queue; the semaphore is posted exactly if jobs remain |
| AvlShapes.RotationKeepsOrder | lib/algo/avl-tree.c:176-212 | A rotation keeps the in-order sequence of nodes |
| AvlShapes.DoubledKeepsOrder | lib/algo/avl-tree.c:217-283 | So does the double rotation |
| AvlShapes.OnceRebalanced | lib/algo/avl-tree.c:232-278 | A single rotation of a node that leans by two gives a balanced tree of the old height or one less |
| AvlShapes.TwiceRebalanced | lib/algo/avl-tree.c:232-278 | So does the double rotation when the grandchild leans the other way |
| AvlTree.Tree.Replace | lib/algo/avl-tree.c:131-152 | Hanging a subtree in another's place changes exactly the one child link or the root, and the parent link, and brings the parent's height up to date |
| AvlTree.Tree.RotateAt | lib/algo/avl-tree.c:176-212 | After any rotation anywhere in the tree, the inner half of a double rotation included, all links agree again and every height in the rotated subtree is exact except its new top's own, although the two heights are updated in the wrong order |
| AvlTree.Tree.SettleHeight | lib/algo/avl-tree.c:205-281 | The last line of the balancing function makes the new top's height exact, and with it the whole subtree |
| AvlTree.Tree.NodeBalance | lib/algo/avl-tree.c:217-283 | Balancing one node with balanced subtrees gives exact heights, sibling heights at most one apart and the same in-order nodes |
| AvlTree.Tree.BalanceToRoot | lib/algo/avl-tree.c:288-304 | The walk to the root turns a tree that is correct except on one path into a correct tree with the same in-order nodes |
| AvlTree.Tree.Insert | lib/algo/avl-tree.c:306-354 | From a valid tree: the new node is put into the sorted in-order sequence after the keys that compare at most equal and before the greater ones, everything else keeps its order, links, heights, balance and count are exact; duplicate keys allowed |
| AvlTree.Tree.FindReplacement | lib/algo/avl-tree.c:360-412 | The walk from a child back towards the node ends at its in-order neighbour on that side, with the path to it and its one subtree |
| AvlTree.Tree.TakeOver | lib/algo/avl-tree.c:435-467 | The replacement takes over all links of the removed node, whether it was its child or lay deeper; the node to balance from is right in both cases |
| AvlTree.Tree.RemoveNode | lib/algo/avl-tree.c:414-481 | From a valid tree: exactly this node leaves the in-order sequence, and the tree is valid again |
| AvlTree.Tree.LookupNode | lib/algo/avl-tree.c:504-534 | A node with an equal key is found if and only if there is one |
| AvlTree.Tree.Remove | lib/algo/avl-tree.c:483-502 | Removes one node with an equal key if there is one and says so; otherwise nothing changes |
| AvlTree.Tree.ToArray | lib/algo/avl-tree.c:585-629 | The array holds the keys, each node once, and each compares at most equal to those after it |
| AvlShapes.InsertSorted | lib/algo/avl-tree.c:306-354 | Where the descent ends is a place where the key keeps the sequence sorted |
| AvlShapes.RemoveSorted | lib/algo/avl-tree.c:414-481 | Taking a node out keeps the rest sorted |
| AvlTree.Tree.CountBound | lib/algo/avl-tree.c:288-304 | A valid tree of height h counts at least Fib(h + 2) - 1 nodes |
| AvlRemoval.SwapOrder | lib/algo/avl-tree.c:360-479 | Putting the in-order neighbour in a node's place keeps the sequence without that node |
| AvlRemoval.Regraft | lib/algo/avl-tree.c:435-467 | Only the nodes on the boundary change, so everything below and above stays linked |
| BinomialTrees.LiveUnique | lib/algo/binomial-heap.c:69-93 | The references held outside trees determine which trees exist: nothing leaks and nothing is freed early |
| BinomialTrees.KeptAlive | lib/algo/binomial-heap.c:69-93 | A tree that is referred to, directly or through others, is not freed |
| BinomialTrees.Unref | lib/algo/binomial-heap.c:69-93 | Giving up a reference keeps every count equal to the number of references to its tree; what has no reference left is freed, recursively |
| BinomialTrees.DropAll | lib/algo/binomial-heap.c:157-166 | The same for a whole array of references, as the undo path does it |
| BinomialTrees.MergeTrees | lib/algo/binomial-heap.c:95-151 | Linking two heap-ordered trees of order k gives one of order k + 1 with both trees' values; if an allocation fails nothing has changed |
| BinomialTrees.TreeSize | lib/algo/binomial-heap.c:95-151 | A tree of order k holds 2^k values |
| BinomialTrees.RootFirst | lib/algo/binomial-heap.c:51-60 | The root of a heap-ordered tree comes before every value in it |
| BinomialHeap.Heap.AddSlot | lib/algo/binomial-heap.c:203-277 | One slot of the adder: the values of the up to three trees are the values stored plus the values carried on |
| BinomialHeap.Heap.AddStep | lib/algo/binomial-heap.c:203-288 | One turn of the carry loop keeps the adder's invariant and all reference counts, or gives back every reference taken |
| BinomialHeap.LastCarry | lib/algo/binomial-heap.c:171-289 | With one slot to spare nothing is carried out of the top |
| BinomialHeap.Heap.Merge | lib/algo/binomial-heap.c:171-314 | Merging is addition: the slots hold heap-ordered trees of their order, the values are both heaps' values, counts are exact, no slot is left over at the top; if any allocation fails the roots, the live trees and all counts are as before |
| BinomialHeap.Heap.Insert | lib/algo/binomial-heap.c:354-398 | Adds one value; fails exactly if an allocation fails, and then nothing has changed |
| BinomialHeap.Heap.Pop | lib/algo/binomial-heap.c:400-469 | Gives a value that compares at most equal to all others (a min heap) or at least equal (a max heap) and removes just that occurrence; nothing changes when the heap is empty or an allocation fails |
| BinomialHeap.Heap.Destroy | lib/algo/binomial-heap.c:337-352 | After the heap is freed no tree is left in memory |
| BinomialHeap.Heap.SlotsAreDigits | lib/algo/binomial-heap.c:171-314 | The occupied slots are the binary digits of the number of values, and there are no further slots |
| Trie.Trie.FindEnd | lib/algo/trie.c:116-143 | The descent along a key ends at the node of that prefix, or at null exactly if no stored key starts with it |
| Trie.Trie.Insert | lib/algo/trie.c:194-278 | From a valid trie: the key maps to the value, every prefix of a stored key has a node whose use count is the number of stored keys below it, and no other prefix has a node. It fails exactly for TRIE_NULL or a refused allocation, and then the stored keys and the nodes are those of before |
| Trie.Trie.InsertNew | lib/algo/trie.c:221-278 | The loop that finds or makes a node per character, raises its count, and rolls back when there is no memory |
| Trie.Trie.Rollback | lib/algo/trie.c:147-192 | Lowering the counts along the chain and unlinking what reaches 0 restores the trie of before the insertion, from whatever character it stopped at |
| Trie.Trie.GrowStep | lib/algo/trie.c:229-263 | One character: the node is found, or made and linked, and counts the key |
| Trie.Trie.Remove | lib/algo/trie.c:280-355 | From a valid trie: exactly this key is forgotten, counts are exact and no unused node is left; false and no change for an unknown key |
| Trie.Trie.RemoveStep | lib/algo/trie.c:307-350 | One character of the removal; only the first node that is given up needs to be unlinked |
| Trie.Trie.Lookup | lib/algo/trie.c:357-368 | The key's value, or TRIE_NULL |
| Trie.Trie.NumEntries | lib/algo/trie.c:370-380 | The use count of the root is the number of stored keys |
| Utf8.Utf8Encode | lib/jansson/utf.c:11-45 | Writes the encoding of a code point at its place and nothing else, and refuses exactly what is no code point |
| Utf8.EncodeTable | lib/jansson/utf.c:11-45 | The ranges of the bytes and the bits they carry, as in the table of section 3 of RFC 3629 |
| Utf8.FirstBytes | lib/jansson/utf.c:47-81 | Gives the length of every encoding that starts with the byte (the function's own contract), and 0 for exactly the bytes that no encoding starts with |
| Utf8.CheckFull | lib/jansson/utf.c:83-137 | Whatever size the caller announces, accepts exactly continuation bytes whose payload is a scalar value of that length; with the size of the first byte that is exactly the encodings of scalar values, decoded (RFC 3629 sections 3 and 4) |
| Utf8.Iterate | lib/jansson/utf.c:139-163 | Gives the scalar value whose encoding starts the text and its length, or fails if there is none |
| Utf8.CheckString | lib/jansson/utf.c:165-187 | Accepts exactly the sequences of encodings of scalar values |
| Utf8.StartsUnique | lib/jansson/utf.c:83-137 | A text starts with the encoding of at most one scalar value |
| Utf8.DecodeEncode | lib/jansson/utf.c:165-187 | A checked string is the encoding of the scalar values it is decoded to |
| Utf8.EncodeDecode | lib/jansson/utf.c:11-187 | Every sequence of scalar values is encoded to a valid string that decodes to it, in only one way |
| JsonPrinter.Printer.DumpIndent | lib/jansson/dump.c:44-68 | Writes the newline and all the spaces although at most 32 go out at a time, or the single space |
| JsonAlphabet.ArrayLayout | lib/jansson/dump.c:44-68 | An array's text: elements between commas, on lines of their own indented by depth times the width, or apart by a space, or by nothing under JSON_COMPACT |
| JsonAlphabet.ObjectLayout | lib/jansson/dump.c:285-380 | An object's text likewise, with `: ` or under JSON_COMPACT `:` after the key |
| JsonAlphabet.Printed | lib/jansson/dump.c:109-149 | Every character's text under every flag, as characters: short escapes, `\u00XX`, itself |
| JsonAlphabet.PrintedUnit | lib/jansson/dump.c:127-146 | `\uXXXX` in four capital hexadecimal digits |
| JsonAlphabet.PrintedWords | lib/jansson/dump.c:176-183 | null, true, false and the minus sign |
| JsonAlphabet.OnlyAscii | lib/jansson/dump.c:98-100 | Under JSON_ENSURE_ASCII every byte printed is below 80 hexadecimal |
| JsonRoundTrip.EscapedBack | lib/jansson/dump.c:109-149 | Whatever escape is picked for a character, short, `\uXXXX` or a surrogate pair, the reader decodes it to that character |
| JsonPrinter.Printer.DumpString | lib/jansson/dump.c:70-161 | Succeeds exactly for valid UTF-8, and then appends the quoted text with exactly the characters escaped that the flags ask for |
| JsonPrinter.Printer.DoDump | lib/jansson/dump.c:168-400 | Succeeds exactly if all string values are valid UTF-8 (bad keys go unnoticed), and for well-formed values appends the text of the value, members sorted by key if asked |
| JsonPrinter.Printer.DumpSorted | lib/jansson/dump.c:285-340 | Sorting the keys and looking each value up prints every member once, in the order of strcmp |
| JsonPrinter.Dumps | lib/jansson/dump.c:402-446 | Refuses top-level scalars unless JSON_ENCODE_ANY, otherwise gives the text; with JSON_SORT_KEYS of the value whose keys ascend in byte order in every object |
| JsonPrinter.SortedInOrder | lib/jansson/dump.c:163-166 | The sorted members are the same members, and every key is a prefix of each later one or smaller at the first byte that differs |
| JsonPrinter.BeforeIsAtMost | lib/jansson/dump.c:163-166 | strcmp's order: a prefix comes first, otherwise the smaller byte at the first difference decides |
| JsonPrinter.NormalizeAscends | lib/jansson/dump.c:285-340 | In what JSON_SORT_KEYS prints the keys ascend at every level of nesting |
| JsonStream.Stream.Get | lib/jansson/load.c:153-214 | Gives the next byte of the text, which ends at the end of input or at the first bytes that are not UTF-8; the end and the error stay |
| JsonStream.Stream.Unget | lib/jansson/load.c:216-232 | Puts a character back so that it is read again, except a NUL, which is lost |
| JsonStream.GoodAll | lib/jansson/load.c:153-214 | For UTF-8 input the text is the whole input |
| JsonLexer.Lexer.ScanRaw | lib/jansson/load.c:318-390 | The first pass stops at the closing quote that ends the string, or fails where the grammar has no such quote |
| JsonLexer.DecodeUnicodeEscape | lib/jansson/load.c:295-316 | The value of four hexadecimal digits |
| JsonLexer.DecodeUnicode | lib/jansson/load.c:411-455 | One `\u` escape or a surrogate pair gives its code point; unpaired surrogates fail |
| JsonLexer.DecodeString | lib/jansson/load.c:391-470 | The second pass decodes exactly what the raw text stands for, and what it writes and the terminator fit the buffer of the saved text's length plus one |
| JsonLexer.Lexer.ScanString | lib/jansson/load.c:318-473 | Both passes together give the string token of the grammar and leave the stream after the closing quote |
| JsonLexer.Lexer.ScanNumber | lib/jansson/load.c:484-579 | Integer part without leading zeros, 64-bit range check, fraction and exponent as in the grammar; reals from 2^1024 - 2^970 on are refused, as strtod makes them infinite |
| JsonLexer.Lexer.Scan | lib/jansson/load.c:581-647 | The next token of the text and what is left of it |
| JsonParser.ParseValue | lib/jansson/load.c:803-877 | The value the grammar reads at this nesting level, or failure; the depth is restored on success |
| JsonParser.ParseArray | lib/jansson/load.c:763-801 | The loop over the elements reads what the grammar reads |
| JsonParser.ParseObject | lib/jansson/load.c:684-761 | The loop over the members reads what the grammar reads; later members replace earlier ones in place, or are refused under JSON_REJECT_DUPLICATES |
| JsonParser.ParseJson | lib/jansson/load.c:879-912 | A whole document, with the checks of its first token and of the end of input |
| JsonParser.LoadBuffer | lib/jansson/load.c:978-1002 | json_loadb answers what the grammar says about the bytes |
| JsonParser.LoadString | lib/jansson/load.c:915-957 | json_loads reads the string in memory up to its NUL, which it does not pass, and answers the same for these bytes |
| JsonRoundTrip.StringBack | lib/jansson/dump.c:70-161 | lex_scan_string undoes dump_string for every valid UTF-8 string under all escape flags, surrogate pairs included, whatever follows (RFC 8259 section 7, RFC 2781 section 2) |
| JsonRoundTrip.SurrogatesBack | lib/jansson/dump.c:138-146 | The two surrogates printed for a code point above the BMP make it up again |
| JsonRoundTrip.NumberBack | lib/jansson/load.c:484-523 | Every 64-bit integer is read back as it was printed, up to both ends of the range |
| JsonRoundTrip.ValueBack | lib/jansson/dump.c:168-400 | A printed value is read back as that value, at any nesting level within the limit and whatever flags it was printed with |
| JsonLaws.RoundTrip | lib/jansson/load.c:934-1002 | json_loadb and json_loads of json_dumps give the value back, for every setting of indent, compact, sort-keys, ensure-ascii and escape-slash, with JSON_ALLOW_NUL when a string holds NUL and the matching flags for top-level scalars |
| JsonLaws.SortedDocument | lib/jansson/dump.c:285-340 | A reader of a document printed with JSON_SORT_KEYS meets the keys of every object in byte order, and an equal value |
| JsonLaws.NormalizeEqual | lib/jansson/dump.c:285-340 | With JSON_SORT_KEYS what is read back is equal to what was printed, as json_equal compares objects |
| JsonLaws.NormalizeUnsorted | lib/jansson/dump.c:342-380 | Without it even the order of the members comes back |
| JsonSyntax.ParserIsGrammar | lib/jansson/load.c:318-912 | On every text and under all flags but JSON_DISABLE_EOF_CHECK the parser accepts exactly the texts of RFC 8259's grammar (sections 2 to 7, as syntax trees) within the limits of depth, range and keys, with a NUL allowed after numbers and words, and gives the value the syntax tree stands for |
| JsonSyntax.SyntaxRead | lib/jansson/load.c:803-877 | Any source of a value, with any white space, is read as what it means, at any nesting level within the limit |
| JsonSyntax.ValueIs | lib/jansson/load.c:803-877 | Whatever parse_value reads is the source of a syntax tree that means the value it returns |
| JsonSyntax.StandardIsNulFree | lib/jansson/load.c:216-232 | Among the accepted texts those of the standard grammar are exactly those without NUL |
| JsonLaws.LoadsExactly | lib/jansson/load.c:959-1002 | json_loadb accepts exactly UTF-8 that the grammar derives, NULs after numbers and words aside |
| JsonLaws.NulDecides | lib/jansson/load.c:216-232 | What json_loadb accepts is read as the grammar says if and only if there is no NUL in it, and whatever the grammar derives is read so |
| JsonLaws.StringsAreStrict | lib/jansson/load.c:915-957 | json_loads answers exactly what the grammar says, as a string has no NUL |
| JsonAlphabet.Classes | lib/jansson/load.c:34-43 | White space, structural characters, digits, letters and what may follow a backslash, as characters |
| JsonAlphabet.HexDigits | lib/jansson/load.c:295-316 | A hexadecimal digit, small or capital, is worth its place in 0123456789abcdef; the printer writes capitals |
| JsonAlphabet.FourDigits | lib/jansson/load.c:295-316 | The four digits of a `\u` escape are a number to the base 16 |
| JsonAlphabet.SmallDigits | lib/jansson/load.c:308-309 | `\u00e9` is read as C3 A9 |
| JsonAlphabet.DecimalDigits | lib/jansson/load.c:484-523 | Decimal digits are a number to the base 10 |
| JsonAlphabet.Letters | lib/jansson/load.c:445-462 | What the letters after a backslash stand for (section 7 of RFC 8259) |
| JsonAlphabet.WhenInfinite | lib/jansson/load.c:525-570 | A real is refused exactly if all its digits as one integer, times the power of ten, reach 2^1024 - 2^970 |
| JsonLoaded.LastStands | lib/jansson/load.c:684-761 | Of members with the same key the last one's value stands |
| JsonLoaded.SetKeys | lib/jansson/load.c:684-761 | A repeated key keeps its first place, a new one comes last |
| JsonLoaded.NoneTwice | lib/jansson/load.c:684-761 | Under JSON_REJECT_DUPLICATES no key of an object comes twice |
| JsonLaws.ValueClean | lib/jansson/dump.c:168-400 | Printed text is valid UTF-8 without NUL |
| JsonLaws.NulAfterNumber | lib/jansson/load.c:216-232 | `[1<NUL>]` is read as `[1]`: the NUL after a number is given back to a stream that cannot hold it |
| JsonLaws.NulAfterWord | lib/jansson/load.c:640-647 | `[true<NUL>]` is read as `[true]`, which is no JSON text |
| JsonLaws.NulBeforeNumber | lib/jansson/load.c:640-644 | `[<NUL>1]` is refused |
| JsonLoaded.LoadsLoaded | lib/jansson/load.c:684-912 | Whatever json_loadb returns has UTF-8 strings, distinct keys without NUL, integers of 64 bits and limited nesting |
| JsonLoaded.LoadedAgain | lib/jansson/load.c:879-1002 | Whatever was loaded from any text is printed and loaded again as the same value, without reals |
| JsonLoaded.KeysDecide | lib/jansson/dump.c:315-359 | What json_dumps writes for a value is read back as that value if and only if all its keys are UTF-8: do_dump ignores that dump_string failed on a key |
| JsonLoaded.BadKey | lib/jansson/dump.c:342-378 | json_dumps succeeds on an object with the key FF, but no text at all is read back as that object |
| HashtableLists.ListInsert | lib/jansson/hashtable.c:46-52 | On the circular list: the node goes before the given one |
| HashtableLists.ListRemove | lib/jansson/hashtable.c:54-58 | On the circular list: exactly this node leaves |
| HashtableRuns.RunsInserted | lib/jansson/hashtable.c:65-78 | Inserting before the bucket's first pair, or at the end for an empty bucket, keeps every bucket's pairs one contiguous run |
| HashtableRuns.RunsRemoved | lib/jansson/hashtable.c:106-137 | Removing a pair and moving its bucket's ends keeps every bucket one run |
| JanssonHashtable.MaskIsModulo | lib/jansson/hashtable.c:106-137 | `hash & hashmask(n)` of the lookups and `hash % 2^n` of the rehash are the same bucket |
| JanssonHashtable.Table.InsertToBucket | lib/jansson/hashtable.c:65-78 | The node joins the list at the place of its bucket; the ordered list is untouched |
| JanssonHashtable.Table.Rehash | lib/jansson/hashtable.c:153-188 | Re-linking the pairs while walking the old list ends in a valid table of twice the buckets with the same pairs in the same insertion order |
| JanssonHashtable.Table.FindPair | lib/jansson/hashtable.c:80-103 | Looking only at the bucket's run finds the pair with the key if the table has one |
| JanssonHashtable.Table.Get | lib/jansson/hashtable.c:270-284 | The value the insertion-ordered map has for the key |
| JanssonHashtable.Table.Set | lib/jansson/hashtable.c:219-268 | A known key's value is replaced in its place, a new key's pair comes last, nothing else changes; the load ratio stays at most one |
| JanssonHashtable.Table.Del | lib/jansson/hashtable.c:106-137 | The key's pair leaves both lists and nothing else changes; -1 and no change for an unknown key |
| JanssonHashtable.Table.Clear | lib/jansson/hashtable.c:292-307 | An empty table with the same buckets |
| JanssonHashtable.Table.IterNext | lib/jansson/hashtable.c:330-336 | The iterator visits the pairs in insertion order, each once |
| JanssonHashtable.SetThenGet | lib/jansson/hashtable.c:219-284 | After a set the key has the new value and every other key its old one |
| JanssonHashtable.DelThenGet | lib/jansson/hashtable.c:270-290 | After a delete the key has no value and every other key its old one |
| NbtCodec.SwapBytes | lib/nbt/nbt_parsing.c:32-46 | Reverses the bytes in place |
| NbtCodec.SwapReads | lib/nbt/nbt_parsing.c:49-52 | A big-endian number, swapped, is the number a little-endian machine sees |
| NbtFormat.NumberBack | lib/nbt/nbt_parsing.c:69-73 | A two's complement number in range is read as it was written |
| NbtFormat.Layout | lib/nbt/nbt.h:34-48 | The type numbers 1 to 11 and every payload's bytes: lengths and counts in two or four bytes, a list's item type first, a compound's end tag last |
| NbtFormat.NodeLayout | lib/nbt/nbt_parsing.c:705-757 | Type, length of the name, name, payload; children one after the other, in lists without type and name |
| NbtFormat.NumbersSpelled | lib/nbt/nbt_parsing.c:716-740 | Numbers of one, two and four bytes in big-endian two's complement, byte by byte |
| NbtFormat.LongSpelled | lib/nbt/nbt_parsing.c:716-740 | Numbers of eight bytes, high half first |
| NbtFormat.SmallCompound | lib/nbt/nbt_parsing.c:705-757 | All 23 bytes of a compound with an int and a list of two bytes |
| NbtFormat.EmptyList | lib/nbt/nbt_parsing.c:259-299 | A list with an empty or negative count is read as empty; type 0 is read as a compound's |
| NbtFormat.NoSuchType | lib/nbt/nbt_parsing.c:357-421 | Type 0 and types above 11 are refused |
| NbtFormat.StringCut | lib/nbt/nbt_parsing.c:126-149 | A string is cut at its first NUL |
| NbtCodec.Reader.ReadString | lib/nbt/nbt_parsing.c:126-149 | Length, bounds and bytes as in the format; a failure sets `errno` |
| NbtCodec.Reader.ParseUnnamed | lib/nbt/nbt_parsing.c:357-421 | Reads the payload of any type and fails if it is malformed or an error was already noted; terminates on every input because every payload uses up at least one byte |
| NbtCodec.Reader.ReadList | lib/nbt/nbt_parsing.c:259-299 | Reads exactly the announced number of unnamed items; a negative count stands for none |
| NbtCodec.Reader.ReadCompound | lib/nbt/nbt_parsing.c:305-351 | Reads named children up to the end tag |
| NbtCodec.NbtParse | lib/nbt/nbt_parsing.c:423-431 | Answers what the format says about the bytes |
| NbtWriter.Buffer.Append | lib/nbt/buffer.c:54-92 | Appends to a buffer that doubles when it is full |
| NbtWriter.ListIsHomogenous | lib/nbt/nbt_parsing.c:230-257 | The one type of the items, the sentinel's for no items, 0 for several types |
| NbtWriter.DumpNode | lib/nbt/nbt_parsing.c:705-757 | Succeeds exactly for writable trees and appends their bytes, whose layout is that of the rows on `NbtFormat.Layout` and `NbtFormat.NodeLayout` |
| NbtWriter.DumpList | lib/nbt/nbt_parsing.c:642-679 | Type, count and items; refuses mixed types and counts above INT_MAX |
| NbtWriter.NbtDumpBinary | lib/nbt/nbt_parsing.c:759-770 | The bytes of the tree, the first one the number of its type as nbt.h has it, or an error exactly if a string is too long or a list is not homogenous |
| NbtFormat.TreeBack | lib/nbt/nbt_parsing.c:151-171 | nbt_parse of nbt_dump_binary gives the tree back up to the list sentinel, uses exactly the dumped bytes and leaves whatever follows |
| NbtFormat.PayloadReadOk | lib/nbt/nbt_parsing.c:357-421 | Every tree that can be read is well-formed, so it can be written, and is read again as it is |
| ChunkPacking.OrInside | src/world/world.c:388-390 | A value that fits above the bits in use is added to them by the or |
| ChunkPacking.OrAcross | src/world/world.c:388-402 | A value that crosses into the next word is split into the bits that fill this one and the bits carried over |
| ChunkPacking.EncodeBlocks | src/world/world.c:380-410 | Writes exactly 832 words and nothing else, each in memory highest byte first; if every type is below 512 and all data below 16, bit b of 16 times the type plus the data of block i is bit 13 i + b of the words, lowest word first; reading the words gives the section back if and only if that condition holds |
| ChunkPacking.UnpackPacked | src/world/world.c:380-410 | The i-th group of 13 bits is the i-th value |
| ChunkPacking.BlockBit | src/world/world.c:380-410 | The place of each of a block's 13 bits among the words |
| ChunkPacking.SwapMemory | src/world/world.c:394 | The swapped word's bytes in a little-endian machine's memory are the word's bytes, highest first |
| ChunkPacking.SwapBytes | src/world/world.c:394 | Byte k of the swapped word is byte 7 - k of the word |
| ChunkPacking.FitsWidth | src/world/world.c:388 | A block's value is below 2^13 exactly if its type is below 512 |
| ChunkPacking.BlockBack | src/world/world.c:388 | Type and data come apart again exactly if the data are below 16 |
| ChunkPacking.SectionBack | src/world/world.c:380-410 | Every block of a section with such types and data is recovered from the words |
| ChunkPacking.SectionBackExactly | src/world/world.c:380-410 | The words give the section back if and only if every block has a type below 512 and data below 16 |
| ChunkPacking.SectionLost | src/world/world.c:388 | A section of blocks of type 512, or of type 1 with data 16, is not read back |

## Left out

- Thread pool signals, pause and resume, destroy, its timeouts and the creation of threads: workers are there from the start and stay.
- Floating point: JSON reals are read as their text, refused if they overflow, and not printed back; NBT floats and doubles are opaque bytes.
- Error messages, line and column numbers of the JSON parser, file and callback sources, pack and unpack.
- Printing a JSON value that contains itself: values are trees, so the `visited` flags and reference counts of values are not modelled.
- JSON_DECODE_INT_AS_REAL is modelled in the scanner but excluded from the round trip, which would turn integers into reals.
- JSON_DISABLE_EOF_CHECK is in the parser but outside the comparison with the grammar, as what follows a value may be anything.
- qsort, strtoll and strtod are functions of their arguments; snprintf of integers is `JsonText.IntegerText`.
- The hash function of the hash table (lookup3.h): any function of the key; its three alignment paths are not modelled.
- Giving memory back is modelled in the binomial heap; elsewhere, the trie included, freed nodes are just no longer reachable. Reference counts of hash table values are not modelled.
- NBT lists in memory are sequences instead of circular lists; compression, ASCII dump, tree operations and the recursion depth of the C stack are not modelled.
- The order of the lists' allocations and `unsigned short` wrap-around of binomial reference counts and orders.
- Trie keys with bytes above 127, which index before the table where char is signed; trie_free and its free list.
- The hash table and set of lib/algo, the binary heap, the linked list sort, and the bloom filter, queue, slist and time helpers.
- Sockets, packet handlers, the mapi interface, encryption, logging, zlib.
