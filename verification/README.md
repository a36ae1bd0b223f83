# Model and proofs for VTest2

A model in Dafny of the parts of VTest2 where most can go wrong, and proofs of what those parts are for.
Nothing here runs the C code; every statement is about the model, for all inputs, runs or reachable states.

The model takes the form of the code. Code that updates buffers, tables and structures is a class or a method with
loops, proved against a description that does not mention how the code gets there; the laws are then proved of
the description. Where the code traps on an assertion, the model has an outcome for it. Machine words are
written out where their width matters: 32-bit sums, 64-bit shifts, 8-bit truncation.

| part | files |
|---|---|
| the paged binary heap and the event loop | VbhTree, VbhOrder, Vbh, Vev |
| HPACK: integers, dynamic table, Huffman code and its table generator, header fields | HpkInt, HpkTable, Bits, Huffman, HuffmanGen, HuffmanOrder, Rfc7541, Hpack, HpkCode, HpkHdr |
| the condition-variable barrier | Barrier |
| the log matcher | Logexp |
| string buffers, quoting and command lines | Vsb, Vav, VavQuote, VavWords |
| JSON: the text, its grammar, the in-place parser, quoting | JsonText, JsonGrammar, JsonAccepts, JsonQuote, Vjsn |
| lines, random numbers, dates | Vlu, Vrnd, Calendar, Vtim, VtimText |
| the terminal emulator and its screen | TermGrid, Teken, TekenText, TekenUtf8 |
| shared | Options, Words, Ascii, Texts |

`dafny verify dfyconfig.toml` checks all of it.

## Where the code does not do what it should

Each of these is stated with the exact condition under which the code is right.

- `num_encode` compares with `<=`, so 2^prefix - 1 does not survive (HpkInt.NumRoundTrip).
- A string literal does not survive if its encoded length is 127, if it is an empty Huffman string, or if it is empty
  and ends the block; and an empty Huffman string at the very end of the encoder's buffer trips an assertion
  (Hpack.StrRoundTrip, HpkHdr.HdrGoesOut).
- The guard of a table lookup can wrap around when the table bound is near 2^32 (HpkTable.SomeIndexLost, IndexLost), and
  so can the size of an entry (HpkTable.SizesRight, SizeLost).
- Entry 16 of the static table is `gzip,deflate`, where appendix A of RFC 7541 has `gzip, deflate` (HpkTable.Sixteenth).
- `VBH_delete` adds in 32 bits when it looks for spare rows; with more than 0xfffe_0000 items it frees a row in
  use (Vbh.Heap.Delete, RowLost). The event loop inherits it (Vev.Root.Stop).
- `VEV_Start` adds to a deadline instead of setting it, so an event started again is due too late (Vev.Root.Start, DueTooLate).
- Given a name by index and another in words, HPK_EncHdr sends one and keeps the other (Hpack.TablesAgree, NamesDiverge).
- A callback that stops its own event is counted off twice by the dispatch loop (Vev.Root.Dispatch, TwoStopThemselves),
  and one that does so on a timeout leaves vev_sched_timeout without its event (Vev.Root.SchedTimeout).
- `VAV_ParseTxt` promises a slot to spare; a comma at the end of the text can use it up (Vav.ParseTxt, SpareLost).
- `vjsn_unicode` sets bit 16 where it should add it (JsonGrammar.PairHandled, PairLost).
- `barrier_cyclic` checks and sets in two sections; a round completed in between leaves a cyclic barrier that lets
  nobody in (Barrier.CyclicTooLate, Barrier.System.BeginSync).
- `VLU_Feed` never returns from a line that fills the buffer before its end is seen (Vlu.ReturnsExactly, FeedHangs).
- In a window of two columns, which -winsz accepts, a wide character that goes to the next row trips an assertion
  (Teken.PrintedStays, TwoWide), and a window beyond 16 bits is another than its screen (Teken.Terminal.Resize).
- In a window of 65535 columns a wide character in the last column takes the cursor back to column 0, where automatic
  wrapping does not prevent it (Teken.PrintedAsIntended, GoesAstray).

## Model

| member | source | states |
|---|---|---|
| `VbhTree.ChildOfParent` | lib/vbh.c:101-162 | For every page size and every slot from 2 up to the clamp: it is one of the two children of its parent, and the parent is smaller |
| `VbhTree.ParentOfChild` | lib/vbh.c:101-162 | Each child below the clamp has the slot it came from as its parent, so parent and child are inverse |
| `VbhTree.Path` | lib/vbh.c:101-120 | Going up from any slot ends at the root: the slots form one tree |
| `VbhTree.StaysInPage` | lib/vbh.c:101-162 | What the pages are for: the children of a slot on the upper half of a page are in that page; those of one on the lower half are the first two slots of a page |
| `VbhTree.PageSizes` | lib/vbh.c:216-229 | Every power of two from 4 up to a row is a page size the arithmetic above covers |
| `VbhOrder.StepUp` | lib/vbh.c:287-308 | Swapping a slot with its parent moves the one place where heap order may fail one level up, along the page-aware tree |
| `VbhOrder.StepDown` | lib/vbh.c:311-343 | Swapping a slot with its lesser child moves that place one level down |
| `VbhOrder.RootIsLeast` | lib/vbh.c:378-386 | In a heap ordered along the tree, nothing comes before the root |
| `Vbh.Heap.constructor` | lib/vbh.c:210-242 | An empty heap with its first row, for any page size |
| `Vbh.Heap.AddRow` | lib/vbh.c:189-207 | A row is added (the row table doubled if need be); every used slot keeps its item |
| `Vbh.Heap.Swap` | lib/vbh.c:270-284 | Exchanges two slots and reports the new index of both items |
| `Vbh.Heap.TrickleUp` | lib/vbh.c:287-308 | Repairs the order of a heap wrong at one slot towards the root only; same items; every move reported |
| `Vbh.Heap.TrickleDown` | lib/vbh.c:311-343 | Repairs the order of a heap wrong at one slot towards the leaves only; same items; every move reported |
| `Vbh.Heap.Insert` | lib/vbh.c:346-361 | Heap order kept, the multiset of items grows by exactly the new one, every reported index right, a row added exactly when the last was full; the assertion that there is room fails if and only if 32 bits hold no further row |
| `Vbh.Heap.Delete` | lib/vbh.c:413-448 | Deletes any index, even after its key changed: order kept, exactly that item gone and reported as VBH_NOIDX, other reports right. The rows still cover every slot in use if and only if it was the last slot or there were at most 0xfffe_0000 items; a row is freed exactly when two are spare, if and only if it was the last slot or there were fewer than that |
| `Vbh.WrapsAround` | lib/vbh.c:443-447 | From there on the sum of VBH_delete wraps around in 32 bits, and the last row is taken for spare |
| `Vbh.RowLost` | lib/vbh.c:413-448 | A run: a heap of 0xfffe_0001 items, whose root is deleted, and the row of a slot in use is NULL |
| `Vbh.Heap.Reorder` | lib/vbh.c:455-471 | After any change of one key: order restored, same items, reports right |
| `Vbh.Heap.Root` | lib/vbh.c:378-386 | The first item, which no other item comes before; nothing if the heap is empty |
| `Vbh.Heap.Drain` | lib/vbh.c:601-610 | Root and delete until empty yields every item exactly once, in sorted order, if and only if there are at most 0xfffe_0000 items |
| `Vev.Root.constructor` | lib/vev.c:198-220 | An event loop with nothing registered |
| `Vev.Root.GetPfd` | lib/vev.c:131-150 | There is room for one more event, and the poll arrays keep what they hold |
| `Vev.Root.BhUpdate` | lib/vev.c:99-114 | With one more report of the heap taken in, poll arrays and event indices are still exactly all that the heap has reported, and every slot that was right is, the new last one included |
| `Vev.PolledFor` | lib/vev.c:108-113 | Poll is asked about the event's descriptor, and for exactly those of reading, writing, error and hang-up that the event has among its flags |
| `Vev.Root.Start` | lib/vev.c:259-312 | Registers an event: heap, poll arrays and events stay in line, no other deadline changed, the heap one larger. Its deadline is now plus its timeout if and only if it had none before, since the code adds to it |
| `Vev.DueTooLate` | lib/vev.c:294-297 | A run: an event with a timeout of 1 started at 10, stopped, and started again at 20 is due at 32 |
| `Vev.Root.Stop` | lib/vev.c:317-354 | Takes an event out of heap and poll arrays; what it had pending no longer counts. The heap survives it if and only if there are at most 0xfffe_0000 events or it was in the last slot |
| `Vev.Root.SchedTimeout` | lib/vev.c:374-389 | Runs the callback of a timed-out event, once; the event is then gone, or due again one timeout later. It comes through if and only if the callback has not stopped its own event for good; a row in use is lost only with more than 0xfffe_0000 events, those started included. Nothing else is registered, gone or due at another time than the callback's actions make it |
| `Vev.Root.Collect` | lib/vev.c:467-474 | Copies poll's answers into the events; n_fd_events is the number of events with something to deliver |
| `Vev.Root.Act` | lib/vev.c:259-354 | One thing a callback does, its own event included: refused exactly where VEV_Start or VEV_Stop asserts something of the caller that does not hold; a row in use is lost exactly where VEV_Stop loses it |
| `Vev.Root.Callback` | lib/vev.c:476-486 | Whatever a callback starts, stops or allocates, its own event included, the loop stays consistent and no other event gains or loses what it has pending, unless it is stopped |
| `Vev.Root.Deliver` | lib/vev.c:478-496 | One delivery: n_fd_events goes down, so every pass makes progress; a callback that stops its own event makes it go down once too often. The event is gone exactly if its callback returned non-zero, and otherwise still there, started unless the callback stopped it; what else is registered, and due when, is what the callback's actions make of it |
| `Vev.Root.Dispatch` | lib/vev.c:476-498 | Both loops end; every event poll found is called at most once, with its own revents, none other is called, and the result is the last negative value returned or 1. As many events are left undelivered as callbacks stopped their own event; so the loop trips no assertion and delivers everything if and only if none did. A row in use is lost only with more than 0xfffe_0000 events, those started included. Who is registered afterwards, started or not and due when, is what the callbacks in the order of the calls made of it: theirs go when they return non-zero, and nothing else changes but what they start, stop or allocate |
| `Vev.GoneAfter` | lib/vev.c:490-493 | However many callbacks come after: an event whose callback returned non-zero is not registered after the pass, unless a later one allocates it again |
| `Vev.StaysAfter` | lib/vev.c:476-498 | An event that no callback stops, and whose own callbacks all return zero, is registered after the pass with the deadline and all else it had |
| `Vev.NeverTheirOwn` | lib/vev.c:476-498 | None does if no callback ever has a stop of its own event in it, which can be seen beforehand |
| `Vev.StopThemselves` | lib/vev.c:334-338 | If every callback stops its own event, then whatever is pending, an assertion trips or an event is left undelivered, unless there are so many that a row in use is lost |
| `Vev.TwoStopThemselves` | lib/vev.c:476-498 | A run of that kind with two events |
| `Vev.Root.Once` | lib/vev.c:422-501 | The whole turn. The first event of the heap is the earliest; its timeout is served if and only if it is due before poll, or after a poll that found nothing, with one callback; otherwise every event poll found is served; the result in every case, 0 exactly when nothing is registered and -1 when poll fails. In each case who is registered afterwards, and due when |
| `HpkInt.NumRoundTrip` | src/vtc_h2_hpack.c:169-227 | For every prefix and 32-bit number, decoding what num_encode writes returns it and reads exactly its bytes if and only if it is not 2^prefix - 1; the flag bits survive |
| `HpkInt.AllOnesReadsOn` | src/vtc_h2_hpack.c:206-211 | The failing case: 2^prefix - 1 is written in one byte and decoding reads on behind it |
| `HpkInt.NumAccepts` | src/vtc_h2_hpack.c:169-197 | With up to five continuation bytes num_decode accepts exactly the values that fit in 32 bits, and yields the value |
| `HpkInt.NumCost` | src/vtc_h2_hpack.c:169-227 | No number is read from fewer bytes than num_encode writes for it |
| `HpkInt.NumExamples` | src/vtc_h2_hpack.c:200-227 | The examples of section C.1 of RFC 7541: 10 and 1337 with a prefix of five bits, 42 with eight |
| `HpkTable.SizesRight` | src/vtc_h2_tbl.c:126-134 | The code's sizes are those of section 4.1 of RFC 7541 if and only if no entry's size wraps around in 32 bits |
| `HpkTable.SizeLost` | src/vtc_h2_tbl.c:126-134 | An entry of 2^32 octets counts for nothing |
| `HpkTable.StaticExamples1` | src/vtc_h2_stattbl.h:5-6 | Entries 1 and 2 of the static table, octet by octet as in appendix A of RFC 7541 |
| `HpkTable.StaticExamples2` | src/vtc_h2_stattbl.h:8-9 | Entries 4 and 5 of the static table, octet by octet as in appendix A of RFC 7541 |
| `HpkTable.StaticExamples3` | src/vtc_h2_stattbl.h:10-11 | Entries 6 and 7 of the static table, octet by octet as in appendix A of RFC 7541 |
| `HpkTable.StaticExamples4` | src/vtc_h2_stattbl.h:12-37 | Entries 8, 24 and 33 of the static table, octet by octet as in appendix A of RFC 7541 |
| `HpkTable.StaticExamples5` | src/vtc_h2_stattbl.h:50-62 | Entries 46, 55 and 58 of the static table, octet by octet as in appendix A of RFC 7541 |
| `HpkTable.Sixteenth` | src/vtc_h2_stattbl.h:20 | Entry 16, whose value lacks the space that appendix A has |
| `HpkTable.FindIsLive` | src/vtc_h2_tbl.c:183-207 | The coarse guard never rejects a live index unless its 32-bit sum or an entry's size wraps; index 62 + k is the k-th newest entry |
| `HpkTable.SomeIndexLost` | src/vtc_h2_tbl.c:187-188 | Some live index is rejected if and only if the wrapped sum is below the last live index |
| `HpkTable.IndexLost` | src/vtc_h2_tbl.c:187-188 | A table with one entry of 2^32 - 1 octets, whose index 62 is not found |
| `HpkTable.PushKeepsRun` | src/vtc_h2_tbl.c:116-171 | A push keeps the table the longest most recent run of the history that fits |
| `HpkTable.TableIsLongestRun` | src/vtc_h2_tbl.c:116-171 | After any history of pushes with a fixed bound the table is exactly that run |
| `HpkTable.SameAfterEviction` | src/vtc_h2_tbl.c:148-165 | An indexed name that survives eviction is still the same name at the same index |
| `HpkTable.Ctx.constructor` | src/vtc_h2_tbl.c:281-289 | An empty table |
| `HpkTable.Ctx.PopHeader` | src/vtc_h2_tbl.c:104-113 | Removes the oldest entry; size stays the sum over the entries |
| `HpkTable.Ctx.Evict` | src/vtc_h2_tbl.c:137-138 | Removes the oldest entries until the new one fits or none is left |
| `HpkTable.Ctx.GetField` | src/vtc_h2_tbl.c:183-207 | The entry an index stands for, static or dynamic, or none |
| `HpkTable.Ctx.PushHeader` | src/vtc_h2_tbl.c:116-171 | Pushes by name or by index what the description says, sizes in 32 bits, or fails exactly where an assertion of the code does; size is the sum and within the bound |
| `HpkTable.Ctx.ResizeTbl` | src/vtc_h2_tbl.c:174-180 | A new bound evicts exactly what no longer fits |
| `Bits.OrBits` | src/vtc_h2_hpack.c:127-128 | Shifting a value into a 64-bit word and or-ing it in appends its bits |
| `Bits.WordTop` | src/vtc_h2_hpack.c:59-59 | The top bits of the word are the first of the bits it holds, zeros beyond |
| `Bits.WordShift` | src/vtc_h2_hpack.c:99-101 | Shifting the word drops the bits consumed |
| `Huffman.HuffRoundTrip` | src/vtc_h2_hpack.c:61-153 | For every string, the table walk over its padded codewords returns the string and never trips the assertion about the root table |
| `Huffman.WalkLeft` | src/vtc_h2_hpack.c:61-110 | From any table on the way through a codeword, the walk yields the rest of the string |
| `Huffman.HuffCost` | src/vtc_h2_hpack.c:61-153 | No string is read from fewer bytes than huff_encode writes for it |
| `Huffman.PaddedWithOnes` | src/vtc_h2_hpack.c:112-153 | What is written is the codewords, whole bytes in all, fewer than eight bits more, and those all ones, as section 5.2 of RFC 7541 asks |
| `HuffmanGen.Fill` | src/huffman_gen.py:21-58 | The dictionary after all codewords: each codeword's last part in the table of its prefix, a link to each table but the root, and EOS |
| `HuffmanGen.WriteTable` | src/huffman_gen.py:78-96 | A table written out has an entry for every index, each the entry whose bits begin it |
| `HuffmanGen.TableTiles` | src/huffman_gen.py:78-96 | The entries of a table cover its indices without gap or overlap |
| `HuffmanGen.Generate` | src/huffman_gen.py:13-96 | For every complete prefix-free code of the kind described, the tables written direct every codeword to its octet, and every leaf stands for the codeword that ends there or for EOS |
| `HuffmanGen.TablesTell` | src/huffman_gen.py:14-19 | No two tables have the same number as prefix, so the script's integer keys tell them apart |
| `HuffmanGen.EntriesTell` | src/huffman_gen.py:14-19 | No two entries of a table have the same number, though their lengths differ |
| `HuffmanOrder.AllUndone` | src/tbl/vhp_huffman.h:11-266 | The octets in the order of their codewords: looking up the place of an octet and the octet of that place gives the octet back |
| `Rfc7541.CodeNumbers` | src/tbl/vhp_huffman.h:11-266 | The codeword of every octet has the number the table gives it: the first number of its length plus its place among the codewords of that length |
| `Rfc7541.CodeExamples` | src/tbl/vhp_huffman.h:11-266 | The codewords of the letters of www.example.com, the example of section C.4.1 of RFC 7541 |
| `Rfc7541.CodeEnds` | src/tbl/vhp_huffman.h:11-266 | The first and last codewords of the code, and others at its ends, as in appendix B of RFC 7541 |
| `Rfc7541.CodeIsGood` | src/vtc_h2_enctbl.h:5-261 | The code of RFC 7541 is prefix-free, complete up to EOS, and has shorter codewords first |
| `Rfc7541.CodeIsStepped` | src/huffman_gen.py:47-53 | Every table the walk can reach is one the script creates and links |
| `Rfc7541.LongOnes` | src/huffman_gen.py:48-49 | No codeword longer than eight bits has prefix number zero, which the script takes for the root |
| `Rfc7541.DecodingTables` | src/huffman_gen.py:13-96 | With nothing left to suppose: the script's tables for the code of RFC 7541 decode every string |
| `Hpack.StrRoundTrip` | src/vtc_h2_hpack.c:230-292 | A string literal comes back, reading exactly its bytes, if and only if its encoded length is not 127 and it is neither an empty Huffman string nor an empty string at the end of the block |
| `Hpack.HdrRoundTrip` | src/vtc_h2_hpack.c:311-442 | A header field comes back with kind, index, name and value, from exactly its bytes, and the decoder's table becomes the encoder's, if and only if its index is live and not 2^prefix - 1, its strings are ones the code handles, its indexed name survives eviction, and a name given by index and in words leads to the same table either way |
| `Hpack.TablesAgree` | src/vtc_h2_tbl.c:116-171 | The encoder's push by index or in words and the decoder's push of the name it read leave equal tables if and only if no two different names were given, or nothing is pushed, or neither entry fits |
| `Hpack.NamesDiverge` | src/vtc_h2_hpack.c:427-440 | A field with one name by index and another in words, after which the tables differ |
| `Hpack.HdrCost` | src/vtc_h2_hpack.c:311-442 | No field is read from fewer bytes than are written for it |
| `Hpack.FieldStarts` | src/vtc_h2_hpack.c:401-426 | The first byte of each kind of field on the wire, by section 6 of RFC 7541: 128 to 255 indexed, 64 to 127 with incremental indexing, 0 to 15 without indexing, 16 to 31 never indexed |
| `Hpack.IndexStands` | src/vtc_h2_hpack.c:401-436 | Where an index and a name stand: an index that fits the prefix is in the first byte, and a field with a name in words begins with 0x40, 0x00 or 0x10 |
| `Hpack.FirstByteTells` | src/vtc_h2_hpack.c:311-398 | On the way in the first byte tells the kind of the field by the same numbers, whatever follows; 32 to 63 is a change of the table size and never a field |
| `Hpack.HuffmanBit` | src/vtc_h2_hpack.c:230-292 | The top bit of the first byte of a string is set exactly if it is Huffman coded, both ways; below 127 the byte is that bit and the length |
| `Hpack.BlockRoundTrip` | src/vtc_h2_hpack.c:311-442 | A block comes back field by field, with the same table after each, if and only if every field is one the code handles after the ones before it: no error is made up for by what follows |
| `Hpack.RunRoundTrip` | src/vtc_h2_hpack.c:311-442 | Over any run of blocks from equal tables, all fields arrive as sent and both tables are equal after every field, if and only if every field is one the code handles |
| `HpkCode.NumEncode` | src/vtc_h2_hpack.c:200-227 | Writes exactly the bytes of the number, or fails exactly when they do not fit, and writes nothing outside the buffer |
| `HpkCode.NumDecode` | src/vtc_h2_hpack.c:169-197 | Reads what the specification reads, and moves the position by exactly that |
| `HpkCode.HuffSimulate` | src/vtc_h2_hpack.c:156-166 | The byte count of the encoded string |
| `HpkCode.HuffEncode` | src/vtc_h2_hpack.c:114-153 | Emits exactly the concatenated codewords padded with ones, or runs out of buffer exactly when they do not fit |
| `HpkHdr.HuffDecode` | src/vtc_h2_hpack.c:61-110 | The loop over its 64-bit window is the table walk over the bits of the bytes |
| `HpkHdr.DecodedFits` | src/vtc_h2_hpack.c:268-270 | huff_decode never yields more than eight octets for five bytes, so the buffer str_decode allocates is never overrun |
| `HpkHdr.StrEncode` | src/vtc_h2_hpack.c:230-252 | How it ends, for every room left, and the bytes written |
| `HpkHdr.StrDecode` | src/vtc_h2_hpack.c:255-292 | Reads what the specification reads |
| `HpkHdr.HdrGoesOut` | src/vtc_h2_hpack.c:401-442 | A field goes out if and only if its bytes fit, but for an empty Huffman value that would end the buffer |
| `HpkHdr.EncHdr` | src/vtc_h2_hpack.c:401-442 | Writes the bytes of the field and pushes it exactly when they went out; the error and assertion cases as the code has them |
| `HpkHdr.DecHdr` | src/vtc_h2_hpack.c:311-398 | Reads what the specification reads and leaves the table it says, error cases included |
| `Barrier.Synchronised` | src/vtc_barrier.c:296-339 | In every reachable state no thread has finished its k-th sync unless all have begun their k-th, and waiters never exceeds expected |
| `Barrier.BeginKeeps` | src/vtc_barrier.c:303-313 | The first section keeps the invariant; there is always room for an idle thread |
| `Barrier.ReleaseKeeps` | src/vtc_barrier.c:320-326 | When one thread releases the others, all have begun this round; a new round starts with nobody in it |
| `Barrier.MoveKeeps` | src/vtc_barrier.c:327-337 | Every other step keeps the invariant |
| `Barrier.TimeoutTells` | src/vtc_barrier.c:331-336 | A thread whose time is over finds cond_cycle changed exactly when its own round is over |
| `Barrier.HeldUpBy` | src/vtc_barrier.c:296-339 | A thread held up waits for one yet to come, one still leaving the round before, or the last one's second section: never for nothing |
| `Barrier.Cond` | src/vtc_barrier.c:100-128 | A barrier for fewer than two is refused |
| `Barrier.System.BeginSync` | src/vtc_barrier.c:303-318 | The error of too many waiters fires exactly when a round was completed before the barrier was made cyclic |
| `Barrier.System.SecondSection` | src/vtc_barrier.c:320-330 | Releases everybody, or waits |
| `Barrier.System.WakeUp` | src/vtc_barrier.c:331-338 | A thread leaves exactly when its round is over |
| `Barrier.System.LeaveAlone` | src/vtc_barrier.c:320-338 | A thread that missed the broadcast gets out by its own steps within one timeout |
| `Barrier.System.LookForWaiters` | src/vtc_barrier.c:266-283 | Finds no waiters if and only if nobody has come for the next round and no round was completed on a barrier not yet cyclic |
| `Barrier.System.MakeCyclic` | src/vtc_barrier.c:285-288 | A barrier made cyclic lets threads in if and only if no round was completed before |
| `Barrier.CyclicTooLate` | src/vtc_barrier.c:266-289 | A run in which the check passed, a round was completed, and the flag came too late: the next sync is an error |
| `Barrier.System.Run` | src/vtc_barrier.c:296-339 | Any interleaving keeps the invariant; on a cyclic barrier the error never fires |
| `Logexp.OrderGrows` | src/vtc_logexp.c:384-468 | Matches follow the spec except inside a block of alternatives, whichever of the open ones matches next |
| `Logexp.AltKeeps` | src/vtc_logexp.c:452-462 | Marking a matched alternative keeps all that a run promises |
| `Logexp.HitKeeps` | src/vtc_logexp.c:541-545 | So does passing a matched expectation |
| `Logexp.PassKeeps` | src/vtc_logexp.c:536-539 | So does passing over a record |
| `Logexp.DoneSatisfies` | src/vtc_logexp.c:490-493 | When nothing is left, every expectation was met by exactly one record, in order, none waited too long, no record was forbidden, and every fail entry was cleared |
| `Logexp.TestInWords` | src/vtc_logexp.c:396-431 | What an entry asks of a record, word by word: * takes any, a number that number, = the one of the last match, a pattern is looked at only with a tag that is given; only an entry with a vxid ends its wait at the end of the transaction |
| `Logexp.ActiveMeans` | src/vtc_logexp.c:331-375 | A fail entry is on the fail list exactly from where it stands to the next clear |
| `Logexp.StepUnique` | src/vtc_logexp.c:521-550 | A spec has at most one place for a record: the reference for a step leaves no choice |
| `Logexp.GoesUnique` | src/vtc_logexp.c:496-550 | Nor has it one for a run: two runs over the same records are the same |
| `Logexp.StuckFor` | src/vtc_logexp.c:490-493 | So where the reference has no step, or the records end before the spec, no run of any kind fulfils it |
| `Logexp.RefusedRightly` | src/vtc_logexp.c:521-537 | A record the code refuses has no place in the spec: it is neither to be taken nor within the skip count, or it is forbidden |
| `Logexp.PassedRightly` | src/vtc_logexp.c:536-539 | A record the code passes over is one the spec lets pass |
| `Logexp.TakenRightly` | src/vtc_logexp.c:541-545 | A record the code takes is taken by the entry the spec gives it to, of alternatives the first one open |
| `Logexp.Matcher.constructor` | src/vtc_logexp.c:270-303 | A matcher for a spec |
| `Logexp.Matcher.Clean` | src/vtc_logexp.c:306-313 | Whatever an earlier run left, the entries are those of the spec again |
| `Logexp.Matcher.OtherAlt` | src/vtc_logexp.c:316-328 | The next alternative not yet seen in the same block, or none |
| `Logexp.Matcher.Next` | src/vtc_logexp.c:331-375 | On to the next entry to be met; the fail list is then exactly the fail entries since the last clear |
| `Logexp.Matcher.Match` | src/vtc_logexp.c:384-468 | Of a block of alternatives the first open one that matches takes the record; otherwise match, skip or fail by skip count and end of transaction |
| `Logexp.Matcher.FailCheck` | src/vtc_logexp.c:471-487 | Fails exactly when the record is on the fail list |
| `Logexp.Matcher.Feed` | src/vtc_logexp.c:521-550 | One record: failure exactly when it is forbidden or can be neither taken nor passed over; the assertion about an empty fail list holds. Exactly when the spec has no place for the record, and otherwise it goes to the place the spec has for it |
| `Logexp.Matcher.Start` | src/vtc_logexp.c:604-630 | A fresh run, whatever was run before |
| `Logexp.Matcher.Run` | src/vtc_logexp.c:496-590 | Without abort entries, success exactly when the records fulfil the spec: some beginning of them can be dealt out to its entries, each taken or passed over as the spec allows, until nothing is left. Every run that reaches done has kept all promises, over exactly the records it was given |
| `Vsb.QuotedAsIs` | lib/vsb.c:570-592 | A text with nothing to escape is its own quotation, so the shortcut changes nothing |
| `Vsb.QuotePrintable` | lib/vsb.c:594-642 | A quotation has no control character, and outside JSON mode no byte above 0x7e |
| `Vsb.ExtendSize` | lib/vsb.c:121-134 | The smallest power of two from 16 on that suffices below 4096, else the next multiple of 4096 |
| `Vsb.Buffer.constructor` | lib/vsb.c:226-239 | An empty buffer |
| `Vsb.Buffer.Extend` | lib/vsb.c:140-161 | More room, same contents |
| `Vsb.Buffer.PutByte` | lib/vsb.c:263-279 | Appends one byte, growing if need be; room for the NUL is never used up |
| `Vsb.Buffer.Bcat` | lib/vsb.c:285-305 | Appends a string |
| `Vsb.Buffer.PutQuote` | lib/vsb.c:528-647 | Appends exactly the quotation, by either way through the code |
| `Vav.BackslashTxt` | lib/vav.c:58-120 | One escape: its byte and length, octal numbers kept to 8 bits |
| `Vav.EscapeCut` | lib/vav.c:58-120 | An escape reads the same where the text is cut off behind it |
| `Vav.BackSlashDecode` | lib/vav.c:130-158 | Decodes a whole token, or fails on a bad escape |
| `Vav.ScanThenDecode` | lib/vav.c:207-268 | The decoding pass never fails on a token the scanning pass accepted |
| `Vav.FindEnd` | lib/vav.c:207-240 | The end of a token, quoted or not |
| `Vav.Reserve` | lib/vav.c:249-252 | There are always slots for one more argument and one behind it |
| `Vav.ParseTxt` | lib/vav.c:166-282 | All arguments in order with a NULL behind them, or the message; no slot written beyond the vector; how many slots there are, and one to spare if and only if no comma at the end of the text has used it up |
| `Vav.SpareLost` | lib/vav.c:247-276 | Thirteen arguments and a comma at the end, where it is used up |
| `VavQuote.QuotedByte` | lib/vav.c:58-120 | What VSB_quote writes for a byte is read back as that byte whatever follows |
| `VavQuote.LineRoundTrip` | lib/vav.c:166-282 | For every list of byte strings: each quoted between double quotes, with white space around, parses to exactly that list if and only if there is white space between any two; otherwise it is the missing separator error |
| `VavWords.LineParses` | lib/vav.c:166-282 | Every line of bare words and quoted strings, with white space or, where asked for, commas between them, parses to exactly its words in order; a comma at its end adds an empty one |
| `VavWords.CommentIgnored` | lib/vav.c:206-207 | From a # between words on, the rest of the line makes no difference |
| `VavWords.StrayQuote` | lib/vav.c:225-240 | A quote inside a bare word is the invalid quote error, whatever stands before and behind |
| `VavWords.OpenQuote` | lib/vav.c:241-252 | A quoted string that is not closed is the missing quote error |
| `VavWords.BadEscape` | lib/vav.c:216-221 | A backslash before anything but n, r, t, a quote, a backslash, an octal digit or x is the invalid backslash error |
| `VavWords.LetterEscapes` | lib/vav.c:58-120 | The escapes by letter and what each stands for |
| `VavWords.NumberEscapes` | lib/vav.c:58-120 | Three octal digits stand for their number, and examples for two hexadecimal ones |
| `VavWords.QuotesInLetters` | lib/vsb.c:528-647 | What VSB_quote writes for each of the bytes with an escape of their own, and that printable ones stay as they are |
| `JsonText.ValueSkips` | lib/vjsn.c:367-401 | White space before a value makes no difference |
| `JsonGrammar.PairHandled` | lib/vjsn.c:168-178 | Setting bit 16 instead of adding it gives the right code point if and only if bit 6 of the high surrogate is clear |
| `JsonGrammar.PairLost` | lib/vjsn.c:168-178 | U+20000, written as d840 dc00, comes out as U+10000 |
| `JsonGrammar.GlyphReadRight` | lib/vjsn.c:156-198 | Every character of a string is decoded rightly, a surrogate pair if and only if that bit is clear |
| `JsonGrammar.ShortRight` | lib/vjsn.c:201-245 | The two-character escapes are those of the table in section 7 of RFC 8259 and no others, each for its own byte |
| `JsonGrammar.HexRight` | lib/vjsn.c:127-154 | The hexadecimal digits of both cases and no others, each for its number |
| `JsonGrammar.Utf8Right` | lib/vjsn.c:180-197 | A code point becomes the one to four bytes of section 3 of RFC 3629, from which it can be told again |
| `JsonGrammar.ParseOf` | lib/vjsn.c:404-446 | Every JSON text of RFC 8259 in which every surrogate is one of a pair, with any white space, is accepted and read to its end; the tree is the right one if and only if all its surrogate pairs are of that kind. The grammar is written out in bytes, independently of the parser's own tables |
| `JsonAccepts.AcceptsExactly` | lib/vjsn.c:404-446 | The parser accepts exactly those texts and no others |
| `JsonQuote.JsonRoundTrip` | lib/vjsn.c:201-245 | For every byte string, vjsn_string applied to its JSON-mode quotation returns the bytes, NUL included |
| `Vjsn.Parser.constructor` | lib/vjsn.c:419-430 | The copy of the text with a NUL behind it |
| `Vjsn.Parser.SkipSpace` | lib/vjsn.c:105-126 | Skips and blanks out white space |
| `Vjsn.Parser.UNum` | lib/vjsn.c:129-153 | Four hexadecimal digits, or the error |
| `Vjsn.Parser.UnicodeTo` | lib/vjsn.c:156-198 | UTF-8 goes to the write position, which stays behind the read position |
| `Vjsn.Parser.DecodeTo` | lib/vjsn.c:209-241 | The string is decoded in place; write never passes read |
| `Vjsn.Parser.ParseString` | lib/vjsn.c:201-245 | The decoded string with its NUL stands in the buffer, nothing unread is touched |
| `Vjsn.Parser.ParseNumber` | lib/vjsn.c:318-364 | Accepts the number grammar and nothing else |
| `Vjsn.Parser.ParseValue` | lib/vjsn.c:367-401 | Reads what the description of the text says, and writes only where it has read |
| `Vjsn.Parser.ParseArray` | lib/vjsn.c:287-315 | The same for arrays |
| `Vjsn.Parser.ParseObject` | lib/vjsn.c:248-284 | The same for objects |
| `Vjsn.Parser.ParseEnd` | lib/vjsn.c:404-446 | The result stands for the tree of the text; every name, string and number, ended by its NUL, is still in the shared buffer at the end; the same error otherwise |
| `Vjsn.DenotesLater` | lib/vjsn.c:248-315 | What was parsed stays what it is, whatever is written behind it later |
| `Vlu.SplitWhole` | lib/vlu.c:93-121 | Lines, each with its CR or LF, and the tail make up the stream |
| `Vlu.PiecesUnbroken` | lib/vlu.c:93-121 | No line and no tail has a CR or LF in it |
| `Vlu.BreaksEnd` | lib/vlu.c:93-121 | A line feed and a carriage return end a line, each alone, and nothing else does |
| `Vlu.Resumes` | lib/vlu.c:158-179 | Where the stream is cut makes no difference |
| `Vlu.ReturnsExactly` | lib/vlu.c:158-179 | VLU_Feed returns if and only if no proper prefix of what it holds and is given has an unfinished line that fills the buffer; it has then taken everything |
| `Vlu.AllReturnExactly` | lib/vlu.c:158-179 | The same for a stream that comes in pieces: every call returns if and only if the whole stream is of that kind |
| `Vlu.FitsMeans` | lib/vlu.c:158-179 | That is: every line is shorter than the buffer and the tail not longer |
| `Vlu.FeedHangs` | lib/vlu.c:166-176 | A buffer for two bytes and a line of three: after every number of passes the third is still left |
| `Vlu.FeedFills` | lib/vlu.c:166-176 | A tail that just fills the buffer is taken, but the next call does not return |
| `Vlu.Assembler.constructor` | lib/vlu.c:57-73 | An empty assembler |
| `Vlu.Assembler.Process` | lib/vlu.c:93-121 | The complete lines go to the callback, the rest to the front of the buffer |
| `Vlu.Assembler.Pass` | lib/vlu.c:166-176 | One pass of the loop, as After counts passes; with the buffer full it changes nothing |
| `Vlu.Assembler.Feed` | lib/vlu.c:158-179 | Wherever VLU_Feed returns at all, it has taken everything: lines to the callback, the tail in the buffer |
| `Vlu.Assembler.FeedAll` | lib/vlu.c:158-179 | However a NUL-free stream comes in pieces, if every call returns the callback has seen exactly its lines and the buffer holds the tail |
| `Vrnd.Halves` | lib/vrnd.c:82-103 | 16807 * lo - 2836 * hi is 16807 * x modulo 2^31 - 1, and is never 0 |
| `Vrnd.GoodRand` | lib/vrnd.c:82-103 | For every seed the generator of Park and Miller moved to start at 0, with no 32-bit overflow and a result up to 0x7ffffffd |
| `Vrnd.ExtendedRecurs` | lib/vrnd.c:106-127 | The numbers satisfy x[n] = x[n - 3] + x[n - 31] modulo 2^32 |
| `Vrnd.InNumbers` | lib/vrnd.c:59-127 | The same recurrence with its numbers written out: 3, 31 and 2^32 |
| `Vrnd.GoodIs` | lib/vrnd.c:82-103 | The multiplier and moduli of the generator written out |
| `Vrnd.FilledIs` | lib/vrnd.c:134-137 | The table filled from a seed begins with it, and each number is made of the one before |
| `Vrnd.Generator.constructor` | lib/vrnd.c:65-80 | A ring filled with a table |
| `Vrnd.Generator.Random` | lib/vrnd.c:106-127 | The two-pointer ring yields the next number of the recurrence, less its lowest bit; both pointers stay in range |
| `Vrnd.Generator.Fill` | lib/vrnd.c:134-137 | The ring becomes exactly that table |
| `Vrnd.Generator.Seed` | lib/vrnd.c:131-143 | Everything that follows is determined by the seed |
| `Calendar.DaysRight` | lib/vtim.c:373-387 | The closed form is the sum of the Gregorian year and month lengths from 1 January 2000 |
| `Calendar.DayFollows` | lib/vtim.c:373-395 | Day after day the number goes up by one and the weekday goes round |
| `Calendar.SecondFollows` | lib/vtim.c:371-400 | Successive civil seconds are one apart |
| `Calendar.Epoch` | lib/vtim.c:371-400 | Midnight of 1 January 1970 is number 0, which fixes what the numbers of seconds mean |
| `Calendar.Thursday` | lib/vtim.c:389-395 | 1 January 1970 was a Thursday and 6 November 1994 a Sunday, which fixes what the numbers of weekdays mean |
| `Calendar.SecondsTell` | lib/vtim.c:371-400 | No two instants have the same number |
| `Vtim.JudgedRight` | lib/vtim.c:348-400 | A date is accepted exactly when it exists and a weekday given is the true one; the result is its distance from 1970, a leap second that of the second before |
| `Vtim.ParseDate` | lib/vtim.c:247-401 | The code's way through the text finds what the four forms say |
| `Vtim.Sum` | lib/vtim.c:348-400 | The checks and sums, step by step |
| `Vtim.NoNegativeModulus` | lib/vtim.c:389-395 | The remainder is never taken of a negative number |
| `VtimText.FormsAgree` | lib/vtim.c:247-401 | Every date that exists, in every form that can express it and with any spaces around, is read as the same second if and only if it is not before 1899, a weekday given is the true one, and a day of one digit is allowed |
| `VtimText.MonthsInLetters` | lib/vtim.c:87-90 | The names of the months |
| `VtimText.DaysInLetters` | lib/vtim.c:79-85 | The names of the weekdays, short and long |
| `VtimText.IsoInLetters` | lib/vtim.c:257-271 | The ISO 8601 form of one moment, letter by letter |
| `VtimText.Rfc1123InLetters` | lib/vtim.c:275-346 | The example of section 7.1.1.1 of RFC 7231 in its preferred form |
| `VtimText.LiberalInLetters` | lib/vtim.c:275-346 | The same with the day in one digit |
| `VtimText.AsctimeInLetters` | lib/vtim.c:275-346 | The same as asctime writes it |
| `VtimText.Rfc850InLetters` | lib/vtim.c:275-346 | The same in the obsolete form |
| `VtimText.MomentRead` | lib/vtim.c:247-401 | In all of these forms it is read as second 784111777 |
| `TermGrid.Screen.PutChar` | src/vtc_process.c:115-127 | One cell and no other; it shows the character from 0x20 to 0x7e, and a question mark for any other |
| `TermGrid.Screen.Fill` | src/vtc_process.c:130-141 | Every cell of the rectangle and no other |
| `TermGrid.Screen.Copy` | src/vtc_process.c:144-169 | Every cell gets the old value of its source, overlapping or not: the row order is right |
| `TermGrid.ScrolledTwice` | src/teken_subr.h:89-147 | Scrolling by m and then n the same way is scrolling by m + n; rows outside the region stay |
| `TermGrid.ScrolledBack` | src/teken_subr.h:89-147 | Scrolling there and back loses only what went over the edge |
| `TermGrid.ShiftedTwice` | src/teken_subr.h:394-414 | The same law for characters within a row |
| `Teken.DrawnInserts` | src/teken_subr.h:799-831 | In insert mode the rest of the row moves right by the width of the character |
| `Teken.Terminal.constructor` | src/teken.c:168-185 | A reset terminal |
| `Teken.Terminal.DoReset` | src/teken_subr.h:995-1012 | The reset state, tab stops every eight columns |
| `Teken.Terminal.Resize` | src/vtc_process.c:223-257 | What fits of the screen stays; the terminal is reset; the window is the screen if and only if its size can be told in 16 bits |
| `Teken.Terminal.DoScroll` | src/teken_subr.h:89-147 | The rows of the scroll region move, blank rows come in, by copies and fills inside the window |
| `Teken.Terminal.Index` | src/teken_subr.h:632-642 | Down one row, or scroll |
| `Teken.Terminal.ReverseIndex` | src/teken_subr.h:1045-1055 | Up one row, or scroll |
| `Teken.Terminal.Newline` | src/teken_subr.h:717-729 | From below the region too, the cursor ends up in it |
| `Teken.Terminal.Newpage` | src/teken_subr.h:732-753 | A new line, or in cons25 mode a blank origin region |
| `Teken.Terminal.Backspace` | src/teken_subr.h:202-223 | Left, in cons25 mode round to the row above and without ending the wrapped state |
| `Teken.Terminal.CursorDown` | src/teken_subr.h:273-282 | Clamped to the scroll region |
| `Teken.Terminal.CursorUp` | src/teken_subr.h:361-370 | Clamped to the scroll region |
| `Teken.Terminal.CursorForward` | src/teken_subr.h:285-294 | Clamped to the window |
| `Teken.Terminal.CursorBackward` | src/teken_subr.h:242-251 | Clamped to the window |
| `Teken.Terminal.CursorPosition` | src/teken_subr.h:324-337 | Relative to and clamped to the origin region |
| `Teken.Terminal.ForwardTab` | src/teken_subr.h:297-313 | To the n-th tab stop from here, or the last column if there are fewer |
| `Teken.Terminal.BackwardTab` | src/teken_subr.h:254-270 | To the n-th tab stop before, or the first column if there are fewer |
| `Teken.Terminal.RestoreCursor` | src/teken_subr.h:1025-1042 | Origin mode ends exactly if the saved place is outside the region |
| `Teken.Terminal.SetMargins` | src/teken_subr.h:1252-1280 | At least two rows, or the whole window |
| `Teken.Terminal.SetOriginMode` | src/teken_subr.h:1098-1105 | The origin region becomes the scroll region |
| `Teken.Terminal.ResetOriginMode` | src/teken_subr.h:941-948 | The origin region becomes the window |
| `Teken.Terminal.AlignmentTest` | src/teken_subr.h:184-199 | The window full of E, the regions reset |
| `Teken.Terminal.InsertLine` | src/teken_subr.h:671-700 | The rows from the cursor to the end of the region scroll down |
| `Teken.Terminal.DeleteLine` | src/teken_subr.h:417-446 | They scroll up |
| `Teken.Terminal.InsertCharacter` | src/teken_subr.h:645-668 | The row from the cursor on shifts right |
| `Teken.Terminal.DeleteCharacter` | src/teken_subr.h:394-414 | It shifts left |
| `Teken.Terminal.EraseCharacter` | src/teken_subr.h:486-499 | Blanks as many cells as fit |
| `Teken.Terminal.EraseLine` | src/teken_subr.h:538-561 | Of the cursor's row exactly the cells up to the cursor, all, or from the cursor on; no other cell |
| `Teken.Terminal.EraseDisplay` | src/teken_subr.h:502-535 | Blanks exactly the cells up to the cursor, all, or from the cursor on |
| `Teken.Terminal.DoPutchar` | src/teken_subr.h:799-831 | Draws one character, both halves if it is wide, inside the window |
| `Teken.Terminal.RegularCharacter` | src/teken_subr.h:834-918 | Where a character goes and where the cursor rests, in all modes, with 16-bit columns; everything asserted holds afterwards if and only if the character does not take the cursor out of the window |
| `Teken.PrintedStays` | src/teken_subr.h:856-916 | Printing keeps the cursor in the window, if and only if it is not a wide character that goes to the next row of a window of two columns |
| `Teken.TwoWide` | src/teken_subr.h:867-903 | Two wide characters in such a window: the first is left waiting in the last column, the second puts the cursor in column 2 of 2 |
| `Teken.PrintedAsIntended` | src/teken_subr.h:856-916 | That is what it would be with unbounded columns, if and only if the character is not a wide one in the last of 65535 columns that neither wraps nor stays in the last row outside the region |
| `Teken.GoesAstray` | src/teken_subr.h:905-914 | One row of 65535 columns, on which the cursor is back in column 0 behind a wide character |
| `Teken.Terminal.Apply` | src/teken.c:248-261 | The state after each routine that neither prints nor resizes, whole: cursor, wrap, margins, modes, tab stops and every cell, as the routine is meant; a printed or repeated character is where typing puts it. A routine keeps all that teken_input_char asserts, and the origin region is the scroll region in origin mode and the window otherwise, if and only if it does not print the cursor out of a window of two columns or resize beyond 16 bits |
| `Teken.Terminal.Route` | src/teken_subr.h:184-1280 | The same routine by routine: what the state becomes and what of it stays as it was |
| `Teken.Terminal.MoveCursor` | src/teken_subr.h:242-370 | Each direction moves its own coordinate by its number, clamped to its own bounds, and ends the wrapped state |
| `Teken.Terminal.Run` | src/teken.c:188-262 | Over every sequence of routines all that is asserted holds after each, up to the first such one; with three columns or more and sizes of 16 bits that is all of them |
| `Teken.CappedRight` | src/teken.c:424-450 | An argument is read exactly or is far beyond any window; it never overflows |
| `Teken.Arguments.Take` | src/teken.c:424-473 | Arguments are collected in order, at most eight, none beyond the bound |
| `Teken.Terminal.InputChar` | src/teken.c:188-262 | What each control character does, strings that are skipped, and when the assertions at the end hold, whatever the next state makes of other characters |
| `Teken.Terminal.RepeatLast` | src/teken_subr.h:1338-1347 | The last character again, through the character set each time, as often as asked but no more often than there are cells, or until the cursor has left the window |
| `TekenUtf8.TextArrives` | src/teken.c:265-297 | Text in UTF-8 arrives as it was, whatever unfinished character came before it |
| `TekenUtf8.Reader.Byte` | src/teken.c:265-297 | One byte: the character it completes, if any |
| `TekenUtf8.Reader.Input` | src/teken.c:300-308 | The characters of a stream of bytes, in order |
| `TekenText.TextStands` | src/teken_subr.h:834-918 | With automatic wrapping, text printed from the start of a row stands on the screen in reading order, and nothing else changes, as long as it does not run off the scroll region |
| `TekenText.ConsoleTextStands` | src/teken_subr.h:851-866 | The same in cons25 mode |
| `TekenText.ConsoleScrolls` | src/teken_subr.h:851-866 | There the region scrolls as soon as its last place is filled |

## Left out

- Sockets, processes, threads as operating system objects, files, poll itself, the clock and signals: their answers are parameters.
- The HTTP and HTTP/2 command handlers, regular expressions, compression: a regular expression match is an arbitrary relation.
- Memory allocation is taken to succeed. Pointers into lists and heaps are sequences, handles and indices.
- Vev.Root.Callback: callbacks do not free events. How a caller's misuse of VEV_Start or VEV_Stop ends a run is stated for one action (Vev.Root.Act) and not traced through a run.
- Vev.Root.BhUpdate: the heap's reports are taken in when the heap operation returns rather than during it; comparisons read only deadlines, so the heap cannot tell.
- Vev.Root.Once: the conversion of a deadline to milliseconds for poll.
- Hpack.RunRoundTrip: numbers and encoded lengths of 32 bits; a block is what one encoder sends, without size updates.
- HpkCode.HuffSimulate: the count of bits is taken unbounded; in C it is an `int` and overflows for strings of more than 2^31 - 8 bits of codewords.
- Vev.Root.Dispatch: what happens after the heap has freed a row in use is not followed; the run ends there.
- Teken.Terminal.Resize: a window beyond 16 bits, which is not the size of its screen, is not followed further.
- HuffmanGen.Generate: the script's dictionary is keyed by bit strings, where the script uses their numbers; TablesTell and EntriesTell show that the numbers tell the same apart, and Rfc7541.LongOnes that none collides with the root.
- Huffman input that contains EOS is rejected or accepted as the tables say; nothing is claimed of it beyond HpkHdr.HuffDecode.
- Barrier.System.Run: exactly as many threads as expected, no spurious wake-ups, neither the stop nor the error flag raised; `cond_cycle` does not wrap. Socket barriers are left out.
- Logexp.Matcher.Run: the records are those that pass VSL_Match and are neither batch nor witness records; the log messages are left out.
- Vsb.Buffer.PutQuote: only automatically extended buffers without indentation, and only the plain, ESCHEX and JSON modes without prefix.
- Vav.ParseTxt: arguments are byte strings; one with a NUL in it looks shorter to a reader of C strings.
- JsonAccepts.AcceptsExactly: bytes above 0x7f are not checked for UTF-8, as in the code. Comments are not compiled in.
- Vlu.Assembler.Feed: the callback returns 0 and the stream has no NUL.
- Vtim.ParseDate: failure is None, where the code returns 0, which is also the time of the epoch. Seconds are integers, which the code's doubles hold exactly.
- Teken.Terminal.RepeatLast: the product of rows and columns is taken unbounded; in C it overflows `int` for windows of more than 2^31 - 1 cells, where no argument reaches it anyway.
- Teken.Terminal.Run: counts are 1 or more; the generated dispatch, colours, character sets, character widths and reports are left out, and so are teken_set_cursor and teken_set_winsize_noreset, which do not check the cursor.
- TekenText.TextStands: characters one column wide.
