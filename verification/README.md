# Tempesta FW: a verified model of its protocol engines

Tempesta FW is a kernel web accelerator. This project models, in Dafny, the parts of it that are
hardest to get right by reading, and proves what they are for.

* **The encoder's dynamic index** of HPACK (RFC 7541): nodes of different sizes in a ring buffer,
  the same nodes in a red-black tree of offsets, evictions, and a guard that lets many responses
  read or one write. `Headers`, `RedBlack`, `NodeLinks`, `NodeTree`, `RingLayout`, `Fifo`,
  `EncoderTable`. `EncoderProtocol` adds the client and proves, over every interleaving, that
  both ends of the connection understand each other; `EncoderRefinement` ties the two together.
* **The decoder's dynamic table**, a growing circular buffer (`DecoderTable`); the **Huffman
  coder** with its tables (`BitStrings`, `HuffmanTables`, `HuffmanCheck`, `HuffmanCode`,
  `HuffmanState`, `HuffmanBuffer`, `HuffmanDecoder`, `HuffmanEncoder`); **prefix integers**
  (`PrefixInt`).
* **The forwarding queue** of a server connection through send errors, eviction, repair and
  rescheduling (`FwdQueue`), and all connections together (`FwdPool`).
* **The queue of a client connection**, which sends responses in order from many CPUs
  (`SeqQueue`).
* **Response time statistics**: the self-adjusting histogram (`Apm`), the merge that computes
  percentiles from it (`Percentiles`) and the ring of histograms over a window (`ApmRing`).
* **The generic state machine** (`Gfsm`), the **layout of a cached response** (`CacheRecord`) and
  the **sliding windows** of the limits (`SlidingWindow`).

Objects that the program updates in place are classes whose methods are proved against plain
lists, trees and numbers; what several CPUs or both ends of a connection do together is a state
machine over their steps. Where the code does not keep a promise, the exact condition under which
it does is a theorem, beside an input that shows the failure:

* evicting the last entry of the encoder's table leaves its node in the tree: when the new node ends
  before it, the client is sent an index it cannot resolve (`LostEntry`); when it does not, as in
  nearly every such eviction at the default window, the node is written over while it is in the tree
  (`ThreeHeaders`, `EncTable.FlushIsNear`); at the start of the buffer, a `BUG_ON` or a warning is met
  (`EncTable.AddNode`, `TwoLargeHeaders`, `EncTable.SetWindow`);
* a decoder addition that runs out of memory just after the ring has grown leaves the table broken
  (`DecTable.AddIndex`, `FirstGrowthFails`), and growing copies with byte counts where it means
  entries (`GrowthIsRightIff`, `WrappedRingLoses`);
* Huffman encoding into a buffer shorter than computed is an error only where the buffer ends at the
  start of a piece (`EncodeCopy`, `OneByte`);
* integers: groups are shifted in 32 bits (`LimitIsWrongIff`, `LimitIsWrong`), a later fragment of
  several bytes is put together with a bitwise or (`OrIsRightIff`, `OrIsWrong`, `OrAccepts`), and
  the buffer of an encoded one has room for three bytes (`FitsIff`, `StoreAndServe`), although the
  comment beside it promises room for a 64-bit one;
* a cached header without a value gets no end of its line in HTTP/1.1 and runs into the next one
  (`Expand`, `RunTogether`);
* a new minimum hides a new maximum of the response times (`MaxIsRightIff`, `MaxIsWrong`),
  coalescing moves odd buckets one bucket down (`GrownHitIsRightIff`, `GrownHitIsWrong`), and
  extending adds in 32 bits (`StretchedKeepsSum`, `ExtensionLoses`);
* percentiles are cut to 16 bits (`Percentile`, `LateIsCut`).

`dafny verify dfyconfig.toml` checks the project.

## Model

| member | source | states |
|---|---|---|
| `Headers.LessTransitive` | fw/hpack.c:2277-2428 | the order of the index, by name and then by value, is transitive |
| `Headers.CompareAntisymmetric` | fw/hpack.c:2277-2428 | of two headers one precedes, or they are equal |
| `Headers.NamesAreConvex` | fw/hpack.c:2783-2831 | headers of one name are neighbours in the order, which is why the search may remember a name match on its way down |
| `RedBlack.RotatedLeftKeeps` | fw/hpack.c:2458-2490 | a left turn keeps the in-order sequence and the offsets |
| `RedBlack.RotatedRightKeeps` | fw/hpack.c:2495-2527 | a right turn keeps the in-order sequence and the offsets |
| `RedBlack.PlugRedBlack` | fw/hpack.c:2532-2599 | a tree that fits a hole of a red-black tree, in height and in colour, makes a red-black tree again |
| `RedBlack.UnplugRedBlack` | fw/hpack.c:2604-2700 | the converse: every subtree of a red-black tree leaves a red-black hole |
| `RedBlack.RecolorUp` | fw/hpack.c:2546-2552 | red uncle: recolouring moves the only possible red-red edge two levels up and keeps the order |
| `RedBlack.TurnInner` | fw/hpack.c:2554-2564 | black uncle, inner grandchild: one turn makes it an outer one |
| `RedBlack.TurnOuter` | fw/hpack.c:2565-2567 | black uncle, outer grandchild: one turn ends with a red-black tree with the same in-order sequence |
| `RedBlack.BrotherRed` | fw/hpack.c:2617-2631 | red brother: after a turn the brother is black, and the shortage of one black node is still the only defect |
| `RedBlack.NephewsBlack` | fw/hpack.c:2633-2641 | no red nephew: the shortage moves up |
| `RedBlack.NearRed` | fw/hpack.c:2644-2651 | red near nephew: a turn of the brother brings the red one to the far side |
| `RedBlack.FarRed` | fw/hpack.c:2652-2656 | red far nephew: a turn of the parent ends with a red-black tree with the same in-order sequence |
| `NodeTree.Store.LeftRotate` | fw/hpack.c:2458-2490 | the rotation on the links is the rotation of the tree; its `BUG_ON` fires exactly without a right child |
| `NodeTree.Store.RightRotate` | fw/hpack.c:2495-2527 | the mirror image |
| `NodeTree.Store.InsertTurnLeft` | fw/hpack.c:2554-2567 | one or two rotations settle a black uncle on the right |
| `NodeTree.Store.InsertTurnRight` | fw/hpack.c:2580-2593 | the mirror image, and the only way in which a node linked to itself fires the `BUG_ON` |
| `NodeTree.Store.InsertRebalance` | fw/hpack.c:2532-2599 | terminates; restores a red-black tree with the same in-order sequence and consistent links; the `BUG_ON` fires exactly for a node that is its own parent |
| `NodeTree.Store.DeleteTurnLeft` | fw/hpack.c:2644-2656 | a red nephew ends the rebalancing, place on the left |
| `NodeTree.Store.DeleteTurnRight` | fw/hpack.c:2682-2694 | a red nephew ends the rebalancing, place on the right |
| `NodeTree.Store.DeleteRoundLeft` | fw/hpack.c:2614-2658 | one round of the loop moves the shortage up, or ends it; no `BUG_ON` fires |
| `NodeTree.Store.DeleteRoundRight` | fw/hpack.c:2659-2696 | the mirror image |
| `NodeTree.Store.DeleteRebalance` | fw/hpack.c:2604-2700 | terminates; restores a red-black tree with the same in-order sequence and consistent links |
| `NodeTree.Store.Min` | fw/hpack.c:2702-2713 | finds the leftmost node of a subtree |
| `NodeTree.Store.Replace` | fw/hpack.c:2718-2745 | the branch that led to a node leads to another one; exactly these links change |
| `NodeTree.Store.EraseLow` | fw/hpack.c:2844-2851 | a node with at most one child is cut out of a red-black tree |
| `NodeTree.Store.Promote` | fw/hpack.c:2860-2880 | the successor takes the position of the erased node |
| `NodeTree.Store.EraseInner` | fw/hpack.c:2853-2889 | a node with two children is taken out; the tree is red-black and has lost exactly that node |
| `NodeTree.Store.Erase` | fw/hpack.c:2836-2890 | for every node of every red-black tree: links, colours and black heights are right again, and the in-order sequence has lost exactly that node |
| `NodeTree.Store.Add` | fw/hpack.c:2752-2772 | for every place a search leaves: the same, and the sequence has gained the node there; the `BUG_ON` fires exactly when the node is already in the tree |
| `NodeTree.Store.Find` | fw/hpack.c:2783-2831 | full match, name match or none exactly as a scan of all nodes would say, and the place where the header belongs |
| `RingLayout.NodeLen` | fw/hpack.c:2173-2176 | an aligned node takes no more than the pseudo-size of its entry |
| `RingLayout.WalkVisitsRing` | fw/hpack.c:2903-2963 | the walk from the oldest node, wrapping where the ring ends, meets the nodes in the order they came |
| `RingLayout.NodesDisjoint` | fw/hpack.c:3010-3126 | no two nodes overlap, and all lie within the buffer |
| `RingLayout.LaidFacts` | fw/hpack.c:3082-3092 | `first <= last` exactly when nothing is wrapped; the used length is at most the pseudo-size |
| `RingLayout.LaidFirst` | fw/hpack.c:3082-3092 | with `first <= last` the ring size is the whole buffer, as the warning demands |
| `RingLayout.Pop` | fw/hpack.c:2932-2954 | dropping the oldest node keeps the layout, the length and the size, also where the ring unwraps |
| `RingLayout.PushNext` | fw/hpack.c:3106-3114 | a node behind the youngest keeps the layout |
| `RingLayout.PushWrap` | fw/hpack.c:3094-3103 | a node at the start of the buffer keeps the layout |
| `RingLayout.PushEmpty` | fw/hpack.c:3074-3080 | the first node of an empty buffer keeps the layout |
| `Fifo.EvictIsMinimal` | fw/hpack.c:2903-2963 | eviction by section 4.4 of RFC 7541 drops the oldest entries, and as few as possible |
| `Fifo.AddFits` | fw/hpack.c:3010-3126 | the list never outgrows its window |
| `EncoderTable.VictimsAll` | fw/hpack.c:2923-2930 | every entry must go exactly when the youngest and the new one do not fit together |
| `EncoderTable.EvictedMembers` | fw/hpack.c:2977-2984 | what the evictions leave in the tree: the survivors, or the last node when there are none |
| `EncoderTable.IndexPoints` | fw/hpack.c:2266-2275 | the index computed from the reverse index is that of the node's entry in the list |
| `EncoderTable.SearchMeansScan` | fw/hpack.c:3154-3158 | the result of the tree search is the result of a scan of the list, index included |
| `EncoderTable.EncTable.constructor` | fw/hpack.c:1020-1055 | a fresh index is valid and empty |
| `EncoderTable.EncTable.Calc` | fw/hpack.c:2903-2963 | computes exactly the minimal evictions, refuses exactly when there are more than five, and touches nothing |
| `EncoderTable.EncTable.Fit` | fw/hpack.c:3067-3114 | succeeds exactly when the buffer has a gap for the whole node; the warning of the first refusal is out of reach |
| `EncoderTable.EncTable.EraseAll` | fw/hpack.c:2977-2984 | the tree loses exactly the listed nodes |
| `EncoderTable.EncTable.Unlink` | fw/hpack.c:2977-2994 | the search after the evictions finds the place in the remaining tree; its warning fires exactly when the reused node was the last one and others went |
| `EncoderTable.EncTable.Commit` | fw/hpack.c:2965-3003 | the new node is in the tree and the bounds are published |
| `EncoderTable.EncTable.MakeRoom` | fw/hpack.c:3038-3064 | the nodes that go, and the layout of those that stay |
| `EncoderTable.EncTable.Plan` | fw/hpack.c:3022-3114 | an addition is accepted exactly when it fits the window, at most five entries go and the buffer has room; the flush condition is exact |
| `EncoderTable.EncTable.AddPlanned` | fw/hpack.c:3115-3126 | tree and ring agree and the table is the list of section 4.4 of RFC 7541, unless every entry was to go; then exactly when the `BUG_ON` or the warning is met, the new node is written over the youngest one, which is still in the tree, or that one is left in the tree untouched |
| `EncoderTable.WriteReaches` | fw/hpack.c:3112-3121 | the new node, written before any node is erased, never runs over one that stays in the ring; a node in the tree is run over exactly when an evicted one begins within it, or when every entry goes and the youngest one does |
| `EncoderTable.EncTable.AddNode` | fw/hpack.c:3010-3126 | a refused addition changes nothing, and the condition for it is exact; an accepted one is the addition to the plain list; flushing is the exact exception, with its four outcomes by the place of the youngest node |
| `EncoderTable.EncTable.FlushIsNear` | fw/hpack.c:3026-3075 | in a window as large as the buffer, a flush finds the youngest node within the new one or less than 32 bytes behind it |
| `EncoderTable.EncTable.Search` | fw/hpack.c:3154-3158 | result and index are those of a scan of the table, and the place is right for an addition |
| `EncoderTable.EncTable.EncoderIndex` | fw/hpack.c:3134-3210 | refines the step of the protocol on list and guard, and adds exactly when guard and buffer allow it; an attempt that evicts every entry leaves the outdated node in the tree exactly when the new node ends before it, writes over it exactly when it does not, and stops exactly when it was at the start of the buffer |
| `EncoderTable.EncTable.SearchOutdated` | fw/hpack.c:2783-2831 | after every entry was evicted for a node that ends before the youngest one, the search still finds the latter, at the index behind the only entry |
| `EncoderRefinement.StartsRefined` | fw/hpack.c:1020-1055 | a fresh index is the initial state of the protocol |
| `EncoderRefinement.Encode` | fw/hpack.c:3134-3210 | a request to the real index is a step of the protocol, so the theorems about its runs are about the index |
| `EncoderRefinement.ReadRelease` | fw/hpack.c:3220 | reading the guard without the lock is a step of the protocol |
| `EncoderRefinement.WriteRelease` | fw/hpack.c:3220-3228 | whatever others did since the read, the guard that is written counts exactly the messages still inside; the warning is not met |
| `EncoderRefinement.Release` | fw/hpack.c:3212-3229 | leaving takes exactly this message out and touches neither table; the last one out leaves the guard at 0 |
| `EncoderRefinement.LostEntry` | fw/hpack.c:2923-2930 | after an addition that evicts every entry there is, exactly when the new node ends before the youngest one, a header for which the encoder emits an index that the client cannot resolve |
| `EncoderTable.EncTable.SetWindow` | fw/hpack.c:3828-3850 | a smaller window evicts minimally; the table stays valid exactly when some entry survives |
| `EncoderTable.EncTable.EvictFor` | fw/hpack.c:2903-2963 | eviction from the table itself, with no limit on their number |
| `EncoderTable.TwoLargeHeaders` | fw/hpack.c:2458-2490 | for all pairs of headers that do not fit together: added to a fresh table, the second one meets the `BUG_ON` of the left rotation |
| `EncoderTable.ThreeHeaders` | fw/hpack.c:3074-3121 | for all triples of headers where the first two fit together and the last two do not: added to a fresh table, the third is written over the node of the second, which is in the tree, if its node is longer than that of the first, and is added beside it otherwise |
| `EncoderProtocol.DynamicFieldMeans` | fw/hpack.c:3701-3826 | a field made from an answer means its header under the table it was answered for |
| `EncoderProtocol.SendKeeps` | fw/http.c:873-895 | sending hands over exactly the headers that were meant |
| `EncoderProtocol.WriteKeeps` | fw/hpack.c:3212-3229 | leaving in two steps, an unlocked read and a write, is harmless |
| `EncoderProtocol.AddKeeps` | fw/hpack.c:3172-3204 | a message that adds is alone inside |
| `EncoderProtocol.RunKeeps` | fw/hpack.c:3134-3229 | the invariant holds in every state of every run |
| `EncoderProtocol.ClientAgrees` | fw/hpack.c:3010-3229 | over every interleaving, every block the client received decoded to exactly the headers the encoder meant |
| `EncoderProtocol.TablesAgree` | fw/hpack.c:3134-3229 | with no message inside, both ends have the same table |
| `EncoderProtocol.GuardMeans` | fw/hpack.c:3160-3170 | guard -1 means exactly one message inside, k >= 0 exactly k |
| `EncoderProtocol.TableIsStable` | fw/hpack.c:3160-3170 | between entering and leaving, only the message itself changes the table |
| `DecoderTable.DoubledKeeps` | fw/hpack.c:861-889 | as they are meant, with offsets in entries, all three ways of growing keep the entries and their order |
| `DecoderTable.DecTable.DropUntil` | fw/hpack.c:802-816 | drops exactly what the list evicts, through wraparound |
| `DecoderTable.DecTable.SetLength` | fw/hpack.c:961-1012 | the window change of section 4.3 of RFC 7541, or an error and no change |
| `DecoderTable.DecTable.FindIndex` | fw/hpack.c:930-959 | index 61+k is the k-th newest entry, lower ones are static, index 0 being the place before that table; anything else is not found |
| `DecoderTable.DecTable.Clear` | fw/hpack.c:819-854 | an entry larger than the table empties it |
| `DecoderTable.DecTable.Store` | fw/hpack.c:904-922 | the entry is written and published, or nothing changes |
| `DecoderTable.DecTable.Grow` | fw/hpack.c:855-902 | as it is written: a larger ring with the same list, or with entries missing exactly when it had wrapped; until a new place is published, the fields of a ring that had entries are wrong |
| `DecoderTable.DecTable.AddEvicting` | fw/hpack.c:787-818 | with evictions, the addition to the list |
| `DecoderTable.DecTable.AddGrowing` | fw/hpack.c:855-922 | without evictions, the addition to the list, exactly unless a ring that has wrapped must grow; when it fails the table is intact exactly when the ring has not grown |
| `DecoderTable.DecTable.AddIndex` | fw/hpack.c:754-928 | in 32-bit arithmetic, the addition to the list for every header; the error conditions are exact, and so are the cases in which growing loses entries and in which a failed addition leaves a broken table |
| `DecoderTable.WrappedMoves` | fw/hpack.c:879-906 | a ring that has wrapped and was copied to another place is not what the fields say |
| `DecoderTable.MovedIsBroken` | fw/hpack.c:900-906 | why: the fields then point at unused places |
| `DecoderTable.FirstGrowthFails` | fw/hpack.c:855-906 | 32 additions to a fresh table, and no memory for the next header: the table is not what it was |
| `DecoderTable.DoubledInUnits` | fw/hpack.c:861-889 | with offsets in entries, the copies as they are written are the intended ones |
| `DecoderTable.GrowthIsRightIff` | fw/hpack.c:861-889 | with offsets in bytes, as they are written, growing keeps the entries exactly when the next place is the first one |
| `DecoderTable.WrappedRingLoses` | fw/hpack.c:787-889 | 32 additions to a fresh table fill the window, a shorter header takes the place of the oldest, and the next such header, for which the ring must grow, is added with success and loses entries |
| `HuffmanCheck.CheckHome` | fw/hpack_tbl.h:65-149 | the code of every symbol begins with the prefix of its decoding table, and none is the beginning of a padding |
| `HuffmanCheck.CheckBlock` | fw/hpack_tbl.h:151-1031 | every entry of the decoding tables that begins with the rest of a code is that symbol |
| `HuffmanCode.LookSound` | fw/hpack_tbl.h:151-1031 | what a lookup means: a symbol whose whole code has been read, the next table on its way, or the end code |
| `HuffmanCode.AtHome` | fw/hpack_tbl.h:151-1031 | at its table, the bits of a symbol are looked up as the symbol |
| `HuffmanCode.OffHome` | fw/hpack_tbl.h:151-1031 | before its table, they lead on to the next table on the way |
| `HuffmanState.StateEmit` | fw/hpack.c:620-625 | a decoded symbol is the next symbol of every string the bits may encode |
| `HuffmanState.StateJump` | fw/hpack.c:626-634 | a longer prefix has been read, and no string is lost |
| `HuffmanState.StateRefuse` | fw/hpack.c:513-539 | no string is encoded when neither a symbol nor a padding is left |
| `HuffmanState.StateAccept` | fw/hpack.c:502-512 | the string decoded is the only one |
| `HuffmanDecoder.OnesCheck` | fw/hpack.c:507-510 | the exclusive-or test holds exactly for at most seven ones |
| `HuffmanDecoder.HPack.SetNext` | fw/hpack.c:248-257 | a byte is taken into the 16-bit buffer and none of the bits waiting is lost |
| `HuffmanDecoder.HPack.LookBig` | fw/hpack.c:612-639 | one lookup of seven bits |
| `HuffmanDecoder.HPack.LookSmall` | fw/hpack.c:660-680 | one lookup of three bits; its refusal means that no string is encoded |
| `HuffmanDecoder.HPack.Tail` | fw/hpack.c:468-540 | accepts exactly symbols followed by a padding of at most seven ones |
| `HuffmanDecoder.HPack.TailSmall` | fw/hpack.c:542-578 | the same at a table of eight |
| `HuffmanDecoder.HPack.Decode` | fw/hpack.c:580-685 | for every byte string: the result is the one string encoded there, and failure means there is none (section 5.2 of RFC 7541) |
| `HuffmanEncoder.EncodedLength` | fw/hpack.c:3231-3248 | the number of whole bytes for the codes |
| `HuffmanEncoder.Dest.WriteBytes` | fw/hpack.c:3260-3269 | the pointer moves by eight for every byte: an error exactly where the buffer ends at the first one, otherwise bytes are written behind it |
| `HuffmanEncoder.Dest.Store` | fw/hpack.c:3288-3294 | a piece is written within the buffer when it fits; it is refused exactly when the pointer is at the end of the buffer; a pointer behind the end is taken for room |
| `HuffmanEncoder.Push` | fw/hpack.c:3277-3296 | 64-bit packing: bytes written and bits waiting are the codes so far, or the pointer has gone astray, which needs a buffer that ends within a word |
| `HuffmanEncoder.FillUp` | fw/hpack.c:3301-3308 | the last byte is filled up with ones |
| `HuffmanEncoder.StoreLast` | fw/hpack.c:3311-3344 | the last bytes in pieces of eight, four, two and one; an error exactly where the buffer ends at the start of a piece |
| `HuffmanEncoder.Finish` | fw/hpack.c:3300-3345 | the bytes encode the string when there is room; exactly when the call fails and when bytes went behind the buffer |
| `HuffmanEncoder.EncodeCopy` | fw/hpack.c:3250-3352 | for every string and buffer: with the computed length, exactly the codes and a padding; with less, the error exactly when the buffer ends where a piece begins, and bytes behind the buffer exactly otherwise |
| `HuffmanEncoder.OneByte` | fw/hpack.c:3260-3269 | 65 bits of code and a buffer of one byte: success is reported and bytes behind the buffer are written |
| `HuffmanEncoder.RoundTrip` | fw/hpack.c:3231-3352 | decoding what was encoded in a buffer of the computed length gives the string back; nothing is written behind the buffer |
| `PrefixInt.WriteInt` | fw/hpack.c:391-413 | writes the representation of section 5.1 of RFC 7541 |
| `PrefixInt.IntSize` | fw/hpack.h:281-297 | is the length of what is written |
| `PrefixInt.FitsIff` | fw/hpack.h:220-226 | three bytes suffice exactly below `max` + 2^14 |
| `PrefixInt.GetFlexible` | fw/hpack.c:189-208 | reads as much of the integer as there is, each group shifted in 32 bits |
| `PrefixInt.LimitIsRightIff` | fw/hpack.c:189-208 | value and limit test are those of section 5.1 of RFC 7541 exactly when an integer above the limit is above it in the 32 bits of its groups, too |
| `PrefixInt.LimitIsWrongIff` | fw/hpack.c:189-208 | on the bytes: it goes wrong exactly with four groups within the limit, a fifth whose low four bits are 0, and anything else in it or behind it |
| `PrefixInt.LimitIsWrong` | fw/hpack.c:201 | 2^4 at a shift of 28 is lost: a full prefix is accepted as the value |
| `PrefixInt.DeepIff` | fw/hpack.c:193-207 | a shift by 32 or more, which C does not define, is met exactly with five marked bytes within the limit and a sixth one |
| `PrefixInt.RoundTrip` | fw/hpack.c:189-208 | every value up to the limit comes back, for every prefix and whatever follows |
| `PrefixInt.GetContinue` | fw/hpack.c:217-243 | goes on with the next fragment, with its bitwise or |
| `PrefixInt.OneByOne` | fw/hpack.c:217-243 | one byte in every later fragment gives the same value as one fragment |
| `PrefixInt.OrIsRightIff` | fw/hpack.c:217-243 | a later fragment, of whatever length, gives what one fragment would exactly when its groups behind the first fall on no bit of the value so far, or pass the limit even so |
| `PrefixInt.OrIsWrong` | fw/hpack.c:235 | 256 behind a prefix of seven bits, in two fragments, is read as 128 |
| `PrefixInt.OrAccepts` | fw/hpack.c:235 | an integer above the limit, in two fragments, is accepted |
| `FwdQueue.SrvConn.NipAdjust` | fw/http.c:1158-1169 | requests that became idempotent leave the list, nothing else does |
| `FwdQueue.SrvConn.Enlist` | fw/http.c:1251-1258 | the request is last in the queue and listed if it is non-idempotent |
| `FwdQueue.SrvConn.Delist` | fw/http.c:1265-1271 | exactly that request leaves both lists, and the counters follow |
| `FwdQueue.SrvConn.EvictStale` | fw/http.c:1435-1486 | exactly the requests of gone clients are freed and exactly the late ones are errors |
| `FwdQueue.SrvConn.Evict` | fw/http.c:1492-1522 | the same, and exactly the requests sent too often are errors |
| `FwdQueue.World.TooOften` | fw/http.c:1492-1505 | the count of attempts and the limit |
| `FwdQueue.SrvConn.FwdSend` | fw/http.c:1531-1561 | what becomes of the request for every outcome of the send |
| `FwdQueue.SrvConn.FwdSingle` | fw/http.c:1567-1580 | one request is forwarded; queue, `msg_sent` and the wire for every outcome |
| `FwdQueue.SrvConn.FwdUnsent` | fw/http.c:1589-1636 | keeps the invariant, order and every request; goes on until the connection is on hold, drained or takes no more; the error means exactly that nothing is on the way on a busy connection |
| `FwdQueue.SrvConn.ReqFwd` | fw/http.c:1670-1697 | a new request is queued and forwarded; a rescheduled one is refused exactly when on hold or stuck |
| `FwdQueue.SrvConn.TreatNip` | fw/http.c:1713-1726 | the non-idempotent request that was sent becomes an error, unless configured |
| `FwdQueue.SrvConn.ResendUpTo` | fw/http.c:1734-1800 | what has been sent again is a prefix of the queue and is what the server has |
| `FwdQueue.SrvConn.Resend` | fw/http.c:1734-1800 | sends the first or all of the sent requests again, in order; those never sent stay as they are |
| `FwdQueue.SrvConn.ReenableIfDone` | fw/http.c:1816-1825 | the restriction ends exactly with an empty queue; its `BUG_ON`s do not fire |
| `FwdQueue.SrvConn.FwdRepair` | fw/http.c:1832-1864 | going on with a repair keeps order, every request and the pairing of responses |
| `FwdQueue.SrvConn.Reset` | fw/http.c:1238-1246 | all requests, in order, are on the list |
| `FwdQueue.SrvConn.PopReq` | fw/http.c:5494-5546 | the response is for the request that the server got first; that one leaves, the rest keeps its order and is forwarded as far as it can be |
| `FwdQueue.SrvConn.ShrinkFwdq` | fw/http.c:2031-2088 | exactly the stale requests leave, each request being looked at once |
| `FwdQueue.SrvConn.Repair` | fw/http.c:2155-2207 | only the first sent request goes out before its response; a non-idempotent one that was sent is not sent again; otherwise everything is to be rescheduled |
| `FwdQueue.SrvConn.Connect` | fw/http.c:2337-2351 | a connection that is up again starts repairing exactly when requests are left |
| `FwdQueue.SrvConn.Down` | fw/http.c:2146-2153 | a connection that is down gives up all its requests, or keeps those not stale |
| `FwdQueue.SrvConn.FwdResched` | fw/http.c:1996-2018 | a new request, and all requests of the connection are handed over exactly when it is stuck |
| `FwdPool.ReschedOnce` | fw/http.c:1918-1957 | one attempt on another connection; with none, the request is answered or freed |
| `FwdPool.ReschedOne` | fw/http.c:1971-1986 | stale requests and non-idempotent ones are not sent again; others are handed on |
| `FwdPool.HandOn` | fw/http.c:1982-1985 | terminates, with the attempts left as measure; the request ends in exactly one place |
| `FwdPool.Resched` | fw/http.c:1964-1987 | every request of the list ends in exactly one place |
| `FwdPool.Followed` | fw/http.c:4933-4949 | a request that loses its non-idempotent mark while it is queued harms no connection |
| `FwdPool.Connected` | fw/http.c:2135-2207 | all connections keep their invariants and pairing, and no request is lost or doubled |
| `FwdPool.Closed` | fw/http.c:2095-2153 | the same when a connection is lost |
| `FwdPool.Forward` | fw/http.c:1996-2018 | the same when a request is forwarded |
| `FwdPool.Responded` | fw/http.c:5494-5546 | the same when a response comes, and it is for the request the server got first |
| `SeqQueue.InvStep` | fw/http.c:3578-3701 | the invariant survives every step of every CPU, an arrival, a refusal and a close |
| `SeqQueue.RunKeepsInv` | fw/http.c:3578-3701 | it holds in every state of every run |
| `SeqQueue.ResponsesInOrder` | fw/http.c:3602-3701 | responses leave in the order of arrival, each once, and none before it is ready (section 6.3.2 of RFC 7230) |
| `SeqQueue.ArrivalOrder` | fw/http.c:3647-3701 | on an open connection: arrived = sent ++ queue being sent ++ queue cut off ++ queue |
| `SeqQueue.NoReadyHead` | fw/http.c:3638-3651 | whenever seq_qlock is free, the head of the queue has no response, and what was sent or is being sent are exactly the requests before the first one without a response |
| `SeqQueue.NothingLeftBehind` | fw/http.c:3638-3651 | so when no CPU is at work, exactly those requests are answered |
| `SeqQueue.StillQueued` | fw/http.c:3625-3636 | both `BUG_ON`s hold: an empty queue means a closed connection and a request in no list, otherwise the request is queued |
| `SeqQueue.FollowedIsIdempotent` | fw/http.c:4933-4949 | a request that another one followed no longer counts as non-idempotent |
| `Apm.IndexIsLeast` | fw/apm.c:113-119 | a response time falls in the lowest bucket, of 0..15, that is not below it |
| `Apm.GrownKeepsSum` | fw/apm.c:133-134 | coalescing keeps all hits |
| `Apm.ShrunkKeepsSum` | fw/apm.c:148-163 | folding and halving keep all hits |
| `Apm.StretchedKeepsSum` | fw/apm.c:208-231 | extending keeps all hits exactly when no joined counter passes 32 bits in the 32-bit branch |
| `Apm.ExtensionLoses` | fw/apm.c:169-231 | 2^32 responses of 109 ms counted in a fresh entry, and the extension for one of 2000 ms: the buckets no longer have all hits |
| `Apm.GrowRow` | fw/apm.c:133-134 | in place, on the array |
| `Apm.ShrinkRow` | fw/apm.c:148-163 | in place, on the array |
| `Apm.GatherBlock` | fw/apm.c:208-229 | the sum of a block, in 64 bits or in 32 |
| `Apm.StretchRow` | fw/apm.c:208-231 | in place, on the array |
| `Apm.Scan` | fw/apm.c:253-262 | sum, number of non-zero counters, maximum and whether the first bucket has it |
| `Apm.MoveHits` | fw/apm.c:286-291 | the hits of the gap are spread over the grown range, and none is lost |
| `Apm.Ranges.constructor` | fw/apm.c:657-662 | the initial ranges are disjoint, increasing and scaled |
| `Apm.Ranges.Extend` | fw/apm.c:169-232 | the least order that reaches the response time; the `BUG_ON` only beyond 32 bits |
| `Apm.Ranges.Adjust` | fw/apm.c:244-301 | all bounds and counters after an adjustment; ranges stay disjoint and scaled, and no hit is lost |
| `Apm.Ranges.Place` | fw/apm.c:341-370 | the range is found as a search from the left would find it, and every bound and counter afterwards is determined |
| `Apm.Ranges.Update` | fw/apm.c:337-379 | every bound and counter after an update; the sum of all buckets is `tot_cnt` again; the `BUG_ON` is met exactly when the extended bound passes 32 bits |
| `Apm.ExtendedBelow` | fw/apm.c:179-192 | an extended range ends below twice the response time, so the `BUG_ON` is out of reach up to 2^31 |
| `Apm.UpdateAll` | fw/apm.c:337-379 | over any sequence of up to 2^32 updates of a fresh entry: the sum of all buckets is the number of response times, and total, minimum and maximum are as computed one by one |
| `Apm.MaxIsRightIff` | fw/apm.c:373-374 | the minimum is right, the maximum exactly when the first response time is not the only largest |
| `Apm.MaxIsWrong` | fw/apm.c:373-374 | two response times, the second one smaller, leave a maximum of 0 |
| `Apm.GrownHitIsRightIff` | fw/apm.c:126-134 | after coalescing, a counter is where its response times are counted from then on exactly for even buckets |
| `Apm.GrownHitIsWrong` | fw/apm.c:126-134 | a response time of 2 in the first range |
| `Percentiles.TimesIncrease` | fw/apm.c:703-711 | bucket values increase through an entry |
| `Percentiles.NextCursor` | fw/apm.c:697-714 | the next bucket with hits |
| `Percentiles.Take` | fw/apm.c:760-766 | all hits with the least value left have been taken: what the merge can still take is less by as much, and where all hits are below the mark they are the hits up to it |
| `Percentiles.Assign` | fw/apm.c:767-768 | the percentiles for which these hits are enough |
| `Percentiles.Calc` | fw/apm.c:728-769 | for any counters: the `BUG_ON` is met exactly when the last percentile asks for more hits than lie before the buckets whose time is cut to 65535; a percentile is always the time of a bucket with hits cut to 16 bits; and where all hits are below 65535 it is the least time up to which its share of the hits is reached |
| `Percentiles.AllWithinAll` | fw/apm.c:759 | where all hits are below 65535, the merge can take all counters |
| `Percentiles.CutIsWrong` | fw/apm.c:681-709 | otherwise no time below 65535 is the largest |
| `Percentiles.Percentile` | fw/apm.c:728-769 | with a total of at most the sum of the counters, the percentiles are right and the merge does not run out where all hits are below 65535; where the last one asks for the largest time of all hits, exactly then |
| `Percentiles.LateIsCut` | fw/apm.c:681-769 | one response of 65535 ms in a fresh entry: counted at 65645 ms, reported as 109 ms |
| `Apm.Ranges.Reset` | fw/apm.c:796-806 | all counters are cleared |
| `ApmRing.Ring.constructor` | fw/apm.c:1145-1147 | a fresh ring is valid |
| `ApmRing.Ring.CheckReset` | fw/apm.c:813-821 | an entry of another interval is cleared, and no other changes |
| `ApmRing.Ring.Touch` | fw/apm.c:1049-1061 | making an entry ready keeps the totals right, or leaves them to the next window |
| `ApmRing.Ring.Apply` | fw/apm.c:1004-1011 | one more hit in one entry, or the `BUG_ON` exactly when its last range would end beyond 32 bits; response times up to 32767 keep all ranges below 65535 |
| `ApmRing.Ring.UpdateCtl` | fw/apm.c:832-890 | the total is exact in a new window and never above the hits there are; the `BUG_ON` is not met |
| `ApmRing.Ring.Tick` | fw/apm.c:895-921 | after any steps, the percentiles are those of the hits there are, and the merge does not run out, where all hits are below 65535, and exactly then if the largest time is asked for |
| `Gfsm.FreeSlot` | fw/gfsm.c:145-151 | a machine without a slot always finds one |
| `Gfsm.StackDepth` | fw/gfsm.c:171-194 | no machine is on the stack twice, so the depth is at most their number |
| `Gfsm.GState.constructor` | fw/gfsm.c:110-116 | one slot taken, all others free |
| `Gfsm.GState.Lookup` | fw/gfsm.c:121-132 | the slot of the machine, or that it has none and the first free one |
| `Gfsm.GState.Switch` | fw/gfsm.c:137-157 | the hooked machine has a slot of its own and is current; its `BUG_ON` does not fire |
| `Gfsm.GState.Exec` | fw/gfsm.c:171-194 | for every handler: slots stay distinct, the stack is restored and the slot of a finished machine is free; its `BUG_ON` does not fire |
| `Gfsm.GState.Call` | fw/gfsm.c:243-264 | a hook is skipped exactly when its machine is on the stack |
| `Gfsm.GState.Move` | fw/gfsm.c:217-271 | terminates for every handler; the moving machine stays current, in its new state; hooks run by priority until one blocks or is missing, and the result is theirs |
| `CacheRecord.HdrSize` | fw/http.c:3946-3963 | is the length of what the header takes |
| `CacheRecord.EntrySize` | fw/cache.c:1620-1707 | is the length of the record without the reason phrase; an error exactly for a stored header that is too long |
| `CacheRecord.CacheEntry.PutInt` | fw/cache.c:1113-1131 | an integer stays in its buffer of three bytes exactly below the largest prefix value plus 2^14 |
| `CacheRecord.CacheEntry.CopyHdr` | fw/cache.c:1138-1218 | a header, or all its duplicates, with their heads; the integers stay in their buffers exactly for short names and values |
| `CacheRecord.CacheEntry.AddHdr` | fw/cache.c:1220-1265 | a header the cache adds; the `BUG_ON` and the length error are exact |
| `CacheRecord.CacheEntry.CopyTable` | fw/cache.c:1516-1545 | all headers but hop-by-hop ones, Server and empty ones, and their number |
| `CacheRecord.CacheEntry.CopyStart` | fw/cache.c:1449-1514 | key, status and reason phrase |
| `CacheRecord.CacheEntry.CopyResp` | fw/cache.c:1424-1573 | the whole record and all its offsets; accepted exactly when the size is spent to 0, and no integer leaves its buffer exactly when all lengths are short |
| `CacheRecord.Expand` | fw/hpack.c:1636-2036 | a stored header becomes a line of HTTP/1.1, exactly when it has a static index or a name; the text has the end of the line exactly when there is a value |
| `CacheRecord.RunTogether` | fw/hpack.c:1889-1968 | for all responses with two headers, the first without a value: stored and served in HTTP/1.1, the client gets the one line of the first with the text of the second as its value |
| `CacheRecord.SetStatus` | fw/cache.c:626-685 | status for HTTP/2 or reason phrase for HTTP/1.1, and the walk goes on at the headers |
| `CacheRecord.ReadField` | fw/cache.c:690-730 | reads a header or its duplicates and writes them in the form of the response |
| `CacheRecord.BuildHdrs` | fw/cache.c:2097-2103 | the walk over `hdr_num` headers ends at the body and skips only Via for HTTP/1.1; it fails exactly where a header cannot be decoded |
| `CacheRecord.StoreAndServe` | fw/cache.c:1424-1573 | for every header table: when it is stored, that the size is spent exactly, that no integer leaves its buffer exactly when all lengths are below 0x7F + 2^14, and that what is served is then what was stored, for HTTP/2 and HTTP/1.1 |
| `SlidingWindow.SumIsExact` | fw/http_limits.c:449-452 | for every history with non-decreasing times: the sum over the slots is the number of events in the window |
| `SlidingWindow.SameSum` | fw/http_limits.c:308-311 | the wider test of the connection limit gives the same sum |
| `SlidingWindow.Turn` | fw/http_limits.c:437-441 | clearing the slot of the present loses nothing that is still in the window |
| `SlidingWindow.FrangAcc.ConnLimit` | fw/http_limits.c:273-319 | a connection is blocked exactly when it is one too many: at a time, in its quantum or in the window |
| `SlidingWindow.FrangAcc.ReqLimit` | fw/http_limits.c:427-460 | the same for requests |
| `SlidingWindow.CodeStat.CodeLimit` | fw/http_limits.c:1325-1351 | the limit is passed exactly when more responses fell in the window; also the health monitor's (fw/apm.c:1313-1333) |

## Left out

Premises of the model:

- Headers.LessTransitive: the byte comparison of the index, with its chunks, letter case and white space, is replaced by the lexicographic order of name and value.
- Headers.CompareAntisymmetric: the same.
- NodeTree.Store: nodes are records keyed by their offset; writing the new node is taken not to touch the links of evicted ones, which are erased after it; `EncoderTable.WriteReaches` says exactly when it does.
- EncoderTable.EncTable.Commit: the nodes to be erased are taken to be as they were before the new node was written; `EncoderTable.WriteReaches` says exactly when one of them is run over.
- EncoderTable.EncTable.AddPlanned: the same; and after a node that stays in the tree was written over the model stops.
- EncoderTable.EncTable.AddNode: the same; after the warning of the second search the model stops.
- EncoderTable.EncTable.EncoderIndex: an attempt at an addition that evicts every entry is not a step of the protocol; what it leaves behind is stated instead.
- EncoderTable.EncTable.GetIndex: the counter behind the indices is unbounded.
- EncoderProtocol.ClientAgrees: the window is fixed, no addition evicts every entry, and every message that entered is sent before it leaves; a change of the window is not part of the protocol.
- DecoderTable.DoubledKeeps: says what the copies are meant to be; as they are written, with byte counts added to typed pointers, they are part of `DecTable.Grow`, and `GrowthIsRightIff` says when the two agree. Memory outside the ring that they touch is not modelled.
- DecoderTable.DecTable.AddEvicting: pool pages that are given back before an out-of-memory return are not modelled.
- HuffmanDecoder.HPack.Decode: one fragment, and a symbol can always be written; between fragments the table offset is lost in the code.
- HuffmanEncoder.EncodeCopy: symbols are unsigned bytes, while the C indexes its tables with a plain `char`; bits are joined by addition where they do not overlap; bytes behind the buffer are counted, not kept.
- HuffmanTables: the comment on the tables speaks of subtracting three, while code and tables add four; the model follows the code.
- PrefixInt.GetFlexible: a shift by 32 or more, which C does not define, gives 0; `DeepIff` says when it is met.
- FwdQueue.World: outcomes of sends, gone clients and timeouts are decisions from outside, one after the other; reference counts and statistics are not modelled.
- FwdQueue.SrvConn.PopReq: the server answers only what was sent to it, in order, and nothing arrives after a send found the socket closed.
- FwdQueue.SrvConn.ReqFwd: pairing is kept where it held, as schedulers pick no connection that is being repaired.
- FwdPool.ReschedOnce: the connection that a scheduler picks is a decision from outside.
- SeqQueue.InvStep: a critical section is one step; a request gets one response; nothing arrives on a closed connection. Taking a request out of the queue without a response (`tfw_http_conn_req_clean`, fw/http.c:756-767, called at 801 and 4574) is not an event.
- SeqQueue.ArrivalOrder: requests that were taken out of the queue without a response are not part of the runs.
- Apm.Ranges.Update: counters are naturals except for the 32-bit sum of an extension, and updates are sequential.
- Percentiles.Calc: percentiles are asked in increasing order. The minimum, maximum and average over the entries (fw/apm.c:770-783) are not computed.
- Percentiles.Percentile: that the total is at most the sum of the counters is a requirement here; `ApmRing.Ring.UpdateCtl` establishes it.
- ApmRing.Ring.constructor: the ring is made later than one window after the start of time.
- ApmRing.Ring.Touch: a time of the past is one whose entry is ready; the flag against concurrent resets is not modelled.
- ApmRing.Ring.Apply: an entry has fewer than 2^32 hits.
- Gfsm.GState.Move: slots are modelled decoded; a machine moves with its own number, a hook starts its machine in a state of that machine, and handlers are arbitrary scripts of moves and results.
- SlidingWindow.FrangAcc.ConnLimit: times are non-decreasing numbers; counters are unbounded.
- CacheRecord.CacheEntry.CopyResp: the record is one piece, the entry is fresh, and the size of its fixed part is a parameter; offsets for 304 responses and the entity tag are left out, and so is what an integer that leaves its buffer overwrites.
- CacheRecord.BuildHdrs: no header modifications are configured.
- CacheRecord.Expand: the header is one fragment, and the names of the static table are a parameter.

Not modelled:

- Socket buffers, memory pools, the database, timers, sockets and TLS, which are other components.
- The decoder's state machine over fragments (fw/hpack.c:1266-1627), whose result depends on where a Huffman string is split.
- TLS handshake counters of the limits, which are not cleared with their slot.
- HTTP/2 frames and streams (fw/http_frame.c), which rest on files not part of this model.
- Printing and parsing of addresses (fw/addr.c) and hashing (fw/hash.c), which none of the components above rests on.
- Configuration, filters, clients, connections and matching of requests, which pass data between components.
- The text of responses that the program makes itself: headers, redirects, dates (fw/http.c).
- Keys, freshness and lifetime of cache entries, which decide whether a record is used, not what is in it.
