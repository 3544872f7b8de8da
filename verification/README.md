# Verified models of a systems-programming study repository

Dafny models of the parts of the repository whose correctness is not obvious from reading
them, with machine-checked proofs. Code that updates memory in place is modelled in place
(classes, arrays, loops) and proved against a specification function; the properties the
code exists for are then proved about that function over all inputs, runs or reachable
states.

- **KCP reliable transport** (`Words`, `Kcp*`). `KcpSpec` gives the meaning of each
  operation on values, once for unbounded sequence numbers and once with 32-bit wrap-around
  (the flag `w`). `KcpBlock` is the control block as the C code runs it, with its arrays,
  counters and work buffer, proved equal to that specification. `KcpDirection`,
  `KcpMessages` and `KcpNetwork` prove delivery over every run of two endpoints and a network
  that drops, duplicates and reorders. `KcpDelivery` and `KcpTimers` say, in terms of fields
  and datagrams, what a flush sends, what an input acknowledges and when timers run out;
  `KcpReply` follows a lost segment and an acknowledgement through a run, and `KcpProgress`
  shows that every run can go on until everything accepted was received. `KcpWire` and `KcpWrap` relate segments to bytes and
  unbounded to wrapped numbers, `KcpRefinement` carries the results over to endpoints
  that exchange bytes and count in 32 bits, and `KcpHosts` puts two control blocks and a
  network together and shows that what these objects do is such a run. `KcpEstimate` says when
  the round-trip estimate holds in the code's words.
- **nginx red-black tree** (`Rb*`). Linked nodes with parent pointers and a sentinel;
  mirror-image branches are written once with a side parameter. Includes the timer use.
- **B-tree** (`BTree*`). Insertion, merging, borrowing and the deletion of keys that are in
  leaves, on nodes with key and child arrays.
- **cJSON** (`Json*`, `Decimals`). Parser into linked items, printer in its buffered and its
  allocating form, and the minifier, against one definition of the printed text. `JsonGrammar`
  is the grammar of RFC 8259: the parser reads all of it, the printer writes only texts of it.
- **Skip list** (`SkipList`, `SlTimer`): sorted nodes with a chain per level, and the timer use.
- **nginx memory pool** (`NginxPool`, `NginxPoolRuns`): blocks, large allocations and their
  reuse, with addresses as numbers, and runs of requests from the creation of the pool on.
- **Small machines**: the compare-and-swap queue (`CasQueue`), the ZooKeeper lock clients
  (`LockClients`), the exception macros (`Exceptions`).
- **Algorithms**: `RepeatedSubstring` (459), `RemoveDuplicateLetters` (316), `LargestNumber`
  (179), `EggDrop` (887), `FurthestBuilding` (1642), `Lru` (146, both versions).

`dafny verify dfyconfig.toml` checks the whole project.

## Model

| member | source | states |
|---|---|---|
| KcpNetwork.InOrderOnce | code/kcp/ikcp.c:358-435 | Over every run of two endpoints and a network that drops, duplicates and reorders, what either application received is a prefix of what the other got accepted: in order, each message once, bytes intact |
| KcpNetwork.NothingForgotten | code/kcp/ikcp.c:560-607 | Over every run each number below snd_nxt is delivered, in the peer's rcv_buf or still in snd_buf; snd_una heads snd_buf or equals snd_nxt; rcv_buf ascends strictly inside [rcv_nxt, rcv_nxt + rcv_wnd); rcv_queue never exceeds rcv_wnd |
| KcpNetwork.FullQueueDelivers | code/kcp/ikcp.c:424-435 | Over every run a receiver whose window is closed can be read: the next accepted message comes out, so a closed window never holds only part of a message |
| KcpProgress.EverythingCanArrive | code/kcp/ikcp.c:358-1171 | From the end of every run, whatever was lost and whichever windows are closed, the run can go on without new messages until both applications received everything that was accepted; send windows are not empty, and receive windows are at least the default one and below 2^16 |
| KcpReply.SentAgain | code/kcp/ikcp.c:1048-1094 | Over every run a number that was sent and not received is in snd_buf, and the first flush at or after its timer puts a datagram on the network that holds it with the fragment accepted under it |
| KcpReply.Acknowledged | code/kcp/ikcp.c:822-846 | Over every run a data segment in front of the window's end that is delivered is received; the receiver's next flush sends a datagram with its number and time stamp as an acknowledgement; when that is delivered, the number has left the sender's snd_buf |
| KcpReply.InputRemoves | code/kcp/ikcp.c:571-607 | Over every run exactly the numbers that a segment of the datagram acknowledges, by una or by name, leave snd_buf |
| KcpReply.PassedOver | code/kcp/ikcp.c:609-631 | An entry that stays counts one more skip if and only if the datagram acknowledges a higher number by name |
| KcpReply.RoomIff | code/kcp/ikcp.c:919-925 | The window that a segment announces is the free part of the receive window if and only if that is below 2^16 |
| KcpReply.WideWindowCloses | code/kcp/ikcp.c:905-909 | An empty receive window of 2^16 is announced as closed: with everything acknowledged the sender numbers nothing more |
| KcpDelivery.FlushSends | code/kcp/ikcp.c:956-1114 | The datagrams of a flush hold, in this order, one acknowledgement for each pair of the list, the window commands that are due, and a copy of each entry of snd_buf that was never sent, has its timer run out or was passed over often enough; nothing else |
| KcpDelivery.FilledIs | code/kcp/ikcp.c:1016-1042 | A flush gives consecutive numbers to as many fragments at the head of snd_queue as the least of the windows that apply lets through |
| KcpDelivery.DueGoesOut | code/kcp/ikcp.c:1052-1094 | An entry that is due is in some datagram, counts one more transmission, and its new timer is as far ahead as the timeout with its backoff says |
| KcpDelivery.OnlyDue | code/kcp/ikcp.c:1079-1102 | Each data segment of a flush is the copy of an entry that is due |
| KcpDelivery.NotDueStays | code/kcp/ikcp.c:1048-1078 | An entry that is not due stays as it was |
| KcpDelivery.InputAcknowledges | code/kcp/ikcp.c:822-828 | An input adds to the list of acknowledgements exactly one pair for each data segment, repeated ones included, that is in front of the window's end when it is reached |
| KcpTimers.UpdateFlushes | code/kcp/ikcp.c:1146-1171 | ikcp_update flushes if and only if it is the first call, or at or after ts_flush, or more than ten seconds from it; the next flush is then due at most one interval ahead |
| KcpTimers.TimerAheadIff | code/kcp/ikcp.c:1052-1078 | The new timer of an entry that goes out is ahead of the clock if and only if its wait is neither zero nor above half the range of the clock |
| KcpTimers.TimersAhead | code/kcp/ikcp.c:1058-1071 | Over every run that starts with a timeout of at most a minute, an entry that goes out for the sixteenth time at most has its new timer ahead of the clock |
| KcpTimers.TimerBehind | code/kcp/ikcp.c:1062-1071 | After sixteen timeouts in a row the doubled wait puts the timer behind the clock |
| KcpTimers.FlushedWindow | code/kcp/ikcp.c:1116-1138 | After a flush the congestion window is at least one; a timeout brings it down to one and halves the window for the threshold; without a resend only an empty window changes |
| KcpTimers.GrownBound | code/kcp/ikcp.c:875-898 | An input never opens the congestion window beyond the peer's window, and opens it by one below the threshold |
| KcpTimers.GrownRises | code/kcp/ikcp.c:875-898 | It never closes it, as long as the byte counts stay in a word |
| KcpTimers.ProbeAgain | code/kcp/ikcp.c:970-990 | While the peer's window is closed the probe timer is 7 to 120 seconds, and longer after each question up to that limit |
| KcpTimers.DeadLinkIff | code/kcp/ikcp.c:1104-1106 | The link is given up if and only if an entry that goes out was sent dead_link times |
| KcpRefinement.BytesInOrderOnce | code/kcp/ikcp.c:749-900 | The same delivery result for endpoints that exchange bytes and use 32-bit wrapping numbers, as long as no delivered segment is half the number space behind |
| KcpRefinement.NothingForgotten32 | code/kcp/ikcp.c:683-732 | In such runs, in the code's own wrapping comparisons: each number from rcv_nxt up to snd_nxt is in the peer's rcv_buf or in snd_buf, and the order and window facts hold |
| KcpRefinement.FullQueueDelivers32 | code/kcp/ikcp.c:385-432 | In such runs a full receive queue yields the next accepted message |
| KcpRefinement.DatagramsDecode | code/kcp/ikcp.c:761-866 | In such runs every datagram ever output fits the sender's mtu and is decoded without error to exactly the segments it was made from |
| KcpRefinement.FlushPacks | code/kcp/ikcp.c:956-1114 | Each flush emits datagrams of at most mtu bytes, each a whole number of segments, whose concatenation is the sequence of acknowledgements, window commands and data segments due |
| KcpWire.DecodeEncode | code/kcp/ikcp.c:54-121 | Decoding the bytes of any sequence of encodable segments gives those segments with their numbers taken modulo 2^32, and code 0 |
| KcpWire.PackOk | code/kcp/ikcp.c:966-985 | Packing loses and reorders no segment, makes no empty datagram, and exceeds the mtu in none |
| KcpWrap.DiffNarrow | code/kcp/ikcp.c:136-139 | The wrapping difference of two wrapped numbers is their true difference if and only if that is at least -2^31 and below 2^31 |
| KcpMessages.FragmentJoin | code/kcp/ikcp.c:512-534 | Joining the fragments of a message gives the message |
| KcpMessages.RecvDelivers | code/kcp/ikcp.c:358-435 | ikcp_recv returns the next message or an error, what it returns is what ikcp_peeksize announced, and a peek consumes nothing |
| KcpMessages.RecvIff | code/kcp/ikcp.c:366-435 | ikcp_recv returns a message if and only if all fragments of the next accepted message are in rcv_queue and the caller's room suffices |
| KcpMessages.SendIff | code/kcp/ikcp.c:503-534 | ikcp_send accepts a message if and only if it has at most 127 mss bytes; the new part of snd_queue joins to the message in pieces of at most mss bytes, and otherwise nothing changes |
| KcpMessages.FullQueueIsReadable | code/kcp/ikcp.c:441-463 | A queue of at least the default receive window starts with a whole message, because a message has fewer fragments than that window |
| KcpDirection.InputOk | code/kcp/ikcp.c:749-900 | Processing any datagram of known segments keeps the sender's and the receiver's queues right and forgets nothing |
| KcpDirection.FlushOk | code/kcp/ikcp.c:931-1139 | A flush keeps the sender's queues right, and everything it sends is correct data or feedback the receiver backs |
| KcpBlock.PeekIsMerged | code/kcp/ikcp.c:411 | The assertion that the merged length equals the peeked size never fails |
| KcpBlock.Ikcp.constructor | code/kcp/ikcp.c:234-296 | The initial control block, field by field: empty queues, default windows, mtu, timers, timeout and thresholds |
| KcpBlock.Ikcp.Send | code/kcp/ikcp.c:469-537 | ikcp_send in message mode: the queue grows by the numbered fragments, or nothing changes and the code is negative |
| KcpBlock.Ikcp.PeekSize | code/kcp/ikcp.c:441-463 | The loop computes the size of the first whole message, or -1 |
| KcpBlock.Ikcp.Recv | code/kcp/ikcp.c:358-435 | The return code, the bytes, the new queues and the window announcement, for reading and for peeking |
| KcpBlock.Ikcp.ParseAck | code/kcp/ikcp.c:571-591 | The scan removes exactly the acknowledged segment, if it is in flight |
| KcpBlock.Ikcp.ParseUna | code/kcp/ikcp.c:593-607 | The loop drops the segments below the cumulative acknowledgement |
| KcpBlock.Ikcp.ParseFastack | code/kcp/ikcp.c:609-631 | Exactly the segments passed by count one more skip |
| KcpBlock.Ikcp.UpdateAck | code/kcp/ikcp.c:543-558 | The round-trip estimate and the bounded timeout; KcpEstimate says when the code's signed words hold the estimate |
| KcpBlock.Ikcp.AckPush | code/kcp/ikcp.c:637-671 | The acknowledgement list grows by one pair; growing its array loses none |
| KcpBlock.Ikcp.ParseData | code/kcp/ikcp.c:683-743 | A segment inside the window is put at its place in rcv_buf once, and what is next in order moves to rcv_queue |
| KcpBlock.Ikcp.Input | code/kcp/ikcp.c:749-900 | ikcp_input on any bytes: the return code and every field it may change, as if the decoded segments were processed one after the other |
| KcpBlock.Ikcp.Flush | code/kcp/ikcp.c:931-1139 | ikcp_flush: every field it may change, the datagrams in order, and no write outside the work buffer |
| KcpBlock.Ikcp.Update | code/kcp/ikcp.c:1146-1171 | ikcp_update: the clock, then a flush exactly when one is due |
| KcpHosts.Talk | code/kcp/ikcp.c:234-1171 | For two control blocks from ikcp_create, any sequence of calls by two applications, and a network that may deliver any datagram it was given: each application received a prefix of what the other got accepted, unless a datagram half the number space behind was in the network; that takes more than 16 million calls |
| KcpHosts.Host.Submit | code/kcp/ikcp.c:469-537 | An object whose application sends takes the step of the byte-level run |
| KcpHosts.Host.Fetch | code/kcp/ikcp.c:358-435 | The same for receiving |
| KcpHosts.Host.Clock | code/kcp/ikcp.c:1146-1171 | The same for the clock, with the datagrams that go to the network |
| KcpHosts.Host.Deliver | code/kcp/ikcp.c:749-900 | The same for a datagram that arrives |
| KcpHosts.FewAreTimely | code/kcp/ikcp.c:136-139 | While at most 2^31 numbers can have been used, no datagram of the network is half the number space behind |
| KcpEstimate.Smoothed | code/kcp/ikcp.c:543-558 | The estimate starts at the first time measured and then moves towards each new one, never beyond it; the timeout is between its bounds and not below the estimate |
| KcpEstimate.FitsIff | code/kcp/ikcp.c:543-558 | Every run of measured times up to a bound is computed without leaving the signed words if and only if the bound is below 2^28 milliseconds |
| KcpEstimate.Overflows | code/kcp/ikcp.c:543-558 | Two measured times of 2^28 milliseconds leave them |
| RbTree.RbTree.Insert | code/timer/rbtree.c:19-157 | Insertion keeps search order, black root, no red node with a red child, equal black height and consistent links; the item is put behind all items of equal rank and nothing else moves |
| RbTree.RbTree.Delete | code/timer/rbtree.c:159-354 | Deletion keeps all of that, takes out exactly the given node, leaves the order of all others unchanged, and wipes the node |
| RbTree.RbTree.Rotate | code/timer/rbtree.c:356-420 | A rotation at any place of the tree re-links exactly the rotated subtree |
| RbTree.RbTree.Next | code/timer/rbtree.c:422-447 | ngx_rbtree_next returns the next node in order, or null behind the last |
| RbTree.RbTree.First | code/timer/rbtree.h:67-76 | ngx_rbtree_min from the root finds the first node in order |
| RbTree.RbTree.Expire | code/timer/rbt-timer.c:64-84 | The expiry loop fires a prefix of the timers in order, all with keys at most the clock; these are exactly the timers due if and only if the clock agrees with the first timer and the first one not due |
| RbTree.RbTree.Rebase | code/timer/rbtree.c:124-157 | The wrapping order may be read from any origin all keys are near to |
| RbShape.RotatedInorder | code/timer/rbtree.c:356-420 | A rotation keeps the in-order sequence and the nodes |
| RbShape.RaisedKeeps | code/timer/rbtree.c:55-60 | The last step of the insert fixup restores the red-black shape and keeps the contents |
| RbShape.RecolouredKeeps | code/timer/rbtree.c:44-48 | The recolouring step of the insert fixup moves the only possible fault two levels up and keeps the contents |
| RbShape.SameOrder | code/timer/rbtree.c:124-157 | Two origins near to all keys order them alike, so the wrapping comparison is consistent |
| RbShape.LessIsRank | code/timer/rbtree.c:139-141 | The signed difference of two keys less than half the number space above an origin compares their distances from it |
| RbShape.ExpireIff | code/timer/rbt-timer.c:64-84 | Decided before the loop starts: the number of timers fired is the number due if and only if the counter did not wrap between the clock and the first timer (if due) nor the first timer not due |
| RbShape.ExpireExact | code/timer/rbt-timer.c:76-77 | The timers fired are those due if and only if none of the keys looked at is across the wrap from the clock |
| RbShape.ExpireUnwrapped | code/timer/rbt-timer.c:64-84 | If no key is across the wrap from the clock, exactly the timers due fire |
| RbShape.EarlyTimer | code/timer/rbt-timer.c:51-57 | A timer set 15 ticks ahead, behind the wrap, is fired at once |
| RbFixup.RedSiblingKeeps | code/timer/rbtree.c:283-289 | Delete fixup, red sibling: the missing black node stays the only fault, contents kept |
| RbFixup.BlackNephewsKeep | code/timer/rbtree.c:291-295 | Delete fixup, black nephews: the fault moves up one level, contents kept |
| RbFixup.InnerNephewKeeps | code/timer/rbtree.c:297-304 | Delete fixup, red inner nephew: turned into the case of a red outer one |
| RbFixup.OuterNephewEnds | code/timer/rbtree.c:306-312 | Delete fixup, red outer nephew: the whole tree is red-black again, contents kept |
| RbSplice.Removed | code/timer/rbtree.c:165-277 | Splicing out a node or its successor takes exactly the node's item out of the in-order sequence and leaves at most one missing black node |
| BTree.Root.Insert | code/tree/b-tree.c:128-150 | For t >= 2 every inserted key goes to its place in the sorted key sequence; every node but the root keeps t - 1 to 2t - 1 keys and all leaves one depth |
| BTree.Root.constructor | code/tree/b-tree.c:52-58 | The empty tree |
| BTree.SplitChild | code/tree/b-tree.c:60-96 | Splitting on the arrays gives the split tree with one new node and touches nothing else |
| BTree.InsertNonfull | code/tree/b-tree.c:98-126 | Insertion below a node with room, splitting full children on the way down |
| BTreeShape.MergeUndoesSplit | code/tree/b-tree.c:60-96 | Merging the two halves of a split gives back the tree |
| BTreeShape.SplitKeeps | code/tree/b-tree.c:60-96 | A split keeps the in-order keys, the bounds on the number of keys and the depth |
| BTreeShape.MergeKeeps | code/tree/b-tree.c:211-250 | A merge keeps the in-order keys, the bounds and the depth |
| BTreeShape.BorrowNextKeeps | code/tree/b-tree.c:353-380 | Borrowing from the next sibling keeps the in-order keys, the bounds and the depth, and gives the child t keys |
| BTreeShape.BorrowPrevKeeps | code/tree/b-tree.c:331-352 | The same for the previous sibling |
| BTreeShape.InsertSorted | code/tree/b-tree.c:98-126 | Inserting into a sorted sequence keeps it sorted and adds exactly one occurrence of the key |
| BTreeDelete.MergeChildren | code/tree/b-tree.c:211-250 | btree_merge on the arrays gives the merged tree, and replaces a root that lost its last key |
| BTreeDelete.BorrowFromNext | code/tree/b-tree.c:353-380 | The borrowing loops give the tree after borrowing from the next sibling, on the same nodes |
| BTreeDelete.BorrowFromPrev | code/tree/b-tree.c:331-352 | The same for the previous sibling |
| BTreeDescent.Delete | code/tree/b-tree.c:388-395 | Deleting a key that is in a leaf removes exactly its first occurrence and leaves a B-tree; with the last key the root becomes null; without a root the answer is -1 |
| BTreeDescent.DeleteKey | code/tree/b-tree.c:252-386 | The descent keeps every node it enters above the least number of keys, gives up a root without keys for its child, and removes the key from the leaf |
| BTreeDescent.Enlarge | code/tree/b-tree.c:306-381 | A child with too few keys borrows from the larger sibling or is merged with one; the key stays in that child and in no inner node below |
| BTreeDescent.RemoveSorted | code/tree/b-tree.c:264-283 | The keys stay sorted and exactly one occurrence goes |
| BTreeDescent.PredecessorIff | code/tree/b-tree.c:284-290 | Putting the last key of the left child in place of an inner key keeps the order if and only if that child is a leaf |
| BTreeDescent.OutOfOrder | code/tree/b-tree.c:284-290 | In a tree of three levels it leaves a larger key in front of a smaller one |
| JsonGrammar.TextRead | code/json/cjson/cJSON.c:323-337 | Every text that spells a value by the grammar of RFC 8259, with any white space around the six structural characters, every escape of section 7 and ints as numbers, is parsed to that value and used up |
| JsonGrammar.TrailingText | code/json/cjson/cJSON.c:333-334 | With the end required, text behind the value is an error at its first visible character; otherwise it is left alone |
| JsonGrammar.SpellsRead | code/json/cjson/cJSON.c:357-369 | The same for a value at any place of a text |
| JsonGrammar.ReadIff | code/json/cjson/cJSON.c:357-547 | The parser reads a value if and only if the text is built by that grammar from literals, white space, the six structural characters, and strings and numbers as the parser takes them |
| JsonGrammar.PrintSpells | code/json/cjson/cJSON.c:342-343 | Both prints of a tree of null, booleans, ints, NUL-free strings, arrays and objects are texts of the grammar that spell the tree |
| JsonLayout.PrintLines | code/json/cjson/cJSON.c:550-658 | Every line of the formatted print starts with as many tabs as its depth says: members one deeper than their object, the closing brace as deep as it, that of an empty object one less |
| JsonRoundTrip.RoundTrip | code/json/cjson/cJSON.c:323-337 | For every tree of null, booleans, ints, NUL-free strings, arrays and objects, parsing the formatted or unformatted print gives the tree and uses up the text |
| JsonRoundTrip.StringBack | code/json/cjson/cJSON.c:192-307 | Reading a printed string gives the string, whatever follows |
| JsonRoundTrip.NumberBack | code/json/cjson/cJSON.c:96-115 | Reading a printed int gives the int |
| JsonAlloc.PrintBoth | code/json/cjson/cJSON.c:342-355 | The allocating and the buffered printer give the same text, and it parses back to the tree |
| JsonAlloc.PrintValue | code/json/cjson/cJSON.c:372-403 | The allocating printer gives the defined text with its terminator |
| JsonAlloc.PrintArray | code/json/cjson/cJSON.c:458-511 | The entries are printed and joined into a block that is large enough |
| JsonAlloc.PrintObject | code/json/cjson/cJSON.c:595-658 | Names and values are printed and joined into a block that is large enough |
| JsonBuffer.PrintBuffered | code/json/cjson/cJSON.c:345-353 | The buffered printer gives the defined text from any size given in advance |
| JsonBuffer.PrintBuffer.Ensure | code/json/cjson/cJSON.c:121-136 | There is room for what is asked, the text so far is kept, and a new block has the least sufficient power of two as its size |
| JsonBuffer.PrintBuffer.Update | code/json/cjson/cJSON.c:138-144 | The offset moves to the terminator of what was written |
| JsonBuffer.PrintBuffer.PrintValue | code/json/cjson/cJSON.c:372-403 | The text of a value is appended, and nothing before it changes |
| JsonBits.Pow2Gt | code/json/cjson/cJSON.c:117 | The five shifts and ors compute the least power of two not below the argument |
| JsonPrint.EscapedLength | code/json/cjson/cJSON.c:278-283 | The length counted in the second pass is that of the escaped text |
| JsonPrint.NeedsEscape | code/json/cjson/cJSON.c:260-262 | The first pass finds whether any character has to be escaped; if none has, the text is its own escape |
| JsonPrint.StoreQuoted | code/json/cjson/cJSON.c:284-306 | The third pass writes the quoted text and its terminator |
| JsonMinify.MinifyPrint | code/json/cjson/cJSON.c:735-750 | Minifying a print, formatted or not, gives exactly the unformatted print |
| JsonMinify.Minify | code/json/cjson/cJSON.c:735-750 | The in-place loop leaves the minified text and its terminator if every string and comment is ended, and otherwise goes on to read behind the terminator |
| JsonMinify.StaysInside | code/json/cjson/cJSON.c:741-747 | The read pointer ends at the terminator if and only if every string and every comment is ended |
| JsonMinify.ReadsBehind | code/json/cjson/cJSON.c:745-746 | A lone quote, a string ending in a backslash and an open comment make it read behind the terminator |
| JsonMinified.MinifiedIsClean | code/json/cjson/cJSON.c:735-750 | The minified text has no white space outside strings, and no comment if and only if no lone slash got a slash or a star behind it by what was taken out |
| JsonMinified.JoinedSlashes | code/json/cjson/cJSON.c:740-748 | Two slashes with a blank between them become a comment |
| JsonMinified.MinifiedTwice | code/json/cjson/cJSON.c:735-750 | Otherwise minifying a second time changes nothing |
| JsonMinified.SameEnd | code/json/cjson/cJSON.c:202-249 | The parser and the minifier find the same end of every string, its closing quote; without one the parser takes the rest of the text |
| JsonMinified.UnendedString | code/json/cjson/cJSON.c:202-249 | A text that ends inside a string is accepted |
| JsonParse.Parser.Parse | code/json/cjson/cJSON.c:323-337 | The parser builds linked items that represent exactly the parsed value, or returns null with the error position |
| JsonParse.Parser.ParseInto | code/json/cjson/cJSON.c:357-369 | parse_value fills one item, and every item it links below is new |
| JsonParse.Parser.ParseArray | code/json/cjson/cJSON.c:406-431 | The child list holds the elements in order, doubly linked |
| JsonParse.Parser.ParseObject | code/json/cjson/cJSON.c:514-547 | The child list holds the named members in order, doubly linked |
| JsonParse.Parser.ParseText | code/json/cjson/cJSON.c:192-249 | parse_string: two passes, and the second never writes more than the first counted |
| JsonUnicode.ScalarBack | code/json/cjson/cJSON.c:211-242 | Every Unicode scalar value but NUL, written as one or two escapes, is read as its UTF-8 bytes |
| JsonUnicode.Utf8Back | code/json/cjson/cJSON.c:232-240 | The bytes determine the code point, the first byte tells their number, and the others are continuation bytes |
| RemoveDuplicateLetters.Remove | leetcode/316.去除重复字母.cpp:11-43 | For every lowercase string the result contains each occurring letter once, is a subsequence, and is smaller than every other such subsequence |
| RemoveDuplicateLetters.SkipKeeps | leetcode/316.去除重复字母.cpp:24-27 | Skipping a letter that is in the stack keeps the stack least among the candidates |
| RemoveDuplicateLetters.PushKeeps | leetcode/316.去除重复字母.cpp:28-39 | Popping larger letters that come again and pushing keeps the stack least among the candidates |
| RepeatedSubstring.RepeatedSubstringPattern | leetcode/459.重复的子字符串.cpp:11-30 | True exactly when the string is some block repeated at least twice |
| RepeatedSubstring.Borders | leetcode/459.重复的子字符串.cpp:13-27 | The table holds the length of the longest proper border of every prefix |
| RepeatedSubstring.LeastPeriodDivides | leetcode/459.重复的子字符串.cpp:29 | Fine and Wilf for the least period: it divides every period that fits into the string together with it |
| RepeatedSubstring.DivisibleIffRepeated | leetcode/459.重复的子字符串.cpp:29 | The test on the longest border decides repetition, both ways |
| LargestNumber.Largest | leetcode/179.最大数.cpp:11-33 | The result is the number some order of the inputs gives, no order gives a larger one, and it has no leading zeros |
| LargestNumber.StrictWeakOrder | leetcode/179.最大数.cpp:20-21 | The concatenation order is irreflexive, asymmetric and transitive, and so is being tied |
| LargestNumber.SortedIsLargest | leetcode/179.最大数.cpp:19-27 | Concatenating in that order is at least every other permutation's concatenation |
| LargestNumber.BeforeIsRatio | leetcode/179.最大数.cpp:20-21 | The comparator compares the fractions value / (10^length - 1) |
| EggDrop.SuperEggDrop | leetcode/887.鸡蛋掉落.cpp:42-59 | The table loop returns the recursive minimax value |
| EggDrop.Solver.Dp | leetcode/887.鸡蛋掉落.cpp:12-41 | The memoised recursion returns the minimax value and keeps the memo right |
| EggDrop.Duality | leetcode/887.鸡蛋掉落.cpp:49-56 | m moves are enough for n floors if and only if n is at most the number of floors m moves can cover |
| EggDrop.NoOverflow | leetcode/887.鸡蛋掉落.cpp:50-56 | While the loop goes on no entry of the table reaches twice the number of floors |
| FurthestBuilding.Furthest | leetcode/1642.可以到达的最远建筑.cpp:11-49 | A building is reachable with the bricks and ladders by some choice if and only if it is not behind the returned one |
| FurthestBuilding.LargestAreBest | leetcode/1642.可以到达的最远建筑.cpp:34-41 | Ladders on the largest climbs need the fewest bricks |
| CasQueue.FirstInFirstOut | code/cas/cas.h:51-73 | In every interleaving of one pushing and one popping thread no deleted node is accessed, no node is lost, and the chain behind _head holds the elements pushed and not yet popped, in the order of the calls of push, but for one that is on its way |
| CasQueue.EmptyMeansEmpty | code/cas/cas.h:67-69 | In every interleaving pop gives up exactly when everything pushed was popped, but for an element on its way |
| CasQueue.CallsEnd | code/cas/cas.h:51-73 | Whatever the other thread does meanwhile, a call of push is done, with its element linked in, after four steps of its thread, and a call of pop after at most five |
| LockClients.MutualExclusion | code/zookeeper/main.c:40-136 | In every run of any number of clients at most one is between acquiring and deleting its node, grants follow the sequence numbers, and no two live clients watch the same node |
| LockClients.Scan | code/zookeeper/main.c:50-72 | The loop finds the largest number below the own one, or that there is none |
| LockClients.GrantedIff | code/zookeeper/main.c:74-81 | A client takes the lock when it handles its listing if and only if the listing shows no smaller number |
| LockClients.LeastGetsLock | code/zookeeper/main.c:40-119 | The client with the least live number gets the lock by its own requests alone if and only if it does not already go by an old listing; then no run ever gives it the lock |
| LockClients.WokenIffFound | code/zookeeper/main.c:82-87 | A waiting client is woken if and only if the node in front was still there when it looked; otherwise no run ever moves it |
| LockClients.LostWakeup | code/zookeeper/main.c:31-34 | Two clients, and a run after which the second waits for ever although it is alone |
| Exceptions.Thread.Run | code/exception/trycatch_finally.c:56-91 | The flag-and-frame machine does what the nested block means: an exception goes to the innermost Try whose body is running, Catches are tried in order, the rest is rethrown, and a normal exit restores the frame stack |
| Exceptions.NothingLeavesTheProgram | code/exception/trycatch_finally.c:105-129 | Without an outer frame a throw ends at the top: nothing is left raised |
| Exceptions.FinallyRunsUnless | code/exception/trycatch_finally.c:76-91 | The Finally part runs if and only if the Catch part chosen for the body's exception does not raise |
| Exceptions.FinallySkipped | code/exception/trycatch_finally.c:76-91 | A Catch part that throws skips its Finally part |
| SkipList.SkipList.constructor | code/timer/skiplist.c:19-33 | zslCreate gives the empty list |
| SkipList.SkipList.Search | code/timer/skiplist.c:63-72 | The search leaves, at every level, the last node in front of the first one whose score is not below the argument |
| SkipList.SkipList.Insert | code/timer/skiplist.c:58-92 | For every height the new node goes in front of those with the same score; the nodes stay sorted, at each level the chain passes exactly the nodes taller than the level, and level and length are right |
| SkipList.SkipList.DeleteNode | code/timer/skiplist.c:120-133 | Exactly that node leaves the list and every chain, and the level drops to that of the tallest node left |
| SkipList.SkipList.Delete | code/timer/skiplist.c:135-156 | The first node with the score goes, or nothing changes if there is none |
| SkipList.SkipList.DeleteHead | code/timer/skiplist.c:101-118 | Exactly the first node leaves the list and every chain |
| SkipList.SkipList.Min | code/timer/skiplist.c:94-99 | The first node, or null for the empty list |
| SkipList.SkipList.Expire | code/timer/sl-timer.c:50-65 | The timers whose stored score is not above the clock go, in order, and no other |
| SkipList.ChainIsTall | code/timer/skiplist.c:84-88 | Following the links of a level from the header passes exactly the nodes taller than the level, in order |
| SkipList.InsertedKeeps | code/timer/skiplist.c:58-92 | Insertion keeps the order and adds exactly one occurrence of the score |
| SkipList.DeletedKeeps | code/timer/skiplist.c:135-156 | Deletion keeps the order and removes one occurrence of the score if and only if it occurs |
| SkipList.DeletesItself | code/timer/skiplist.c:150-155 | zslDelete takes out the node it is given if and only if no node in front of it has the same score |
| SkipList.TakesTheOther | code/timer/skiplist.c:150-155 | Of two nodes with one score, deleting the second takes out the first |
| SlTimer.AddTimer | code/timer/sl-timer.c:38-43 | The deadline is kept as a 32-bit word, and the timer goes to its place |
| SlTimer.ExpireTimer | code/timer/sl-timer.c:50-65 | Exactly the timers that are due go if and only if the counter wrapped between none of their times and the clock |
| SlTimer.FiresIff | code/timer/sl-timer.c:59 | The comparison of the stored words is that of the times if and only if the counter did not wrap in between |
| SlTimer.EarlyTimer | code/timer/sl-timer.c:59 | A timer set across the wrap goes at once |
| NginxPool.Pool.constructor | code/mmpool/ngx_palloc.c:18-43 | The pool starts with one block, nothing given out, and the small limit |
| NginxPool.Pool.Palloc | code/mmpool/ngx_palloc.c:127-137 | On success there is one more piece, aligned, inside a block behind its header, or one more large block of the size asked for; every piece given out before stays, and all are pairwise disjoint; on failure nothing changed. A small piece is in the first block from the current one on that has room, right behind what was used there; only if no block has room a new one is asked for, and only if that fails the answer is null |
| NginxPool.Pool.Pnalloc | code/mmpool/ngx_palloc.c:140-150 | The same without alignment |
| NginxPool.Pool.PallocSmall | code/mmpool/ngx_palloc.c:153-179 | The search gives the aligned start of the free part of the first block from the current one on that has room, and no other block changes; without such a block a new one is added, or the answer is null if the system has none |
| NginxPool.Pool.PallocBlock | code/mmpool/ngx_palloc.c:182-216 | The new block is the last one of the chain, the piece is aligned and behind its header, and exactly the blocks passed failed once more |
| NginxPool.Pool.CountFailures | code/mmpool/ngx_palloc.c:207-211 | Exactly the blocks from the current one to the last but one failed once more, and current moves behind exactly those that failed six times; no block failed more often than one in front of it |
| NginxPool.Pool.PallocLarge | code/mmpool/ngx_palloc.c:219-257 | One more large block of the size asked for, in the first free entry among the first five, and otherwise in a new one in front; every piece given out before stays; on failure nothing changed |
| NginxPool.Pool.Pmemalign | code/mmpool/ngx_palloc.c:260-282 | The same for aligned memory, always in a new entry |
| NginxPool.Pool.Pfree | code/mmpool/ngx_palloc.c:285-303 | Exactly the given large memory stops being live; the answer says whether it was live |
| NginxPool.Pool.Reset | code/mmpool/ngx_palloc.c:102-124 | Each live large memory is freed once, and every block is used up to a pool header behind its start |
| NginxPool.Pool.Destroy | code/mmpool/ngx_palloc.c:46-99 | Each live large memory and each block is freed once, and nothing else |
| NginxPool.Pool.PiecesApart | code/mmpool/ngx_palloc.c:153-257 | In every valid pool all pieces and large blocks given out and not taken back are pairwise disjoint |
| NginxPoolRuns.Serve | code/mmpool/ngx_palloc.c:18-282 | From the creation of a pool on, any sequence of requests by ngx_palloc, ngx_pnalloc and ngx_pmemalign gives pieces of the sizes and alignments asked for that are pairwise disjoint, if the system never gives out memory twice |
| NginxPool.NewApart | code/mmpool/ngx_palloc.c:161-170 | A piece behind the used part of its block is apart from all pieces of all blocks |
| NginxPool.RoomIff | code/mmpool/ngx_palloc.c:164-168 | The unsigned test for room keeps a piece inside the block if and only if aligning the start does not leave the block |
| NginxPool.InsideIff | code/mmpool/ngx_palloc.c:153-179 | The first block of a pool keeps every run of small requests inside if and only if its size is a multiple of the alignment |
| NginxPool.RoomBehind | code/mmpool/ngx_palloc.c:164-168 | ngx_create_pool(100), ngx_pnalloc(20) and ngx_palloc(1) give a piece behind the block |
| NginxPool.AlignedRoom | code/mmpool/ngx_palloc.c:164-168 | With a pool size that is a multiple of the alignment the test is exact |
| Lru.RingCache.Get | leetcode/146.lru-缓存.cpp:52-56 | On the ring of nodes and the map: answers the value of the key or -1, and the entry becomes the most recent one |
| Lru.RingCache.Put | leetcode/146.lru-缓存.cpp:58-78 | The entry becomes the most recent one with the new value; if there are too many, exactly the least recent one goes |
| Lru.RingCache.GetNode | leetcode/146.lru-缓存.cpp:39-50 | The node of the key moves to the front of the ring, or nothing changes |
| Lru.RingCache.Remove | leetcode/146.lru-缓存.cpp:25-29 | Two assignments leave the ring of the other nodes |
| Lru.RingCache.PushFront | leetcode/146.lru-缓存.cpp:31-37 | Four assignments link the node in as the first one |
| Lru.ListCache.Get | leetcode/146.lru-缓存机制.cpp:21-35 | The list of copies and iterators answers and moves as the ring does |
| Lru.ListCache.Put | leetcode/146.lru-缓存机制.cpp:37-52 | Evicting before inserting gives the same entries as evicting afterwards in the ring |
| Lru.RunBoth | leetcode/146.lru-缓存机制.cpp:16-52 | Over every run of calls from the empty caches on, both implementations give the answers of the recency list |
| Lru.RemembersExactly | leetcode/146.lru-缓存.cpp:52-78 | Over every run of calls a stored value is answered if and only if fewer than capacity other keys were moved to the front since, by a put or by a get that found them; otherwise the answer is -1 |
| Lru.Stays | leetcode/146.lru-缓存.cpp:58-78 | A key stays if and only if fewer than capacity keys get in front of it |
| Lru.RemembersRecent | leetcode/146.lru-缓存.cpp:52-78 | So the value is answered if fewer than capacity other keys were used since, and forgotten if at least capacity others were stored |

## Findings

Places where the code does not do what its use suggests, each with an input and with the
exact condition under which it does.

| expected | fails for | holds exactly if |
|---|---|---|
| expire_timer fires the timers that are due (code/timer/rbt-timer.c:76-77) | `RbShape.EarlyTimer`: key 10, clock 5 below the wrap | `RbShape.ExpireIff`, `RbTree.RbTree.Expire`: the counter did not wrap between the clock and the first timer, if that is due, nor the first timer not due. `RbShape.ExpireUnwrapped` is the special case that no key is across the wrap |
| A client waiting for the lock is woken when the node in front of it goes (code/zookeeper/main.c:82-87) | `LockClients.LostWakeup`: the node goes between listing and looking | `LockClients.WokenIffFound`: the node was still there when the client looked; the answer of that look is not used |
| Finally runs on every exit from Try (code/exception/trycatch_finally.c:76-91) | `Exceptions.FinallySkipped`: a Catch part that throws | `Exceptions.FinallyRunsUnless`: the Catch part chosen for the body's exception does not raise |
| cJSON_Minify reads only the text (code/json/cjson/cJSON.c:735-750) | `JsonMinify.ReadsBehind`: `"`, `"\` and `/*` | `JsonMinify.StaysInside`: every string and every comment is ended |
| zslDelete deletes the node it is given (code/timer/skiplist.c:135-156) | `SkipList.TakesTheOther`: two nodes with one score | `SkipList.DeletesItself`: no node in front has the same score |
| ngx_palloc_small stays inside the block (code/mmpool/ngx_palloc.c:164-168) | `NginxPool.RoomBehind`: ngx_create_pool(100), ngx_pnalloc(20), ngx_palloc(1) | `NginxPool.InsideIff`: the pool size is a multiple of the alignment; for one request `NginxPool.RoomIff`: aligning the start does not leave the block |
| expire_timer of the skip list fires the timers that are due (code/timer/sl-timer.c:59) | `SlTimer.EarlyTimer`: a timer set 15 ticks ahead, 5 ticks before the wrap | `SlTimer.ExpireTimer`: the counter wrapped between none of the times and the clock |
| ikcp_update_ack computes in its signed words (code/kcp/ikcp.c:543-558) | `KcpEstimate.Overflows`: two round trips of 2^28 milliseconds | `KcpEstimate.FitsIff`: all measured times are below 2^28 milliseconds |
| btree_delete_key keeps the keys in order (code/tree/b-tree.c:284-290) | `BTreeDescent.OutOfOrder`: the root key of a tree of three levels | `BTreeDescent.PredecessorIff`: the child that gives its last key is a leaf |
| An entry that is sent again waits for its timer (code/kcp/ikcp.c:1062-1071) | `KcpTimers.TimerBehind`: the sixteenth timeout of an entry, with the largest estimate | `KcpTimers.TimerAheadIff`: the wait is at most half the range of the clock; `KcpTimers.TimersAhead`: so it is for the first sixteen transmissions |
| The window announced is the room that is left (code/kcp/ikcp.c:905-925) | `KcpReply.WideWindowCloses`: an empty receive window of 2^16 | `KcpReply.RoomIff`: the room is below 2^16 |
| cJSON_Minify takes out all comments (code/json/cjson/cJSON.c:735-750) | `JsonMinified.JoinedSlashes`: `/ /` | `JsonMinified.MinifiedIsClean`: the next character kept behind a lone slash is neither a slash nor a star |
| cJSON_Parse refuses a string without its closing quote (code/json/cjson/cJSON.c:202-249) | `JsonMinified.UnendedString`: `"a` | `JsonMinified.SameEnd`: there is a closing quote |

## Left out

- KCP stream mode, logging, allocation failure, user callbacks, ikcp_check, the socket programs, and changing mtu or windows during a connection.
- KCP latest_ts of ikcp_input, which is only used under a macro that is not set.
- KcpHosts.Talk: the settings of ikcp_create; a datagram is late when half the number space lies between its numbers and the counters.
- KcpProgress.EverythingCanArrive: that the run can go on this way, not that a scheduler will; for numbers without wrap-around.
- KcpReply.SentAgain: runs of numbers without wrap-around; KcpDelivery.DueGoesOut is for both kinds of numbers.
- KCP queues are sequences: the intrusive circular links of ikcp.h are not modelled, the counters beside them are.
- RbTree.RbTree.Expire: the handlers that the timers run are not modelled, so they do not change the tree during the loop.
- The second red-black tree (code/tree/rbtree.c) and the mirror-image branches of the first one, which are one branch with a side parameter here.
- BTreeDescent.Delete: keys that are in an inner node, where the code loses the order (BTreeDescent.PredecessorIff), and keys that are not in the tree; freed nodes are only dropped.
- BTree.Root.Insert: the child array of a node is given the 6t entries the code's allocation makes room for.
- JsonParse.Parser.Parse: fractions, exponents and malformed escapes are one outcome that nothing is said about; allocation never fails.
- JsonBuffer.PrintBuffered: sizes up to 2^30, the largest power of two in an int; larger ones overflow in the code.
- JsonAlloc.PrintValue: the arrays of entry pointers are sequences.
- JsonMinify.Minify: the model stops at the first read behind the terminator; what the code does with that memory is not modelled.
- UTF-8 bytes are computed with divisions and remainders where the code shifts and masks.
- Child-list surgery, duplication and deletion of cJSON items, and floating-point numbers.
- LargestNumber.Largest: std::sort is an insertion by the same comparator.
- FurthestBuilding.Furthest: the priority queue is a multiset whose largest element is taken; sums are unbounded.
- LockClients.MutualExclusion: a session event with an empty path, delivered while the watched path is still empty, starts a second listing (code/zookeeper/main.c:125-135) and is not modelled, nor are session expiry and wrap-around of the numbers.
- CasQueue.FirstInFirstOut: one pushing and one popping thread only.
- Exceptions.Thread.Run: leaving a Try part by return or break, and the message text.
- SkipList.SkipList.Insert: the random height is an input; handlers and freeing are not modelled, and zsl_print is left out.
- NginxPool.Pool.Palloc: pool sizes are multiples of 8, which InsideIff shows is what keeps every piece inside; pages have 4096 bytes; what the system allocator answers is an input that must be memory nobody has.
- NginxPoolRuns.Serve: runs without ngx_pfree and ngx_reset_pool, after which the system may give memory out again.
- NginxPool.Pool.Destroy: cleanup handlers, logging and ngx_pcalloc's zeroing are not modelled.
- Lru.ListCache.Put: a capacity of zero, for which the code reads the last entry of an empty list, and negative capacities.
- Lru.ListCache.Get: the library's list is the sequence of its nodes; its own links are not modelled.
- Other components and the remaining leetcode files: sockets, eBPF, MQTT, thread pool, sorts and one-loop problems.
