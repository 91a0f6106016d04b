# Verified model of a BitTorrent client's bencode engine and download queue

The C program reads torrents and tracker answers without ever building a tree: it walks flat bencoded
bytes with an offset, a nesting counter and a key/value toggle, follows paths such as
`0.d|info|0.d|length|`, cuts out values and splices new ones in. Beside this engine it keeps a linked
queue of file blocks that it hands out to peers.

The model gives bencode a tree with an encoding, writes each C function down with the same loops and
branches, and proves what the flat scans do to the encoding of an arbitrary tree. Every loop is a
method proved equal to a scan function, and the theorems about trees are stated of that function.
Where the code does less than it is meant to, the code is kept as it is, an input that shows it is
given, and the exact condition under which it does what it is meant to is proved.

| file | content |
|---|---|
| `Bytes.dfy` | bytes, C strings, decimal numerals |
| `Bencode.dfy` | values, encoding (BEP 3, section "bencoding") |
| `Grammar.dfy` | the grammar in literal characters, proved to be what the encoding writes |
| `Scan.dfy` | one token, one step, synchronisation of counter and tree |
| `Spelling.dfy` | the tokens of a tree and of everything around a place in it |
| `ListLookup.dfy`, `DictLookup.dfy` | the level scans, and on which dictionaries the key search is right for all keys |
| `ListExact.dfy`, `DictWalk.dfy` | both searches token by token: exactly when one element or key is found, and when nothing is |
| `Path.dfy`, `KeyPaths.dfy` | path following and extraction, general and through nested dictionaries |
| `Printer.dfy` | the recursive walkers, unique decodability |
| `Insert.dfy`, `InsertTree.dfy`, `InsertRun.dfy` | insertion in place, in the tree, and as a finite map |
| `Torrent.dfy`, `Peers.dfy` | torrent fields, compact peer list |
| `WorkQueue.dfy`, `Work.dfy`, `Dispatch.dfy` | the linked queue, tiling a file, handing blocks out |
| `Escape.dfy` | the escaping printer |
| `Examples.dfy` | literal texts: what is delivered, inserted and shown for a few of them |

How C is expressed: a pointer `str + at` is a byte sequence and a position; the length parameter that
goes with it is what remains of the sequence, except in `b_jump_to_type`, where it is explicit because
a caller passes something else. A path, a key and an inserted object come without a length: they are
the C string that starts the bytes given, cut at the first NUL (`CStr`). A byte read outside the buffer
is a NUL, and a search for an end token stops at the end of the buffer. Buffers that the code writes are
arrays. The queue and its nodes are classes with the fields of the C structs.

## Where the code departs from its intent

- `b_get_in_list_offset` calls `b_jump_to_type` with its last two arguments swapped
  (src/bencode.c:91, 97 against 53), so each call passes one token. For every list and every index
  `InListExact` says exactly when an element that is there is found all the same, and `InListAbsent`
  exactly when -1 is returned, in nested lists as well; index 0, the only one the program uses, is `InListZeroExact`.
- The -1 that says an element is not there is added to the offset unchecked (src/bencode.c:211). A
  path of one step then leads before the string (`AbsentElement`); if it asks for a list or dictionary
  and goes on, it is answered with the first element (`AbsentContainer`), and one level down with the
  whole list (`AbsentInside`).
- `b_get_in_dict_offset` flips its toggle at scalars only (src/bencode.c:133-162). `DictExact` and, over
  all paths of all trees, `KeyPathsExact` say exactly when the lookups of all existing keys are right;
  `KeyExact` and `OneKeyExact` say when that of one key is.
- The same search does not stop at the end of its dictionary: nesting goes to -1 there and the next
  dictionary brings it back to 0 (src/bencode.c:121). `AbsentKeyExact` says exactly when a last key is
  reported as absent, `NestedAbsentKey` names trees on which every absent one is, `AbsentKeyLeaks` shows
  which value is delivered instead and `NeighbourAnswers` one input.
- A path ends at its first NUL (src/bencode.c:191, 225), so a key with a NUL in it is answered with the
  value of the part before: `NulKeyIsCut`.
- Insertion measures the buffer and the object with `strlen` (src/bencode.c:515-529), so it drops
  whatever stands behind a NUL in either. `InsertionExact`, `PutExact` and `RunEncodes` say that the
  buffer encodes the edited tree exactly when no key and no string in tree and item holds a NUL;
  `NulValueIsCut` and `NulInDictIsCut` are inputs that lose bytes.
- Comments write paths with `/` (src/bencode.c:181, src/headers/bencode.h:60); the code, and the model,
  separate steps by `|`.
- src/bencode.c:281 has misplaced parentheses but evaluates to the intended test; the model writes
  the test.
- `create_work` counts blocks by its parameter but cuts them by `BLOCK_SIZE` (src/main.c:90-98, 108);
  `WorkTilesExactly` says exactly when that covers the file.
- `download_file` calls it with the number of whole pieces (src/main.c:460-464); `DownloadCoversFile`
  says exactly when that covers the file of the torrent.
- `resource_queue_pop` never writes `*resource_out` (src/main.c:68-85). `Pop` is that code.
  `search_for_resource_for_peer` would then decide on an uninitialised block, so it is modelled over
  `PopInto`, which delivers the block taken off, and over a queue shared with the caller
  (the C code passes it by value, src/main.c:342).
- The stop test of that search fires at the first miss (src/main.c:351); it is modelled as written and
  `SearchTruthful` says exactly when its return code means what is documented.
- `explicit_str` is documented to need a buffer of double the source's length
  (src/headers/helper.h:44); `DoubleSuffices` says exactly when that is enough.

## Model

| member | source | states |
|---|---|---|
| Bytes.AtoiOfIntText | src/tracker_communication.c:10-12 | printing a number in decimal and reading it with `atoi` gives it back, negative numbers included |
| Bytes.DigitsValueOfDec | src/bencode.c:27-36 | the length prefix a string is written with reads back as its length |
| Bytes.DecExact | src/bencode.c:526 | what `%d` prints for a number that is not negative is its decimal numeral, digits only and no leading zero, and no other text is |
| Bytes.IntTextExact | src/bencode.c:554 | what `%d` prints for any number is its numeral behind a minus sign if it is negative, and no other text is |
| Bytes.AtoiReads | src/tracker_communication.c:10-12 | `atoi` reads white space, a sign or none, and digits by their place values, up to the first other byte |
| Grammar.EncodeExact | src/headers/bencode.h:16-31 | a text is the encoding of a value if and only if the grammar of bencode, in literal characters, says so |
| Scan.ReadDigits | src/bencode.c:27-34 | the digit loop collects the maximal run of digits |
| Scan.SkipObj | src/bencode.c:20-48 | the method computes the skip of the token at the pointer |
| Scan.SkipScalar | src/bencode.c:20-48 | at a string or an integer the skip is exactly its encoding, whatever its payload contains |
| Scan.OtherByte | src/bencode.c:20-48 | a byte that starts no token is passed alone |
| Scan.Synchronised | src/bencode.c:56-76 | stepping over any value stops exactly at the tree's token starts with the tree's depth, strictly deeper than the start inside a container, and ends behind its last byte at the depth it began |
| Scan.ScanCloseContainer | src/bencode.c:281-303 | the nesting loop started in a list or dictionary ends just behind its own end token, whatever follows |
| ListLookup.JumpToType | src/bencode.c:53-79 | the method computes the jump for any arguments, swapped ones included |
| ListLookup.JumpFindsSibling | src/bencode.c:50-79 | with arguments in declared order the jump finds the first sibling of the type or the end of the siblings, never a nested token |
| ListLookup.JumpFromHead | src/bencode.c:50-79 | with the ignore flag set the search starts at the sibling behind the current one |
| ListLookup.GetInListOffset | src/bencode.c:84-109 | the method computes the element search as written, -1 included |
| ListLookup.SwappedJumpIsOneToken | src/bencode.c:91-97 | a call with the arguments swapped passes exactly one token |
| ListExact.ListFollowsTokens | src/bencode.c:84-109 | in any list, nested in others or not, the loop is a walk over the types of the tokens from its body to the end of the string |
| ListExact.InListExact | src/bencode.c:84-109 | for every list and every index the element that is there is found if and only if no earlier sibling has a token of its type inside and every gap in the token stream up to it is at most one |
| ListExact.InListScalars | src/bencode.c:84-109 | when scalars stand before the element this is a condition on the types of the elements alone |
| ListExact.InListZeroExact | src/bencode.c:84-109 | for index 0 among siblings of all kinds it is right if and only if the element comes first, or second after a scalar |
| ListExact.InListAbsent | src/bencode.c:87-108 | in any list, nested in others or not, -1 is returned if and only if the loop has no more turns than the index says, and always when the index is not below the number of tokens up to the end of the string |
| ListExact.InListSameType | src/bencode.c:84-109 | over scalars of one type every index is found and every other index gives -1 |
| ListExact.TwoIntegersHideString | src/bencode.c:91-98 | an input on which the search is wrong |
| ListExact.SecondIntegerMisplaced | src/bencode.c:91-105 | an element that is not there is placed at the end of the siblings instead of -1 |
| ListExact.SecondEmptyListFound | src/bencode.c:84-109 | an element behind a list that is found |
| DictLookup.GetInDictOffset | src/bencode.c:111-171 | the method computes the search for the C string of the key as written, toggle and stale key included |
| DictLookup.DictFinds | src/bencode.c:111-171 | with only scalar values before it, the first entry with the key is found, whatever follows the dictionary |
| DictLookup.DictMissesNext | src/bencode.c:128-161 | the key right behind the first list or dictionary value is missed |
| DictLookup.DictExact | src/bencode.c:111-171 | every key of a dictionary leads to its own value if and only if no value but the last is a list or dictionary |
| DictLookup.DictAbsent | src/bencode.c:121-170 | with a C string as key, only end tokens behind the entries and no list or dictionary value but the last, an absent key ends the search at the end of the string |
| DictLookup.LeavesInto | src/bencode.c:121-170 | with another dictionary behind it, the search for an absent key goes on in that one as if it had begun there |
| DictLookup.ListValueHidesNextKey | src/bencode.c:128-161 | an input on which the search is wrong |
| DictWalk.KeyExact | src/bencode.c:111-171 | unless the search is derailed by an integer before it, the first entry with a key is found if and only if list and dictionary values bring the search back in step before it and no string is taken for the key on the way |
| DictWalk.SecondListRestoresStep | src/bencode.c:128-161 | a key behind two lists that is found |
| DictWalk.SearchFollows | src/bencode.c:111-171 | over any tokens the search is the walk over them, with the place where it stops or the state behind them |
| DictWalk.NothingExact | src/bencode.c:121-170 | in any dictionary, nested in others or not, the search ends at the end of the string if and only if the walk over its tokens and all tokens behind it stops nowhere, unless it is derailed |
| Path.GetOffset | src/bencode.c:184-242 | the method follows the C string of a path as written |
| Path.ReadKeyPart | src/bencode.c:223-231 | the loop reads the key up to the delimiter or the end of the path |
| Path.AnyKeySpelled | src/bencode.c:223-231 | every key without a delimiter or a NUL can be spelled in a path and is read back whole |
| Path.PathLeadsTo | src/bencode.c:173-242 | on the encoding of any tree a clear path, through lists and dictionaries, closed or open at its end, leads to the place that nested lookup in the tree names |
| Path.Get | src/bencode.c:244-315 | the method copies exactly the extent it found, with a NUL if asked, changes no other byte, and returns 0 and nothing if the path leads past the end |
| Path.IntegerLen | src/bencode.c:254-262 | the loop measures an integer's text without its two tokens |
| Path.ContainerLen | src/bencode.c:281-303 | the method computes the extent of a container |
| Path.ExtentOfValue | src/bencode.c:253-304 | at any value the extent is exactly its payload: an integer's text, a string's bytes, a container's whole encoding |
| Path.PathGets | src/bencode.c:244-315 | following a clear path to a value delivers that value's payload |
| Path.AbsentElement | src/bencode.c:211 | a path of one step leads before the string if and only if the element search has no turn left for its index |
| Path.AbsentContainer | src/bencode.c:211-217 | an absent list or dictionary to be entered is answered with the first element of the string |
| Path.AbsentInside | src/bencode.c:211-217 | in a list one level down, a path leads to the whole list if and only if the search, which runs on over the list's end token, has no turn left, and then `b_get` delivers the whole list |
| KeyPaths.NestedGet | src/bencode.c:244-315 | for every tree and every clear path of keys that exists in it, the payload of the value the keys lead to is delivered, whatever follows the tree |
| KeyPaths.ContainerSlice | src/main.c:436-440 | the info-hash preimage: a container reached by keys is delivered as exactly its own encoding |
| KeyPaths.KeyPathsExact | src/bencode.c:184-242 | all key paths of a tree are followed to their values if and only if every dictionary on the way has lists and dictionaries in the last place only |
| KeyPaths.OneKeyExact | src/bencode.c:184-242 | a path of one key is followed to its value if and only if the way to its entry meets it, unless it is derailed |
| KeyPaths.AbsentKeyExact | src/bencode.c:246-251 | behind any clear way, whatever values follow the tree, `b_get` reports nothing for a last key if and only if the walk over the tokens of its dictionary and all tokens behind stops nowhere, unless it is derailed |
| KeyPaths.NulKeyIsCut | src/bencode.c:191-231 | a key with a NUL in it is answered with the value of the part before the NUL |
| KeyPaths.AbsentKey | src/bencode.c:246-251 | for a key absent from a dictionary that is the whole string and has only its last value a list or dictionary `b_get` reports nothing |
| KeyPaths.NestedAbsentKey | src/bencode.c:246-251 | at any depth of a tree that holds lists and dictionaries in last places only, a key path whose last key is missing makes `b_get` report nothing |
| KeyPaths.AbsentKeyLeaks | src/bencode.c:121-170 | a key absent from a dictionary of scalars is answered with its value in the dictionary of the next entry, if that has it behind scalars only |
| KeyPaths.NeighbourAnswers | src/bencode.c:121-170 | an input on which a path that leads nowhere delivers a neighbour's value |
| Examples.LengthDelivered | src/bencode.c:244-315 | a literal dictionary and path: the text of the number is delivered |
| Examples.TorrentDelivered | src/bencode.c:244-315 | a literal torrent: a string, a number one level down and a whole dictionary are delivered |
| Examples.ListDelivered | src/bencode.c:84-109 | literal lists: the second number and the first string are delivered |
| Examples.DocumentedPath | src/headers/bencode.h:53-60 | the example path of the header, with the delimiter of the code, spells its six steps |
| Printer.PrintTree | src/bencode.c:471-495 | the method consumes and shows what the walk over the bytes prescribes |
| Printer.PrintInteger | src/bencode.c:455-469 | it passes the integer's text and its end token |
| Printer.PrintList | src/bencode.c:325-386 | the loop consumes and shows the items up to the end token |
| Printer.PrintDict | src/bencode.c:388-453 | likewise, with the key/value toggle following the number of items |
| Printer.PrintItem | src/bencode.c:344-381 | the branch both loops share consumes and shows one item |
| Printer.ItemOf | src/bencode.c:325-495 | over the encoding of any value the walkers show that value and stop behind it, whatever follows |
| Printer.WalkerAgreesWithCounter | src/bencode.c:281-303 | the recursive walker and the nesting counter agree on the extent of every list and dictionary |
| Printer.UniquelyDecodable | src/bencode.c:325-495 | encodings are prefix-free: the bytes determine the value and the rest |
| Printer.PrintShowsAll | src/bencode.c:497-507 | over values one behind the other, without an end token, all of them are shown and the walk ends with the string |
| Printer.AliensShown | src/bencode.c:484-495 | bytes that start no token are shown one by one |
| Printer.CutStringShown | src/bencode.c:344-376 | a string that announces more bytes than there are is shown as far as it goes |
| Examples.ThreeShown | src/bencode.c:325-495 | a literal text with a number, a string and a dictionary, node by node |
| Insert.InsertObj | src/bencode.c:509-533 | the C string in the buffer becomes itself with the C string of the object spliced in, bytes behind it stay, and the place behind the object is returned |
| Insert.InsertElement | src/bencode.c:536-540 | the object is spliced in where the path leads |
| Insert.InsertKeyValue | src/bencode.c:542-547 | key and value end up next to each other where the path leads |
| Insert.InsertInt | src/bencode.c:549-556 | the integer's encoding is spliced in where the path leads |
| Insert.CreateList | src/bencode.c:558-561 | the buffer holds the encoding of the empty list |
| Insert.CreateDict | src/bencode.c:563-566 | the buffer holds the encoding of the empty dictionary |
| InsertTree.NulFreeEncoding | src/bencode.c:515-516 | `strlen` sees a whole encoding if and only if no key and no string in the tree holds a NUL |
| InsertTree.PutExact | src/bencode.c:509-533 | inserting at any boundary of any list or dictionary at any depth leaves the encoding of the tree with the item there and nothing else changed if and only if neither holds a NUL |
| InsertTree.InsertionExact | src/bencode.c:536-556 | likewise for insertion by a clear path, at the place the path names |
| Examples.NumberInserted | src/temp.c:21-25 | literal texts: -17 goes into the list under a key, and nothing else changes |
| InsertRun.BuildDict | src/bencode.c:542-566 | the method creates a dictionary and inserts any run of entries just inside it; the buffer encodes all entries, latest first, if and only if none holds a NUL |
| InsertRun.RunEncodesCut | src/bencode.c:509-547 | with NULs in keys and strings the buffer encodes the entries as their C strings have them |
| InsertRun.RunEncodes | src/bencode.c:509-547 | the string after a run encodes the dictionary of all entries if and only if none holds a NUL |
| InsertRun.InsertsRefineMap | src/bencode.c:542-566 | after any run of scalar insertions, the first also a list or dictionary, a lookup delivers the value last inserted for the key, as its C string has it, and nothing for a key never inserted |
| InsertRun.NulValueIsCut | src/bencode.c:526-529 | an entry that goes in without its value |
| InsertRun.NulInDictIsCut | src/bencode.c:515-529 | a dictionary that loses what stands behind a NUL in it |
| Torrent.DeserializeTorrent | src/tracker_communication.c:5-32 | the method fills every field from its path |
| Torrent.GetString | src/tracker_communication.c:7-22 | one field read as a C string, cut at a NUL in it |
| Torrent.TorrentRecovered | src/tracker_communication.c:5-32 | from the encoding of any torrent tree with its fields on clear ways exactly the tree's fields are read |
| Torrent.FieldsFit | src/tracker_communication.c:5-32 | the fields that are read fit the buffers they are copied to |
| Torrent.LiteralPaths | src/tracker_communication.c:7-31 | the six literal paths spell the intended key lookups |
| Torrent.PieceCountIsLeast | src/tracker_communication.c:24-26 | the piece count is the least number of pieces that hold the file |
| Peers.FullNumericAddr | src/tracker_communication.c:34-48 | six bytes become four numerals between dots and the numeral of the port, its high byte first |
| Peers.AddrExact | src/tracker_communication.c:46 | a text is the address text if and only if splitting it at the dots gives the four numerals |
| Peers.AddrExample | src/tracker_communication.c:34-48 | the literal peer 1.2.3.4, 6881 |
| Peers.DecodePeers | src/tracker_communication.c:242-251 | every whole record is decoded into its slot and no other slot changes |
| Peers.PeersReadBack | src/tracker_communication.c:242-251 | no loss: the texts determine every whole six-byte record, in order |
| WorkQueue.ResourceQueue.constructor | src/main.c:115-119 | a new queue is empty |
| WorkQueue.ResourceQueue.Push | src/main.c:50-66 | push appends one fresh node at the back |
| WorkQueue.ResourceQueue.Pop | src/main.c:68-85 | pop takes the front off, reports -1 on an empty queue, and leaves the caller's variable alone |
| WorkQueue.ResourceQueue.PopInto | src/main.c:68-85 | pop as its caller relies on it delivers the front block |
| WorkQueue.ResourceQueue.Free | src/main.c:121-130 | every remaining node is visited once, in order, and the walk ends |
| WorkQueue.EndsNullTogether | src/main.c:34-85 | front and back are null together, exactly when the queue is empty |
| Work.CreateWork | src/main.c:87-113 | the blocks are appended to the queue in order, as many as the block size asked for needs, each with its size, offset, piece and address in numbers |
| Work.WorkIsCut | src/main.c:87-113 | for any block size asked for the blocks are these, cut at the multiples of 16 KiB |
| Work.SixteenKiBTile | src/main.c:464 | asked for 16 KiB the blocks tile the file, all but the last of 16 KiB |
| Work.DownloadCoversFile | src/main.c:460-464 | the blocks of the call tile the torrent's file if and only if the piece length divides its length |
| Work.PushBlocks | src/main.c:93-112 | the loop and the branch for the short block push the full blocks and then the rest |
| Work.WorkTilesExactly | src/main.c:87-113 | the blocks tile the file if and only if the block size asked for is the one cut by, or the file is smaller than a block |
| Work.TilesCoverOnce | src/main.c:94-112 | in a tiling every byte lies in one block and in no other |
| Work.WorkBlocksApart | src/main.c:94-112 | blocks are distinct, their memory does not overlap, only the last is short, each names the piece of the file that its first byte lies in |
| Work.PiecesCutEvenly | src/main.c:94-102 | when blocks divide pieces, each piece gets the same number of consecutive whole blocks and no block crosses into another |
| Work.LargerBlocksLeaveGaps | src/main.c:87-113 | a call that does not tile the file |
| Dispatch.BitsSpellByte | src/main.c:269-282 | bits are read most significant first: eight of them are the binary digits of their byte |
| Dispatch.GetBitIsDigit | src/main.c:269-282 | a bit is the binary digit of that place in its byte, counted from the highest |
| Dispatch.SearchForResource | src/main.c:342-368 | the search hands out the front block if and only if the binary digit of its piece in the bitfield is set, and otherwise moves it to the back |
| Dispatch.SecondByteCounts | src/main.c:357 | a block whose bit is in the second byte |
| Dispatch.SearchTruthful | src/main.c:332-354 | the return code is truthful if and only if the front block is available or none is |
| Dispatch.SecondBlockOverlooked | src/main.c:351-354 | a call whose return code is not |
| Dispatch.RetryReachesFirst | src/main.c:349-363 | repeated searches rotate the queue and hand out the first available block, the rest in cyclic order |
| Dispatch.RunOps | src/main.c:342-368 | a run of searches, pops and pushes of any handed-out block on the linked queue leaves queued and handed out what the run on values says |
| Dispatch.RunConserves | src/main.c:50-85 | no run of searches, pops and pushes of any handed-out block loses or duplicates a block |
| Dispatch.RunTakesAll | src/main.c:68-85 | as many pops as there are blocks hand all of them out, in order |
| Dispatch.SeederTakesAll | src/main.c:342-368 | a peer that has every piece is handed every block, in order |
| Dispatch.PutBackReturns | src/main.c:50-66 | a block put back is at the back of the queue and no longer out |
| Dispatch.RunKeepsWorkApart | src/main.c:342-368 | over every run that starts with a file's work no block is handed out twice or while queued, and no two blocks share memory |
| Escape.ExplicitStr | src/helper.c:35-65 | the method writes the escaped text, returns its length, leaves a NUL behind a last escape and changes nothing further on |
| Escape.FindEscape | src/helper.c:45-54 | the inner loop finds the escape of a byte, and none for a byte that needs none; the NUL that ends the table is never reached |
| Escape.EscapesAre | src/helper.c:37-38 | the thirteen escapes in literal characters; every other byte stands for itself |
| Escape.ExplicitIs | src/helper.c:35-65 | the text is the escapes of the bytes one behind the other |
| Escape.DocumentedExample | src/headers/helper.h:40 | the documented example |
| Escape.UnescapeRecovers | src/helper.c:35-65 | left-to-right unescaping recovers every source |
| Escape.ExplicitInjective | src/helper.c:35-65 | no two sources print alike |
| Escape.ShorterThanDouble | src/headers/helper.h:39-47 | the text is at least as long as the source and at most twice as long, twice exactly when every byte is escaped |
| Escape.DoubleSuffices | src/headers/helper.h:39-47 | double the source's length is room enough if and only if some byte is not escaped or there is none |
| Escape.OneNulNeedsThree | src/helper.c:49-51 | a source whose double length is too short |

## Left out

- Buffers of fixed size inside the lookups (keys under 100 bytes, length prefixes under 20 digits, insertions under 1000000 bytes) are unbounded in the model; its statements are about the program for inputs within them.
- Numbers are unbounded: the 32-bit range of `int` appears only where `Torrent.TorrentRecovered` states it; elsewhere lengths, offsets and file sizes are taken to fit.
- Reads outside a buffer on malformed or truncated input are fixed as described above; the C code leaves them undefined.
- `b_get` on a token that starts no value leaves its length unset in C; `Path.Get` excludes that case by precondition.
- WorkQueue.ResourceQueue.PopInto: the delivery of the block is not in the C code, which would leave `search_for_resource_for_peer` to decide on an uninitialised variable and on a private copy of the queue's ends.
- DictWalk.KeyExact: says nothing where the search, out of step, reads an integer other than 0 as a key: it then goes on inside the bytes of later tokens, at a distance given by the digits.
- DictWalk.NothingExact: says nothing in the same case, and when an empty key is looked up and an integer is read as a key.
- KeyPaths.AbsentKeyExact: likewise; and the way to the dictionary has to be clear.
- Printed layout: indentation, line breaks and the elision of long strings.
- Sockets, timeouts, HTTP, file reading, hashing and random identifiers: input and output, or foreign code.
- Message framing, the announce URL split, the handshake, header and parameter building: straight-line copying that would add only easy members.
- `download_file` and `download_piece`: marked as work in progress in src/main.c:433.
- `check_bitfield_size_match_torrent_size`: it compares bits with bytes, so it has no specification to prove.
- Sorting of dictionary keys: the insertion code does not attempt it.
