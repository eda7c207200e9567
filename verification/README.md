# Husky core: verified model

Husky is a server core in C: intrusive data structures, allocators and byte-level codecs. This
project models its hardest parts in Dafny, in the form the C code has them - objects with links that
methods rewrite, arrays that loops fill - and proves what the code keeps and computes.

`dafny verify dfyconfig.toml` checks all of it.

| file | models |
|---|---|
| Base.dfy | machine words, optional values, laws of sequences |
| RbTree.dfy | the red-black tree: rotations, insertion, deletion, their fixup loops, the successor |
| RbTheorems.dfy | what its invariants mean: in-order walk, balanced paths, logarithmic height |
| RbOrder.dfy | ordered trees, and the tree keyed by hash and string with its lookup |
| Timers.dfy | event timers on wrapping millisecond counters |
| Tokenizer.dfy | the configuration tokenizer with its refilled buffer, and the lexer it implements |
| ConfText.dfy | the effect of the tokenizer's buffer limit; how words may be written, and that they are read back |
| ConfTree.dfy | whole configuration files with nested blocks: the parse loop, written files parsed back, faults in them |
| Pool.dfy | the pool allocator: block chain, large buffers, the system allocator |
| Output.dfy | sending a buffer chain through writev |
| Uri.dfy, Base64.dfy, Printf.dfy, Inet6.dfy | URI escapes, base64, bounded formatting, IPv6 text |
| Conversions.dfy, Inet6Forms.dfy | what each formatting directive prints; which texts are IPv6 addresses |
| Calendar.dfy, TimeSlots.dfy | civil time, and the cached time strings published to readers |
| Queue.dfy | the circular queue: middle, stable insertion sort |

How the state is described:

- A tree carries a ghost sequence of its members; every node carries its index, the slice of its
  subtree and its black height, so that all invariants are local. RbTheorems proves that these are
  the in-order walk and the black counts of the real paths. Left and right cases are written out
  separately, as in the C code. The parent link of the root is exempt: deletion may leave it stale.
- The tokenizer, the codecs and the printers have a function over the whole text as specification;
  the methods are loops over buffers that are proved to compute it, and the round trips are proved
  about the functions.
- A configuration text is written as items - blanks, comments, bare words, words in quotation marks -
  and what it means is told by the items, apart from the lexer. The reads and allocations of the
  tokenizer go through an object that may fail them and counts the failures.
- A pool carries the pieces cut from each block. The system allocator is an object that may refuse
  any request, keeps a record of what it refused, and accepts only live regions back, so freeing twice
  cannot be verified.
- The kernel is an object that takes any part of what it is offered, or fails; a willing one takes
  all. Memory is a function
  from addresses to bytes that does not change during a call. What a chain holds is a sequence of
  units, bytes in memory or places in a file.
- The time update is a state machine whose steps are the single reads and writes of the routine, for
  any number of threads.

Where the code does not do what one would expect:

- The absolute value of the least signed word is negative, so the lazy re-arm test also accepts a
  deadline exactly 2^63 away. It cannot occur while deadlines lie within one window.
- Aligning the free pointer of a block can step over its end if the block does not end on a word
  boundary; the room left then wraps to a huge number. Blocks whose size is a multiple of the word
  are safe, and only those.
- The parser of IPv6 addresses multiplies the first two octets of a dotted quad by 255 where a mask is
  meant: a printed address with a dotted quad comes back with these octets negated, which changes
  nothing only for 0 and 128; one that ends in 255.255.255.255 is refused.
- `hky_pfree` called with no address reports success if some entry of the list is empty.
- After `hky_reset_pool` all blocks share one failure count, so the bound on the blocks that a request
  examines grows with the length of the chain, and is reached.
- An in-memory buffer of no bytes that is reached with nothing left to send is never passed by; the
  send loop then repeats a turn that moves nothing. A kernel that takes everything does not help: the
  loop ends on a chain that fits one call exactly if its last buffer holds something.
- The REFRESH table leaves the percent sign alone, so its output does not decode back in general.
- The width of a printed number does not count the minus sign, and padding follows it: `%5d` prints
  -3 in six characters.
- A reader may take a string pointer after the next slot was begun and before the pointer was moved;
  such a string lives one advance shorter than the number of slots suggests.
- The tokenizer compares the length of an unfinished token with the buffer size only when the buffer
  is used up; that turns out not to depend on how tokens are aligned to the buffer. The length is
  counted from the start of the last token, so long comments and runs of blanks are refused as well.
- The IPv6 parser passes over a single colon in front of an address, and takes a colon behind the last
  group, after a double colon, for a zero group.
- With the redirect mode of unescaping the bytes that are not harmless stay escaped; when the mode for
  URIs is on too, they do not if their second digit is a letter.

## Model

| member | source | states |
|---|---|---|
| RbTree.Tree.constructor | core/hky_rbtree.h:40-43 | an initialised tree is valid and empty, with a black sentinel |
| RbTree.Tree.LeftRotate | core/hky_rbtree.c:304-325 | all links stay right and the in-order sequence is unchanged; y takes the place, slice and slot of x |
| RbTree.Tree.RightRotate | core/hky_rbtree.c:326-352 | the mirror image of LeftRotate |
| RbTree.Tree.InsertValue | core/hky_rbtree.c:235-255 | the new leaf goes to the one position of the sequence that has no member before it that it is less than and no other after it, for any comparator under which the members split; everything else keeps its place |
| RbTree.Tree.InsertFixup | core/hky_rbtree.c:28-71 | from a tree whose only fault is one red node below a red parent, recolouring and rotating restores every invariant without changing the sequence, and terminates |
| RbTree.Tree.Insert | core/hky_rbtree.c:10-72 | a valid tree stays valid and its in-order sequence gains exactly the new node, at its place in comparator order |
| RbTree.Tree.Min | core/hky_rbtree.h:89-95 | the leftmost node of a subtree is the first of its slice of the sequence |
| RbTree.Tree.FindSubst | core/hky_rbtree.c:80-96 | the node to cut out has at most one child and is the node itself or its successor in the sequence |
| RbTree.Tree.CutRoot | core/hky_rbtree.c:98-109 | cutting out a root with at most one child leaves a valid tree even though the parent link of the new root is stale |
| RbTree.Tree.SpliceSuccessor | core/hky_rbtree.c:124-156 | the successor leaves its slot to its child and takes over the links, the colour and the place of the deleted node |
| RbTree.Tree.BlackSplicingLeavesDeficit | core/hky_rbtree.c:111-166 | cutting out a black node leaves exactly one black node too few on the paths through its child, the sentinel included, and no other fault |
| RbTree.Tree.DeleteFixup | core/hky_rbtree.c:168-232 | from such a deficit the four cases and their mirror images restore every invariant without changing the sequence, and terminate |
| RbTree.Tree.Delete | core/hky_rbtree.c:73-233 | a valid tree stays valid and its in-order sequence loses exactly the given node; the node is cleared |
| RbTree.Tree.Next | core/hky_rbtree.c:278-303 | the successor in the sequence, or nothing for the last node |
| RbTheorems.OrderIsInOrder | core/hky_rbtree.c:10-233 | the sequence the contracts speak of is the in-order walk along the left and right links |
| RbTheorems.PathsAreBalanced | core/hky_rbtree.c:10-233 | written out over paths: every way down from a node meets the same number of black nodes and never a red child of a red node |
| RbTheorems.BlackHeightBounds | core/hky_rbtree.c:10-233 | black height b forces 2^b - 1 nodes and allows a height of 2b, or 2b + 1 under a red node |
| RbTheorems.HeightIsLogarithmic | core/hky_rbtree.c:235-255 | 2^height <= (n + 1)^2: the height, and with it every descent, is at most 2 log2(n + 1) |
| RbOrder.InsertSorted | core/hky_rbtree.c:10-72 | a tree ordered by a weak order stays ordered |
| RbOrder.DeleteSorted | core/hky_rbtree.c:73-233 | an ordered tree stays ordered, whatever the order |
| RbOrder.StringOrderIsWeak | core/hky_string.c:1583-1607 | hash first, then length, then bytes: a strict weak order on any set of nodes |
| RbOrder.KeyOrderIsWeak | core/hky_rbtree.c:235-255 | unsigned keys: a strict weak order |
| RbOrder.InsertKey | core/hky_rbtree.c:235-255 | the callback for plain keys keeps the keys ascending; a new one goes behind its equals |
| RbOrder.StringOrderIs | core/hky_string.c:1583-1607 | the smaller hash first; of the same hash the shorter; of the same length the one with the smaller byte where they first differ |
| RbOrder.InsertString | core/hky_string.c:1583-1607 | inserting keeps a string tree ordered, duplicates and colliding hashes included |
| RbOrder.Lookup | core/hky_string.c:1608-1639 | a node with that hash and those bytes is returned if and only if one is in the tree |
| Timers.WindowDiff | core/hky_rbtree.c:262 | the wrapped signed difference of two keys in a half-circle window is their true distance |
| Timers.WindowOrderIsWeak | core/hky_rbtree.c:257-277 | keys in one window of less than 2^63 are weakly ordered by it, across wrap-around |
| Timers.LazyTest | event/hky_event_timer.h:38 | the test holds for distances below 300 and for one more word, the least signed one, whose absolute value overflows |
| Timers.LazyIsClose | event/hky_event_timer.h:37-38 | inside a window the test is exactly closeness below 300 ms |
| Timers.Wheel.DelTimer | event/hky_event_timer.h:14-28 | the event leaves the tree and is marked unset; the rest stay, in deadline order |
| Timers.Wheel.DeadlineIs | event/hky_event_timer.h:34-38 | the deadline is now + timer, less 2^64 if that overflows; an armed one counts as near it if they are less than 300 ms apart |
| Timers.Wheel.AddTimer | event/hky_event_timer.h:30-52 | an event that was not armed is in the tree under now + timer, less 2^64 on overflow; an armed one is as far ahead as asked, or stays where it was if that differs by less than 300 ms; timer_set holds exactly for members; within a window the tree stays in wrapped deadline order |
| Timers.Wheel.Earliest | core/hky_rbtree.h:89-95 | the leftmost node belongs to an armed event and no armed event is due before it |
| Tokenizer.ConfFile.Refill | core/hky_conf_file.c:472-496 | after the move and the read the unfinished token is at the front of the buffer and the unscanned text is the same |
| Tokenizer.ConfFile.ScanChar | core/hky_conf_file.c:504-634 | the flag variables follow the character table of the lexer |
| Tokenizer.ConfFile.CopyWord | core/hky_conf_file.c:647-674 | the copy loop yields the unescaped word and stops exactly at its end |
| Lexer.ScanStaysPaired | core/hky_conf_file.c:515-518 | skipping the character after a backslash while scanning pairs backslashes as the copy loop does, so no word ends in the middle of an escape |
| Tokenizer.ConfFile.ReadToken | core/hky_conf_file.c:402-688 | for every alignment of the text to the buffer: the code, the words, the line count and the consumed length are those of the lexer over the whole remaining text, the too-long error included, unless a read or an allocation failed, which is reported if and only if it happened |
| ConfText.CapOnlyRejects | core/hky_conf_file.c:448-470 | the limited buffer never changes a result, it only rejects |
| ConfText.TooLongIffOverlong | core/hky_conf_file.c:448-470 | it rejects exactly when the scan stands a whole buffer behind the start of a token with text left |
| ConfText.LongBlanks | core/hky_conf_file.c:448-470 | blanks that reach a whole buffer beyond the start of the last token are rejected if text follows |
| ConfText.LongComment | core/hky_conf_file.c:448-470 | and so is a comment of that length, although nothing of it is kept |
| ConfText.UnescapeReads | core/hky_conf_file.c:647-673 | characters stand for themselves; behind a backslash t, r and n are the control characters, quotation marks and backslashes themselves, and before any other character the backslash stays |
| ConfText.LexWritten | core/hky_conf_file.c:402-688 | any mixture of bare words, words in single or double quotation marks, escapes, variables with braces, comments and blanks, before a semicolon or brace: the words are those written, with the line count and the position; a separator without words, a closing brace behind words, and a character directly behind a quotation mark are errors, a closing brace without words ends the block; through the limited buffer if and only if nothing in it is too far from the start of the last token |
| ConfText.LexEnds | core/hky_conf_file.c:428-446 | at the end of the text: done if there were only blanks and comments, else an error |
| ConfText.WordItemReads | core/hky_conf_file.c:546-688 | a word without blanks, separators, backslashes and dollar signs that does not begin with a brace, a number sign or a quotation mark may be written bare, as itself; every word, the empty one too, between either quotation marks |
| ConfText.WordsReadBack | core/hky_conf_file.c:402-688 | any list of words in any of these forms is read back as those words |
| ConfText.TwoBareWords | core/hky_conf_file.c:546-688 | `ab c;` is the two words ab and c |
| ConfText.MixedForms | core/hky_conf_file.c:504-688 | a comment, escaped quotation marks and control characters, and `${}` in front of an opening brace, as they are read |
| ConfTree.Parse | core/hky_conf_file.c:211-261 | reading token by token with a handler that accepts every directive and parses every block gives the entries of the whole text, nested as its braces are; it fails on a brace that opens no block or closes none, on a block in a parameter string, at the end of the file inside a block, and where the lexer fails |
| ConfTree.PrintRoundTripAll | core/hky_conf_file.c:211-261 | for any nesting of blocks, whatever forms, blanks and comments they are written with: the entries are parsed back and the parser goes on with what follows them; through the limited buffer it stops at the first thing that does not fit, with what it read before |
| ConfTree.FileRoundTrip | core/hky_conf_file.c:175-261 | the same for a whole file or parameter string, with blanks and comments at its end |
| ConfTree.StrayBrace | core/hky_conf_file.c:218-224 | a closing brace outside a block stops the parser |
| ConfTree.EarlyEnd | core/hky_conf_file.c:226-233 | so does the end of the text behind words or inside a block |
| ConfTree.MisplacedEnd | core/hky_conf_file.c:546-574 | and a separator without words, or a closing brace behind words |
| ConfTree.BlockInParam | core/hky_conf_file.c:235-241 | and a block in a parameter string |
| ConfTree.FaultStops | core/hky_conf_file.c:211-261 | the entries in front of such a fault are all that is read |
| ConfTree.WriteMeans | core/hky_conf_file.c:175-261 | every tree of named entries can be written so that it is read back |
| ConfTree.ReadPrinted | core/hky_conf_file.c:175-261 | a file read through the refilled buffer gives the entries written in it if and only if everything in it fits the buffer, and otherwise those before the first thing that does not, unless a read or an allocation fails |
| Arena.ServedInsideIff | core/hky_palloc.c:99-104 | every request that a block serves stays inside it if and only if the block ends on a word boundary |
| Arena.FullBlockOverruns | core/hky_palloc.c:99-104 | a full block that ends elsewhere serves every further aligned request, outside its bounds |
| Pool.CreatePool | core/hky_palloc.c:8-30 | a new pool of one new, empty block from the system, or nothing if the system refuses it; the small limit is the smaller of room and page |
| Pool.Pool.PallocSmall | core/hky_palloc.c:91-111 | the piece comes from the first block, from the current one on, with room for it, aligned if asked, or from a new block; the free part starts behind it and no other moves; it fails if and only if no block has room and the system refuses a new one, and then changes nothing; what the system gave to others stays as it was |
| Pool.Pool.FindRoom | core/hky_palloc.c:95-110 | the loop stops at the first block, from the current one on, whose aligned free part is large enough, or at the end |
| Pool.Pool.AgeBlocks | core/hky_palloc.c:135-139 | every block from the current one to the last but one counts one failure more, and the current one moves past exactly those that had more than four |
| Pool.Pool.PallocBlock | core/hky_palloc.c:112-142 | a new block of the size of the first one holds the piece and ends the chain, unless the system refuses it |
| Pool.Pool.ScanIsShort | core/hky_palloc.c:96-110 | at most seven blocks are ever examined; after a reset of a chain of n blocks at most n + 5 or seven |
| Pool.Pool.PallocLarge | core/hky_palloc.c:143-174 | a fresh region goes to the first empty entry among the first five, else to a new entry cut from the pool; it fails if and only if the system refuses the region, or a block for the entry, and then the region is given back |
| Pool.Pool.Palloc | core/hky_palloc.c:175-193 | the aligned and the unaligned call: small pieces from the first block that has room, larger ones from the system; it fails if and only if the system refused; blocks and entries are those of before or new, and what others hold is untouched |
| Pool.Pool.Pmemalign | core/hky_palloc.c:204-224 | a fresh region of the asked alignment in a new entry, unless the system refuses it or a block for the entry; blocks and entries are those of before or new |
| Pool.Pool.Pfree | core/hky_palloc.c:225-240 | exactly the listed buffer goes back to the system, once; asked for nothing it matches an empty entry |
| Pool.Pool.Reset | core/hky_palloc.c:71-90 | every large buffer goes back once, every block is kept and empty, the counters start again |
| Pool.Pool.Destroy | core/hky_palloc.c:31-70 | all that the pool held goes back to the system, each block and buffer once, and nothing else |
| Pool.Run | core/hky_palloc.c:8-240 | a pool's whole life: created, asked for any sequence of aligned, unaligned and specially aligned memory, frees of any address and resets, whatever the system refuses, and destroyed; its regions never overlap and at the end the system holds exactly what it held before; if the system refused nothing, every request was answered with memory |
| Pool.FillAfterReset | core/hky_palloc.c:71-142 | the bound after a reset is reached: after n + 5 requests for all that a block can hold, n + 5 blocks are examined, unless the system refuses a block |
| Pool.Pool.RegionsAreInside | core/hky_palloc.c:91-142 | pieces, headers and buffers lie in regions that are live in the system |
| Pool.Pool.RegionsAreApart | core/hky_palloc.c:91-174 | no two of all pieces, headers and large buffers overlap, in every valid state |
| Pool.Pool.EntriesHavePieces | core/hky_palloc.c:164-171 | each list entry lies in a piece of its own |
| Buffers.ChainUpdateSent | core/hky_buf.c:25-56 | what is left of a chain of memory and file buffers is what there was without its first sent units; passed buffers are used up in memory and in the file, later ones untouched; the returned link is the first that is not special and has something left or is reached with nothing left to consume |
| Output.Put | unix/hky_writev_chain.c:120-130 | joining a neighbour or adding an element, the iovec names its bytes and then those of the buffer |
| Output.OutputChainToIovec | unix/hky_writev_chain.c:80-138 | the iovec names a front part of the chain, no longer than the limit; all of it if neither limit, iovec nor a file stops it; it names nothing if and only if every buffer before a file, the end, or the piece too many for it is empty |
| Output.Writev | unix/hky_writev_chain.c:140-168 | interrupted calls are repeated; what the kernel took is on the wire, or the error is marked |
| Output.ResumeAfterAll | unix/hky_writev_chain.c:64-77 | when all of a chain is sent it has a link to go on from if and only if its last buffer that is not special is empty |
| Output.SendTurn | unix/hky_writev_chain.c:32-77 | one turn: what went out is the front of the chain; a turn that does not fail moves nothing if and only if all that it could gather is empty, and then it leaves the loop stuck unless the chain is at its end |
| Output.TurnsWhileStuck | unix/hky_writev_chain.c:32-77 | from such a state any number of turns leaves chain, wire and counts as they are, until the kernel fails one |
| Output.WritevChain | unix/hky_writev_chain.c:7-78 | whatever the kernel takes: the wire gains the front of the chain, as long as the growth of the sent count and within the limit asked for, or the largest if none or a larger one was asked for; the returned link leads to exactly the rest; it is still ready only if the chain or the limit is done. The loop does not end only where a turn moves nothing. A kernel that takes all gets the whole chain or all that the limit allows; then, on a chain of at most 64 links in memory or special, the loop does not end if and only if the chain is shorter than the limit, and its last buffer that is not special is empty |
| Output.EmptyBufferStalls | unix/hky_writev_chain.c:32-77 | one empty buffer and a kernel that takes all: the loop does not end |
| Output.LimitCutsShort | unix/hky_writev_chain.c:32-40 | of a longer buffer exactly the limit is sent, and the returned link has the rest |
| Output.FlagsEnd | unix/hky_writev_chain.c:64-77 | a last buffer that is there for its flags alone does no harm |
| Output.EmptyBeforeEnds | unix/hky_writev_chain.c:32-77 | an empty buffer before one that holds something does no harm |
| Uri.EscapedIffReserved | core/hky_string.c:1139-1262 | exactly the bytes that each table escapes: control characters and the space, beyond that what has a meaning in the place the text is for; for a component everything but unreserved characters |
| Uri.CountEscapes | core/hky_string.c:1272-1287 | the pass without a destination returns the number of escapes |
| Uri.EscapedLength | core/hky_string.c:1272-1303 | the escaped length is size + 2n |
| Uri.EscapeUri | core/hky_string.c:1289-1302 | the loop writes the escaped text and nothing else |
| Uri.UnescapeUri | core/hky_string.c:1304-1426 | in all modes, into a separate buffer or in place, the loop writes the unescaped text, never more bytes than it was given, and consumes what it should |
| Uri.DigitIffHex | core/hky_string.c:1340-1388 | digits and letters of both cases are hexadecimal digits of their value, nothing else is |
| Uri.PlainReads | core/hky_string.c:1324-1338 | a byte that is not quoted is itself; a question mark ends the text in the modes for URIs and redirects |
| Uri.TripleReads | core/hky_string.c:1340-1420 | a quoted byte in every mode: the byte, the end of the text for a question mark, or unchanged if it is not harmless in a redirect |
| Uri.UriRoundTrip | core/hky_string.c:1304-1426 | in the mode for URIs an escaped text comes back up to and with the question mark behind it, and no more is consumed |
| Uri.RedirectRoundTrip | core/hky_string.c:1304-1426 | in the mode for redirects an escaped text comes back with exactly the bytes still escaped that are not harmless |
| Uri.DecodeAddsNoFront | core/hky_string.c:1225-1262 | decoding a text that was escaped with REFRESH never yields that text with something in front of it |
| Uri.RoundTrip | core/hky_string.c:1139-1426 | unescaping undoes escaping for every type whose table escapes the percent sign |
| Uri.RoundTripExactly | core/hky_string.c:1225-1262 | for every type and text: it does if and only if the type is not REFRESH or the text has no percent sign |
| Uri.PercentSpoils | core/hky_string.c:1225-1262 | with REFRESH any text with a percent sign comes back different |
| Base64.DigitIs | core/hky_string.c:989-1002 | the 64 characters of both alphabets in their order |
| Base64.Parts | core/hky_string.c:906-945 | the four digits of a group are its 24 bits, most significant first |
| Base64.DecodeFailsIff | core/hky_string.c:946-988 | decoding fails exactly if before the padding there is a foreign character or one is left over, and else gives the bytes of what is before it |
| Base64.Vectors | core/hky_string.c:906-945 | the published examples |
| Base64.RoundTrip | core/hky_string.c:906-988 | decoding undoes encoding in both alphabets |
| Base64.EncodedFits | core/hky_string.h:288 | the encoded text fits the length macro, and fills it when padded |
| Base64.DecodedFits | core/hky_string.h:289 | the decoded bytes fit the length macro |
| Base64.EncodeInto | core/hky_string.c:906-945 | the loop writes the encoding and nothing after it |
| Base64.Scan | core/hky_string.c:951-959 | the scan stops at the padding or fails at the first foreign character |
| Base64.DecodeInto | core/hky_string.c:946-988 | it fails exactly on a foreign character before the padding or a length of 4k + 1, and otherwise writes the decoded bytes, also in place |
| Format.NumeralReads | core/hky_string.c:424-472 | the digits of a number read back as the number, in both bases |
| Format.NumeralLength | core/hky_string.c:424-472 | as many digits as needed and no leading zero |
| Format.ScratchSuffices | core/hky_string.c:412-422 | twenty characters are enough for every 64-bit number |
| Format.SignedLength | core/hky_string.c:387-399 | a number takes as many characters as the larger of its width and its digits, and one more if it is negative |
| Format.WidthIsKeptIff | core/hky_string.c:387-399 | the sign is counted in the width if and only if there is none or the digits fill the width anyway |
| Format.WidthIsExceeded | core/hky_string.c:387-399 | `%5d` of -3 is the minus sign, four blanks and the digit |
| Conversions.NumberPrints | core/hky_string.c:107-409 | for all whole-number conversions, widths, zero padding and the flags for unsigned and hexadecimal: the sign, the padding and the digits of the number that the argument stands for in its type |
| Conversions.TwoPlaces | core/hky_string.c:107-117 | `%02d` of 7 is 07 |
| Conversions.MillisecondsPrint | core/hky_string.c:219-228 | times in milliseconds are unsigned, except that the largest is -1 |
| Conversions.PointerPrints | core/hky_string.c:343-349 | a pointer is sixteen upper-case hexadecimal digits |
| Conversions.CountedPrints | core/hky_string.c:169-185 | counted strings are printed whole |
| Conversions.TerminatedPrints | core/hky_string.c:187-193 | other strings up to their terminator |
| Conversions.PartPrints | core/hky_string.c:154-202 | or as much as an argument in front says |
| Conversions.CharacterPrints | core/hky_string.c:351-385 | a character, a percent sign, a zero byte and a line feed |
| Printf.FillDigits | core/hky_string.c:422-472 | the loop that fills the scratch area from its end stays inside it and leaves the digits |
| Printf.SprintfNum | core/hky_string.c:410-491 | padding and digits, as far as there is room |
| Printf.Vslprintf | core/hky_string.c:82-409 | for every format and arguments without %f: the buffer gets the front of the whole output, as much as fits, and nothing is written elsewhere |
| Printf.TruncationIsPrefix | core/hky_string.c:48-80 | of the same output a shorter buffer holds the front of what a longer one holds |
| Inet6.FindGap | core/hky_inet.c:117-138 | the leftmost of the longest runs of zero groups is found, and never a single group |
| Inet6.PrintGroups | core/hky_inet.c:149-160 | the second loop prints the groups around the gap |
| Inet6.Ntop | core/hky_inet.c:108-165 | the whole text, dotted or not; nothing if the buffer is too short |
| Inet6.TextFits | core/hky_inet.h:9-10 | the length the printer asks for is enough for every address |
| Inet6.ReadInetAddr | core/hky_inet.c:168-199 | the loop reads four octets below 256, or yields the value that stands for none |
| Inet6.Addr | core/hky_inet.c:11-107 | the loop, the dotted quad, the last group and the shifting of the bytes behind the gap compute the address that the scanner over the text defines, and fail when it does |
| Inet6.RoundTrip | core/hky_inet.c:11-165 | for every address: parsing its text gives the address, or, if the text has a dotted quad, the address with the two octets before the last two negated; the text that ends in 255.255.255.255 is refused |
| Inet6.RoundTripExactly | core/hky_inet.c:55-69 | the address comes back if and only if its text has no dotted quad or the first two octets of the quad are 0 or 128 |
| Inet6.QuadIsNotKept | core/hky_inet.c:65-66 | `::1.2.3.4` comes back as `::255.254.3.4` |
| Inet6.QuadIsKept | core/hky_inet.c:65-66 | `::0.0.5.7` comes back as it was |
| Inet6.BytesRoundTrip | core/hky_inet.c:11-165 | the same on the sixteen bytes |
| Inet6.PrintAndParse | core/hky_inet.c:11-165 | the printer and then the parser, run on buffers: the sixteen bytes come back if and only if no dotted quad was printed or bytes 12 and 13 are 0 or 128; the outcome in every other case |
| Inet6Forms.PlainForm | core/hky_inet.c:11-107 | eight groups of one to four hexadecimal digits of either case, leading zeros included, are the address of their values; fewer are refused |
| Inet6Forms.TooManyGroups | core/hky_inet.c:11-107 | so are more |
| Inet6Forms.GapForm | core/hky_inet.c:11-107 | a double colon stands for the missing groups, at least one |
| Inet6Forms.SecondGap | core/hky_inet.c:11-107 | a second double colon is refused, whatever follows it |
| Inet6Forms.BadCharacter | core/hky_inet.c:11-107 | so is a fifth digit or any other character in a group |
| Inet6Forms.HexForm | core/hky_inet.c:149-160 | a group is printed in lower-case digits without leading zeros |
| Inet6Forms.MappedForm | core/hky_inet.c:139-164 | a mapped IPv4 address is printed as ::ffff: and its four octets in decimal |
| Inet6Forms.CompatibleForm | core/hky_inet.c:139-164 | when six zero groups are followed by a dotted quad, and when by a group |
| Calendar.GmTimeIsRight | core/hky_times.c:144-192 | after clamping, the date is valid, its day number is the one converted, the weekday is the one counted from Thursday 1 January 1970, and the time of day is the remainder |
| Calendar.OutsideRange | core/hky_times.c:147-156 | times before 1970 and after 9999 are moved to the ends, all others are converted as they are |
| Calendar.GmTimeIsMonotone | core/hky_times.c:144-192 | a later time never has an earlier date or, on the same date, an earlier time of day |
| Calendar.MarchYearIsRight | core/hky_times.c:164-172 | the rational estimate with its correction yields the year and the day of the year |
| Calendar.MonthOfDay | core/hky_times.c:174-176 | the month and day formulas agree with the month lengths |
| TimeSlots.MutualExclusion | unix/hky_atomic.h:300-301 | in every reachable state at most one thread is between trylock and unlock |
| TimeSlots.NoWriteIsPublished | core/hky_times.c:77-131 | no store goes to the slot that a published string pointer refers to |
| TimeSlots.NewestIsPublished | core/hky_times.c:131-136 | while no thread is updating, all pointers refer to the newest slot |
| TimeSlots.UpdateEnds | core/hky_times.c:60-139 | an update that read a second leaves it in the newest slot, the next one if the second is new, with all pointers there |
| TimeSlots.UpdateRuns | core/hky_times.c:60-139 | with the lock free an update can always run to its end and publish any strings for a new second |
| TimeSlots.ReaderIsSafe | core/hky_times.c:77-139 | a string obtained in any state stays the same through the next 63 advances, 62 if an update in progress has yet to move that pointer |
| TimeSlots.OneMoreMayOverwrite | core/hky_times.c:77-139 | one advance more and some run overwrites it, so the bound is exact |
| Queue.Queue.Remove | core/hky_queue.h:59-61 | the ring without that link, everything else in place |
| Queue.Queue.InsertAfter | core/hky_queue.h:21-27 | the ring with the link behind the given one |
| Queue.Queue.FindSlot | core/hky_queue.c:43-49 | walking back stops behind the last link that is not greater |
| Queue.Queue.Sort | core/hky_queue.c:31-56 | relinking in place leaves a well-formed ring, the insertion sort of the old one |
| Queue.Queue.Middle | core/hky_queue.c:5-30 | the link at index n / 2, or the sentinel of an empty ring |
| QueueOrder.SortPermutes | core/hky_queue.c:31-56 | the same links, for any comparison function |
| QueueOrder.SortIsStable | core/hky_queue.c:31-56 | for a total preorder: ascending, and ties keep their order |

## Left out

- core/hky_rbtree.c: the three insertion callbacks differ in one comparison only and are modelled as
  one method with that comparison as a parameter; the fixup loops are split into a method per case.
- Timers: the clock is a field that callers set; debug-only clearing of links in `hky_del_timer`.
- core/hky_conf_file.c: log messages, the dump buffer (taken to be absent), the command tables of
  `hky_conf_handler`, custom handlers, and included files.
- ConfTree.Parse: a directive that a command table would reject is accepted; a block directive parses
  its block, as the modules' block directives do.
- core/hky_palloc.c: cleanup handlers, the zeroing of `hky_pcalloc`, debug builds that send every
  request to the system; pool sizes below the header or off the word boundary. `hky_alloc` as written
  assigns NULL; the model's system allocator may fail at any call instead.
- Pool.Pool.PallocLarge: regions are whole numbers of bytes at 64-bit addresses; contents are not modelled.
- unix/hky_writev_chain.c: the kqueue end-of-file branch, logging, and negative limits; an endless
  repetition of a turn that moves nothing is the outcome Stalled.
- Buffers.ChainUpdateSent: buffers are well formed, with pos not behind last and no file range without a file.
- Output.WritevChain: interruptions of a system call are finite in number; buffers of one chain are distinct objects.
- Printf.Vslprintf: `%f` is not modelled, nor what the program leaves undefined: formats that end
  inside a directive, and arguments that do not fit the format.
- core/hky_string.c: overflow of a field width; `hky_sort`, which returns before it sorts; UTF-8, case folding, CRC.
- Printf.FillDigits: stands for the four digit loops, which differ in base and digit table only.
- core/hky_inet.c: the byte order of the machine, which is undone before the octets are used; URL
  parsing, name resolution.
- core/hky_times.c: what the five strings say; the stores into them are arbitrary. Time zones.
- TimeSlots: compare-and-set is atomic and memory is sequentially consistent; the build without atomics is not modelled.
- core/hky_queue.h: split and add; add updates the wrong link, so the two are not inverse.
- Sockets, files, shared memory, processes, logs, the slab allocator, lists and arrays.
