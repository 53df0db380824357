# Verified models of a game engine's core

Dafny models of the hardest algorithms in the `Shared` directory of a Quake III engine, with proofs.
`dafny verify dfyconfig.toml` checks all of them.

- **Adaptive Huffman coding** (`HuffmanTree`, `HuffmanList`, `HuffmanCoder`, `HuffmanCode`, `HuffmanCodec`,
  `HuffmanSiblings`, `HuffmanOptimal`). The coder keeps a tree, a doubly linked list in rank order and shared cells
  that name the leader of each block of equal weight, and updates all of them in place. `Huff` is that code; it refines
  an abstract tree, of which the invariants are proved, and both ends of a transmission stay in step. Gallager's theorem
  is proved, and with it that the tree is an optimal code for all that has been sent.
- **Messages** (`MsgCode`, `MsgStream`, `MsgDelta`, `MsgEntity`, `MsgUsercmd`, `MsgHuffman`). Raw bits mixed with
  Huffman-coded bytes; deltas of entities and of keyed user commands, alone and in chains.
- **The QVM interpreter** (`QvmMachine`, `QvmLoader`, `QvmInterpreter`, `QvmMeaning`, `QvmExpressions`). The loader
  expands byte code into words and translates branch targets; the interpreter caches the two topmost cells. `QvmMachine`
  says what each instruction does, counting instructions and taking all operands from the stack; `QvmMeaning` has the
  laws of arithmetic and memory that this obeys, and `QvmExpressions` compiles expressions and proves what running the
  code returns.
- **Inflate** (`PuffCode`, `PuffInflate`, `PuffProperties`, `Puff`, `PuffDeflate`, `PuffStream`, `PuffErrors`,
  `PuffPrefix`). Canonical codes and blocks of RFC 1951 on a sequence of bits, and the byte-wise program that refines
  them. `PuffDeflate` and `PuffStream` are the writer's side: how tokens, tables and blocks are written, and that inflating
  gives back what they stand for; `PuffErrors` and `PuffPrefix` say which streams are refused, and how.
- **Box traces** (`TraceGeometry`, `TraceBrush`, `TraceTree`, `Trace`), over the reals: a box that is swept through a
  tree of planes and clipped against convex brushes.
- **Curved patches** (`PatchCurve`, `PatchColumns`, `Patch`), over the reals: subdividing, thinning and transposing a
  grid of control points in place.
- **The network channel** (`NetProtocol`, `Netchan`, `NetLine`). The protocol as steps of two ends and a network that
  loses, repeats and reorders; the channel's buffers, counters and packets as bytes refine it, and two channels with
  the datagrams between them keep its invariant.
- **The zone allocator** (`ZoneBlocks`, `Zone`). Blocks that tile a zone, and the linked headers, rover and trash
  markers that represent them.
- **Console variables** (`CvarNames`, `CvarState`, `Cvars`). A doubly linked list and 256 doubly linked hash chains
  over the same slots.
- **Pure pak order** (`PakOrder`). A search path that is reordered by splicing through pointers to pointers.

`Words`, `BitStream`, `Arithmetic` and `Options` hold what several of them need: 32-bit ints, bits in byte buffers, products
and powers, optional values.

Where the code does not do what one would expect, the model does as the code does and a lemma or contract says exactly
when: `PuffProperties.UndefinedIsEmptyCode` (a code for lengths with no codes), `MsgDelta.ReceivedIsSame` (a float -0),
`MsgUsercmd.TimeReadsBack` (time that goes backwards), `CvarState.ForcedTakesEffect` (forcing a latched value),
`HuffmanTree.SwapSubtreesKeepsLinks` (swapping a left sibling with its right one, which changes nothing),
`PatchColumns.RoomIsNeeded` (a grid that grows beyond its array), `QvmMeaning.CountOfCopy` (a block copy is cut at the end
of the memory for its destination only), and `Zone.MemZone.FreeTags`: given the tag of static
blocks while there is one, its loop never ends, since `Z_Free` leaves such a block and the rover where they are; given
tag 0, the tag of free blocks, it stops with an error at the first of them.

## Model

| member | source | states |
|---|---|---|
| HuffmanTree.RaiseKeepsInvariant | Shared/huffman.c:158-194 | one round of `increment` (take the lead of the block, gain a unit) keeps the whole tree invariant with the parent as the node that is due next: one full binary tree, weights that are the sums of the children's, a list of exactly the nodes in non-decreasing weight with NYT first, siblings next to each other, children below parents |
| HuffmanTree.RaisePassesOn | Shared/huffman.c:158-194 | the parent of a raised node is pending in its turn and ranks strictly higher, flipped bottom pair included, so `increment` ends |
| HuffmanTree.LeaderChildrenAreLower | Shared/huffman.c:165-171 | a leader that is not the node's own parent has no child in the node's block |
| HuffmanTree.LeaderIsUnrelated | Shared/huffman.c:95-123 | `swap` never gets a node and one of its ancestors |
| HuffmanTree.ExchangeKeepsAscending | Shared/huffman.c:95-155 | exchanging a node with an unrelated leader, in the tree and in the list, keeps every child below its parent |
| HuffmanTree.SwapSubtreesKeepsLinks | Shared/huffman.c:95-123 | after `swap` of two nodes of equal weight parents and children still name each other and weights are the sums of the children's; of two siblings, the left one first, the assignments cancel out |
| HuffmanTree.SplitKeepsInvariant | Shared/huffman.c:196-263 | splitting NYT for a new byte keeps the tree invariant, with the old parent of NYT due next |
| HuffmanTree.ReachableIsSmall | Shared/huffman.c:78-87 | no run uses more than 513 of the 768 nodes |
| HuffmanTree.AddRef | Shared/huffman.c:196-263 | one more byte leads from a reachable tree to a reachable tree |
| HuffmanTree.Run | Shared/huffman.c:196-263 | after any history the tree is reachable and every byte's leaf weighs as much as the byte has occurred |
| HuffmanList.SameCell | Shared/huffman.c:158-263 | two nodes share a block cell exactly if they weigh the same |
| HuffmanList.CellNamesLeader | Shared/huffman.c:158-263 | the cell of a node names the last node of its weight in the list |
| HuffmanList.LeaveBlock | Shared/huffman.c:172-177 | when a node leaves its block the node below it becomes the one its cell names |
| HuffmanList.JoinBlock | Shared/huffman.c:178-184 | a node that gains a unit shares the cell of the block above it, if there is one of that weight |
| HuffmanList.RoomForCell | Shared/huffman.c:78-92 | a new cell is taken only while fewer than 768 are in use, given the free list |
| HuffmanCoder.Huff.GetCell | Shared/huffman.c:78-87 | a cell comes from the free list or from the unused ones and was not live |
| HuffmanCoder.Huff.FreeCell | Shared/huffman.c:89-92 | a freed cell heads the free list |
| HuffmanCoder.Huff.Swap | Shared/huffman.c:95-123 | the assignments exchange the two subtrees |
| HuffmanCoder.Huff.SwapList | Shared/huffman.c:126-155 | the assignments exchange the two ranks, neighbours included |
| HuffmanCoder.Huff.Increment | Shared/huffman.c:158-194 | the recursion in place refines raising a node and all its ancestors, and keeps list, cells and free list right |
| HuffmanCoder.Huff.AddRef | Shared/huffman.c:196-263 | the pointer code refines `HuffmanTree.AddRef` and keeps its representation invariant |
| HuffmanCode.PrefixFree | Shared/huffman.c:266-312 | no code of a leaf starts another one's |
| HuffmanCode.RoundTrip | Shared/huffman.c:266-326 | decoding an encoded message with the tree evolving on both sides restores it, whatever follows it in the stream |
| HuffmanCodec.Send | Shared/huffman.c:301-312 | the recursive `send` appends exactly the path from the root |
| HuffmanCodec.TransmitSymbol | Shared/huffman.c:315-326 | `Huff_transmit` appends the code of a byte, or of NYT and the byte's eight bits |
| HuffmanCodec.ReceiveSymbol | Shared/huffman.c:266-279 | `Huff_Receive` walks to the leaf that the bits lead to |
| HuffmanCodec.Compress | Shared/huffman.c:388-425 | the compressed form is the two length bytes and the code of the message, and what stands before the offset is kept |
| HuffmanCodec.Decompress | Shared/huffman.c:334-384 | the buffer holds the decoded message behind the offset and is otherwise unchanged |
| HuffmanCodec.CompressThenDecompress | Shared/huffman.c:334-425 | compressing and decompressing restores every message of 1 to 65535 bytes whose compressed form fits, and its size |
| HuffmanCodec.CompressedIs | Shared/huffman.c:388-425 | the first two bytes of the compressed form are the length, the high one first, and bit k of the code is bit k % 8 of byte 2 + k / 8 |
| HuffmanSiblings.SiblingsAreOptimal | Shared/huffman.c:23-25 | a binary tree whose nodes can be listed by weight in pairs of siblings (Gallager's property) costs no more than any other code word lengths for its leaves that satisfy Kraft's inequality |
| HuffmanOptimal.PrefixFreeFits | Shared/huffman.c:266-312 | the code words of any prefix-free code satisfy Kraft's inequality |
| HuffmanOptimal.TreeHasSiblings | Shared/huffman.c:158-263 | every tree that coding leads to has Gallager's property |
| HuffmanOptimal.TreeIsPrefixFree | Shared/huffman.c:266-312 | the code of the tree after any history is prefix free on the bytes that have occurred and the escape |
| HuffmanOptimal.TreeIsOptimal | Shared/huffman.c:158-312 | after any history no prefix-free code for its bytes and an escape spells this history in fewer bits than the code of the tree |
| HuffmanOptimal.EncodeGrows | Shared/huffman.c:414-418 | each byte of a message is sent with the tree that all bytes before it have led to |
| HuffmanOptimal.FirstIsPlain | Shared/huffman.c:315-326 | the first byte is sent as its eight bits, the highest first |
| HuffmanOptimal.SecondIsShort | Shared/huffman.c:196-326 | after one byte, its repetition is the single bit 1, and a new byte is a 0 and its eight bits |
| MsgCode.ReadsAsWritten | Shared/msg.c:107-245 | a value is read as it was written exactly if it fits its width |
| MsgCode.FieldReadsBack | Shared/msg.c:107-245 | a field of raw bits and Huffman bytes is read back and ends right behind itself |
| MsgCode.StreamReadsBack | Shared/msg.c:107-245 | any sequence of values of any legal widths is read back value for value, and nothing behind it is touched |
| MsgCode.OddBitsAre | Shared/msg.c:163-171 | the low bits of a width that is no multiple of 8 stand in front as they are, bit k at place k |
| MsgCode.FieldGrows | Shared/msg.c:172-178 | eight bits more of width put the code of the next higher byte behind the field |
| MsgStream.Msg.BeginReading | Shared/msg.c:74-78 | all that was written is there to be read |
| MsgStream.Msg.WriteBits | Shared/msg.c:107-182 | exactly the field of the masked value is appended, at any bit position; the message overflows exactly if less than four bytes were left |
| MsgStream.Msg.ReadBits | Shared/msg.c:184-245 | the value that the next bits spell is returned and exactly these bits are consumed |
| MsgStream.WriteThenRead | Shared/msg.c:107-245 | what is written to a cleared message and does not overflow it is read back, value for value |
| MsgDelta.ReceivedIsSame | Shared/msg.c:909-1130 | a word survives the trip exactly if it is no float -0 and, as an integer, fits its field |
| MsgDelta.UpdatedIsSame | Shared/msg.c:909-1130 | a receiver that holds what the sender had gets what the sender has exactly if every changed word is no float -0 or fits its field |
| MsgDelta.MirroredIsSame | Shared/msg.c:909-1130 | over a whole chain the receiver's states are the sender's exactly if all of their words are such |
| MsgDelta.EntityReadsBack | Shared/msg.c:909-1130 | nothing is sent exactly if nothing changed and nothing is forced; otherwise the reader gets the number, and what it holds with the changed fields replaced |
| MsgDelta.ChainReadsBack | Shared/msg.c:909-1130 | over a whole chain of deltas the receiver mirrors the sender's states |
| MsgDelta.SmallIntIs | Shared/msg.c:893-896 | a float is sent in 13 bits exactly if it is a whole number other than 0 from -4096 to 4095, given as sign, exponent and mantissa |
| MsgDelta.RemovalReadsBack | Shared/msg.c:921-927 | what is written for a null `to` is read, whatever is held and whatever follows, as an entity with number 1023 and all words 0, ends right behind itself, and gives back the number exactly if it is one of 1024 |
| MsgDelta.UpdateIsNoRemoval | Shared/msg.c:1047-1054 | an update is read as an entity with number 1023 exactly if that is its own number |
| MsgEntity.FindLastChange | Shared/msg.c:940-948 | the loop finds the last field that differs |
| MsgEntity.WriteDeltaEntity | Shared/msg.c:909-1012 | exactly the entity's delta is appended; a bad number is refused |
| MsgEntity.ReadDeltaEntity | Shared/msg.c:1026-1140 | the entity that the stream spells is stored, a removal (`RemovalReadsBack`) included, or the number or the field count is refused |
| MsgEntity.SendEntity | Shared/msg.c:909-1140 | writing, rewinding and reading: what the sender has changed is changed at the receiver; if both held the same, the entity is rebuilt exactly if every changed word is no float -0 or fits its field |
| MsgEntity.SendRemoval | Shared/msg.c:921-1054 | writing for a null `to`, rewinding and reading: the number arrives and the receiver's state becomes number 1023 with all words 0 |
| MsgUsercmd.TimeReadsBack | Shared/msg.c:718-782 | the server time arrives exactly if it has not gone backwards |
| MsgUsercmd.CmdReadsBack | Shared/msg.c:718-782 | a receiver that agrees with the sender agrees on the next command exactly if time has not gone backwards |
| MsgUsercmd.CmdsReadBack | Shared/msg.c:718-782 | over a whole chain of commands with non-decreasing time the receiver agrees at every step: time, moves and weapon equal, angles and buttons modulo 2^16 |
| MsgUsercmd.OtherKeyReads | Shared/msg.c:612-627 | a changed field that is read under another key has the value that was sent exactly if the keys agree in the bits of the field |
| MsgUsercmd.WriteDeltaUsercmdKey | Shared/msg.c:718-748 | exactly the command's keyed delta is appended |
| MsgUsercmd.ReadDeltaUsercmdKey | Shared/msg.c:756-782 | the command that the stream spells is stored |
| MsgUsercmd.SendCommand | Shared/msg.c:718-782 | writing, rewinding and reading: the receiver agrees on the new command |
| MsgHuffman.TrainedIsComplete | Shared/msg.c:1889-1900 | after training every byte value has a code and weighs what the table of frequencies says |
| MsgHuffman.InitHuffman | Shared/msg.c:1889-1900 | compressor and decompressor end up with the same complete tree |
| QvmLoader.Vm.PrepareInterpreter | Shared/vm_interpreted.c:170-289 | for every well-formed byte code the words and the table of pointers are those of its instructions, branch targets translated |
| QvmLoader.Vm.Expand | Shared/vm_interpreted.c:183-238 | the first pass stores each instruction and its operand at its pointer |
| QvmLoader.TableIncreases | Shared/vm_interpreted.c:183-191 | the table of instruction pointers is strictly increasing and inside the code |
| QvmMachine.PointersDiffer | Shared/vm_interpreted.c:170-289 | different instructions have different pointers, so a saved return address maps back uniquely |
| QvmInterpreter.Interpreter.BranchOp | Shared/vm_interpreted.c:628-792 | a branch does on words and cached cells what the machine does on instructions |
| QvmInterpreter.Interpreter.CallOp | Shared/vm_interpreted.c:491-556 | a call saves the pointer behind it, or runs a system call on the memory |
| QvmInterpreter.Interpreter.ControlOp | Shared/vm_interpreted.c:566-626 | entering, leaving and jumping do what the machine does, also when the outermost function returns |
| QvmInterpreter.Interpreter.CopyOp | Shared/vm_interpreted.c:470-489 | a block copy moves the bytes between two masked areas that do not overlap |
| QvmInterpreter.Interpreter.Execute | Shared/vm_interpreted.c:381-908 | one step of the interpreter is one step of the machine; r0 and r1 equal the two topmost cells wherever they are used |
| QvmInterpreter.Interpreter.Loop | Shared/vm_interpreted.c:381-908 | any number of steps of the interpreter is as many of the machine |
| QvmInterpreter.Interpreter.Call | Shared/vm_interpreted.c:317-375 | a call from outside starts the machine with the arguments in its frame, and returns what it returns |
| QvmInterpreter.ReturnsBehindCall | Shared/vm_interpreted.c:491-611 | a function that leaves with its caller's frame on top returns to the instruction behind the call |
| QvmInterpreter.LoadAndCall | Shared/vm_interpreted.c:170-908 | loading byte code and calling it returns what the machine returns on the instructions encoded, and leaves the same memory |
| QvmMeaning.SumsAreModular | Shared/vm_interpreted.c:797-831 | sums, differences, products and negations are the integers' modulo 2^32 |
| QvmMeaning.DivisionTruncates | Shared/vm_interpreted.c:808-819 | signed division: a == q * b + r with |r| < |b| and r having the sign of a |
| QvmMeaning.UnsignedDivision | Shared/vm_interpreted.c:812-823 | unsigned division: a == q * b + r with 0 <= r < b |
| QvmMeaning.BitsAreCombined | Shared/vm_interpreted.c:833-848 | and, or, exclusive or and complement hold bit by bit |
| QvmMeaning.ShiftsScale | Shared/vm_interpreted.c:849-860 | shifts multiply by 2^b modulo 2^32, or divide by it and round down, with sign or without |
| QvmMeaning.SignIsRepeated | Shared/vm_interpreted.c:888-893 | sign extension keeps the low bits and repeats the highest of them |
| QvmMeaning.ComparisonsAgree | Shared/vm_interpreted.c:628-727 | of less, equal and greater exactly one holds, the other comparisons are their negations, and unsigned ones differ from signed ones exactly if the signs do |
| QvmMeaning.MaskedIsBits | Shared/vm_interpreted.c:435-465 | the place used for an address has the address's bits below the size of the memory and 0 in the bits that align |
| QvmMeaning.LowByteFirst | Shared/vm_interpreted.c:435-460 | the bytes of a word are its digits to base 256, the lowest first |
| QvmMeaning.StoredIsLoaded | Shared/vm_interpreted.c:435-461 | what a store leaves is what a load of the same size finds, cut to the size, and all other bytes stay |
| QvmMeaning.CountOfCopy | Shared/vm_interpreted.c:474-480 | the count of a block copy stays as it is exactly if the destination ends before the end of the memory |
| QvmMeaning.SourceIsNotCut | Shared/vm_interpreted.c:477-481 | a copy whose source reaches behind the end of the memory and whose count is not cut |
| QvmMeaning.CopyMoves | Shared/vm_interpreted.c:470-489 | a block copy that is defined puts the bytes of the source, one for one, at the destination, and all other bytes stay |
| QvmExpressions.BytesOfInstr | Shared/vm_local.h:33-118 | which opcodes have an operand, and that it takes four bytes, or one for OP_ARG |
| QvmExpressions.Evaluates | Shared/vm_interpreted.c:381-908 | the code of any expression (constants, locals, loads, all integer operators and choices made by branches) pushes the expression's value |
| QvmExpressions.ArgumentIs | Shared/vm_interpreted.c:347-370 | the i-th argument of a call from outside is what the function called finds above its frame |
| QvmExpressions.ArgumentArrives | Shared/vm_interpreted.c:463-611 | an argument stored by OP_ARG is what the function called finds, under the saved return address |
| QvmExpressions.ArgIsPut | Shared/vm_interpreted.c:463-468 | OP_ARG stores the topmost cell that far above the frame |
| QvmExpressions.SystemCall | Shared/vm_interpreted.c:491-546 | calling -1 - k is system call k: the host finds k above the saved word, its answer is on the stack, and execution goes on behind the call |
| QvmExpressions.CallFunction | Shared/vm_interpreted.c:170-908 | loading the byte code of a function that returns an expression and calling it returns the expression's value, computed on integers |
| PuffCode.LeftIsKraft | Shared/puff.c:310-315 | `left` is 2^len minus the sum over all symbols of 2^(len - length) |
| PuffCode.ConstructReturns | Shared/puff.c:294-332 | `construct` fails exactly on over-subscribed lengths, and otherwise returns 2^15 minus the sum of 2^(15 - length) |
| PuffCode.DecodesCode | Shared/puff.c:221-260 | `decode` gives a symbol exactly if the next bits are its canonical code (section 3.2.2 of RFC 1951), and consumes exactly that |
| PuffCode.CodesArePrefixFree | Shared/puff.c:221-332 | no canonical code starts another one |
| PuffCode.CompleteCodes | Shared/puff.c:221-332 | decoding can end without a symbol exactly if codes are left over |
| PuffInflate.CopyRepeats | Shared/puff.c:389-451 | each copied byte is the one `dist` before it, also where the copy overlaps itself |
| PuffDeflate.SymbolsReach | Shared/puff.c:396-411 | every length from 3 to 258 and every distance from 1 to 32768 has a symbol and extra bits, by the formulas of section 3.2.5 of RFC 1951 |
| PuffDeflate.PairIsRead | Shared/puff.c:417-441 | a length and a distance, written as codes and extra bits, are read as exactly these; a distance behind the start of the output is refused, no other |
| PuffDeflate.CopiedIs | Shared/puff.c:436-446 | copying byte by byte appends, for each k below the length, the byte that is the distance before it |
| PuffDeflate.TokensAreRead | Shared/puff.c:389-451 | any list of literals and copies, written with any usable codes and the end code, is read as the bytes it stands for, or ends for lack of space |
| PuffDeflate.StoredIsRead | Shared/puff.c:153-184 | a stored block of any bytes gives these bytes, or ends for lack of space |
| PuffDeflate.FixedCodes | Shared/puff.c:477-512 | the fixed codes are those that section 3.2.6 of RFC 1951 lists |
| PuffStream.ItemsAreRead | Shared/puff.c:631-656 | code lengths written as numbers, repetitions and runs of zeros are read as written |
| PuffStream.HeaderIsRead | Shared/puff.c:601-670 | a description of two codes, in the order of section 3.2.7 of RFC 1951, is read as these codes |
| PuffStream.BlockIsRead | Shared/puff.c:742-752 | a block of any of the three types is read as the bytes it stands for and ends right behind itself |
| PuffStream.StreamIsRead | Shared/puff.c:715-758 | blocks are joined, up to the one whose first bit says that it is the last |
| PuffStream.AnyDataFits | Shared/puff.c:715-758 | every string of bytes is what some stream of blocks stands for |
| PuffStream.Reinflate | Shared/puff.c:715-758 | puff gives back the bytes that any stream of blocks stands for, with their number and the number of input bytes used; with less space it returns 1 |
| PuffErrors.TypeThreeIsRefused | Shared/puff.c:742-752 | block type 3 gives -1 |
| PuffErrors.StoredIsRefused | Shared/puff.c:153-184 | a stored block is refused, with -2, exactly if some bit of its length is not the opposite in the complement |
| PuffErrors.TooManyCodes | Shared/puff.c:614-619 | more than 286 codes for literals and lengths or 30 for distances give -3 |
| PuffErrors.LengthCodeIsRefused | Shared/puff.c:621-629 | a code for lengths whose sum of 2^(15 - length) is not 2^15 gives -4 |
| PuffErrors.RepeatIsRefused | Shared/puff.c:641-646 | repeating the length before the first one gives -5 |
| PuffErrors.RepeatsAreRefused | Shared/puff.c:641-655 | repeating more lengths than are left to give gives -6 |
| PuffErrors.UsableIs | Shared/puff.c:658-666 | a code is accepted for data exactly if it has no codes, is complete, or has just one symbol |
| PuffErrors.TablesAreRefused | Shared/puff.c:658-666 | a description of a code for literals and lengths that may not be used gives -7, of one for distances -8 |
| PuffErrors.LengthIsRefused | Shared/puff.c:423-427 | the two symbols above 285 of the fixed codes give -9 |
| PuffErrors.TooFarIsRefused | Shared/puff.c:429-434 | a copy from before the start of the output gives -10 |
| PuffPrefix.InflateGoesOn | Shared/puff.c:715-758 | with more input inflating ends as before, unless it has run out of input |
| PuffPrefix.CutIsRefused | Shared/puff.c:715-758 | a stream of blocks that is cut off anywhere gives 2 |
| PuffProperties.CheckedCodeIsComplete | Shared/puff.c:601-670 | a non-empty code for lengths that passes the check never gives -9 |
| PuffProperties.LengthsAreDefined | Shared/puff.c:601-670 | with such a code reading the lengths always ends in one of the program's own ways |
| PuffProperties.UndefinedIsEmptyCode | Shared/puff.c:601-758 | the outcome is undefined exactly if a dynamic block is reached whose code for lengths has nineteen zero lengths and behind which there is input for every one of its lengths to fail: only then does `construct` index its table with -9 |
| PuffProperties.EmptyCodeExists | Shared/puff.c:601-670 | a block of 4157 bits, almost all zero, in 520 bytes is such a stream |
| PuffProperties.ShortEmptyCode | Shared/puff.c:601-670 | the same block with any smaller number of bits, from 26 on, runs out of input: the result is 2 |
| PuffProperties.OnlyConsumedInputMatters | Shared/puff.c:715-758 | if inflating succeeds having consumed n bytes, any input with the same first n bytes gives the same output and lengths |
| PuffProperties.InflateInSpace | Shared/puff.c:715-758 | writing ends as scanning does if the output fits, and otherwise runs out of space |
| Puff.Huffman.Construct | Shared/puff.c:294-332 | the tables in place are the counts and the symbols sorted by length, stable within a length |
| Puff.State.Take | Shared/puff.c:116-134 | the bits taken are the next ones of the input, low bit first, or the input has run out |
| Puff.State.Decode | Shared/puff.c:221-260 | the byte-wise loop over `bitbuf` and `left` refines decoding one bit at a time |
| Puff.State.StoredBlock | Shared/puff.c:153-184 | a stored block is copied, or its length contradicts its complement, or input or space runs out |
| Puff.State.CodesBlock | Shared/puff.c:389-451 | literals and copies are written as the codes say, up to the end code or an error |
| Puff.State.FixedBlock | Shared/puff.c:477-512 | a fixed block is one with the lengths of section 3.2.6 of RFC 1951 |
| Puff.State.TakeLengths | Shared/puff.c:631-656 | the loop stores the lengths that the bits spell or ends with the error; with no codes for lengths it stores a -9 for every length if there is input for each to fail, and returns 2 if not |
| Puff.State.TakeBoth | Shared/puff.c:608-656 | for every input the lengths of both codes are read or the error is returned; where reading is undefined, it goes on with all lengths -9 |
| Puff.State.DynamicBlock | Shared/puff.c:601-670 | a dynamic block reads its two codes and inflates by them, or fails with the program's error code; only blocks whose lengths are -9 are excluded |
| Puff.Puff | Shared/puff.c:715-758 | return code, lengths and written bytes are those of inflating the bits of the input, for writing and for scanning, unless a length is -9 |
| TraceGeometry.CornerIsLeast | Shared/cm_trace.c:1201-1232 | the offset for a plane's sign bits is a corner of the box and the point of the box that is least in front of the plane |
| TraceGeometry.InFrontIsLeast | Shared/cm_trace.c:587-591 | the distance used for a side is the least of the box's points |
| TraceBrush.EnterTimeIs | Shared/cm_trace.c:611-620 | up to the time of entering the box is strictly in front of the side, and from then on at most the epsilon |
| TraceBrush.ClippedIsClear | Shared/cm_trace.c:577-658 | if the clipped interval is empty or starts later, the box is never behind all sides by more than the epsilon until then |
| TraceBrush.ClippedIsHit | Shared/cm_trace.c:577-658 | at a hit the side entered last exists, the box has been in front of it and stops exactly 0.125 in front, and it is near all sides |
| TraceBrush.ContainsIsInside | Shared/cm_trace.c:587-638 | a box with a point in a brush at the start does not start outside of it |
| TraceTree.SplitCovers | Shared/cm_trace.c:1072-1131 | wherever the box reaches a side of a plane, the part of the segment for that side's child is walked |
| TraceTree.TouchesSomething | Shared/cm_trace.c:1029-1131 | the box touches some leaf wherever it is |
| TraceTree.PointIsTouched | Shared/cm_trace.c:1029-1131 | a leaf in which a point of the box lies, by the sides of all planes on the way to it, is touched |
| TraceTree.ReachIsEnough | Shared/cm_trace.c:1056-1070 | the offset of a node is enough: a box with a point in front of a plane reaches its front, one with a point behind it by more than the epsilon its back |
| Trace.Work.TraceThroughBrush | Shared/cm_trace.c:482-658 | for a start outside: no hit means clear of the brush up to the fraction, a hit is recorded with a side that the box has been in front of and stops 0.125 in front of; `startsolid` and `allsolid` become true exactly if the box starts, or starts and ends, not outside of it |
| Trace.Work.TraceThroughLeaf | Shared/cm_trace.c:665-722 | every brush of the leaf has been passed or was passed already, each brush once, and `startsolid` and `allsolid` still say exactly whether a brush passed holds the start, or start and end |
| Trace.Work.TraceThroughTree | Shared/cm_trace.c:1029-1131 | every leaf that the box touches on the segment before the final fraction is visited; pruning loses none |
| Trace.Trace | Shared/cm_trace.c:1142-1353 | wherever the box is before the final fraction, every matching brush in every leaf that it touches, or in which a point of it lies if the box is no larger than the code assumes, has been passed; `startsolid` and `allsolid` hold exactly if a brush passed holds the start, or start and end, and with a fraction above 0 every matching brush that holds the start in a leaf touched there is noticed; a recorded plane is one the box has stayed in front of; a fraction below 1 comes from a brush that was checked, matches and is near, or holds the whole sweep; the end position is that of the fraction |
| NetProtocol.StepKeepsInvariant | Shared/net_chan.c:189-458 | every sending, transmission and delivery keeps the protocol's invariant: packets on the wire are genuine, the fragments held are the start of the message with their number |
| NetProtocol.DeliveryIsFaithful | Shared/net_chan.c:189-458 | over any run with loss, duplication and reordering each delivered message is byte for byte the one sent under its number, at most once and in increasing order |
| NetProtocol.MessageIsPackets | Shared/net_chan.c:189-290 | sending a message to the end puts out exactly its packets, and the sender is ready for the next |
| NetProtocol.PacketsCarry | Shared/net_chan.c:189-290 | the packets of a message are floor(length / 1300) + 1, their payloads joined are the message, all but the last have 1300 bytes, and fragments say where they belong |
| NetProtocol.AllArrive | Shared/net_chan.c:304-458 | the packets of any messages, in order, deliver all of them |
| NetProtocol.NothingIsLost | Shared/net_chan.c:86-458 | from the set-up on, a run that sends any messages and delivers every packet in order delivers exactly these, numbered from 1 |
| NetProtocol.RepeatIsIgnored | Shared/net_chan.c:386-425 | a packet that has arrived when it was sent changes nothing when it arrives again |
| NetProtocol.AllArriveAmidRepeats | Shared/net_chan.c:86-458 | a run in which each packet arrives when it is sent delivers all messages, numbered from 1, even if any packets already sent arrive again at any time in between, stray fragments included |
| Netchan.ParsesWhatWasSent | Shared/net_chan.c:189-340 | a packet is read from its bytes as it was sent, for both directions |
| Netchan.WireIs | Shared/net_chan.c:189-290 | a datagram has the sequence number in four bytes, the lowest first, with bit 31 for a fragment, the port number in two if it comes from a client, start and length of a fragment in two each, and then the payload |
| Netchan.Channel.constructor | Shared/net_chan.c:86-94 | a channel that has been set up is in the initial state of the protocol |
| Netchan.Channel.Transmit | Shared/net_chan.c:246-290 | the sending half does the protocol's step and the datagram is that packet's bytes; a message that is too long is refused |
| Netchan.Channel.TransmitNextFragment | Shared/net_chan.c:189-235 | the next fragment is sent as in the protocol, an empty last one after a multiple of 1300 bytes included |
| Netchan.Channel.Process | Shared/net_chan.c:304-458 | for every datagram the receiving half does the protocol's step on the packet read from it, and what is left to read is the delivered message; one that ends inside its header completes none, except that one that ends inside a client's port number counts as empty |
| NetLine.Line.constructor | Shared/net_chan.c:86-94 | two channels that have been set up are the protocol's initial state |
| NetLine.Line.Send | Shared/net_chan.c:246-290 | the sending channel puts out the bytes of a packet of the protocol's step, which keeps the protocol's invariant |
| NetLine.Line.Continue | Shared/net_chan.c:189-235 | so does the next fragment |
| NetLine.Line.Arrive | Shared/net_chan.c:304-458 | any datagram that has ever been sent arrives at the other channel as a step of the protocol; a completed message is byte for byte the one sent under its number, which is higher than all delivered before |
| ZoneBlocks.BlocksAreDisjoint | Shared/common.c:770-998 | blocks that tile the zone do not overlap |
| ZoneBlocks.TakenIsLaid | Shared/common.c:964-985 | taking memory from a free block keeps the zone tiled and no two neighbours free |
| ZoneBlocks.TakenIsTight | Shared/common.c:964-985 | a block is taken with less than 65 bytes more than needed; if more than 64 were left over, with none, and a free block behind it holds the rest; the other blocks stay |
| Zone.NeededIs | Shared/common.c:939-941 | what a request needs is the least multiple of 8 that holds it, the header of 32 bytes and the marker of 4 |
| ZoneBlocks.FreedIsLaid | Shared/common.c:813-876 | freeing and merging keeps the zone tiled, no two neighbours free, and the other live blocks |
| Zone.MemZone.constructor | Shared/common.c:770-788 | a cleared zone is one free block |
| Zone.MemZone.TagMalloc | Shared/common.c:917-998 | it fails exactly if no free block is large enough, and otherwise takes the first one at or after the rover, tight as above; the new block holds the request and the trash marker, all other live blocks stay, and the rover moves behind it |
| Zone.ServeAll | Shared/common.c:770-998 | any requests that fit a cleared zone together, with more than 64 bytes to spare, are all served, each with a block of exactly the size it needs |
| Zone.MemZone.Free | Shared/common.c:813-876 | the block is merged with its free neighbours and no other live block changes; null and free blocks are refused, static ones ignored |
| Zone.MemZone.FreeTurn | Shared/common.c:890-903 | one turn of the loop frees its block or goes on to the next; a static block is its own successor: nothing changes |
| Zone.MemZone.FreeTags | Shared/common.c:884-906 | twice as many turns as there are blocks are enough to end with exactly the blocks of the tag freed and counted, unless the tag is that of static blocks and there is one, or 0 and there is a free block; then however many turns are made it never ends, or stops with an error |
| Zone.FreeStatic | Shared/common.c:884-998 | after an allocation with the static tag, freeing that tag has not ended after any number of turns |
| Zone.MemZone.CheckHeap | Shared/common.c:1039-1055 | in no reachable state does it find an error |
| PatchCurve.CurveHalves | Shared/cm_patch.c:190-198 | the two halves of a subdivided curve are the curve itself, at half the parameter |
| PatchCurve.HalvesBendLess | Shared/cm_patch.c:158-198 | subdividing quarters the second difference of every row, so the squared bend falls to a sixteenth |
| PatchCurve.ChordIsClose | Shared/cm_patch.c:158-180 | a curve is nowhere farther from its chord than the distance that is tested |
| PatchCurve.SubdividedWhenFar | Shared/cm_patch.c:158-180 | a curve is subdivided exactly if its middle is 16 units or more from the middle of its chord |
| PatchColumns.HalvesAreShallower | Shared/cm_patch.c:289-349 | a column is bent exactly if levels of halving are left, and halving takes one of them: the loop ends |
| PatchColumns.RefinedIsOnCurve | Shared/cm_patch.c:289-349 | a curve that is halved n times leaves 2^n - 1 columns, at the multiples of 2^-n |
| PatchColumns.RefinedIsNear | Shared/cm_patch.c:289-349 | at every parameter the curve is less than 16 units from the chord between two neighbouring columns |
| PatchColumns.RefinedAllIsOnCurve | Shared/cm_patch.c:289-349 | every column of a subdivided grid lies on one of the original curves, at a multiple of 2^-n for the depth n of that curve |
| PatchColumns.RoomIsNeeded | Shared/cm_patch.c:289-349 | the condition under which the grid has room holds exactly if its width never grows beyond 129 |
| PatchColumns.RefinedAllIsNear | Shared/cm_patch.c:289-349 | everywhere on every original curve the subdivided grid is less than 16 units away |
| Patch.ThinnedPicks | Shared/cm_patch.c:382-407 | what is left is a part of the columns in their order, starting with the first, and no two neighbours match |
| Patch.ThinnedIsNear | Shared/cm_patch.c:351-407 | every column is within a tenth of a unit, in each coordinate of each point, of one that is left, and neighbours that are left are not |
| Patch.TransposedTwice | Shared/cm_patch.c:207-249 | transposing twice gives the grid back |
| Patch.Grid.Subdivide | Shared/cm_patch.c:325-344 | making room and subdividing in place, row by row, replaces three columns by five |
| Patch.Grid.SubdivideGridColumns | Shared/cm_patch.c:289-349 | the loop in place ends with the refined columns of every curve |
| Patch.Grid.RemoveDegenerateColumns | Shared/cm_patch.c:382-407 | the loop in place ends with the thinned columns |
| Patch.Grid.TransposeGrid | Shared/cm_patch.c:207-249 | the swaps and copies in place are a transpose, for wide and for high grids, and exchange sizes and wrap flags |
| CvarNames.SameHash | Shared/cvar.c:45-59 | names that differ in case only have the same hash |
| CvarNames.HashOfOneMore | Shared/cvar.c:45-59 | one more character adds its folded value times 119 plus its place, modulo 256 |
| CvarNames.GenerateHashValue | Shared/cvar.c:45-59 | the loop computes the hash of the folded name |
| CvarNames.Compare | Shared/q_shared.c:751-787 | the comparison is 0 exactly if the first 99999 characters differ in case only |
| CvarState.ForcedTakesEffect | Shared/cvar.c:484-602 | forcing a value onto a variable takes effect exactly if the value is not one that is already latched |
| CvarState.LatchedIsNotForced | Shared/cvar.c:520-530 | a variable with a latched value onto which that value cannot be forced |
| CvarState.WaitsForRegistration | Shared/cvar.c:549-572 | a value set on a latched variable does not change its text and is the text after the next registration |
| CvarState.SetIsCounted | Shared/cvar.c:484-602 | a latched variable that is not forced keeps its text and the value waits; forced, it takes the value and nothing waits; each new text, there or waiting, is counted once, and nothing else changes |
| CvarState.GotIsRegistered | Shared/cvar.c:307-450 | registering again takes the text that waits, or the value for a user's variable made read-only, gives the variable the flags of both, and replaces a reset text only if it was the user's or empty |
| Cvars.Table.constructor | Shared/cvar.c:27-36 | the empty table is valid |
| Cvars.Table.FindVar | Shared/cvar.c:87-100 | the hash chain gives what a linear search of the whole list would |
| Cvars.Table.UnlinkVar | Shared/cvar.c:988-993 | unlinking takes exactly one variable out of the doubly linked list |
| Cvars.Table.UnlinkHash | Shared/cvar.c:995-1000 | unlinking takes exactly one variable out of its doubly linked chain and leaves the other 255 as they are |
| Cvars.Table.Get | Shared/cvar.c:307-450 | the table stays valid: an existing variable is registered again in its place, and its text, reset text, latched text and flags become what `GotIsRegistered` says; a new one goes to the front of the list and of its chain; with all 1024 slots used nothing happens |
| Cvars.Table.Set2 | Shared/cvar.c:484-602 | an existing variable is set, as `SetIsCounted` says, a missing one is created or, without a value, not; no other variable changes; the value takes effect exactly if the variable has it already or its flags, what is latched, cheats and force allow it |
| Cvars.Table.Reset | Shared/cvar.c:1027-1071 | a variable that a restart keeps has its reset text exactly if it had it already or is not protected, latched or exempt; no other variable changes |
| Cvars.Table.Unset | Shared/cvar.c:975-1005 | the variable leaves the list and its chain, its slot is cleared, its successor is returned, and no other variable changes |
| Cvars.Table.Restart | Shared/cvar.c:1047-1071 | each variable is visited once: those of the user, and of the game if asked, are thrown out, the others keep their order and name and are reset unless exempt |
| PakOrder.NothingIsLost | Shared/files.c:2749-2780 | reordering loses and duplicates no entry |
| PakOrder.TakenFollowsServer | Shared/files.c:2763-2770 | the packs that are moved have checksums of the server, in the server's order |
| PakOrder.TakenIsEnough | Shared/files.c:2763-2770 | of the packs with a checksum as many are moved as the server lists, or all |
| PakOrder.SamePacksKeepOrder | Shared/files.c:2765-2775 | packs with the same checksum keep their order |
| PakOrder.LeftKeepsOrder | Shared/files.c:2749-2780 | the entries that are not moved keep their order, behind the moved ones |
| PakOrder.SearchPaths.Add | Shared/files.c:2507-2508 | a new entry goes to the front |
| PakOrder.SearchPaths.MoveMatch | Shared/files.c:2764-2778 | the first pack behind the insertion point that has a checksum is spliced out and in again there, also if it is there already |
| PakOrder.SearchPaths.Reorder | Shared/files.c:2749-2780 | the splicing through pointers to pointers leaves one acyclic list, reordered as the server says |

## Left out

- HuffmanCoder.Huff.Swap: nodes are indexes into tables, not addresses; aliasing of node memory is not modelled. Its
  precondition excludes a pair in which one is an ancestor of the other, which `HuffmanTree.LeaderIsUnrelated` shows
  no run produces.
- HuffmanCodec.Compress: messages whose compressed form does not fit the buffer are excluded; the field `ltail`, which
  nothing reads, is not modelled.
- HuffmanCodec.Decompress: streams that end before the announced number of bytes are excluded; there the program
  stops decoding and hands out a local array of which the rest has never been written.
- MsgStream.Msg.WriteBits: the counters of overflows and the out-of-band mode are not modelled; a value whose code would
  pass the end of the buffer is excluded.
- MsgStream.Msg.ReadBits: only reads beyond the whole buffer are excluded, which have no meaning in C; reads between the
  end of the message and the end of the buffer give what stands there. The readers that turn these into -1 are
  modelled for the channel only, and the out-of-band mode likewise.
- MsgEntity.ReadDeltaEntity: entities that end beyond the buffer are excluded, as for `ReadBits`.
- MsgUsercmd.ReadDeltaUsercmdKey: commands that end beyond the buffer are excluded, as for `ReadBits`.
- MsgEntity.WriteDeltaEntity: words are 32-bit patterns; of floats only the integer view that the code takes is known.
- Player states: their delta is lossy by the design of the code.
- QvmInterpreter.Interpreter.Loop: runs for a given number of instructions instead of without end.
- QvmInterpreter.Interpreter.CopyOp: areas that overlap and counts that are negative after masking are excluded; `memcpy`
  has no meaning for them.
- QvmInterpreter.LoadAndCall: runs in which an instruction is undefined are excluded: execution or a jump outside the
  code or to an operand, leaving the operand stack or the data, a division by zero, a block copy of overlapping
  areas, a system call that leaves no return address. Floating-point opcodes are functions of the host.
- QvmLoader.Vm.PrepareInterpreter: byte code with incomplete instructions or branches out of range is excluded.
- Puff.Puff: a stream with -9 as a length is excluded (`PuffProperties.UndefinedIsEmptyCode` says which these are): the
  program then writes outside its tables. The tables of fixed codes are built for each block instead of once.
- Puff.State.DynamicBlock: excludes the same blocks and no others.
- Trace.Work.TraceThroughLeaf: the patches of a leaf are not traced.
- Trace.Trace: position tests (start equal to end), sphere, capsule and rotated traces and traces through patches; brushes
  and planes are proper, as the loader makes them. Rounding is not modelled.
- Patch.Grid.SubdivideGridColumns: grids that would grow beyond 129 columns are excluded (`PatchColumns.RoomIsNeeded`); the
  program writes past its array there. Planes and facets made from the grid are not part of this model.
- Netchan.Channel.Process: `dropped` and the printed warnings carry no promise. Loopback queues, out-of-band packets and
  addresses are not part of this model.
- Zone.MemZone.TagMalloc: which of the two zones serves a tag, the fatal error for lack of memory, and clients that write
  outside their blocks are not modelled; sizes are those of 64-bit headers.
- Zone.MemZone.FreeTags: runs for a given number of turns instead of possibly without end.
- Cvars.Table.Get: names are ASCII and at most 99999 characters long; the fatal error for lack of slots is a null result.
  Number parsing is a function that a range check leaves with a variable, and sv_cheats is a flag.
- Cvars.Table.Set2: the same limits hold; messages to the console are not modelled.
- PakOrder.SearchPaths.Reorder: entries are known by checksum only; reading archives and directories is left out.
- The hunk allocator, the command tokenizer, info strings, message digests, archives and event queues: easier members.
