# Verification of the paclink-unix codec, forwarding exchange and digest

This project models, in Dafny 4.11, the parts of paclink-unix that decide whether a message arrives as it was
sent, and proves what they are for.

* **The LZHUF codec** (`lzhuf_1.c`). An LZSS window indexed by 256 search trees in the arrays `lson`, `rson` and
  `dad`, an adaptive Huffman tree in `freq`, `son` and `prnt`, a bit packer and unpacker with a CRC, and the file
  around them. The statics of the program are the fields of objects; nothing is assumed about what earlier calls
  have left in them. Main results:
  * what one codec compresses another recovers, if every set bit of the code words arrives and the text and the
    compressed file are shorter than 2^32 bytes; for a text of up to 2^31 - 4 bytes the file always is;
  * the register of the encoder holds 16 bits of a code word, which has up to 21. As long as no more than 16 bits
    wait in the accumulator, the decoder finds every symbol at its place if and only if no code word has a set bit
    behind its sixteenth and none is left unflushed at the end. That holds for all texts of up to 3867 bytes. It
    fails for a text of 818637 bytes: whatever file the encoder makes of it, the decoder finds the CRC right and
    recovers something else, because the code word of the last byte loses a set bit;
  * the encoder's parse is greedy over the text and the last 60 blanks in front of it, and so the text determines it
    but for the places copied from. A token falls short of the longest match in the window if and only if it starts
    at a blind place: the text starts with 1 to 59 blanks, it has its first later run of 60 there, the oldest blank
    has left the index, and one of the blanks that shared its key has not left the window. There is at most one such
    place in a text, and the match is then one byte short;
  * on any bytes the decoder comes to an end with what the specification says, or, exactly for files of 2 to 5 bytes
    with a wrong CRC, with a fault: it frees a buffer that it does not have. It gives a text only if the CRC in front
    is that of some bytes behind it, and of a compressed text with any other CRC it gives none;
  * the position code is the only one of its kind: the codes of the 4096 positions stand in order, the shorter ones
    first, and fill 14 bits, so that on any bits exactly one is found.
* **The B2 forwarding exchange** (`wl2k.c`, `mid.c`). Two stations running the program, with clocks of their own,
  and a link that can be cut, at any step, with only the front of what is on its way still arriving; sessions are
  repeated and messages are posted at any time. What goes over the link is the compressed message, and what is
  delivered is what the decoder makes of it. Main results: in every run, whatever is posted, every message is still
  in its outbox or has been delivered under its id, none is delivered twice within thirty days, and a file is
  unlinked only when the other station has its id in its store; what is delivered is what the decoder makes of the
  compressed message that was posted, which is the message itself if the codec carries it; and a station ends in an
  error only if the other has posted a message that the codec does not carry. There is such a message, and a run in
  which something else is delivered in its place and the original unlinked. Over an uncut link a session has a
  bounded number of moves, however much time passes and whatever is posted, and ends with one FQ and everything
  proposed handled, or with such an error.
* **The text and the frames of that exchange**: batches of proposals with their checksum, and transfers in chunks,
  are read back as they were written, with what follows left unread; with a wrong checksum they are refused, and
  what is received as a transfer was one. Two stations that read bytes, each waiting for
  a transfer or a line as it stands in its program and keeping the sum of a batch itself, over a link cut at any
  byte, do in every run what two stations do that read messages; so they are as safe.
* **The streaming MD5 digest** (`md5.c`, `md5_loc.h`) against sections 3.1 to 3.5 of RFC 1321, for any way of
  cutting the message into chunks, with one of the examples of the standard worked out.
* **The CRC** against division by x^16 + x^12 + x^5 + 1.

## How it is laid out

| file | what it holds |
|---|---|
| `HuffTree`, `HuffRebuild`, `Huffman` | the adaptive Huffman tree on values: its invariant, update, rebuilding, code words and their length |
| `HuffCoder` | the same in the arrays `freq`, `son`, `prnt`, method by method |
| `Forest`, `ForestLinks`, `ForestOps` | the search trees of window positions, and the arrays that hold them |
| `Window`, `Sliding`, `Opening` | the index methods, the window as it slides over the text, and the blanks in front of it |
| `Bytes`, `Bits`, `BitIo`, `Positions`, `Crc`, `Buffers` | registers, bits, packing, position codes, CRC, byte buffers and streams |
| `Lzss`, `Stream`, `Archive` | tokens and what they stand for, the bit stream, the file; the decoder as a function |
| `Depths`, `LossyText` | counts with which a code word loses a set bit, and a text whose parse has these counts |
| `Symbols`, `Lzhuf`, `Carry` | coding and decoding symbols, whole buffers, and a whole message over the wire |
| `OneByte` | the file of a text of one byte, byte by byte |
| `Mids`, `Station`, `Program` | the id store, the actions of a station, and the program that takes them |
| `Exchange`, `Session` | two stations and a link: safety of every run, the end of a session |
| `LossyRun` | a run that delivers something else than was posted |
| `Frames`, `Proposals`, `Wires` | the transfer of a message, a batch of proposals as text, and each message as bytes |
| `Links` | the exchange over a link of bytes |
| `Rfc1321`, `KnownDigest`, `Md5` | the digest as the standard defines it, one of its examples, and as it is computed |

A method that changes state is proved against a function of the old state, and the properties are proved of that
function. History that the program does not keep (everything ever posted, every delivery, the trees that the
arrays hold) is kept in ghost fields or in fields of the value that stands for a station.

## Assumptions

Memory can always be allocated. The id store works, and a station does not stop between delivering a message and
recording its id. What a station does between two reads of the link is one step of the exchange.

A message that is posted has an id that neither station has given before; an id ends in the callsign of its station
(`mid.c:204-249`), so those of the two differ. As a rule the id is recorded in the station's own store too
(`mid.c:244-247`, `mime2wl.c:603`); both ways are covered.

Its text is any. A text that the codec carries (`Station.Sendable`) is one of which every set bit of the code words
arrives however the encoder parses it, and whose text and compressed file are shorter than 2^32 bytes; texts of up to
3867 bytes are (`Station.ShortSendable`), and not all texts are (`LossyRun.SomeUnsendable`). Where bytes are written
to the link the encoder must come to its end (`Station.Compressible`), which it does with texts of up to 2^31 - 4
bytes (`Station.ModestCompressible`).

## Model

| member | source | states |
|---|---|---|
| HuffTree.TargetFacts | lzhuf_1.c:488-497 | the node a counted node changes places with has the same old count, is never an ancestor of it, and the sentinel stops the scan |
| HuffTree.BumpKeeps | lzhuf_1.c:491-516 | one round of update keeps the whole tree invariant, with the missing count handed on to the parent |
| HuffTree.ParentAbove | lzhuf_1.c:517 | every position lies below its parent, so climbs end at the root |
| HuffTree.Climb | lzhuf_1.c:490-517 | the climb from a leaf to the root ends, restores the invariant and adds one to the root's count |
| HuffTree.ClimbWeight | lzhuf_1.c:490-517 | the exchanges on the way up change no symbol's count |
| HuffRebuild.CollectedAll | lzhuf_1.c:449-459 | exactly the 314 leaves are collected, in their old order, and a count w becomes the h with w <= 2h <= w + 1 |
| HuffRebuild.JoinAbove | lzhuf_1.c:461-465 | the place found for a new parent is above the pair it joins |
| HuffRebuild.JoinKeeps | lzhuf_1.c:461-470 | each joining step keeps counts sorted, symbols single and every parent the sum of its pair |
| HuffRebuild.BuildKeeps | lzhuf_1.c:461-470 | the joining loop keeps that to the end, and the total of the leaves |
| Huffman.InitialTree | lzhuf_1.c:419-440 | the start tree satisfies the invariant with 314 at its root |
| Huffman.Rebuild | lzhuf_1.c:443-479 | rebuilding gives the invariant again; every symbol's count w becomes the h with w <= 2h <= w + 1, and so twice the root's count is the old one or up to 314 more |
| Huffman.Update | lzhuf_1.c:482-518 | an update keeps the invariant, root at most 0x8000, and counts one more |
| Huffman.UpdateCounts | lzhuf_1.c:482-518 | an update adds one to the coded symbol's count and to no other |
| Huffman.UpdateHalves | lzhuf_1.c:482-518 | below a root count of 0x8000 an update adds one to the root and the symbol and leaves the others; at 0x8000 every count w is first replaced by the h with w <= 2h <= w + 1 |
| Huffman.DecodeInverts | lzhuf_1.c:583-600 | walking down along a symbol's code word finds the symbol and has read exactly the word |
| Huffman.DecodesOnlyOwnWord | lzhuf_1.c:583-600 | anywhere in any bits, a symbol is decoded if and only if its own code word stands there |
| Huffman.FibonacciGrowth | lzhuf_1.c:482-518 | the sibling order makes counts grow towards the root like Fibonacci numbers |
| Huffman.CodeLength | lzhuf_1.c:526-542 | a code word of L bits needs a root count of at least Fib(L + 2) |
| Huffman.CodeFits | lzhuf_1.c:531-543 | code words have 1 to 21 bits, and at most 16 while the root counts less than 4181 |
| Depths.HeaviestIsChild | lzhuf_1.c:482-518 | below a node that weighs as much as the light symbols and the first heavy ones the heaviest of these is a child, by the order of siblings alone |
| Depths.LongWord | lzhuf_1.c:520-543 | in every tree with the counts given the code word of some literal has a set bit behind its sixteenth |
| Depths.HeavyShort | lzhuf_1.c:520-543 | a symbol that counts at least 13 has a code word of at most 16 bits in every tree |
| Depths.Counted | lzhuf_1.c:482-518 | until the first rebuilding the tree counts each symbol as often as it was coded |
| LossyText.RowsParsed | lzhuf_1.c:622-721 | the tokens of the rows are a greedy parse of the text, each literal because nothing in the window agrees for three bytes |
| LossyText.RowsSkewed | lzhuf_1.c:482-518 | after them the symbols count what the descent in the tree needs |
| LossyText.RowsShort | lzhuf_1.c:520-543 | none of them has a code word of more than 16 bits |
| LossyText.LossyParse | lzhuf_1.c:520-551 | there is a text with a greedy parse whose last literal loses a set bit in the register, with nothing else amiss |
| HuffCoder.Coder.SeekTarget | lzhuf_1.c:494-497 | the scan for the exchange position, in the array |
| HuffCoder.Coder.BumpNode | lzhuf_1.c:491-516 | one round of update in the arrays is the round on the tree |
| HuffCoder.Coder.Update | lzhuf_1.c:482-518 | update in the arrays is Huffman.Update of the tree they hold |
| HuffCoder.Coder.SeekPlace | lzhuf_1.c:464-465 | the scan down for the place of a new parent |
| HuffCoder.Coder.JoinNext | lzhuf_1.c:461-470 | one pass of the joining loop, with both moves of memory |
| HuffCoder.Coder.Reconst | lzhuf_1.c:443-479 | reconst in the arrays is Huffman.Rebuild, with the counts that states |
| HuffCoder.Coder.StartHuff | lzhuf_1.c:419-440 | StartHuff makes the start tree whatever the tables held |
| Forest.NearerAgreesLonger | lzhuf_1.c:165-192 | beyond a key on the far side, no key agrees with the searched one for longer than that key does |
| Forest.BeforeIs | lzhuf_1.c:177-179 | keys are ordered by the first byte in which they differ, as a smaller or larger number |
| Forest.InsertElements | lzhuf_1.c:148-204 | insertion adds the position and drops only the node of the same key |
| Forest.InsertBst | lzhuf_1.c:148-204 | insertion keeps the order of the tree by F-byte strings |
| Forest.PathSuffices | lzhuf_1.c:160-192 | the nodes a search visits hold the longest match of the whole tree |
| ForestLinks.DeleteFacts | lzhuf_1.c:207-239 | deletion keeps the order and removes exactly the node |
| ForestLinks.DeleteInorder | lzhuf_1.c:207-239 | deletion takes exactly the position out of the search order of the rest |
| ForestLinks.HandoverRep | lzhuf_1.c:218-232 | the pointer changes for a node with two sides leave the arrays holding the tree without it |
| ForestOps.InsertKeeps | lzhuf_1.c:156-203 | the pointer changes of an insertion keep all 256 trees, with the tree of the first byte as it should be |
| ForestOps.DeleteKeeps | lzhuf_1.c:211-238 | the pointer changes of a deletion keep all 256 trees |
| Window.SearchFinds | lzhuf_1.c:177-190 | the search reports the longest match on its way, and a position that achieves it |
| Window.SearchNearest | lzhuf_1.c:180-190 | no position visited matches for longer than what is reported, and none that matches as long is nearer |
| Window.Index.InitTree | lzhuf_1.c:136-145 | the empty index, whatever the arrays held |
| Window.Index.Compare | lzhuf_1.c:177-179 | how long two keys agree, and which is smaller |
| Window.Index.InsertNode | lzhuf_1.c:148-204 | the new index and the match found, from the arrays |
| Window.Index.DeleteNode | lzhuf_1.c:207-239 | the new index, also for a position that is not in it |
| Sliding.PutHolds | lzhuf_1.c:698-700 | a byte written into the ring, and the mirror, keeps the ring the end of the text |
| Sliding.PutIndexed | lzhuf_1.c:697-702 | no overwrite changes the key of a position in the index, or of one it covers |
| Sliding.InsertCovers | lzhuf_1.c:194-203 | replacing a node by a newer one of the same key leaves every candidate represented |
| Sliding.SearchFound | lzhuf_1.c:148-192 | a search over the index is as good as trying every position of the window whose key is present in it |
| Sliding.MatchRepeats | lzhuf_1.c:177-190 | a match reported by the index is a repetition in the text |
| Opening.SowOne | lzhuf_1.c:674-675 | of the blanks put in from the back the oldest of each key is kept, and it stands for the later ones |
| Opening.StartCovers | lzhuf_1.c:671-676 | right after the start each of the last F places is covered if and only if the first byte of the text is no blank or all of its first key are |
| Opening.OnlyOldest | lzhuf_1.c:674-676 | otherwise the oldest blank is the only blank key in the index |
| Opening.FirstFronts | lzhuf_1.c:674-676 | after the start every one of the last F blanks is covered but those that share the key of the oldest |
| Opening.SearchBlind | lzhuf_1.c:694-706 | once the oldest has left the window, a search for the first later run of blanks finds fewer than F bytes |
| Opening.LostElsewhere | lzhuf_1.c:694-706 | what the text repeats from a place not covered it repeats from a covered one too, but at a blind place |
| Opening.FoundLongest | lzhuf_1.c:148-192 | the match found is the longest over the window and the last F blanks; at a blind place it has F - 1 bytes |
| Opening.TokenWrites | lzhuf_1.c:677-692 | the chosen token writes the next bytes of the text, as many as any match in the window could, or one less at a blind place |
| Lzss.MissedExactly | lzhuf_1.c:622-721 | a token of the encoder is shorter than a match in the window if and only if it starts at a blind place |
| Lzss.ParseMisses | lzhuf_1.c:622-721 | a parse of the encoder uses the longest match everywhere if and only if no token starts at the blind place |
| Lzss.OneBlindPlace | lzhuf_1.c:622-721 | a text has at most one blind place |
| Lzss.MissesMatch | lzhuf_1.c:622-721 | on a concrete text of 2020 bytes every parse of the encoder has a token at its blind place |
| Lzss.SameParse | lzhuf_1.c:622-721 | two greedy parses of a text have the same literals and lengths, token by token |
| Lzss.CopyReproduces | lzhuf_1.c:831-844 | copying from where the text repeats writes the text, also when the copy overlaps itself |
| BitIo.BitIo.Putcode | lzhuf_1.c:395-416 | as long as no more than 16 bits wait, the bits written grow by the 16 bits of the register and then zeros, for words of any length; how many wait then |
| BitIo.BitIo.EncodeEnd | lzhuf_1.c:571-581 | the first eight of the bits that wait are sent, with zeros behind them up to a whole byte |
| BitIo.BitIo.Refill | lzhuf_1.c:364-369 | reading ahead keeps the next bits in order and zeros after the end, and the CRC that of the bytes taken |
| BitIo.BitIo.GetBit | lzhuf_1.c:359-374 | the next bit of the source |
| BitIo.BitIo.GetByte | lzhuf_1.c:377-392 | the next eight bits of the source |
| Bits.PackTwo | lzhuf_1.c:398-409 | when a word fills two bytes, these and the rest taken from the word itself are all its bits, also of a word of more than 16 and with up to 16 bits waiting |
| BitIo.MergeByte | lzhuf_1.c:367-368 | a byte merged below the bits that wait continues them |
| Positions.PrefixKnown | lzhuf_1.c:253-344 | the decoding tables know the prefix of a position whatever follows it |
| Positions.PositionInverts | lzhuf_1.c:602-618 | for every position below 4096, decoding its code gives it back and reads exactly the code |
| Positions.PrefixesFill | lzhuf_1.c:253-274 | the prefixes begin at 0, each where the one before ends, shorter ones first, and the last ends with the byte |
| Positions.LengthCounts | lzhuf_1.c:253-262 | there are 1, 3, 8, 12, 24 and 16 prefixes of 3 to 8 bits |
| Positions.PrefixOfByte | lzhuf_1.c:276-344 | the decoding tables name the one prefix in whose range a byte is, and its length |
| Positions.CodesFill | lzhuf_1.c:553-569 | the codes of the 4096 positions, read as numbers of 14 bits, begin at 0, each where the one before ends, shorter ones first, and fill all of them |
| Positions.PositionFound | lzhuf_1.c:602-618 | on any bits the position decoded is the one whose code stands there, and just that is read |
| Crc.TableIsRight | lzhuf_1.c:61-95 | every table entry is the remainder of its index times x^16 |
| Crc.CrcIsRemainder | lzhuf_1.c:97-133 | the CRC of any bytes is what division by the generator leaves, followed by sixteen zeros |
| Crc.CrcInjective | lzhuf_1.c:97 | different CRCs stay different under the same further bytes |
| Crc.BurstDetected | lzhuf_1.c:97-133 | strings that differ only within two adjacent bytes never share a CRC |
| Crc.CrcJoins | lzhuf_1.c:748-757 | the two bytes of a CRC make it up again |
| Crc.JoinInjective | lzhuf_1.c:863-869 | no two pairs of bytes make up the same CRC |
| Stream.Snoc | lzhuf_1.c:677-692 | what one more token adds to the text, to the bits of the code words and to those that are sent, and when it fits |
| Stream.SymbolOfCopy | lzhuf_1.c:688-690 | the symbols 256 to 313 stand for the lengths 3 to 60 in order |
| Stream.FewFit | lzhuf_1.c:482-543 | for up to 3867 symbols every set bit arrives |
| Stream.ShortFits | lzhuf_1.c:395-416 | while no code word has more than 16 bits every bit arrives, and fewer than eight ever wait |
| Stream.LeftOver | lzhuf_1.c:571-581 | bits that are not flushed at the end belong to the code word of a last literal |
| Stream.RunLength | lzhuf_1.c:818-851 | on any bits decoding ends with size to size + 59 bytes |
| Stream.CopyRing | lzhuf_1.c:831-844 | the copy loop in the ring does to the text what the token says |
| Stream.StepToken | lzhuf_1.c:819-845 | the bits of one token are decoded to what it stands for, tree and all |
| Stream.Lockstep | lzhuf_1.c:818-845 | after any number of tokens decoder and encoder have the same tree, and the decoder the text so far |
| Stream.DecodesTokens | lzhuf_1.c:818-851 | the bits of a token list decode to its text and are read to their end and no further |
| Stream.EverySymbol | lzhuf_1.c:520-600 | if no more than 16 bits ever wait, the decoder finds every symbol at its place if and only if every set bit of the code words arrives |
| Stream.LiteralAlters | lzhuf_1.c:818-851 | a literal that is decoded to another literal is another byte at its place of the text decoded |
| Stream.LastLost | lzhuf_1.c:520-600 | a last literal that loses a bit, behind short words, is found as another symbol with a longer word: all bits are read, and the text differs in its last byte or goes on in place of it |
| Archive.SizeInverts | lzhuf_1.c:639-662 | the length field is read back |
| Archive.BodyDecodes | lzhuf_1.c:775-857 | a compressed text whose set bits all arrive decodes to itself and the read-ahead has taken every byte of it |
| Archive.RoundTrip | lzhuf_1.c:735-893 | when every set bit arrives, unpacking gives back the text, CRC and all, if and only if its length is below 2^32 |
| Archive.CrcChecked | lzhuf_1.c:880-889 | nothing is unpacked unless the two bytes in front are the CRC of some bytes behind them, the length field among these |
| Archive.WrongCrc | lzhuf_1.c:880-889 | of a compressed text with any other two bytes of CRC nothing is unpacked |
| Archive.BurstRefused | lzhuf_1.c:880-889 | nor of one changed at up to two adjacent places of which the decoder takes all bytes |
| Archive.SymbolsFound | lzhuf_1.c:520-600 | for a compressed file: every symbol is found at its place if and only if every set bit arrives |
| Archive.Altered | lzhuf_1.c:520-893 | for a compressed file: a literal found as another one is another byte at its place of what is decoded, so the text is not what is unpacked |
| Archive.LastAltered | lzhuf_1.c:520-893 | when only the last literal loses a bit and the words before it are short, the CRC is found right and what is unpacked is not the text, but has all of it before its last byte |
| Archive.SomeFile | lzhuf_1.c:621-772 | each such list of tokens is that of some compressed file |
| Archive.UnpackedLength | lzhuf_1.c:859-893 | whatever the file, what is unpacked has the length it says or up to 59 more |
| Symbols.PathStep | lzhuf_1.c:530-542 | one step up puts the bit for the node in front of the bits below it, in the word and in the register |
| Symbols.SymbolCoder.CollectCode | lzhuf_1.c:526-542 | the register holds the first 16 bits of the code word, and the length is that of the whole; the error branch is never taken |
| Symbols.SymbolCoder.EncodeChar | lzhuf_1.c:520-551 | the first 16 bits of the code word and zeros for the others are written, and the tree updated |
| Symbols.SymbolCoder.EncodePosition | lzhuf_1.c:553-569 | the code of the position is written |
| Symbols.SymbolCoder.DecodeChar | lzhuf_1.c:583-600 | the symbol and the number of bits read are those of the walk, on any bits |
| Symbols.SymbolCoder.DecodePosition | lzhuf_1.c:602-618 | the position and the number of bits read, on any bits |
| Lzhuf.Codec.SlideIn | lzhuf_1.c:694-706 | moving on by one byte read keeps ring and index those of the text, with the match for the next place |
| Lzhuf.Codec.SlideOut | lzhuf_1.c:713-720 | moving on after the end of the input does so too |
| Lzhuf.Codec.EnterStart | lzhuf_1.c:674-676 | the index over the blanks and the first place, with the match there; all last F blanks are covered if and only if the first key is clean |
| Lzhuf.Codec.Prime | lzhuf_1.c:665-676 | ring and index at the first place of the text |
| Lzhuf.Codec.PutToken | lzhuf_1.c:677-693 | the token written stands for the next bytes and is as long as any match in the window allows, or one less at a blind place |
| Lzhuf.Codec.EncodeText | lzhuf_1.c:677-722 | the coding loop ends, and its tokens stand for the whole text |
| Lzhuf.Codec.Encode | lzhuf_1.c:621-733 | length field and what is sent of a greedy token list for the text, in at most twice its length and five bytes, and its CRC; when the loop never ends |
| Lzhuf.Codec.Version1Encode | lzhuf_1.c:735-772 | the same with the CRC in front; when the copying never ends |
| Lzhuf.Codec.Decode | lzhuf_1.c:775-857 | on any input, the bytes and the CRC that the specification gives; none for a short header |
| Lzhuf.Codec.Version1Decode | lzhuf_1.c:859-893 | on any input, what Archive.Unpacked says; a text only if the CRC in front is that of some bytes behind it; a fault if and only if the file has 2 to 5 bytes and a wrong CRC |
| Lzhuf.RefuseWrongCrc | lzhuf_1.c:859-893 | for a compressed text with a wrong CRC nothing is returned |
| Lzhuf.CompressAndRecover | lzhuf_1.c:735-893 | it comes to an end if and only if text and compressed file are below 2^32 bytes or only the length field is written; then recovery succeeds, when every set bit arrives, if and only if the length is below 2^32; always up to 3867 bytes |
| OneByte.FileIs | lzhuf_1.c:621-772 | the encoder makes of the letter A the file 3c 6e 01 00 00 00 e6 80 and no other |
| OneByte.FileRecovered | lzhuf_1.c:775-893 | of that file the letter is recovered, whatever the ring holds, and with any other CRC nothing |
| Carry.CarryMessage | wl2k.c:214-401 | a text compressed, framed, received and recovered is the text, when every set bit arrives and both lengths are below 2^32; always up to 3867 bytes |
| Buffers.Buffer.AddChar | buffer.c:76-92 | the contents grow by one byte |
| Buffers.Buffer.IterChar | buffer.c:134-142 | the next byte, or the end; the index is 32 bits wide and wraps |
| Buffers.Buffer.AddBuf | buffer.c:107-117 | the contents of another buffer of less than 2^32 bytes are appended |
| Buffers.ReadToEnd | buffer.c:134-142 | a loop that reads a buffer to its end comes to it if and only if there are fewer than 2^32 bytes |
| Mids.MidDb.RecordMid | mid.c:62-96 | the id is stored with its time |
| Mids.MidDb.CheckMid | mid.c:102-149 | true if and only if the id was stored no more than 2592000 seconds ago; otherwise it is not in the store afterwards; nothing else changes |
| Mids.MidDb.ExpireMids | mid.c:151-202 | exactly the entries of up to 2592000 seconds of age are left, as they were |
| Station.Batch | wl2k.c:749-763 | the ids of the next batch: up to five proposals from where the list stands |
| Station.RepliesAre | wl2k.c:1107-1147 | an id is answered yes if and only if it is not in the store or was recorded more than 2592000 seconds ago, and those answered yes are not in the store afterwards |
| Station.PromptAnswers | wl2k.c:1107-1147 | the answers to a batch are these, in order, and exactly the ids answered yes are awaited |
| Station.TakeErrors | wl2k.c:1043-1239 | the program ends in an error if and only if what comes is not what it waits for, a sixth proposal included, or a message is not recovered; it then sends, delivers and records nothing |
| Station.Recovers | wl2k.c:1160-1172 | what the receiver recovers of a sendable text is the text, whatever its ring holds |
| Station.ModestCompressible | lzhuf_1.c:622-733 | the file of a text of up to 2^31 - 4 bytes is shorter than 2^32 bytes |
| Station.ShortSendable | lzhuf_1.c:482-543 | texts of up to 3867 bytes are sendable |
| Program.StationProgram.Unlink | wl2k.c:504-525 | exactly the marked files among the proposals made are unlinked, and the marks cleared |
| Program.StationProgram.OfferBatch | wl2k.c:749-785 | a line for each proposal of the next batch of up to five, with its id and both sizes, and the end of the batch |
| Program.StationProgram.OutboundProposal | wl2k.c:737-787 | a batch, or FF, or FQ in answer to FF |
| Program.StationProgram.MarkAnswers | wl2k.c:816-857 | each answer marks its proposal |
| Program.StationProgram.SendBatch | wl2k.c:859-871 | what was not refused is sent and marked, and the list moves on by the batch |
| Program.StationProgram.AnswerBatch | wl2k.c:1107-1147 | the answers are what the store knows, in order, and what was accepted is awaited in order |
| Program.StationProgram.AcceptMessage | wl2k.c:1155-1215 | the compressed message is decoded; what comes of it is delivered and its id recorded, and a failure ends the program |
| Program.StationProgram.Compress | wl2k.c:675-680 | a message with which the encoder comes to an end is compressed to a file that stands for it |
| Program.StationProgram.ListOutbox | wl2k.c:622-722 | one proposal for each message of the outbox, in order, with its size and compressed |
| Program.StationProgram.ReadNext | wl2k.c:1043-1239 | what the program does with anything that comes is the action of the model |
| Program.StationProgram.Start | wl2k.c:1441-1488 | old ids are expired and the whole outbox is listed |
| Exchange.DeleteKeeps | wl2k.c:504-525 | what is unlinked the other station has recorded, and every message is still in its outbox or delivered |
| Exchange.BeginForgets | wl2k.c:1441-1488 | as a session begins exactly the ids recorded more than 2592000 seconds ago are forgotten |
| Exchange.CheckKeeps | mid.c:102-149 | an unknown id has not been delivered in the last thirty days |
| Exchange.DataKeeps | wl2k.c:1155-1215 | a delivery is of the right message, and of none delivered in the last thirty days |
| Exchange.TransfersAccepted | wl2k.c:859-871 | the compressed messages sent are those accepted, in the order in which they are awaited |
| Exchange.DataRead | wl2k.c:1155-1215 | a compressed message that comes is one posted under the id that is awaited: what is recovered is delivered, and if nothing is, the codec does not carry it |
| Exchange.TurnMoves | wl2k.c:737-892 | the station whose turn it is leaves the session in good order |
| Exchange.AnyRead | wl2k.c:1043-1239 | whatever is read at any point of a session is in its place |
| Exchange.StepKeeps | wl2k.c:737-1239 | every step, cuts and stops included, keeps the invariant and unlinks only what the other has recorded |
| Exchange.AlwaysSafe | wl2k.c:504-1239 | in every run, whatever is posted: every message still in its outbox or delivered under its id, no duplicate within thirty days, each delivery what the decoder makes of the message posted under its id, and that message itself if the codec carries it; an error only if a message was posted that it does not carry |
| Exchange.UnlinkedOnlyWhenKnown | wl2k.c:504-525 | in every run a file goes only when its id is in the other station's store |
| LossyRun.SomeUnsendable | lzhuf_1.c:520-893 | there is a text of 818637 bytes such that of every file that the encoder makes of it something else is unpacked, whatever the ring holds |
| LossyRun.Handed | wl2k.c:504-1239 | whatever the decoder makes of a file of a message can be delivered for it, with its id recorded and the original unlinked |
| LossyRun.AlteredRun | wl2k.c:504-1239 | there is a run in which something else than what was posted is delivered, its id recorded, and the original unlinked |
| Session.MoveDecreases | wl2k.c:749-891 | every step of a session brings its end nearer |
| Session.SessionLength | wl2k.c:749-891 | a session has no more moves than its proposals allow, however much time passes and whatever is posted meanwhile |
| Session.NeverStuck | wl2k.c:1043-1239 | while the link is up one station can go on, until both have left and everything is handled, or one has ended in an error and the other has posted a message that the codec does not carry |
| Session.SessionEnds | wl2k.c:1049-1223 | a session that can go on no longer has seen one FQ, and every proposal delivered or known and unlinked, whatever was posted meanwhile, or has ended in an error with a message posted that the codec does not carry |
| Frames.PutCompressed | wl2k.c:320-401 | the bytes of a transfer, or only its header when size or offset cannot be right |
| Frames.GetCompressed | wl2k.c:214-318 | on any input, what the format says, and the input stands right behind the message |
| Frames.FrameRoundTrip | wl2k.c:214-401 | a transfer is received whole with what follows unread if and only if its offset is 0; otherwise it is refused |
| Frames.TransferRead | wl2k.c:214-318 | a transfer in chunks of any sizes up to 256 is received if its bytes and the checksum add up to 0 modulo 256, and refused if not |
| Frames.FrameAccepted | wl2k.c:214-318 | whatever is received is such a transfer: a title of up to 80 bytes, the offset 0, chunks of 1 to 256 bytes, and a right checksum |
| Frames.FrameIs | wl2k.c:320-401 | what is sent is such a transfer, in chunks of 250 bytes but for the last |
| Proposals.GetLine | wl2k.c:905-958 | the characters up to CR, without LF, 0x1e and what is not ASCII |
| Proposals.LineIs | wl2k.c:905-958 | a line is there if and only if a CR is, and is what is before the first one without LF, 0x1e and bytes above 127 |
| Proposals.DecimalRead | wl2k.c:450-463 | a decimal number is read back, or 2^64 - 1 when it is larger |
| Proposals.StrtoulIs | wl2k.c:450-463 | white space, a sign and digits give the number, negated modulo 2^64 behind a minus |
| Proposals.ParseProposal | wl2k.c:403-486 | on any line, what the format says |
| Proposals.ParseAccepts | wl2k.c:403-486 | exactly the lines with the given fields, a kind C or E, an id of up to 12 characters and two numbers with a space behind each are taken for the proposal of a message |
| Proposals.ParseInverts | wl2k.c:403-486 | a proposal line is read back, the compressed size if and only if it is below 2^32 |
| Proposals.PutBatch | wl2k.c:749-787 | the lines and the checksum of up to five proposals |
| Proposals.GetBatch | wl2k.c:1043-1105 | on any input, what the FC and F> branches make of it |
| Proposals.BatchRoundTrip | wl2k.c:749-1105 | the checksum of a batch is found right and every proposal recovered, with what follows unread |
| Proposals.BatchChecked | wl2k.c:1086-1105 | a batch with any checksum is read whole if that and the bytes of its lines add up to 0 modulo 256, and refused if not |
| Proposals.SixthRefused | wl2k.c:1050-1084 | a sixth proposal in a batch is refused, whatever follows |
| Proposals.OtherLines | wl2k.c:1043-1066 | an empty line and a comment are passed over, a line that begins a proposal and is none is refused, anything else is left to the other commands |
| Proposals.BatchExample | wl2k.c:749-787 | the bytes of a batch of one message, down to the checksum in capital digits |
| Wires.OneRead | wl2k.c:737-1223 | each message of the exchange, written as bytes, is read back, and what follows is left |
| Wires.PromptChecked | wl2k.c:1086-1105 | the end of a batch is accepted if its byte and those of the lines read add up to 0 modulo 256, and is an error if not |
| Wires.LinesAre | wl2k.c:737-1147 | the bytes of the answers and of the commands without proposals |
| Wires.FrameCut | wl2k.c:214-318 | no proper front of a transfer is received as a message |
| Wires.OneCut | wl2k.c:214-958 | no proper front of any message is read as one, nor as an error |
| Wires.AlwaysCarriable | wl2k.c:737-1223 | in every run all that is on its way is of that kind, if the encoder comes to an end with every message posted |
| Links.KindAsked | wl2k.c:737-1223 | in every phase the first message on its way is a transfer if and only if its reader waits for one |
| Links.LineReads | wl2k.c:737-1223 | the bytes of a queue are read as its first message, and what is left is the rest of the queue, with the sum kept |
| Links.LineEnds | wl2k.c:214-958 | when all whole messages have been read, the part of the next one is not taken for a message |
| Links.LineCut | wl2k.c:214-958 | bytes cut anywhere are the messages that are still whole and part of the next |
| Links.StepLike | wl2k.c:504-1239 | every step of two stations that read and write bytes, over a link cut at any byte, is a step of the exchange of messages |
| Links.LinksSafe | wl2k.c:504-1239 | so in every run over bytes the stations are as safe as over messages |
| Md5.FirstFunction | md5_loc.h:63-69 | the shortened first round function is the one of the standard |
| Md5.CyclicRotates | md5_loc.h:71-76 | the shift macro rotates |
| Md5.Next | md5_loc.h:78-105 | one line of the rounds is one step of the standard |
| Md5.DoBlock | md5.c:119-208 | the 64 lines are the 64 steps of the standard on a block |
| Md5.CarryAdds | md5.c:103-111 | the two-word byte count is kept modulo 2^64 |
| Md5.LengthWords | md5.c:425-440 | the two length words are the length in bits modulo 2^64 |
| Md5.PadIs | md5.c:403-423 | the padding is that of the standard, also when the length needs a block of its own |
| Md5.BlocksConcat | md5.c:119-208 | working through blocks in two parts is working through them at once |
| Md5.Md5.Init | md5.c:280-290 | nothing has been put in, whatever was there before |
| Md5.Md5.ProcessBlock | md5.c:83-217 | accumulators and count stay those of all bytes processed |
| Md5.Md5.Process | md5.c:315-364 | the bytes put in grow by the chunk, however the message is cut, unless the sum with the bytes held wraps |
| Md5.Md5.Finish | md5.c:385-446 | the signature is the digest of everything put in |
| Md5.DigestBuffer | md5.c:469-482 | the digest of one buffer |
| KnownDigest.AlphabetDigest | md5.c:469-482 | the digest of the letters from a to z is the one that section A.5 of RFC 1321 gives |

## Left out

- Stream.EverySymbol: says nothing of runs in which more than 16 bits wait when something is written; the next shift of the encoder is then by a negative count, which C leaves undefined.
- Lzhuf.CompressAndRecover: compressed files of exactly 2^32 or 2^32 + 1 bytes, which the encoder writes but whose reading wraps, are left open, as is what comes back of a text some of whose set bits are lost (Stream.LiteralAlters covers a literal taken for a literal, Archive.LastAltered a last literal behind short words).
- Lzhuf.Codec.Decode: takes inputs of less than 2^32 bytes only, because the read index wraps on longer ones.
- Lzhuf.Codec.Version1Decode: what the program does after the fault is not modelled.
- BitIo.BitIo.Putcode: shifts by 32 bits or more and by negative counts are undefined in C; the model takes repeated shifts by one bit, and none for a negative count. Neither happens while at most 16 bits wait.
- Lzhuf.Codec.Encode: the exact choice among equally long matches is not specified; it can depend on bytes that earlier calls left in the window. A run that never ends is an outcome of its own (`ends` is false).
- Buffers.Buffer.AddChar: reallocation moves the memory in the program; the model has the bytes as a sequence, so aliasing of the old memory is not captured.
- Station.TakePrompt: an FF that follows FC lines without F> keeps the FC lines in the program and drops them in the model; between two such stations FF never follows FC.
- Station.TakeAnswers: answers other than Y and N (held, rejected, later, and those with an offset), and lines that begin with `;`, come only from other programs and are not modelled in the exchange.
- Program.StationProgram.MarkAnswers: the same, only the answers yes and no.
- Program.StationProgram.ReadNext: takes the next message as it is read; that the bytes of the link are read as these messages is Links.StepLike.
- Program.StationProgram.AcceptMessage: the conversion of the recovered message to mail and a mail program that fails are not modelled; a message that is recovered is delivered.
- Links.StepLike: a station that waits for the rest of a message over a cut link stays where it is until it stops; the program ends there with an error.
- Frames.PutCompressed: the sum of the bytes is unbounded in the model; in C it is an int.
- Program.StationProgram.Start: the p2p filter on addressees and the length limit on file names in the outbox are not modelled; the outbox is what passes them.
- The branch for a prompt line that ends in `>`, the send-only flag and the `B` command: not reached between two such stations.
- Allocation failures, file errors, timeouts, the handshake and secure login, configuration, logging, and the transports: they only add error exits or plumbing.
- The conversion between messages and mail (`mime2wl.c`, `wl2mime.c`): most of it is in a library.
- Generation of message ids (`mid.c:204-249`): random; freshness of ids is an assumption of the exchange.
- `wl2kd.c`: an older copy of `wl2k.c`.
- The `codesize` counter of the codec: printed by the stand-alone program only.
