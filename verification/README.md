# A verified model of the router's codec, updates and messages

The repository runs on a home router. It compresses settings with an LZSS codec, walks
firmware and settings files before writing them to flash, escapes text for its web pages,
and answers short requests on a socket. This project models that logic in Dafny and proves
what it is for. The C code changes globals, arrays and buffers step by step; so do the
methods here. Each method is proved equal to a function on values, and the theorems are
about these functions.

## How the parts fit together

**The codec** (`Config` to `Theorems`, `Lockstep`, `Coverage`, `Exactness`, `Shortfall`).

- `Trees`, `LinkArrays`: binary trees as values, and the flat arrays `lson`, `rson`, `dad`
  that hold a forest of 256 of them. The link changes of `DeleteNode` and `InsertNode` are
  proved for arbitrary binary trees, the two-child case included.
- `SearchTree.Dictionary`: the class with `text_buf`, the three arrays and the two match
  globals; `InitTree`, `DeleteNode` and `InsertNode` are its methods. Cell `NIL` of `dad`
  takes the junk writes that it takes in the source.
- `Matching`, `DictionaryModel`, `SlidingWindow`: longest matches, live positions, and which
  positions of the window the live ones stand for.
- `EncoderModel`: the states of `Encode`, one per inserted position, with the invariant that
  every turn of the two sliding loops keeps. Positions are counted from the start of one
  unbounded history: N - F spaces, then the input. `Encoding` holds the method `Encode`.
- `Tokens`, `History`, `Decoding`: units of code and their packing, what they mean, and the
  method `Decode`.
- `BitOperators`: bitwise "and" and "or" digit by digit, as the methods of the codec use them, and what
  they come to there.
- `Theorems`, `Lockstep`, `Coverage`, `Exactness`, `Shortfall`: the main results. `Format` says
  in plain numbers which bytes the code has, and defines a decoder without a ring.

**Settings and firmware** (`ConfigRecords`, `ConfigUpdate`, `ConfigTheorems`, `Firmware`,
`ImageWalk`, `ImageUpgrade`, `ImageTheorems`, `InstallTheorems`, `RecordMeaning`, `ImageMeaning`).
The walks over compressed settings records and over images, on any bytes. The walk over images
calls the walk over settings, and that calls `Decode`. What an upload does is given as its way of stopping and the
list of what has been done: each write with its device, address and bytes, each flash update
with its section, mode, version and bytes.

**Text** (`CStrings`, `Escape`, `Parser`, `Commands`, `CommandMeaning`). The HTML escaper, and requests and
responses of the form `version:verb:command;data`.

The modules `Format`, `RecordMeaning`, `ImageMeaning` and `CommandMeaning` state what the specifications of the
methods come to without using them: in bytes, bits, addresses, signatures, keywords and members of structs.

## Modelling decisions

- `cmp` in `InsertNode` is an unsigned short, so `cmp >= 0` always holds. The walk goes right
  at every node; the left branch stands in the model as a branch that is never taken. So the
  code keeps no search order, and the trees it builds are chains. `DeleteNode` does not rely on that.
- `match_position` is a global that keeps its value between calls of `Encode`. It is 0 at the
  start here; it is read only after a match has set it.
- Bitwise "and" and "or" are functions on natural numbers that go through the binary digits; shifts are
  divisions and products.
- `Decode` fetches a byte and then tests whether it was one too many, and so does the model; a
  byte behind the input's array can be any. What the buffer of `Decode` holds behind its first
  N - F cells is a parameter, and arbitrary in every result.
- Fresh memory, of the decoder's ring and of the buffer for an expanded block, holds anything before it is
  written, and a block that is shorter than its headers say is judged with what lies behind it.
- What a write completes is a function of the item and the size, negative for an error.
  A write that falls short leaves the front of an image on the device; the model records it.
- Lengths are unbounded numbers, and allocation succeeds.
- Structs and checksums that are declared in `apmib.h` are not part of this model. A `Layout`
  and a `Platform` stand for them: header sizes, functions that read the fields, tags, tests.

## What turned out different from what the comments say

- *Replaced nodes.* `InsertNode` removes an equal older node "because the old one will be
  deleted sooner". That holds for all text. It does not hold for the F positions of spaces that are
  inserted before the text: they go in with falling positions, so the older position replaces the
  newer and leaves the window first. After that a blank position can be inside the window without any node
  that stands for it, and the match found can be shorter than possible. `Coverage.CoverageExactly` and
  `Coverage.LongestExactly` say exactly when this is so, `Coverage.GapHappens` gives an
  input of 4095 bytes on which it happens, and `Coverage.PlainStart` shows that it needs an input
  that starts with a space. `Exactness.EncodedExact` says for every token of every input, in terms of
  the input alone, when it is a longest match over the whole window, and `Shortfall.ShorterSent` that some
  token is not. The code is still decoded correctly.
- *Texts that end early.* `WINIE6_STR` and its like contain `\0` before their second line end,
  so as C strings they end after the first: 15 characters for the one that
  `router_update_firmware` copies. It sets the four bytes of both line ends itself afterwards.
  `LINE_FWSTR` is one line end, though an offset of 4 is added for it.
- *Items that are too short.* The loop of `doFirmwareUpgrade` runs while a header and at least one byte more
  are left. An item of header size or less at the end is ignored, and the upgrade succeeds.
- *Odd lengths.* The sum over a firmware image of odd length takes in the byte behind it.
- *Escapes in the input.* `htmlSpecialCharReplace` leaves `&` alone, so unescaping gives the
  text back exactly when none of the three escapes stands in it (`Escape.RestoredExactly`).
- *One record.* `doFirmwareUpgrade` passes length 0 to `updateConfigIntoFlash`, which then handles exactly one record.
- *Unknown tags.* On a block that has none of the nine tags `updateConfigIntoFlash` neither moves on nor stops. It
  ends only because no more bytes are asked for, as in an upgrade; no section is reported then, and the upgrade
  rejects the upload. With bytes left it stays where it is (the status `Stuck`).
- *Failed writes.* A short write is found out only after its bytes are on the device, so "nothing but whole images"
  holds of all actions but the last (`ImageTheorems.OnlyVerified`).
- *Negative lengths.* The length test of `doFirmwareUpgrade` compares signed numbers, and the sum over a firmware
  image of negative length is over no byte, so it passes. When the length takes away less than the header, the front
  of a Linux header is written unchecked and the walk goes on in the middle of the header (`ImageTheorems.NegativeLength`,
  `ImageTheorems.MinusOne`). `ImageTheorems.VerifiedExactly` says that this is the only way in which something
  unverified is written before the walk comes to one of the endings below that are not followed. A length that takes away exactly the header leaves the walk where it is, for ever.

## Model

| member | source | states |
|---|---|---|
| Theorems.RoundTrip | utility.c:2674-2832 | For every byte sequence of any length, decoding its code gives it back, whatever the decoder's buffer held. |
| Encoding.Encode | utility.c:2674-2776 | The method with the arrays, the class and the loops writes exactly the specified code to the front of the output and nothing behind it. |
| Format.UnitWritten | utility.c:2731-2738 | The bytes of a unit in numbers: the byte itself, or `position and 0xff` and `((position >> 4) and 0xf0) or (length - 3)`. |
| Format.GroupWritten | utility.c:2729-2745 | A group is a flag byte and the bytes of its units; bit k of the flag byte is set if and only if there is a unit k and it is a byte. |
| Format.TwiceEncoded | utility.c:2674-2776 | The code of "abcabc" is 0x07, the three letters, 0xee, 0xf0. |
| Decoding.Decode | utility.c:2778-2832 | On every input, well formed or not, the method writes what the tokens in it mean, nothing behind the input has any influence, and nothing behind the text is written. |
| Format.DecodedWithoutRing | utility.c:2778-2832 | On every input Decode puts out what a decoder without a ring does: a unit is a byte, or repeats, byte by byte, what was put out last for each of the cells that it names, the first output byte having gone to cell 4078; before that the cells held spaces or junk. |
| Format.UnitsRead | utility.c:2798-2819 | The units of a code in numbers: a flag byte, lowest bit first, says of eight units whether they are bytes; others are pairs of position `i or ((j and 0xf0) << 4)` and length `(j and 0x0f) + 3`; a unit cut short at the end is dropped. |
| Format.PairRead | utility.c:2813-2820 | The bytes 0, i, j are one pair of that position and length. |
| Format.LiteralRead | utility.c:2805-2811 | The bytes 1, c are the byte c. |
| Format.FlagRead | utility.c:2799-2805 | Unit k behind a flag byte f is a byte if and only if bit k of f is set. |
| Format.EighteenSpaces | utility.c:2795-2826 | The code 0x00, 0x00, 0x0f is 18 spaces. |
| Theorems.CompressAndRestore | utility.c:2674-2832 | Both methods one after the other, on buffers of n + ceil(n/8) and n bytes, restore the input. |
| Theorems.EncodedGreedy | utility.c:2585-2621 | The tokens spell out the input, cover it exactly, and each is the longest match that the window offers at its place, cut to the text that is left; only blank positions whose stand-in has left are excepted. |
| Exactness.EncodedExact | utility.c:2585-2621 | Each token of each input is a longest match over the whole window if and only if no position of the window is forgotten, or at most THRESHOLD spaces stand at its place, or a position that is not forgotten starts with as many spaces. |
| Shortfall.ShorterSent | utility.c:2719-2738 | There is an input for which Encode sends a token although the window offers a longer match. |
| Shortfall.TokensPlace | utility.c:2726-2738 | On that input the tokens, each known only as a sound and longest match, come to the last 18 spaces one after the other. |
| Theorems.EncodedSize | utility.c:2726-2771 | The code of n bytes has at most n + ceil(n/8) bytes. |
| Theorems.EncodedExpansion | utility.c:2798-2827 | The code of an input announces a text of exactly its length. |
| Theorems.RateSuffices | utility.c:2937-2943 | A buffer of compLen * compRate bytes is large enough for every code if and only if the rate is at least 9. |
| Theorems.ChainInvariant | utility.c:2577-2602 | After any number of bytes of any input, each of the 256 trees of Encode is a finite right chain without repetition that holds only positions of its own byte. |
| Theorems.WindowInvariant | utility.c:2719-2766 | In every state with text left the live positions lie in s..r around the ring, r is live, and no two live keys are equal. |
| Theorems.RingKey | utility.c:2748-2759 | While there is input left, the linear F-byte key of a live position is its string around the ring, thanks to the copies behind the ring. |
| Theorems.StableKey | utility.c:2748-2759 | A turn of the sliding loops changes no key of a position that stays in the window. |
| Lockstep.StartTogether | utility.c:2704-2724 | Encoder and decoder start with the same r and the same bytes in s..r-1. |
| Lockstep.TokenTogether | utility.c:2748-2826 | After every token both still have the same r and the same bytes in all N - F cells s..r-1, and the decoder has put out all text before r. |
| Lockstep.TogetherInStep | utility.c:2805-2826 | Having the same cells s..r-1 is the same as showing the last N - F bytes of the text. |
| Coverage.CoverageExactly | utility.c:2603-2621 | Every inserted position of the window has a live node with its key if and only if there is no gap: the oldest blank position before the text is gone, another is still inside, and no text position is blank. |
| Coverage.TextCovered | utility.c:2603-2621 | A text position in the window always has a live node with the same key at itself or at a later position. |
| Coverage.LongestExactly | utility.c:2585-2621 | The match reported is the longest over all inserted positions of the window if and only if none is lost, or another starts with as many spaces as the text at r. |
| Coverage.PlainStart | utility.c:2719-2724 | For an input that does not start with a space no position is ever lost. |
| Coverage.GapHappens | utility.c:2719-2724 | A concrete input on which, after 4077 bytes, the match found is shorter than the one at an inserted position that is still in the window. |
| Coverage.CulpritGap | utility.c:2603-2621 | In the state reached on that input the last space before the text matches all F bytes and the reported match does not. |
| EncoderModel.TurnedGood | utility.c:2748-2765 | Every turn of either sliding loop keeps the whole invariant and moves the window on by one byte. |
| EncoderModel.StartGood | utility.c:2704-2724 | The invariant holds before the first token, after the F insertions of spaces in falling order. |
| EncoderModel.SlidGood | utility.c:2750-2762 | Deleting the oldest position and writing the next byte over it leave a dictionary that is right for the next position, in the main phase and in the end phase. |
| EncoderModel.MovedCounters | utility.c:2748-2765 | What is sent plus what is buffered is what was read, len is F while input is left, and r and s stay F apart around the ring. |
| EncoderModel.TokenSound | utility.c:2727-2738 | Whatever stale bytes lie behind the text, the unit sent is well formed, covers 1..len bytes and agrees with the text on all of them. |
| EncoderModel.MatchSound | utility.c:2727-2738 | A match cut to the text that is left agrees with the history from a distance of at most N - F. |
| EncoderModel.TokenLongest | utility.c:2727-2738 | The unit sent is the longest match at its place, cut to the text that is left. |
| EncoderModel.TokensUnfold | utility.c:2726-2766 | A round of the outer loop advances by the bytes its token covers, never past the end, so the loop ends. |
| EncoderModel.TokensSound | utility.c:2726-2766 | From every state on the tokens spell out the rest of the text. |
| EncoderModel.TokensGreedy | utility.c:2726-2766 | From every state on each token is a longest match. |
| EncoderModel.InsertGood | utility.c:2758 | Inserting the new position gives a match and a dictionary that satisfy the invariant. |
| DictionaryModel.LookupBest | utility.c:2585-2611 | The walk reports the maximum common prefix of r's key with all live keys, and a position that attains it when it is not 0. |
| DictionaryModel.InsertExactly | utility.c:2585-2621 | After an insertion exactly r and the earlier positions with different keys are live, keys are again different, and the trees are chains of their own bytes. |
| DictionaryModel.InsertInOrder | utility.c:2569-2622 | In terms of the tree of r's byte in order: the first of the longest matches is reported, r takes the place of a position with the same key or comes last, other trees stay as they were, and with an empty tree the old match position is kept. |
| DictionaryModel.DeleteExactly | utility.c:2642-2672 | Deleting takes out p and no other live position. |
| DictionaryModel.KeysAgree | utility.c:2603-2608 | A common prefix of length F is the same as equal keys. |
| SearchTree.Dictionary.constructor | utility.c:2688-2694 | Fresh arrays filled with 0. |
| SearchTree.Dictionary.InitTree | utility.c:2624-2640 | Afterwards the arrays hold 256 empty trees. |
| SearchTree.Dictionary.DeleteNode | utility.c:2642-2672 | On every well-linked forest of binary trees the arrays afterwards hold the forest without p, with children and dads mutually inverse. |
| SearchTree.Dictionary.LiftPredecessor | utility.c:2653-2662 | The loop finds the rightmost descendant of the left child, and the arrays are those with it lifted out. |
| SearchTree.Dictionary.InsertNode | utility.c:2569-2622 | The globals hold the match of the specified walk, and the arrays hold the forest with r hung up last or put in the place of the equal node. |
| SearchTree.Dictionary.Walk | utility.c:2585-2611 | The loop visits the whole chain unless a full match stops it, and ends. |
| SearchTree.Dictionary.Compare | utility.c:2603-2605 | The inner loop returns the length of the common prefix of the two keys behind their first byte. |
| SearchTree.Dictionary.NotInTree | utility.c:2646-2647 | A cell of dad that is NIL means that the position is in no tree, so there is nothing to remove. |
| LinkArrays.DeleteShallow | utility.c:2648-2671 | The link changes without a descent remove p from its tree and leave all other trees linked as they were. |
| LinkArrays.DeleteDeep | utility.c:2652-2671 | The link changes after a descent to the rightmost node of the left subtree remove p and leave all other trees linked as they were. |
| LinkArrays.AttachForest | utility.c:2587-2592 | Hanging r to the end of a right spine appends it and leaves the rest of the forest linked. |
| LinkArrays.TakeOverForest | utility.c:2612-2621 | Giving r the links of p puts it in p's place and leaves the rest of the forest linked. |
| LinkArrays.DadOf | utility.c:2612-2620 | In a linked tree every node is the left or the right child of its dad, and has no place elsewhere. |
| Trees.RemoveExactly | utility.c:2642-2672 | Removing p removes exactly p and keeps the in-order sequence of all other nodes. |
| Trees.RemovedPlace | utility.c:2648-2671 | The place of a removed node goes to its only child, or to the last node in order of its left child, which takes over the right child as it was and the rest of the left child. |
| Trees.ReplaceExactly | utility.c:2612-2621 | Replacing p by r changes exactly that entry of the in-order sequence. |
| Trees.AppendExactly | utility.c:2587-2592 | Hanging r up last puts it behind all others, in order and on the right spine. |
| Matching.ScanLongest | utility.c:2603-2611 | The scan of a chain keeps the longest match seen, and stops early only at a full one. |
| Matching.ScanFirst | utility.c:2606-2610 | Of matches of the same length the walk keeps the first. |
| SlidingWindow.WindowInsert | utility.c:2758 | An insertion keeps the account of which positions the live ones stand for. |
| SlidingWindow.WindowDelete | utility.c:2751 | So does the deletion of the oldest position. |
| SlidingWindow.WriteKeepsKey | utility.c:2752-2754 | Writing a byte and its copy changes the key of no position that is at least F bytes back. |
| SlidingWindow.KeyReads | utility.c:2577-2611 | A linear key reads the history as far as that has been written; only the bytes behind it are stale. |
| Tokens.ParsePack | utility.c:2729-2771 | Reading back the code of any sequence of well-formed units gives that sequence. |
| Tokens.PairRoundTrip | utility.c:2734-2738 | The 12/4-bit packing of a position and a length is undone by the decoder. |
| Tokens.RoomForUnit | utility.c:2729-2745 | A further unit fits into the 17 bytes of code_buf, its flag bit is clear, and the mask runs out after eight units. |
| Tokens.PackAppend | utility.c:2740-2745 | Sending whole groups one after the other is packing their sequence. |
| Tokens.PackBound | utility.c:2726-2771 | Packing adds at most one byte in eight. |
| Tokens.ExpansionBound | utility.c:2798-2827 | On any input 17 times the length of the text is at most 144 times that of the code. |
| Tokens.RegisterLoad | utility.c:2803 | The flag register loaded with 0xff00 counts eight units. |
| Tokens.RegisterShift | utility.c:2799-2805 | Bit 8 is clear exactly when all eight are used up, and bit 0 is the flag of the next unit. |
| BitOperators.AndOnes | utility.c:2755 | `& (N - 1)`, and every mask of ones, takes the remainder. |
| BitOperators.OrAdds | utility.c:2731-2738 | The bitwise "or" of numbers without a common bit is their sum. |
| BitOperators.Wrap | utility.c:2755-2756 | `& (N - 1)` goes around the ring; both methods move with it. |
| BitOperators.SetFlag | utility.c:2731 | "Or" with mask on a flag byte whose bits from the mask on are clear adds the mask. |
| BitOperators.PairByte | utility.c:2736-2738 | The second byte of a pair has bits 8 to 11 of the position above the length. |
| BitOperators.PairPosition | utility.c:2818 | The position of a pair from its two bytes. |
| BitOperators.BitEight | utility.c:2799 | `flags & 256` is 0 exactly when bit 8 is clear. |
| History.CopyInStep | utility.c:2820-2825 | A copy byte by byte writes the text even where it reads what it has just written. |
| History.ApplyInStep | utility.c:2805-2826 | A sound token keeps the decoder in step with the text. |
| History.SoundDecodes | utility.c:2798-2827 | Sound tokens, packed, decode to the text, whatever the buffer held. |
| History.ApplyLength | utility.c:2798-2827 | The output has the length that the tokens announce, whatever the ring holds. |
| Decoding.CopyPair | utility.c:2820-2825 | The copy loop does on the arrays what the pair means. |
| Decoding.DecodeUnit | utility.c:2805-2826 | A turn of the loop takes one unit off the input and applies it, or finds the input cut short. |
| Encoding.Fill | utility.c:2706-2711 | The buffer holds the spaces, the first bytes of the input, and 0 behind them. |
| Encoding.Prime | utility.c:2719-2724 | After the F + 1 insertions the arrays and globals hold the specified dictionary and match. |
| Encoding.Slide | utility.c:2748-2765 | The two sliding loops make as many turns as the token covers bytes. |
| Encoding.PutUnit | utility.c:2727-2740 | After the clamp one unit is in code_buf, its flag is in the first byte, and the mask has moved on. |
| Encoding.Flush | utility.c:2741-2742 | The code buffer goes to the output, which is otherwise untouched. |
| Encoding.AllRounds | utility.c:2726-2766 | The outer loop sends the specified tokens in groups of eight. |
| ConfigUpdate.UpdateConfigIntoFlash | utility.c:2929-3267 | On any bytes on which the source comes to an end and stays in its buffers, the loop, with its calls of Decode, does what the specified walk over the records does, whatever fresh memory holds. |
| RecordMeaning.EveryUpdate | utility.c:2929-3247 | For any data: update i of a walk is that of the whole record that lies where those before it end; its block has the tag of the section, the first that has it, and of the mode 1, 2 or 0; the version is that of the block's header; the checksum of the payload that the header announces is right; and the bytes stored are those of the record. |
| RecordMeaning.LookMeans | utility.c:2932-3247 | For any data and offset: an update is due if and only if record and payload are whole, the block has one of the nine tags and the checksum is right; the record is corrupt if and only if all that holds but the checksum; it is foreign if and only if its block has none of the tags. |
| RecordMeaning.WrongChecksum | utility.c:3030-3033 | A record with a tag and a wrong checksum ends the walk at once with status 0 and without an update. |
| ConfigUpdate.Expand | utility.c:2937-2943 | A new buffer of compLen * compRate bytes starts with what the code means, and is otherwise as the memory was. |
| ConfigUpdate.FindTag | utility.c:2982-3173 | The nine tests decide for the first section, in order, that has the tag, and for the first of its modes, update before force before upgrade; -1 means that no section has the tag. |
| ConfigUpdate.TagUnique | utility.c:2982-3173 | These conditions leave no other section and no other mode. |
| ConfigUpdate.HandleRecord | utility.c:2932-3247 | The record at any offset of any data, expanded and judged, is what the model finds there. |
| ConfigTheorems.StoreSettings | utility.c:2929-3267 | Data made of records that Encode has compressed are consumed completely with status 1; there is one update per record, in order, and the sections of the updates are returned. |
| ConfigTheorems.UpdatesAre | utility.c:3046 | The updates of intact records are one for one those of the records, with the record's own bytes. |
| ConfigTheorems.EncodedWellFormed | utility.c:2937-2943 | A record whose code is that of its block and whose rate is at least 9 expands to the block in the room it has, whatever the decoder's buffer held. |
| ConfigRecords.WalkAll | utility.c:2929-3267 | Intact records up to a boundary at total: one flash update per record, in order, and the walk ends at the boundary. |
| ConfigRecords.WalkStops | utility.c:3030-3267 | The first record that is not intact ends the walk, with status 0 if its checksum is wrong; exactly the records before it are in flash. |
| ConfigRecords.OnlyIntact | utility.c:2929-3267 | For any data: the flash updates are exactly those of the intact records that lie one behind the other from the start on, and the walk ends behind the one that reaches total or at the first that is not intact, for the reason it gives. |
| ConfigRecords.StuckExactly | utility.c:2982-3253 | The loop never ends if and only if intact records lead to a block with none of the nine tags while bytes are left. |
| Firmware.RouterUpdateFirmware | router_dev.c:1831-1855 | The buffer is the 17-byte text followed by the file. |
| Firmware.FramedBytes | router_dev.c:1831-1855 | The text is "/octet-stream" and two line ends, byte by byte. |
| Firmware.FramedOffset | utility.c:3282-3328 | In a framed file the payload is found at offset 17, whatever the file holds. |
| Firmware.OffsetOctet | utility.c:3282-3325 | Where "/octet-stream" and a line end is found first, the payload starts 17 bytes on. |
| Firmware.OffsetProxy | utility.c:3283-3320 | Without that, it starts 26 bytes behind "/x-ns-proxy-autoconfig" and a line end. |
| Firmware.OffsetMac | utility.c:3285-3316 | Without these, 14 bytes behind "/macbinary" and a line end. |
| Firmware.OffsetXMac | utility.c:3287-3312 | Without these, 16 bytes behind "/x-macbinary" and a line end. |
| Firmware.OffsetByName | utility.c:3289-3303 | Without a type, 4 bytes behind the first line end behind the first quote behind "filename=". |
| Firmware.NoOffset | utility.c:3289-3310 | Without these either there is none. |
| CStrings.Strstr | utility.c:3282-3297 | What is found is an occurrence at or behind the start. |
| CStrings.StrstrFirst | utility.c:3282-3297 | It is the first one: an occurrence that starts before the NUL is never passed over. |
| CStrings.StrstrIs | utility.c:3282-3297 | What is found is the first occurrence with no NUL before it, and -1 means that there is none. |
| Firmware.FwChecksumOk | utility.c:2160-2174 | The loop tests whether the 16-bit words, one byte more if the length is odd, sum up to 0 modulo 65536. |
| Firmware.SumOfWords | utility.c:2160-2174 | The sum is that of all words, one after the other, each 256 times its first byte plus its second. |
| Firmware.OneByteCaught | utility.c:2160-2174 | The sum catches every change of a single byte. |
| ImageUpgrade.DoFirmwareUpgrade | utility.c:3374-3658 | For every upload on which the source stays in its buffers, comes to an end and asks for no negative size, the loop does what the specified walk does, settings and images of negative length included. |
| ImageMeaning.EveryAction | utility.c:3374-3658 | For every upload, in terms of its bytes: "r6cr" images go without header to address 0 of the second device, "cs6c", "cr6c" and web images with header to their burn address of the first; firmware images written have words that sum up to 0, web images pass CHECKSUM_OK, none is longer than 0x400000 bytes; updates are those of right records; the items adjoin; the walk ends for the reason given; a failed write is followed by what it left. |
| ImageMeaning.ImagesLand | utility.c:3382-3658 | A framed file of such images, each with the right length and sum, is installed by exactly these writes, in order. |
| ImageMeaning.RootLands | utility.c:3402-3640 | A framed root image alone is written to the start of the second device, and nothing else is. |
| ImageMeaning.KindMeans | utility.c:3400-3430 | The four bytes of the signature, and the order in which signatures are tried. |
| ImageUpgrade.CheckImage | utility.c:3453-3474 | The length is tested before the checksum, and before anything is read of the image; a firmware image of negative length passes both tests. |
| ImageUpgrade.WriteImage | utility.c:3543-3658 | Root images go without their header to the start of the second device, others with it to their burn address; a negative length shortens what is written; a short write leaves the front of that. |
| ImageUpgrade.HandleSettings | utility.c:3427-3445 | A settings record goes to updateConfigIntoFlash with length 0, and the upload is rejected if that fails or knows no section. |
| ImageUpgrade.OneRecord | utility.c:3250-3265 | With length 0 the walk over the settings handles the first record and stops, whatever it is. |
| ImageUpgrade.StartAddress | utility.c:3543-3568 | The start address that the flags lead to. |
| ImageTheorems.OnlyVerified | utility.c:3382-3658 | For every upload: the actions are complete writes of whole images with right length and checksum to their places, updates of intact records, and writes of the front of Linux headers that announce a negative length; their items adjoin, the walk stops behind them for exactly the reason it gives, and only a failed write adds an action, the front of what was to be written. |
| ImageTheorems.VerifiedExactly | utility.c:3382-3658 | For every upload, as far as the walk is followed: every action is a verified write or update, or the front of a verified image, if and only if no Linux image that the walk meets announces a negative length that leaves some of its header. |
| ImageTheorems.NegativeLength | utility.c:3453-3653 | Behind any good items a Linux header with such a length has its front written to the address that it names, and the walk goes on with the rest of the header. |
| ImageTheorems.MinusOne | utility.c:3453-3653 | With length -1 and less than a header behind it, the upgrade ends in success after an unverified write of all of the header but its last byte. |
| ImageTheorems.AllInstalled | utility.c:3382-3658 | For every sequence of good images and settings records in a framed file: one action per item, in order, at the right place, and success. |
| InstallTheorems.UpgradeInstalls | utility.c:3382-3658 | For every sequence of good images and of settings compressed by Encode: that, and what each update leaves in flash expands to the block that was compressed. |
| ImageTheorems.TailIgnored | utility.c:3382-3450 | A tail that is too short, or without a known signature behind good items, changes nothing. |
| ImageTheorems.LongImageStops | utility.c:3453-3456 | An image that announces more than 0x400000 bytes stops the walk unwritten, whatever follows its header; exactly the good items before it have been handled. |
| ImageTheorems.BadImageStops | utility.c:3458-3474 | So does an image with a wrong checksum. |
| ImageTheorems.BadSettingStops | utility.c:3427-3445 | So does a settings record with a wrong checksum or without one of the nine tags. |
| ImageTheorems.ItemsMet | utility.c:3382-3658 | Good items are handled one by one from wherever they lie. |
| Escape.HtmlSpecialCharReplace | utility.c:3821-3865 | 0 is returned if and only if there is a cell and the text is empty, or its escape and two more bytes fit; the buffer then holds the escape and zeros, otherwise the longest front that fits; nothing behind bufLen is written. |
| Escape.UnitMeans | utility.c:3832-3858 | `<` goes out as `&lt;`, `>` as `&gt;`, the quote as `&quot;`, every other character as itself. |
| Escape.KeptLongest | utility.c:3826-3863 | The front that goes out is the longest one that fits. |
| Escape.NoMarkup | utility.c:3832-3858 | The output holds no <, no > and no ". |
| Escape.RestoredExactly | utility.c:3832-3858 | Unescaping gives the text back if and only if none of the three escapes stands in it. |
| Escape.NoAmpersands | utility.c:3832-3858 | That is so for every text without an ampersand. |
| Parser.ResponseRoundTrip | parser.c:175-186 | Split like a request, the response to a complete request gives its version, "response", its command, and the payload unchanged, semicolons and colons included. |
| Parser.Sscanf | parser.c:57-176 | The loop over the conversions assigns what they find one after the other, and stops at the first that finds nothing. |
| Parser.ScanFields | parser.c:57-176 | A format of `%[^:]%*c` and a last `%s` reads fields between colons, the last one a word. |
| Parser.ReadBackExactly | parser.c:176 | Fields printed with colons are read back if and only if all are there, none but the last has a colon, and the last has no white space. |
| Parser.FieldsMean | parser.c:57-176 | A field before the last one ends at a colon or at the end; an empty one ends the reading. |
| Parser.WordMeans | parser.c:57-176 | The last field is a word: white space before it is skipped, white space ends it. |
| Parser.StrtokMeans | parser.c:175 | Semicolons before the first token are skipped, the first one behind it ends it, and without one it is the whole rest. |
| Commands.StartWith | parser.c:25-40 | The loop decides whether one text starts with another, upper and lower case being the same. |
| Commands.StartsMeans | parser.c:25-40 | Letters are the same in upper and lower case, and nothing else is. |
| Commands.FindOperation | parser.c:52-166 | The tests in their order find the longest keyword that fits, and none exactly when none fits. |
| Commands.FoundLongest | parser.c:52-166 | No keyword but set_router_wifi can hide a longer one, so first is longest. |
| Commands.HandleCmd | parser.c:42-167 | The longest keyword decides what is called, with the data in which members of the structs, and what router_init becomes. |
| Commands.CarryOut | parser.c:52-162 | Each branch sets router_init and scans the data with its own format, for the device, into the members that belong to the operation. |
| CommandMeaning.SearchMeans | parser.c:52-58 | Every request that starts with set_router_search, with two fields: they fill id and data, and router_init becomes 0. |
| CommandMeaning.RepeaterMeans | parser.c:70-77 | Four fields fill name, channel, key and key_type of the repeater; router_init becomes 1. |
| CommandMeaning.BoxPppoeMeans | parser.c:84-97 | From a box, two fields fill name and key; router_init becomes 1. |
| CommandMeaning.PhonePppoeMeans | parser.c:84-97 | From a phone, seven fields fill name and key, and then wifiType1, wifiType2, name, key_type and key of the wireless settings; router_init becomes 1. |
| CommandMeaning.BoxIpMeans | parser.c:99-113 | From a box, four fields fill ip, mask, getway and dns; router_init becomes 1. |
| CommandMeaning.PhoneIpMeans | parser.c:99-113 | From a phone, nine fields fill these, and then wifiType1, wifiType2, name, key_type and key of the wireless settings; router_init becomes 1. |
| CommandMeaning.PhoneDhcpMeans | parser.c:115-124 | From a phone, five fields fill wifiType1, wifiType2, name, key_type and key of the wireless settings; router_init becomes 1. |
| CommandMeaning.BoxDhcpMeans | parser.c:115-124 | From a box nothing is scanned; router_init becomes 1. |
| CommandMeaning.WifiMeans | parser.c:126-132 | Five fields fill wifiType1, wifiType2, name, key_type and key of the wireless settings, unless the command starts with the longer set_router_wifiSearch; router_init becomes 1. |
| CommandMeaning.MacMeans | parser.c:146-154 | One field fills mac; router_init becomes 1. |
| CommandMeaning.RepeaterGetMeans | parser.c:60-63 | The call without fields, and router_init becomes 0. |
| CommandMeaning.WifiSearchMeans | parser.c:65-68 | The call without fields, and router_init becomes 0. |
| CommandMeaning.EnRepeaterMeans | parser.c:79-82 | The call without fields, and router_init becomes 1. |
| CommandMeaning.RebootMeans | parser.c:134-138 | The call without fields, and router_init becomes 1. |
| CommandMeaning.ResetMeans | parser.c:140-144 | The call without fields, and router_init becomes 1. |
| CommandMeaning.CheckUpdateMeans | parser.c:156-158 | The call without fields, and router_init stays as it was. |
| CommandMeaning.UpdateMeans | parser.c:160-162 | The call without fields, and router_init stays as it was. |
| CommandMeaning.NoneMeans | parser.c:164-166 | A command with none of the fourteen keywords gives -1 and changes nothing. |
| Commands.StrtokR | parser.c:175 | The buffer is cut in place: it holds the first token and the rest as two texts, and only a semicolon has been overwritten. |
| Commands.ParserCmd | parser.c:169-193 | A request in a buffer is cut in place, carried out and answered in the form version:response:command;text. |
| CommandMeaning.AnswerMeans | parser.c:169-193 | The request version:verb:command;data is answered with version:response:command; and the text that comes of this command with these data. |
| CommandMeaning.ShortAnswer | parser.c:176-190 | Fields that the request lacks stand in the answer as the struct held them. |

## Left out

- Sockets, polling, threads, pipes and process control (main.c, client.c, update.c); ioctl wrappers and command builders.
- `CHEAT_COMPRESS_MIB_SETTING`, failing allocations, and numbers that overflow an int or an unsigned int.
- Search order in the trees: the code does not keep it.
- Encoding.Encode: requires room for the whole code; the source does not know the size of its output buffer.
- Decoding.Decode: requires room for the text; the source does not know the size of its output buffer.
- ConfigUpdate.UpdateConfigIntoFlash: takes data on which the source comes to an end and stays in its buffers; walks that do not are the outcomes `Stuck` (exactly characterised by `ConfigRecords.StuckExactly`) and `Overrun`. Headers are big-endian as on the router, so nothing is swapped in place; `HEADER_LEN_INT` is off.
- ConfigTheorems.StoreSettings: takes a total on a record boundary; on any other total the walk runs on to the end of the record.
- ImageUpgrade.DoFirmwareUpgrade: takes uploads on which the source comes to an end and stays in its buffers; reading or writing outside of them is the ending `OutOfBounds`, a walk that never moves on is `Endless`. Where a negative size goes to `CHECKSUM_OK` or to `write` (web and root images of negative length, Linux images whose length takes away more than the header) the ending is `NegativeSize`, and what happens then is not modelled. Opening the devices succeeds. Interface shutdown, killing of processes, the forwarding daemon, dual banks and the reboot are left out.
- ImageUpgrade.CheckImage: leaves out the messages. The one for a wrong checksum prints two bytes at `len - 2` of the upload, which for length 1 start in front of the buffer.
- ImageTheorems.AllInstalled: all writes complete; `ImageTheorems.OnlyVerified` is about those that do not.
- Firmware.RouterUpdateFirmware: the file is there and is read in whole.
- Commands.ParserCmd: a request has a token, fields fit into their 64 bytes, and the response fits its buffer. What the router does with a call is a function; fields that sscanf leaves alone are parameters.
- Escape.HtmlSpecialCharReplace: the input is a C string.
- `calc_mac`, `set_mac_addr` and the other small helpers of router_dev.c and utility.c.
