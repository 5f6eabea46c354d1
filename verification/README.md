# Models of the algorithmic cores of the firmware

This project models seven parts of the face recognition firmware for the K210 and proves what they
promise. Each part is a few modules; a class or a method stands for code that changes its state step
by step, and a function next to it says what the code computes, so that lemmas can speak about it.

1. **JSON tree transformations** (`cJSON_Utils.c`): the merge sort of linked lists and the list surgery on
   the heap (`ItemList`, `MergeSort`); JSON Pointer (`JsonPointer`, `JsonPaths`, `JsonResolve`); comparison (`JsonTree`, `JsonSame`);
   JSON Patch (`JsonPatch`, `JsonPatchBelow`, `JsonPatchRoundTrip`, `JsonPatchOutcome`, `JsonPatchExact`,
   `JsonPatchTilde`, `JsonPatchLimits`, `JsonPatchMoves`, `JsonPatchDocuments`); merge patches (`JsonMerge`, `JsonMergeGenerate`,
   `JsonMergeExact`, `JsonMergeLetters`). Main results: merging as section 2 of
   RFC 7396 has it, what every patch object and every pointer asks for, and exactly when generated patches, a
   generated merge patch or a generated pointer lead where they should.
2. **JPEG entropy coding** (`jpeg_encode.c`, `picojpeg.c`): bits (`JpegBits`), canonical Huffman codes
   (`JpegHuffman`, `JpegTables`), the decoder's buffers (`JpegReader`), the encoder's buffer
   (`JpegWriter`), blocks (`JpegEncode`, `JpegDecode`, `JpegZigZag`, `JpegRoundTrip`) and scans
   (`JpegScan`, `JpegDecodeScan`, `JpegWhole`), and the procedures of the standard (`JpegFigures`). Main results: the
   decoder inverts the encoder on every scan, and the encoder writes what the figures of the standard say.
3. **JSON printer and parser** (`cJSON.c`): text (`JsonText`), print buffer (`JsonPrinter`), string literals
   (`JsonStrings`, `JsonLiterals`), parser (`JsonParser`, `JsonReading`), grammar (`JsonGrammar`, `JsonGrammarParse`,
   `JsonGrammarSpelt`), round trip (`JsonPrintParse`, `JsonNesting`, `JsonFormat`), minifier (`JsonMinify`,
   `JsonMinifyText`, `JsonMinifyMeaning`). Main results: the parser takes exactly the texts of the grammar, for what
   they mean; print then parse; the exact space a print needs; the space bound of the two-pass unescaper; and minifying
   keeps the meaning of every text that is parsed, comments or not.
4. **Pixel arithmetic** (`image_op.c`): rotation (`ImageRotate`, `ImageCycles`, `ImageInPlace`, `ImageQvga`,
   `Division`) and blending (`ImageBlend`). Main results: the in-place rotation is right exactly when its
   two cycles are, which they are for 320 by 240; packed blending is exact.
5. **Face store** (`flash.c`): `Bitmap`, `FlashBitmap`, `FlashState`, `FlashRuns`, `FlashStore`. Main result:
   over every run with power losses between any two writes the store is consistent and atomic.
6. **List and display list** (`list*.c`, `lcd_dis.c`, `face_cb.c`): `ListChain`, `ListPool`, `DisplayItems`,
   `LcdDisplay`. Main result: every operation keeps the slots in use equal to the nodes in the list, the ids
   distinct and the iterators returned, and a walk that removes what it visits still visits all of it.
7. **Base64** (`base64.c`): `Base64Text`, `Base64Rfc`, `Base64`. Main results: the encoding of section 4 of RFC 4648,
   and decoding undoes it, whatever stands between the symbols.

`dafny verify dfyconfig.toml` checks everything.

Where the code does something other than its documentation or the standard it follows, the model has what
the code does. These places are stated as lemmas: pointer escaping and unescaping
(`JsonPointer.EscapingCorrectIff`, `JsonPointer.DecodeTokenCorrectIff`), array indices
(`JsonPointer.DecodeIndexCorrectIff`), removal and replacement without regard to letter case
(`JsonPatchLimits.RemoveIsExactIff`, `JsonPatchLimits.ReplaceIsExactIff`) and what they make of the patch round trip
(`JsonPatchExact.PatchRoundTripIff`), keys with a tilde (`JsonPatchTilde.LastTokenIff`), moving to the root
(`JsonPatchMoves.MoveIsRemoveAddIff`), raw items (`JsonPatchLimits.RawIsNeverPatched`), merge patches with
upper-case keys (`JsonMergeGenerate.MergeFailsForUpperCase`, `JsonMergeExact.MergeRoundTripIff`,
`JsonMergeLetters.MergeFailsBelowRoot`), control characters between tokens (`JsonGrammarSpelt.ParsesIff`), block comments
that a slash ends at once (`JsonMinifyText.SlashEndsBlock`), the window test of the blending (`ImageBlend.TestGuaranteesIff`), a Huffman
code of sixteen ones (`JpegHuffman.DecodesIff`), odd cycles (`ImageInPlace.OddCycleLoses`), and deleting a free slot or changing a
user id (`FlashRuns.KeepsIff`).

## Model

| member | source | states |
|---|---|---|
| ItemList.SortList | components/utils/cJSON/src/cJSON_Utils.c:460-569 | sorting a doubly linked list ends, and leaves a well formed list (previous and next pointers mutually inverse, null at both ends) of exactly the given nodes in the order of `MergeSort.Sort` |
| ItemList.IsAscending | components/utils/cJSON/src/cJSON_Utils.c:474-483 | the test that lets the sort leave a list alone: it holds exactly for a list whose neighbours are strictly ascending |
| ItemList.Split | components/utils/cJSON/src/cJSON_Utils.c:485-503 | the slow and the fast pointer cut the list into its two halves, both well formed |
| ItemList.MergeLists | components/utils/cJSON/src/cJSON_Utils.c:510-569 | two well formed lists with no common node become one, in the order of the merge, ties going to the second list |
| MergeSort.SortSorted | components/utils/cJSON/src/cJSON_Utils.c:460-569 | the sorted sequence is ordered by key in either mode; it is a permutation of what was given |
| MergeSort.EqualsTurnRound | components/utils/cJSON/src/cJSON_Utils.c:460-569 | items with the same key come out in the opposite order, so that with the order and the permutation only one result is left |
| ItemList.DetachItemFromArray | components/utils/cJSON/src/cJSON_Utils.c:373-403 | exactly the node at the index leaves the list, its own pointers cleared; null when the index is past the end |
| ItemList.InsertItemInArray | components/utils/cJSON/src/cJSON_Utils.c:669-704 | refused with nothing changed exactly when the index is past the end; otherwise the node stands at that index |
| ItemList.AddItemToArray | components/utils/cJSON/src/cJSON.c:1848-1881 | the node is linked behind the last one |
| CStrings.CompareStrings | components/utils/cJSON/src/cJSON_Utils.c:73-99 | the sign of the first difference, with or without regard to letter case |
| CStrings.LessIff | components/utils/cJSON/src/cJSON_Utils.c:73-99 | less is a proper beginning, or the smaller character at the first difference |
| JsonPointer.ComparePointers | components/utils/cJSON/src/cJSON_Utils.c:102-136 | the walk over name and pointer in step |
| JsonPointer.PointerMatchesMeaning | components/utils/cJSON/src/cJSON_Utils.c:102-136 | a token matches exactly the keys that equal what the token stands for under sections 3 and 4 of RFC 6901; a wrong escape matches nothing |
| JsonPointer.PointerEncodedLength | components/utils/cJSON/src/cJSON_Utils.c:139-152 | the length that escaping needs |
| JsonPointer.EncodeStringAsPointer | components/utils/cJSON/src/cJSON_Utils.c:155-177 | the loop that escapes a key into memory |
| JsonPointer.EncodeIntoIs | components/utils/cJSON/src/cJSON_Utils.c:155-177 | it writes the bytes of the escaped key, the terminator behind them, and nothing in front of or behind these |
| JsonPointer.EncodedMatchesIff | components/utils/cJSON/src/cJSON_Utils.c:155-177 | the escaped key is matched by the key it came from exactly when it survives the escaping: no tilde, and a slash only where the fresh memory held a tilde |
| JsonPointer.EscapingCorrectIff | components/utils/cJSON/src/cJSON_Utils.c:155-177 | escaping is a right inverse of matching for every content of the fresh memory exactly for keys without tilde and slash |
| JsonPointer.DecodePointerInplace | components/utils/cJSON/src/cJSON_Utils.c:339-370 | the loop that decodes a token in place |
| JsonPointer.DecodeTokenCorrectIff | components/utils/cJSON/src/cJSON_Utils.c:339-370 | a token is decoded to what RFC 6901 says exactly when it has no `~1` and every character behind an escape equals the one as many places earlier as there were escapes |
| JsonPointer.DecodeTokenInvalid | components/utils/cJSON/src/cJSON_Utils.c:339-370 | a token with a tilde that begins no escape still decodes to a key: what stands from that tilde on stays, and the key is as long as the token, as no terminator is written |
| JsonPointer.DecodeTokenWrong | components/utils/cJSON/src/cJSON_Utils.c:339-370 | `~1` becomes a tilde, and `~0a` loses its last character |
| JsonPointer.DecodeTokenFree | components/utils/cJSON/src/cJSON_Utils.c:339-370 | a token without tilde is left alone |
| JsonPointer.DecodeArrayIndex | components/utils/cJSON/src/cJSON_Utils.c:254-279 | the loop that reads an array index, with the wraparound of a `size_t` |
| JsonPointer.DecodeIndexAccepts | components/utils/cJSON/src/cJSON_Utils.c:254-279 | which tokens are taken for an index: the empty one, zero, and those that start with a digit from 1 on and hold no character below `0` |
| JsonPointer.DecodeIndexWraps | components/utils/cJSON/src/cJSON_Utils.c:254-279 | the value of a run of digits arrives modulo the range of a `size_t` |
| JsonPointer.DecodeIndexCorrectIff | components/utils/cJSON/src/cJSON_Utils.c:254-279 | for any token, what is accepted and its value agree with section 4 of RFC 6901 exactly when the token is not empty, holds nothing above the digits behind a leading digit, and its value is below 2^64 |
| JsonPointer.DecodeIndexAcceptsLetter | components/utils/cJSON/src/cJSON_Utils.c:254-279 | a letter behind a digit is taken for a digit |
| JsonPointer.DecodeIndexOfToken | components/utils/cJSON/src/cJSON_Utils.c:254-279 | a token is read as an index in the same way whatever follows it in the pointer |
| JsonPaths.GetItemFromPointer | components/utils/cJSON/src/cJSON_Utils.c:281-326 | the loop that follows a pointer finds the node of the resolved path, or none; which path that is, and when there is none, is in `JsonResolve` |
| JsonResolve.ResolveIff | components/utils/cJSON/src/cJSON_Utils.c:281-326 | section 4 of RFC 6901: a pointer leads to a path if and only if, token by token, the next node is an array with the decoded index below its length, or an object whose first member with the meaning of the token as its key stands there |
| JsonResolve.NodeIff | components/utils/cJSON/src/cJSON_Utils.c:281-326 | there is a node exactly when some path is led to |
| JsonResolve.NoChildIff | components/utils/cJSON/src/cJSON_Utils.c:281-326 | below a node nothing is found exactly when the next token is no index or one from the length on, a key that no member has or a wrong escape, or when the node is a leaf |
| JsonResolve.EscapedMeansKey | components/utils/cJSON/src/cJSON_Utils.c:102-136 | every key written with `~0` and `~1` as in section 3 of RFC 6901 is a token that means the key |
| JsonResolve.NoSlashIsRoot | components/utils/cJSON/src/cJSON_Utils.c:281-326 | a pointer that does not begin with a slash is taken for the whole document |
| JsonPaths.FindPointerFromObjectTo | components/utils/cJSON/src/cJSON_Utils.c:179-239 | the search through all children builds the pointer of the target, and fails exactly when the target is not in the tree |
| JsonPaths.DecimalIndex | components/utils/cJSON/src/cJSON_Utils.c:254-279 | printing an index and decoding it gives the index back, whatever ends the token |
| JsonPaths.ChildTokenSelects | components/utils/cJSON/src/cJSON_Utils.c:179-239 | the token built for a child selects that child, and not an earlier sibling, exactly when its key is portable and no earlier key equals it |
| JsonPaths.PointerInverse | components/utils/cJSON/src/cJSON_Utils.c:179-326 | resolving the pointer of a node gives that very node exactly when every key on the way down survives escaping and is the first of its siblings, in either mode |
| JsonPaths.EveryNodeAddressable | components/utils/cJSON/src/cJSON_Utils.c:179-326 | with unique keys free of tilde and slash every node is found again by its pointer |
| JsonTree.CompareNodes | components/utils/cJSON/src/cJSON_Utils.c:580-666 | the recursion of the comparison with its loops over the children, and what it leaves of both trees: it sorts the objects it reaches, up to the first difference |
| JsonTree.CompareDecidesSame | components/utils/cJSON/src/cJSON_Utils.c:580-666 | on trees with unique keys and no raw item the comparison decides equality up to the order of members, whatever order it is given |
| JsonSame.LeftSame | components/utils/cJSON/src/cJSON_Utils.c:580-666 | comparing in any mode leaves both trees the same up to the order of members |
| JsonTree.FindPermutation | components/utils/cJSON/src/cJSON_Utils.c:706-714 | sorting an object does not change what is looked up in it |
| JsonPatch.ApplyPatches | components/utils/cJSON/src/cJSON_Utils.c:1012-1068 | the loop over the patches stops at the first one that fails and returns its status |
| JsonPatch.CreatePatches | components/utils/cJSON/src/cJSON_Utils.c:1115-1253 | the patches for two nodes are appended to the list |
| JsonPatch.CreateItemPatches | components/utils/cJSON/src/cJSON_Utils.c:1144-1187 | the three loops for arrays: common positions, removals that all name one position, additions at the end |
| JsonPatch.CreateMemberPatches | components/utils/cJSON/src/cJSON_Utils.c:1189-1248 | the walk through both sorted member lists |
| JsonPatchBelow.ApplyIsRun | components/utils/cJSON/src/cJSON_Utils.c:783-1010 | decoding the objects that the generator made gives back the generated operations, so that applying them is running those |
| JsonPatchBelow.RunBelow | components/utils/cJSON/src/cJSON_Utils.c:783-1010 | patches prefixed by the token of a child, applied to the whole tree, act as the unprefixed patches on that child |
| JsonPatchBelow.DiffPrefixed | components/utils/cJSON/src/cJSON_Utils.c:1115-1253 | the patches generated below a path are the ones from the root with the path put in front |
| JsonPatchRoundTrip.DiffLeadsTo | components/utils/cJSON/src/cJSON_Utils.c:783-1253 | run on any tree that equals the old one up to member order, the generated patches succeed and leave one that equals the new one; later array indices stay right while earlier patches run |
| JsonPatchRoundTrip.PatchRoundTrip | components/utils/cJSON/src/cJSON_Utils.c:783-1283 | generating patches from two trees and applying them to the first gives status 0 and a tree that compares equal to the second, in either mode |
| JsonPatchOutcome.ReplaceOutcome | components/utils/cJSON/src/cJSON_Utils.c:783-1010 | what a replacement leaves of an object, whichever member its path leads to |
| JsonPatchOutcome.StaysWrong | components/utils/cJSON/src/cJSON_Utils.c:783-1010 | a value that has gone wrong stays wrong, whatever the later patches of the object do |
| JsonPatchOutcome.StaysStuck | components/utils/cJSON/src/cJSON_Utils.c:783-1010 | a member whose key no path can name is there to the end |
| JsonPatchExact.PatchRoundTripIff | components/utils/cJSON/src/cJSON_Utils.c:783-1283 | for any two documents with keys free of slashes, tildes and raw items among them, and in either mode: patches generated and applied to the old document, as the generator leaves it, report success and give the new document if and only if, in every pair of objects compared, no member that changes or goes has a key that differs in letter case alone from one sorted before it that stays, keys that go, change or come have no tilde but at their end, nothing changes below a key with a tilde, and raw items that stay are equal |
| JsonPatchLimits.RemoveIsExactIff | components/utils/cJSON/src/cJSON_Utils.c:406-457 | a removal takes the member with exactly its key if and only if no earlier key differs from it in letter case alone |
| JsonPatchLimits.ReplaceIsExactIff | components/utils/cJSON/src/cJSON_Utils.c:406-457 | a replacement changes the member with exactly its key and no other under the same condition |
| JsonPatchTilde.LastTokenIff | components/utils/cJSON/src/cJSON_Utils.c:339-370 | escaped and decoded as the last token, a key without slash comes back exactly when it has no tilde but at its end |
| JsonPatchLimits.RemoveTildeIff | components/utils/cJSON/src/cJSON_Utils.c:406-457 | a removal takes exactly the member with such a key, tildes or not, under that condition |
| JsonPatchLimits.AddTildeIff | components/utils/cJSON/src/cJSON_Utils.c:935-990 | an addition puts the value under exactly such a key under that condition |
| JsonPatchLimits.TidyIsOrderly | components/utils/cJSON/src/cJSON_Utils.c:783-1283 | documents without raw items and tildes whose old keys are unique up to letter case meet the condition of `PatchRoundTripIff` |
| JsonPatchLimits.PatchFailsForLetterCase | components/utils/cJSON/src/cJSON_Utils.c:406-457 | two keys that differ in letter case: the case-sensitive round trip reports success and leaves the wrong member; the documents break the condition of `PatchRoundTripIff` |
| JsonPatchLimits.RawIsNeverPatched | components/utils/cJSON/src/cJSON_Utils.c:580-666 | two raw items always compare equal, so that no patch leads from one to another: the round trip is right for them exactly when they are equal |
| JsonPatchMoves.TestDecides | components/utils/cJSON/src/cJSON_Utils.c:807-812 | a test succeeds exactly when there is a node that equals the value up to member order, and leaves the tree the same |
| JsonPatchMoves.CopyIsAddIff | components/utils/cJSON/src/cJSON_Utils.c:881-990 | a copy does what adding the value would (section 4.5 of RFC 6902), but not to the root |
| JsonPatchMoves.MoveIsRemoveAddIff | components/utils/cJSON/src/cJSON_Utils.c:881-990 | a move does what removing and then adding would (section 4.4 of RFC 6902), but a value moved to the root is lost |
| JsonPatchMoves.CopyThenTest | components/utils/cJSON/src/cJSON_Utils.c:783-1010 | a member copied under another key is found there by a test |
| JsonPatchMoves.MoveThereAndBackIff | components/utils/cJSON/src/cJSON_Utils.c:783-1010 | moving a member to a new key and back gives the same object exactly when the member taken has the key that was asked for, letter case included |
| JsonPatchDocuments.MoveDocument | components/utils/cJSON/src/cJSON_Utils.c:881-997 | a patch object whose first members named op, path and from hold "move" and two paths: the value is taken away at the one and put in at the other, or status 5 |
| JsonPatchDocuments.CopyDocument | components/utils/cJSON/src/cJSON_Utils.c:881-997 | with "copy": the value found at the one is put in at the other, or status 5 |
| JsonPatchDocuments.TestDocument | components/utils/cJSON/src/cJSON_Utils.c:807-812 | with "test" and a value: status 0 exactly when there is a node that equals the value up to member order, else 1, and the document stays the same |
| JsonPatchDocuments.RemoveDocument | components/utils/cJSON/src/cJSON_Utils.c:814-879 | with "remove": the value is taken away, the root becomes an invalid item, or status 13 |
| JsonPatchDocuments.AddDocument | components/utils/cJSON/src/cJSON_Utils.c:814-997 | with "add" and a value: it is put in, or becomes the root |
| JsonPatchDocuments.ReplaceDocument | components/utils/cJSON/src/cJSON_Utils.c:814-997 | with "replace" and a value: the old value is taken away and the new one put in, or it becomes the root, or status 13 |
| JsonPatchDocuments.NoSource | components/utils/cJSON/src/cJSON_Utils.c:881-899 | "move" and "copy" without "from": status 4 and an unchanged document |
| JsonPatchDocuments.NoValue | components/utils/cJSON/src/cJSON_Utils.c:814-933 | "add" and "replace" without a value: status 7, and a replacement has taken the old value away by then |
| JsonPatchDocuments.OtherWord | components/utils/cJSON/src/cJSON_Utils.c:716-805 | any other word, or none: status 3 and an unchanged document |
| JsonPatchDocuments.NoPath | components/utils/cJSON/src/cJSON_Utils.c:793-799 | without a path that is a string: status 2 and an unchanged document |
| JsonPatchDocuments.AddsAt | components/utils/cJSON/src/cJSON_Utils.c:935-997 | where a value is put in: at an index up to the length or at the end of an array, or as the last member of an object in place of one with the key; statuses 9, 10 and 11 |
| JsonPatchDocuments.DetachesAt | components/utils/cJSON/src/cJSON_Utils.c:406-457 | what is taken away: the item at an index below the length, or the first member with the key in any letter case |
| JsonPatchDocuments.MovesThereAndBackIff | components/utils/cJSON/src/cJSON_Utils.c:783-1068 | a list of two patch objects that move a member to a new key and back gives the same object exactly when the member that moves has the key that was asked for |
| JsonPatchDocuments.CopiesThenTests | components/utils/cJSON/src/cJSON_Utils.c:783-1068 | a list of two patch objects that copies a member and tests the copy succeeds |
| JsonMerge.MergePatchInto | components/utils/cJSON/src/cJSON_Utils.c:1295-1352 | the loop over the members of a merge patch |
| JsonMerge.MergeIsRfc | components/utils/cJSON/src/cJSON_Utils.c:1295-1352 | it computes `MergePatch(Target, Patch)` of section 2 of RFC 7396, read on the maps that the trees stand for |
| JsonMerge.MergeUnique | components/utils/cJSON/src/cJSON_Utils.c:1295-1352 | merging keeps the keys of every object unique |
| JsonMergeGenerate.GenerateMergePatch | components/utils/cJSON/src/cJSON_Utils.c:1364-1440 | the walk through both sorted lists, with its recursion that is always the case-insensitive one and takes the two values as comparing leaves them; and what generating leaves of both trees |
| JsonMergeGenerate.KeptSame | components/utils/cJSON/src/cJSON_Utils.c:1364-1440 | generating in any mode leaves both trees the same up to the order of members |
| JsonMergeGenerate.GenerateDenotes | components/utils/cJSON/src/cJSON_Utils.c:1364-1440 | for lower-case keys, whose two orders agree, the generated patch stands for the pointwise difference of the two maps |
| JsonMergeGenerate.GeneratedMergeIff | components/utils/cJSON/src/cJSON_Utils.c:1364-1440 | on maps, merging the difference gives the new map exactly when the new one holds no null where a merge patch cannot say so |
| JsonMergeGenerate.LowerCaseRoundTrip | components/utils/cJSON/src/cJSON_Utils.c:1295-1440 | the instance for lower-case keys: nothing is generated exactly for two equal objects; otherwise merging what is generated into the old tree gives the new one exactly when the new one is expressible |
| JsonMergeGenerate.MergeFailsForUpperCase | components/utils/cJSON/src/cJSON_Utils.c:1392-1424 | an upper-case key sets the walk by `strcmp` out of step, and a member that both trees have is lost |
| JsonMergeExact.EntriesGenerated | components/utils/cJSON/src/cJSON_Utils.c:1364-1440 | what the walk writes for a key depends only on the values that both objects have for it, which are compared first and then taken as comparing leaves them, and on which of them the walk meets first |
| JsonMergeExact.MergeRoundTripIff | components/utils/cJSON/src/cJSON_Utils.c:1295-1440 | for any two documents with unique keys, of any letter case and with nulls, and any of the two generators and merges: merging what was generated into the old document, in whatever order its members stand, gives the new one if and only if at every key of the new one the walk meets the old value in step or first (or there is none) and the values below, as comparing leaves them, can follow |
| JsonMergeExact.KeptRoundTripIff | components/utils/cJSON/src/cJSON_Utils.c:1295-1440 | the same for the two documents as generating leaves them |
| JsonMergeExact.NothingGeneratedIff | components/utils/cJSON/src/cJSON_Utils.c:1364-1440 | nothing is generated exactly for two objects that the walk finds equal key by key, each pair of values equal or, as comparing leaves it, again such objects |
| JsonMergeExact.CaseSensitiveRoot | components/utils/cJSON/src/cJSON_Utils.c:1295-1440 | in the case-sensitive mode the keys of the root may be any: the walk is never out of step there, and only values can go wrong |
| JsonMergeExact.FlatRoundTripIff | components/utils/cJSON/src/cJSON_Utils.c:1295-1440 | for flat objects without null the round trip is right if and only if the walk reaches no key of the new object before the key of the old one that equals it |
| JsonMergeExact.UpperCaseMeets | components/utils/cJSON/src/cJSON_Utils.c:1392-1424 | the upper-case key that sets the walk out of step is such a key |
| JsonMergeLetters.MergeFailsBelowRoot | components/utils/cJSON/src/cJSON_Utils.c:1419-1425 | below the root the case-sensitive round trip loses a member whose key differs in letter case alone from others, because comparing has turned them round; the documents break the condition of `MergeRoundTripIff` |
| JsonMergeLetters.MergeRightBelowRoot | components/utils/cJSON/src/cJSON_Utils.c:1419-1425 | the same sorting makes another such round trip right |
| JpegReader.UnstuffStuffed | components/utils/jpeg_decode/src/picojpeg.c:263-279 | removing the stuffing gives back the data in front of a marker (section F.1.2.3 of ITU-T T.81) |
| JpegReader.Reader.constructor | components/utils/jpeg_decode/src/picojpeg.c:946-965 | the decoder before the first marker is read: the buffer is filled and two bytes are read into the bit register; no byte of the file is lost |
| JpegReader.Reader.GetByte | components/utils/jpeg_decode/src/picojpeg.c:281-321 | eight bits read without unstuffing are the next byte of register, buffer and source |
| JpegReader.Reader.FillInBuf | components/utils/jpeg_decode/src/picojpeg.c:223-238 | the buffer is filled from the callback, in whatever portions it hands out; no byte is lost |
| JpegReader.Reader.GetChar | components/utils/jpeg_decode/src/picojpeg.c:240-254 | the next byte; behind the end alternately FF and D9 |
| JpegReader.Reader.StuffChar | components/utils/jpeg_decode/src/picojpeg.c:256-261 | a byte is put back in front; the eight-bit offset never passes the start of the buffer |
| JpegReader.Reader.GetOctet | components/utils/jpeg_decode/src/picojpeg.c:263-279 | the next byte of entropy-coded data: FF 00 gives FF, and a marker stays where it is |
| JpegReader.Reader.GetBit | components/utils/jpeg_decode/src/picojpeg.c:328-345 | the next bit of the one stream that register, buffer and source make up |
| JpegReader.Reader.GetBits | components/utils/jpeg_decode/src/picojpeg.c:281-316 | the next one to sixteen bits of that stream as a number |
| JpegReader.Reader.FixInBuffer | components/utils/jpeg_decode/src/picojpeg.c:969-981 | bytes read ahead are put back and read again with unstuffing |
| JpegReader.Reader.HuffDecode | components/utils/jpeg_decode/src/picojpeg.c:400-429 | the walk over the code lengths takes one code off the stream and gives its value |
| JpegHuffman.HuffCreate | components/utils/jpeg_decode/src/picojpeg.c:431-465 | the three arrays are the ranges of the canonical codes (Annex C of ITU-T T.81) |
| JpegHuffman.PrefixFree | components/utils/jpeg_decode/src/picojpeg.c:431-465 | no canonical code is the beginning of another |
| JpegHuffman.DecodeCode | components/utils/jpeg_decode/src/picojpeg.c:400-429 | the code of the k-th value followed by anything gives k and leaves what follows |
| JpegHuffman.DecodesIff | components/utils/jpeg_decode/src/picojpeg.c:400-465 | the decoder is right about every code of a table exactly when sixteen ones is not a code |
| JpegHuffman.WalkInRange | components/utils/jpeg_decode/src/picojpeg.c:400-429 | on any input at all the walk ends inside the table of values or fails |
| JpegWriter.Buffer.PutChar | components/utils/jpeg_encode/src/jpeg_encode.c:217-232 | one byte, with or without growing; in a fixed buffer the last byte stays free and overflow is noted |
| JpegWriter.PutBytesIs | components/utils/jpeg_encode/src/jpeg_encode.c:217-232 | a growing buffer loses nothing; a fixed one keeps what fits, and notes overflow exactly when something did not |
| JpegWriter.Buffer.WriteBits | components/utils/jpeg_encode/src/jpeg_encode.c:252-268 | bits go behind the pending ones; full bytes come out, each FF followed by a zero |
| JpegWriter.EmitAppend | components/utils/jpeg_encode/src/jpeg_encode.c:252-268 | writing bits in two steps is writing them at once |
| JpegZigZag.ZigZagInverse | components/utils/jpeg_encode/src/jpeg_encode.c:78-87 | the two tables undo each other |
| JpegZigZag.TablesFollowPath | components/utils/jpeg_encode/src/jpeg_encode.c:78-87 | the tables are the path of Figure A.6 of ITU-T T.81: from the first place right or down at the border, otherwise up and to the right or down and to the left as row plus column is even or odd |
| JpegEncode.StoreInScan | components/utils/jpeg_encode/src/jpeg_encode.c:378-390 | the quantised coefficients stand in the order of that path, and the last one that is not zero is found |
| JpegEncode.CalcBits | components/utils/jpeg_encode/src/jpeg_encode.c:271-281 | size and additional bits of a value (section F.1.2.1.1 of ITU-T T.81) |
| JpegEncode.ProcessBlock | components/utils/jpeg_encode/src/jpeg_encode.c:393-442 | a block is written as the code of its difference, its runs and the end of block |
| JpegEncode.WriteAc | components/utils/jpeg_encode/src/jpeg_encode.c:411-440 | the loop over the coefficients behind the first |
| JpegFigures.AdditionalBits | components/utils/jpeg_encode/src/jpeg_encode.c:271-281 | section F.1.2.1.1 of ITU-T T.81: a value has as many additional bits as its absolute value has; they are its own when it is positive, and otherwise those of the absolute value, inverted |
| JpegFigures.AcIsFigureF2 | components/utils/jpeg_encode/src/jpeg_encode.c:411-440 | the loop writes what the procedure of Figure F.2 writes, coefficient by coefficient: 0xF0 while more than fifteen zeros are left, then run times sixteen plus size and the additional bits, and 0x00 behind the last one |
| JpegTables.StandardFits | components/utils/jpeg_encode/src/jpeg_encode.c:117-141 | the tables in the file header describe codes that fit their lengths and leave out sixteen ones |
| JpegTables.StandardCoded | components/utils/jpeg_encode/src/jpeg_encode.c:144-216 | the codes in the constant tables of the encoder are the canonical codes of the tables in the file header |
| JpegRoundTrip.ExtendLow | components/utils/jpeg_decode/src/picojpeg.c:347-398 | EXTEND (section F.2.2.1 of ITU-T T.81) undoes the additional bits of the encoder |
| JpegDecode.ReadSymbol | components/utils/jpeg_decode/src/picojpeg.c:2231-2239 | a symbol and the additional bits behind it |
| JpegDecode.DecodeAc | components/utils/jpeg_decode/src/picojpeg.c:2226-2279 | the loop over the coefficients: runs, sixteen zeros, end of block; it fails exactly when a run leaves the block |
| JpegDecode.DecodeBlock | components/utils/jpeg_decode/src/picojpeg.c:2162-2279 | a block from the stream: its coefficients, each times its quantisation step, in the places of that path, and the bits behind it |
| JpegDecode.SixteenBits | components/utils/jpeg_decode/src/picojpeg.c:2175-2180 | reducing to sixteen bits before multiplying makes no difference |
| JpegRoundTrip.AcDecodes | components/utils/jpeg_decode/src/picojpeg.c:2226-2279 | what the encoder wrote for the coefficients behind the first is decoded to them, and the end of the block is where it was |
| JpegRoundTrip.BlockDecodes | components/utils/jpeg_decode/src/picojpeg.c:2162-2279 | what the encoder wrote for a block is decoded to its 64 coefficients and leaves what follows |
| JpegScan.EncodeScan | components/utils/jpeg_encode/src/jpeg_encode.c:1134-1538 | all blocks with one prediction for each component, padded and ended by the marker: exactly the bytes of the scan, cut where a fixed buffer ends |
| JpegFigures.UnitAsInStandard | components/utils/jpeg_encode/src/jpeg_encode.c:378-440 | the code of a block: size and bits of the difference of its first coefficient from the one before in its component, and Figure F.2 along the path; component 0 with the luminance tables, the others with the chrominance tables |
| JpegFigures.BitsFromTheLeft | components/utils/jpeg_encode/src/jpeg_encode.c:252-269 | bits are written from the most significant one on |
| JpegFigures.NoMarker | components/utils/jpeg_encode/src/jpeg_encode.c:252-269 | every byte 0xFF of the data is followed by a zero byte |
| JpegFigures.SampleCoded | components/utils/jpeg_encode/src/jpeg_encode.c:378-440 | a block worked out by hand: coefficients 1 and -2 become the bytes 55 AF and the marker FF D9 |
| JpegScan.EndScan | components/utils/jpeg_encode/src/jpeg_encode.c:1525-1530 | seven ones complete the last byte, then FF D9 |
| JpegScan.PaddingIsNothing | components/utils/jpeg_encode/src/jpeg_encode.c:1525-1527 | the padding adds nothing that a reader of the stream could tell from its end |
| JpegScan.ScanDecodes | components/utils/jpeg_decode/src/picojpeg.c:2144-2286 | every block of a scan comes back, whatever follows |
| JpegScan.ScanRoundTrip | components/utils/jpeg_decode/src/picojpeg.c:2144-2286 | the stuffed bytes of any sequence of blocks with differences up to 2047 and coefficients up to 1023, followed by anything, are unstuffed and decoded to the same blocks |
| JpegScan.Dequantised | components/utils/jpeg_decode/src/picojpeg.c:2162-2279 | place by place, the decoded block is the quantised block times the divisors, through both zig-zag tables |
| JpegDecodeScan.DecodeUnit | components/utils/jpeg_decode/src/picojpeg.c:2162-2279 | a block of a component with that component's tables and prediction |
| JpegDecodeScan.DecodeScan | components/utils/jpeg_decode/src/picojpeg.c:2144-2286 | the loop over all blocks decodes exactly the blocks of the stream |
| JpegWhole.LoadedIsUsable | components/utils/jpeg_decode/src/picojpeg.c:431-465 | the four tables of the file header, loaded by `huffCreate`, decode every symbol the encoder writes |
| JpegWhole.Compress | components/utils/jpeg_encode/src/jpeg_encode.c:1134-1538 | a scan written to a buffer that grows is all of its bytes |
| JpegWhole.Decompress | components/utils/jpeg_decode/src/picojpeg.c:2144-2286 | a decoder set on the first byte of a scan decodes the blocks of the unstuffed bytes |
| JpegWhole.Transmit | components/utils/jpeg_decode/src/picojpeg.c:2144-2286 | any scan within the limits of the baseline, written by the encoder and read by the decoder with the tables of the file header: every coefficient of every block arrives, times the quantisation step of its place, whatever stands behind the scan |
| JsonPrinter.CountEscapes | components/utils/cJSON/src/cJSON.c:854-878 | the additional characters of a string's text |
| JsonPrinter.PrintBuffer.Ensure | components/utils/cJSON/src/cJSON.c:373-458 | room is given exactly when offset, need and one more byte are within the limit; growing keeps what is printed |
| JsonPrinter.PrintBuffer.UpdateOffset | components/utils/cJSON/src/cJSON.c:461-471 | the offset moves behind the text |
| JsonPrinter.PrintBuffer.PrintStringPtr | components/utils/cJSON/src/cJSON.c:827-946 | a string literal is printed exactly when it fits |
| JsonPrinter.PrintBuffer.PrintValue | components/utils/cJSON/src/cJSON.c:1267-1338 | a tree is printed exactly when it can be and its text and two more bytes fit; the text already printed stays in front |
| JsonPrinter.PrintBuffer.PrintArray | components/utils/cJSON/src/cJSON.c:1435-1494 | an array with its separators |
| JsonPrinter.PrintBuffer.PrintObject | components/utils/cJSON/src/cJSON.c:1606-1717 | an object with its indentation |
| JsonPrinter.Print | components/utils/cJSON/src/cJSON.c:1087-1160 | the text of the tree, whenever the tree can be printed and the text fits an `int` |
| JsonPrinter.PrintBuffered | components/utils/cJSON/src/cJSON.c:1162-1190 | the same text, whatever the first size of the buffer |
| JsonPrinter.PrintPreallocated | components/utils/cJSON/src/cJSON.c:1192-1209 | succeeds exactly when the tree can be printed and the buffer is two bytes longer than the text; then it holds the same text and its terminator |
| JsonStrings.ParseHex4 | components/utils/cJSON/src/cJSON.c:540-573 | four hexadecimal digits, or zero |
| JsonLiterals.SpelledOrZero | components/utils/cJSON/src/cJSON.c:540-573 | digits in either letter case are the number that they spell, and zero comes out if one of the characters is no digit |
| JsonStrings.Utf8RoundTrip | components/utils/cJSON/src/cJSON.c:635-695 | the bytes written for a code point decode to it (section 3 of RFC 3629) |
| JsonStrings.Utf8Shape | components/utils/cJSON/src/cJSON.c:635-695 | one byte up to 0x7F, two up to 0x7FF, three up to 0xFFFF, else four; the first byte tells the number, and all others are continuation bytes |
| JsonStrings.Utf16ToUtf8 | components/utils/cJSON/src/cJSON.c:577-695 | one or two literals, surrogates paired, written from the last byte to the first; a wrong literal writes nothing |
| JsonStrings.MeasureString | components/utils/cJSON/src/cJSON.c:711-736 | the first pass: the closing quotation mark and the number of escapes |
| JsonStrings.UnescapeFits | components/utils/cJSON/src/cJSON.c:711-799 | for every body, valid or not, the second pass writes at most the body length less the escapes the first pass counted, however far the passes are out of step |
| JsonStrings.PassesOutOfStep | components/utils/cJSON/src/cJSON.c:711-799 | they can be out of step |
| JsonStrings.UnescapeInto | components/utils/cJSON/src/cJSON.c:735-799 | the second pass stays inside the allocated buffer and leaves the unescaped text with its terminator |
| JsonLiterals.LiteralIsParsed | components/utils/cJSON/src/cJSON.c:698-824 | section 7 of RFC 8259: a literal made of plain characters, the eight short escapes, four digits in either letter case, and surrogate pairs is parsed to what these stand for, in UTF-8 |
| JsonLiterals.PairIsCodePoint | components/utils/cJSON/src/cJSON.c:577-695 | for every code point from 0x10000 to 0x10FFFF the two literals of its pair become four bytes that decode to it |
| JsonLiterals.UnitIsCodePoint | components/utils/cJSON/src/cJSON.c:577-695 | for every other code point but the surrogates one literal becomes bytes that decode to it; only zero ends the string |
| JsonLiterals.RefusedIff | components/utils/cJSON/src/cJSON.c:735-799 | the second pass stops at a backslash exactly when no escape begins there: another letter, too little in front of the end, a low surrogate alone, or a high one without its low one |
| JsonParser.ParseBuffer.ParseNumber | components/utils/cJSON/src/cJSON.c:266-340 | at most 63 characters go to the scanner, and the value is limited to an `int` |
| JsonParser.ParseBuffer.ParseString | components/utils/cJSON/src/cJSON.c:698-824 | a string literal, and where the offset is afterwards in each case of failure |
| JsonParser.ParseBuffer.ParseValue | components/utils/cJSON/src/cJSON.c:1212-1264 | a value of any kind |
| JsonParser.ParseBuffer.ParseArray | components/utils/cJSON/src/cJSON.c:1341-1432 | an array; the depth is restored |
| JsonParser.ParseBuffer.ParseObject | components/utils/cJSON/src/cJSON.c:1497-1603 | an object; the depth is restored |
| JsonParser.Parse | components/utils/cJSON/src/cJSON.c:1000-1077 | byte order mark, blanks, the value and, if required, the terminator behind it |
| JsonGrammarSpelt.ParsesIff | components/utils/cJSON/src/cJSON.c:1000-1717 | which texts are parsed, and to what: a text that has to end is taken for a tree if and only if it is a value with blanks around its tokens (any character up to 0x20), perhaps behind a byte order mark, spelt as in section 2 of RFC 8259 with numbers that the scanner takes whole, string bodies as above, and no more than 1000 arrays and objects inside each other, and the value means the tree |
| JsonGrammarSpelt.WholeParses | components/utils/cJSON/src/cJSON.c:1000-1077 | such a text is parsed to its end, and up to the end of its value where it need not end |
| JsonGrammarSpelt.JunkBehind | components/utils/cJSON/src/cJSON.c:1000-1077 | with something else behind it: an error at its position where the text has to end, and the value where it need not |
| JsonGrammarParse.DocParses | components/utils/cJSON/src/cJSON.c:1212-1603 | wherever a value of the grammar stands, at whatever depth, it is read as what it means |
| JsonGrammar.StringMoved | components/utils/cJSON/src/cJSON.c:698-824 | a string literal is read in the same way wherever it stands |
| JsonPrintParse.PrintThenParse | components/utils/cJSON/src/cJSON.c:1000-1717 | parsing the formatted or the unformatted print of a tree gives the same tree and ends at the terminator |
| JsonPrintParse.SpellPrinted | components/utils/cJSON/src/cJSON.c:1267-1717 | either print of a tree is a text of the grammar, with blanks between its tokens in one format and nothing in the other |
| JsonPrintParse.SaturateCuts | components/utils/cJSON/src/cJSON.c:320-334 | the `int` copy of a number is cut off toward zero and held within the limits of `int` |
| JsonFormat.EscapeTable | components/utils/cJSON/src/cJSON.c:827-946 | the escapes that are printed, character by character: section 7 of RFC 8259 with short escapes where there are and small hexadecimal digits |
| JsonFormat.EscapeIsLiteral | components/utils/cJSON/src/cJSON.c:827-946 | each of them is a literal of that section and stands for its character |
| JsonFormat.ExampleFormatted | components/utils/cJSON/src/cJSON.c:1435-1717 | an object with an array and objects in it, formatted: tabs, newlines and separators as they stand |
| JsonPrintParse.IntegersAreNumbers | components/utils/cJSON/src/cJSON.c:474-537 | integers of up to fifteen digits meet what the round trip asks of the printed number |
| JsonNesting.ParsedIsShallow | components/utils/cJSON/src/cJSON.c:1341-1603 | whatever the text, a tree that is returned is nested no deeper than the limit |
| JsonNesting.ComesBackIff | components/utils/cJSON/src/cJSON.c:1341-1717 | of the trees that can be printed, nested however deep, exactly those within the limit of 1000 come back |
| JsonMinify.Minify | components/utils/cJSON/src/cJSON.c:2633-2703 | for any memory in which the program stops: blanks and comments go, string literals stay, and what is behind the terminator it writes stays; a comment or string that does not end takes it on behind the terminator |
| JsonMinify.BehindIsNothing | components/utils/cJSON/src/cJSON.c:2633-2703 | a program that stops in some memory does the same in more memory |
| JsonMinify.ReadsBeyond | components/utils/cJSON/src/cJSON.c:2633-2703 | a comment that does not end takes it two places behind the terminator, a string that does not end behind a copy of it |
| JsonMinifyText.NothingOfLine | components/utils/cJSON/src/cJSON.c:2661-2668 | two slashes and any text without newline and terminator, up to its newline: nothing is left of it |
| JsonMinifyText.NothingOfLastLine | components/utils/cJSON/src/cJSON.c:2661-2668 | without a newline nothing is left of the rest of the text |
| JsonMinifyText.NothingOfBlock | components/utils/cJSON/src/cJSON.c:2669-2677 | a slash, an asterisk and any text in which no end of comment stands and that does not begin with a slash, up to its end: nothing is left of it |
| JsonMinifyText.SlashEndsBlock | components/utils/cJSON/src/cJSON.c:2669-2677 | a slash right behind the opening ends a block comment, too |
| JsonMinifyText.TokensAreLeft | components/utils/cJSON/src/cJSON.c:2633-2703 | of a text with blanks and comments between its tokens the tokens are left |
| JsonMinifyMeaning.MinifyThenParse | components/utils/cJSON/src/cJSON.c:1000-2703 | minified, a text of the grammar with blanks and comments between its tokens is parsed to what it means |
| JsonMinifyMeaning.MinifyKeepsMeaning | components/utils/cJSON/src/cJSON.c:1000-2703 | whatever text is parsed: minifying it leaves a text that is parsed to the same tree |
| JsonMinifyMeaning.CommentedPrint | components/utils/cJSON/src/cJSON.c:2633-2703 | a print with blanks and comments between its tokens, in front of it and behind it, is minified to the unformatted print, whatever stands behind it in memory |
| JsonMinifyMeaning.MinifiedPrint | components/utils/cJSON/src/cJSON.c:2633-2703 | minifying the formatted print of a tree gives exactly its unformatted print, whatever stands behind it |
| ImageRotate.RotateRight90 | components/utils/image_op/src/image_op.c:107-119 | the rotated picture |
| ImageRotate.RotatedAt | components/utils/image_op/src/image_op.c:107-119 | row j from below of column i becomes column j of row i |
| ImageRotate.NextIsMultiplication | components/utils/image_op/src/image_op.c:70-77 | counted from one, a step of the in-place walk multiplies by the height modulo width times height plus one |
| ImageInPlace.WalkCycle | components/utils/image_op/src/image_op.c:79-87 | the walk ends, and turns the pixels as `Walk` says |
| ImageInPlace.RotateRight90LessMem | components/utils/image_op/src/image_op.c:89-100 | the two walks one after the other |
| ImageInPlace.TwoCyclesRotate | components/utils/image_op/src/image_op.c:89-119 | when both cycles can be walked and share out all places, the result is the out-of-place rotation for every picture |
| ImageInPlace.OddCycleLoses | components/utils/image_op/src/image_op.c:79-87 | a cycle of odd length loses a pixel |
| ImageInPlace.SomePictureFails | components/utils/image_op/src/image_op.c:89-119 | otherwise there is a picture with a single white pixel that comes out wrong |
| ImageInPlace.RotatesInPlaceIff | components/utils/image_op/src/image_op.c:89-119 | the in-place rotation is right for every picture exactly when the two cycles can be walked and leave nothing out |
| ImageQvga.PeriodOfFirst | components/utils/image_op/src/image_op.c:97 | at 320 by 240 the first cycle has 38400 places |
| ImageQvga.SecondIsElsewhere | components/utils/image_op/src/image_op.c:98 | the second cycle starts outside the first |
| ImageQvga.NothingLeftOut | components/utils/image_op/src/image_op.c:97-98 | every place is in one of the two |
| ImageQvga.QvgaRotates | components/utils/image_op/src/image_op.c:89-100 | at 320 by 240 the in-place rotation is right for every picture |
| ImageBlend.BlendIsExact | components/utils/image_op/src/image_op.c:473-479 | for alpha up to 32 each channel is floor((alpha x + (32 - alpha) y) / 32); no field carries into or borrows from another despite the wraparound of 32 bits |
| ImageBlend.MixPicWithAlpha | components/utils/image_op/src/image_op.c:528-566 | the pixels of the window mixed in the order of the loops, wherever the window lies in memory; nothing when the test fails |
| ImageBlend.MixPicWithAlphaLessMem | components/utils/image_op/src/image_op.c:481-526 | row by row it gives the same image as the whole picture at once without the test for white |
| ImageBlend.TestGuaranteesIff | components/utils/image_op/src/image_op.c:498-502 | the test lets only windows through that lie in the picture exactly when the picture has no offset |
| ImageBlend.MixedWithin | components/utils/image_op/src/image_op.c:481-566 | for a window that lies in the picture the loops mix each pixel of the window into the pixel under it |
| ImageBlend.EachOnce | components/utils/image_op/src/image_op.c:549-564 | a window no wider than the picture, wherever it lies: each pixel is mixed once, columns behind the last one going on in the next row, and every other place in memory stays |
| ImageBlend.MixedPixel | components/utils/image_op/src/image_op.c:481-566 | pixels outside the window stay; inside, each channel is the exact weighted mean with the pixel in the same place of the window, which counts its rows from its own corner, and a white pixel there is left out when that is asked for |
| FlashStore.Store.constructor | projects/MF1/main/src/flash.c:292-355 | starting: the count is corrected and the table of user ids read, or an empty store is written |
| FlashStore.Store.GetFaceId | projects/MF1/main/src/flash.c:25-44 | the first free slot, or -1 |
| FlashStore.Store.SaveFaceInfo | projects/MF1/main/src/flash.c:132-180 | the record is written before the header; the state afterwards and after each write |
| FlashStore.Store.DeleteFaceInfo | projects/MF1/main/src/flash.c:109-121 | bit, number, header and table of one slot; refused when the number is zero |
| FlashStore.Store.DeleteFaceAll | projects/MF1/main/src/flash.c:123-130 | the store is emptied with one write |
| FlashStore.Store.UpdateFaceInfo | projects/MF1/main/src/flash.c:182-186 | one record is written; header and table stay |
| FlashStore.Store.GetIdByUid | projects/MF1/main/src/flash.c:90-107 | in a consistent state the lowest slot whose stored record has the user id, with the four highest bits set, or zero when none has it |
| FlashStore.Store.GetSavedFaceInfo | projects/MF1/main/src/flash.c:441-462 | the record of the k-th occupied slot; in a consistent state it fails exactly when k is not below the number |
| FlashRuns.RecordBeforeHeader | projects/MF1/main/src/flash.c:167-170 | the first write of a save changes nothing that is stored |
| FlashRuns.WritesAreAtomic | projects/MF1/main/src/flash.c:109-180 | after any number of its writes an operation has left what was stored or had its whole effect |
| FlashRuns.LossIsAtomic | projects/MF1/main/src/flash.c:292-355 | power lost between any two writes: starting again gives a consistent store that is exactly the one before or the one after the operation |
| FlashRuns.KeepsIff | projects/MF1/main/src/flash.c:109-186 | an operation keeps number, header and table right exactly when a deleted slot is occupied (or the store is empty) and an updated record keeps its user id |
| FlashRuns.RunsAreSafe | projects/MF1/main/src/flash.c:109-355 | over every run with any number of power losses the state is consistent and holds what the operations that took effect mean |
| FlashRuns.RunsFromAnyFlash | projects/MF1/main/src/flash.c:109-355 | the same from the first start, whatever the flash holds; the number is the number of stored records |
| FlashRuns.NumberOfStored | projects/MF1/main/src/flash.c:302-331 | in a consistent state the number is the number of stored records |
| FlashRuns.ListedIsStored | projects/MF1/main/src/flash.c:441-462 | the record of every stored slot is listed, at the place that counts the occupied slots in front of it, and nothing else is |
| FlashRuns.ListedInOrder | projects/MF1/main/src/flash.c:441-462 | the list has the order of the slots |
| Bitmap.FindFree | components/utils/list/src/list_mem.c:41-52 | the first free slot of a bit table |
| ListPool.List.constructor | components/utils/list/src/list_mem.c:93-98 | all slots free, and an empty list |
| ListPool.List.MallocListNode | components/utils/list/src/list_mem.c:41-56 | a free slot is marked; null exactly when all are taken |
| ListPool.List.FreeListNode | components/utils/list/src/list_mem.c:57-62 | a slot is free again |
| ListPool.List.FreeAllNodes | components/utils/list/src/list_mem.c:64-67 | all node slots are free |
| ListPool.List.ListNodeNew | components/utils/list/src/list_node.c:14-24 | a new node with its value and no neighbours |
| ListPool.List.Rpush | components/utils/list/src/list.c:56-71 | the node stands behind the last one |
| ListPool.List.Lpush | components/utils/list/src/list.c:119-134 | the node stands in front of the first one |
| ListPool.List.Rpop | components/utils/list/src/list.c:78-91 | the last node leaves the list and stays allocated |
| ListPool.List.Lpop | components/utils/list/src/list.c:98-111 | the first node leaves the list and stays allocated |
| ListPool.List.Remove | components/utils/list/src/list.c:192-206 | exactly the given node leaves the list, wherever it stands, and its slot is free |
| ListPool.List.At | components/utils/list/src/list.c:168-185 | the node at an index from the head, or from the tail for a negative one, or null; the iterator is returned |
| ListPool.List.Find | components/utils/list/src/list.c:141-161 | the first node with the value, or null; the iterator is returned |
| ListPool.List.Destroy | components/utils/list/src/list.c:33-48 | every node of the list is freed, and no other |
| ListPool.List.IteratorNew | components/utils/list/src/list_iterator.c:16-37 | an iterator at one end of the list; null exactly when none is free |
| ListPool.List.IteratorNext | components/utils/list/src/list_iterator.c:45-53 | the node, and the step to its neighbour before the node is used |
| ListPool.List.IteratorDestroy | components/utils/list/src/list_iterator.c:60-64 | the iterator's slot is free again |
| ListChain.WalksAgree | components/utils/list/src/list.c:56-134 | the walk forward from the head is the list, the walk back from the tail is the list reversed, and both are as long as the length says |
| ListChain.Unlinked | components/utils/list/src/list.c:192-201 | joining the neighbours of a node leaves a well formed list without it |
| LcdDisplay.Display.constructor | projects/MF1/main/face_lib/lcd_dis.c:326-337 | an empty list with all ids free |
| LcdDisplay.Display.CheckId | projects/MF1/main/face_lib/lcd_dis.c:17-36 | a free id is taken |
| LcdDisplay.Display.DelById | projects/MF1/main/face_lib/lcd_dis.c:339-362 | the item with the id goes, and its bit; the nodes in use are those in the list and every iterator is returned |
| LcdDisplay.Display.Add | projects/MF1/main/face_lib/lcd_dis.c:207-324 | an item replaces the one with its id and stands last; with a valid id it never fails for want of a node |
| LcdDisplay.Display.DelAll | projects/MF1/main/face_lib/lcd_dis.c:364-382 | list, ids and nodes are cleared |
| LcdDisplay.Display.ShowAll | projects/MF1/main/face_lib/face_cb.c:126-147 | each item that was in the list is drawn once, in order, although those that delete themselves are removed on the way |
| LcdDisplay.Display.ShowPicture | projects/MF1/main/face_lib/face_cb.c:88-101 | a picture is added, drawn and deleted; of what was in the list at most an item with the same id goes |
| DisplayItems.RoomLeft | projects/MF1/main/face_lib/lcd_dis.c:236-242 | ids that are distinct leave a node free for one more |
| DisplayItems.OneFiltered | projects/MF1/main/face_lib/lcd_dis.c:346-358 | with distinct ids exactly one item goes |
| Base64.Encode | components/utils/base64/src/base64.c:26-85 | null exactly for a length from 2^62 on; otherwise the encoding and a zero behind it, inside the buffer |
| Base64.Decode | components/utils/base64/src/base64.c:97-162 | what the text means, or null exactly when it means nothing |
| Base64.Table | components/utils/base64/src/base64.c:103-106 | the decoding table |
| Base64Rfc.Table1 | components/utils/base64/src/base64.c:11-12 | the alphabet of Table 1 of RFC 4648: capitals, small letters, digits, plus and solidus |
| Base64Rfc.EncodedAt | components/utils/base64/src/base64.c:46-80 | section 4 of RFC 4648: the letter at each place is that of the six bits at its place in its group of 24 bits, or padding where the group lacks the octet |
| Base64Text.EncodeThenDecode | components/utils/base64/src/base64.c:26-162 | decoding the encoding of any non-empty octets gives them back, with anything that is no symbol in between (section 4 of RFC 4648) |
| Base64Text.DecodeThenEncodeIff | components/utils/base64/src/base64.c:97-162 | encoding what was decoded gives the symbols of the text again exactly when they are canonical: padding at the end alone and no bits dropped |
| Base64Text.SizeIsChecked | components/utils/base64/src/base64.c:33-37 | the test for wraparound refuses a length exactly from 2^62 on, and otherwise the buffer holds all of the output and its terminator |

## Left out

- Trees as values: outside `ItemList` a tree is a datatype value, so that patching, merging, printing and
  parsing return a new tree where the program changes nodes in place; aliasing inside a tree is not modelled.
  That comparing and generating sort objects on the way is in `JsonTree.Left`, `JsonPatchExact.Arranged` and
  `JsonMergeGenerate.Kept`; what generating patches leaves of the new document, and a test of the list of
  patches, is not (the results hold up to the order of members).
- Numbers of JSON: a number is a `real` with its `int` copy, so that the not-a-number and infinities are
  missing; printing and scanning are a pair of functions given as parameters (`sprintf`, `sscanf`, `strtod`).
- Allocation failure in the JSON, JPEG, display and Base64 code, references and constant keys, the error
  objects of the parser, and null arguments.
- Fresh memory that escaping reads: every byte of it holds the same unknown value `u` in
  `JsonPaths.EncodeKey`; `JsonPointer.EscapingCorrectIff` has it arbitrary.
- JsonPatchExact.PatchRoundTripIff: has keys without a slash in both documents, because what escaping makes of a slash
  depends on fresh memory; exactly when a key with one survives is in `JsonPointer.EncodedMatchesIff`.
- JsonMergeGenerate.GenerateDenotes: is for lower-case keys, for which the patch stands for a map; what is generated
  for other keys is in `JsonMergeExact.EntriesGenerated`.
- The status codes of `apply_patch` for failing allocations.
- JPEG headers and markers, restart intervals, the reduced mode, reading bits without unstuffing other than whole bytes,
  chroma upsampling, the transforms and the quantisation: a scan starts from quantised coefficients and with its
  tables loaded. The callback hands out at least one byte while it has some.
- The `or` of disjoint fields in the bit buffers is an addition, with a proof at each place that the fields are
  disjoint.
- `jpeg_put_bytes`, and that the encoder stops early after an overflow.
- Whether the pixel buffers have room for the picture: their length is a precondition. The out-of-place
  rotation requires an even height, as its comment says.
- ImageBlend.MixPicWithAlpha, ImageBlend.MixPicWithAlphaLessMem: that the places the window reaches lie in memory is
  a precondition behind the window test, and the sixteen-bit counters of the loops do not wrap around.
- The face store: the last byte that `strncpy` leaves alone, checksum and version, the flag for infrared
  features, the hash over all records, `flash_get_saved_uid_feature`, and a flash chip that is not recognised.
  Each write to the flash is one step; the addressed slots exist.
- The list: the slot of the list itself and the callbacks for freeing and matching values. The ids of the display
  list are not negative and have a word in the table of ids; the program relies on both.
- The memory of display items: an item whose id is too large is never freed by the program.
- The zero that decoding Base64 stores behind its result, and the counter for line feeds, which has no effect.
- Recognition, camera, display, sound, network and board code, fonts and colour tables.
