# Proofs about Mini-XML, the MCA semaphores and the echo benchmark

These Dafny modules model the parts of the repository where the interesting state and the interesting
arithmetic are, and prove what their code promises. `dafny verify dfyconfig.toml` checks everything.

Each part has a specification in functions on values, and the program itself in the form the C code has:
classes whose methods update fields and buffers in loops, proved to do what the functions say. The lemmas
then say what the functions mean.

* **Mini-XML reader and writer** (`Utf8`, `Entities`, `XmlTree`, `XmlWriter`, `XmlReader`, `XmlLoad`,
  `XmlPrinter`, `XmlRoundTrip`, `XmlBounds`, `XmlGrowth`, `XmlExact`, `XmlSaveLoad`, `XmlReferences`,
  `XmlSource`, `XmlWrap`, `FdReader`). The character codec and the growing buffer, the parser in OPAQUE mode as a
  state machine over a string, the printer that walks pointers without a stack, and the theorem that says for
  every tree whether parsing undoes printing. `XmlSource` is a grammar of documents as people write them, with
  what each loads as; `XmlWrap` says where the printer breaks lines; `FdReader` is the buffered descriptor reader.
* **Node tree, search, index** (`NodeStore`, `NodeEdit`, `NodeNew`, `NodeShape`, `NodeDelete`, `NodeWalk`,
  `IndexSearch`, `NodeIndex`). Nodes live in a store that maps addresses to records of pointers; a freed
  node leaves the store, so reading one could not be proved. `NodeEdit` relates the pointers to lists of
  children, `NodeShape` turns those lists into the forests that walks and the printer follow.
* **Semaphore database** (`SemSpec`, `SemEntry`, `SemRuns`, `SemWait`, `SemCalls`). Every span under the database lock
  is one atomic step by one node, and the lock is re-entered by the rollback. A blocking call is given a
  schedule: what the other nodes do at each of its yields. A call whose schedule runs out is `Waiting`.
  `SemWait` says at which attempt a call ends.
* **Reader/writer lock and echo ring** (`RwLock`, `EchoRing`). State machines over atomic steps with any
  scheduler; a signal wakes any non-empty choice of sleepers. Pipes are byte streams.
* **ZIP container and CRC-32** (`ZipFormat`, `ZipDirectory`, `ZipWriter`, `ZipReader`,
  `ZipRoundTrip`, `Crc`, `CrcTable`). Stored entries only, with the in-place patching of streamed headers; the checksum is
  proved equal to its bitwise definition.

Integers are unbounded where the code cannot overflow for the sizes it accepts; bytes, 16- and 32-bit fields
are reduced explicitly. `Str` is a C string without its terminator. Comparisons are signs.

## Where the code does less than one would expect

Each of these is stated exactly by a member of the table below, and shown by an example.

* Loading, saving and loading again need not give the tree that loading once gave (`LoadedBackIff`, with the exact
  condition; `RereadDiffers`).
* A tree below a `?xml` or `!DOCTYPE` root loses text at its very end (`PrologSurvivesIff`; `PrologLosesText`).
* An attribute is read back only if its name starts with an ASCII character other than a blank, quote, slash,
  question mark or angle bracket, and if it has a value (`AttrSurvivesIff`; `AttributesNotReadBack`).
* `mxmlAdd` breaks the tree when the node is its own reference child or an ancestor of its new parent, and
  only then (`Add`; `AddBesideItself`, `AddBelowOwnChild`).
* `mxmlIndexFind` by value alone misses nodes in an index whose values are not in order (`FindByValue`;
  `ValueNotFound`).
* `MRAPI_LOCKS_ALL` reports success from a stale status (`LockEveryOnce`, `LockEvery`; `StaleSuccess`).
* A failed `mrapi_sem_delete` keeps the locks it collected (`DeleteCallMeans`; `FailedDeleteKeeps`).
* `mrapi_impl_sem_post` says "regardless of ownership" and checks ownership (`ReleaseMeans`;
  `PostNeedsOwnership`).
* A failing `mrapi_sem_trylock_multiple` leaves the status at success, where its documentation promises
  LOCKED or an error (`LockAllOrNothing`; `FailedTrySaysSuccess`).
* A member with an empty name ends the scan of a container (`ScanBackIff`; `NamelessHides`); writing no bytes is
  reported as a failure although the container is right (`CreateFileWithString`, `FileWrite`, `Close`;
  `EmptyReported`).
* A wrapped line can be one character longer than the margin (`LinesFilled`; `MarginPassed`).
* Input that ends inside the root element alone is accepted (`Unfinished`).
* A reference to a number beyond 32 bits stands for the character of its low 32 bits (`ReferenceRead`).
* The end record of a container counts 65536 members as none (`ListedBack`).

## Model

| member | source | states |
|---|---|---|
| `Utf8.SurvivesIffLegal` | mxml-2.12/mxml-file.c:2385-2516 | a code point comes back from its encoding, with the rest of the input untouched, if and only if it is legal: no control character, no byte order mark, below 0x200000 |
| `Utf8.GetcCanonical` | mxml-2.12/mxml-file.c:2425-2511 | whatever the reader accepts is, after byte order marks, the one canonical encoding of the character it returns; overlong forms are refused |
| `Utf8.GetcSplits` | mxml-2.12/mxml-file.c:2366-2516 | a character the reader returns accounts for exactly its own bytes of the input |
| `Utf8.EncodesUtf8` | mxml-2.12/mxml-file.c:589-661 | the bytes put out for a code point are its UTF-8 form by the table of RFC 3629, extended to 21 bits, and no other bytes are |
| `FdReader.WrittenDelivered` | mxml-2.12/mxml-file.c:589-860 | a sequence of characters of any length, written one after the other, is what a reader delivers if and only if every one of them is legal |
| `FdReader.DeliveredWritten` | mxml-2.12/mxml-file.c:589-860 | writing what a reader delivers gives back the bytes it read if and only if these are accepted to the end and hold no byte order mark |
| `Entities.EntityCallback` | mxml-2.12/mxml-entity.c:139-441 | the binary search returns, for every input name, what a plain look-up in the 257-entry table returns, -1 for a name not in it |
| `Entities.Found` | mxml-2.12/mxml-entity.c:139-441 | a name in the table looks up to its own entry, which needs that names occur once |
| `Entities.Sorted` | mxml-2.12/mxml-entity.c:143-401 | the table is in strcmp order, on which the binary search depends |
| `Entities.NamesAreKnown` | mxml-2.12/mxml-entity.c:57-76 | every name the writer escapes a character with is in the reader table, under that character: the two halves of escaping agree |
| `XmlLoad.Buffer.AddChar` | mxml-2.12/mxml-file.c:589-661 | over any sequence of additions the buffer holds the encodings added so far and always keeps room for the terminating NUL; it grows when within four bytes of its end |
| `XmlLoad.Buffer.Terminate` | mxml-2.12/mxml-file.c:1436-1443 | the NUL can be stored after any additions without growing |
| `XmlLoad.Source.Getc` | mxml-2.12/mxml-file.c:2366-2516 | the pointer-stepping string reader returns the character of the reader function and leaves exactly its rest |
| `XmlLoad.ReadEntity` | mxml-2.12/mxml-file.c:1318-1371 | an entity reference is resolved as specified, with the 64-byte name limit, numeric forms and the error cases |
| `XmlLoad.ReadQuoted` | mxml-2.12/mxml-file.c:2252-2275 | a quoted string is collected up to its own quote, entities decoded |
| `XmlLoad.ReadAttrs` | mxml-2.12/mxml-file.c:2098-2358 | the attribute loop agrees with the parser of attribute lists: errors such as a repeated name reported, the closing character returned |
| `XmlLoad.ReadTagName` | mxml-2.12/mxml-file.c:1555-1586 | the tag name stops at a blank, `>` or the slash of an empty element, as specified, and switches to comment or CDATA collection at once |
| `XmlLoad.ReadUntil` | mxml-2.12/mxml-file.c:1589-1745 | comments, CDATA sections and processing instructions are collected up to their terminator and not beyond |
| `XmlLoad.ReadDeclaration` | mxml-2.12/mxml-file.c:1813-1850 | a declaration is collected up to its `>` |
| `XmlLoad.ReadTag` | mxml-2.12/mxml-file.c:1555-2020 | one tag changes the parser state as specified: open, close, special element or error |
| `XmlLoad.LoadString` | mxml-2.12/mxml-file.c:1379-2090 | the whole state machine over a growing buffer computes, on every input, the outcome of the parser function |
| `XmlPrinter.Sink.Putc` | mxml-2.12/mxml-file.c:2618-2632 | characters past the buffer are counted and not stored |
| `XmlPrinter.Sink.WriteString` | mxml-2.12/mxml-file.c:3035-3067 | the text put out is the escaped string |
| `XmlPrinter.Sink.WriteName` | mxml-2.12/mxml-file.c:2640-2707 | a quoted name is escaped between its quotes, any other is copied |
| `XmlPrinter.Sink.WriteAttrs` | mxml-2.12/mxml-file.c:2784-2823 | attributes are put out with blanks or line breaks where the wrap margin asks for them, and the column is tracked |
| `XmlPrinter.ClimbUp` | mxml-2.12/mxml-file.c:2989-3022 | climbing prints the end tags of exactly the elements left, none for `?` and `!` elements, and stops at the start node |
| `XmlPrinter.WriteTree` | mxml-2.12/mxml-file.c:2715-3027 | the stack-free printer terminates and prints the recursive serialization of the tree; nothing is known or read of siblings or parents of the start node |
| `XmlPrinter.SaveString` | mxml-2.12/mxml-file.c:369-407 | for every tree and every buffer of at least one byte the full length is returned and the buffer gets the part that fits, NUL-terminated |
| `XmlPrinter.SaveAllocString` | mxml-2.12/mxml-file.c:221-264 | the complete text is returned for every non-empty output, through the fixed buffer or an exact allocation |
| `XmlExact.SavedBackIff` | mxml-2.12/mxml-file.c:1379-3027 | main theorem: for every tree of elements and text, loading what was saved gives back the same tree if and only if the tree survives: names, values and texts of characters the reader accepts, attributes with a value and a plain name, special names as their scanners take them, non-empty non-adjacent text, and none at the very end below a special root; at every wrap margin |
| `XmlExact.LoadedBackIff` | mxml-2.12/mxml-file.c:1379-3027 | for every accepted input, loading, saving and loading again gives what loading once gave if and only if that tree survives |
| `XmlExact.RereadDiffers` | mxml-2.12/mxml-file.c:1379-3027 | an accepted input whose tree is not the same after saving and loading |
| `XmlGrowth.Grows` | mxml-2.12/mxml-file.c:1379-2090 | for every accepted input and every state of the parser, the finished tree shows what had been read so far and nothing is taken back; and it is one a parser can build: no empty or adjacent text, attributes with values and different names, no children below special elements but the root |
| `XmlBounds.EntityTaken` | mxml-2.12/mxml-file.c:1318-1371 | a decoded reference lies within the text before the delimiter and is longer than the character it yields, for numbers and for all 257 names |
| `XmlBounds.TagNameTaken` | mxml-2.12/mxml-file.c:1555-1586 | the tag name read from a printed name is never longer than it, and as long only if every character is one of a tag name |
| `XmlBounds.QuotedTaken` | mxml-2.12/mxml-file.c:2252-2275 | the value read from an escaped string between quotes is never longer than the string, and as long only if the string is text the reader accepts |
| `XmlBounds.DeclarationTaken` | mxml-2.12/mxml-file.c:1813-1850 | a declaration read from printed text is that text only if it is a tag name and then no `&` or closing bracket; a byte 0xFF behind the name is refused as a character and stored as that byte |
| `XmlRoundTrip.LoadSaved` | mxml-2.12/mxml-file.c:1379-3027 | the half that trees which survive come back, by reading the printed text with the parser |
| `XmlRoundTrip.ForestRead` | mxml-2.12/mxml-file.c:1379-2090 | inside an element, the printed form of a forest adds exactly that forest to the children collected so far and leaves the rest of the input |
| `XmlRoundTrip.PrologSurvivesIff` | mxml-2.12/mxml-file.c:2052-2077 | below a root such as `?xml ...?` the tree comes back if and only if it does not end in text: trailing text there never becomes a node |
| `XmlRoundTrip.AttrSurvivesIff` | mxml-2.12/mxml-file.c:2138-2345 | a printed attribute is read back by the parser if and only if its name starts with an ASCII character that is no blank, quote, slash, question mark or angle bracket, and it has a value; for every name whose other characters are name characters |
| `XmlRoundTrip.PrologLosesText` | mxml-2.12/mxml-file.c:2052-2077 | below a root `?x?` the text t is saved and not loaded, at every wrap margin |
| `XmlRoundTrip.AttributesNotReadBack` | mxml-2.12/mxml-file.c:2138-2345 | attributes whose names start with a slash, a quote and a letter beyond ASCII, and one without a value, which are not read back whatever follows |
| `XmlRoundTrip.ValueRead` | mxml-2.12/mxml-file.c:2252-2275 | an escaped string between quotes is read back as the string, for every legal text |
| `XmlRoundTrip.AttrsRead` | mxml-2.12/mxml-file.c:2098-2358 | a printed attribute list is read back as that list, wherever it was wrapped |
| `XmlSaveLoad.SaveThenLoad` | mxml-2.12/mxml-file.c:191-264 | printing a tree of linked nodes to a string of any length and parsing the string yields the values of that tree if and only if it survives; for every tree of C strings |
| `XmlSaveLoad.SavedIsCString` | mxml-2.12/mxml-file.c:221-264 | the text of a tree of C strings, and of every tree that can be reloaded, is a C string, so nothing is lost at a NUL |
| `XmlReferences.ReferenceRead` | mxml-2.12/mxml-file.c:1318-1371 | a number spelled in decimal or hexadecimal digits, in either case, with zeros in front or not, is read as that number if the reference fits the 64-byte buffer: the low 32 bits of it, refused if they are no character or it exceeds a long |
| `XmlReferences.Numeral` | mxml-2.12/mxml-file.c:1352-1357 | every number has such a spelling, in either base and case |
| `XmlReferences.PrefixedRead` | mxml-2.12/mxml-file.c:1352-1357 | behind `#x` a second prefix 0x is skipped |
| `XmlReferences.ReferenceTooLong` | mxml-2.12/mxml-file.c:1318-1371 | a reference of more than 63 bytes is refused |
| `XmlSource.DocumentLoads` | mxml-2.12/mxml-file.c:1379-2358 | a document as people write it loads as the tree it spells: white space anywhere it may stand, values in either quotes or none, characters by themselves, by number or by name, elements closed either way, comments, CDATA sections, instructions and declarations inside |
| `XmlSource.PrologLoads` | mxml-2.12/mxml-file.c:1379-2358 | below an instruction or declaration that comes first the rest loads as its contents; text at the very end is lost |
| `XmlSource.SrcRead` | mxml-2.12/mxml-file.c:1379-2358 | at any depth a row of such source adds exactly the nodes it spells and leaves the rest of the input |
| `XmlSource.AttrSrcRead` | mxml-2.12/mxml-file.c:2098-2358 | an attribute is parsed whatever the white space around it and its equals sign and whichever quotes it has |
| `XmlSource.SpecialSrcName` | mxml-2.12/mxml-file.c:1589-1850 | text without --> and not ending in a dash is a comment, without ]]> a CDATA section, without ?> an instruction, and a tag name and then text without closing bracket and ampersand a declaration |
| `XmlSource.Unfinished` | mxml-2.12/mxml-file.c:2053-2076 | input that ends inside an element is refused, unless only the root is open, which is returned as it is |
| `XmlSource.WrongEndTag` | mxml-2.12/mxml-file.c:1901-1920 | the end tag of another element is refused at any depth, whatever follows |
| `XmlSource.SecondRootRefused` | mxml-2.12/mxml-file.c:1949-1960 | a second root is refused, whatever follows |
| `XmlSource.RepeatedAttribute` | mxml-2.12/mxml-file.c:2231-2232 | an attribute whose name has been there is refused, whatever follows |
| `XmlSource.BrokenTag` | mxml-2.12/mxml-file.c:2151-2178 | in a tag an opening bracket is refused, and a slash or question mark without a closing bracket behind it |
| `XmlSource.ShortestInstruction` | mxml-2.12/mxml-file.c:1733-1746 | a question mark alone is an instruction |
| `XmlSource.UnknownName` | mxml-2.12/mxml-file.c:1318-1371 | a reference to a name that is not in the table is refused at any depth |
| `XmlWrap.LinesFilled` | mxml-2.12/mxml-file.c:2784-2823 | the attributes of a tag fill one line after the other: a line is broken exactly when the next attribute would pass the margin as the printer counts, so a line of several attributes reaches at most one character past the margin, and at margin 0 there is no break |
| `XmlWrap.BlankedAsIs` | mxml-2.12/mxml-file.c:2784-2823 | for attributes without escapes and line breaks the lengths by which lines are filled are those of the text |
| `XmlWrap.MarginPassed` | mxml-2.12/mxml-file.c:2793-2807 | a line of four characters at margin 3 |
| `XmlWrap.WriteColumn` | mxml-2.12/mxml-file.c:2715-3027 | for trees without escapes, line breaks and CDATA sections the column by which the printer breaks lines is that of the text printed so far |
| `XmlWrap.ElementForms` | mxml-2.12/mxml-file.c:2733-2905 | an element is closed in its tag behind a blank if it has no children, and by an end tag otherwise |
| `XmlWrap.SpecialForms` | mxml-2.12/mxml-file.c:2747-2866 | comments, instructions, CDATA sections and declarations have no end tag |
| `XmlWrap.QuotedForm` | mxml-2.12/mxml-file.c:2640-2707 | a name in quotes is escaped between them, what stands behind the closing quote is dropped and a missing one added |
| `XmlWrap.SavedEndsLine` | mxml-2.12/mxml-file.c:385-392 | every tree that prints as anything is saved with a line break at the end |
| `FdReader.FdBuf.Refill` | mxml-2.12/mxml-file.c:1003-1038 | a refill, after any number of interrupted reads, keeps the bytes pending and fails exactly at the end of the file |
| `FdReader.FdBuf.Getchar` | mxml-2.12/mxml-file.c:669-860 | the buffered reader delivers the character of the string reader on the bytes pending, wherever the refills fall, even inside a multi-byte character, and fails where it fails |
| `FdReader.FdBuf.ReadAll` | mxml-2.12/mxml-file.c:669-860 | up to the first end or error, reading a descriptor delivers exactly the characters of the byte string |
| `FdReader.SplitStreams` | mxml-2.12/mxml-file.c:1003-1038 | every split of a byte string into non-empty reads of at most 8192 bytes is a possible arrival of that string |
| `NodeEdit.Store.Add` | mxml-2.12/mxml-node.c:43-166 | the child list gets the node at the position asked for; there are lists of children that the resulting pointers spell, acyclically, if and only if the node is not its own reference child nor an ancestor of the new parent |
| `NodeNew.AddBelowOwnChild` | mxml-2.12/mxml-node.c:78-154 | a node added below its own child leaves pointers that fit no lists of children |
| `NodeNew.AddBesideItself` | mxml-2.12/mxml-node.c:78-154 | so does a node added next to itself |
| `NodeEdit.Store.Remove` | mxml-2.12/mxml-node.c:639-695 | the node leaves its list, all five pointers of all nodes stay consistent and acyclic, nothing else changes |
| `NodeEdit.AddedLists` | mxml-2.12/mxml-node.c:78-154 | a node added leaves every other list of children and stands directly behind or before the reference child if that is a child of the new parent, and last or first otherwise |
| `NodeEdit.LinkingWellFormed` | mxml-2.12/mxml-node.c:78-154 | splicing a lone node in between two neighbours keeps the store well formed exactly when the new parent is not below it; otherwise no lists of children fit |
| `NodeEdit.UnlinkingWellFormed` | mxml-2.12/mxml-node.c:659-694 | taking a node out keeps the store well formed |
| `NodeNew.New` | mxml-2.12/mxml-node.c:830-876 | a fresh node with reference count one stands last among its parent's children, in a store that stays well formed |
| `NodeNew.LoneWellFormed` | mxml-2.12/mxml-node.c:846-858 | a node linked to nothing can always be added to a well-formed store and is above none of its nodes |
| `NodeShape.Below` | mxml-2.12/mxml-node.c:43-166 | the pointers below any node of a well-formed store spell a finite forest that holds exactly its descendants, each once |
| `NodeDelete.FreeBelow` | mxml-2.12/mxml-node.c:199-236 | the iterative destroyer terminates and frees exactly the nodes of the forest in post-order, although it clears child pointers as it goes |
| `NodeDelete.Delete` | mxml-2.12/mxml-node.c:177-242 | every node of the subtree is freed exactly once, children before parents, no freed node is read, and the rest stays a well-formed store with unchanged contents |
| `NodeDelete.OutsideWellFormed` | mxml-2.12/mxml-node.c:177-242 | what is outside a detached subtree is well formed without it |
| `NodeDelete.PostOrderParentsLater` | mxml-2.12/mxml-node.c:199-236 | post-order puts every node before its parent |
| `NodeDelete.Retain` | mxml-2.12/mxml-node.c:754-760 | only the count of that node goes up |
| `NodeDelete.Release` | mxml-2.12/mxml-node.c:730-744 | the last release frees the whole subtree, every earlier one only counts down |
| `NodeWalk.WalkNext` | mxml-2.12/mxml-search.c:206-232 | the next node is the next one in document order, null after the last one below `top`, for every node and every `top`: one that is the node or above it, null, elsewhere in the document or in another; without descending, the one after the subtree |
| `NodeWalk.EveryNodeStands` | mxml-2.12/mxml-search.c:206-272 | every node of a document is in one of the positions the walks are proved for, whatever `top` is, and where the document is linked both ways, so is what the walk back needs |
| `NodeStore.ChainedDistinct` | mxml-2.12/mxml-node.c:43-166 | a finite forest spelled by `parent`, `child` and `next` pointers has no node twice |
| `NodeWalk.WalkPrev` | mxml-2.12/mxml-search.c:244-272 | walking back returns the node before in document order, so it undoes walking forward, and stops below `top`; for every node and every `top` |
| `NodeWalk.Locate` | mxml-2.12/mxml-search.c:206-232 | every position in document order is a place in the tree whose remaining nodes are the rest of that order |
| `NodeWalk.Before` | mxml-2.12/mxml-search.c:244-272 | the node before in document order is the parent of a first child, or the deepest last node below the previous sibling |
| `NodeWalk.WantedMeans` | mxml-2.12/mxml-search.c:72-94 | a node is wanted if it is an element of the name given, and its first attribute of the name given has a value, the one given |
| `NodeWalk.FindElement` | mxml-2.12/mxml-search.c:37-107 | the first node in range, in order, that is an element of the name given whose first attribute of the name given has the value given: all that follows in document order, which for a start outside `top` goes on until the end of what is below `top`, or a row of siblings; null if none or if a value is given without an attribute |
| `IndexSearch.SortedIsCorrect` | mxml-2.12/mxml-index.c:145-271 | along comparisons that only go down, repeated finds answer exactly the matches, in order, each once, and then nothing |
| `IndexSearch.FirstIsEnough` | mxml-2.12/mxml-index.c:231-271 | if matches are contiguous, finding the first one makes all further answers right |
| `IndexSearch.CorrectContiguous` | mxml-2.12/mxml-index.c:231-271 | conversely a search that answers right has contiguous matches |
| `IndexSearch.ValueOnly` | mxml-2.12/mxml-index.c:553-567 | searching by value alone is right for every value if and only if the index has at most two nodes or its values are in order |
| `NodeIndex.ValueNotFound` | mxml-2.12/mxml-index.c:553-567 | a heap with a sorted index of elements a, a, b with values 2, 3, 1, in which a search by value does not answer the value 1 |
| `IndexSearch.StrCmpMeans` | mxml-2.12/mxml-index.c:511-525 | one string comes before another exactly if it is a prefix of it or smaller at the first byte where they differ |
| `IndexSearch.StrCmpTrans` | mxml-2.12/mxml-index.c:511-525 | the string order is transitive, strictly if either step is |
| `NodeIndex.LeqTotal` | mxml-2.12/mxml-index.c:502-533 | the comparison of nodes is total and antisymmetric in sign |
| `NodeIndex.LeqTrans` | mxml-2.12/mxml-index.c:502-533 | the comparison of nodes is transitive, so a preorder with equal keys |
| `NodeIndex.Index.Partition` | mxml-2.12/mxml-index.c:597-647 | after one pass everything before the returned position is at most what is there and everything after at least, by swaps within the range only |
| `NodeIndex.Index.IndexSort` | mxml-2.12/mxml-index.c:584-655 | the range ends up sorted and a rearrangement of itself, for all inputs including equal keys; nothing outside it moves |
| `NodeIndex.Index.FindFirst` | mxml-2.12/mxml-index.c:149-230 | the halving loop with its walk back and its final scan computes the search function |
| `NodeIndex.Index.Find` | mxml-2.12/mxml-index.c:101-271 | a call answers and moves the cursor as specified, with the null results for a value without an attribute and for an empty index |
| `NodeIndex.Index.Enum` | mxml-2.12/mxml-index.c:71-88 | the node at the cursor is returned and the cursor moves on, until the end |
| `NodeIndex.Index.Reset` | mxml-2.12/mxml-index.c:467-494 | the cursor is back at the start and the first node is returned |
| `NodeIndex.QueryMeans` | mxml-2.12/mxml-index.c:541-575 | the comparison with a query is zero exactly for an element of the name asked for whose first attribute of the indexed name has the value asked for |
| `NodeIndex.SortedAscends` | mxml-2.12/mxml-index.c:502-533 | along a sorted index the element names ascend, and where they agree the attribute values |
| `NodeIndex.FindByElement` | mxml-2.12/mxml-index.c:101-271 | after a reset of a sorted index, repeated finds by element name, with or without a value, answer exactly the matching nodes in index order, each once, then nothing |
| `NodeIndex.FindByValue` | mxml-2.12/mxml-index.c:553-567 | by value alone that holds for every value if and only if the index has at most two nodes or its attribute values are in order |
| `NodeIndex.IndexNew` | mxml-2.12/mxml-index.c:309-455 | the index holds exactly the elements below the node that have the name and the attribute given, with neither given the node itself too, no node twice, sorted |
| `NodeIndex.Gather` | mxml-2.12/mxml-index.c:344-379 | the search loop collects exactly the wanted elements in document order |
| `Crc.ComputeBuf` | mca-2.0.3/common/Fragments/mca_utils_impl_abb.c:152-204 | the table-driven loop equals the bit-by-bit reflected CRC-32 on every buffer and every start value |
| `CrcTable.TableIsBitwise` | mca-2.0.3/common/Fragments/mca_utils_impl_abb.c:155-192 | every one of the 256 table entries is eight bit steps on its index |
| `Crc.ByteSplit` | mca-2.0.3/common/Fragments/mca_utils_impl_abb.c:197-203 | only the low byte of the register needs the table |
| `Crc.Accumulates` | mca-2.0.3/common/Fragments/mca_utils_impl_abb.c:138-142 | continuing a checksum over a second buffer gives the checksum of both together |
| `Crc.FoldInjective` | mca-2.0.3/common/Fragments/mca_utils_impl_abb.c:197-203 | registers that differ stay different over equal bytes |
| `Crc.BitBurstDetected` | mca-2.0.3/common/Fragments/mca_utils_impl_abb.c:152-204 | every error burst of at most 32 bits, starting at any bit of any byte, changes the checksum: different buffers of equal length whose differing bits lie among 32 in a row |
| `Crc.BurstDetected` | mca-2.0.3/common/Fragments/mca_utils_impl_abb.c:152-204 | buffers that differ only within four consecutive bytes have different checksums |
| `Crc.ByteErrorDetected` | mca-2.0.3/common/Fragments/mca_utils_impl_abb.c:152-204 | buffers of equal length that differ in one byte have different checksums |
| `Crc.CheckValue` | mca-2.0.3/common/Fragments/mca_utils_impl_abb.c:194-205 | the checksum of the digits 1 to 9 is 0xCBF43926 |
| `ZipFormat.LocalReadBack` | mxml-2.12/zipc.c:1039-1120 | a member's local header is read back with its name, sizes, checksum and offset, and the scan goes on behind its data |
| `ZipFormat.ScanBack` | mxml-2.12/zipc.c:1039-1120 | opening a closed container finds every member up to the first with an empty name, with its name, sizes, checksum and offset, in order |
| `ZipFormat.ScanBackIff` | mxml-2.12/zipc.c:1062-1066 | the scan finds all that was written if and only if no name is empty |
| `ZipDirectory.DirectoryAgrees` | mxml-2.12/zipc.c:1589-1616 | each central directory entry of a member the scan reaches repeats what the scan finds in its local header, patched or not, and points at it |
| `ZipDirectory.EndAgrees` | mxml-2.12/zipc.c:170-183 | the end record gives count, size and start of the directory, each as far as its 16 or 32 bits go, with zero disk numbers and no comment |
| `ZipDirectory.ListedBack` | mxml-2.12/zipc.c:151-203 | a reader that starts at the end record and goes from entry to entry by the lengths it finds gets the members in order, whatever their names, with all their attributes and their data, and ends at the end record: all of them below 65536 |
| `ZipDirectory.LocalHeaderRead` | mxml-2.12/zipc.c:1039-1120 | what the scan makes of any local header, its own or another program writing: all fields at their offsets, little-endian, the data behind name and extra field; it stops at a name that is empty, above 255 bytes or cut short |
| `ZipDirectory.Signatures` | mxml-2.12/zipc.c:55-70 | the bytes of the three signatures and of the attributes of directories, files and text |
| `ZipFormat.CrcAccumulates` | mxml-2.12/zipc.c:671 | the checksum of data written in pieces is the checksum of the data |
| `ZipWriter.StoredNames` | mxml-2.12/zipc.c:295-325 | a name is stored cut to 255 bytes; that of a directory gets a slash unless it is empty, has one, or fills those bytes |
| `ZipWriter.Writer.CreateDirectory` | mxml-2.12/zipc.c:295-325 | a directory member is added, its name clipped to 255 bytes and given a slash where there is room |
| `ZipWriter.Writer.CreateFileWithString` | mxml-2.12/zipc.c:378-409 | a complete member is added; an empty string is stored although reported as a failure |
| `ZipWriter.Writer.CreateFile` | mxml-2.12/zipc.c:339-365 | a streamed member is begun with an empty header; it fails exactly for an empty name |
| `ZipWriter.Writer.FileWrite` | mxml-2.12/zipc.c:656-716 | the data is appended to the member being streamed, sizes and checksum following; writing nothing is reported as a failure |
| `ZipWriter.Writer.FileFinish` | mxml-2.12/zipc.c:429-480 | patching the header in place makes the file the bytes of its finished members, and writing goes on at the end |
| `ZipWriter.Writer.PatchHeader` | mxml-2.12/zipc.c:1653-1678 | only the twelve bytes of checksum and sizes change |
| `ZipWriter.Writer.Close` | mxml-2.12/zipc.c:151-203 | the closed file is the members, one directory entry each, and the end record |
| `ZipReader.Reader.constructor` | mxml-2.12/zipc.c:1039-1120 | opening collects the records of the scan |
| `ZipReader.Reader.OpenFile` | mxml-2.12/zipc.c:1182-1223 | the first entry of that name is opened at the start of its contents |
| `ZipReader.Reader.FileRead` | mxml-2.12/zipc.c:606-639 | the next bytes of the contents of a stored entry, even one cut short, are handed out, at least one if any are asked for and left, -1 when nothing is |
| `ZipReader.Reader.ReadChar` | mxml-2.12/zipc.c:1433-1455 | characters come out in order through the read-ahead buffer, which can be mixed with block reads |
| `ZipReader.Reader.ReadAll` | mxml-2.12/zipc.c:606-639 | reading in pieces of any sizes yields the complete contents |
| `ZipReader.StoredContents` | mxml-2.12/zipc.c:1182-1223 | where the scan says an entry's data is, the member's data is |
| `ZipReader.RoundTrip` | mxml-2.12/zipc.c:969-1223 | opening a closed container and reading a name yields the contents of the first member written under it, if no member before it has an empty name, and a name not written is not found |
| `ZipRoundTrip.WriteThenRead` | mxml-2.12/zipc.c:151-1223 | any list of create-directory, create-with-string and create/write/finish calls, then close, open and reads of any sizes: every name yields what was first written under it, unless an empty name came before |
| `ZipRoundTrip.NamelessHides` | mxml-2.12/zipc.c:1062-1066 | a member named a, written after one with an empty name, is not found |
| `ZipRoundTrip.EmptyReported` | mxml-2.12/zipc.c:1568-1577 | storing an empty string returns -1, and reading it back finds the empty contents |
| `RwLock.CountersAreHolders` | mca-2.0.3/conker/src/tc_echo.c:1469-1595 | over every interleaving, spurious wakeups included, the counters equal the numbers of readers and writers inside |
| `RwLock.WriterExcludes` | mca-2.0.3/conker/src/tc_echo.c:1488-1537 | over every interleaving a writer excludes every other thread |
| `RwLock.WakeupsNotLost` | mca-2.0.3/conker/src/tc_echo.c:1542-1595 | whenever the lock is free and someone waits, some awakened thread is pending and gets the lock when it runs, although the last reader only signals |
| `RwLock.StepKeeps` | mca-2.0.3/conker/src/tc_echo.c:1488-1595 | every step of every thread keeps counters, exclusion, `readers sleep only behind a writer` and `a free lock never leaves everyone asleep` |
| `RwLock.ServingEnds` | mca-2.0.3/conker/src/tc_echo.c:1488-1595 | without new requests and spurious wakeups, any run of n threads ends within n(2n + 3) steps |
| `RwLock.EveryoneServed` | mca-2.0.3/conker/src/tc_echo.c:1488-1595 | when no thread can resume or unlock any more, none is left waiting |
| `RwLock.HolderCanUnlock` | mca-2.0.3/conker/src/tc_echo.c:1542-1595 | the unlock of a thread inside never takes the error return |
| `RwLock.Rdwr.constructor` | mca-2.0.3/conker/src/tc_echo.c:1469-1483 | a fresh lock has neither readers nor a writer |
| `RwLock.Rdwr.Attempt` | mca-2.0.3/conker/src/tc_echo.c:1488-1537 | a pass through the waiting loop enters exactly when the test allows and counts the entry |
| `RwLock.Rdwr.RUnlock` | mca-2.0.3/conker/src/tc_echo.c:1542-1568 | the last reader, and only it, signals; without readers -1 and no change |
| `RwLock.Rdwr.WUnlock` | mca-2.0.3/conker/src/tc_echo.c:1573-1595 | the writer leaves and broadcasts; without a writer -1 and no change |
| `EchoRing.OneInFlight` | mca-2.0.3/conker/src/tc_echo.c:580-731 | for every number of tasks and rounds and every interleaving at most one message is in flight, whole and incremented once per slave passed |
| `EchoRing.FlightBytes` | mca-2.0.3/conker/src/tc_echo.c:634-684 | behind task i the message is, byte by byte, letters A and a NUL with i added to its first byte |
| `EchoRing.ErrorsReported` | mca-2.0.3/conker/src/tc_echo.c:650-678 | whatever arrives, a task without error has read a message of the right size, and the master the expected text |
| `EchoRing.CountsTogether` | mca-2.0.3/conker/src/tc_echo.c:580-731 | no task is more than one round ahead of another |
| `EchoRing.NoErrors` | mca-2.0.3/conker/src/tc_echo.c:650-666 | the comparison of the master always succeeds and no read has the wrong size |
| `EchoRing.RunsEnd` | mca-2.0.3/conker/src/tc_echo.c:580-731 | every run ends within 2 n K steps, and a state is stuck exactly when every task has done all its rounds |
| `EchoRing.OnlyTurn` | mca-2.0.3/conker/src/tc_echo.c:1318-1337 | in every reachable state exactly one task can move, until the last round is over |
| `EchoRing.RunOnCourse` | mca-2.0.3/conker/src/tc_echo.c:580-731 | after k steps of any schedule the state is the k-th of one fixed course |
| `EchoRing.Ring.Move` | mca-2.0.3/conker/src/tc_echo.c:620-688 | a task's own code between two blocking points makes the step of the protocol |
| `EchoRing.Ring.Play` | mca-2.0.3/conker/src/tc_echo.c:580-731 | letting any task that can move do so terminates with every task through all its rounds without an error |
| `SemEntry.AcquireAllOrNothing` | mrapi_impl_spec_sem_abb.c:683-707 | a request for at least one lock gets exactly that many, from free slots only, or changes nothing; it succeeds exactly when it fits the limit, and then the semaphore is in use |
| `SemEntry.AcquireEvery` | mrapi_impl_spec_sem_abb.c:655-681 | asking for all takes every free slot whether or not the call then succeeds; the status says success only if the caller owns all |
| `SemEntry.ReleaseMeans` | mrapi_impl_spec_sem_abb.c:819-903 | release succeeds exactly when the semaphore is in use and the locks are there, and takes off exactly those; post is the same call and needs ownership too, against its comment (915-920) |
| `SemEntry.DeleteMeans` | mrapi_impl_spec_sem_abb.c:369-435 | `valid` is cleared only for a caller that owns every slot, alone or with an anonymous holder of its domain |
| `SemRuns.CreateMeans` | mrapi_impl_spec_sem_abb.c:253-356 | creation fails only for a key in use or a full table; otherwise the first unused entry that is not kept for error reports is filled with the key, kind and error checking asked for, and its creator owns the initial locks |
| `SemRuns.StepKeeps` | mrapi_impl_spec_sem_abb.c:253-1038 | every step of every node keeps counters, slots, limits and keys consistent |
| `SemRuns.CountersRight` | mrapi_impl_spec_sem_abb.c:630-708 | over every run each counter is its number of locked slots and at most the limit, and distinct nodes together hold no more than that |
| `SemRuns.MutualExclusion` | mrapi_impl_spec_sem_abb.c:630-708 | over every run a semaphore with one lock is mutually exclusive |
| `SemRuns.RetiredByOwner` | mrapi_impl_spec_sem_abb.c:369-435 | over every run a semaphore is retired only by a delete of the node that owns all of its locks |
| `SemRuns.StepIdentity` | mrapi_impl_spec_sem_abb.c:253-435 | a step leaves key, kind, limit and error checking of a semaphore in use alone, and only a delete takes it out of use |
| `SemRuns.KeyIsTaken` | mrapi_impl_spec_sem_abb.c:277-295 | until a delete retires it, a semaphore created under a key keeps every further creation under that key out, by any node, over every run |
| `SemRuns.DeletedForGood` | mrapi_impl_spec_sem_abb.c:415-430 | a semaphore deleted under extended error checking keeps its entry, marked as deleted, over every run |
| `SemRuns.RetiredForGood` | mrapi_impl_spec_sem_abb.c:415-430 | a semaphore retired under extended error checking is never touched or reused, by any step of any node |
| `SemRuns.StepOthers` | mrapi_impl_spec_sem_abb.c:819-1038 | a step of another node changes what a node holds only if it signals that semaphore, and then takes at most as many locks as it signals |
| `SemRuns.RunOthers` | mrapi_impl_spec_sem_abb.c:819-1038 | over any run of other nodes a node loses exactly what their signals take |
| `SemRuns.AcquireManyAll` | mrapi_impl_spec_sem_abb.c:721-762 | one attempt at a set takes the request once per occurrence on the list or, after rollback, leaves every held count as it was, even if other slots are freed than were taken |
| `SemRuns.AcquireManyAny` | mrapi_impl_spec_sem_abb.c:721-762 | not waiting for all, an attempt takes the request of the first semaphore that fits it, or nothing |
| `SemRuns.LockAllOrNothing` | mrapi_impl_spec_sem_abb.c:558-617 | waiting for all is all or nothing for the caller whatever others do at each yield: its held counts end up as they were, plus the request per occurrence if granted, minus what signals took, nothing if none signals; a failed try (timeout 1) leaves the status as it was |
| `SemRuns.LockAnyOne` | mrapi_impl_spec_sem_abb.c:558-617 | waiting for any gains the request on exactly one semaphore or nothing, and loses what signals of others take |
| `SemRuns.LockOneMeans` | mrapi_impl_spec_sem_abb.c:487-546 | locking one semaphore gains exactly the request when granted and nothing otherwise, and loses what signals of others take, with TIMEOUT or LOCKED as the status |
| `SemRuns.LockEveryOnce` | mrapi_impl_spec_sem_abb.c:515-520 | an attempt at all locks reports success if and only if no other node holds one or the status variable already said success |
| `SemRuns.LockEvery` | mrapi_impl_spec_sem_abb.c:487-546 | under every schedule, a caller that is told it has all locks has them if and only if its status did not say success beforehand or no other node held one |
| `SemRuns.StaleSuccess` | mrapi_impl_spec_sem_abb.c:515-520 | two nodes, one lock held by the other, and a caller that is told it has them all |
| `SemRuns.DeleteCallMeans` | mrapi_sem_abb.c:298-317 | deleting succeeds if and only if no other node held a lock at the call and no signal takes one during it; a failed delete leaves the caller with every lock that was free, less what signals took |
| `SemRuns.FailedDeleteKeeps` | mrapi_sem_abb.c:298-317 | a node that held nothing calls delete, fails, and holds the lock that was free |
| `SemRuns.PostNeedsOwnership` | mrapi_impl_spec_sem_abb.c:905-920 | a post of a lock that another node holds is refused as not locked |
| `SemRuns.FailedTrySaysSuccess` | mrapi_impl_spec_sem_abb.c:593-610 | a try at a set that fails, refused with its status still at success |
| `SemWait.AttemptSucceeds` | mrapi_impl_spec_sem_abb.c:721-762 | an attempt at a set succeeds exactly if every semaphore has room for all that is asked of it, or, for any of the set, if one has room for the request |
| `SemWait.SetCallEnds` | mrapi_impl_spec_sem_abb.c:558-617 | under every schedule a set call is granted at the first attempt at which the set can be had, refused after as many attempts as its timeout says, one at least, and waits otherwise |
| `SemWait.LockCallEnds` | mrapi_impl_spec_sem_abb.c:487-546 | so does a lock call, for a number of locks or for all |
| `SemCalls.Database.AcquireLock` | mrapi_impl_spec_sem_abb.c:630-708 | on every consistent database the loops over the slots end in the database, count and status of one atomic acquire, and the database stays consistent |
| `SemCalls.Database.ReleaseLock` | mrapi_impl_spec_sem_abb.c:819-1038 | the counting and the unlocking loop together end in the database, result and status of one atomic release, by the owner or by signal |
| `SemCalls.Database.AcquireLocks` | mrapi_impl_spec_sem_abb.c:721-762 | the loop over a set with its rollback ends in the database and total of one atomic attempt, so it inherits all or nothing |
| `SemCalls.Database.SemDelete` | mrapi_impl_spec_sem_abb.c:369-435 | the entry is retired exactly when every slot passes the ownership check, marked as deleted under extended error checking, and nothing else changes |
| `SemCalls.Database.SemCreate` | mrapi_sem_abb.c:64-86 | the argument guards refuse a limit of zero, above 256, or below the initial locks, without a change; otherwise the entry is created |
| `SemCalls.Database.SemLock` | mrapi_impl_spec_sem_abb.c:487-546 | under every schedule of the other nodes the retry loop ends as specified: database, outcome and status; it terminates with the schedule |
| `SemCalls.Database.SemLockMultiple` | mrapi_impl_spec_sem_abb.c:558-617 | under every schedule the retry loop over a set ends as specified, and a handle that does not decode is refused without a change |
| `SemCalls.Database.MrapiSemDelete` | mrapi_sem_abb.c:298-317 | collecting all locks and then deleting ends as the specified sequence of two atomic steps with others in between |

## Left out

- UTF-16 input: the reader's switch at a UTF-16 mark is reported as outside the model, so the rejected low
  surrogate 0xDFFF (mxml-2.12/mxml-file.c:903) does not occur.
- TEXT, INTEGER, REAL and CUSTOM values, SAX and white space callbacks: they lose white space or run user code.
- The `top` argument of the loaders (a tree to load into) and file wrappers around the string functions.
- XmlLoad.LoadString: the tree under construction is a value, not linked nodes; linking is proved for mxmlAdd.
- Entity callbacks beyond the built-in one, and mxmlEntityRemoveCallback.
- mxmlFindPath, mxmlIndexDelete, getters and setters, the mxmlNew* wrappers other than mxml_new.
- The array growth of mxmlIndexNew by 64 entries: the nodes found are collected in a sequence and then sorted
  in an array.
- NodeIndex.IndexNew: with neither element nor attribute the top node is put in unchecked, so it must be an
  element, as the comparison that follows dereferences its name.
- Messaging, domains and nodes of MCAPI/MRAPI, reference counts of semaphores, `num_sems`, handles (an index
  stands for a handle, out of range for one that does not decode), spin locks, and the check whether the caller
  is initialised: not part of the shown logic or plain plumbing.
- SemSpec.Key: an entry's address used as a key is taken to differ from every key a user chooses.
- SemSpec.Legal: nobody asks for zero locks; the lock call returns at once for zero, the unlock call would fail
  its own assertion (mrapi_impl_spec_sem_abb.c:896), and a set is asked for a positive number.
- `total_locks` is taken not to overflow 32 bits.
- EchoRing: writes and reads do not fail, and pipe capacity is not modelled, as one message of at most 1024
  bytes is in flight; timing, MCAPI transports, process creation and the lock around each descriptor, which only
  its own task takes, are left out.
- RwLock: failures of pthread calls.
- ZIP compression, copying from disk, printf variants, zipcFileGets and zipcFileXMLGets. The latter pushes a
  character back without moving `uncompressed_pos` back (mxml-2.12/zipc.c:796), so the reader invariant does not
  cover it.
- ZipWriter.Writer.FileWrite: one file is streamed at a time, the last one created, and one write is below 4 GiB;
  the code checks neither.
- ZipReader.Reader.FileRead: deflated entries can be opened but not read, as inflating is not modelled.
- ZipFormat.ScanBackIff: relies on a 64-bit `ssize_t`, with which a read of no bytes, -1, is less than the length 0
  (mxml-2.12/zipc.c:1062-1066); with 32 bits both are compared as unsigned and an empty name would be accepted.
- ZipReader.Reader.ReadChar: returns a byte; the sign a C char gives to bytes above 127 is not modelled.
- Allocation failure, I/O errors, error message text and debug output everywhere.
- mxmldoc.c, mmd.c, mxml-string.c, tc_fury.c, tc_example.c, th_pthreads.c: documentation tools and plumbing.
