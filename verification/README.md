# OpenXPC: string buffer, tail queue, objects and their D-Bus form

This project models three layers of OpenXPC and proves properties of them.

1. **The string buffer** (`libsbuf/sbuf.c`): a buffer that extends or drains when it is full, with a
   sticky error, a retry loop for formatted output, and nested padded sections.
2. **The intrusive tail queue** (`libOpenXPC/compat_queue.h`, the `TAILQ_*` macros): a doubly linked
   list whose back links are addresses of slots.
3. **The XPC objects** (`libOpenXPC/xpc_*.c`): dictionaries and arrays on that queue, hash, copy,
   recursive destruction, description, reference counts, and the codec to and from D-Bus messages.

## How it is built

| file | contents |
|---|---|
| `Words.dfy` | bytes, 64-bit words, `^` and `& ~` as bit recursions, rounding up |
| `BufferModel.dfy` | the string buffer as a value, one function per operation |
| `BufferRuns.dfy`, `BufferCapacity.dfy`, `BufferSections.dfy` | theorems about whole runs |
| `BufferEdits.dfy` | what clearing, copying, truncating, trimming and draining leave |
| `Sbufs.dfy` | class `Sbuf`, updated in place, proved to follow `BufferModel` |
| `TailQueue.dfy` | class `Link` and the queue macros as methods, against a ghost sequence |
| `Values.dfy`, `Entries.dfy` | objects as values; dictionary entries as an insertion-ordered map |
| `Containers.dfy` | classes `Dictionary` and `Array` on the tail queue |
| `Hashes.dfy`, `HashLaws.dfy`, `HashOrder.dfy`, `HashWire.dfy` | the hash, its laws, and what it does not see |
| `Wire.dfy`, `WireRoundTrip.dfy`, `WireTypes.dfy`, `Codec.dfy` | tokens, round trip, type system, iterators |
| `Describe.dfy` | the description of an object, printed through `Sbuf` |
| `DescribeRead.dfy`, `DescribeRoundTrip.dfy` | a reader of descriptions, and that it gives back what was printed |
| `Destroy.dfy`, `DestroyOrder.dfy`, `ObjectTrees.dfy` | objects in memory: destroying and building trees |
| `Copies.dfy`, `DeepCopy.dfy` | what a copy is, and the copy made in memory |
| `Refcount.dfy` | the reference count under any interleaving |

A mutable structure is a class whose methods are proved against a function or a ghost sequence; the
properties are proved about that function. Conventions of the model:

- A **drain** is any function of all offers made to it so far and of the bytes now offered, which
  answers with a negative error or with how many of the offered bytes it took (at least one), so every
  lawful drain behaviour is covered. The drain keeps the record of its own calls; what it has received
  is computed from that record and its answers, never from what the buffer believes.
- The **formatter** of `sbuf_vprintf` is its output, any byte string.
- A queue **head and an element's link** are one class `Link`, since the macros rely on their having
  the same layout; the address of a `next` slot is the `Link` that slot is in.
- A **file descriptor** is the open file behind it, which is what duplicating a descriptor preserves.
- The **payload of a boolean** fills its 64-bit word with 0 or 1. The constructor writes one byte of
  the union and the hash reads eight (`libOpenXPC/xpc_type.c:124`, `523`).
- A **message** is a sequence of tokens with opening markers that carry signatures; a reading
  iterator is the part of the message still ahead of it, and it ends where its container closes.
- A **tree in memory** is described by a ghost `Shape`; `Separate` says that nothing in it is reached
  twice, `Linked` that the links in memory have that shape. An object's queue head and its array link
  lie inside the object, so they are constants of it, and finding them is address arithmetic.
- The **destruction** goes through class `Memory`: each read and write of a block's fields is a method
  that logs the access and is possible only while the block is allocated, and freeing a block logs the
  free and leaves arbitrary values in all its fields, including the head and the link inside it.

## What the code turns out to do

- Formatted output that exactly fills a buffer that cannot extend is reported as an error, though
  nothing was lost; bytes appended one by one are not (`FixedBufferTruncates` has both directions).
- Trimming inside a section can cut into what stood before the section; the count of the section is
  then negative (`TrimmedSection`).
- A description does not escape quotes, so two different dictionaries can have the same description
  (`QuotesAreAmbiguous`); without quotes in keys and strings it can be read back (`DescriptionReadBack`).
- Copying an array gives an empty array. Copying an object retains NULL exactly when some dictionary in
  it, however deep, holds a leaf of a type without a copy (`CopyOutcomes`); `CopyIsTheObjectIff` says
  exactly when a copy is the object.
- The wire changes the hash exactly by the ports of the endpoints in the object, combined with `^`, so
  the hash survives exactly when they cancel out: a lone endpoint with a port other than 0 loses it,
  two equal ones in an array keep it (`HashSurvivesTheWire`, `EndpointHashes`).
- `xpc_dictionary_create` with initial pairs counts them twice: `GetCount` is right exactly when the
  dictionary was created without any. `xpc_array_append_value` never raises the size, so in every array
  that these functions build, indexed set has no effect and indexed get sees only the first element
  (`Array.SetAt`, `Array.GetValue`).
- The macro named `atomic_fetchadd_int` is an add-then-fetch. With the operation its name describes
  no object would ever be destroyed (`NeverDestroyedByFetchAdd`).
- Entries at level 0 of a description are indented by one blank, not none: the width of `%*s` is a
  minimum.

## Model

| member | source | states |
|---|---|---|
| Words.RoundUp2IsRoundUp | libsbuf/sbuf.c:39-40 | rounding up by masking with a power of two is rounding up to a multiple |
| Words.RoundUpIsLeastMultiple | libsbuf/sbuf.c:39 | the rounded value is the least multiple that is not below |
| BufferModel.ExtendSizeIsLeastLegal | libsbuf/sbuf.c:114-128 | the new size is the least power of two from 16 up, or whole number of pages, that is large enough, across the switch at 4096 |
| BufferModel.ExtendSizeIsClosure | libsbuf/sbuf.c:114-128 | sizing is extensive, monotone and idempotent |
| Sbufs.ExtendSizeLoop | libsbuf/sbuf.c:114-128 | the doubling loop computes that size |
| BufferModel.Drain.Call | libsbuf/sbuf.c:276-282 | the drain's side of a call: it has then received what it had before and the front of the offer, of the length it answered, or nothing more if it answered an error |
| BufferRuns.RunAccepts | libsbuf/sbuf.c:276-356 | for any lawful drain and any run of appends, what the drain has received followed by the buffered bytes is the old stream followed by a prefix of the requested bytes, all of them if there is no error; an open section counts exactly the accepted bytes; an error freezes the buffer |
| BufferRuns.PrintfAccepts | libsbuf/sbuf.c:410-475 | the same for one formatted output, through its retry loop |
| BufferRuns.MakeRoomOutcome | libsbuf/sbuf.c:436-450 | the retry loop ends short of room only on a drain error or when it can neither drain nor extend; if the size changed, it is the one that exactly fits |
| BufferRuns.ExtendsAtMostOnce | libsbuf/sbuf.c:436-450 | through any drains, the retry loop extends the buffer at most once: exactly when its size changed |
| BufferRuns.PrintfWithoutDrain | libsbuf/sbuf.c:410-475 | without a drain: the whole text if the buffer extends, else the longest prefix that fits, with an error exactly when the buffer is then full |
| BufferRuns.FinishedDrainGotEverything | libsbuf/sbuf.c:542-560 | if finishing reports no error, the buffer is empty and the drain, by its own record, has received what was buffered and then the requested bytes, each once, in order |
| BufferRuns.FixedBufferTruncates | libsbuf/sbuf.c:310-391 | a fixed buffer holds the longest prefix of all requested bytes that fits; it is in error if and only if more was requested or some formatted output filled it; an error means a full buffer |
| BufferRuns.ErrorFreezes | libsbuf/sbuf.c:317-318 | no append changes a buffer in error |
| BufferCapacity.SizeIsHighWater | libsbuf/sbuf.c:133-153 | through any appends, setpos, trim and clear of a buffer from sbuf_new_auto, no error, and the size is the one rounded up from the largest length ever reached plus the terminator |
| BufferCapacity.ChunkingDoesNotMatter | libsbuf/sbuf.c:319-331 | two ways of appending the same bytes leave the same contents and the same size |
| BufferEdits.SectionsAreInvisible | libsbuf/sbuf.c:332-333 | whether a section is open and what it counted changes nothing else about any run |
| BufferEdits.ClearedIsNew | libsbuf/sbuf.c:219-230 | after a clear, every run leaves what it leaves in a new buffer of that size with that drain; an open section counts from the clear on |
| BufferEdits.ClearedContents | libsbuf/sbuf.c:219-230 | without a drain, an extending buffer then holds exactly the requested bytes without error, a fixed one the longest prefix that fits, with an error exactly if the new requests earn it |
| BufferEdits.CopyContents | libsbuf/sbuf.c:361-405 | copying bytes leaves those bytes, or as many as fit with an error; with a drain, what it received before is followed by the bytes |
| BufferEdits.SetPosTruncates | libsbuf/sbuf.c:236-255 | a position inside the string leaves the bytes before it and nothing else changed; any other position changes nothing |
| BufferEdits.TrimTrims | libsbuf/sbuf.c:508-527 | what is left is the longest prefix that does not end in white space |
| BufferEdits.TrimmedSection | libsbuf/sbuf.c:519-523 | a section trimmed before its end reports the bytes that are left of it, counted negative if trimming cut below its start |
| BufferEdits.PutByteDrains | libsbuf/sbuf.c:319-331 | a byte calls the drain exactly when the buffer is full, once, with all that is buffered, and never extends a buffer with a drain; an error is the negated answer |
| BufferEdits.FormatDrains | libsbuf/sbuf.c:436-450 | formatted output calls the drain only while the text does not fit, each time with what is left, and extends only an emptied buffer; an error is the negated last answer |
| BufferEdits.FormatError | libsbuf/sbuf.c:466-467 | formatted output ends in error exactly when the drain failed or the buffer is full and cannot extend |
| BufferEdits.FinishDrains | libsbuf/sbuf.c:542-560 | finishing calls the drain with what is left until nothing is, or it fails with the negated last answer |
| BufferSections.SectionLength | libsbuf/sbuf.c:626-676 | a section entered in any state reports, at its end, the bytes that entered the stream since its start, nested sections and padding included, drained or not; a multiple of the pad, reached with fewer padding bytes than the pad; added to the enclosing section; -1 exactly on error; none left open after the outermost |
| BufferSections.ExecCounts | libsbuf/sbuf.c:332-333 | across any well-bracketed script the open section's count grows by exactly what the stream grows |
| Sbufs.Sbuf.Extend | libsbuf/sbuf.c:133-153 | the new storage has the rounded size and the old bytes; refused exactly when the buffer does not auto-extend |
| Sbufs.Sbuf.DrainSome | libsbuf/sbuf.c:276-303 | one call offering all that is buffered: the error recorded and nothing moved, or the front that the drain took gone and the rest shifted; received and buffered bytes together stay the same |
| Sbufs.Sbuf.PutByte | libsbuf/sbuf.c:310-334 | takes the model where the model's byte append takes it |
| Sbufs.Sbuf.Bcat | libsbuf/sbuf.c:339-356 | appends the bytes one by one, stops at an error, and reports it |
| Sbufs.Sbuf.Cat | libsbuf/sbuf.c:375-391 | the same for the bytes before the first NUL |
| Sbufs.Sbuf.Bcpy | libsbuf/sbuf.c:361-370 | without a drain and an error the buffer holds exactly the copied bytes; otherwise what fits, or what the drain did not take |
| Sbufs.Sbuf.Cpy | libsbuf/sbuf.c:396-405 | the same for the C string |
| Sbufs.Sbuf.FormatRetry | libsbuf/sbuf.c:436-450 | the do-while loop terminates with the room the model makes, and what fits of the text is in place after the string |
| Sbufs.Sbuf.Vprintf | libsbuf/sbuf.c:410-475 | formatted output as in the model, error reported |
| Sbufs.Sbuf.Putc | libsbuf/sbuf.c:495-503 | one byte, error reported |
| Sbufs.Sbuf.Trim | libsbuf/sbuf.c:508-527 | cuts the longest run of white space at the end, from the open section too |
| Sbufs.Sbuf.SetPos | libsbuf/sbuf.c:236-255 | leaves the bytes before the position, or refuses positions outside the string |
| Sbufs.Sbuf.Clear | libsbuf/sbuf.c:219-230 | forgets bytes, error and section count, but not that a section is open; what follows is as in a new buffer |
| Sbufs.Sbuf.SetDrain | libsbuf/sbuf.c:261-271 | installs a drain on an empty buffer |
| Sbufs.Sbuf.Finish | libsbuf/sbuf.c:542-560 | drains until empty or in error, terminates the string in bounds, reports the error |
| Sbufs.Sbuf.Data | libsbuf/sbuf.c:565-575 | the bytes of a finished buffer, with a NUL right after them |
| Sbufs.Sbuf.Length | libsbuf/sbuf.c:580-592 | the length, or -1 in error |
| Sbufs.Sbuf.StartSection | libsbuf/sbuf.c:626-645 | opens a section and hands out the outer count, -1 if there is none |
| Sbufs.Sbuf.EndSection | libsbuf/sbuf.c:651-676 | pads, reports and restores the outer count |
| TailQueue.Init | libOpenXPC/compat_queue.h:485-488 | an empty well-formed queue |
| TailQueue.InsertHead | libOpenXPC/compat_queue.h:490-499 | a well-formed queue of the element before the old ones |
| TailQueue.InsertTail | libOpenXPC/compat_queue.h:501-507 | a well-formed queue of the old elements and the new one |
| TailQueue.InsertAfter | libOpenXPC/compat_queue.h:509-519 | the element inserted right after the given one |
| TailQueue.InsertBefore | libOpenXPC/compat_queue.h:521-527 | the element inserted right before the given one, without the head at hand |
| TailQueue.Remove | libOpenXPC/compat_queue.h:529-539 | the queue without that element, whose own links are left as they were |
| TailQueue.Replace | libOpenXPC/compat_queue.h:541-551 | the queue with the new element in the old one's place |
| TailQueue.Concat | libOpenXPC/compat_queue.h:553-560 | both sequences in the first queue, the second empty |
| TailQueue.Last | libOpenXPC/compat_queue.h:420-421 | through the layout pun, the last element, or NULL if empty |
| TailQueue.Prev | libOpenXPC/compat_queue.h:422-423 | through the layout pun, the element before, or NULL for the first |
| TailQueue.ForEach | libOpenXPC/compat_queue.h:427-430 | visits exactly the sequence |
| TailQueue.ForEachReverse | libOpenXPC/compat_queue.h:437-440 | visits exactly the reversed sequence |
| TailQueue.ForEachSafe | libOpenXPC/compat_queue.h:432-435 | with a body that unlinks any of the elements and leaves arbitrary values in their links, every element is still visited once, in order, and the queue is left with the others |
| TailQueue.QueueIsUnique | libOpenXPC/compat_queue.h:397-412 | the pointers determine the sequence |
| Entries.SetAllIsInsertionOrdered | libOpenXPC/xpc_dictionary.c:108-133 | after any run of set_value on an empty dictionary: distinct keys, exactly those set, in the order first set, each with the value last set |
| Entries.InsertionOrderedIsUnique | libOpenXPC/xpc_dictionary.c:108-133 | that description admits only one list of entries |
| Entries.SetThenGet | libOpenXPC/xpc_dictionary.c:108-152 | setting changes what is found under the one key and no other |
| Containers.Dictionary.SetValue | libOpenXPC/xpc_dictionary.c:108-133 | replaces the value where the key stands or adds the pair at the end; the size grows exactly for a new key; the queue stays well formed |
| Containers.Dictionary.GetValue | libOpenXPC/xpc_dictionary.c:135-152 | the value under the key, or none |
| Containers.Dictionary.GetCount | libOpenXPC/xpc_dictionary.c:154-161 | the number of keys if and only if the dictionary started without initial pairs |
| Containers.Dictionary.Apply | libOpenXPC/xpc_dictionary.c:242-279 | the applier sees the pairs in order up to the first it refuses, all of them exactly when it refuses none |
| Containers.Create | libOpenXPC/xpc_dictionary.c:33-48 | the pairs set in turn, with the size seeded by their number |
| Containers.Array.Append | libOpenXPC/xpc_array.c:78-89 | the element at the end; the size is not raised |
| Containers.Array.SetAt | libOpenXPC/xpc_array.c:48-76 | replaces an element whose index is below the size field, else nothing; in an array built by these methods it has no effect |
| Containers.Array.GetValue | libOpenXPC/xpc_array.c:91-112 | the element, if its index is not above the size field; in an array built by these methods, an element is found at its index exactly if it is the first |
| Containers.Array.Apply | libOpenXPC/xpc_array.c:299-339 | the applier sees the elements in order with their indices, up to the first it refuses |
| Hashes.DataHashLoop | libOpenXPC/xpc_type.c:483-492 | the backward loop with wrap-around computes the hash function |
| Hashes.DataHashPolynomial | libOpenXPC/xpc_type.c:483-492 | the hash is 5381 * 33^n plus the sum of data[i] * 33^i, modulo 2^64 |
| Hashes.DataHashConcat | libOpenXPC/xpc_type.c:483-492 | the hash of a concatenation from the hash of its second half |
| Hashes.HashObject | libOpenXPC/xpc_type.c:494-543 | the accumulating traversal computes the fold over the tree |
| HashLaws.HashOfLeaf | libOpenXPC/xpc_type.c:518-533 | scalars hash to their own word: 1 exactly for true, integers and dates modulo 2^64, unsigned integers and ports unchanged; strings and data to the polynomial of their bytes; all others to 0 |
| HashLaws.HashOfDictionary | libOpenXPC/xpc_type.c:494-501 | 0 if empty; one entry combines the key's polynomial with the value's hash; two parts combine their hashes |
| HashLaws.HashOfArray | libOpenXPC/xpc_type.c:503-509 | the same with the elements alone |
| HashLaws.XorBit | libOpenXPC/xpc_type.c:498-507 | the combination is the exclusive or, bit by bit |
| Hashes.EquivHashesAlike | libOpenXPC/xpc_type.c:494-543 | trees equal up to the order of dictionary entries, at every level, have equal hashes |
| HashOrder.EquivIffSameMap | libOpenXPC/xpc_dictionary.c:108-133 | entries with distinct keys are equal up to order if and only if they have the same keys and equivalent values under them |
| HashOrder.FillingOrderDoesNotShow | libOpenXPC/xpc_dictionary.c:108-133 | two runs of set_value ending with the same value under every key give dictionaries of equal hash |
| HashWire.HashSurvivesTheWire | libOpenXPC/xpc_dbus.c:40-119 | for every tree without data: what is read back hashes like what was written if and only if the ports of its endpoints, combined with exclusive or, give 0 |
| HashWire.NormaliseDropsPorts | libOpenXPC/xpc_type.c:494-543 | the wire takes the combined ports, and nothing else, out of the hash |
| HashWire.EndpointHashes | libOpenXPC/xpc_type.c:518-523 | a lone endpoint keeps its hash exactly if its port is 0; an array of two equal endpoints always keeps its hash |
| Wire.SkipOutEmit | libOpenXPC/xpc_dbus.c:40-125 | what is emitted for an object is balanced: leaving an enclosing container steps over all of it |
| WireRoundTrip.RoundTrip | libOpenXPC/xpc_dbus.c:283-344 | reading what was written gives the object with dates as integers and types unknown to D-Bus as false, keys, order and nesting kept, and stepping on leaves exactly the tokens that follow |
| WireRoundTrip.LeafAcross | libOpenXPC/xpc_dbus.c:40-119 | the token each leaf is written as and the leaf it is read as: dates as integers, types unknown to D-Bus as false |
| WireRoundTrip.WhatCanBeRead | libOpenXPC/xpc_dbus.c:283-344 | on any tokens, what stands at the start decides between an object, of which type, and NULL; byte arrays always fail and only containers can |
| WireRoundTrip.NormaliseIsIdentityIff | libOpenXPC/xpc_dbus.c:40-119 | the trip is lossless if and only if every leaf is a bool, integer, string or descriptor |
| WireRoundTrip.SecondTrip | libOpenXPC/xpc_dbus.c:283-344 | a second trip changes nothing |
| WireTypes.EmitIsTyped | libOpenXPC/xpc_dbus.c:40-121 | what is emitted is exactly one complete value of the object's D-Bus type; every variant in it holds one complete value of its declared signature, and dictionary entries, with a string key and one variant, occur only in arrays |
| WireTypes.TypeOf | libOpenXPC/xpc_dbus.c:23-38 | xpc_dbus_type is the signature of that type |
| WireTypes.ParseSignature | libOpenXPC/xpc_dbus.c:79-81 | signatures of single complete types read back as the types they were printed from |
| Codec.AppendXpc | libOpenXPC/xpc_dbus.c:40-125 | appends exactly the emission of the object to the message |
| Codec.DeserialiseObject | libOpenXPC/xpc_dbus.c:283-344 | on any tokens: the object, the NULL of an unexpected type, or failure, as the reading function tells them apart |
| Codec.DeserialiseDict | libOpenXPC/xpc_dbus.c:255-281 | the loop fills a dictionary with the entries up to the end of the container, and fails exactly on a wrong token in an entry or a NULL or failing value |
| Codec.DeserialiseArr | libOpenXPC/xpc_dbus.c:234-253 | the loop fills an array with the elements up to the end of the container, and fails exactly on an element that is no variant or holds a NULL or failing value |
| Describe.DescribeLevel | libOpenXPC/xpc_misc.c:140-199 | prints exactly the rendering of the object at its level, for any formats, and no print fails |
| Describe.CopyDescription | libOpenXPC/xpc_misc.c:125-138 | for any formats, the description is the whole rendering, never truncated, a C string |
| Describe.DigitsReadBack | libOpenXPC/xpc_misc.c:176-181 | the decimal and hexadecimal digits printed for a number denote it, without a leading zero |
| DescribeRoundTrip.LibraryDescription | libOpenXPC/xpc_misc.c:125-199 | the description in the library's own formats is the whole rendering, and a reader of the text gets back what it shows of the object |
| DescribeRoundTrip.DescriptionReadBack | libOpenXPC/xpc_misc.c:140-199 | for objects of any depth without quotes in keys and strings: the types, the payloads, the keys and indices in order and the nesting by leading blanks are read back from the text, and a null pointer as such |
| DescribeRoundTrip.QuotesAreAmbiguous | libOpenXPC/xpc_misc.c:161-176 | with a quote in a string, a dictionary of one entry is described like one of two |
| Destroy.ObjectDestroy | libOpenXPC/xpc_misc.c:77-87 | for a separate tree: frees exactly the blocks of the tree, children before parents; accesses and frees only blocks of the tree, and none after it was freed; changes nothing outside the tree |
| Destroy.CellsDestroy | libOpenXPC/xpc_misc.c:46-75 | the safe traversal frees the branches of the queue in order: it reads the next cell, unlinks the current one, destroys the child and frees the pair, with no access to anything freed |
| Destroy.RemoveFirst | libOpenXPC/compat_queue.h:529-539 | unlinking the first cell access by access: the queue of the others, and only live blocks accessed |
| DestroyOrder.NothingAfterFree | libOpenXPC/xpc_misc.c:46-87 | each block of the tree is freed during the destruction, and every other event that concerns it is an access before that |
| DestroyOrder.PairFreedAfterValue | libOpenXPC/xpc_misc.c:54-59 | a pair is freed right after the root of the value it holds |
| DestroyOrder.FreedExactlyOnce | libOpenXPC/xpc_misc.c:46-87 | every object and every pair of the tree is freed once, and nothing else |
| DestroyOrder.SubtreeFreedBeforeRoot | libOpenXPC/xpc_misc.c:46-87 | every subtree is freed in one piece, its root last, before the root of any tree around it |
| ObjectTrees.ArrayAppend | libOpenXPC/xpc_array.c:78-89 | linking in a tree of its own keeps a separate, well-linked tree, whose value has one more element |
| ObjectTrees.DictionarySet | libOpenXPC/xpc_dictionary.c:108-133 | set_value in memory: overwrites the value of the pair found or links in a new pair; the tree stays separate and well linked, and its entries are those of the insertion-ordered map |
| Copies.CopyOutcomes | libOpenXPC/xpc_type.c:434-481 | copying retains NULL if and only if a dictionary in the tree holds a leaf of a type without a copy, and gives NULL if and only if the object is such a leaf |
| Copies.CopyOfLeaf | libOpenXPC/xpc_type.c:457-480 | the copy of a leaf is the leaf for each of the seven types that can be copied, NULL for the others |
| Copies.CopyIsPruned | libOpenXPC/xpc_type.c:434-481 | whenever there is a copy, it is the object with every array emptied |
| Copies.NullInDictionary | libOpenXPC/xpc_type.c:434-481 | a null or a descriptor under a key makes the copy crash, also below an array; as an element of an array it does not |
| Copies.CopyIsTheObjectIff | libOpenXPC/xpc_type.c:452-481 | the copy equals the object if and only if all its arrays are empty and every leaf has a type that can be copied |
| DeepCopy.CopyObject | libOpenXPC/xpc_type.c:452-481 | if no dictionary in the tree holds a leaf without a copy, the copy is a separate tree of new objects with the copied value, NULL exactly for types without a copy; the original is unchanged; a faithful object's copy has the same value |
| DeepCopy.CopyDict | libOpenXPC/xpc_type.c:436-442 | the loop copies and sets pair by pair into a fresh tree with the same keys in the same order |
| DeepCopy.CopyArr | libOpenXPC/xpc_type.c:444-450 | every element is copied and every copy refused: the result is a fresh empty array |
| Refcount.CountFollowsSteps | libOpenXPC/xpc_misc.c:89-109 | after any steps of any interleaving, counted by their labels: the count is 1 plus the retains less the decrements, and each thread holds what it started with, plus its retains and gifts received, less its decrements and gifts made |
| Refcount.DestroyedExactlyOnce | libOpenXPC/xpc_misc.c:89-109 | destruction is entered at most once, only when the decrements exceed the retains by one, and, once every decrement is tested, exactly then |
| Refcount.DestroyedByTheLast | libOpenXPC/xpc_misc.c:99-109 | the step that enters destruction is the test of the very decrement that took the count to 0 |
| Refcount.NeverDestroyedByFetchAdd | libOpenXPC/xpc_misc.c:40-41 | with an operation returning the old value, no release would destroy |

## Left out

- Containers.Dictionary.SetValue: does not model the retain of the value (libOpenXPC/xpc_dictionary.c:132), which touches no entry; the values in this class are finished trees, so sharing a value between dictionaries is not modelled here. Reference counts are the subject of `Refcount`.
- Containers.Array.Append: does not model the retain of the value (libOpenXPC/xpc_array.c:88), which touches no element.
- Containers.Array.SetAt: does not model the append marker (libOpenXPC/xpc_array.c:59-60), an index no element can have; `Append` is what it leads to. Freeing the replaced element (libOpenXPC/xpc_array.c:72) is not modelled either.
- ObjectTrees.ArrayAppend: does not model the retain of the value; counts are the subject of `Refcount`.
- ObjectTrees.DictionarySet: does not model the retain of the value either; a value that is replaced is abandoned, as in the code, which does not release it.
- Destroy.ObjectDestroy: is about trees in which no object is reached twice; the code ignores the reference counts of children, so nothing is promised for shared ones. The bytes of strings and data, which the code does not free, are not blocks of the model.
- DeepCopy.CopyObject: stops at the inputs on which the code retains NULL, which `Copies.CopyOutcomes` characterises; the state after that crash is not modelled.
- Wire.Emit: has no case for data, whose branches do not follow the iterator protocol (libOpenXPC/xpc_dbus.c:58-60, 322-326).
- Codec.AppendXpc: excludes trees with data leaves, for which the code hands libdbus the bytes where it expects the address of a pointer to them, outside an array of bytes (libOpenXPC/xpc_dbus.c:58-60).
- Codec.DeserialiseObject: a failure is one outcome, be it an assertion, the NULL put into a container or the unset pointer of a byte array. A NULL set under a key that a dictionary already has is stored without a retain; that, too, counts as a failure here. libdbus's own limits on nesting and size, its out-of-memory results and its UTF-8 check are not modelled.
- Hashes.HashObject: walks the entries of a value; the pointer traversal itself is proved in `Containers`.
- Allocation always succeeds and lengths are unbounded integers; the code's `int` arithmetic stays in range below `INT_MAX - 4095`.
- Fixed buffers have size at least 1 and buffers with a drain at least 2; draining follows the file's own assertions on the drain's answer.
- The flags that say who frees a buffer, and sbuf_delete.
- Connections, bus set-up and deserialise_message, which passes its iterator by value.
- The other list macros of compat_queue.h and its debugging checks.
- Console logging, the descriptor-closing helper, and the xpcd and xpcctl programs.
- UUID and Mach code, and the arithmetic of doubles.
