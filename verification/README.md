# Verified models of the Distributed Compliance Ledger

The repository is a blockchain application (Go) that ships a bundled web user interface
(JavaScript). This project models the parts of both in which most can go wrong and proves, for
every input or every run, what they are for. Nothing here was executed.

`dafny verify dfyconfig.toml` checks everything. There is one module per component.

**Bundle** (`docs/swagger-ui/swagger-ui-standalone-preset.js`; all code is on line 2, so the
modules below are named by their webpack numbers):

- `TrieBits`, `HashTrie`, `TrieMap`, `TrieIteration`, `TrieHeap`: the persistent hash trie map of
  module 3. An arbitrary hash function is a parameter. Every history of updates agrees with a finite
  map. `TrieHeap` has the nodes and their arrays as heap objects that versions share, and copies
  before it writes, so that no earlier version changes.
- `EntryList`, `KeyMatching`, `OrderedMap`, `MapRuns`: the insertion-ordered Map of module 566, with
  its linked entries, removed flags, key index and iterators as heap objects, against the entry list
  of ECMA-262. Which index key a key has (module 221) and when two keys are loosely equal are
  parameters of which nothing is assumed, unless a lemma says so. Between two calls, objects may be
  frozen or be given an index key.
- `Utf8`, `Utf8Malformed`, `StringDecoder`: the UTF-8 codec of module 141, also on input that is not
  well formed, and the streaming decoder of module 218.
- `YamlDoubleQuoted`, `YamlPrinting`, `YamlReading`, `YamlLines`: printer and reader of double-quoted
  scalars of module 90, the one undoing the other, and each against the tables and the line folding
  of YAML 1.2.2. `YamlBinary`: `!!binary` scalars. `Base64`: module 336.
- `TickQueue`: the `nextTick` queue of module 65. The behaviour of the tasks is a parameter, and so
  is the number of tasks after which a run is looked at, since tasks may enqueue for ever.
- `HashBlocks`: block buffering and padding of module 66. `BufferList`: the buffer list of modules
  215 and 533. `MergeSort`: the sort of module 391.

**Ledger**:

- `Compliance`, `ComplianceRecords`, `ComplianceRuns`, `ComplianceKeeper`: certify, revoke and
  provision, with the status records, the three flag stores and the index by CD certificate id. What
  the role and model modules answer is part of each message.
- `Accounts`, `AccountAdmission`, `AccountRuns`, `AccountVotes`, `RevocationVotes`, `AuthKeeper`:
  proposals, votes and revocations of accounts, and the loss of an account by double signing.
- `Genesis`, `GenesisNumbers`: import, export and preparation of the account genesis state, and
  account numbers across restarts.

`Options`, `Words`, `Chunks` and `Division` hold what several modules use.

Where the source updates objects or arrays in place the model does too: a class or a method on
an array, proved equal to a specification function, about which the lemmas speak. Bit operations
are written as division and remainder; the 32-bit accumulators wrap explicitly.

## Findings

These expected properties do not hold of the code. Each has a concrete input, and the exact
condition under which the property holds.

- The ordered Map is not always that of ECMA-262. An object that was frozen before it was put into a
  map has no index key and is looked up by loose equality, so that a string can answer for it; and a
  number and the big integer of the same digits share an index key. A run agrees with ECMA-262 if and only if at
  every call the key has a live entry of its own or nothing answers for it
  (`MapRuns.EveryRunAgrees`).
- The index by certificate id is looked up without the certification type. Revoking one type can
  take out the entry of another, also when the revoked record was only provisional; and since
  provisioning does not compare the version string with the model version, an entry can stay
  behind. `Compliance.EveryRunIndex` says exactly when the index stays right.
- An address can be active and revoked at once: where one approval is a quorum, a proposal for a
  revoked address makes it active without removing the revoked record
  (`AccountRuns.EveryRunSeparate`).
- A pending revocation can outlive its account, because double signing removes the account only
  (`AccountRuns.EveryRunAnchored`). The trustees' messages alone never do this.
- An account on which every trustee has voted can stay pending, because votes are not counted again
  when the number of trustees changes (`AccountVotes.EveryRunOpen`). Until another trustee is added
  nobody can vote on it or propose it again. While the number stays the same it is always decided.
- In the same way a revocation that every trustee has approved can stay pending and its account
  active (`RevocationVotes.EveryRunApprovable`). While the number of trustees stays the same it
  is always completed.
- Import numbers the active accounts anew but keeps the numbers of revoked and rejected ones, so
  that two accounts can hold one number (`GenesisNumbers.ImportedNumbers`). Active accounts among
  themselves keep different numbers through any number of restarts.
- Preparing a genesis state starts an absent counter at zero even if accounts are already listed,
  so that listed numbers may be handed out again (`Genesis.AddAccountsCovers`).

- The reader of double-quoted scalars keeps the blanks before a folded line break, which section
  7.3.1 of YAML 1.2.2 discards; a line that does not end in a blank is folded as the standard says
  (`YamlLines.FoldingIsStandard`). It does not refuse a `\U` escape above 0x10FFFF, which it reads as
  units that stand for something else (`YamlReading.CodeStandsFor`).
- The UTF-8 encoder loses the last of two lead surrogates at the end of a string; every other
  surrogate without its partner becomes a replacement character (`Utf8Malformed.EncodeMended`).

Also, the `!!binary` writer and reader turn the empty byte string into three zero bytes
(`YamlBinary.RoundTrip`).

## Model

| member | source | states |
|---|---|---|
| TrieBits.CountBitsIsPopCount | docs/swagger-ui/swagger-ui-standalone-preset.js:2 | the word-parallel bit counter `ge` returns the number of one bits of every 32-bit word |
| TrieBits.ChildIndex | docs/swagger-ui/swagger-ui-standalone-preset.js:2 | masking a bitmap below a slot and counting gives the position of that slot's child in the packed child array |
| TrieBits.SetBit | docs/swagger-ui/swagger-ui-standalone-preset.js:2 | adding a clear bit's weight sets that bit and no other |
| HashTrie.EditLookup | docs/swagger-ui/swagger-ui-standalone-preset.js:2 | editing an entry array (overwrite, append, or swap the last entry into the gap) changes the lookup of the edited key and of no other |
| HashTrie.ShiftBound | docs/swagger-ui/swagger-ui-standalone-preset.js:2 | two distinct 32-bit hashes that agree below a shift force that shift to be at most 30, which is why `ae` terminates |
| HashTrie.MeetLower | docs/swagger-ui/swagger-ui-standalone-preset.js:2 | one recursive step of `ae`: the shift is at most 30 and the two leaves still meet one level down |
| HashTrie.MergeValid | docs/swagger-ui/swagger-ui-standalone-preset.js:2 | `ae` of two leaves is a valid subtree on their common path |
| HashTrie.MergeGet | docs/swagger-ui/swagger-ui-standalone-preset.js:2 | `ae` of two leaves finds the entries of both and nothing else |
| HashTrie.InsertChild | docs/swagger-ui/swagger-ui-standalone-preset.js:2 | inserting a child into a bitmap node keeps bit count and child count equal and changes the child of one slot |
| HashTrie.RemoveChild | docs/swagger-ui/swagger-ui-standalone-preset.js:2 | removing a child keeps bit count and child count equal and changes the child of one slot |
| HashTrie.InnerValid | docs/swagger-ui/swagger-ui-standalone-preset.js:2 | whatever kind the node becomes after one child changes (expand at 16, pack at 8, collapse to a leaf), every shape invariant holds again |
| HashTrie.WithLeaf | docs/swagger-ui/swagger-ui-standalone-preset.js:2 | an inner node collapses into a leaf only if that leaf is its one remaining child |
| HashTrie.UpdateCorrect | docs/swagger-ui/swagger-ui-standalone-preset.js:2 | an update of any valid node keeps it valid, reports exactly whether a binding was added, removed or altered, and changes no lookup but that of its key |
| TrieMap.CreateNodes | docs/swagger-ui/swagger-ui-standalone-preset.js:2 | rebuilding a full eight-entry array as a trie yields a valid trie with the same bindings plus the new one |
| TrieMap.ApplyAgrees | docs/swagger-ui/swagger-ui-standalone-preset.js:2 | one set or remove on the map object changes it as it changes a finite map, size included |
| TrieMap.EveryHistory | docs/swagger-ui/swagger-ui-standalone-preset.js:2 | for every hash function and every history of set and remove, every lookup agrees with the finite map, the size is its cardinality and all node shapes are valid |
| TrieHeap.SpliceIn | docs/swagger-ui/swagger-ui-standalone-preset.js:2 | `Me`: inserting into an array makes a new array with the item at its place, and leaves the old array alone |
| TrieHeap.SpliceOut | docs/swagger-ui/swagger-ui-standalone-preset.js:2 | `_e`: removing from an array makes a new array without the item, and leaves the old array alone |
| TrieHeap.EditEntries | docs/swagger-ui/swagger-ui-standalone-preset.js:2 | the entry edit of `Xt` and `Kt` (overwrite, push, or pop into the gap) is done on a copy |
| TrieHeap.PackNodes | docs/swagger-ui/swagger-ui-standalone-preset.js:2 | `fe`: packing a 32-way node into a bitmap node (the loop) yields exactly the present children, in slot order, and fills the array allocated for them |
| TrieHeap.SpreadNodes | docs/swagger-ui/swagger-ui-standalone-preset.js:2 | `le`: expanding a bitmap node into 32 slots (the loop) yields each child at its slot, and the new one at its own |
| TrieHeap.MergeNodes | docs/swagger-ui/swagger-ui-standalone-preset.js:2 | `ae` on objects makes the merged node of the specification and writes to no existing object |
| TrieHeap.BitmapNode | docs/swagger-ui/swagger-ui-standalone-preset.js:2 | what replaces a bitmap node when a child changes: a 32-way node, the one leaf left, or a node with an edited copy of the array, as specified |
| TrieHeap.ArrayNode | docs/swagger-ui/swagger-ui-standalone-preset.js:2 | what replaces a 32-way node when a child changes: a packed node, or a node with an edited copy of the array, as specified |
| TrieHeap.UpdateNode | docs/swagger-ui/swagger-ui-standalone-preset.js:2 | `update` of a node object without an owner id returns an object holding the updated node, the object itself if nothing was altered, and writes to no existing object |
| TrieHeap.ApplyTo | docs/swagger-ui/swagger-ui-standalone-preset.js:2 | `oe`: set or remove on a map object returns an object holding the updated map and writes to no existing object |
| TrieHeap.GetFrom | docs/swagger-ui/swagger-ui-standalone-preset.js:2 | `get` of a map object is the lookup of the specification |
| TrieHeap.History | docs/swagger-ui/swagger-ui-standalone-preset.js:2 | for every hash function and every history, after the last call every version made on the way still holds the bindings the finite map had at that point, with its size |
| TrieIteration.EntriesSound | docs/swagger-ui/swagger-ui-standalone-preset.js:2 | every entry iteration yields is found by a lookup of its key |
| TrieIteration.EntriesDistinct | docs/swagger-ui/swagger-ui-standalone-preset.js:2 | iteration yields no key twice |
| TrieIteration.IterateHistory | docs/swagger-ui/swagger-ui-standalone-preset.js:2 | after every history iteration yields exactly the bindings of the finite map, each once |
| EntryList.AppendGood | docs/swagger-ui/swagger-ui-standalone-preset.js:2 | linking a new entry behind the last keeps every link of the chain right |
| EntryList.DeleteGood | docs/swagger-ui/swagger-ui-standalone-preset.js:2 | unlinking an entry keeps every link right, including the stale back links of removed entries |
| EntryList.SweepGood | docs/swagger-ui/swagger-ui-standalone-preset.js:2 | the clear loop leaves every entry removed and every back link leading out of the list |
| KeyMatching.AgreesIfClean | docs/swagger-ui/swagger-ui-standalone-preset.js:2 | the entry found, the answer of a lookup and the list after a delete are those of section 24.1.3 of ECMA-262, if and only if the key has a live entry of its own or nothing answers for it |
| KeyMatching.PutAgreesIfClean | docs/swagger-ui/swagger-ui-standalone-preset.js:2 | so is the list after a set, if and only if the same |
| KeyMatching.FollowsApart | docs/swagger-ui/swagger-ui-standalone-preset.js:2 | freezing objects and giving them index keys between calls never makes an entry answer for a later one's key |
| KeyMatching.StringAnswersForObject | docs/swagger-ui/swagger-ui-standalone-preset.js:2 | a value set for a string is not found through an object with that text; once the object is frozen it is found and overwritten |
| KeyMatching.NumberAnswersForBigInt | docs/swagger-ui/swagger-ui-standalone-preset.js:2 | a value set for a number is found through the big integer of the same digits |
| OrderedMap.IndexReaches | docs/swagger-ui/swagger-ui-standalone-preset.js:2 | the index finds exactly the first live entry that answers for a key with an index key |
| OrderedMap.OrderedMap.Get | docs/swagger-ui/swagger-ui-standalone-preset.js:2 | the value of the first live entry that answers for the key at that moment: through the index, through the loose scan if it was frozen without an index key, else none |
| OrderedMap.OrderedMap.Has | docs/swagger-ui/swagger-ui-standalone-preset.js:2 | whether a live entry answers for the key |
| OrderedMap.OrderedMap.Set | docs/swagger-ui/swagger-ui-standalone-preset.js:2 | the entry that answers for the key keeps its place and its own key and takes the value; if none answers, an entry is appended and an object that can have an index key is given a new one |
| OrderedMap.OrderedMap.Delete | docs/swagger-ui/swagger-ui-standalone-preset.js:2 | the entry that answers for the key is emptied; reports whether there was one |
| OrderedMap.OrderedMap.KeysChange | docs/swagger-ui/swagger-ui-standalone-preset.js:2 | the map stays sound when objects are frozen, or given an index key by another map, between its calls |
| OrderedMap.OrderedMap.Clear | docs/swagger-ui/swagger-ui-standalone-preset.js:2 | every entry is emptied, and all links, the index and the size are reset |
| OrderedMap.MapIterator.Next | docs/swagger-ui/swagger-ui-standalone-preset.js:2 | from any state of the list, stepping back over removed entries and then forward gives the first live entry at or after the iterator's place |
| MapRuns.PlayOne | docs/swagger-ui/swagger-ui-standalone-preset.js:2 | one call on the heap map and its iterator does what the run step does on the entry list, for any index keys and any loose equality |
| MapRuns.PlayAll | docs/swagger-ui/swagger-ui-standalone-preset.js:2 | any interleaving of set, delete, clear, get, next and changes of the keys on the heap gives exactly the values and answers of the run, which agrees with ECMA-262 at every point if and only if every call is clean |
| MapRuns.EveryRun | docs/swagger-ui/swagger-ui-standalone-preset.js:2 | in every run the iterator gives entries in strictly increasing insertion order, so none twice, and has given every entry behind it that is still live |
| MapRuns.GivenIsLive | docs/swagger-ui/swagger-ui-standalone-preset.js:2 | no run ever gives a removed entry |
| MapRuns.Exhausted | docs/swagger-ui/swagger-ui-standalone-preset.js:2 | an iterator that is exhausted has given every entry that is then live |
| MapRuns.EveryRunAgrees | docs/swagger-ui/swagger-ui-standalone-preset.js:2 | over any run, lists, answers and what the iterator gives are those of ECMA-262 at every point, if and only if at every call the key has a live entry of its own or nothing answers for it |
| MapRuns.FrozenObjectDisagrees | docs/swagger-ui/swagger-ui-standalone-preset.js:2 | a run that is not that of ECMA-262: a value is set for a string, an object with that text is frozen and then looked up |
| MapRuns.ForEach | docs/swagger-ui/swagger-ui-standalone-preset.js:2 | `forEach`, whose callback may set, delete and clear, visits exactly the entries an iterator gives under the same calls, and ends exactly when that iterator is exhausted |
| Utf8.DecodeSlice | docs/swagger-ui/swagger-ui-standalone-preset.js:2 | the loop of `N` computes the decoding function on any slice |
| Utf8.EncodeUnits | docs/swagger-ui/swagger-ui-standalone-preset.js:2 | the loop of `Q`, with its pending lead surrogate, computes the encoding function |
| Utf8.CharBytes | docs/swagger-ui/swagger-ui-standalone-preset.js:2 | a character accepted by the grammar of section 4 of RFC 3629 is decoded to the code point that encodes to those bytes |
| Utf8.ReadChar | docs/swagger-ui/swagger-ui-standalone-preset.js:2 | the bytes of any code point, followed by anything, are decoded to that code point |
| Utf8.DecodeEncode | docs/swagger-ui/swagger-ui-standalone-preset.js:2 | `N` undoes `Q` on every well-formed UTF-16 string, and `Q` gives valid UTF-8 |
| Utf8.EncodeDecode | docs/swagger-ui/swagger-ui-standalone-preset.js:2 | `Q` undoes `N` on every valid UTF-8 byte string |
| Utf8.DecodeWellFormed | docs/swagger-ui/swagger-ui-standalone-preset.js:2 | `N` ends in well-formed UTF-16 on every byte string, valid or not |
| Utf8.EncodingExamples | docs/swagger-ui/swagger-ui-standalone-preset.js:2 | the examples of section 7 of RFC 3629, as bytes and as UTF-16 |
| Utf8Malformed.CodePointIff | docs/swagger-ui/swagger-ui-standalone-preset.js:2 | the decoder finds a code point exactly where the grammar of section 4 of RFC 3629 finds a character |
| Utf8Malformed.DecodeMalformed | docs/swagger-ui/swagger-ui-standalone-preset.js:2 | after any characters, a byte that opens none is decoded to one replacement character, and decoding goes on with the byte behind it |
| Utf8Malformed.EncodeMended | docs/swagger-ui/swagger-ui-standalone-preset.js:2 | `Q` encodes every surrogate without its partner as the replacement character, if and only if the string does not end in two lead surrogates; then the last one is lost |
| Utf8Malformed.LostSurrogate | docs/swagger-ui/swagger-ui-standalone-preset.js:2 | a string of two lead surrogates is encoded as one replacement character |
| StringDecoder.WriteValid | docs/swagger-ui/swagger-ui-standalone-preset.js:2 | writing any chunk of valid text yields exactly the finished characters and holds the bytes of the unfinished one |
| StringDecoder.ChunkingDoesNotMatter | docs/swagger-ui/swagger-ui-standalone-preset.js:2 | for every valid byte string and every way of cutting it into chunks, write after write and then end yields the one-shot decoding |
| StringDecoder.CutOffText | docs/swagger-ui/swagger-ui-standalone-preset.js:2 | a text that ends inside a character, however it is cut into chunks, yields its whole characters and one replacement character |
| StringDecoder.BadByteIs | docs/swagger-ui/swagger-ui-standalone-preset.js:2 | `s`: the byte found is the first of the awaited ones in the chunk that continues no character |
| StringDecoder.BrokenCharacter | docs/swagger-ui/swagger-ui-standalone-preset.js:2 | a byte that breaks the pending character leaves one replacement character for it, and writing goes on with that byte |
| StringDecoder.Decoder.Fill | docs/swagger-ui/swagger-ui-standalone-preset.js:2 | `s`/`u`: completing the pending character in the four-byte buffer, as the specification does on values |
| StringDecoder.Decoder.WriteChunk | docs/swagger-ui/swagger-ui-standalone-preset.js:2 | `write` on the object: new state and text are those of the specification |
| StringDecoder.Decoder.Stream | docs/swagger-ui/swagger-ui-standalone-preset.js:2 | streaming all chunks through the object and ending gives the one-shot decoding of valid text |
| YamlDoubleQuoted.PrintScalar | docs/swagger-ui/swagger-ui-standalone-preset.js:2 | the printer's loop writes the quoted, escaped form of any sequence of UTF-16 units |
| YamlPrinting.StandsForItself | docs/swagger-ui/swagger-ui-standalone-preset.js:2 | a code point is written as itself exactly if it is printable by section 5.1 of YAML 1.2.2, has no named escape and is not the byte order mark |
| YamlPrinting.PrintUnit | docs/swagger-ui/swagger-ui-standalone-preset.js:2 | what each unit is printed as: its named escape by section 5.7, itself, or `\x` with two or `\u` with four upper-case digits |
| YamlPrinting.PrintPair | docs/swagger-ui/swagger-ui-standalone-preset.js:2 | a surrogate pair is printed as itself |
| YamlPrinting.PrintConcat | docs/swagger-ui/swagger-ui-standalone-preset.js:2 | a text is printed piece by piece, wherever it is cut but inside a surrogate pair |
| YamlPrinting.PrintMiddle | docs/swagger-ui/swagger-ui-standalone-preset.js:2 | the same for a piece in the middle |
| YamlPrinting.PrintedUnchanged | docs/swagger-ui/swagger-ui-standalone-preset.js:2 | a text is printed unchanged if and only if each of its code points stands for itself |
| YamlDoubleQuoted.HexNumberOf | docs/swagger-ui/swagger-ui-standalone-preset.js:2 | upper-case hexadecimal digits denote the number they were printed from |
| YamlDoubleQuoted.ReadHexEscape | docs/swagger-ui/swagger-ui-standalone-preset.js:2 | a printed `\x`, `\u` or `\U` escape reads back as the unit it stands for |
| YamlDoubleQuoted.ReadPoint | docs/swagger-ui/swagger-ui-standalone-preset.js:2 | reading one printed code point continues the scan just past it with that code point added |
| YamlDoubleQuoted.RoundTrip | docs/swagger-ui/swagger-ui-standalone-preset.js:2 | for every sequence of UTF-16 units, lone surrogates included, and any text around it, the reader returns the sequence and stops just past the closing quote |
| YamlDoubleQuoted.Reader.SkipSeparationSpace | docs/swagger-ui/swagger-ui-standalone-preset.js:2 | `gt`: skipping blanks and breaks leaves position, line start and break count as specified |
| YamlDoubleQuoted.Reader.ReadEscapeHere | docs/swagger-ui/swagger-ui-standalone-preset.js:2 | reading one escape on the object, errors included, as specified |
| YamlDoubleQuoted.Reader.ReadDoubleQuoted | docs/swagger-ui/swagger-ui-standalone-preset.js:2 | the reader object returns what the reading function says and leaves its position there |
| YamlReading.NamesAre | docs/swagger-ui/swagger-ui-standalone-preset.js:2 | the named escapes the reader knows are those of section 5.7 of YAML 1.2.2, `\/`, `\ ` and the escaped tab included |
| YamlReading.CodeStandsFor | docs/swagger-ui/swagger-ui-standalone-preset.js:2 | a hexadecimal escape is read as its code point, as a surrogate pair above 0xFFFF, if and only if it is at most 0x10FFFF |
| YamlReading.SeparationSkipped | docs/swagger-ui/swagger-ui-standalone-preset.js:2 | `gt`: any line breaks, as LF, CR or CRLF, each with any blanks after it, are skipped and counted |
| YamlReading.ReadContent | docs/swagger-ui/swagger-ui-standalone-preset.js:2 | any sequence of characters, named and hexadecimal escapes, folded and escaped line breaks is read as the concatenation of what each of them means |
| YamlReading.ReadClosed | docs/swagger-ui/swagger-ui-standalone-preset.js:2 | a scalar with such content, in any surrounding text, is read as its meaning, up to just past the closing quote |
| YamlLines.Folding | docs/swagger-ui/swagger-ui-standalone-preset.js:2 | two lines with breaks between them are read as the first, one space for one break or one line feed less than there are breaks, and the second; exactly a document mark at the start of the second is refused |
| YamlLines.Joining | docs/swagger-ui/swagger-ui-standalone-preset.js:2 | with a backslash before the breaks they are read as the first and the second; exactly a document mark is refused |
| YamlLines.FoldingIsStandard | docs/swagger-ui/swagger-ui-standalone-preset.js:2 | this is the folding of section 7.3.1 if and only if the first line does not end in a blank |
| YamlLines.BlankKept | docs/swagger-ui/swagger-ui-standalone-preset.js:2 | a scalar whose folded line keeps a blank |
| YamlLines.Unterminated | docs/swagger-ui/swagger-ui-standalone-preset.js:2 | content that runs into the end of the input is refused |
| YamlLines.UnknownLetter | docs/swagger-ui/swagger-ui-standalone-preset.js:2 | a backslash before anything but a break, a named or a hexadecimal escape is refused |
| YamlLines.MissingDigit | docs/swagger-ui/swagger-ui-standalone-preset.js:2 | a hexadecimal escape with too few digits is refused |
| YamlLines.ControlCharacter | docs/swagger-ui/swagger-ui-standalone-preset.js:2 | a control character other than a tab is refused |
| TickQueue.TaskStarts | docs/swagger-ui/swagger-ui-standalone-preset.js:2 | starting the next task of a batch, which enqueues more, keeps started, remaining and waiting tasks the enqueued ones in order |
| TickQueue.Queue.NextTick | docs/swagger-ui/swagger-ui-standalone-preset.js:2 | appends the task and schedules a drain exactly if nothing waited and no drain is running |
| TickQueue.Queue.RunBatch | docs/swagger-ui/swagger-ui-standalone-preset.js:2 | running a batch starts its tasks in order; a throw leaves the rest of the batch in place |
| TickQueue.Queue.Drain | docs/swagger-ui/swagger-ui-standalone-preset.js:2 | `h`: draining ends idle with everything started, or broken by a throw with nothing lost |
| TickQueue.Queue.CleanUp | docs/swagger-ui/swagger-ui-standalone-preset.js:2 | `p`: recovery puts the interrupted batch back in front and drains on |
| TickQueue.Queue.ValidOrder | docs/swagger-ui/swagger-ui-standalone-preset.js:2 | in every valid state the started tasks are a prefix of the enqueued ones, and at most one timer is pending, and one is while tasks remain |
| TickQueue.Queue.Play | docs/swagger-ui/swagger-ui-standalone-preset.js:2 | in every run, with tasks that enqueue and throw, tasks start in enqueue order, none twice, and none is left when the queue goes idle |
| HashBlocks.PadIsLeast | docs/swagger-ui/swagger-ui-standalone-preset.js:2 | the number of zero bytes is the least that aligns the length field (sections 5.1.1 and 5.1.2 of FIPS 180-4) |
| HashBlocks.PaddedExample | docs/swagger-ui/swagger-ui-standalone-preset.js:2 | the padding example of section 5.1.1 of FIPS 180-4 |
| HashBlocks.LengthField | docs/swagger-ui/swagger-ui-standalone-preset.js:2 | the two 32-bit words written are the big-endian bit length |
| HashBlocks.Hash.Update | docs/swagger-ui/swagger-ui-standalone-preset.js:2 | an update of any length leaves full blocks handed on and the rest buffered: together the message so far |
| HashBlocks.Hash.Digest | docs/swagger-ui/swagger-ui-standalone-preset.js:2 | the blocks handed on concatenate to the padded message |
| HashBlocks.Hash.HashAll | docs/swagger-ui/swagger-ui-standalone-preset.js:2 | for every split of a message below 2^50 bytes into updates, the blocks handed on concatenate to the padded message |
| BufferList.List.Push | docs/swagger-ui/swagger-ui-standalone-preset.js:2 | appends a node; count, head and tail stay consistent |
| BufferList.List.Unshift | docs/swagger-ui/swagger-ui-standalone-preset.js:2 | prepends a node; count, head and tail stay consistent |
| BufferList.List.Shift | docs/swagger-ui/swagger-ui-standalone-preset.js:2 | removes the head and returns its data |
| BufferList.List.Join | docs/swagger-ui/swagger-ui-standalone-preset.js:2 | the concatenation of all chunks |
| BufferList.List.GatherText | docs/swagger-ui/swagger-ui-standalone-preset.js:2 | `T`'s string walk: the first n items, and where the list is to be cut |
| BufferList.List.GatherBytes | docs/swagger-ui/swagger-ui-standalone-preset.js:2 | `T`'s buffer walk: the same, copied piece by piece into one buffer |
| BufferList.List.TakeAcross | docs/swagger-ui/swagger-ui-standalone-preset.js:2 | returns the first n items and leaves a list that is exactly the rest |
| BufferList.List.FromList | docs/swagger-ui/swagger-ui-standalone-preset.js:2 | the whole of `T`: nothing, one object, everything, or the first n items with exactly the rest left |
| Base64.FromByteArray | docs/swagger-ui/swagger-ui-standalone-preset.js:2 | the chunked encoder gives the encoding of section 4 of RFC 4648 of every byte string |
| Base64.LetterIs | docs/swagger-ui/swagger-ui-standalone-preset.js:2 | the letters are the alphabet of table 1 of RFC 4648, in order |
| Base64.ValueIs | docs/swagger-ui/swagger-ui-standalone-preset.js:2 | the decoder gives each letter its place in the alphabet, `-` and `_` 62 and 63, and any other character 0 |
| Base64.EncodeExamples | docs/swagger-ui/swagger-ui-standalone-preset.js:2 | the examples of section 10 of RFC 4648 |
| Base64.ToByteArray | docs/swagger-ui/swagger-ui-standalone-preset.js:2 | the decoder fills an array of the computed size without writing outside it, and throws exactly where the decoding function has no value |
| Base64.DecodedFits | docs/swagger-ui/swagger-ui-standalone-preset.js:2 | the bytes decoded fill the computed size, except two bytes short when a padded text has a whole number of data groups |
| Base64.DecodeEncode | docs/swagger-ui/swagger-ui-standalone-preset.js:2 | decoding undoes encoding for every byte string |
| YamlBinary.ShiftInByte | docs/swagger-ui/swagger-ui-standalone-preset.js:2 | shifting a byte into the wrapping 32-bit accumulator keeps its low 24 bits right |
| YamlBinary.ShiftInLetter | docs/swagger-ui/swagger-ui-standalone-preset.js:2 | shifting a six-bit digit into the wrapping accumulator keeps its low 24 bits right |
| YamlBinary.Represent | docs/swagger-ui/swagger-ui-standalone-preset.js:2 | the streaming writer gives the base64 text of every non-empty byte string, and four letters for the empty one |
| YamlBinary.Resolve | docs/swagger-ui/swagger-ui-standalone-preset.js:2 | the test accepts exactly the texts over the alphabet with a multiple of four letters and pads, line breaks apart |
| YamlBinary.Construct | docs/swagger-ui/swagger-ui-standalone-preset.js:2 | the streaming reader gives the bytes of the letters however lines are broken, and three zero bytes for a text without letters |
| YamlBinary.BytesOfEncoding | docs/swagger-ui/swagger-ui-standalone-preset.js:2 | the letters of an encoding read as the bytes encoded |
| YamlBinary.RoundTrip | docs/swagger-ui/swagger-ui-standalone-preset.js:2 | writing, testing and reading: always accepted, and unchanged if and only if the byte string is not empty |
| MergeSort.InsertStable | docs/swagger-ui/swagger-ui-standalone-preset.js:2 | inserting after the last element that does not come later keeps a stable sort a stable sort |
| MergeSort.InsertionSort | docs/swagger-ui/swagger-ui-standalone-preset.js:2 | the in-place insertion loop leaves a stable sort of the array |
| MergeSort.MergeInto | docs/swagger-ui/swagger-ui-standalone-preset.js:2 | the merge loop writes the merge of two runs over the array |
| MergeSort.MergeStable | docs/swagger-ui/swagger-ui-standalone-preset.js:2 | merging stable sorts of two parts is a stable sort of the whole |
| MergeSort.Sort | docs/swagger-ui/swagger-ui-standalone-preset.js:2 | for every comparator that is a total preorder the array ends sorted, a permutation, with equal elements in their old order |
| MergeSort.StableIsPermutation | docs/swagger-ui/swagger-ui-standalone-preset.js:2 | a stable sort is a permutation |
| MergeSort.StableIsUnique | docs/swagger-ui/swagger-ui-standalone-preset.js:2 | there is only one stable sort of a sequence, so the two branches of the algorithm agree |
| ComplianceKeeper.Keeper.CertifyModel | x/compliance/keeper/msg_server_certify_model.go:15-136 | refusals in the order checked; otherwise the new record, the index entry and the three flags |
| ComplianceKeeper.Keeper.RevokeModel | x/compliance/keeper/msg_server_revoke_model.go:15-137 | refusals in the order checked; otherwise the new record, the index without the first match, and the flags |
| ComplianceKeeper.Keeper.RemoveEntry | x/compliance/keeper/msg_server_revoke_model.go:73-86 | what revoking does to the index, including the empty list written and removed when there is none |
| ComplianceKeeper.Keeper.FindEntry | x/compliance/types/device_software_compliance.go:3-13 | the first entry that agrees in everything but the certification type |
| ComplianceKeeper.Keeper.ProvisionModel | x/compliance/keeper/msg_server_provision_model.go:12-83 | refusal by the status already recorded; otherwise the new record and its flag |
| ComplianceKeeper.Replay | integration_tests/grpc_rest/compliance/helpers.go:592-702 | any run of the handlers from empty stores: flags, histories, what each record is made of, and the exact condition on the index |
| ComplianceRecords.AcceptedIff | x/compliance/keeper/msg_server_certify_model.go:23-73 | a message is accepted if and only if a certification center signed it, date and certificate id are given, the model version is on the ledger under that version string (not asked of a provision), and there is no record yet or, for certify and revoke, one of another status and no later date |
| ComplianceRecords.RefusedFor | x/compliance/keeper/msg_server_provision_model.go:20-44 | the reason given for a refusal is a true one, written out for each error |
| ComplianceRecords.ChangeIsProper | x/compliance/keeper/msg_server_revoke_model.go:23-46 | only an authorized message changes anything, and a certify or revoke only with the version string of the model version on the ledger |
| ComplianceRecords.EveryRunRecords | x/compliance/types/compliance_info.go:3-76 | after every run there is a record for exactly the keys for which a message was accepted; its status, date and reason are those of the last, its owner, version string and CD version those of the first, its history the others in order, its certificate id and each optional field what was last given |
| ComplianceRecords.AcceptedAmong | x/compliance/keeper/msg_server_certify_model.go:23-73 | these are authorized messages of the run for that key, accepted when their turn came |
| ComplianceRecords.EveryRecordAuthorized | x/compliance/keeper/msg_server_provision_model.go:20-68 | every record of every run has its status, date and reason from the last, and its owner, version string and CD version from the first authorized message accepted for its key |
| Compliance.EveryRunFlags | integration_tests/grpc_rest/compliance/helpers.go:609-654 | in every run at most one flag is true for a key, and it is the one its status names |
| Compliance.EveryRunLists | x/compliance/keeper/grpc_query_certified_model.go:25-41 | after every run each list query is the set of keys with that status, and together they are all records |
| Compliance.EveryRunTimelines | x/compliance/types/compliance_info.go:3-30 | in every run the statuses a record goes through never repeat in a row, never go back to provisional and never go back in time |
| Compliance.EveryRunHistory | x/compliance/types/compliance_info.go:3-30 | in every run a record stays, and its history and status at one point are the beginning of its history and status at any later point |
| Compliance.AcceptOption | x/compliance/types/compliance_info.go:32-76 | no message empties an optional field, and only a certification changes it, to the text it gives |
| Compliance.EveryRunOptions | x/compliance/types/compliance_info.go:32-76 | in every run an optional field of a record that has a text keeps one |
| Compliance.CertifyExact | x/compliance/keeper/msg_server_certify_model.go:15-136 | certifying always keeps the index exact |
| Compliance.RevokeExact | x/compliance/keeper/msg_server_revoke_model.go:15-137 | a revocation that takes out its own entry, or none if it has none, keeps the index exact |
| Compliance.RevokeBreaks | x/compliance/keeper/msg_server_revoke_model.go:15-137 | any other accepted revocation leaves the index wrong |
| Compliance.StepExact | integration_tests/grpc_rest/compliance/helpers.go:631-702 | one message keeps the index exact if and only if it is clean |
| Compliance.EveryRunIndex | integration_tests/grpc_rest/compliance/helpers.go:955-966 | over any run the index holds exactly the certified records with each id, each once, if and only if every revocation is clean |
| ComplianceRuns.UniformRun | integration_tests/grpc_rest/compliance/helpers.go:1131-1142 | the index stays exact on every run in which a model version has one certification type and one version string |
| ComplianceRuns.OtherTypeTakenOut | x/compliance/keeper/msg_server_revoke_model.go:15-137 | a run in which revoking one certification type takes out the index entry of the other |
| ComplianceRuns.ProvisionalTakesOut | x/compliance/keeper/msg_server_revoke_model.go:15-137 | a run in which revoking a provisional record takes out another record's entry |
| ComplianceRuns.OwnEntryLeftBehind | x/compliance/keeper/msg_server_provision_model.go:12-83 | a run in which an entry stays because provisioning did not compare the version string |
| AuthKeeper.Keeper.CountTrustees | x/dclauth/keeper/account.go:146-162 | the number of active accounts with the trustee role |
| AuthKeeper.Keeper.NextAccountNumber | x/dclauth/keeper/account_stat.go:33-52 | the counter, absent meaning zero, and the counter moved on |
| AuthKeeper.Keeper.ProposeAddAccount | x/dclauth/keeper/msg_server_propose_add_account.go:14-88 | refusals in order; otherwise a pending account, or an active one where one approval is enough |
| AuthKeeper.Keeper.ApproveAddAccount | x/dclauth/keeper/msg_server_approve_add_account.go:11-101 | refusals in order; otherwise one more approval, or the account active and its revoked and pending records gone |
| AuthKeeper.Keeper.RejectAddAccount | x/dclauth/keeper/msg_server_reject_add_account.go:11-89 | refusals in order; otherwise one more reject, or the account in the rejected store |
| AuthKeeper.Keeper.ProposeRevokeAccount | x/dclauth/keeper/msg_server_propose_revoke_account.go:11-69 | refusals in order; otherwise a pending revocation, or the account moved to the revoked store |
| AuthKeeper.Keeper.ApproveRevokeAccount | x/dclauth/keeper/msg_server_approve_revoke_account.go:12-79 | refusals in order, a missing account included; otherwise one more approval, or the account moved |
| AuthKeeper.Keeper.MoveToRevoked | x/dclauth/keeper/revoked_account.go:64-82 | an active account moves to the revoked store unchanged |
| AuthKeeper.Keeper.HandleDoubleSign | x/validator/keeper/process_malicious.go:91-108 | the account of a validator that signed twice moves to the revoked store; its pending revocation stays |
| AuthKeeper.Replay | integration_tests/grpc_rest/dclauth/helpers.go:564-803 | any run of the handlers from a sound start, with the properties stated in the Accounts, AccountAdmission and AccountRuns rows |
| Accounts.QuorumIsNearest | x/dclauth/keeper/keeper.go:48-55 | the quorum is the whole number nearest to the percentage of the trustees, halves up, but at least one |
| Accounts.QuorumsAre | x/dclauth/types/constants.go:28-29 | the quorums are those percentages: 66 for accounts and revocations, 33 for vendor-only accounts |
| Accounts.QuorumDecides | x/dclauth/keeper/keeper.go:48-59 | arithmetic of the quorums: each lies between one and the number of trustees, and of votes that add up to that number exactly one side reaches its quorum |
| Accounts.VendorQuorumDecides | x/dclauth/keeper/keeper.go:48-59 | arithmetic of the quorums: the vendor quorum is never larger, so of such votes one side reaches its quorum |
| Accounts.EveryRunFair | integration_tests/grpc_rest/dclauth/helpers.go:564-803 | in every run no address is both active and pending, and nobody voted twice or on both sides of anything |
| AccountAdmission.AcceptedIff | x/dclauth/keeper/msg_server_propose_add_account.go:14-62 | a message is accepted if and only if a trustee signed it and may take the step in the present state, written out for each message; a double signing if the account is active |
| AccountAdmission.RefusedFor | x/dclauth/keeper/msg_server_approve_add_account.go:19-59 | the reason given for a refusal is a true one, written out for each error |
| AccountAdmission.ChangeIsSigned | x/dclauth/keeper/msg_server_reject_add_account.go:19-27 | only a trustee, or a double signing, changes anything |
| AccountAdmission.AdmittedAs | x/dclauth/keeper/msg_server_approve_add_account.go:77-98 | an account becomes active by approval exactly as it was pending, with the vote added, or exactly as proposed, with the next number |
| AccountAdmission.RejectedAs | x/dclauth/keeper/msg_server_reject_add_account.go:66-86 | an account is rejected exactly as it was pending, with the vote added and the next number, and leaves the rejected store only when proposed again |
| AccountAdmission.RevokedAs | x/dclauth/keeper/revoked_account.go:64-82 | an account is revoked unchanged, with exactly the approvals and the reason of its revocation |
| AccountAdmission.CounterMoves | x/dclauth/keeper/account_stat.go:33-52 | a number is handed out exactly when an account is admitted or rejected |
| AccountAdmission.EveryRunOwed | integration_tests/grpc_rest/dclauth/helpers.go:564-803 | in every run each pending account, and each active one that is not as at the start, has the roles and vendor id of an accepted proposal for its address, and each of its approvals was given for it |
| AccountAdmission.NewTrusteeProposed | x/dclauth/keeper/msg_server_approve_add_account.go:77-98 | nobody becomes a trustee in any run without a trustee proposing that address with that role |
| AccountAdmission.EveryRunRejected | x/dclauth/keeper/msg_server_propose_add_account.go:82-85 | in every run a rejected address is neither active nor pending |
| AccountRuns.AdmittedByQuorum | x/dclauth/keeper/msg_server_approve_add_account.go:77-98 | an address becomes active only with a quorum of the present trustees, and gets the next number |
| AccountRuns.RevokedByQuorum | x/dclauth/keeper/msg_server_approve_revoke_account.go:57-76 | an account stops being active only by moving, unchanged, to the revoked store, by a quorum or for double signing |
| AccountRuns.EveryRunSeparate | integration_tests/grpc_rest/dclauth/helpers.go:822-940 | over any run no address is both active and revoked, if and only if no revoked address is proposed again while one trustee is a quorum |
| AccountRuns.AddedAgain | x/dclauth/keeper/msg_server_propose_add_account.go:70-80 | a run of three trustees after which a vendor is active and revoked |
| AccountRuns.EveryRunAnchored | x/dclauth/keeper/msg_server_propose_revoke_account.go:32-66 | over any run every pending revocation has its active account, if and only if none of them is caught signing twice |
| AccountRuns.MessagesAnchored | integration_tests/grpc_rest/dclauth/helpers.go:822-940 | on runs of the trustees' messages alone every pending revocation always has its active account |
| AccountRuns.RevocationLeftBehind | x/validator/keeper/process_malicious.go:91-108 | a double signing while a revocation is pending leaves the revocation without its account |
| AccountRuns.RevocationOrphaned | x/validator/keeper/process_malicious.go:91-108 | a run of three trustees, one of them a node admin, after which a pending revocation has no account |
| AccountRuns.EveryRunNumbers | x/dclauth/keeper/account_stat.go:33-52 | in every run no two active, revoked or rejected accounts hold the same number, and none holds one yet to be handed out |
| AccountVotes.EveryRunOpen | x/dclauth/keeper/msg_server_approve_add_account.go:35-98 | over any run a pending account always has a trustee who can still vote, so that one on which all have voted is decided, if and only if no last trustee who could vote on an account votes without deciding it, or goes |
| AccountVotes.OpenStep | x/dclauth/keeper/msg_server_reject_add_account.go:42-86 | the same for one message |
| AccountVotes.SameTrusteesDecide | x/dclauth/keeper/keeper.go:48-59 | while the number of trustees stays the same, an account on which all of them have voted is always decided |
| AccountVotes.StuckRefused | x/dclauth/keeper/msg_server_reject_add_account.go:42-86 | on an account that no trustee can vote on, every proposal and vote is refused |
| AccountVotes.VotedAndPending | x/dclauth/keeper/msg_server_approve_revoke_account.go:57-76 | a run after which both trustees left have voted on an account that is still pending although it has a quorum |
| RevocationVotes.EveryRunApprovable | x/dclauth/keeper/msg_server_approve_revoke_account.go:12-79 | over any run a pending revocation always has a trustee who can still approve it, so that one that all have approved is done, if and only if no last trustee who could approve one does so without completing it, or goes |
| RevocationVotes.ApprovableStep | x/dclauth/keeper/msg_server_propose_revoke_account.go:32-66 | the same for one message |
| RevocationVotes.SameTrusteesComplete | x/dclauth/keeper/keeper.go:48-59 | while the number of trustees stays the same, a revocation that all of them have approved is always completed |
| RevocationVotes.BlockedRefused | x/dclauth/keeper/msg_server_approve_revoke_account.go:12-79 | a pending revocation that no trustee can approve is neither proposed again nor approved |
| RevocationVotes.ApprovedAndPending | x/dclauth/keeper/msg_server_propose_revoke_account.go:32-66 | a run after which the one trustee left has approved a revocation that is still pending although one approval is a quorum |
| Genesis.InitGenesis | x/dclauth/genesis.go:11-39 | the import loops leave the stores and the counter as specified |
| Genesis.InitNumbers | x/dclauth/genesis.go:11-39 | imported accounts have different numbers, all below the next one if and only if the counter is absent or at least the number of listed accounts |
| GenesisNumbers.ActiveFromGenesis | x/dclauth/genesis.go:11-39 | on every chain started from a state whose counter covers the accounts, whoever is revoked or rejected, active accounts always have different numbers, below the next one |
| GenesisNumbers.ExportCovers | x/dclauth/genesis.go:42-58 | what such a chain exports is again covered by its counter |
| GenesisNumbers.ActiveThroughRestarts | x/dclauth/genesis.go:11-58 | however often a chain runs, is exported and imported, active accounts have different numbers, below the next one |
| GenesisNumbers.ImportedNumbers | x/dclauth/genesis.go:11-39 | after an import the numbers of all active, revoked and rejected accounts are unique and below the next one, if and only if those brought along are different and lie between the number of listed accounts and the counter, for a state that passes validation |
| GenesisNumbers.NumbersFromGenesis | x/dclauth/genesis.go:11-39 | a chain started from such a state never hands out a number that anybody holds |
| GenesisNumbers.NumberHeldTwice | x/dclauth/genesis.go:11-58 | a state with unique numbers that loses this by export and import |
| Genesis.OneRoundTrip | x/dclauth/genesis.go:11-58 | export and import keep every store, except that account numbers become positions in key order |
| Genesis.RoundTripStable | x/dclauth/genesis.go:11-58 | after one export and import another changes nothing, counter included |
| Genesis.AddAccountsCovers | testutil/network/util.go:168-173 | appending accounts keeps the counter condition, if and only if the counter was present or no accounts were listed |
| Genesis.NumberTakenTwice | testutil/network/util.go:168-173 | a genesis state prepared this way whose next account number is already taken |
| Genesis.AddedCovers | testutil/network/util.go:168-173 | from the default state any number of additions keeps all numbers below the next one |

## Left out

- The owner-id path of the trie, which edits nodes in place, and the other collections of module 3.
- OrderedMap.OrderedMap.Get: whether two keys are loosely equal does not change during a run, where in the source an object can change its text. That a key is loosely equal to itself is stated where it is used.
- The `keys` and `values` iterators of the ordered Map, which differ from the modelled one in what they show of an entry, and the Set built on the same list.
- TrieMap.CreateNodes: the source updates with a fresh owner id, in place. The model updates persistently, on the heap too. The result is the same, because the keys are different and every node it edits was made in the same call, so that no other version can see the edit.
- The streaming decoder for encodings other than UTF-8. On text that is not valid UTF-8 it is stated what happens to a character that is cut off or broken by another byte; how malformed text as a whole depends on its chunks is not.
- The YAML parser and printer apart from double-quoted and binary scalars, and the printer's choice between scalar styles.
- HashBlocks.Hash.HashAll: stated for messages below 2^50 bytes, because above that the bit length is no longer exact in the source's arithmetic.
- The SHA compression functions, which receive the blocks.
- BufferList.List.FromList: an object in object mode is a chunk, and the stream state around the list is not modelled.
- TickQueue.Queue.Play: a run is observed up to a number of started tasks, since a task may enqueue itself for ever.
- Message fields checked before a handler runs, apart from dates, certificate ids, roles and vendor ids; addresses are taken as parsed.
- The optional text fields of a compliance record are one map by field name.
- Dates are compared as times; parsing them is not modelled.
- Paging of list queries, events and logs.
- Public keys and sequence numbers of accounts, and the wrap-around of the account counter at 2^64.
- The quorum is computed on integers; for both percentages the double product rounds to the same count.
- The evidence checks before a double signing is confirmed.
- Genesis.AddAccountsCovers: the state is a value here, where the source changes a local structure in place.
- The certificate, model, vendor and upgrade modules of the ledger, command line, network and user interface: they would add little that is hard.
