# Verified models of libpcl's hash table, buffer and scanners

This project models five parts of libpcl, the Portable C Library, and proves what they are
for. `dafny verify dfyconfig.toml` checks all of it.

* **Hash table** (`src/htable`). Class `HashTable` has the C structure's fields: an append-only
  entry array, an array of bucket heads, collision chains threaded through the entries by index,
  removed slots, load factors, and the ownership callback as a log of the pairs it received.
  `Chains.dfy` says on sequences when arrays and chains are consistent and shows that each change
  keeps them so. `TableModel.dfy` gives one step per call on the abstract value (live pairs in
  insertion order, capacity, slots used, pairs handed over, rehash work). Each method of the class
  is proved to take that step, and `HashTable.Run` lifts this to lists of calls. `TableRuns.dfy`,
  `TableSlots.dfy` and `TableAccounts.dfy` then prove what every run keeps, and `TableOutcomes.dfy`
  tells every answer from the calls and answers before it.
* **Dynamic buffer** (`src/buf`). Class `Buffer` works on an array with a cursor and a hidden NUL.
  `BufferSpec.dfy` holds its meaning on byte sequences and the binary item format, `ByteOrder.dfy`
  the host and network layouts of integers.
* **Option parser** (`src/init`). Class `OptState` parses argv in place, on arrays of characters.
  `GetOptSpec.dfy` has one call as a step and a recursive grammar of command lines;
  `GetOptMeaning.dfy` writes options down in all documented forms, and `GetOptRefusals.dfy` says what
  option strings declare and what command lines are refused for.
* **JSONPath compiler** (`src/json/json_compile.c`). `JsonCompile.dfy` scans by index, pushes nodes
  on a linked list and reverses it in place; `JsonPathSpec.dfy` is the grammar as
  the compiler reads it, `JsonPathTexts.dfy` the language of paths as they are written, with the
  proof that the two agree, and `JsonPathMeaning.dfy` the canonical text of step lists.
* **Format rewriter** (`src/io/fmtconv.c`). `FormatConv.dfy` writes into the caller's array by
  index against a recursive rewrite; `FormatMeaning.dfy` reads formats as lists of tokens.

Numbers are unbounded; where C's widths matter they are written out (codes of 32-bit requests,
`int` ranges in `pcl_strtoi`, 8w-bit integers in the buffer). The 64-bit Unix build with narrow
characters is modelled. A load factor is a fraction: a float times a power of two is exact, so
the C expression is the fraction of the capacity cut off to an integer. The default minimum is
`0.2f`, which is 13421773/67108864; up to 2^26 slots its threshold is that of a fifth
(`DefaultThresholds`).

## Where the properties need a condition

* A put appends at `count_used`, but growth is decided by `count`. `HashTable.Put` therefore
  requires that the entry it writes lies inside the array; `WritesInsideIff` says exactly when it
  does, `TogglesOverflow` gives a run on the smallest table that violates it, and `FillIsSafeIff`
  says for every state when filling it up to the growth threshold is safe.
* A shrink moves the live entries to half the capacity. `RemoveInsideIff` says for every state
  exactly when they do not fit, and `HashTable.Remove` requires that they do. `RemovesFitIff`: they
  fit in all states if and only if the minimum load factor passes `ShrinkFits`, which
  `ShrinkFitsIff` reduces to the largest capacity and every factor of at most one half passes
  (`HalfLoadShrinkFits`). `FillThenRemoveIff` says which runs of fresh puts and one remove leave
  the array, and `ShrinkOverflowExample` is such a run for two load factors of 3/4.
* The growth threshold caps the live count in every safe run if and only if the load factors are
  `Steady` (`CountBoundedIff`). A minimum of at most half the maximum is (`HalfOfMaxIsSteady`), so
  the defaults are; 3/10 with 1/5 is not (`UnsteadyExample`).
* The format rewriter turns `%%` into a single percent sign (`PercentExample`), keeps the P of
  `%3Ps` because 3 is missing from its list of width digits (`WidthExample`; `#`, `$` and `t`
  are missing too), and scans literal text directly behind `%/` as a specification
  (`SeparatorExample`). `ListedIff` says that the list is otherwise that of the platform, and
  `RewriteIsFaithfulIff` that these are the only ways in which a format is not rewritten to what it
  means.
* An empty quoted member name in a JSONPath takes all that stands behind the opening quote as the
  name: `$['']` compiles to a member named `']` (`EmptyQuoteExample`). `QuotedNameIff` says which
  quoted names are read as themselves. `CompiledIff` gives all paths that compile, in every way of
  writing names, numbers, lists and slices; a list of steps is what its canonical text compiles to
  if and only if it is well-formed (`CompileTextIff`).
* In `-Ovalue` the value must not contain an equals sign (`AttachedEqualsExample`). `ShortFormIff`,
  `ShortUseIff`, `LongFormIff` and `LongUseIff` say for each way of writing an option exactly when
  it is found with the argument meant.

Where code and documentation differ the code is followed. The documentation gives the smallest
table size as 17 in one place; it is 8. It presents `-Ovalue` for any value; the code looks for an
equals sign anywhere behind the option. It does not mention that long names of one character are
refused unless `=value` follows, or that `[:]` is refused as a slice while `[0:]` is accepted.
The comment in `src/io/fmtconv.c` says that `%%` encodes a percent sign, as it does for the
platform's formatter, which then reads the single one that comes out as the start of a conversion.

## Model

| member | source | states |
|---|---|---|
| Capacity.ChkCapacity | src/htable/htable_chkcapacity.c:35-80 | for every request below 2^32 the result is the least power of two that is at least the request and 8; it fails exactly when that exceeds 2^30 |
| Capacity.SmearFills | src/htable/htable_chkcapacity.c:41-52 | five shift-and-or steps turn a 32-bit number that is no power of two into the next power of two less one |
| Bits.AndPredecessor | src/htable/htable_chkcapacity.c:41 | `n & (n - 1)` is 0 exactly for powers of two |
| HashTables.MaskIsMod | src/htable/htable_lookup.c:54 | masking a code with capacity - 1 is the remainder modulo the capacity |
| OrderedMap.GetAfterSet | src/htable/htable_put.c:50-103 | after a put the key maps to the new pair and every other key to what it mapped to before |
| OrderedMap.GetAfterDelete | src/htable/htable_remove.c:46-75 | after a remove the key is gone and every other key is untouched |
| OrderedMap.DeleteAfterSet | src/htable/htable_remove.c:36-78 | a remove undoes a put of the same key, fresh or replacing, up to removing the key |
| TableModel.StepKeepsOk | src/htable/htable_put.c:36-106 | every call keeps capacity a legal power of two, keys distinct and the live count within the used slots |
| TableModel.DefaultThresholds | src/htable/_htable.h:37-38 | by default a table grows at three quarters, and shrinks below a fifth up to the capacity where the inexact fifth shows |
| TableModel.WritesInsideIff | src/htable/htable_put.c:71-83 | a put stays inside the entry array if and only if its key is present, the count asks for growth, or a slot is unused |
| TableModel.RemoveInsideIff | src/htable/htable_remove.c:66-68 | a remove leaves the entry array exactly when it shrinks the table with more than half the capacity left |
| TableModel.InsideIsFitting | src/htable/htable_rehash.c:50-82 | a call writes inside the array if and only if it leaves no more slots in use than the array has |
| TableModel.ShrinkFitsIff | src/htable/htable_remove.c:66-68 | the shrink thresholds of all capacities allow at most half the capacity to be left if and only if that of the largest does |
| TableModel.HalfLoadShrinkFits | src/htable/htable_remove.c:66-68 | with a minimum load factor of at most one half the live entries always fit after a shrink |
| TableRuns.StepIsMap | src/htable/htable_put.c:50-103 | each accepted call changes the live pairs as the ordered map's own operation does |
| TableRuns.GetAfterStep | src/htable/htable_put.c:36-106 | one call changes the value of a key exactly if it stores or forgets that key |
| TableRuns.AfterOk | src/htable/htable_put.c:36-106 | the invariant holds after every run of calls |
| TableRuns.RunIsMap | src/htable/htable_lookup.c:46-72 | after any run a key maps to the pair of the last accepted put that no later remove or clear undid, read off the calls and their results alone |
| TableRuns.RunKeepsInsertionOrder | src/htable/htable_put.c:81-102 | after any run the live pairs are those of the surviving first puts, in the order of those puts |
| TableOutcomes.RunAnswers | src/htable/htable_put.c:36-106 | after any run the count, the capacity and the answer of any call follow from the earlier calls and answers: a lookup finds the pair last stored or nothing, a put is EEXIST exactly if unique and present, ERANGE exactly if absent, at the maximum load and unable to grow, a remove returns the pairs left, and growing and shrinking follow the load factors |
| TableOutcomes.HistoryAnswers | src/htable/htable_lookup.c:35-44 | every event of a run is the answer that follows from the events before it |
| TableOutcomes.LastStoredMatches | src/htable/htable_lookup.c:63-66 | the pair that a lookup finds has the key asked for |
| TableOutcomes.RefusedChangesNothing | src/htable/htable_put.c:50-53 | a refused call, a lookup, and a remove of an absent key leave the table as it was |
| TableAccounts.StepKeepsOwnership | src/htable/htable_put.c:55-63 | each call conserves live plus handed-over pairs, up to the pair it accepts |
| TableAccounts.RunKeepsOwnership | src/htable/htable_free.c:41-47 | over any run accepted pairs are live or handed over, and a final free hands over each accepted pair exactly once |
| TableSlots.DeadSlots | src/htable/htable_rehash.c:91 | count_used - count equals the successful removes since the last rehash or clear |
| TableSlots.CountBounded | src/htable/htable_put.c:71-78 | with steady load factors the live count never exceeds the growth threshold in a safe run |
| TableSlots.CountBoundedIff | src/htable/htable_remove.c:66-68 | the growth threshold caps the live count in every safe run if and only if the load factors are steady |
| TableSlots.HalfOfMaxIsSteady | src/htable/_htable.h:37-39 | a minimum load factor of at most half the maximum is steady |
| TableSlots.UnsteadyExample | src/htable/htable_remove.c:66-68 | with 3/10 and 1/5, twelve puts into 64 slots and one remove leave eleven pairs over a threshold of nine |
| TableSlots.FewRemovesAreSafe | src/htable/htable_put.c:71-102 | if the minimum load factor fits, a run whose removes since the last reset always fit between threshold and capacity writes inside the array throughout |
| TableSlots.SafeRunFits | src/htable/htable_put.c:80-102 | in a safe run the slots in use never outnumber those of the array |
| TableSlots.FillIsSafeIff | src/htable/htable_put.c:71-102 | filling any table with fresh keys up to its threshold is safe if and only if its dead slots fit between threshold and capacity |
| TableSlots.TogglesOverflow | src/htable/htable_put.c:71-102 | on a table of 8 slots, putting and removing one key eight times and putting it again leaves the array |
| TableSlots.FillThenRemoveIff | src/htable/htable_remove.c:66-68 | filling any empty table below its threshold and removing one key leaves the array if and only if the remove shrinks it with more than half the capacity left |
| TableSlots.ShrinkOverflowExample | src/htable/htable_remove.c:66-68 | with both load factors at 3/4, twelve puts into 16 slots and one remove put eleven pairs into 8 slots |
| TableSlots.RemovesFitIff | src/htable/htable_remove.c:66-68 | no remove in any state leaves the array if and only if the minimum load factor fits |
| TableAccounts.StepCost | src/htable/htable_rehash.c:37-94 | with the default load factors a call raises rehash work plus potential by at most 36 |
| TableAccounts.RehashingIsAmortised | src/htable/htable_rehash.c:37-94 | over every run all rehashes together touch at most 36 slots per call and 4 per initial slot |
| Chains.ChainsPartition | src/htable/htable_lookup.c:59-69 | the chains hold each live slot at exactly one place and nothing else |
| Chains.InsertKeepsIndex | src/htable/htable_put.c:80-99 | storing an entry behind the head of its bucket's chain keeps chains, links and bucket heads consistent and descending |
| Chains.RemoveKeepsIndex | src/htable/htable_remove.c:52-62 | so does unlinking a head or a middle node and clearing its slot |
| Chains.ReplaceKeepsSound | src/htable/htable_put.c:55-60 | replacing key and value of an entry keeps its code true and its place in the order |
| Chains.RemoveKeepsSound | src/htable/htable_remove.c:50-62 | a removal takes exactly one pair out of the live pairs |
| Chains.MatchIsPosition | src/htable/htable_lookup.c:63-66 | an entry whose key matches is the key's position among the live pairs |
| Chains.NotInChain | src/htable/htable_lookup.c:59-71 | a key without a match in its own bucket is nowhere in the table |
| HashTables.InitArrays | src/htable/htable_init.c:36-51 | fresh arrays of free entries and empty buckets |
| HashTables.Insert | src/htable/htable_put.c:80-99 | in the arrays: the entry is stored and chained, and the live pairs grow by it at the end |
| HashTables.MoveEntries | src/htable/htable_rehash.c:50-82 | the copied table holds the same pairs in the same order, no removed slot, and the chains of inserting them one by one |
| HashTables.RehashCapacity | src/htable/htable_rehash.c:40-46 | doubling or halving a legal capacity needs no rounding and fails only above 2^30 |
| HashTables.ClearNode | src/htable/htable_remove.c:52-62 | in the arrays: the node is unlinked, its slot is a tombstone, and just its pair is gone |
| HashTables.HashTable.Create | src/htable/htable.c:58-82 | an empty table of the least legal capacity, or null exactly above 2^30 |
| HashTables.HashTable.Find | src/htable/htable_lookup.c:46-72 | the chain walk ends and finds the key's entry exactly if the table has the key |
| HashTables.HashTable.Lookup | src/htable/htable_lookup.c:35-44 | returns the pair of the key, not-found, or invalid for a null key, and changes nothing |
| HashTables.HashTable.Rehash | src/htable/htable_rehash.c:37-94 | same pairs, new capacity, count_used equal to count; refused only when growing past 2^30, and then nothing changed |
| HashTables.HashTable.Adopt | src/htable/htable_rehash.c:84-91 | the table switches to the copied arrays and stays valid |
| HashTables.HashTable.Put | src/htable/htable_put.c:36-106 | takes the put step with its outcome: replace in place, EEXIST, ERANGE or append, and the exact new chains |
| HashTables.HashTable.Replace | src/htable/htable_put.c:55-63 | the old pair goes to the callback, the new one takes its place |
| HashTables.HashTable.Add | src/htable/htable_put.c:66-103 | grows first if the count asks for it, then appends |
| HashTables.HashTable.Remove | src/htable/htable_remove.c:35-78 | takes the remove step: exactly the key's pair goes, the count is returned, a sparse table is shrunk |
| HashTables.HashTable.Walk | src/htable/htable_remove.c:42-50 | the walk of a remove ends, and stops at the key's node with the one before it exactly if the table has the key |
| HashTables.HashTable.ShrinkIfSparse | src/htable/htable_remove.c:66-68 | the shrink happens exactly below the threshold and never reports a failure |
| HashTables.HashTable.Clear | src/htable/htable_clear.c:36-65 | every live pair is handed over and the table is empty, at capacity 8 if asked |
| HashTables.HashTable.Free | src/htable/htable_free.c:35-53 | every live pair is handed over once |
| HashTables.HashTable.Iter | src/htable/htable_iter.c:34-53 | the next live pair at or after an index, skipping exactly the removed slots |
| HashTables.HashTable.IterateAll | src/htable/htable_iter.c:34-53 | the documented loop ends and meets every live pair once in insertion order |
| HashTables.HashTable.Keys | src/htable/htable_keys.c:35-48 | the keys of the live pairs in iteration order, as many as count |
| HashTables.HashTable.Run | src/htable/htable_put.c:36-106 | any list of calls on the arrays gives the history and the final state of the model |
| ByteOrder.SwapGivesNetworkOrder | src/buf/buf_putint64.c:40-48 | after the swap a host of either byte order has the integer in network order in memory |
| ByteOrder.SwapReadsNetworkOrder | src/buf/buf_getint64.c:40-54 | reading network order and swapping gives the integer back on either host |
| ByteOrder.BigEndianAt | src/buf/buf_putint64.c:40-48 | network order byte by byte: byte i counts the multiples of 2^(8(w-1-i)) |
| BufferSpec.OverwriteAt | src/buf/buf_put.c:45-50 | a put at the cursor, character by character: old, written, one NUL, old |
| BufferSpec.StrReadIff | src/buf/buf_getstr.c:41-46 | a string is read exactly if a counted NUL lies ahead within the caller's room, EBUF exactly if the room is full of unread text without one, end of file exactly if the room reaches beyond the unread text |
| BufferSpec.FixedReadIff | src/buf/buf_get.c:40-48 | n characters are read exactly if so many are unread, else end of file |
| BufferSpec.ReadEncoded | src/buf/buf_get.c:35-49 | reading where an item was written gives the item and stops behind it |
| BufferSpec.DecodeEncode | src/buf/buf_get.c:35-49 | matching reads over any list of encoded items return exactly the list and end at the end |
| Buffers.Buffer.constructor | src/buf/buf_init.c:36-71 | an empty buffer with its NUL in place |
| Buffers.Buffer.Reset | src/buf/buf_reset.c:35-47 | back to empty, valid |
| Buffers.Buffer.Grow | src/buf/buf_grow.c:35-50 | afterwards n characters and a NUL fit at the cursor, old characters are kept, the new size is the exact formula, and all copies ever made total at most the size |
| Buffers.Buffer.Put | src/buf/buf_put.c:35-53 | the characters and a NUL are written at the cursor and nothing else changes |
| Buffers.Buffer.PutStr | src/buf/buf_putstr.c:35-50 | as Put, with the NUL counted in binary mode; an empty text is refused |
| Buffers.Buffer.PutFormatted | src/buf/buf_vputf.c:36-76 | the formatter's output is written in full with its NULs and nothing else changes |
| Buffers.Buffer.Get | src/buf/buf_get.c:35-49 | the next n counted characters, end of file, or refused in text mode |
| Buffers.Buffer.StrLenHere | src/buf/buf_getstr.c:41 | the scan for a NUL stays inside the allocation |
| Buffers.Buffer.GetStr | src/buf/buf_getstr.c:35-47 | reads the string that the specification gives, with its error cases |
| Buffers.Buffer.PutInt | src/buf/buf_putint32.c:35-43 | writes the network order bytes on either host |
| Buffers.Buffer.GetInt | src/buf/buf_getint32.c:35-50 | reads them back on either host |
| Buffers.Buffer.RoundTrip | src/buf/buf_put.c:35-53 | items put into a reset buffer and read back after a rewind are the same items, and the cursor ends at the length |
| Buffers.Buffer.AppendAll | src/buf/buf_grow.c:41-47 | any mix of appends concatenates; the size stays within the first size or twice what is held, and all copies total at most the size |
| FormatConv.FmtConv | src/io/fmtconv.c:61-252 | the result is the recursive rewrite and its NUL, inside the caller's buffer exactly when the input fits, and nothing behind the input's length is written |
| FormatConv.SpecChar | src/io/fmtconv.c:110-247 | one turn of the inner loop keeps written plus unread equal to the rewrite, with no more written than read |
| FormatMeaning.PlainUnchanged | src/io/fmtconv.c:75-248 | a format without `%%`, `%/` and P is unchanged |
| FormatMeaning.ListedIff | src/io/fmtconv.c:175-235 | the characters scanned over are the platform's flags, positions, widths, precisions and lengths without 3, `#`, `$` and `t` |
| FormatMeaning.RewriteTokens | src/io/fmtconv.c:102-247 | the result on every list of literals, `%%`, `%/`, `%Ps`, `%Pc` and conversions, with any flags and widths |
| FormatMeaning.RewriteIsFaithfulIff | src/io/fmtconv.c:97-247 | the result is the platform format meant if and only if there is no `%%`, no `%Ps` or `%Pc` with a 3, `#`, `$` or `t`, and no literal behind `%/` that reads as flags and Ps or Pc |
| FormatMeaning.PercentExample | src/io/fmtconv.c:97-106 | `%%d` becomes `%d` |
| FormatMeaning.WidthExample | src/io/fmtconv.c:212-231 | `%3Ps` stays as it is |
| FormatMeaning.SeparatorExample | src/io/fmtconv.c:122-141 | `%/Psalm` becomes `/salm` |
| JsonCompile.ReverseInPlace | src/json/json_compile.c:289-298 | the list is the reversal of the one given, in the same nodes |
| JsonCompile.StrToI | src/strint/strtoi.c:40-67 | space, sign and digits, or none without digits or outside int |
| JsonCompile.List | src/json/json_compile.c:191-221 | the loop over an index list reads what the grammar reads |
| JsonCompile.ParseStep | src/json/json_compile.c:53-286 | one turn of the switch reads one step of the grammar or fails with its error |
| JsonCompile.Compile | src/json/json_compile.c:38-299 | a list of fresh nodes holding the compiled steps in source order, or null with the error |
| JsonPathTexts.ReadNumber | src/strint/strtol.c:42-72 | space, sign and digits in front of anything but a digit are read as their value if it is an int, and refused if not |
| JsonPathTexts.NumberOf | src/strint/strtoi.c:40-67 | whatever is read as a number is space, sign and digits |
| JsonPathTexts.ReadOpen | src/json/json_compile.c:134-176 | a slice without a start means one from 0, with end 0 and step 1 where they are missing; `[:]` is refused |
| JsonPathTexts.ReadWriting | src/json/json_compile.c:53-286 | every way of writing a step is read as the step it means |
| JsonPathTexts.StepOf | src/json/json_compile.c:53-286 | whatever is read as a step is a way of writing one |
| JsonPathTexts.ReadAllWritings | src/json/json_compile.c:51-287 | a text made of writings is read as the steps they mean |
| JsonPathTexts.CompiledIff | src/json/json_compile.c:38-299 | a path compiles to these steps if and only if it is space, the root, and writings of the steps behind it |
| JsonPathTexts.FirstError | src/json/json_compile.c:51-287 | a path is refused for the first of its steps that cannot be read |
| JsonPathTexts.StepErrors | src/json/json_compile.c:55-58 | what a second root, a missing name, an open quote, a missing number and other characters are refused as |
| JsonPathMeaning.ReadIntText | src/strint/strtol.c:42-72 | reading a written integer in front of anything but a digit gives it back if it is an int, and fails if not |
| JsonPathMeaning.ReadStepText | src/json/json_compile.c:53-286 | reading the canonical text of any well-formed step gives the step and stops behind it |
| JsonPathMeaning.CompileText | src/json/json_compile.c:38-299 | compiling the canonical text of any well-formed list, with any space in front, gives Root and exactly that list |
| JsonPathMeaning.CompileTextIff | src/json/json_compile.c:38-299 | any list of steps is what its canonical text compiles to if and only if it is not empty and well-formed |
| JsonPathMeaning.TextIsCString | src/json/json_compile.c:38-40 | the canonical text is free of NUL, as a C path is, if and only if every name is |
| JsonPathMeaning.CompiledShape | src/json/json_compile.c:59-95 | every compiled path starts with its only Root, and each recursive descent is followed by a member, a wildcard member or another descent |
| JsonPathMeaning.CanonicalTextIff | src/json/json_compile.c:38-299 | compiling the canonical text of a compiled path gives the same steps if and only if no name is the remnant of an empty quoted one that does not fit a dot |
| JsonPathMeaning.QuotedNameIff | src/json/json_compile.c:118-133 | a name in quotes is read as that name if and only if it is not empty, not a star, and free of `']` |
| JsonPathMeaning.EmptyQuoteExample | src/json/json_compile.c:129-131 | `$['']` and `$[''].x` compile, with what stands behind the opening quote as the name |
| GetOpt.OptState.Init | src/init/initopt.c:36-53 | a state before the first element, or null without elements or without any options |
| GetOpt.FindLong | src/init/getopt.c:74-89 | the lookup with its temporary cut finds the first option of the name and leaves every character as it was |
| GetOpt.TakeLong | src/init/getopt.c:94-129 | the value of a long option in every form |
| GetOpt.TakeShort | src/init/getopt.c:167-221 | the value of a short option in every form |
| GetOpt.OptState.GetOpt | src/init/getopt.c:37-246 | one call returns and moves as the step says, and argv is unchanged |
| GetOpt.ParseAll | src/init/getopt.c:37-246 | calling until 0 or -1 yields exactly what the grammar gives for the command line, and argv is unchanged |
| GetOptSpec.CallAdvances | src/init/getopt.c:131-227 | each option found brings the place nearer to the end: elements left, then characters left |
| GetOptSpec.RunIsParse | src/init/getopt.c:50-245 | a run of calls from any place equals the recursive grammar of what is left there |
| GetOptMeaning.ParseWritten | src/init/getopt.c:50-245 | any sequence of uses in any documented form parses to exactly the options and arguments meant |
| GetOptMeaning.EachElementOnce | src/init/getopt.c:103-131 | in a complete run each element is used exactly once, in order, as options or as one argument |
| GetOptMeaning.ShortFormIff | src/init/getopt.c:167-221 | a short option gets the argument written for it if and only if the form suits its policy and what follows; attached arguments are free of equals signs |
| GetOptMeaning.ShortUseIff | src/init/getopt.c:167-227 | the same for a whole element with a cluster in front |
| GetOptMeaning.LongFormIff | src/init/getopt.c:94-129 | the same for the argument of a long option |
| GetOptMeaning.LongUseIff | src/init/getopt.c:59-131 | a long option in any form is found with the argument written if and only if its name has two characters or an equals sign follows, the form suits the policy, and what follows is not mistaken for an argument |
| GetOptRefusals.DeclaredPolicy | src/init/getopt.c:159-171 | an option string declares each of its options with the policy its colons say |
| GetOptRefusals.DeclaredOnly | src/init/getopt.c:159-162 | and no other character |
| GetOptRefusals.UnknownShort | src/init/getopt.c:159-162 | a short option that is not in the option string is refused, whatever follows, and the plain options in front of it are found |
| GetOptRefusals.MissingShort | src/init/getopt.c:176-193 | a short option without its required argument, or with an empty one behind an equals sign, is refused |
| GetOptRefusals.EmptyOptionalShort | src/init/getopt.c:196-212 | an empty optional argument behind an equals sign is none |
| GetOptRefusals.UnknownLong | src/init/getopt.c:79-92 | a long option that was not declared is refused, with and without a value |
| GetOptRefusals.NoLongOptions | src/init/getopt.c:65-67 | where no long options are configured, elements of two dashes are refused |
| GetOptRefusals.LongEquals | src/init/getopt.c:94-129 | the value behind the equals sign of a long option is ignored without an argument, and if empty refused where required and none where optional |
| GetOptRefusals.MissingLong | src/init/getopt.c:94-112 | a long option without its required argument is refused |
| GetOptRefusals.NoOption | src/init/getopt.c:135-153 | an element that is no option ends the run |
| GetOptRefusals.LongOfIs | src/init/getopt.c:229-241 | the long option reported with a short one is the first with its value |
| GetOptMeaning.AttachedEqualsExample | src/init/getopt.c:167-182 | an attached value with an equals sign loses what stands in front of the sign |

## Left out

- HashTables.HashTable.Put: requires that the entry it would write lies inside the array; the source does not check this.
- HashTables.HashTable.Add: the same, for the branch that appends.
- HashTables.HashTable.Remove: requires that the live entries fit after a shrink; the source does not check this.
- HashTables.HashTable.ShrinkIfSparse: the same, for the end of a remove.
- HashTables.HashTable.Run: requires a run in which both hold of each call.
- Buffers.Buffer.constructor: initial sizes of 0 and wide-character buffers are not modelled.
- GetOpt.OptState.GetOpt: requires that the element is not empty, and not `--` if there are long options; the source reads such elements beyond their end. `GetOpt.ParseAll` stops there.
- The default hash function and key comparisons (FarmHash, strcmp, memcmp): any lawful pair of callbacks is taken, fixed at creation, as are load factors and whether remove_entry is set.
- Null table, buffer and state arguments, allocation failure, and the single allocation behind entries and bucket heads.
- `(int)` conversions of load factor products beyond the int range, and totals of buffer sizes beyond int.
- The error record and its messages: outcomes are values.
- `buf_copy`, `buf_clear`, single characters, and negative lengths.
- The formatter behind `pcl_buf_vputf`: its output or its failure is an argument.
- The four integer widths of the buffer are one pair of methods with the width as an argument.
- Windows and wide-character branches of the format rewriter and the option parser.
- `pcl_getopt` after it has failed, values as places in argv (they are strings here), and option values of 0 or -1, which a caller cannot tell from the end.
- Option characters of 0x80 and above: where char is signed the source returns them as negative numbers, and 0xFF as -1.
- Overflow of long inside strtol: such numbers are outside int and refused all the same.
- The release of partial lists when the path compiler fails.
- Everything else in the library: matching and parsing of JSON, files, sockets, processes, events, cryptography, time.
