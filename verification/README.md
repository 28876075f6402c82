# Verified models of five PostgreSQL contrib modules

This project models the algorithms of intarray, hstore, bloom, amcheck and btree_gist (PostgreSQL 12.2) in
Dafny and proves what they promise. `dafny verify dfyconfig.toml` checks all of it.

Code that changes things step by step is modelled as it is: classes and arrays changed in place, loops with
invariants, each method tied to a specification whose properties are then proved as lemmas. Pure recursion
stays functional.

- **Boolean queries of intarray** (`QueryLexer`, `QueryGrammar`, `QueryWriting`, `QueryCompiler`, `QueryEval`,
  `QueryWideLinks`, `QueryPrint`): text, tokens, the shunting-yard compiler and its back links, the evaluator
  and its mode that does not trust NOT, GIN extraction, and the printer. A description of how queries are
  written and a grammar with expression trees are the independent reference: the compiler accepts exactly the
  texts that write a sentence within the stack limit, and compiled queries mean their trees exactly when their
  links fit.
- **Range keys and index keys of intarray** (`RangeKeys`, `RangeKeysOptimal`, `IntSets`, `IntGist`,
  `IntBigGist`): compression to 100 ranges in place and its optimality, decompression, merges, union keys,
  searches that never prune a match, page splits.
- **hstore** (`HStoreFormat`, `HStoreBuild`, `HStoreOps`, `HStorePairs`, `HStoreSearch`, `HStoreOrder`,
  `HStoreText`, `HStoreWriting`, `HStorePrint`, `HStoreRoundTrip`, `HStoreUpgrade`): the packed format as an encoding of sorted
  pairs, merges in memory against map algebra, cached binary search, the total order, the text parser
  against a description of how pairs are written, parser and printer as inverses, and the in-place format upgrade. `Bytes` is the byte order of memcmp.
- **bloom** (`BloomRandom`, `BloomSignature`, `BloomPage`, `BloomProtocol`, `BloomProgress`): the Park-Miller
  generator, row and search signatures, pages, and a state machine of inserters, VACUUM, cleanup and page
  recycling whose steps are the lock-protected sections: what every interleaving keeps, and what each process
  achieves.
- **amcheck** (`BtreeKeys`, `BtreeCheck`, `BtreeSound`, `BtreeAccept`): the readonly walk over a B-tree, what
  acceptance says about the whole tree, and that every sound index is accepted.
- **btree_gist** (`GistVarKeys`, `GistVarSplit`): ranges of byte strings with bounds cut to a prefix, what they
  stand for, and which searches and splits keep it.
- `Common` holds what several of them need.

Seven properties turned out not to hold on all inputs. The code is modelled as it is, with inputs on which
they fail and the exact condition under which they hold:

- compiled queries mean their text: `QueryWideLinks.CompiledMeaningIff`; fails for `WideQueries`, `WrappedQuery`
- the upgrade of an hstore value keeps its pairs: `HStoreUpgrade.Varlena.HStoreUpgrade`; fails for
  `MisjudgedExample`
- bloom's generator stays in range: `BloomRandom.DrawsInRange`, which names the two seeds
- searches find what a split side stood for: `GistVarSplit.SearchMissesIff`; fails for `SplitLosesExample`
- an accepted index is checked down to its leaves: `BtreeSound.ReachesLeavesIff`; fails for `LeaflessPasses`
- an accepted level is in order throughout: `BtreeSound.LevelIsSound`; fails for `EmptyPageHidesDisorder`
- decompression of a range key ends: `RangeKeys.CountingEndsIff`; fails for `TopOfRange`

The comments in the source say otherwise in the second and third case (hstore_compat.c lines 61-63, blutils.c
lines 231 and 246).

Parameters stand for what lies outside: check functions, hash functions, the set of heap TIDs to remove,
penalty and cost arithmetic, the result of qsort where its order among equals is open. Blocks of the bloom
protocol are taken atomically under their locks, and a write-ahead-logged change either happens or does not.

## Model

| member | source | states |
|---|---|---|
| QueryCompiler.WorkState.GetToken | postgresql-12.2/contrib/intarray/_int_bool.c:48-131 | the tokenizer's state machine returns the token, and leaves the position, that the lexical function assigns to the text there |
| QueryWriting.StreamIff | postgresql-12.2/contrib/intarray/_int_bool.c:48-131 | the tokens of a text up to its end are ts if and only if ts are in an order that can be read and the text writes them one after the other, with any number of spaces, none included, before each; a number is at most 15 characters, decimal or after a leading 0 octal, within an int32 |
| QueryWriting.SpellsIff | postgresql-12.2/contrib/intarray/_int_bool.c:48-131 | so a text spells an expression if and only if it writes its tokens and its end |
| QueryCompiler.WorkState.MakePolish | postgresql-12.2/contrib/intarray/_int_bool.c:153-224 | the shunting-yard recursion with its 16-slot operator array appends exactly the postfix, or raises exactly the error, of the token-stream specification |
| QueryGrammar.CompileIff | postgresql-12.2/contrib/intarray/_int_bool.c:153-224 | makepol accepts a text if and only if it spells an expression of the grammar (! over & over or, with parentheses) that never holds more than 16 pending operators on a level; the result is that expression's postfix; deeper expressions get the depth error |
| QueryWriting.CompileWrittenIff | postgresql-12.2/contrib/intarray/_int_bool.c:48-224 | the same from the characters on: makepol accepts exactly the texts that write such an expression, and gives its postfix |
| QueryCompiler.FindOprnd | postgresql-12.2/contrib/intarray/_int_bool.c:440-471 | consumes exactly one tree's postfix from the right, stores its back links and touches nothing else |
| QueryCompiler.BqarrIn | postgresql-12.2/contrib/intarray/_int_bool.c:477-543 | succeeds exactly on texts within the limits, with one root (the final position is -1) and the linked postfix of the text's tree; says which error otherwise |
| QueryCompiler.CompiledQueryMeansItsText | postgresql-12.2/contrib/intarray/_int_bool.c:266-295 | compiler correctness: executing the compiled array equals evaluating the tree of whatever expression the text spells, for every check function and both treatments of NOT, if there are at most 32768 items or the links fit |
| QueryWideLinks.MeaningIff | postgresql-12.2/contrib/intarray/_int_bool.c:266-295 | an array that holds a tree is well linked and means it, for every check function and both treatments of NOT, if and only if no right operand has more than 32767 items |
| QueryWideLinks.CompiledMeaningIff | postgresql-12.2/contrib/intarray/_int_bool.c:440-543 | compiler correctness with its exact condition: the same of what the parser returns for a text and of any expression that the text spells |
| QueryWideLinks.WideQueries | postgresql-12.2/contrib/intarray/_int_bool.c:477-543 | the failing texts exist: 1 & ( 0 \| ... \| 0 ) with n + 1 zeros is accepted with 2 n + 3 items, and its links fit if and only if n < 16384 |
| QueryWideLinks.WrappedQuery | postgresql-12.2/contrib/intarray/_int_bool.c:440-471 | a concrete failure: with 32769 zeros the link wraps around to a place inside the query, which is well linked but matches a row with 0 and without 1 |
| QueryEval.ExecuteIsEval | postgresql-12.2/contrib/intarray/_int_bool.c:266-295 | execute over the back-linked array equals direct evaluation of the tree it holds |
| QueryEval.LinksExactIff | postgresql-12.2/contrib/intarray/_int_bool.c:440-471 | the int16 links are the true distances if and only if no right operand has more than 32767 items |
| QueryEval.WideRightOperandEscapes | postgresql-12.2/contrib/intarray/_int_bool.c:440-471 | the failing family: a right operand of 32768 to 65535 items makes the stored link point out of the query |
| QueryEval.ApproximationKeepsMatches | postgresql-12.2/contrib/intarray/_int_bool.c:266-320 | evaluation that does not trust NOT, over any weaker test, is true whenever exact evaluation is |
| QueryEval.RequiredValueIsPresent | postgresql-12.2/contrib/intarray/_int_bool.c:364-405 | if contains_required_value holds, a match has some query value whose check is true |
| QueryEval.RequiredIff | postgresql-12.2/contrib/intarray/_int_bool.c:364-405 | contains_required_value holds exactly if evaluation without trust in NOT says no when every value is absent |
| QueryEval.SameWithoutNot | postgresql-12.2/contrib/intarray/_int_bool.c:266-295 | without NOT in the query both treatments of NOT agree |
| QueryEval.QueryExtract | postgresql-12.2/contrib/intarray/_int_gin.c:23-57 | the extracted entries are the query's values in array order |
| QueryEval.GinBoolConsistent | postgresql-12.2/contrib/intarray/_int_bool.c:336-362 | maps check bits from extraction order to item positions and evaluates exactly |
| QueryEval.GinIsExact | postgresql-12.2/contrib/intarray/_int_bool.c:336-438 | with check bits that say which entries a row has, the GIN answer equals boolop on the row |
| QueryEval.CheckConditionArr | postgresql-12.2/contrib/intarray/_int_bool.c:235-252 | the binary search finds a value exactly if the sorted array has it |
| QueryPrint.Infix.Write | postgresql-12.2/contrib/intarray/_int_bool.c:564-636 | the printer's recursion over the array writes the text of the tree at its position and moves past it |
| QueryPrint.PrintIsSpaced | postgresql-12.2/contrib/intarray/_int_bool.c:564-636 | that text is the tokens of the re-associated expression with one space between neighbours and none after !, parentheses only where precedence needs them |
| QueryPrint.PrintThenReparse | postgresql-12.2/contrib/intarray/_int_bool.c:564-660 | print then reparse: the printed text compiles with at most 3 pending operators per level to the tree re-associated along &, which has the same value under every test and prints as the same text |
| QueryPrint.AcceptedQueryReparses | postgresql-12.2/contrib/intarray/_int_bool.c:564-660 | hence what is printed for an accepted text is accepted, and compiles to the re-associated tree, which has the same value under every test |
| QueryPrint.Reread | postgresql-12.2/contrib/intarray/_int_bool.c:477-660 | end to end: bqarr_in, bqarr_out and bqarr_in again give an array of as many items, never an error, and if the first array's links fit, both arrays execute alike for every value test and both treatments of NOT |
| QueryPrint.NormalFits | postgresql-12.2/contrib/intarray/_int_bool.c:564-660 | re-association along & keeps the number of items and keeps links that fit |
| QueryLexer.PrintedNumberToken | postgresql-12.2/contrib/intarray/_int_bool.c:60-90 | a printed int32 is read back as that value |
| RangeKeys.MergeRuns | postgresql-12.2/contrib/intarray/_int_gist.c:199-233 | first phase, in place from the right: runs of consecutive integers become ranges until 100 ranges are left, and the result moves to the front |
| RangeKeys.CloseGaps | postgresql-12.2/contrib/intarray/_int_gist.c:235-263 | second phase, in place: the first narrowest gap is closed until exactly 100 ranges are left, none of the closed gaps wider than any kept one |
| RangeKeys.GIntCompress | postgresql-12.2/contrib/intarray/_int_gist.c:155-273 | an internal key of 200 or more integers becomes exactly 100 ranges cut from the key with that gap property, or the error when they stand for too many integers; smaller keys stay |
| RangeKeysOptimal.NoSmallerCover | postgresql-12.2/contrib/intarray/_int_gist.c:199-266 | hence no cover of the key by 100 ranges, in any order or overlap, contains fewer integers |
| RangeKeysOptimal.RangesCover | postgresql-12.2/contrib/intarray/_int_gist.c:199-266 | the ranges contain every element of the key |
| RangeKeys.InternalSize | postgresql-12.2/contrib/intarray/_int_tool.c:291-307 | for any array of ranges, the sum of their lengths except for those that begin where the one before them ends, or -1 when it does not fit an int; the total when the ranges are disjoint and in order |
| RangeKeys.CountedExactIff | postgresql-12.2/contrib/intarray/_int_tool.c:291-307 | on ordered ranges that may share end points, that sum is the number of integers they stand for if and only if every range that begins where the one before it ends is a single number, and never more |
| RangeKeys.TotalIsSize | postgresql-12.2/contrib/intarray/_int_tool.c:291-307 | on disjoint ranges the total is the cardinality of the set the ranges stand for |
| RangeKeys.GIntDecompress | postgresql-12.2/contrib/intarray/_int_gist.c:276-341 | spells out exactly the set of the ranges, strictly increasing, in as many elements as internal_size says, or the error; no result if the last range goes up to INT_MAX |
| RangeKeys.CountingEndsIff | postgresql-12.2/contrib/intarray/_int_gist.c:330-333 | the expansion loop over a range ends if and only if the range ends below INT_MAX, with ints that wrap around (configure.in:502) |
| RangeKeys.TopOfRange | postgresql-12.2/contrib/intarray/_int_gist.c:199-333 | keys for which it does not end come up: the 200 integers up to INT_MAX pass compression's sparseness test, and however they are cut the last range goes up to INT_MAX |
| IntSets.IntUnique | postgresql-12.2/contrib/intarray/_int_tool.c:309-329 | in-place removal of repetitions from a sorted array: strictly increasing, same set |
| IntSets.InnerIntContains | postgresql-12.2/contrib/intarray/_int_tool.c:14-47 | the merge decides set inclusion |
| IntSets.InnerIntOverlap | postgresql-12.2/contrib/intarray/_int_tool.c:49-76 | the merge decides whether the sets meet |
| IntSets.InnerIntUnion | postgresql-12.2/contrib/intarray/_int_tool.c:78-133 | merge and removal of repetitions yield the union of sorted arrays, repetitions of their own included, strictly increasing |
| IntGist.GIntConsistent | postgresql-12.2/contrib/intarray/_int_gist.c:44-110 | the search test of every strategy, leaf and internal, as a statement about sets |
| IntGist.GIntUnion | postgresql-12.2/contrib/intarray/_int_gist.c:114-149 | a strictly increasing key with exactly the union of the entries |
| IntGist.ParentKey | postgresql-12.2/contrib/intarray/_int_gist.c:114-341 | union, compression and decompression: the union itself below 200 elements, otherwise all integers of its 100 ranges, or the sparseness error, or no result when the union of 200 or more contains INT_MAX |
| IntGist.ParentContains | postgresql-12.2/contrib/intarray/_int_gist.c:114-341 | a key so made contains every entry |
| IntGist.OriginContains | postgresql-12.2/contrib/intarray/_int_gist.c:114-341 | so do keys made of keys so made, as entries are adjusted over time |
| IntGist.SearchFindsMatches | postgresql-12.2/contrib/intarray/_int_gist.c:44-341 | in a tree whose keys come about by union, compression and decompression, no search for &&, @>, =, <@ or @@ prunes a key above a matching row, and the row itself passes |
| IntGist.LeafExact | postgresql-12.2/contrib/intarray/_int_gist.c:44-110 | on leaves the test is the operator for every strategy, NOT included, as an index without recheck needs |
| IntGist.InnerExact | postgresql-12.2/contrib/intarray/_int_gist.c:44-110 | on inner keys it prunes all it can: a key is consistent if and only if some row within it matches, for queries without NOT |
| IntGist.GIntPickSplit | postgresql-12.2/contrib/intarray/_int_gist.c:425-607 | for any cost arithmetic and any order of the cost vector: every offset on exactly one side, no side empty, each datum exactly the union of its side's keys |
| IntBigGist.GenSign | postgresql-12.2/contrib/intarray/_int_tool.c:331-343 | a bit is set exactly if some element hashes to it |
| IntBigGist.GIntBigUnion | postgresql-12.2/contrib/intarray/_intbig_gist.c:231-274 | the union has exactly the bits of the entries, and is the all-true key exactly if one of them is |
| IntBigGist.CompressInner | postgresql-12.2/contrib/intarray/_intbig_gist.c:158-184 | a key with all bits set becomes the all-true key, any other stays as it is |
| IntBigGist.BigOriginCovers | postgresql-12.2/contrib/intarray/_intbig_gist.c:117-274 | keys made by unions and compression, and of keys so made, cover whatever has gone into them |
| IntBigGist.GIntBigConsistent | postgresql-12.2/contrib/intarray/_intbig_gist.c:467-583 | the search test of every strategy as a statement about bits |
| IntBigGist.BigSearchFindsMatches | postgresql-12.2/contrib/intarray/_intbig_gist.c:117-583 | in a tree whose keys come about by union and compression, no search prunes a signature above a matching row |
| IntBigGist.BigExact | postgresql-12.2/contrib/intarray/_intbig_gist.c:467-583 | a signature is consistent if and only if some row matches that has this signature, on a leaf, or no bit outside it, on an inner key; for queries without NOT |
| IntBigGist.GIntBigPickSplit | postgresql-12.2/contrib/intarray/_intbig_gist.c:303-464 | for any cost arithmetic: a partition without an empty side, each datum with exactly the bits of its side's keys, all-true conversions included; the same code as in hstore_gist.c:331-493 |
| HStoreFormat.PackRoundTrip | postgresql-12.2/contrib/hstore/hstore_io.c:371-402 | packing pairs and reading them back gives exactly those pairs, nulls and empty strings included |
| HStoreFormat.UnpackRoundTrip | postgresql-12.2/contrib/hstore/hstore.h:27-73 | every well-formed value is the packing of its pairs: the layout leaves no freedom |
| HStoreFormat.CanonicalUnique | postgresql-12.2/contrib/hstore/hstore.h:8-73 | canonical values with the same content are the same byte for byte |
| HStoreBuild.Builder.CopyItem | postgresql-12.2/contrib/hstore/hstore.h:91-106 | in memory, one source pair more, within the allocation |
| HStoreBuild.Builder.AddItem | postgresql-12.2/contrib/hstore/hstore.h:108-126 | in memory, one given pair more, within the allocation |
| HStoreBuild.Builder.Finalize | postgresql-12.2/contrib/hstore/hstore.h:128-140 | the overlapping memmove that closes the strings up to fewer entries leaves exactly the packing of the pairs |
| HStoreOps.HStoreConcat | postgresql-12.2/contrib/hstore/hstore_op.c:472-567 | the merge is the right-biased union of the maps, canonical again, and never outgrows the allocation |
| HStoreOps.HStoreDelete | postgresql-12.2/contrib/hstore/hstore_op.c:246-290 | the map without one key, canonical again |
| HStoreOps.HStoreDeleteArray | postgresql-12.2/contrib/hstore/hstore_op.c:293-369 | the map without the non-null keys of the array, canonical again |
| HStoreOps.HStoreDeleteHStore | postgresql-12.2/contrib/hstore/hstore_op.c:372-469 | the map without the pairs both have, null values included, canonical again |
| HStorePairs.ComparePairsOrders | postgresql-12.2/contrib/hstore/hstore_io.c:281-303 | comparePairs is antisymmetric and transitive, as qsort needs |
| Bytes.KeyLessIff | postgresql-12.2/contrib/hstore/hstore_io.c:281-303 | shorter keys come first; among keys of one length the first differing byte decides |
| HStorePairs.HStoreUniquePairs | postgresql-12.2/contrib/hstore/hstore_io.c:305-349 | in place: keys strictly increasing, same key set, every pair taken from the input, owned pairs only where all were, exact byte count |
| HStorePairs.HStoreFromPairs | postgresql-12.2/contrib/hstore/hstore_io.c:371-402 | packs the pairs into an allocation of exactly that byte count |
| HStorePairs.HStoreArrayToPairs | postgresql-12.2/contrib/hstore/hstore_op.c:73-127 | the distinct non-null keys of a text array in increasing order |
| HStoreSearch.FindKey | postgresql-12.2/contrib/hstore/hstore_op.c:36-71 | finds a key exactly if it is present from the bound on; the new bound splits keys not above it from keys above it |
| HStoreSearch.FindNext | postgresql-12.2/contrib/hstore/hstore_op.c:30-71 | over a strictly increasing series the carried bound hides nothing: each answer is exact for the whole map |
| HStoreSearch.HStoreContains | postgresql-12.2/contrib/hstore/hstore_op.c:966-1011 | true exactly if every pair of the template, null values included, is a pair of the value |
| HStoreSearch.HStoreExistsAny | postgresql-12.2/contrib/hstore/hstore_op.c:163-194 | true exactly if the array and the map share a key |
| HStoreSearch.HStoreExistsAll | postgresql-12.2/contrib/hstore/hstore_op.c:197-228 | true exactly if the map has all keys of the array |
| HStoreSearch.HStoreSlice | postgresql-12.2/contrib/hstore/hstore_op.c:633-692 | the map restricted to the keys of the array, canonical |
| HStoreOrder.HStoreCmp | postgresql-12.2/contrib/hstore/hstore_op.c:1080-1164 | the comparison loop computes the lexicographic order on emptiness, string, count and entries |
| HStoreOrder.OrderIff | postgresql-12.2/contrib/hstore/hstore_op.c:1080-1164 | the order spelled out: empty values first, then the first differing byte of the strings, a prefix first, then fewer pairs, then the first differing entry, null above an empty string |
| HStoreOrder.OrderZero | postgresql-12.2/contrib/hstore/hstore_op.c:1080-1164 | hstore_cmp is 0 exactly on values equal byte for byte, hence, for canonical values, exactly on equal maps |
| HStoreOrder.OrderAnti | postgresql-12.2/contrib/hstore/hstore_op.c:1080-1164 | it is antisymmetric |
| HStoreOrder.OrderTrans | postgresql-12.2/contrib/hstore/hstore_op.c:1080-1164 | it is transitive |
| HStoreText.Parser.GetVal | postgresql-12.2/contrib/hstore/hstore_io.c:60-160 | the word state machine delivers what the syntax of words, quoted or bare, has there, and never reads past the end of the string |
| HStoreText.Parser.ParseHStore | postgresql-12.2/contrib/hstore/hstore_io.c:169-279 | the pair state machine delivers the pairs, or the error with its position, that the syntax assigns to the text |
| HStoreWriting.ParsedIff | postgresql-12.2/contrib/hstore/hstore_io.c:60-279 | the parser delivers pairs if and only if the text writes exactly these: keys and values between quotes or bare, with escapes, `=>` and commas between them, perhaps a last comma, and white space anywhere; a value is null if and only if it is bare and one of the 16 spellings of null |
| HStorePrint.HStoreOut | postgresql-12.2/contrib/hstore/hstore_io.c:1139-1220 | writes exactly the text of the pairs, every byte within the buffer computed for it |
| HStorePrint.EscapedBy | postgresql-12.2/contrib/hstore/hstore_io.c:1138-1152 | every byte is printed as itself, with one backslash more before a quote or a backslash and before no other byte |
| HStoreRoundTrip.HStoreIn | postgresql-12.2/contrib/hstore/hstore_io.c:404-424 | succeeds exactly on texts that write pairs, and then is a canonical value with every key written, each with one of the values written for it; otherwise the error of the text |
| HStoreRoundTrip.ReadBack | postgresql-12.2/contrib/hstore/hstore_io.c:60-402 | whatever hstore_in may make of a printed canonical value is that value: a quoted NULL stays a string, a bare one a null |
| HStoreRoundTrip.OutThenIn | postgresql-12.2/contrib/hstore/hstore_io.c:404-424 | hstore_out followed by hstore_in is the identity on canonical values without zero bytes |
| HStoreUpgrade.ValidOldFormat | postgresql-12.2/contrib/hstore/hstore_compat.c:164-229 | accepts exactly the contiguous values with nondecreasing key lengths that fit their size |
| HStoreUpgrade.ValidNewFormat | postgresql-12.2/contrib/hstore/hstore_compat.c:114-161 | accepts exactly what its loops test, which leaves out the first key's null flag and the length of null values |
| HStoreUpgrade.OldFormAccepted | postgresql-12.2/contrib/hstore/hstore_compat.c:164-229 | the cells written for any sorted pairs are accepted as old and read as those pairs |
| HStoreUpgrade.AcceptedWasWritten | postgresql-12.2/contrib/hstore/hstore_compat.c:164-229 | and what is accepted as old is the cells of the pairs it reads as, with key lengths that do not decrease |
| HStoreUpgrade.NewFormIff | postgresql-12.2/contrib/hstore/hstore_compat.c:114-161 | what the test for the new format accepts, with its nulls in order, is exactly what is well formed, has key lengths that do not decrease, and fits |
| HStoreUpgrade.RewriteEntries | postgresql-12.2/contrib/hstore/hstore_compat.c:319-337 | the in-place loop, overwriting the entries it reads, rewrites every entry from its old words |
| HStoreUpgrade.RewritePreserves | postgresql-12.2/contrib/hstore/hstore_compat.c:319-337 | the rewritten value is the packing of the old pairs: same keys, values and nulls in the same order |
| HStoreUpgrade.Varlena.HStoreUpgrade | postgresql-12.2/contrib/hstore/hstore_compat.c:232-344 | every branch of the upgrade; a non-empty accepted old value keeps its pairs if and only if it is not short with a first pair that is a null whose unused length is 32768 or more, and then becomes well formed with its exact size |
| HStoreUpgrade.ShortcutMisjudges | postgresql-12.2/contrib/hstore/hstore_compat.c:239-253 | those are exactly the old values that the shortcut takes for new ones |
| HStoreUpgrade.TakenLosesPairs | postgresql-12.2/contrib/hstore/hstore_compat.c:239-253 | and whatever it takes has other pairs afterwards: the first value is no longer null |
| HStoreUpgrade.MisjudgedExample | postgresql-12.2/contrib/hstore/hstore_compat.c:239-253 | such a value: "a" => NULL is read as "a" => "" |
| BloomRandom.Generator.MyRand | postgresql-12.2/contrib/bloom/blutils.c:215-240 | from any int32 state, one exact step of 16807 * next mod 2^31-1 by the hi/lo split, no int32 overflow |
| BloomRandom.SeedRange | postgresql-12.2/contrib/bloom/blutils.c:242-249 | mySrand's comment holds exactly for seeds below 2^31 and 0x80000002, and exactly two seeds give the state 0 |
| BloomRandom.DrawsInRange | postgresql-12.2/contrib/bloom/blutils.c:215-249 | every draw is in [0, 2^31-3] exactly if the seed is neither 0xffffffff nor 0x80000001; after those every draw is -1 |
| BloomRandom.PowerForm | postgresql-12.2/contrib/bloom/blutils.c:215-240 | the state after k draws in closed form |
| BloomSignature.SignValue | postgresql-12.2/contrib/bloom/blutils.c:254-282 | adds exactly the bits its draws hit |
| BloomSignature.BloomFormTuple | postgresql-12.2/contrib/bloom/blutils.c:286-305 | the signature has exactly the bits of the row's values; nulls add none |
| BloomSignature.PassesIff | postgresql-12.2/contrib/bloom/blscan.c:141-150 | the word-wise test is inclusion of bits |
| BloomSignature.MatchingRowPasses | postgresql-12.2/contrib/bloom/blscan.c:91-150 | a row with the keys' values passes, for any hash, signature length and number of keys |
| BloomSignature.BlGetBitmap | postgresql-12.2/contrib/bloom/blscan.c:81-172 | nothing for a null key, otherwise exactly the tuples of live pages that pass, in order |
| BloomSignature.NoFalseNegatives | postgresql-12.2/contrib/bloom/blscan.c:81-172 | hence the scan returns every indexed row that has the keys' values |
| BloomSignature.FoundIff | postgresql-12.2/contrib/bloom/blscan.c:130-165 | a pointer is returned if and only if some tuple that has all bits of the search carries it |
| BloomSignature.SeedsDiffer | postgresql-12.2/contrib/bloom/blutils.c:254-282 | within a column, values have the same seed exactly if they have the same hash value |
| BloomPage.Page.AddItem | postgresql-12.2/contrib/bloom/blutils.c:311-344 | appends exactly while there is room, never past the page |
| BloomPage.Page.Compact | postgresql-12.2/contrib/bloom/blvacuum.c:79-143 | the two-pointer compaction leaves exactly the surviving tuples in order, the right count, pd_lower and deleted flag |
| BloomPage.SurvivorsAre | postgresql-12.2/contrib/bloom/blvacuum.c:79-112 | the survivors are the tuples not dead, as often as they were there |
| BloomPage.BlBuild | postgresql-12.2/contrib/bloom/blinsert.c:47-161 | the pages hold the heap scan's tuples in order, none is empty, only the last may have room |
| BloomProtocol.RunInv | postgresql-12.2/contrib/bloom/blinsert.c:196-366 | every interleaving of inserts, VACUUM passes and page recycling keeps the invariant |
| BloomProtocol.NothingLost | postgresql-12.2/contrib/bloom/blinsert.c:196-366 | in every block every entry occurs as often as at the start plus its insertions there less its removals there: none is lost, duplicated or moved |
| BloomProtocol.InsertedOnce | postgresql-12.2/contrib/bloom/blinsert.c:196-366 | every row started is in the log of insertions once or still carried by its process |
| BloomProtocol.RemovesOnlyDead | postgresql-12.2/contrib/bloom/blvacuum.c:57-143 | only entries that the VACUUM taking the step wants gone are removed |
| BloomProtocol.VacuumRemovesAll | postgresql-12.2/contrib/bloom/blvacuum.c:57-158 | when a pass has scanned all blocks, every wanted entry left was inserted since it began |
| BloomProtocol.ListStaysValid | postgresql-12.2/contrib/bloom/blvacuum.c:145-158 | nStart <= nEnd <= BloomMetaBlockN, listed blocks are initialised data blocks, and deleted or new blocks hold nothing |
| BloomProtocol.AllocatedInv | postgresql-12.2/contrib/bloom/blutils.c:346-395 | re-initialising a block from BloomNewBuffer drops nothing |
| BloomProtocol.VacuumPageInv | postgresql-12.2/contrib/bloom/blvacuum.c:57-143 | VACUUM's visit to a block keeps the invariant |
| BloomProgress.InsertionRun | postgresql-12.2/contrib/bloom/blinsert.c:196-366 | an inserter that moves alone ends within a stated number of steps, however it takes them: under way it has changed no block and no entry, and at its end there is exactly one entry more, in the first listed block with room, or else in a free block that is unused, or else in a new last block |
| BloomProgress.InsertionCompletes | postgresql-12.2/contrib/bloom/blinsert.c:196-366 | from any state that satisfies the invariant with the metapage free, an idle process can insert any tuple so; the block then heads the list |
| BloomProgress.VacuumLists | postgresql-12.2/contrib/bloom/blvacuum.c:57-158 | a VACUUM that runs alone cleans every block and writes as the list exactly the increasing list of the blocks that hold tuples and have room for one more, the first 2004 of them |
| BloomProgress.CleanupFinds | postgresql-12.2/contrib/bloom/blvacuum.c:168-216 | a cleanup adds exactly the new and deleted blocks to the free space map |
| BtreeKeys.TestsMean | postgresql-12.2/contrib/amcheck/verify_nbtree.c:2154-2319 | the invariant tests decide the strict and weak order on keys with minus infinity for what is missing |
| BtreeKeys.PadTrans | postgresql-12.2/src/backend/access/nbtree/nbtsearch.c:559-720 | that order is transitive |
| BtreeKeys.PadEqual | postgresql-12.2/src/backend/access/nbtree/nbtsearch.c:559-720 | and total: only equal keys compare as 0 |
| BtreeKeys.LessIff | postgresql-12.2/src/backend/access/nbtree/nbtsearch.c:559-720 | the order spelled out: the first differing attribute decides, a key that ends first is below, then the heap TID, a missing one below any |
| BtreeCheck.DownlinkCheck | postgresql-12.2/contrib/amcheck/verify_nbtree.c:1508-1647 | passes exactly if the child can be read and all its real items are above the downlink's key |
| BtreeCheck.TargetPageCheck | postgresql-12.2/contrib/amcheck/verify_nbtree.c:871-1283 | passes exactly if every item meets the attribute, high key, order, cross-page and downlink conditions |
| BtreeCheck.NoRevisit | postgresql-12.2/contrib/amcheck/verify_nbtree.c:765-829 | sibling agreement makes every block of a walk new |
| BtreeCheck.WalkBound | postgresql-12.2/contrib/amcheck/verify_nbtree.c:649-835 | so a walk visits at most as many blocks as there are |
| BtreeCheck.CheckLevelFromLeftmost | postgresql-12.2/contrib/amcheck/verify_nbtree.c:649-835 | always ends, accepts exactly if the right links run through pages that pass all checks, and returns the level below |
| BtreeCheck.CheckEveryLevel | postgresql-12.2/contrib/amcheck/verify_nbtree.c:385-551 | always ends, and finds no error exactly if every level passes |
| BtreeAccept.PageIff | postgresql-12.2/contrib/amcheck/verify_nbtree.c:871-1283 | where items are complete, a page passes the checks if and only if its real keys are at most (leaf) or below (internal) the high key, strictly increasing, below the first real key to the right, and its children are readable and above their downlinks |
| BtreeAccept.AcceptedIff | postgresql-12.2/contrib/amcheck/verify_nbtree.c:385-551 | so no error is found in an index if and only if it is sound: from the root down, levels linked both ways of readable pages of that kind at the right level, each beginning at the first child of the one above |
| BtreeSound.LevelIsSound | postgresql-12.2/contrib/amcheck/verify_nbtree.c:649-1283 | an accepted level is acyclic, left links inverse to right links, at the expected level, within its high keys, its children above its downlinks, each page in order; its real items increase strictly across all pages if and only if each page that has some ends below the first of the next page that has some, as they do when no page is empty |
| BtreeSound.AcceptedTreeIsSound | postgresql-12.2/contrib/amcheck/verify_nbtree.c:526-551 | so is every level of an accepted tree, each one level below the other and beginning at the first downlink of the leftmost page above; after the last there is none to follow |
| BtreeSound.ReachesLeavesIff | postgresql-12.2/contrib/amcheck/verify_nbtree.c:526-551 | the levels go down to the leaves if and only if the first downlinks from the root on lead to a leaf without passing block 0, that is unless the last level's leftmost page is internal with a first downlink to block 0 |
| BtreeSound.LeaflessPasses | postgresql-12.2/contrib/amcheck/verify_nbtree.c:526-551 | an index without any leaf is accepted: a root at level 1 whose only item points to block 0 |
| BtreeSound.EmptyPageHidesDisorder | postgresql-12.2/contrib/amcheck/verify_nbtree.c:1466-1490 | why every page needs a real item for the order: 5, nothing, 1 is accepted |
| GistVarKeys.NodeCpLen | postgresql-12.2/contrib/btree_gist/btree_utils_var.c:121-163 | the loop computes the length of the longest common prefix |
| GistVarKeys.VarUnion | postgresql-12.2/contrib/btree_gist/btree_utils_var.c:234-359 | the key made is the hull of the entries, cut to two bytes past the common prefix |
| GistVarKeys.UnionCovers | postgresql-12.2/contrib/btree_gist/btree_utils_var.c:323-359 | the truncated union covers whatever any of its inputs covers |
| GistVarKeys.UnionIs | postgresql-12.2/contrib/btree_gist/btree_utils_var.c:234-359 | the union in full: the smallest lower and the greatest upper bound of the entries, each cut to two bytes more than they have in common |
| GistVarKeys.NeverPrunes | postgresql-12.2/contrib/btree_gist/btree_utils_var.c:555-614 | for all six strategies a non-leaf key that covers a value satisfying the operator is consistent |
| GistVarKeys.PrunesIff | postgresql-12.2/contrib/btree_gist/btree_utils_var.c:555-614 | which searches skip a non-leaf key: those for values below its lower bound, or above its upper bound that continue neither bound, and for <> the value that is both bounds |
| GistVarKeys.LeafExact | postgresql-12.2/contrib/btree_gist/btree_utils_var.c:555-614 | on a leaf key the test is the operator |
| GistVarKeys.OriginCovers | postgresql-12.2/contrib/btree_gist/btree_utils_var.c:323-359 | nested unions, as entries are adjusted over time, lose nothing either |
| GistVarKeys.Search | postgresql-12.2/contrib/btree_gist/btree_utils_var.c:555-614 | a search of a tree with keys so made finds exactly the values that satisfy the operator |
| GistVarSplit.VarPickSplit | postgresql-12.2/contrib/btree_gist/btree_utils_var.c:459-549 | every offset on exactly one side, neither empty, each side's hull cut to one shared length |
| GistVarSplit.SearchMissesIff | postgresql-12.2/contrib/btree_gist/btree_utils_var.c:525-614 | through a side's key some search skips a satisfying value that the side's keys stood for if and only if the side has a key with an open upper bound that the cut upper bound extends by a byte below 255, and the cut lower bound is no prefix of the cut upper bound |
| GistVarSplit.SplitLosesIff | postgresql-12.2/contrib/btree_gist/btree_utils_var.c:525-546 | without the last condition: exactly when the side's key stands for less than its keys did, whether or not a search can tell |
| GistVarSplit.SplitLosesExample | postgresql-12.2/contrib/btree_gist/btree_utils_var.c:525-614 | such a split: a search for "cbz" skips the left half, which stood for it, while the union of the same entries keeps it |
| GistVarSplit.HullInOrder | postgresql-12.2/contrib/btree_gist/btree_utils_var.c:205-227 | unions and cuts of keys in order are in order, as the theorem on splits assumes of them |

## Left out

- QueryLexer.Strtol: a sign without digits leaves the text unread, as in glibc; hexadecimal spellings are not
  modelled, and letters end a number in any case.
- QueryCompiler.CompiledQueryMeansItsText: assumes at most 32768 items, or right operands that fit the 16-bit
  link; `QueryWideLinks.CompiledMeaningIff` shows that exactly then it holds.
- QueryPrint.Reread: that the two arrays execute alike is stated for links that fit; where they do not, the
  first array does not mean its text in the first place.
- RangeKeys.GIntCompress: leaf arrays of 200 elements or more, which only raise a notice, are not range keys;
  only internal keys are compressed.
- RangeKeys.GIntDecompress: keys of 200 or more numbers are disjoint ranges in order, as compression makes them;
  what the loop that does not end would do to memory is not modelled.
- IntGist.SearchFindsMatches: rows of fewer than 200 elements, for the same reason as above.
- IntGist.GIntPickSplit: says how the split partitions and what the data are, not that it is balanced; floating-point
  penalties are parameters.
- HStoreFormat.PackRoundTrip: positions are unbounded numbers; the 30-bit position field and the limits of
  palloc are not modelled, except for the length checks of the parser.
- HStorePairs.Qsort: stands for the library's sort; everything that uses it relies only on its contract, a
  sorted permutation.
- HStoreRoundTrip.OutThenIn: values without zero bytes, which a C string cannot hold, and within the 30-bit
  length limit; isspace and case folding are those of the C locale.
- HStorePrint.HStoreOut: the buffer length is not bounded by int32, so very large values, which the source
  cannot print, are not told apart.
- HStoreUpgrade.Varlena.HStoreUpgrade: a little-endian machine; the ambiguous case is resolved as in the build
  for contrib/hstore, so values of the prerelease format that are also valid old ones are read as old.
- BloomSignature.SignValue: for a generator state of 0 the shift by -1 has no defined result; a parameter
  stands for the word that is then ORed in.
- BloomProgress.InsertionRun: the process moves alone and no other lock is in its way; fairness among several
  is not modelled.
- BloomProtocol.RunInv: no crashes, no errors in the middle of a step, and no readers, which change nothing.
- IntBigGist.GIntBigPickSplit: at the signature length of intarray; hstore's split is the same code at its own
  length.
- BtreeAccept.AcceptedIff: for indexes whose items all have the attributes and heap TIDs they should have, also
  on pages that only downlinks lead to; without that, `BtreeSound` says what acceptance implies.
- IntGist.InnerExact: for queries with NOT an inner key may be searched in vain, since NOT is not trusted there;
  the same holds of `IntBigGist.BigExact`, and of keys with the all-true flag.
- BtreeCheck.CheckEveryLevel: says when an error is raised, not which one comes first. There are no deleted or
  half-dead pages, which the walk passes over; version 4 indexes only, no INCLUDE columns; line pointers, tuple
  sizes and page headers are taken to be sane.
- GistVarKeys.UnionCovers: bytea keys; text in multibyte encodings and the bit type are not modelled.
- GistVarKeys.Search: keys made by unions from those below; keys made by page splits are the subject of
  `GistVarSplit.SearchMissesIff`.
- Not modelled at all: bloom's metapage options and statistics, the Bloom filter, heap scan and root descent
  of amcheck, its checks without a lock, hstore's conversions to arrays, records and JSON, its hash function
  and its GiST and GIN opclasses apart from page splits, intarray's other set functions and selectivity
  estimates, cube, and the per-type files of btree_gist.
- Memory management, TOAST, varlena headers, stack depth and interrupts.
