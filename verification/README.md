# Verified model of the adventure database

A Dafny model of the hardest parts of the repository, with the properties its comments, headers and
tests promise. `dafny verify dfyconfig.toml` checks everything. Code that changes things in place is
modelled by classes, arrays and loops, and each such method is proved against a function on values;
the lemmas are about those functions and hold for every input and every run.

**Page store and copy-on-write B+tree** (`Words`, `Store`, `StoreRuns`, `Pages`, `PageOps`, `Steps`,
`BTreeModel`, `BTree`, `Placement`, `BTreeAdd`, `BTreeApi`, `Forest`, `Versions`). The store is one
growable sequence of bytes with a stored allocation mark and a last-in first-out free list. Four
layers connect bytes to maps: the bytes of a page are a packed header and a row of big-endian words;
the words are the columns of a leaf or branch; the pages of a tree, found by their addresses, are a
tree value; a tree value denotes a finite map. An edit is described by the pages it gave up, took and
wrote (`Step`), which is enough to show that a page freed and handed out again within one call never
damages a live one. `Forest.Run` is the whole-run theorem for any number of trees on one store, and
`Versions.History` the copy-on-write promise over the append-only allocator in the closing comment of
store.c. `reuse` chooses between the two allocators.

**The jsmn tokenizer** (`JsmnModel`, `Jsmn`, `JsmnRuns`, `JsmnChars`, `JsmnTree`, `JsmnText`, `JsmnCodes`,
`JsmnCounts`, `JsmnBuilds`, `JsmnStray`, `JsmnPrefix`, `JsmnSpans`, `JsmnJson`). `Jsmn` is the C code over a
parser object and a token array; `JsmnModel` is its step machine. The machine is shown to be a parser with
a stack although it only looks at the flat array, so that its accepted texts and their token arrays, and
the error of every other text, are known exactly; `JsmnChars` writes the tokens with their own characters.
`links` stands for the compile-time switch JSMN_PARENT_LINKS.

**sds quoting and splitting** (`SdsQuote`, `SdsGrammar`, `SdsSplit`, `Sds`). The printer and the scanner as
functions with their round trip, what is printed and which lines are split in bytes, the splitter and
joiner with the exact condition under which each undoes the other, and the buffer, slot-array and pointer
loops that compute them.

**List, hash map and trie** (`LinkedList`, `HashModel`, `HashMap`, `TrieModel`, `TrieOrder`,
`PrefixTrie`, `Footprints`, `Sequences`). Linked objects on the heap, proved to be a list, a table of stacks
(one per key) and a tree of prefixes.

Where the code and its description differ, the model follows the code:

- The leaf and branch splits need a page of at least three keys, as the note at btree.c:8 hints;
  `BTreeModel.LeafSplitNeedsThree` and `BTreeModel.BranchSplitNeedsThree` make the limit exact.
- The build of jsmn with parent links does not refuse a stray closing bracket after some token
  (`JsmnRuns.StrayBracket`); `JsmnBuilds.BuildsAgree` says exactly on which texts the builds agree, and
  `JsmnStray.StrayIsBlank` what the other build makes of such a bracket.
- A parse continued on a longer text does not always end like one parse of it
  (`JsmnPrefix.CutPrimitive`), and the beginning of a good text is not always reported as partial
  (`JsmnPrefix.CutBehindBackslash`); `JsmnPrefix.ContinueIsOneParse` and `JsmnPrefix.CodeOfBeginning`
  are exact.
- `trie_get` does not find an added key that another added key goes on from
  (`TrieModel.ShadowedKeyNotFound`), and `trie_get_keys` lists a key that the prefix itself goes on from
  (`TrieModel.ShortKeyListed`), and a null key on a trie without non-empty keys
  (`TrieModel.EmptyTrieLists`, `TrieModel.EmptyKeyNotListed`);
  `TrieModel.GetAfterRun` and `TrieModel.KeysAreCompletions` are exact.
- Splitting a join does not always return the tokens (`SdsSplit.EmptyTokenLost`,
  `SdsSplit.SeparatorInToken`); `SdsSplit.SplitOfJoin` is exact.

## Model

| member | source | states |
|---|---|---|
| `Words.DecodeOfEncode` | src/db/store/store.h:84-131 | Writing a number as big-endian bytes and reading them back gives the number, for every number that fits |
| `Words.EncodeOfDecode` | src/db/store/store.h:84-131 | Reading bytes and writing the number again gives the same bytes |
| `StoreModel.EncodeShifts` | src/db/store/store.h:84-95 | The eight shifts of `store_write_ui64` are the big-endian bytes of the word |
| `StoreModel.DecodeShifts` | src/db/store/store.h:118-131 | The eight shifts of `store_read_ui64` add up to the big-endian number of the bytes |
| `StoreModel.Store.WriteUi64` | src/db/store/store.h:84-95 | Exactly the eight bytes at `p` become the encoding of the word, the rest of the file is unchanged |
| `StoreModel.Store.ReadUi64` | src/db/store/store.h:118-131 | The word encoded at `p` |
| `StoreModel.Store.Copy` | src/db/store/store.h:133-138 | The bytes at `dest` become those that stood at `src`, the rest is unchanged |
| `StoreModel.Store.constructor` | src/db/store/store.c:8-15 | A fresh file of 64 bytes beginning with `ADVDB!` and the big-endian 32 that is also the end in memory; nothing free or owned |
| `StoreModel.Store.Resize` | src/db/store/store.c:88-98 | Never shrinks; the old bytes stay, new ones follow |
| `StoreModel.Store.Extend` | src/db/store/store.c:100-103 | The file doubles and keeps its bytes |
| `StoreModel.Store.Alloc` | src/db/store/store.c:106-132 | Terminates for every size; pops the free list or moves `end`; the file grows to less than twice what is needed; only the stored `end` changes in the old bytes, and it equals the one in memory |
| `StoreModel.Store.AllocPage` | src/db/store/store.c:106-132 | With pages of one size: the page handed out was owned by nobody, every page keeps its bytes, each page stays owned once, free once or retired, and the free list loses a page if it had one |
| `StoreModel.Store.Free` | src/db/store/store.c:134-140 | The page goes to the front of the free list (or, append-only, nowhere) and no byte changes; the page account stays balanced when the page was owned |
| `StoreModel.PagesDisjoint` | src/db/store/store.c:116-122 | Two different pages of a store share no byte, and none reaches the header or passes `end` |
| `StoreModel.PageTaken` | src/db/store/store.c:115-128 | Handing out a page, new or recycled, keeps every page accounted for exactly once |
| `StoreRuns.RunCalls` | src/db/store/store.c:88-140 | Any run of allocations and frees of any sizes up to `max` keeps `end <= file size < 2 * (end + max)`, the stored `end` equal to the one in memory, and every page above the header, when only pages that were returned are freed |
| `StoreRuns.FreshRun` | src/db/store/store.c:8-140 | The same from a fresh store |
| `PageModel.HeaderFields` | src/db/store/btree.c:32-38 | Every packed header decodes to its flags, page size, key count and used bytes |
| `PageModel.HeaderBytes` | src/db/store/btree.c:14-38 | The eight bytes of a header: flags, item size 16, and page size, key count and used bytes, two bytes each |
| `PageModel.WeaveAt` | src/db/store/btree.h:36-60 | Word by word, a leaf alternates keys and values and a branch alternates addresses and keys |
| `PageOps.WriteUi64` | src/db/store/btree.c:55-58 | A word written into the page being filled extends it; header and every other page keep their bytes |
| `PageOps.Copy` | src/db/store/btree.c:60-64 | The same for a stretch copied from another page |
| `PageOps.HdrWrite` | src/db/store/btree.c:67-80 | The header word of the page becomes the packed fields and nothing else changes |
| `StoreSteps.StepJoin` | src/db/store/btree.c:465-495 | Two edits in a row are one edit: what both gave up, took and wrote |
| `BTreeModel.LeafSplitIsInsert` | src/db/store/btree.c:327-389 | A full leaf of at least 3 keys splits, at every insertion position, into its column with the new element in order; neither half is empty or larger than the page was |
| `BTreeModel.BranchSplitIsInsert` | src/db/store/btree.c:214-283 | Both halves of a full branch with the median between them are the old keys with the new separator and the old children with one replaced by two; the median is in neither half; neither half outgrows the page |
| `BTreeModel.SplitSizes` | src/db/store/btree.c:356-389 | Where a page of at least 3 keys is cut: the left half gets the middle of the page, and one element more when the new one goes in right behind it |
| `BTreeModel.LeafSplitNeedsThree` | src/db/store/btree.c:8-8 | The leaf split is right at every position exactly when the page holds at least three keys |
| `BTreeModel.BranchSplitNeedsThree` | src/db/store/btree.c:8-8 | The branch split finds its median and keeps every key at every position exactly when the page holds at least three keys |
| `BTreeModel.GrowKeepsTree` | src/db/store/btree.c:465-495 | Every step of an insertion keeps key order, separators, equal leaf depth and page capacity, for one page or the two that replace it |
| `BTreeModel.GrowInserts` | src/db/store/btree.c:465-495 | An insertion adds exactly the new pair to the entries of the subtree, whatever splits |
| `BTreeModel.AddCorrect` | src/db/store/btree.c:555-570 | `btree_add` of a new key keeps a whole tree, at most one level taller, and its map gains exactly the pair |
| `BTreeModel.ModelDescends` | src/db/store/btree.c:169-179 | A key is in a branch exactly when it is in the child the search chooses, with the same value |
| `BTreeModel.DescendInto` | src/db/store/btree.c:478-482 | The chosen child is a tree one level lower whose key range contains the key |
| `BTreeModel.DividesUp` | src/db/store/btree.c:169-193 | The entries of a branch below a key are those of the children before the chosen one and those below it in the chosen one |
| `BTreeModel.RunDenotesMap` | src/db/store/btree.c:555-570 | After any run of additions of distinct keys below 2^63 the tree is in order and denotes exactly the map of the added pairs |
| `BTree.LeafFind` | src/db/store/btree.c:183-193 | The offset of the first key not below the key, on the bytes of the page |
| `BTree.BranchFind` | src/db/store/btree.c:169-179 | The offset of the child in whose range the key lies, also in a branch with one child and no key |
| `BTree.LeafAdd` | src/db/store/btree.c:427-457 | On bytes: a new page holds the leaf with the pair inserted in order and the old page is freed, or the leaf is full and nothing changes |
| `BTree.LeafCopyIn` | src/db/store/btree.c:327-352 | On bytes: a page filled with one half of a leaf, the pair put in when it belongs there, header included |
| `BTree.LeafSplit` | src/db/store/btree.c:356-389 | On bytes: two new pages hold the halves without the root flag, the median key is returned, the old page is freed, and nothing else is written; the key is stored without its top bit |
| `BTree.BranchAdd` | src/db/store/btree.c:293-325 | On bytes: a new page holds the branch with the child replaced by one or two and the old page is freed, or there is no room and nothing changes |
| `BTree.BranchCopyUp` | src/db/store/btree.c:214-242 | On bytes: a page filled with one half of a branch, its child replaced by two when it belongs there |
| `BTree.BranchSplit` | src/db/store/btree.c:245-283 | On bytes: two new pages hold the halves without the root flag, the median is returned and is in neither, the old page is freed |
| `Placement.StoredKept` | src/db/store/btree.h:18-24 | A tree none of whose pages is written stays stored as it was |
| `BTreeAdd.RecurAdd` | src/db/store/btree.c:465-495 | The recursion puts on pages of its own exactly the one or two trees of the model, gives up exactly the old pages, writes only pages handed out by this call, and leaves every page owned once, free once or retired |
| `BTreeAdd.RecurAddLeaf` | src/db/store/btree.c:471-476 | The leaf case of the same |
| `BTreeAdd.RecurAddBranch` | src/db/store/btree.c:485-493 | The branch case after the recursive call: replacement, or a split passed upwards |
| `BTreeAdd.StepBranch` | src/db/store/btree.c:477-494 | The edit of the child and the edit of the branch, which may reuse the page the child gave up, are one edit of the subtree |
| `BTreeAdd.StoredHeaders` | src/db/store/btree.c:32-80 | Every page of a stored tree has a header with its kind, the page size, its true key count and used bytes, in the bytes of `PageModel.HeaderBytes`; only the top page of a whole tree carries the root flag |
| `BTreeApi.RootCreate` | src/db/store/btree.c:197-212 | A new page holds the median between the two halves and carries the root flag |
| `BTreeApi.Create` | src/db/store/btree.c:498-506 | A new empty tree on one page of its own, which begins with the bytes 3, 16, 0, 64, 0, 0, 0, 8 |
| `BTreeApi.Add` | src/db/store/btree.c:555-570 | The new tree is stored under the returned root; the old pages are given up and all others kept; only pages handed out by this call are written, and of the file header only the stored `end`; the free list ends no longer than max(1, its length before) |
| `BTreeApi.Find` | src/db/store/btree.c:533-552 | For any key the cursor stands on the leaf page in whose range the key lies; every slot of the page before it has a smaller key and none from it on has; of all entries of the tree, in key order, exactly those with smaller keys are before it; it is on the slot of the key, with its value, exactly when the key is present |
| `BTreeApi.Destroy` | src/db/store/btree.c:510-530 | Every page of the tree is given up, once, children in order before their parent, so that the free list begins with them the other way round; no byte is written |
| `BTreeApi.OldRootSurvives` | src/db/store/btree.h:18-24 | A tree whose pages were not handed out again is still stored after an edit |
| `BTreeApi.AppendOnlyKeepsOldRoots` | src/db/store/btree.h:18-24 | Over the append-only allocator that is every tree there was, the edited one included |
| `Forest.Run` | src/db/store/btree.c:498-570 | Any run of creations, additions of new keys and destructions over any number of trees ends in exactly the maps the run describes, with disjoint trees that own every owned page; without destruction the free list never exceeds max(1, its length before) |
| `Forest.Lookup` | src/db/store/btree.c:533-552 | The same for a search in one of many trees |
| `Forest.Open` | src/db/store/store.c:29-51 | A new file: one empty tree, `free_root`, on its first page |
| `Forest.FreshRun` | src/db/store/store.c:29-128 | A run on a new file; without destruction `end` is at most the header, the live pages and one more |
| `Forest.EveryPageOnce` | src/db/store/store.c:115-140 | Page by page: reachable from exactly one live tree, or free exactly once, or retired, never two of these, and nothing else is a page |
| `Forest.EndCounts` | src/db/store/store.c:115-122 | `end` is the header plus the owned, free and retired pages |
| `Forest.SpaceBound` | src/db/store/store.c:115-139 | With at most one free page, `end <= 32 + unit * (live pages + 1)` |
| `Forest.PlantedEdit` | src/db/store/btree.h:18-24 | Editing one tree leaves every other tree standing on pages of its own |
| `Versions.History` | src/db/store/btree.h:18-24 | Over the append-only allocator, after any run of additions every root ever returned is still a whole tree with the map it had when it was returned |
| `Versions.KeptOn` | src/db/store/btree.h:18-24 | One edit keeps every earlier version |
| `Jsmn.Parse` | lib/jsmn/jsmn.c:153-271 | The C-shaped parser over a token array ends in exactly the state of the step machine, returns the tokens stored by this call, or -1, -2 or -3 as the machine ends in NOMEM, INVAL or PART, and leaves slots beyond alone |
| `Jsmn.CountTokens` | lib/jsmn/jsmn.c:153-271 | The count-only pass returns the number the counting machine returns, or -2 or -3, and stores nothing |
| `Jsmn.ParseString` | lib/jsmn/jsmn.c:86-148 | The string at `pos` is stored with its span, or the error leaves position and tokens as they were |
| `Jsmn.ParsePrimitive` | lib/jsmn/jsmn.c:37-81 | The same for a primitive |
| `Jsmn.ScanString` | lib/jsmn/jsmn.c:94-147 | Finds the closing quote or the error, and reads nothing behind the terminating NUL |
| `Jsmn.OpenBracket` | lib/jsmn/jsmn.c:166-185 | A container token opens, its parent counts it, and it becomes the superior token |
| `Jsmn.CloseScanned` | lib/jsmn/jsmn.c:207-227 | The backward scan closes the innermost open token and finds the next one |
| `Jsmn.CloseLinked` | lib/jsmn/jsmn.c:188-206 | The parent links closed over instead |
| `Jsmn.AllocToken` | lib/jsmn/jsmn.c:8-21 | A fresh slot with the unset fields of a new token, or none when the array is full |
| `JsmnChars.StringsExactly` | lib/jsmn/jsmn.c:94-147 | The string scanner in characters: it finds the quote of a closed string, whose escapes are the eight short ones and `\u` with four digits, gives PART when the text ends inside, INVAL when a backslash is misused, and one of the three is the case |
| `JsmnChars.PrimitivesExactly` | lib/jsmn/jsmn.c:45-63 | The primitive scanner in characters: the run of printable characters up to the end, a gap or a closing bracket, or INVAL when another character comes first |
| `JsmnCodes.CodesExactly` | lib/jsmn/jsmn.c:153-271 | The code of any text: PART exactly when it ends inside a container or a string, INVAL exactly at a bracket that does not close the innermost container, a misused backslash or a character no token holds, NOMEM exactly when one more token begins than fits |
| `JsmnCodes.ParseText` | lib/jsmn/README.md:138-152 | A parse from the start returns -3, -2, -1 exactly in these cases, and otherwise the number of tokens of the forest over the text, stored in preorder |
| `JsmnCounts.CountsExactly` | lib/jsmn/jsmn.c:153-271 | What the count-only pass gives for any text, brackets matching or not |
| `JsmnCounts.CountText` | lib/jsmn/README.md:138-148 | It returns the number of tokens, -3 exactly when the text ends inside a string, -2 exactly at a spoilt string or a character no token holds |
| `JsmnRuns.Resume` | lib/jsmn/jsmn.c:70-74 | Continuing after NOMEM with a larger array ends in the tokens, state and code of one parse with the larger array; without NOMEM more room changes nothing |
| `JsmnRuns.RetryIsOneParse` | lib/jsmn/jsmn.c:103-107 | The same for any sequence of growing capacities |
| `JsmnPrefix.ContinueIsOneParse` | lib/jsmn/README.md:150-155 | Continuing on a longer text with the same parser and tokens, after whatever the first piece returned, ends like one parse of the longer text if and only if the first piece did not end inside a primitive |
| `JsmnPrefix.CodeOfBeginning` | lib/jsmn/jsmn.c:116-147 | The beginning of an accepted text is accepted or reported as partial, and as invalid if and only if it ends right behind a backslash inside a string |
| `JsmnPrefix.CutBehindBackslash` | lib/jsmn/jsmn.c:118-142 | A quote and a backslash are invalid, though they begin an accepted text |
| `JsmnPrefix.CutPrimitive` | lib/jsmn/jsmn.c:44-78 | Reading `1` and then going on with `12` does not end like reading `12` |
| `JsmnPrefix.StringExtends` | lib/jsmn/jsmn.c:94-145 | A string that is closed is closed at the same place in any longer text |
| `JsmnRuns.CountAgrees` | lib/jsmn/jsmn.c:66-69 | On an accepted text the count-only pass returns exactly the number of tokens stored |
| `JsmnRuns.CountIsEnough` | lib/jsmn/jsmn.c:100-102 | An array as large as the count never gives NOMEM |
| `JsmnRuns.NoMemExactly` | lib/jsmn/jsmn.c:171-173 | A parse gives NOMEM exactly when a parse with room to spare stores more tokens than fit |
| `JsmnRuns.ClimbFindsLastOpen` | lib/jsmn/jsmn.c:193-206 | From any token the parent chain leads to the innermost open token at or before it |
| `JsmnRuns.LinksAgree` | lib/jsmn/jsmn.c:186-228 | Both builds end with the same code, types, spans, sizes, position and superior token, if and only if the default build did not stop at a stray closing bracket after some token |
| `JsmnRuns.LinksAgreeOnAccepted` | lib/jsmn/jsmn.c:186-228 | In particular on every text the default build accepts |
| `JsmnBuilds.BuildsAgree` | lib/jsmn/jsmn.c:186-228 | Said of the text: the builds end alike if and only if it does not begin with complete values, for which the array has room, and then a closing bracket |
| `JsmnRuns.StrayBracket` | lib/jsmn/jsmn.c:202-204 | `1]` is refused by the default build and accepted with parent links |
| `JsmnStray.StrayIsBlank` | lib/jsmn/jsmn.c:186-206 | Behind complete values the build with parent links reads a closing bracket that closes nothing like a space, whatever follows |
| `JsmnTree.StepRefines` | lib/jsmn/jsmn.c:161-261 | One turn of the flat machine is one move of a parser with a stack; the errors are the same |
| `JsmnTree.InnermostIsLastOpen` | lib/jsmn/jsmn.c:181-181 | The superior token of a partial tree is its innermost open container, or none |
| `JsmnTree.CloseLists` | lib/jsmn/jsmn.c:208-226 | Closing ends the innermost container in place, and the backward scan finds the container around it |
| `JsmnTree.PutLists` | lib/jsmn/jsmn.c:233-235 | A new value is listed at the end and counted by the innermost container alone |
| `JsmnText.EveryStop` | lib/jsmn/jsmn.c:263-268 | Wherever a parse stops its tokens list a partial tree over the text read; it is complete exactly when the parse succeeds |
| `JsmnText.AcceptsExactlyForests` | lib/jsmn/jsmn.c:153-271 | A text is accepted exactly when a forest of values, in the characters of `JsmnChars`, with gaps between them lies over it and fits the array, and then the tokens are its preorder listing |
| `JsmnText.ForestAccepted` | lib/jsmn/jsmn.c:153-271 | Every such forest is accepted with its listing, its length and no superior token |
| `JsmnText.ForestUnique` | lib/jsmn/jsmn.c:153-271 | At most one forest lies over a text |
| `JsmnText.ListDetermines` | lib/jsmn/jsmn.c:166-236 | The token array determines the forest |
| `JsmnSpans.AcceptedTokens` | lib/jsmn/jsmn.c:166-268 | On success starts strictly increase, spans are nested or disjoint, `size` counts exactly the tokens directly inside, and no container is open |
| `JsmnSpans.ForestStretch` | lib/jsmn/jsmn.c:166-236 | The same for any forest over any stretch of text |
| `JsmnJson.JsonAccepted` | lib/jsmn/jsmn.c:37-271 | Every JSON text of RFC 8259, its escapes and digits listed character by character, whatever its whitespace, is accepted by an array with room, and its tokens list the value tree in preorder, keys and values both counted by their object |
| `JsmnJson.JsonLies` | lib/jsmn/jsmn.c:37-148 | A JSON value in any text lies over exactly its own characters |
| `JsmnJson.NumberIsPrimitive` | lib/jsmn/jsmn.c:45-57 | Every JSON number is one primitive |
| `JsmnJson.LettersRead` | lib/jsmn/jsmn.c:94-145 | Every JSON string ends, for the tokenizer, at its own closing quote |
| `Sds.Buffer.constructor` | lib/sds/sds.c:51-67 | A new string with no free space and a terminating NUL |
| `Sds.Buffer.MakeRoomFor` | lib/sds/sds.c:126-144 | The string is unchanged and the requested bytes fit; a new buffer has as many bytes to spare as it holds, at most 1 MiB |
| `Sds.Buffer.CatLen` | lib/sds/sds.c:240-252 | The bytes are appended, in place when they fit, and the NUL is behind them; a new buffer has as many bytes to spare as it holds, at most 1 MiB |
| `Sds.Buffer.CatRepr` | lib/sds/sds.c:552-575 | The quoted form is appended |
| `Sds.SplitLine` | lib/sds/sds.c:627-735 | Exactly the arguments of the specification, or none for an unbalanced line; terminates, and reads no byte behind the NUL |
| `Sds.ScanQuoted` | lib/sds/sds.c:644-678 | One turn inside double quotes agrees with the scan of the rest of the line |
| `Sds.SplitLen` | lib/sds/sds.c:470-507 | The tokens of the specification, in slots that are never overrun |
| `Sds.JoinSds` | lib/sds/sds.c:774-783 | The tokens with the separator between them |
| `SdsQuote.QuoteRoundTrip` | lib/sds/sds.c:552-735 | For every list of byte strings, splitting their quoted forms joined by spaces gives the list back |
| `SdsGrammar.ReprPrints` | lib/sds/sds.c:552-575 | What is printed, in bytes: a quote, the form of each byte (itself, a backslash and a letter, or `\x` and two lower-case digits), and a quote |
| `SdsGrammar.PlainPrinted` | lib/sds/sds.c:566-567 | A printable string without quotes and backslashes is printed as it is, between quotes |
| `SdsGrammar.SplitsExactly` | lib/sds/sds.c:627-735 | A line is split exactly when it is blanks and arguments of the grammar (a word, or a word, possibly empty, and a string in double or single quotes), and then into their values; every other line is unbalanced |
| `SdsGrammar.ItemsSplit` | lib/sds/sds.c:627-735 | Any arguments of the grammar with blanks between them are such a line |
| `SdsGrammar.WordThenRepr` | lib/sds/sds.c:695-712 | A word and a printed string right behind it are one argument, the word and the string |
| `SdsGrammar.PlainWords` | lib/sds/sds.c:635-715 | A line of words without blanks and quotes, with blanks between and around them, is split into exactly these words |
| `SdsGrammar.TickRoundTrip` | lib/sds/sds.c:679-693 | A string without NUL in single quotes is read back if and only if it does not end in a backslash |
| `Sds.QuotedIsJoin` | lib/sds/sds.c:552-575 | The line of the round trip is what `sdsjoinsds` makes of the quoted forms and a space |
| `SdsQuote.EscapeRead` | lib/sds/sds.c:644-678 | Inside quotes the escape of any byte is read back as that byte, whatever follows |
| `SdsQuote.ReprRead` | lib/sds/sds.c:627-726 | A quoted form followed by a space or the end ends the argument, with whatever word is before it |
| `SdsSplit.JoinOfSplit` | lib/sds/sds.c:470-507 | Joining the tokens of any string gives the string back |
| `SdsSplit.SplitTokensFree` | lib/sds/sds.c:483-501 | No token contains the separator |
| `SdsSplit.JoinFirst` | lib/sds/sds.c:774-783 | A join of two tokens or more is the first, the separator, and the join of the rest |
| `SdsSplit.SplitOfJoin` | lib/sds/sds.c:774-783 | Splitting a join gives the tokens back exactly when there are none, or the join is not empty, each token but the last ends where the separator first occurs, and the last has none |
| `SdsSplit.EmptyTokenLost` | lib/sds/sds.c:479-482 | One empty token joins to the empty string, which splits into no token |
| `SdsSplit.SeparatorInToken` | lib/sds/sds.c:494-500 | A token that is the separator comes back as two empty ones |
| `LinkedList.List.Push` | src/struct/list.c:31-46 | The value is appended; every link and the count stay right |
| `LinkedList.List.Unshift` | src/struct/list.c:53-69 | The value is put first |
| `LinkedList.List.Remove` | src/struct/list.c:76-101 | The element is unlinked, at either end or in the middle, its value returned, the others in order; on an empty list nothing happens |
| `LinkedList.List.Pop` | src/struct/list.c:48-51 | The last value, or none from an empty list |
| `LinkedList.List.Shift` | src/struct/list.c:71-74 | The first value, or none from an empty list |
| `HashMap.GetEntry` | src/struct/hashmap.c:121-136 | The first entry of the bucket with the hash and an equal key |
| `HashMap.Map.GetBucket` | src/struct/hashmap.c:138-150 | The bucket, created empty when there was none |
| `HashMap.Map.Insert` | src/struct/hashmap.c:152-165 | The buckets change as the specification says; no two buckets share an object |
| `HashMap.Map.Remove` | src/struct/hashmap.c:167-184 | The top entry of the key is unlinked and its value returned |
| `HashMap.Map.Contains` | src/struct/hashmap.c:186-194 | Whether the stack of the key is empty |
| `HashMap.Map.Set` | src/struct/hashmap.c:196-218 | The top entry is overwritten in place, or a new one put first |
| `HashMap.Map.Get` | src/struct/hashmap.c:220-231 | The top of the stack of the key |
| `HashMap.Map.Rehash` | src/struct/hashmap.c:71-83 | Every old entry is inserted in turn and the old buckets are not changed |
| `HashMap.Map.Resize` | src/struct/hashmap.c:85-104 | The buckets become those of the specification, all of them new |
| `HashMap.Map.InsertAndRemove` | src/struct/hashmap.c:152-231 | A value inserted is the one found and the one removed, whatever is shadowed, and then every key has the stack it had |
| `HashMap.Map.SetAndGet` | src/struct/hashmap.c:196-231 | A value set is the one found, and no other key changes |
| `HashMap.Map.RunOps` | src/struct/hashmap.c:85-231 | Any run of insert, set, remove and resize on the heap structure: the buckets hold the model, every entry is in the bucket of its hash, and each key, given a hash that agrees with compare, has the stack the run describes |
| `HashModel.InsertedStacks` | src/struct/hashmap.c:152-165 | Inserting pushes on the stack of the key and of no other key |
| `HashModel.SetStacks` | src/struct/hashmap.c:196-218 | Setting replaces the top of the stack of the key, or starts it, and touches no other |
| `HashModel.RemovedStacks` | src/struct/hashmap.c:167-184 | Removing uncovers what was shadowed and touches no other key |
| `HashModel.FindIsTop` | src/struct/hashmap.c:121-136 | The entry found is the top of the stack; none is found exactly when the stack is empty |
| `HashModel.ResizedStacks` | src/struct/hashmap.c:85-104 | Resizing to any size reverses the stack of each key |
| `HashModel.ResizedEntries` | src/struct/hashmap.c:71-104 | Resizing to any size keeps exactly the entries there were, keys and values |
| `HashModel.ResizedTwice` | src/struct/hashmap.c:85-104 | Two resizes restore every stack |
| `HashModel.RunStacks` | src/struct/hashmap.c:85-231 | After any run of insert, set, remove and resize the map holds for every key the stack the run describes |
| `HashModel.SetRunsIgnoreResize` | src/struct/hashmap.c:85-218 | Without `hmap_insert` the map is an ordinary one: the last value set and not removed, whatever resizes happen |
| `PrefixTrie.TrieNode.Add` | src/struct/trie.c:40-62 | The node becomes the trie of the specification, or the key does not belong below it and nothing changes |
| `PrefixTrie.TrieNode.GetSubtrie` | src/struct/trie.c:64-81 | The leaf for the key, that very node of the trie, or none |
| `PrefixTrie.TrieNode.Get` | src/struct/trie.c:83-88 | Its value |
| `PrefixTrie.TrieNode.GetKeys` | src/struct/trie.c:90-105 | Appends to the list exactly the keys of the specification, in order |
| `PrefixTrie.Fill` | src/struct/trie.c:40-62 | Any run of additions builds on the heap the trie of the specification |
| `PrefixTrie.FillAndGet` | src/struct/trie.c:40-88 | After any run of additions a look-up gives the first value added for the key, but nothing for the empty key or one that another added key goes on from |
| `TrieModel.GetSubFinds` | src/struct/trie.c:64-81 | The retrieval takes the node reached by walking down the key, and only when it is a leaf |
| `TrieModel.AddFinds` | src/struct/trie.c:40-62 | What one addition does to the node of every other key |
| `TrieModel.GetAfterRun` | src/struct/trie.c:40-88 | After any run: the first value added for the key, but nothing for the empty key or a key that another added key goes on from |
| `TrieModel.GetIsMap` | src/struct/trie.c:40-88 | For a prefix-free set of non-empty keys the trie is a map in which the first addition wins |
| `TrieModel.KeysAfterRun` | src/struct/trie.c:90-105 | After any run the listing holds, once each, the keys no added key goes on from that begin with the prefix or that the prefix goes on from; the key of the root is among them only when no non-empty key was added |
| `TrieOrder.KeysInOrder` | src/struct/trie.c:90-105 | Of two listed keys the one comes first whose branch, where the two part, was added first |
| `TrieModel.KeysAreCompletions` | src/struct/trie.c:90-105 | After any run: the listing is exactly the added keys with the prefix and no null key, if and only if no such key goes on in another, every added key the prefix goes on from goes on in another, and some added key is not empty |
| `TrieModel.PrefixFreeCompletions` | src/struct/trie.c:90-105 | For prefix-free keys: if and only if no key is a proper prefix of the prefix |
| `TrieModel.ShadowedKeyNotFound` | src/struct/trie.c:70-72 | After adding `a` and `ab`, looking up `a` finds nothing |
| `TrieModel.ShortKeyListed` | src/struct/trie.c:94-104 | Listing `abc` among the keys {`ab`} yields `ab` |
| `TrieModel.EmptyKeyNotListed` | src/struct/trie.c:44-46 | Adding the empty key stores nothing: the listing is still the null key of the root |
| `TrieModel.EmptyTrieLists` | src/struct/trie.c:102-104 | A trie without keys lists the key of its root, which is none |

## Left out

- StoreModel.Store.Alloc: `end + size` is required to stay below 2^64 (the width of the stored field), and file sizes are unbounded numbers; `Forest.NeedIs` gives the bound for a whole run of tree operations.
- StoreModel.Store.Free: the free list is a sequence, not a linked list of heap cells; the linked list itself is `LinkedList`.
- BTreeApi.Add: keys already present (`btree_leaf_add_dup`, overflow pages and `bstack`) and keys with the top bit set are not modelled, because leaf order does not survive them; every run adds distinct keys below 2^63.
- BTreeAdd.RecurAdd: the same, for a subtree.
- BTreeAdd.RecurAddLeaf: the same, for a leaf.
- BTree.LeafAdd: the same, for one page; also, the slot behind the last key is read after its bounds test instead of before it; the value read is not used when the test fails.
- BTreeApi.Find: the null checks on store and root, which return page 0, are not modelled.
- Jsmn.Parse: positions and counts are unbounded numbers; the text is required to be shorter than 2^31 characters, where the C `int` fields hold them. Without parent links the field `parent` is kept at -1.
- JsmnJson.JsonAccepted: a char stands for one byte of the UTF-8 text; which byte sequences are valid UTF-8 plays no part, as the tokenizer does not look.
- Sds.SplitLine: finished arguments are kept as their contents, not as buffers of their own; lengths are unbounded numbers where the C header fields are `int`.
- HashMap.Map.Set: an entry is a value held by its list element, which the map owns, instead of a heap cell of its own.
- HashMap.Map.Resize: a new size of zero, after which every operation of the C code divides by zero, is excluded.
- PrefixTrie.TrieNode.Add: the children of a node are a sequence field instead of a `struct list`; the null key of a root is the empty string.
- The null and allocation-failure paths, freeing of C memory, debug printing, and `store_write`'s bounds message.
- Reopening a store, memory mapping and file creation in src/util/fs.c: the file is a growable byte sequence that keeps its contents when it grows.
- `btree_remove`, `bvec`, `bstack`, edges, nodes and whole-graph runs: stubs, or without a run invariant under the active allocator.
- The strict build of jsmn, and the parts of sds not named above (printf-style appends, trimming, ranges, case mapping).
- The default hash and comparison of the hash map: any pair of functions that agree is allowed instead.
- darray, murmur3 and the integer helpers: easy members without a property over runs.
- linenoise and the REPL.
