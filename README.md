# Explore index of RetroArch, modelled in Dafny

RetroArch's "Explore" menu builds a browsable index of every game found
in the user's playlists. `menu/menu_explore.c` does the work in C:

- it reads each playlist entry, opens the game database (`.rdb`) that the
  entry names (once per database), and records the entry under its CRC32;
- it walks every database record that some playlist owns and files the
  record under ten categories: developer, publisher, release year,
  player count, genre, origin, region, franchise, tags and system;
- each category value is normalised first: outer spaces are trimmed,
  multi-valued categories are split at `,`, `/` and `|`, and company
  suffixes such as ", Inc." are dropped;
- each value is interned once per category. The category map is an open
  addressing hash map keyed by a case-insensitive FNV-1 hash that skips
  bytes below `'0'`. Values are kept in an arena, tables in stretchy
  buffers;
- the tables and entries are sorted and every string gets its rank;
- when the user drills down, the code decodes the chosen filters from the
  menu stack, lists the values of a category that the filtered games
  supply, and lists the games that pass.

This project models that core, file by file:

| file | module | what it holds |
|---|---|---|
| `bytes.dfy` | `Bytes` | bytes, C strings, `tolower`, `Option` |
| `stretchy_buffer.dfy` | `StretchyBuffer` | the `ex_buf` stretchy buffer as a class over an array |
| `arena.dfy` | `Arena` | the bump allocator `ex_arena` |
| `hash.dfy` | `Hash` | `ex_hash32` (FNV-1) and the filtered, case-folding variant |
| `probe.dfy` | `Probe` | linear-probing arithmetic and the slot-table invariant |
| `hashmap.dfy` | `HashMap` | `ex_hashmap32` as a class with `keys`/`vals` arrays |
| `compare.dfy` | `Compare` | the three `qsort` comparators and a reference sort |
| `normalize.dfy` | `Normalize` | value splitting, trimming and company-suffix stripping |
| `explore.dfy` | `Explore` | the explore state and `explore_add_unique_string` |
| `build.dfy` | `ExploreBuild` | one database record filed into every category |
| `finish.dfy` | `ExploreFinish` | the final sorts and the rank loop |
| `filter.dfy` | `ExploreFilter` | the category list, level decoding, drill-down and game list |
| `playlist.dfy` | `PlaylistScan` | the playlist pass with its database cache and `used_entries` count |

Code that changes state step by step is written as methods. This covers
the buffer, the arena, the hash map, the interning loop, the record
builder, the sorting and ranking pass, the drill-down loop and the
playlist pass. Each method is proved against a specification function.
The properties are proved as lemmas about those functions: values are
interned once per key, every record refers to strings of the right table,
tables are sorted and ranked, and a drill-down lists each supplied value
exactly once.

Hash keys appear in the specification functions as a key function `key`.
Properties that need no knowledge of FNV-1 hold for any key function.
Values with equal keys resolve to one string, as the code does, and the
`CatIndexed` and `CacheOk` invariants say so. The methods bind `key`
to the real hashes. `Explore.KeyOf` calls `Hash.Hash32NocaseFiltered`,
and `PlaylistScan.HashName` calls `Hash.Hash32`.

## Model

| member | source | states |
|---|---|---|
| `Bytes.Lower` | menu/menu_explore.c:370-375 | `tolower` on one byte: ASCII capitals map to small letters and every other byte is kept |
| `StretchyBuffer.GrowCapacity` | menu/menu_explore.c:138-153 | the new capacity is at least the requested length, at least 16 and at least twice the old capacity, and it is one of those three |
| `StretchyBuffer.ExBuf.constructor` | menu/menu_explore.c:30-31 | a buffer with no array has length 0, capacity 0 and no elements |
| `StretchyBuffer.ExBuf.Grow` | menu/menu_explore.c:138-153 | the buffer is reallocated to the grown capacity and keeps its length and elements |
| `StretchyBuffer.ExBuf.Fit` | menu/menu_explore.c:36 | capacity grows only when it is below the requested length, and afterwards it covers that length |
| `StretchyBuffer.ExBuf.Push` | menu/menu_explore.c:37 | exactly one element is appended at the end and the others are unchanged |
| `StretchyBuffer.ExBuf.Pop` | menu/menu_explore.c:38 | returns the last element and removes it; the array and capacity stay |
| `StretchyBuffer.ExBuf.Resize` | menu/menu_explore.c:39 | the length becomes the requested size; shrinking keeps the prefix, and capacity grows only when needed |
| `StretchyBuffer.ExBuf.Clear` | menu/menu_explore.c:40 | the length becomes 0 and the storage is kept |
| `StretchyBuffer.ExBuf.Free` | menu/menu_explore.c:35 | the storage is released: length and capacity are 0 |
| `Arena.AlignUp` | menu/menu_explore.c:42-44 | rounds a size up to the next multiple of the alignment, by less than one alignment |
| `Arena.BlockSize` | menu/menu_explore.c:155-162 | a new block is large enough for the request and for the default block size, and aligned |
| `Arena.Arena.constructor` | menu/menu_explore.c:75-81 | an arena starts with no blocks and no allocations |
| `Arena.Arena.Grow` | menu/menu_explore.c:155-162 | appends one block of the rounded size and makes it current, with an empty bump pointer |
| `Arena.Arena.Alloc` | menu/menu_explore.c:164-175 | a request that fits the current block takes no new block and starts at the old `ptr`; one that does not fit adds exactly one block sized for it and starts at its offset 0; `ptr` moves to the aligned end of the region, which overlaps no earlier region |
| `Arena.Arena.Free` | menu/menu_explore.c:177-188 | every block is released and the arena is empty again |
| `Hash.NonZero` | menu/menu_explore.c:199 | a zero hash becomes 1 and any other hash is kept, so no string hashes to the empty-slot key |
| `Hash.Hash32` | menu/menu_explore.c:191-200 | the loop over a C string computes FNV-1 of its bytes, made non-zero |
| `Hash.Hash32NocaseFiltered` | menu/menu_explore.c:202-219 | the loop computes FNV-1 of the in-range bytes only, each folded to lower case, made non-zero |
| `Hash.OrCaseBit` | menu/menu_explore.c:213-214 | OR-ing 0x20 into a capital letter lowers it, as `tolower` does |
| `Hash.DropOutOfRange` | menu/menu_explore.c:210-214 | inserting a byte outside the range anywhere does not change the filtered hash |
| `Hash.FoldCase` | menu/menu_explore.c:212-214 | the filtered hash ignores the case of every letter |
| `Hash.FilteredIsStrHashOfFiltered` | menu/menu_explore.c:202-219 | the filtered hash is the plain hash of the filtered, lowered string |
| `Hash.Fnv1OfLetterA` | menu/menu_explore.c:193-198 | FNV-1 (multiply, then xor) of "a" is 0x050c5d7e, which tells it apart from FNV-1a |
| `Hash.XorByteKeepsHigh` | menu/menu_explore.c:196 | xor with a byte changes only the low 8 bits of the 32-bit state |
| `HashMap.GrownCapacity` | menu/menu_explore.c:229 | the new capacity is the requested one, raised to the minimum of 16 when below it |
| `HashMap.Pow2Grown` | menu/menu_explore.c:283-284 | doubling a capacity keeps the table size a power of two at or above the minimum |
| `Probe.ProbeMiss` | menu/menu_explore.c:262-275 | probing that reaches an empty slot proves the key is absent |
| `Probe.Insert` | menu/menu_explore.c:286-294 | filling the first empty slot of the probe sequence keeps the slot-table invariant and adds the binding |
| `Probe.Update` | menu/menu_explore.c:295-299 | overwriting the value of a found key keeps the invariant and updates that binding only |
| `Probe.FreeSlot` | menu/menu_explore.c:283-288 | a table filled below capacity has an empty slot |
| `Probe.EmptyContents` | menu/menu_explore.c:230 | a table of zero keys holds no bindings |
| `HashMap.InvInsert` | menu/menu_explore.c:286-294 | inserting a new key at the end of its probe run keeps the map invariant and adds that key |
| `HashMap.InvUpdate` | menu/menu_explore.c:295-299 | updating in place keeps the invariant and changes that key's value only |
| `HashMap.MovedStep` | menu/menu_explore.c:233-248 | rehashing one more old slot keeps every moved key once and adds exactly the next non-empty one |
| `HashMap.Rebuilt` | menu/menu_explore.c:233-248 | after rehashing every old slot the new table holds exactly the old bindings |
| `HashMap.HashMap32.constructor` | menu/menu_explore.c:495-497 | a zeroed map holds no bindings, with length and capacity 0 |
| `HashMap.HashMap32.GetNum` | menu/menu_explore.c:262-275 | returns the value stored under the key, and 0 when the key is absent or the map has no table |
| `HashMap.HashMap32.Grow` | menu/menu_explore.c:222-252 | reallocates to the grown power-of-two capacity and keeps exactly the same bindings and count |
| `HashMap.HashMap32.Rehash` | menu/menu_explore.c:229-248 | builds the new key and value arrays holding exactly the old bindings |
| `HashMap.HashMap32.Place` | menu/menu_explore.c:286-300 | probing from the home slot either updates the key's slot or fills a free one, adding exactly that binding |
| `HashMap.HashMap32.SetNum` | menu/menu_explore.c:277-301 | key 0 changes nothing; otherwise the map binds the key to the value and counts a new key once |
| `HashMap.HashMap32.Store` | menu/menu_explore.c:286-300 | once the table has room, the map binds the key and keeps its arrays |
| `HashMap.HashMap32.StoreIn` | menu/menu_explore.c:286-300 | the array-level store keeps the invariant and binds the key, counting a new key once |
| `HashMap.HashMap32.StrGetNum` | menu/menu_explore.c:324-328 | looks the string up under its FNV-1 hash: the stored value or 0 |
| `HashMap.HashMap32.StrSetNum` | menu/menu_explore.c:329-333 | binds the string's FNV-1 hash, which is never 0, to the value |
| `Compare.StrCaseCmpIsLex` | menu/menu_explore.c:341 | `strcasecmp` orders by the lexicographic order of the lowered strings, and is 0 exactly when they agree ignoring case |
| `Compare.CmpIsLex` | menu/menu_explore.c:335-360 | the comparators order by a key made of the first byte unsigned, then the lowered rest; 0 exactly on equal keys |
| `Compare.LeTotal` | menu/menu_explore.c:335-360 | the comparator order is total |
| `Compare.LeTrans` | menu/menu_explore.c:335-360 | the comparator order is transitive, so `qsort` has a consistent order |
| `Compare.FirstByteFirst` | menu/menu_explore.c:339-340 | "Ze" sorts before "ap": the first byte is compared case-sensitively |
| `Compare.CaseIgnoredAfterFirst` | menu/menu_explore.c:341 | "aB" and "ab" compare equal, because case is ignored after the first byte |
| `Compare.Insert` | menu/menu_explore.c:756-757 | inserting into a list adds exactly that element |
| `Compare.SortBy` | menu/menu_explore.c:756-757 | the reference sort standing in for `qsort` returns a permutation of its input |
| `Compare.InsertSorted` | menu/menu_explore.c:756-757 | inserting into a sorted list keeps it sorted |
| `Compare.SortBySorted` | menu/menu_explore.c:756-757 | the reference sort orders by the comparator |
| `Normalize.SkipSpaces` | menu/menu_explore.c:410-411 | the cursor stops at the first non-space after the start, and everything skipped is a space |
| `Normalize.TrimEnd` | menu/menu_explore.c:409-413 | trims trailing spaces back to the value's start and no further: what is cut is spaces, and the kept end is a non-space or the start |
| `Normalize.TrimEndAsWritten` | menu/menu_explore.c:412-413 | the trim as written is bounded only by a non-space byte, not by the value's start |
| `Normalize.CompanySuffix` | menu/menu_explore.c:362-377 | reports 0, 3 or 4 bytes; searching forward it is non-zero exactly at "inc", "ltd" or "the" in any case |
| `Normalize.ResumeAt` | menu/menu_explore.c:451-467 | after a company comma the scan resumes no earlier than the comma, at a byte that is a delimiter exactly when the one cut at was; or the field has ended |
| `Normalize.SkipSpacesFrom` | menu/menu_explore.c:410-411 | the loop skips exactly the spaces that the specification function skips |
| `Normalize.TrimEndFrom` | menu/menu_explore.c:409-413 | the loop trims exactly as the bounded specification function trims |
| `Normalize.Resume` | menu/menu_explore.c:451-467 | the loop finds the same resume point as the specification function |
| `Normalize.StripCompany` | menu/menu_explore.c:422-427 | removing a company suffix leaves a non-empty value that ends in a non-space |
| `Normalize.StepAt` | menu/menu_explore.c:397-467 | one cut produces at most one trimmed value before the cursor, and resumes strictly further on |
| `Normalize.Walk` | menu/menu_explore.c:397-467 | every value cut from a field is trimmed: non-empty, without outer spaces and inside the field |
| `Normalize.Strip` | menu/menu_explore.c:422-427 | the method strips the suffix as the specification function does |
| `Normalize.Cut` | menu/menu_explore.c:399-449 | the method cuts one value as the specification function does |
| `Normalize.ResumeCursor` | menu/menu_explore.c:451-467 | the method moves the cursor as the specification function does |
| `Normalize.Spans` | menu/menu_explore.c:393-467 | the spans of a whole field are all trimmed |
| `Normalize.Values` | menu/menu_explore.c:429 | each value is the field's bytes between a span's bounds |
| `Normalize.ValuesTrimmed` | menu/menu_explore.c:409-420 | every value handed to the hash is a non-empty C string with no space at either end |
| `Normalize.NoSplitAtMostOne` | menu/menu_explore.c:393-394 | a category that does not split yields at most one value |
| `Normalize.NoSplitWholeField` | menu/menu_explore.c:397-413 | without splitting or company stripping, the value is the whole field without outer spaces, or nothing when it is all spaces |
| `Normalize.GenreExample` | menu/menu_explore.c:393-467 | "RPG, Puzzle" in a split category yields "RPG" and "Puzzle" |
| `Normalize.CompanyCommaExample` | menu/menu_explore.c:422-427 | "Sega, Inc." as a company yields "Sega" |
| `Normalize.CompanySuffixExample` | menu/menu_explore.c:362-377 | "Foo Ltd" as a developer yields "Foo": a trailing company word with no comma is stripped too |
| `Normalize.CompanyIncExample` | menu/menu_explore.c:422-427 | "Foo Inc" as a developer yields "Foo" |
| `Normalize.CompanyIncLtdExample` | menu/menu_explore.c:422-427 | "Foo Inc Ltd" as a developer yields "Foo Inc": one company word is stripped per value |
| `Normalize.CompanySuffixOnce` | menu/menu_explore.c:422-427 | normalizing is not idempotent on company values: "Foo Inc Ltd" yields "Foo Inc", which normalizes again to "Foo" |
| `Normalize.UnboundedTrimCrossesStart` | menu/menu_explore.c:409-415 | on "a, " the left trim moves the second value's start to 3, the position of the terminator, while the unbounded right trim stops at 2, before that start |
| `Normalize.AllSpaceFieldCrossesStart` | menu/menu_explore.c:409-415 | on a field of one space the left trim moves the start to 1 while the unbounded right trim reaches 0, before that start |
| `Normalize.BoundedTrimExample` | menu/menu_explore.c:409-420 | with the bounded trim, "a, " yields the single value "a" |
| `Explore.ValueKey` | menu/menu_explore.c:429-431 | the key of a value is its case-folded FNV-1 hash over the bytes from `'0'` up, never 0 |
| `Explore.KeyOf` | menu/menu_explore.c:429-431 | the method hashes the value to the same key |
| `Explore.TableKeysDistinct` | menu/menu_explore.c:429-444 | two strings of one category table never share a key |
| `Explore.AddValueIndexed` | menu/menu_explore.c:429-444 | one value keeps the table and map in agreement; a known key allocates nothing, a new key appends exactly one string |
| `Explore.AddValueResolved` | menu/menu_explore.c:429-449 | the string a value resolves to is in the table and has the value's key |
| `Explore.AddValueAdded` | menu/menu_explore.c:446-449 | each value adds exactly one reference to the record, as primary or split value |
| `Explore.AddValuesIndexed` | menu/menu_explore.c:397-467 | all the values of a field keep the table and map in agreement |
| `Explore.AddValuesGrown` | menu/menu_explore.c:436-443 | the pool only grows, and the new strings are exactly the field's new values |
| `Explore.AddValuesFirst` | menu/menu_explore.c:446-449 | the first value becomes the primary unless one was set; later ones go to the split buffer |
| `Explore.AddValuesResolves` | menu/menu_explore.c:429-449 | the record gains one reference per value, in order, each naming a table string with that value's key |
| `Explore.StateGrow` | menu/menu_explore.c:436-443 | appending new strings to one table keeps the state invariant |
| `Explore.NoSplitRest` | menu/menu_explore.c:393-449 | in a category that does not split, a field pushes nothing when the record has no primary value yet or the field yields no value |
| `Explore.NullPushExactly` | menu/menu_explore.c:393-449 | the call as written writes through the NULL split buffer exactly when a category that does not split already has a primary value and the field yields a value; on every other input it does what the corrected call does |
| `Explore.AddValuesState` | menu/menu_explore.c:379-469 | adding a field's values keeps the state invariant and the category map in agreement |
| `Explore.InternNew` | menu/menu_explore.c:436-443 | a new key allocates the next id, appends it to the table and stores id + 1 |
| `Explore.InternOld` | menu/menu_explore.c:431-435 | a known key resolves to the stored id and changes nothing |
| `Explore.Lookup` | menu/menu_explore.c:429-444 | the map lookup and insert do what the specification function's interning does |
| `Explore.Record` | menu/menu_explore.c:429-449 | one value is interned and recorded as the specification function says |
| `Explore.Advance` | menu/menu_explore.c:451-467 | the cursor moves strictly forward, and the values found so far are a prefix of all of them |
| `Explore.Visit` | menu/menu_explore.c:397-467 | one pass of the loop records the next value, if any, and advances |
| `Explore.AddFieldValues` | menu/menu_explore.c:393-467 | the loop records every value of the field, as the specification function does |
| `Explore.ExploreState.constructor` | menu/menu_explore.c:506-507 | a new state has no strings, no entries, ten empty tables and no Unknown marks |
| `Explore.ExploreState.AddUniqueString` | menu/menu_explore.c:379-469 | a missing or empty field marks the category Unknown; otherwise its values are interned and recorded as the corrected specification function says, a category that does not split never changes the split buffer, and the state stays well formed |
| `Explore.ExploreState.Push` | menu/menu_explore.c:737 | the record is appended and nothing else changes |
| `ExploreBuild.AddField` | menu/menu_explore.c:706-709 | filing one category's field changes no other category's primary value |
| `ExploreBuild.AddFieldOk` | menu/menu_explore.c:706-715 | filing any field, in any category and whatever primary value is already set, keeps the record builder's invariant |
| `ExploreBuild.AddFieldsOk` | menu/menu_explore.c:706-709 | filing the categories in order keeps the record builder's invariant |
| `ExploreBuild.AddFieldsUnset` | menu/menu_explore.c:700-709 | filing the categories below `n` sets no primary value of a later category |
| `ExploreBuild.NextFieldOk` | menu/menu_explore.c:706-709 | filing the next category, which has no primary value yet, keeps the invariant |
| `ExploreBuild.SystemPrimary` | menu/menu_explore.c:706-715 | the record has a System value from the database exactly when the database field yields one |
| `ExploreBuild.SystemReady` | menu/menu_explore.c:706-715 | before the second System call the builder invariant holds and the System map agrees with its table |
| `ExploreBuild.SecondSystemPushesNull` | menu/menu_explore.c:706-715 | the second System call as written writes through the NULL split buffer exactly when both the database's "system" field and the core's system name yield a value |
| `ExploreBuild.SecondSystemExample` | menu/menu_explore.c:706-715 | a record whose database and core both name the system "PC" makes the second call write through NULL |
| `ExploreBuild.Commit` | menu/menu_explore.c:725-734 | the committed split list holds the buffer in order, then a terminator |
| `ExploreBuild.CommitOk` | menu/menu_explore.c:725-735 | every committed split id names a string of the pool |
| `ExploreBuild.NewEntryOk` | menu/menu_explore.c:717-737 | a record built from the state keeps the state invariant once appended |
| `ExploreBuild.RecordOk` | menu/menu_explore.c:700-737 | for every record and every core system name, the whole block keeps the builder invariant and produces a record the state accepts |
| `ExploreBuild.AddCategory` | menu/menu_explore.c:706-709 | the method files one category as the specification function does, keeping the maps in agreement |
| `ExploreBuild.AddCategories` | menu/menu_explore.c:706-709 | the method files the ten categories as the specification function does |
| `ExploreBuild.AddNext` | menu/menu_explore.c:706-709 | the method files the next category |
| `ExploreBuild.AddSystem` | menu/menu_explore.c:710-715 | the core's system name is filed under System as the corrected specification function does, also when the database already gave a System value |
| `ExploreBuild.IndexRecord` | menu/menu_explore.c:706-715 | every category, and then the core's system name, are filed |
| `ExploreBuild.PushRecord` | menu/menu_explore.c:717-737 | the split list is committed if non-empty and the record is pushed; strings and tables are unchanged |
| `ExploreBuild.AddRecord` | menu/menu_explore.c:700-737 | the state after one database record is exactly the specification function's record index with that record appended, and all invariants hold |
| `ExploreFinish.Texts` | menu/menu_explore.c:751-760 | the texts of the pool by id |
| `ExploreFinish.SortedTable` | menu/menu_explore.c:756-757 | a sorted table is a permutation of the table |
| `ExploreFinish.PermTableOk` | menu/menu_explore.c:756-757 | permuting a table keeps the state invariant |
| `ExploreFinish.SameTextsOk` | menu/menu_explore.c:759-760 | changing only ranks keeps the state invariant |
| `ExploreFinish.PermEntriesOk` | menu/menu_explore.c:764-766 | permuting the entries keeps the state invariant |
| `ExploreFinish.Rank` | menu/menu_explore.c:759-760 | every string in the table gets its position as rank; other strings and all texts are unchanged |
| `ExploreFinish.RankIsPosition` | menu/menu_explore.c:759-760 | a string's rank indexes the table back to that string |
| `ExploreFinish.RanksKept` | menu/menu_explore.c:751-763 | ranking one table keeps the ranks of the tables before it, because tables are disjoint |
| `ExploreFinish.SortCategory` | menu/menu_explore.c:753-760 | one table is replaced by its sorted permutation and ranked; nothing else changes |
| `ExploreFinish.SortTables` | menu/menu_explore.c:751-763 | every table is sorted and every string ranked, and the state stays well formed |
| `ExploreFinish.SortEntries` | menu/menu_explore.c:764-766 | the entries are sorted by label, and nothing else changes |
| `ExploreFinish.Finish` | menu/menu_explore.c:751-766 | all tables sorted and ranked, entries sorted by label, the state well formed |
| `ExploreFinish.Apart` | menu/menu_explore.c:435-444 | no string is in two category tables |
| `ExploreFinish.SortedTableOrdered` | menu/menu_explore.c:756-757 | a sorted table is ordered by the string comparator |
| `ExploreFinish.SortedEntriesOrdered` | menu/menu_explore.c:764-766 | the sorted entries are ordered by label and are a permutation |
| `ExploreFilter.ListCategory` | menu/menu_explore.c:981-1002 | one menu item per string of the table, in table order, with its rank as index, then "Unknown" when the category's `has_unknown` flag is set, that is when some call for the category got a NULL or empty string, which for System includes a missing core system name |
| `ExploreFilter.CategoryOf` | menu/menu_explore.c:1047-1066 | a menu type names a category exactly when it lies in the category range |
| `ExploreFilter.LevelsToIn` | menu/menu_explore.c:1047-1066 | every decoded filter names a string of its category's table |
| `ExploreFilter.DecodeLevels` | menu/menu_explore.c:1047-1066 | the loop over the menu stack decodes what the specification function decodes, and the filters are well formed |
| `ExploreFilter.UnknownMatchesMissing` | menu/menu_explore.c:1061-1077 | an "Unknown" filter matches exactly the records without a primary value in its category |
| `ExploreFilter.SplitHas` | menu/menu_explore.c:1078-1088 | the split-list scan finds the id exactly when it is listed before the terminator |
| `ExploreFilter.Passes` | menu/menu_explore.c:1071-1095 | the method keeps a record exactly when the specification function's filter keeps it |
| `ExploreFilter.Seen` | menu/menu_explore.c:1105-1110 | the scratch map marks the keys of the values already listed |
| `ExploreFilter.DrillDown` | menu/menu_explore.c:1097-1133 | the drill-down lists only strings of the pool |
| `ExploreFilter.Gather` | menu/menu_explore.c:1097-1111 | one record adds its primary value at most |
| `ExploreFilter.ValueItems` | menu/menu_explore.c:1108-1110 | one menu item per listed value, with its rank as index |
| `ExploreFilter.ListOnce` | menu/menu_explore.c:1105-1110 | a value is listed only when its key has not been seen, and the map, ids and items keep in step |
| `ExploreFilter.DrillStep` | menu/menu_explore.c:1097-1111 | the method handles one record as the specification function does |
| `ExploreFilter.ListValues` | menu/menu_explore.c:1097-1133 | the method lists exactly the specification function's drill-down |
| `ExploreFilter.GatherValues` | menu/menu_explore.c:1097-1133 | the loop over the entries lists exactly the specification function's drill-down |
| `ExploreFilter.SeenHas` | menu/menu_explore.c:1105-1110 | a key is marked exactly when a listed value has it |
| `ExploreFilter.KeyNamesString` | menu/menu_explore.c:1105-1110 | in a ranked table, equal keys mean the same string, so the scratch map does not merge distinct values |
| `ExploreFilter.ItemSelectsValue` | menu/menu_explore.c:1108-1110 | the index of a value's item, read back through the table, selects that value |
| `ExploreFilter.GatherStep` | menu/menu_explore.c:1097-1111 | one record adds its primary value to the listed set exactly when it passes, and nothing is listed twice |
| `ExploreFilter.DrillDownListsValues` | menu/menu_explore.c:1097-1133 | a value is listed exactly when some passing record has it as primary, and it is listed once |
| `ExploreFilter.FinishedTable` | menu/menu_explore.c:751-763 | after the final pass every table is ranked and records refer into it |
| `ExploreFilter.ValuesOrdered` | menu/menu_explore.c:1126 | the value list is sorted by the menu comparator and is a permutation |
| `ExploreFilter.DrillDownUnknown` | menu/menu_explore.c:1128-1133 | "Unknown" is offered exactly when a passing record lacks the category |
| `ExploreFilter.Games` | menu/menu_explore.c:1112-1120 | the listed games are indices of records |
| `ExploreFilter.GameItems` | menu/menu_explore.c:1114-1119 | one item per listed game, with its title and index |
| `ExploreFilter.GamesExactly` | menu/menu_explore.c:1071-1120 | the games are listed in record order, and a record is listed exactly when it passes every filter |
| `ExploreFilter.KeptItems` | menu/menu_explore.c:1071-1120 | the loop lists exactly the passing games |
| `ExploreFilter.ListGames` | menu/menu_explore.c:1071-1120 | the method lists exactly the passing games of the state |
| `PlaylistScan.Consult` | menu/menu_explore.c:566-593 | consulting the cache leaves a verdict for the name, adds at most one database and keeps every earlier verdict |
| `PlaylistScan.CacheOkOpened` | menu/menu_explore.c:590-592 | opening a database for a new name keeps the cache consistent |
| `PlaylistScan.CacheOkRegistered` | menu/menu_explore.c:598-601 | recording an entry in a database keeps the cache consistent |
| `PlaylistScan.Step` | menu/menu_explore.c:553-602 | one entry keeps the cache consistent and opens at most one database |
| `PlaylistScan.ScanAll` | menu/menu_explore.c:547-603 | a playlist opens at most one database per entry and keeps the cache consistent |
| `PlaylistScan.OpenCached` | menu/menu_explore.c:566-593 | the method's lookup returns and stores what the specification function's cache returns and stores |
| `PlaylistScan.OpenMissing` | menu/menu_explore.c:568-593 | for a new name, the database is opened and cached, or the failure is cached |
| `PlaylistScan.HashName` | menu/menu_explore.c:566 | the database name is hashed with the key the cache uses, never 0 |
| `PlaylistScan.ScanEntry` | menu/menu_explore.c:553-602 | the method handles one entry as the specification function does |
| `PlaylistScan.ScanPlaylist` | menu/menu_explore.c:547-603 | the loop over a playlist's entries does what the specification function does |
| `PlaylistScan.OpenedOnce` | menu/menu_explore.c:566-593 | no two opened databases have the same name |
| `PlaylistScan.StepFacts` | menu/menu_explore.c:557-602 | verdicts are never changed, an accepted entry leaves one, and the count grows exactly for a usable entry |
| `PlaylistScan.StepOpens` | menu/menu_explore.c:566-593 | a database is opened exactly when its name has no verdict and the file opens; otherwise a failure is cached |
| `PlaylistScan.StepRegisters` | menu/menu_explore.c:595-602 | an entry with an opened database is recorded there under its CRC, and no other database changes |
| `PlaylistScan.ScanKeepsVerdicts` | menu/menu_explore.c:566-593 | a whole playlist never changes an earlier verdict |
| `PlaylistScan.Counted` | menu/menu_explore.c:602 | the count of usable entries is at most the number of entries |
| `PlaylistScan.CountedKept` | menu/menu_explore.c:595-602 | adding verdicts for other names does not change the count |
| `PlaylistScan.ScanCounts` | menu/menu_explore.c:547-603 | every accepted entry leaves a verdict, and `used_entries` counts exactly the entries whose database opened |

## Left out

- Reading directories, playlists and databases is not modelled. This is
  `playlist_init`/`playlist_free`, `libretrodb_open`, cursors and rmsgpack
  decoding (menu/menu_explore.c:513-545, 619-690). Playlist entries and
  database fields are parameters. Whether a database file opens is a
  parameter `opens`, and `strtoul` on the CRC text is a parameter `parse`.
- The per-database CRC lookup (menu/menu_explore.c:692-698) is not
  modelled. The model records entries in a map from CRC to entry, and
  `AddRecord` takes the found entry's fields as input.
- The core-info lookup that gives a core's system name
  (menu/menu_explore.c:611-615, 710-715) is a parameter `system`.
- Formatting numeric fields with `snprintf` (release year, players) is
  not modelled. Those fields arrive as strings.
- `qsort` is modelled by an insertion sort with the same comparator
  (`Compare.SortBy`). The C standard only makes `qsort` some permutation
  ordered by the comparator, and the model proves exactly that about
  `SortBy`.
- `strcasestr` for the search term is a predicate over the title, not a
  loop.
- Normalizing a value is not idempotent for the company categories
  (developer, publisher): the code strips one trailing company word per
  value (menu/menu_explore.c:422-427), so a value that still ends in one
  ("Foo Inc" from "Foo Inc Ltd") normalizes again to something shorter.
  The model follows the code and shows this in `Normalize.CompanySuffixOnce`
  rather than proving idempotence.
- ExploreBuild.AddRecord, ExploreBuild.IndexRecord, ExploreBuild.AddSystem,
  ExploreBuild.RecordOk and Explore.ExploreState.AddUniqueString follow the
  corrected push of the second "## Findings" row: when the database's
  "system" field and the core's system name both yield a value, the core's
  value is interned but referenced by no record, where the code as written
  writes through a NULL split buffer.
- Freeing maps, buffers and the state (menu/menu_explore.c:254-260,
  471-486, 1182-1190) is not modelled. Neither are the arena copies of the
  title and split lists: pointers are ids into the model's sequences.
- `getptr`/`setptr` (menu/menu_explore.c:303-322) are the numeric
  `GetNum`/`SetNum` with an id + 1 value.
- Menu construction outside the lists is not modelled. This covers titles,
  spacers, headers, "additional filter" items and `MENU_SETTINGS_LAST`
  offsets (menu/menu_explore.c:769-980), the single-game content page
  (menu/menu_explore.c:1140-1177), and the menu stack beyond the level
  decoding loop.
- ExploreFilter.ListCategory requires a non-empty table. On an empty
  table the C index `i_last` wraps around.
- Concurrency, I/O errors and allocation failure are not modelled.
- Integers are unbounded except where the code wraps: hashes are reduced
  mod 2^32 at every step, and the database cache marks failure with
  2^64 - 1.
- The hash is FNV-1 (multiply, then xor), not FNV-1a; `Hash.Fnv1OfLetterA`
  pins this down.
- A drill-down lists only the primary value of each passing record, never
  its split values. This follows the code at menu/menu_explore.c:1097-1111.

## Findings

| source | as written | input that shows it | evidently intended | confidence | as-written member | corrected member |
|---|---|---|---|---|---|---|
| menu/menu_explore.c:412-413 | the right trim `while (p[-1] == ' ') p--` is bounded only by a non-space byte, so on an all-space segment it runs back past the value's start; `p - str` is then negative and wraps as a `size_t` length | field "a, " in a split category (genre): the second value starts at offset 3, the trim stops at 2; also a field that is all spaces, such as " " in any category: the value starts at 1 and the trim reaches 0, then reads the byte before the field | the trim stops at the value's start, so an all-space segment yields no value | not executed | `Normalize.TrimEndAsWritten`, shown by `Normalize.UnboundedTrimCrossesStart` and `Normalize.AllSpaceFieldCrossesStart` | `Normalize.TrimEnd`, used by `Normalize.StepAt`; `Normalize.BoundedTrimExample` |
| menu/menu_explore.c:393-394, 449, 712-715 | for a category that does not split, `split_buf` is set to NULL, yet a value met when the record already has a primary value is pushed through it with `EX_BUF_PUSH(*split_buf, entry)`; System does not split and is filed twice per record, first from the database and then from the core's system name with no buffer at all | a database record with "system" = "PC" found in a playlist whose entry's core reports the system name "PC" (any two non-empty names do it) | a value is pushed only where there is a split buffer, so the core's system name is interned but only the database's value is the record's System | not executed | `Explore.UniqueAsWritten`, shown by `Explore.NullPushExactly`, `ExploreBuild.SecondSystemPushesNull` and `ExploreBuild.SecondSystemExample` | `Explore.Unique`, used by `Explore.ExploreState.AddUniqueString`, `ExploreBuild.AddSystem` and `ExploreBuild.AddRecord` |
