# rug object store — a Dafny model

This project models the core of `rug`, a Git-like object store written in Ruby. It covers:

- **Tree entries.** Mode decoding, git's ordering of entry names, the binary search for an entry, and the insertion that uses the search's answer.
- **The canonical stored form** `"<type> <length>\0<dump>"`. Two disk engines read and write it: the loose-object engine and the SHA-1 file engine. Both name a file by the object's hash and validate what they read back.
- **The storage façade.** It consists of reader engines and one writer engine.
- **The commit text codec.** This covers `_dump`'s line layout, the `INPUT_FORMAT` grammar, and `format_timestamp`.
- **Deferred loading** (`Git::Proxyable`). Run-time method rewriting becomes a two-state datatype, `Proxied` or `Loaded`.
- **Blobs and type dispatch.** This covers `type`, `Git::Object.load`, `find` and `save`.

Strings are byte sequences (`Bytes`). SHA-1 and zlib are parameters of the model (`Externals.Primitives`), never computed. The only facts used about them are the ones `Externals.Sound` states: inflate undoes deflate, and a digest is 40 lower-case hex characters.

The filesystem below the objects directory is a map from a relative path to the bytes of the file. Every exception the code raises, or lets escape from Ruby's runtime, is an `Errors.Error` value in a `Result`.

Where the code departs from its own documentation, the model has two versions:

- the code as written, in the `TreeAsWritten` and `CommitAsWritten` modules, with an input that shows the difference;
- the documented behaviour, in `Tree`, `CommitText` and `Commit`, which the rest of the model uses.

These cases are listed under "## Findings".

## Model

| member | source | states |
|---|---|---|
| Numerals.Decimal | lib/git/store/loose_object.rb:36 | `%d` renders a length as a non-empty run of digits with no leading zero; a single digit exactly for lengths below 10 |
| Numerals.ValueOfDecimal | lib/git/store/loose_object.rb:66 | `to_i` of the rendered length is the length again |
| Numerals.DecimalInjective | lib/git/store/loose_object.rb:113 | two lengths with the same rendering are equal |
| Numerals.Pad2 | lib/git/object/commit.rb:100 | `%02d` gives digits only, at least two, exactly two below 100 |
| Numerals.ValueOfPad2 | lib/git/object/commit.rb:100 | the padded rendering reads back as the number |
| Seqs.Uniq | lib/git/store.rb:59 | `uniq` leaves no duplicates, keeps exactly the same elements and never grows |
| Seqs.Flatten | lib/git/store.rb:59 | `flatten` holds every element of every inner array and nothing else |
| Seqs.UniqOfNoDup | lib/git/proxyable.rb:53-54 | `uniq!` on a duplicate-free list leaves it unchanged |
| Seqs.UniqLength | lib/git/store.rb:59-61 | the length after `uniq` is the number of distinct elements |
| Seqs.FirstIndex | lib/git/store.rb:59 | the first occurrence of an element: it is there, and not earlier |
| Seqs.UniqKeepsOrder | lib/git/store.rb:59 | `uniq` keeps only elements of the array, in the order of their first occurrences |
| Externals.Inflate | lib/git/store/loose_object.rb:158-160 | reading a file fails with `InflateFailed` exactly when zlib cannot inflate it, and otherwise yields the inflated bytes |
| CanonicalForm.Canonical | lib/git/store/loose_object.rb:113 | the stored form is the type, a space, the decimal length, NUL and the dump, with the matching total length |
| CanonicalForm.MatchAt | lib/git/store/loose_object.rb:33 | a header match at a position yields a non-empty word type, a non-empty digit run, and the text after the NUL |
| CanonicalForm.FirstMatch | lib/git/store/loose_object.rb:62 | `String#match` answers with the match at the leftmost position where the header matches, counting only line starts when the pattern is anchored by `^`, and nil exactly when no such position matches |
| CanonicalForm.MatchAtHeader | lib/git/store/loose_object.rb:33 | any text laid out as `word SP digits NUL body` matches with exactly those parts |
| CanonicalForm.HeaderRoundTrip | lib/git/store/loose_object.rb:62-67 | both header patterns read the stored form back as its type, a length that parses to the dump's length, and the dump |
| LooseObject.Path | lib/git/store/loose_object.rb:178-181 | the path is the hash with `/` inserted after two characters; a hash shorter than two characters raises `IndexError` |
| LooseObject.PathInjective | lib/git/store/loose_object.rb:178-181 | distinct hashes never share a file |
| LooseObject.Verify | lib/git/store/loose_object.rb:193-217 | the checks pass exactly when the type is valid, the declared length is the dump's length and the hash is the object's hash, and the first failing check names the error |
| LooseObject.Exists | lib/git/store/loose_object.rb:186-188 | `exists?` is true exactly when a file is at the hash's path |
| LooseObject.Find | lib/git/store/loose_object.rb:61-76 | nil exactly when no file is at the path; a returned object has the requested hash, a valid type, and a dump whose object hash is the requested one |
| LooseObject.FindChecksInOrder | lib/git/store/loose_object.rb:69-71 | on a well-formed file the type is checked first, the length second and the hash last, each raising `CorruptLooseObject` with its own cause |
| LooseObject.Save | lib/git/store/loose_object.rb:101-119 | `save` succeeds exactly when the path can be built and either the file exists or the object passes verification; otherwise it raises the first failing check's `CorruptLooseObject` (or `IndexError` for a short hash); a fresh save writes the deflated canonical form under the hash's path, every existing file stays as it was, and the object is returned |
| LooseObject.FindCanonical | lib/git/store/loose_object.rb:61-76 | a file holding the deflated canonical form of a valid object under its own hash is found as that object |
| LooseObject.Create | lib/git/store/loose_object.rb:49-51 | `create` saves and returns the object it builds |
| LooseObject.SaveThenFind | lib/git/store/loose_object.rb:105-115 | what a fresh `save` writes, `find` reads back as the same object |
| LooseObject.SaveTwiceWritesOnce | lib/git/store/loose_object.rb:105-106 | a second `save` is a no-op returning the object |
| LooseObject.Destroy | lib/git/store/loose_object.rb:83-88 | `destroy` removes the file, and returns the hash exactly when a file was removed and nil exactly when there was none |
| LooseObject.DestroyThenFind | lib/git/store/loose_object.rb:83-88 | after `destroy`, `find` returns nil |
| Sha1File.Filename | lib/git/store/sha1_file.rb:181-185 | the filename is the two-character subdirectory, `/`, and the rest, which together give the hash back |
| Sha1File.FilenameSplitsHash | lib/git/store/sha1_file.rb:182-183 | subdirectory and file name concatenate to the hash, and the subdirectory has two characters when the hash has |
| Sha1File.SameFileAsLooseObject | lib/git/store/sha1_file.rb:181-185 | for any hash of two or more characters, both engines use the same file |
| Sha1File.Contents | lib/git/store/sha1_file.rb:140-146 | the contents carry the data's own length, and the input pattern reads back exactly that type, length and data |
| Sha1File.Hash | lib/git/store/sha1_file.rb:151-153 | an object's hash is a 40-character hex digest that depends only on its type and dump; for a valid type it is the one hash the loose-object engine's `verify_type`, `verify_length` and `verify_hash` accept, and for any other type none is accepted |
| Sha1File.Find | lib/git/store/sha1_file.rb:58-77 | nil exactly when no file exists; a returned type is valid and the whole inflated file hashes to the requested hash |
| Sha1File.FindReadsHeader | lib/git/store/sha1_file.rb:67-73 | after the checksum holds, an invalid type is refused, then a wrong length, and otherwise the header's type and data are returned |
| Sha1File.FindChecksumFirst | lib/git/store/sha1_file.rb:62-64 | a file whose inflated bytes do not hash to its name is refused with `CorruptSha1File`, whatever its header says |
| Sha1File.FindChecksTypeThenLength | lib/git/store/sha1_file.rb:72-73 | on a file with a good checksum, the type is checked before the length |
| Sha1File.Save | lib/git/store/sha1_file.rb:104-110 | `save` adds the file under the hash and keeps every existing file; nothing changes when already saved |
| Sha1File.SavedFile | lib/git/store/sha1_file.rb:170-176 | after a fresh `save`, the file under the hash inflates to the contents |
| Sha1File.SaveThenFind | lib/git/store/sha1_file.rb:104-110 | what `save` writes for a valid type, `find` returns as the same type and data |
| Sha1File.SaveTwiceWritesOnce | lib/git/store/sha1_file.rb:104-110 | saving twice is the same as saving once |
| Sha1File.SavedInvalidTypeIsRejected | lib/git/store/sha1_file.rb:214-218 | `save` does not validate: a word that is not a valid type is written, and `find` then refuses it |
| Sha1File.Destroy | lib/git/store/sha1_file.rb:84-91 | `destroy` returns true exactly when a file existed, and the file is gone afterwards |
| Sha1File.SavedFileIsLooseObject | lib/git/store/sha1_file.rb:104-110 | what this engine's `save` writes for a valid type, the loose-object engine's `find` returns as an object with that hash, type and data |
| Sha1File.LooseObjectFileIsFound | lib/git/store/sha1_file.rb:58-77 | what the loose-object engine's `save` writes for a new object, this engine's `find` returns as its type and data |
| Store.Open | lib/git/store.rb:30-35 | a new store has one engine, which is both the only reader and the writer |
| Store.Detect | lib/git/store.rb:46 | `detect` finds the first reader that contains the id, or reports that none does |
| Store.Contains | lib/git/store.rb:41-43 | `contains?` is true exactly when some reader contains the id |
| Store.Get | lib/git/store.rb:45-52 | `get` returns the first containing reader's `[type, dump]`, and raises `ObjectNotFound` exactly when no reader contains the id |
| Store.Put | lib/git/store.rb:54-56 | `put` writes through the writer only when no reader contains the id, and touches no other reader |
| Store.PutThenGet | lib/git/store.rb:45-56 | after `put` of a new id, `get` yields the type and dump put |
| Store.PutIsWriteOnce | lib/git/store.rb:54-56 | `put` of an id already present changes nothing `get` sees |
| Store.Disambiguate | lib/git/store.rb:58-66 | the id is returned exactly when the readers offer one distinct candidate; `ObjectNotFound` is raised for none, and also for several |
| Store.DistinctAnswers | lib/git/store.rb:59 | the uniq'd, flattened answers are exactly the candidates, one entry each |
| ObjectType.AfterLastSeparator | lib/git/object.rb:17 | the position found ends a `::`, and no later position does; with none found, no `::` occurs |
| ObjectType.StripNamespace | lib/git/object.rb:17 | `sub!(/^.*::/, '')` keeps exactly the text after a `::` |
| ObjectType.StripClassName | lib/git/object.rb:17 | a namespaced class name reduces to its lower-cased base name |
| ObjectType.BaseNameFacts | lib/git/object.rb:16-18 | each class's base name has no `:`, lower-cases to its stored type and capitalizes back |
| ObjectType.TypeNames | lib/git/object.rb:16-18 | `type` is `blob`, `tree` or `commit` |
| ObjectType.ClassNamed | lib/git/object.rb:8 | `const_get` finds a class only by its exact base name |
| ObjectType.DowncaseCapitalize | lib/git/object.rb:8 | capitalizing changes nothing that lower-casing then sees |
| ObjectType.CapitalizedWord | lib/git/object.rb:8 | a capitalized word has no `:`, lower-cases by lowering its first letter only, and `capitalize` of that gives the word back |
| ObjectType.KindNamed | lib/git/object.rb:7-9 | a type name dispatches to a class only when it lower-cases to that class's `type` |
| ObjectType.KindNamedInvertsTypeName | lib/git/object.rb:7-18 | `load` dispatches every class's `type` back to that class |
| ObjectType.TagHasNoClass | lib/git/object.rb:8 | `tag` names no class |
| Objects.Type | lib/git/object.rb:16-18 | an object's `type` is one of the valid stored types, and dispatches back to the object's class |
| Objects.Dump | lib/git/object/tree.rb:62-63 | a tree has no dump, a blob's dump is its contents, a proxied commit's dump is the verbatim text it was loaded from, and a loaded commit keeps its kind |
| Objects.Load | lib/git/object.rb:7-10 | `load` fails with an unknown class exactly when no class has the name, and otherwise builds an object of the named class |
| Objects.LoadAs | lib/git/object.rb:9 | `klass.load(data)` builds an object of exactly the class asked for |
| Objects.Find | lib/git/object.rb:2-5 | nil exactly when no file holds the id; a found object is of the class the file's type names |
| Objects.Hash | lib/git/store/sha1_file.rb:151-153 | an object has a hash exactly when it dumps; the hash is a hex digest, and the only hash the loose-object engine's checks accept for the object's type and dump |
| Objects.Save | lib/git/object.rb:12-14 | `save` puts the object's file under its hash and keeps every existing file; the object comes back as `_dump` changed it in place |
| Objects.FindMissing | lib/git/object.rb:2-5 | `find` returns nil when no file holds the id |
| Objects.LoadDispatchesOnType | lib/git/object.rb:7-10 | every class loads back from its own type name |
| Objects.TagCannotLoad | lib/git/object.rb:7-9 | a `tag` file passes the store's checks but `load` has no class for it |
| Objects.SaveThenFindBlob | lib/git/object.rb:2-14 | a saved blob is found again under its hash with the same contents |
| Objects.SaveThenFindCommit | lib/git/object.rb:2-14 | a saved commit is found again under its hash as a proxied commit holding exactly the text written |
| Objects.SaveThenFindDump | lib/git/object.rb:2-14 | any object that dumps is found again under its hash, loaded from its own dump by its own class |
| Objects.DumpSettles | lib/git/object/commit.rb:51-54 | dumping the result of a dump writes the same text and changes nothing |
| Objects.SaveTwiceWritesOnce | lib/git/object.rb:12-14 | saving the object `save` returns changes nothing more |
| Tree.TypeOf | lib/git/object/tree.rb:72-74 | `type` maps the mode with its low nine bits cleared to the type with those bits in `MODE_FOR`, and to nil when no type has them |
| Tree.Perm | lib/git/object/tree.rb:80-85 | `mode` is the permission bits of a blob's mode (at most 0777, adding back to the mode) and 0 for every other type |
| Tree.DecodeMode | lib/git/object/tree.rb:8-16 | a mode built from a type's bits and any permission bits decodes to that type, and only a blob keeps the permissions |
| Tree.ModeIsTypeAndPerm | lib/git/object/tree.rb:72-85 | every decodable mode is its type's bits plus its low nine bits |
| Tree.SortKey | lib/git/object/tree.rb:240-249 | the sort key is the name, with `/` appended exactly for a tree whose name does not already end in `/`; a tree's key ends in `/` and equals its name exactly when the name already does |
| Tree.Compare | lib/git/object/tree.rb:219-221 | `Array#<=>` on keys answers -1, 0 or 1 |
| Tree.CompareZeroIffEqual | lib/git/object/tree.rb:219-221 | two keys compare equal exactly when they are the same bytes |
| Tree.CompareAntisymmetric | lib/git/object/tree.rb:219-221 | swapping the keys negates the comparison |
| Tree.CompareTransitive | lib/git/object/tree.rb:219-221 | the comparison is transitive |
| Tree.CompareIsLexicographic | lib/git/object/tree.rb:212-218 | a key orders before another exactly when it is a proper prefix or holds the smaller byte where they first differ |
| Tree.InvertIndexInvolution | lib/git/object/tree.rb:175-177 | `invert_index` undoes itself and maps exactly the non-negative numbers to negative ones |
| Tree.Search | lib/git/object/tree.rb:87-122 | on sorted entries, a hit is the index of an entry comparing equal, and a miss is `-(p+1)` for the position `p` that keeps them sorted; the search hits exactly when such an entry exists |
| Tree.Insert | lib/git/object/tree.rb:124-131 | a found index overwrites only that slot; an encoded absent index splices the entry in at `invert_index(index)`; the entry is returned |
| Tree.InsertKeepsSorted | lib/git/object/tree.rb:150-156 | inserting at the place `search` answers keeps the entries sorted and holds the entry |
| Tree.ReplaceKeepsSorted | lib/git/object/tree.rb:126 | overwriting a slot with an entry that compares equal to it keeps the entries sorted |
| Tree.SpliceKeepsSorted | lib/git/object/tree.rb:127 | splicing an entry in between the entries ordering below it and those ordering above keeps the entries sorted |
| Tree.Add | lib/git/object/tree.rb:169-172 | search then insert leaves the entries sorted, containing the entry and every old entry with another key, one longer or the same length |
| TreeAsWritten.SearchAsWritten | lib/git/object/tree.rb:103-122 | the search as written: a hit is still an entry comparing equal |
| TreeAsWritten.SearchAsWrittenMissesFirstEntry | lib/git/object/tree.rb:113 | on the sorted entries `[a, b]` the search as written reports `a` missing, which is not a valid answer |
| TreeAsWritten.RubyInsert | lib/git/object/tree.rb:127 | `Array#insert` puts the element before a non-negative position, and after the element a negative position names |
| TreeAsWritten.InsertAsWritten | lib/git/object/tree.rb:124-128 | the insert as written agrees with the documented one except for a hit at index 0, where it appends |
| TreeAsWritten.InsertAsWrittenDuplicatesHitAtZero | lib/git/object/tree.rb:125 | overwriting `a` in `[a, b]` gives `[a, b, a]`, which is not sorted; the documented insert gives `[a, b]` |
| TreeAsWritten.SortKeyAsWritten | lib/git/object/tree.rb:245-249 | the key as written is the bare name, which matches the documented key for every non-tree |
| TreeAsWritten.SortKeyAsWrittenMisordersTree | lib/git/object/tree.rb:247 | with the bare name, tree `foo` orders before blob `foo.txt`; with git's key it orders after |
| CommitText.SafeStringHasNoAngles | lib/git/object/commit.rb:7-15 | a safe string contains no `<` or `>` |
| CommitText.Seconds | lib/git/object/commit.rb:100 | `strftime('%s')` is a non-empty digit run for times after the epoch, and starts with `-` before it |
| CommitText.FormatZone | lib/git/object/commit.rb:95-101 | the zone is a sign, `+` exactly for offsets of 0 or more, then at least four digits |
| CommitText.FormatZoneRoundTrip | lib/git/object/commit.rb:18 | a zone under 100 hours renders as `TZ` text that denotes the same offset |
| CommitText.ParentLines | lib/git/object/commit.rb:57 | there are parent lines exactly when there are parents |
| CommitText.Lit | lib/git/object/commit.rb:20-26 | a literal of the pattern matches exactly when the text starts with it, leaving the rest |
| CommitText.TakeId | lib/git/object/commit.rb:21 | `\w{40}` matches exactly when the text starts with 40 word characters |
| CommitText.SplitAt | lib/git/object/commit.rb:23 | the text splits at the first occurrence of a byte exactly when the byte occurs |
| CommitText.DigitRun | lib/git/object/commit.rb:17 | `\d+` takes the longest digit run at the start |
| CommitText.TakeAddress | lib/git/object/commit.rb:23 | a matched name and email are safe strings |
| CommitText.TakeTime | lib/git/object/commit.rb:23 | a matched time is a non-empty digit run followed by `TZ` text |
| CommitText.TakePerson | lib/git/object/commit.rb:23-24 | a matched person line yields valid captures |
| CommitText.TakeParents | lib/git/object/commit.rb:22 | the repeated parent group yields ids of 40 word characters |
| CommitText.Match | lib/git/object/commit.rb:20-26 | an `INPUT_FORMAT` match yields valid captures |
| CommitText.TakeSigned | lib/git/object/commit.rb:23-25 | the author and committer lines yield valid captures |
| CommitText.Parse | lib/git/object/commit.rb:20-26 | a parsed commit has 40-character ids, safe names and emails, and times after the epoch |
| CommitText.TakeParentLines | lib/git/object/commit.rb:22 | the parent group reads back every parent line `_dump` writes, in order |
| CommitText.TakePersonLine | lib/git/object/commit.rb:23-24 | a written person line reads back as its own name, email, seconds and zone |
| CommitText.TakeSignedOf | lib/git/object/commit.rb:23-25 | the author line, committer line, blank line and message `_dump` writes read back as exactly those captures |
| CommitText.MatchSerialize | lib/git/object/commit.rb:56-72 | the grammar matches `_dump`'s text with exactly the tree, the parents in order, the person lines and the message |
| CommitText.ParseTimestampOf | lib/git/object/commit.rb:103-105 | `parse_timestamp` of a rendered time gives the time back |
| CommitText.ParseSerialize | lib/git/object/commit.rb:50-92 | reading `_dump`'s text with the grammar gives back the commit: tree, every parent in order, people, times and the verbatim message |
| Proxyable.AttrProxied | lib/git/proxyable.rb:52-56 | `attr_proxied` keeps the attribute list free of duplicates and holding exactly the old and new names |
| Proxyable.AttrProxiedRedeclared | lib/git/proxyable.rb:53-54 | declaring attributes already on the list leaves its length unchanged |
| Proxyable.Proxy | lib/git/proxyable.rb:71-75 | `proxy!` keeps the dump and the current fields |
| Proxyable.Unproxy | lib/git/proxyable.rb:105-117 | `unproxy!` restores the loaded state, running the loader exactly when asked and failing exactly when the loader fails |
| Proxyable.VerbatimDump | lib/git/proxyable.rb:75 | while proxied, `_dump` is exactly the dump given to `proxy!` |
| Proxyable.Read | lib/git/proxyable.rb:85 | reading a proxied attribute loads and then reads the loaded value; reading a loaded one changes nothing |
| Proxyable.Write | lib/git/proxyable.rb:86-90 | a proxied write loads first only when there are several proxied attributes, then applies the write |
| Proxyable.Step | lib/git/proxyable.rb:82-90 | a dump changes nothing; a read or write leaves the object loaded, and fails only when it ran the loader on a dump the loader cannot read; a loaded object never loads again, and an operation runs the loader at most once, only on a proxied object whose dump the loader can read |
| Proxyable.LoadedNeverLoads | lib/git/proxyable.rb:105-113 | once loaded, an object stays loaded and never runs the loader, whatever happens to it |
| Proxyable.LoaderRunsAtMostOnce | lib/git/proxyable.rb:96-117 | over any run of reads, writes and dumps, the loader runs at most once |
| Proxyable.ReadLoadsOnce | lib/git/proxyable.rb:85 | the first read returns the loaded value, and a second read returns the same without loading |
| Proxyable.SoleWriteSkipsLoad | lib/git/proxyable.rb:86-89 | writing the only proxied attribute never runs the loader, even on a dump it cannot read |
| Proxyable.WriteSurvivesLoad | lib/git/proxyable.rb:86-90 | with several proxied attributes the load comes first, so the written value survives it |
| Commit.CommitAttributes | lib/git/object/commit.rb:28-36 | a commit has seven distinct proxied attributes, so every proxied write loads first |
| Commit.New | lib/git/object/commit.rb:38-42 | a new commit holds the given tree, message and parents and nothing else |
| Commit.WithDefaults | lib/git/object/commit.rb:51-54 | `_dump` fills in only the unset attributes, and an unset author becomes the committer |
| Commit.DataOf | lib/git/object/commit.rb:63-70 | the text is written from the attributes, with a nil message as the empty string |
| Commit.FieldsOf | lib/git/object/commit.rb:82-91 | `_load` assigns every attribute from its field |
| Commit.Dump | lib/git/object/commit.rb:50-73 | `_dump` sets the four defaults in place and returns the commit with them set; a commit without a tree has no id to write and is refused |
| Commit.LoadFields | lib/git/object/commit.rb:75-92 | the loader succeeds exactly when the grammar reads the dump, and assigns what it read |
| Commit.Load | lib/git/object/commit.rb:75-76 | `_load` parses nothing: it proxies the dump behind a loader that reads it |
| Commit.DumpObject | lib/git/object/commit.rb:50 | a proxied commit dumps its text verbatim, and a loaded one dumps whenever it has a tree id to write |
| Commit.DumpThenLoad | lib/git/object/commit.rb:50-92 | loading what `_dump` wrote gives back the attributes it wrote, every parent in order, with a nil message read back as empty |
| Commit.LoadedCommitIsLazy | lib/git/object/commit.rb:75-92 | a loaded commit dumps its text verbatim, and its first attribute read parses it |
| CommitAsWritten.FormatZoneAsWritten | lib/git/object/commit.rb:95-101 | the zone as written agrees with the documented one except at 0, which it signs with `-` |
| CommitAsWritten.ZeroZoneAsWritten | lib/git/object/commit.rb:97 | offset 0 is written `-0000` where git writes `+0000`; both denote 0 |
| CommitAsWritten.NextMatch | lib/git/object/commit.rb:77 | the search `split` makes from a position answers the leftmost line start where the pattern matches, and no line start before it matches |
| CommitAsWritten.DropTrailingEmpty | lib/git/object/commit.rb:77 | `split` drops exactly the empty strings at the end of its result |
| CommitAsWritten.DropTrailingKeeps | lib/git/object/commit.rb:77 | the pieces before a non-empty piece are never dropped |
| CommitAsWritten.SplitAsWritten | lib/git/object/commit.rb:77-78 | `split` then `shift` gives nothing without a match; otherwise the groups of the first match (the parent group only when a parent line took part, with its last repetition), then the pieces of the rest, split again at every later line-start match; nine fields or more |
| CommitAsWritten.SplitOfOneMatch | lib/git/object/commit.rb:77-78 | a text that matches at its start, with no match at any line start of its message, splits into the groups and then the message unless it is empty |
| CommitAsWritten.SplitOfTwoMatches | lib/git/object/commit.rb:77-78 | a second match at a line start of the message adds that match's groups and the text before it: nineteen fields or more |
| CommitAsWritten.DumpSplitsOnce | lib/git/object/commit.rb:77-78 | a dump that matches at its start, followed by a message with no header block at a line start, splits into the groups and then the message unless it is empty |
| CommitAsWritten.DumpSplitsTwice | lib/git/object/commit.rb:77-78 | a header block at a line start of the message makes the dump split into nineteen fields or more |
| CommitAsWritten.ParseTimestampText | lib/git/object/commit.rb:103-105 | `parse_timestamp` succeeds exactly when the seconds are `-?\d+`; an offset that is not `TZ` text is ignored and leaves offset 0 |
| CommitAsWritten.SecondsTextRoundTrip | lib/git/object/commit.rb:104 | the decimal seconds `format_timestamp` writes, with a `-` before the epoch, read back as the same number |
| CommitAsWritten.ParseTimestampTextRoundTrip | lib/git/object/commit.rb:95-105 | what `format_timestamp` (as intended) writes, `parse_timestamp` reads back as the same time, before the epoch too |
| CommitAsWritten.ParseTimestampTextOfCapture | lib/git/object/commit.rb:103-105 | on fields the pattern captured, `parse_timestamp` agrees with the grammar |
| CommitAsWritten.FieldsFromList | lib/git/object/commit.rb:78-91 | the shifts read the tree first and then `length - 10` parents; they succeed exactly when there are nine fields or more and both seconds fields are `-?\d+` |
| CommitAsWritten.LoadFieldsAsWritten | lib/git/object/commit.rb:75-92 | the loader as written succeeds only when the pattern matches at some line start, and takes the tree from the first match |
| CommitAsWritten.SplitSerialize | lib/git/object/commit.rb:77-78 | when no line of the message starts a header block, `split` of `_dump`'s text yields the tree, the last parent only, the person fields, and the message unless it is empty |
| CommitAsWritten.ShiftAligned | lib/git/object/commit.rb:80-91 | a list with at most one parent and a message is read field by field |
| CommitAsWritten.ShiftMisaligned | lib/git/object/commit.rb:80-91 | ten fields with one parent and no message are read one place early from the author's name on, and succeed exactly when both e-mails are `-?\d+` |
| CommitAsWritten.LoadAsWrittenKeepsLastParent | lib/git/object/commit.rb:80-91 | with a non-empty message free of header blocks, the loader as written keeps only the last parent, and for at most one parent it agrees with the grammar |
| CommitAsWritten.AlignedLoad | lib/git/object/commit.rb:80-91 | a dump that splits into the tree, the last parent, the person fields and the message loads as the commit with only that last parent |
| CommitAsWritten.MergeLosesParents | lib/git/object/commit.rb:22 | a two-parent commit whose message holds no header block loads back with only its second parent; the grammar reads both |
| CommitAsWritten.LoadAsWrittenMisalignsEmptyMessage | lib/git/object/commit.rb:80-91 | with one parent and an empty message the loader as written never gives the commit back: it loads exactly when both e-mails are `-?\d+`, and then with no parents, the parent id as the author's name, offset 0, and the committer's zone as the message |
| CommitAsWritten.MisalignedLoad | lib/git/object/commit.rb:80-91 | a dump that splits into the tree, one parent and the person fields without a message never loads as that commit, and loads exactly when both e-mails are `-?\d+` |
| CommitAsWritten.ManyFieldsManyParents | lib/git/object/commit.rb:80-83 | nineteen fields or more are read as nine parents or more |
| CommitAsWritten.MessageHeaderResplits | lib/git/object/commit.rb:77-83 | a message holding a header block at a line start makes `split` yield nineteen fields or more, which the loader as written reads as nine parents or more |
| Blob.New | lib/git/object/blob.rb:17-20 | a new blob holds the given contents |
| Blob.ToS | lib/git/object/blob.rb:26-28 | `to_s` is the contents, and the empty string for nil |
| Blob.Load | lib/git/object/blob.rb:40-42 | `_load` stores the dump verbatim as contents |
| Blob.BlobRoundTrip | lib/git/object/blob.rb:30-49 | `_dump` after `_load(d)` is `d`, `_load` of a dump gives the blob back, and `to_blob` is the blob itself |

## Left out

- Filesystem I/O is not modelled. Reading, writing, `mkpath`, permissions, `unlink` and `exist?` are operations on a map from path to file bytes.
- SHA-1 and zlib are parameters of the model. The only facts assumed about them are that inflate undoes deflate and that digests are 40 hex characters; `Externals.Sound` states both.
- `Tree#<<`, `add_file`, `add_dir`, `add_path`, `add_link` and `add_entry` are not modelled: they walk the working tree with `lstat`. `Tree.Add` models only the search and insert they end with.
- Tree serialisation is not modelled: the tree's `_dump` and `_load` are empty stubs. A tree dumps nothing (`NilDump`), and a loaded tree has no entries.
- `Entry.proxy`, `proxy_object!` and `Entry#type` are not modelled. An entry records the kind and id of its object. `Git::Object.klass` is not part of this model.
- `Git::Author.default` and `DateTime.now` read the system. They are parameters of a commit dump (`Objects.Env`).
- Commit.Dump: a commit without a tree is refused with `NilDump`. In Ruby, `tree.hash` on nil is `nil.hash`, an Integer, so `_dump` would write `tree <integer>`. Like `tree.hash` on a tree object, that value is not part of this model, so a nil tree has no id to write.
- Commit.DumpObject and Objects.Dump inherit that refusal for a loaded commit without a tree.
- LoadFieldsAsWritten: `Tree.find` and `Commit.find` of the tree and parent fields are kept as the ids read.
- ParseTimestampText: offsets other than `TZ` text are taken as 0, which is what `new_offset` does with an unparseable string. Named zones (`UTC`, `EST`) and the other forms `zone_to_diff` accepts are also taken as 0. A missing offset (`new_offset(nil)`) is treated as a failure. The seconds must be exactly `-?\d+`.
- `Git::Object.hash(type, dump)` (lib/git/store/loose_object.rb:214, lib/rgit/hash-object.rb:33) is defined in no file of this model. It is taken as the SHA-1 of the canonical form (`CanonicalForm.ObjectHash`), the digest `Sha1File#hash` computes.
- The store's engines are modelled as an abstract `Store.Engine`: the objects it contains, and its own `disambiguate`. lib/git/store.rb:31 builds its engine with `LooseObject.new(git_path)`, which does not fit `initialize(hash, type, dump)` (lib/git/store/loose_object.rb:95). LooseObject also defines no instance `contains?`, `get`, `put` or `disambiguate`. The interface `store.rb` expects is taken as given.
- Objects.Save: `save` returns what `Sha1File#save` returns, which is the Sha1File itself (lib/git/store/sha1_file.rb:109). The model returns the object as `_dump` left it, which is what that Sha1File holds.
- Tree and parent references are kept as the ids the commit text names. `Tree.find` and `Commit.find` on them, and the `tree.hash` and `p.hash` calls in `_dump`, would fetch or hash other objects. `tree.hash` on an object is not part of this model.
- `klass.load(data)` and `object.dump` are not part of this model. They are modelled as a fresh object followed by its `_load`, and as the object's `_dump`.
- `Sha1File` raises `Git::CorruptSha1File`, which `lib/git/exceptions.rb` does not define. The model still keeps it as a distinct error.
- `Git::Object.load` dispatch is limited to the classes Blob, Tree and Commit. `const_get` could also find other constants, but the store's type check only lets `blob`, `commit`, `tree` and `tag` through.
- `inspect` is not modelled separately. It switches together with `_dump`, so the same `Proxied`/`Loaded` state covers it.
- Proxyable.Unproxy: a loader that raises is modelled as the `MalformedDump` error, and the object is not left half-rewritten.
- CommitText.Parse: the grammar is matched once, at the start of the dump. `split`'s further matches at line starts inside the message are modelled only in `CommitAsWritten`.
- CommitText.FormatZoneRoundTrip: holds only for offsets under 100 hours. Longer offsets render with more than four digits, which the `TZ` grammar rejects.
- CommitText.WellFormed requires times at or after the epoch. `strftime('%s')` writes earlier times with a `-`, which the `DATE` grammar rejects.
- Offsets are whole minutes. `DateTime` offsets that are fractions of a minute are not modelled.
- The CLI, repository discovery, `lib/git/lazy_object.rb`, `lib/git/file.rb`, `lib/git/object/file.rb` and `lib/git/collection.rb` are not part of this model.

## Findings

| source | as written | input that shows it | evidently intended | confidence | as-written member | corrected member |
|---|---|---|---|---|---|---|
| lib/git/object/tree.rb:113 | `high = mid - 1` on the exclusive bound `high` | search `[a, b]` for `a`: it reports `a` missing | `high = mid` | not executed | TreeAsWritten.SearchAsWrittenMissesFirstEntry | Tree.Search |
| lib/git/object/tree.rb:125 | replaces only when `index > 0` | a hit at index 0 in `[a, b]` appends a duplicate: `[a, b, a]` | `index >= 0` | not executed | TreeAsWritten.InsertAsWrittenDuplicatesHitAtZero | Tree.InsertKeepsSorted |
| lib/git/object/tree.rb:247 | `name + TREE_SUFFIX` is computed and discarded, and the type is compared with the symbol `:tree` | tree `foo` orders before blob `foo.txt` | append `/` to a tree's name | not executed | TreeAsWritten.SortKeyAsWrittenMisordersTree | Tree.SortKey |
| lib/git/object/commit.rb:80 | the parent count is `fields.length - 10` after a `split` whose repeated parent group yields only its last repetition | a merge commit with two parents loads with one | read every parent line | not executed | CommitAsWritten.MergeLosesParents | CommitText.ParseSerialize |
| lib/git/object/commit.rb:91 | the count assumes a message field, which `split` drops when the message is empty | one parent and an empty message: the parent is read as the author's name, each e-mail as seconds, and the committer's zone as the message | read the parent and an empty message | not executed | CommitAsWritten.LoadAsWrittenMisalignsEmptyMessage | CommitText.ParseSerialize |
| lib/git/object/commit.rb:77 | `split` matches `INPUT_FORMAT` again at every line start, inside the message too | a message holding a line `tree <40 word characters>` followed by author, committer and blank lines yields nineteen fields or more, read as nine parents or more | match the header once, at the start of the dump | not executed | CommitAsWritten.MessageHeaderResplits | CommitText.ParseSerialize |
| lib/git/object/commit.rb:97 | `offset > 0 ? '+' : '-'` | offset 0 is written `-0000` | `+0000`, as git writes it | not executed | CommitAsWritten.ZeroZoneAsWritten | CommitText.FormatZone |
