# AmiiboScanner validation pass in Dafny

AmiiboScanner checks an amiibo catalog (the `amiibo.json` database with its
five collections: amiibo series, amiibos, characters, game series, types)
against an optional folder of `.bin` dumps and against the catalog's icon
folder. It reports missing entries, missing files, malformed keys and unused
categories, and returns the OR of one flag per reported category as its exit
status.

This project models that pass as pure functions over immutable values:

- the catalog is a `Catalog` of `map<string, ...>` (module `Database`);
- a dump is a `(path, contents)` pair and the folder listing a `seq` of them;
- the icon folder is the `set<string>` of icon names for which `File.Exists`
  finds a file under `images\`. On a file system that ignores case, that set
  holds every case variant of each file name;
- findings are sets and maps per category (module `Validator`, datatype
  `Report`). "Missing From JSON" stays a sequence in scan order, proved
  duplicate-free.

Modules, in program order:

- `Hex`: lowercase hex rendering of bytes, with its inverse.
- `AmiiboId`: the dump identifier (8 bytes at offset 0x54), the key format,
  the positional segments of an 18-character amiibo key, and the icon name.
- `Scan`: the scan fold (first path wins, unknown identifiers reported once),
  "Missing Bin", and the merge of catalog-only amiibos keyed to their names.
- `Checks`: the icon check, implied-but-undeclared groups, the
  declared-but-unused check (the nested loop with `break`), and key formats.
- `ErrorBits`: the fourteen one-hot flags and their OR.
- `Validator`: the whole run. The run either ends with `Exited(code, report)`
  or stops with `Threw(site)`. It throws when the dump folder path is empty or
  when a `Substring` runs past the end of its string.
- `Scenarios`: the one-amiibo catalog with and without a dump folder, an empty
  dump folder path, and the no-argument run.

The folder listing on line 67 and the `Substring` calls on lines 106, 115, 123,
136, 155, 178 and 201 are modelled as an explicit outcome, not as
preconditions.

- A second argument that is empty or a lone backslash trims to the empty path
  (lines 62-65). `Directory.GetFiles` rejects that path on line 67, before
  any dump is read.

- The icon loop (lines 104-119) throws when a merged key is shorter than 18.
  This includes the identifier of a dump shorter than 0x5C bytes, because
  `Skip(0x54).Take(8)` then yields fewer than 8 bytes.
- The icon loop also throws when a dump folder was given and an entry with a
  missing icon has exactly that folder as its value. Line 115 sees that the
  value starts with the folder and takes the substring after the folder and
  one separator, which runs past the end. A catalog amiibo with no dump carries
  its name as its value, so an amiibo named like the folder argument triggers
  this.
- An orphan check throws when a declared key is shorter than 2 and the
  catalog has at least one amiibo; with no amiibos the inner loop never runs.

`Validator.RunThrowsIff` states the exact condition.

Facts of the code that the model keeps:

- The implied game series is the amiibo key's first five characters,
  `"0x"` included, so `"0xaaa"` for `0xaaaa000002120102`.
- The implied amiibo series is `"0x"` and the key's characters 14..16.
- The icon name uses characters 2..10 and 10..18 of the key.
- Identifiers found only in dumps go through the icon check. They do not go
  through the format check: that check reads only the catalog's collections.

## Model

| member | source | states |
|---|---|---|
| Hex.ByteHex | AmiiboScanner/Program.cs:69 | a byte prints as two lowercase hex digits whose values, high nibble first, give the byte back |
| Hex.Encode | AmiiboScanner/Program.cs:69 | the rendering has two characters per byte, all lowercase hex digits, with no separators |
| Hex.DecodeEncode | AmiiboScanner/Program.cs:69 | decoding the rendering of any bytes returns exactly those bytes |
| Hex.EncodeDecode | AmiiboScanner/Program.cs:69 | every string that decodes is the rendering of the bytes it decodes to |
| Hex.DecodeSomeIff | AmiiboScanner/Program.cs:69 | a string decodes exactly when it has even length and only lowercase hex digits; with the two round trips, the rendering is a bijection onto those strings |
| Hex.EncodeInjective | AmiiboScanner/Program.cs:69 | two byte sequences with the same rendering are equal |
| AmiiboId.IdField | AmiiboScanner/Program.cs:69 | the field is the bytes from offset 0x54, at most 8 of them, none when the file ends before 0x54 |
| AmiiboId.DumpId | AmiiboScanner/Program.cs:69 | the identifier is "0x" followed by two lowercase hex digits per byte taken, at most 18 characters in all |
| AmiiboId.DumpIdRoundTrip | AmiiboScanner/Program.cs:69 | parsing a derived identifier after its "0x" gives back the identifier field byte for byte |
| AmiiboId.DumpIdSameIff | AmiiboScanner/Program.cs:69-81 | two dumps share a map entry exactly when their identifier fields are equal |
| AmiiboId.DumpIdFullLength | AmiiboScanner/Program.cs:69 | a dump's identifier has the full 18 characters exactly when the file reaches offset 0x5C |
| AmiiboId.FullDumpIdIsValid | AmiiboScanner/Program.cs:229 | a dump identifier passes the amiibo key format check exactly when the file reaches offset 0x5C |
| AmiiboId.MatchHexId | AmiiboScanner/Program.cs:218-220 | the character-by-character matcher accepts exactly "0x" followed by one or more of [a-f0-9], and never a key containing a line feed |
| AmiiboId.MatchesAsWritten | AmiiboScanner/Program.cs:218 | the pattern as .NET evaluates it accepts every hex identifier, accepts only strings starting with "0x" and at least 3 long, and accepts beyond the hex identifiers only a string whose one line feed is its last character |
| AmiiboId.AsWrittenAcceptsTrailingLineFeed | AmiiboScanner/Program.cs:218-220 | the engine's reading of the pattern accepts the four-character amiibo series key "0xa\n", which is not a valid key |
| AmiiboId.AsWrittenAgreesWithoutTrailingLineFeed | AmiiboScanner/Program.cs:218 | for keys not ending in a line feed the engine's reading and the intended pattern agree |
| AmiiboId.Slice | AmiiboScanner/Program.cs:149-214 | each segment code has its fixed width (3, 2 or 4) and is the key's characters from its fixed offset (2, 14 or 2) |
| AmiiboId.ImpliedKey | AmiiboScanner/Program.cs:123-136 | the implied key is two characters longer than the segment's code and ends with it; it starts with the amiibo key's own first two characters for a game series and with "0x" otherwise |
| AmiiboId.ImpliedKeyIsPrefixedSlice | AmiiboScanner/Program.cs:123-155 | for a "0x" key the implied game series k[0..5] and amiibo series "0x"+k[14..16] are "0x" followed by the slice the orphan checks compare |
| AmiiboId.ImageName | AmiiboScanner/Program.cs:106 | the icon name of any key of at least 18 characters is 26 characters long |
| AmiiboId.ImageNameUsesFirstEighteen | AmiiboScanner/Program.cs:106 | the icon name depends only on the key's first 18 characters |
| AmiiboId.ImageNameRoundTrip | AmiiboScanner/Program.cs:106 | for a "0x" key the icon name gives back the key's first 18 characters |
| AmiiboId.ImageNameInjective | AmiiboScanner/Program.cs:106 | two distinct 18-character "0x" keys never share an icon name |
| ErrorBits.Flag | AmiiboScanner/Program.cs:13-29 | each declared enum value is 1 shifted by its category's position 0..13 |
| ErrorBits.AllCategoriesDistinct | AmiiboScanner/Program.cs:13-29 | the fourteen categories are listed once each and every category is listed |
| ErrorBits.FlagsOneHot | AmiiboScanner/Program.cs:13-29 | two flags share a bit exactly when they are the same flag, and every flag is below 0x4000 |
| ErrorBits.MaskOfBit | AmiiboScanner/Program.cs:73-261 | a flag is set in the OR of visited categories exactly when its category was visited and raised, and the OR stays below 0x4000 |
| ErrorBits.ToMaskBit | AmiiboScanner/Program.cs:263 | the exit status has a category's bit set exactly when that category was raised |
| ErrorBits.ToMaskZero | AmiiboScanner/Program.cs:263 | the exit status is zero exactly when no category was raised |
| ErrorBits.FromToMask | AmiiboScanner/Program.cs:263 | reading the categories back from the exit status gives exactly the raised ones |
| ErrorBits.ToMaskSingle | AmiiboScanner/Program.cs:33-37 | one category raised alone gives exactly its flag |
| Scan.ScanDumps | AmiiboScanner/Program.cs:67-82 | the map holds exactly the dumps' identifiers, each with the path of the first dump yielding it; "Missing From JSON" names each unknown identifier once, with that first path, and names only identifiers the catalog lacks |
| Scan.Step | AmiiboScanner/Program.cs:71-81 | one iteration adds the identifier to the map, keeps every earlier entry, gives a new identifier its path, and appends a report exactly when neither the catalog nor the map knows the identifier |
| Scan.FirstUnknownReported | AmiiboScanner/Program.cs:71-76 | the first dump yielding an identifier the catalog lacks is reported with that identifier and its own path |
| Scan.StepKeepsFirstPaths | AmiiboScanner/Program.cs:78-81 | one iteration adds a new identifier with its path and leaves every earlier first path in place |
| Scan.StepReportsOnce | AmiiboScanner/Program.cs:71-76 | one iteration reports an identifier only when neither the catalog nor the map has it, so the reports stay duplicate-free and complete |
| Scan.MissingBins | AmiiboScanner/Program.cs:86-94 | "Missing Bin" and the dumped identifiers split the catalog's amiibos: each amiibo is in exactly one of them |
| Scan.Merge | AmiiboScanner/Program.cs:99-102 | the merged keys are the discovered identifiers plus the catalog's; discovered entries keep their paths; catalog-only keys map to their names |
| Checks.MissingImages | AmiiboScanner/Program.cs:104-119 | "Missing Image" is a part of the merged map with the same values, and never holds an entry whose icon exists |
| Checks.MissingImagesExact | AmiiboScanner/Program.cs:104-119 | an entry is reported, with its own path or name, exactly when its icon is absent; the reported icons are exactly the absent ones; for 18-character keys starting with "0x" no icon is reported twice |
| Checks.MissingGroups | AmiiboScanner/Program.cs:123-145 | no declared key has a group, every amiibo whose implied key is undeclared makes a group exist, and groups hold only catalog amiibos |
| Checks.MissingGroupsPartition | AmiiboScanner/Program.cs:123-145 | each undeclared implied key has one non-empty group, holding exactly the amiibos that imply it; no declared key gets a group |
| Checks.Orphans | AmiiboScanner/Program.cs:149-214 | only declared keys are reported; with no amiibos all are; a reported key matches no amiibo's code |
| Checks.FindOrphans | AmiiboScanner/Program.cs:149-214 | the nested scan with break reports a declared key exactly when no amiibo key's slice equals the declared key without its first two characters; with no amiibos every declared key is reported |
| Checks.OrphansAreUnimplied | AmiiboScanner/Program.cs:123-214 | for "0x" keys, a declared key is unused exactly when no amiibo implies it, so the two directions of the check agree |
| Checks.InvalidKeys | AmiiboScanner/Program.cs:220-261 | only keys of the collection are reported; every key of the wrong length and every key containing a line feed is; a key that passes has length at least 3 and starts with "0x" |
| Checks.InvalidKeysAsWritten | AmiiboScanner/Program.cs:218-261 | the check as the engine runs it reports only keys of the collection, every key of the wrong length, and passes only keys starting with "0x" |
| Checks.AsWrittenMissesOnlyTrailingLineFeed | AmiiboScanner/Program.cs:218-261 | with the engine's pattern the format check reports a subset of the intended findings, and misses exactly the keys of the right length that are a valid key followed by one line feed |
| Checks.InvalidKeysCoverAsWritten | AmiiboScanner/Program.cs:218-261 | the intended check reports everything the engine's check reports, and beyond that only valid keys followed by one line feed |
| Checks.DumpKeysAreValid | AmiiboScanner/Program.cs:229 | amiibo keys read from dumps that reach offset 0x5C never fail the amiibo key format check |
| Validator.Validate | AmiiboScanner/Program.cs:30-65 | with no arguments the status is exactly 1 and only MissingArgs is raised; otherwise the status is the OR of the raised categories and MissingArgs is never raised; the dumps are scanned only when a second argument is given, under that argument without one trailing backslash |
| Validator.EmptyFolderArgumentThrows | AmiiboScanner/Program.cs:60-67 | with a dump folder argument, the run throws at the folder listing exactly when that argument is empty or a lone backslash |
| Validator.ListingThrowsIff | AmiiboScanner/Program.cs:60-67 | a run throws at the folder listing exactly when a dump folder was given with an empty path |
| Validator.TrimFolder | AmiiboScanner/Program.cs:64-65 | the folder is the argument, or the argument without its final backslash; it is shorter exactly when the argument ends with a backslash, and empty exactly when the argument is empty or a lone backslash |
| Validator.Run | AmiiboScanner/Program.cs:39-263 | an empty dump folder path throws at the listing; a run that reaches the end never raises MissingArgs, its status is the OR of the raised categories' flags and decodes back to exactly them, and the status is zero exactly when there are no findings |
| Validator.CrashSiteOf | AmiiboScanner/Program.cs:104-214 | a merged key too short for the icon name always throws in the icon loop; an orphan check can only be where the run throws when there is an amiibo and every merged key is full length |
| Validator.Findings | AmiiboScanner/Program.cs:67-261 | every finding names an entry of what was checked: missing bins are catalog amiibos, missing icons are merged keys, orphans and invalid keys belong to their own collection |
| Validator.DisplayThrowsIff | AmiiboScanner/Program.cs:113-116 | the relative display throws exactly for a value equal to a non-empty dump folder |
| Validator.NameEqualToFolderThrows | AmiiboScanner/Program.cs:99-116 | a catalog amiibo with no dump and no icon whose name equals the dump folder makes the run throw in the icon loop |
| Validator.MissingArgsOnly | AmiiboScanner/Program.cs:33-37 | the no-argument report raises only MissingArgs, and its status is that flag |
| Validator.ExitCodeBits | AmiiboScanner/Program.cs:73-263 | a run's status has a category's bit set exactly when the report has a finding of that category, and it is zero exactly when there are no findings |
| Validator.MergedKeys | AmiiboScanner/Program.cs:67-102 | the icon check walks the dumps' identifiers, when a dump folder was given, together with every catalog amiibo |
| Validator.MergedShortIff | AmiiboScanner/Program.cs:69-106 | every merged key is long enough for the icon name exactly when every catalog amiibo key is and every scanned dump reaches offset 0x5C |
| Validator.CrashSiteNoneIff | AmiiboScanner/Program.cs:104-214 | no Substring throws exactly when every merged key has 18 characters or more, no entry with a missing icon has the non-empty dump folder as its value, and, if the catalog has an amiibo, every declared key has 2 characters or more |
| Validator.RunThrowsIff | AmiiboScanner/Program.cs:67-214 | a run reaches the end exactly when every key is long enough for its substrings, the dump folder path, if given, is not empty, and no missing icon's value is the dump folder itself; a dump ending before 0x5C, scanned from a non-empty folder, makes the run throw in the icon loop |
| Validator.CataloguedAndDumpedNotReported | AmiiboScanner/Program.cs:71-94 | when the run exits, an amiibo both catalogued and dumped is reported neither as missing from the JSON nor as missing its bin |
| Validator.UnknownDumpReportedOnce | AmiiboScanner/Program.cs:71-119 | when the run exits, a dumped identifier the catalog lacks is reported with its first path, no identifier is reported twice, and the identifier reaches the icon check under that path |
| Validator.RunFindings | AmiiboScanner/Program.cs:60-102 | when the run exits, the reported unknown identifiers are the dumped ones minus the catalog's; "Missing Bin" is the catalog's minus the dumped ones, and empty without a scan |
| Validator.NoScanNoScanFindings | AmiiboScanner/Program.cs:60-102 | when every catalog key is long enough a run without a dump folder exits with nothing missing from the JSON or a bin, and every missing icon belongs to a catalog amiibo and is shown with its name |
| Validator.InvalidKeysExact | AmiiboScanner/Program.cs:218-261 | when the run exits, a key of each collection is reported invalid exactly when its length differs from 4, 18, 6, 5 or 4, or it is not "0x" and lowercase hex; each collection's invalid keys are its own |
| Validator.InvalidKeysAgainstEngine | AmiiboScanner/Program.cs:218-261 | for every collection, the run reports all that the engine's check reports, and beyond that only keys the engine lets through because of one final line feed |
| Scenarios.MarioScenario | AmiiboScanner/Program.cs:123-132 | the one-amiibo catalog with no game series reports the series "0xaaa" as missing, with that amiibo, and sets its bit |
| Scenarios.FolderNamedLikeAmiiboScenario | AmiiboScanner/Program.cs:104-116 | the arguments "api" and "Mario", with an empty dump folder and no icons, make the run throw in the icon loop, because the amiibo named "Mario" is shown relative to the folder "Mario" |
| Scenarios.LoneBackslashFolderScenario | AmiiboScanner/Program.cs:60-67 | the arguments "api" and "\\" make the run throw at the folder listing, whatever the catalog, dumps and icons |
| Scenarios.NoArgumentsScenario | AmiiboScanner/Program.cs:33-37 | with no arguments the result is status 1 whatever the catalog, dumps and images |

## Left out

- File and folder access (`File.ReadAllText`, `Directory.GetFiles`, `File.ReadAllBytes`, `File.Exists`). These become parameters: the dumps in enumeration order, and the set of icon names `File.Exists` finds. Of the listing's failures only the empty path is modelled, so Validator.EmptyFolderArgumentThrows is exact only about that path. A folder argument made only of spaces (`" "` or `" \\"`) is also rejected as empty on Windows, and a folder that does not exist, another malformed path or a denied access also throw in the program; the model takes the listing as given.
- JSON deserialisation. The catalog is given as maps, so a missing collection and null values are not represented. Some nulls would make the program throw and others would not:
  - a missing collection throws where the program first walks it;
  - a null amiibo record throws where its `Name` is read (lines 91, 101, 129, 142, 232);
  - a null amiibo name throws only at line 115, when a dump folder was given and that amiibo's icon is missing;
  - a null name in the other collections is only printed and never throws.
- Console text and the blank-line `needsSpacer` bookkeeping (lines 49-58 and the spacer calls). Findings are per-category sets and maps, not lines.
- Trailing-backslash trimming of the catalog path (lines 42-45): the catalog is a parameter, so its path is not modelled.
- Relative display of dump paths (lines 74 and 115): the dumps are taken to be what `Directory.GetFiles` returns, the folder followed by a separator and a name, so their substring never runs past the end. The model does not require this of its `dumps` parameter, and does not model the line-74 substring.
- Validator.TrimFolder: `EndsWith("\\")` at line 64 compares with the current culture. An argument ending in a backslash followed by a character the culture ignores, such as a soft hyphen U+00AD, is trimmed by the program but left unchanged here. The model trims exactly one final backslash.
- Checks.MissingImagesExact: `images` is defined as the set of icon names `File.Exists` finds, not as a folder listing. On Windows, which ignores case, an icon saved as `icon_aaaa0000-02120102.png` is also found for the key `0xAAAA000002120102`. The model gets this right only when `images` holds that case variant too; it does not derive the variants from a listing.
- Validator.DisplayThrowsIff: `StartsWith` at line 115 is culture-sensitive in .NET, and the model uses an ordinal prefix test. With the folder `"Mario\u00AD"` and the value `"Mario"` the program's test holds and `Substring(7)` throws, although the two differ. The "only if" direction, and the folder-versus-value conditions of Validator.CrashSiteNoneIff and Validator.RunThrowsIff, hold only for an ordinal comparison.
- Validator.RunThrowsIff: strings are sequences of Unicode code points, while .NET's `Length` and `Substring` count UTF-16 code units. A key holding a character outside the Basic Multilingual Plane therefore has a different length in the model. For example, a game series key made of one such character gets 1 here and 2 in .NET. The crash verdicts, slices and icon names for such keys differ.
- Validator.CrashSiteNoneIff: the same code-point lengths apply, so its length conditions hold as stated only for keys inside the Basic Multilingual Plane.
- Validator.InvalidKeysExact: the run uses the intended key pattern, not the engine's reading of it. A key that is valid apart from one final line feed, such as the amiibo series key "0xa\n", is reported invalid here and passes in the program. Validator.InvalidKeysAgainstEngine states exactly how far the two differ.
- The order in which `Dictionary` enumerates keys. The orphan loops pick keys in an arbitrary order, and every other finding is a set.
- Output printed before an exception. A run that throws is modelled as `Threw(site)` with no report.
- `Release`: it is carried in `Amiibo` but never read.
- Checks.MissingGroupsPartition: the groups list amiibo keys, not the printed amiibo names. The names are `catalog.amiibos[k].name` for each listed key.
- Parsing identifiers: the program has none. Hex.Decode and AmiiboId.ParseDumpId exist only as inverses for the round-trip proofs.

## Findings

| source | as written | input that shows it | evidently intended | confidence | as-written member | corrected member |
|---|---|---|---|---|---|---|
| AmiiboScanner/Program.cs:218 | `new Regex("^0x[a-f0-9]+$")`: without RegexOptions.Multiline, .NET's `$` also matches just before a final `\n`, so a key followed by one line feed matches | amiibo series key `"0xa\n"`: it has length 4 and matches, so it is not reported as an invalid amiibo series ID | keys are "0x" followed only by lowercase hex digits; a line feed makes a key invalid | medium, not executed | AmiiboId.AsWrittenAcceptsTrailingLineFeed | AmiiboId.MatchHexId |

The as-written check is `Checks.InvalidKeysAsWritten`.
`Checks.AsWrittenMissesOnlyTrailingLineFeed` proves it misses exactly these
keys. The rest of the model uses the intended predicate `AmiiboId.IsHexId`
through `Checks.InvalidKeys`.
