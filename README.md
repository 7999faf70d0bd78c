# GitSharp identities, reflogs and object checks in Dafny

This project models three pieces of GitSharp, a C# port of git:

- **PersonIdent** is the identity stamped on commits, tags and reflog lines. It holds a name, an e-mail address, a time in milliseconds since the epoch and a time-zone offset in minutes. Its external form is `name <email> seconds +HHMM`.
- **ReflogReader** reads a ref's log. Each line of the log records one update as `old-id SP new-id SP ident TAB comment LF`, and the reader lists the entries last line first.
- **ObjectChecker** decides whether the payload of a blob, tree, commit or tag obeys git's object grammar. Its behaviour is fixed by the checker's test suite.

## PersonIdent (`person_ident.dfy`, `person_ident_laws.dfy`, `person_ident_examples.dfy`)

`PersonIdents.PersonIdent` is a datatype: the source sets every field once, in a constructor. The four-argument constructor is the datatype's own constructor.

`PersonIdents.Parse` is the string constructor as written. It returns `Failure(Malformed(message))` for the two `ArgumentException`s the constructor raises itself, and `Failure(FormatFailure)` for every .NET failure on the way: a bad or overflowing number, a substring past the end, or `IndexOf` with a start index past the end.

The parser relies on .NET semantics, which `Text` (`text.dfy`) writes out:

- `String.IndexOf`, and `String.Trim` with `Char.IsWhiteSpace`;
- `Int32.Parse` / `Int64.Parse` with `NumberStyles.Integer`, and `Int64.ToString`;
- C#'s truncating `/` and `%`, and unchecked 32- and 64-bit arithmetic, including the `unchecked` `(int)When` of `GetHashCode`.

`ToExternalString` folds the `StringBuilder` appends of `ToExternalString`/`appendTimezone` into one string. `Equals` takes an `Option` for the `object` argument, where `None` is null or another type. `GetHashCode` takes `String.GetHashCode` as a function parameter.

The central law is the round trip `Parse(ToExternalString(p)) == Success(p)` (`PersonIdentLaws.RoundTrip`). It holds for a trimmed name without `<`, a trimmed e-mail without `>`, a `When` that is a multiple of 1000, and an offset under 100 hours that is east of UTC or a whole number of hours west of it. `PersonIdentLaws.ZoneValueOfOffset` shows the last condition cannot be dropped. `PersonIdents.ParseCorrected` is the constructor with that defect and one other repaired (see Findings); it reads back every offset under 100 hours (`PersonIdentLaws.RoundTripCorrected`).

## Reflog (`reflog.dfy`)

The log file is a parameter: `None` when the file does not exist, otherwise its bytes. `RawParseUtils.parsePersonIdentOnly` is also a function parameter, since its source is not part of this model.

- `ObjectId.FromString` reads 40 hexadecimal digits.
- `RawParseUtils.next`/`nextLF` are taken to return the index just past the character found, or -1 when it is absent. The -1 is an assumption read off the reader's own `== -1` checks (GitSharp/ReflogReader.cs:66-73); the helpers' source is not part of this model.
- `RawParseUtils.prevLF` scans backward and returns the index before the LF found, or -1.

All three are written out as functions with their contracts.

`Reflog.ParseEntry` is the `Entry(byte[], int)` constructor, advancing its cursor as the source does. It is proved equal to the positional reading `Reflog.EntryAt`. `Reflog.Entry` is a datatype whose fields are the four getters.

`Reflog.GetReverseEntries` is the backward `while` loop. Its invariant ties the entries collected so far to `Reflog.ReverseEntries`, a function of the log and `max`. The ordering and bound laws are proved about that function.

## ObjectChecker (`object_checker.dfy`, `tree_laws.dfy`, `commit_tag_laws.dfy`, `tree_examples.dfy`, `commit_tag_examples.dfy`)

The checker is a stateless accept-or-throw function on a `char[]`. `ObjectChecker.Check`, `CheckBlob`, `CheckTree`, `CheckCommit` and `CheckTag` are functions on strings. Each returns `Success(())`, or `Failure(message)` carrying the message of the `CorruptObjectException` the test expects.

- **Trees** are read entry by entry (`mode SP name NUL id`). The mode is in octal; the name is compared in git's tree order, with a tree's name followed by `/`; the id is 20 raw characters.
- **Commits** are read header by header: `tree`, any number of `parent` lines, `author` and `committer`.
- **Tags** are read the same way: `object`, `type`, `tag` and `tagger`.

The laws state the grammar in both directions, as an encoding:

- `TreeLaws.TreeAccepted` and `TreeLaws.TreeDecoded`: the checker accepts exactly the encodings of well-formed entry lists in tree order.
- `TreeLaws.TreeRejected`: other lists of well-formed entries are refused with an order diagnostic.
- `CommitTagLaws.CommitAccepted`/`CommitDecoded` and `TagAccepted`/`TagDecoded` do the same for commits and tags.

The rejection lemmas give, for each class of malformed input, the diagnostic the tests expect. Every test of the suite is stated as a lemma, named after the test.

## Model

| member | source | states |
|---|---|---|
| PersonIdents.WithTime | GitSharp/PersonIdent.cs:100-101 | the constructor from another ident keeps its name and e-mail address and takes the new time as When; the result equals `pi` exactly when the new time is `pi`'s, and its TimeZoneOffset is the offset given |
| PersonIdentLaws.MalformedExactly | GitSharp/PersonIdent.cs:105-116 | the constructor throws "no < was found" exactly when there is no '<', and "no > was found" exactly when there is a '<' but no '>' after it; every other failure is a .NET one |
| PersonIdentLaws.ParsedFields | GitSharp/PersonIdent.cs:140-141 | once both brackets are found, the name is the trimmed text before the first '<' and the e-mail address the trimmed text between it and the next '>' |
| PersonIdentLaws.NoTimeStamp | GitSharp/PersonIdent.cs:117-122 | with no space at or after index gt + 2, parsing succeeds with When 0 and TimeZoneOffset -1 |
| PersonIdentLaws.CloseAtEnd | GitSharp/PersonIdent.cs:117 | when the '>' is the last character, the constructor as written fails, because IndexOf is started past the end; the corrected one gives When 0 and offset -1 |
| PersonIdentLaws.ParseLayout | GitSharp/PersonIdent.cs:125-137 | an ident written with at most one space after '>' and any white space after the zone parses to the trimmed name and e-mail, seconds times 1000, and hours * 60 + minutes with a signed hour |
| PersonIdentLaws.TimezoneText | GitSharp/PersonIdent.cs:189-220 | appendTimezone writes '-' exactly for a negative offset, then the hours and the minutes of its magnitude, two digits each |
| PersonIdentLaws.ExternalIsLayout | GitSharp/PersonIdent.cs:174-187 | ToExternalString is the name, " <", the e-mail address, "> ", When / 1000 truncated, a space and the zone |
| PersonIdentLaws.ExternalParsed | GitSharp/PersonIdent.cs:103-187 | parsing the external form gives back the name, the e-mail address and When; the offset read back is the zone's hours * 60 plus its minutes, with the minutes signed only in the corrected reading |
| PersonIdentLaws.ZoneValueOfOffset | GitSharp/PersonIdent.cs:125-137 | the offset read back from a written zone equals the original exactly when the reading is corrected, or the offset is not negative, or it is a whole number of hours |
| PersonIdentLaws.RoundTrip | GitSharp/PersonIdent.cs:103-220 | Parse(ToExternalString(p)) == p for trimmed fields without brackets, When a multiple of 1000, and an offset under 100 hours that is east of UTC or whole hours west of it |
| PersonIdentLaws.RoundTripCorrected | GitSharp/PersonIdent.cs:125-137 | with the hour's sign applied to the minutes, the round trip holds for every offset under 100 hours |
| PersonIdentLaws.EqualsIsEquivalence | GitSharp/PersonIdent.cs:163-172 | Equals is reflexive, symmetric and transitive, and nothing equals null |
| PersonIdentLaws.EqualsUpToZone | GitSharp/PersonIdent.cs:163-172 | two idents are equal exactly when they differ in nothing but their time-zone offset |
| PersonIdentLaws.HashAgreesWithEquals | GitSharp/PersonIdent.cs:155-172 | equal idents have equal hash codes, whatever the string hash |
| PersonIdentLaws.HashRecoversEmailHash | GitSharp/PersonIdent.cs:155-161 | xor-ing the hash code with the low 32 bits of When gives back the e-mail address's hash |
| PersonIdentExamples.NewIdent | Tests/PersonIdentTests.cs:63-70 | the four-argument constructor keeps its arguments, and the external form is "A U Thor <author@example.com> 1142878501 +0000" |
| PersonIdentExamples.ParseIdentWest | Tests/PersonIdentTests.cs:73-81 | "... 1142878501 -0500" parses to its fields, and its external form is the string itself |
| PersonIdentExamples.ParseIdentEast | Tests/PersonIdentTests.cs:84-92 | "... 1142878501 +0230" parses to its fields, and its external form is the string itself |
| PersonIdentExamples.ParseNoSpaceBeforeOpen | Tests/PersonIdentTests.cs:95-102 | no space before '<' gives the same name, e-mail address and When |
| PersonIdentExamples.ParseNoSpaceAroundBrackets | Tests/PersonIdentTests.cs:105-112 | no space around the brackets gives the same fields |
| PersonIdentExamples.ParseSpacesBeforeOpen | Tests/PersonIdentTests.cs:115-122 | three spaces before '<' give the same fields |
| PersonIdentExamples.ParseTrailingSpace | Tests/PersonIdentTests.cs:125-132 | a space after the zone gives the same fields |
| PersonIdentExamples.NegativeHalfHour | GitSharp/PersonIdent.cs:125-137 | the external form of offset -150 is "... -0230"; the constructor as written reads it back as -90 and the corrected one as -150 |
| PersonIdentExamples.NothingAfterClose | GitSharp/PersonIdent.cs:117 | "A U Thor <author@example.com>" fails in the constructor as written and gives When 0, offset -1 in the corrected one |
| Text.IndexOf | GitSharp/PersonIdent.cs:105-117 | String.IndexOf returns -1 or an index at or after the start that holds the character, and no earlier index from the start holds it |
| Text.Trim | GitSharp/PersonIdent.cs:140-141 | String.Trim returns a string with no white space at either end, no longer than its argument |
| Text.TrimOfRange | GitSharp/PersonIdent.cs:140-141 | trimming a substring keeps exactly the range between its first and its last non-white character |
| Text.TrimSurrounded | GitSharp/PersonIdent.cs:140-141 | Trim removes exactly the white space around a trimmed text |
| Text.Quot | GitSharp/PersonIdent.cs:182 | C#'s `/` truncates toward zero: the quotient times the divisor lies between zero and the dividend, less than one divisor away from it |
| Text.Rem | GitSharp/PersonIdent.cs:206-207 | C#'s `%` gives a remainder that completes the truncated quotient and takes the sign of the dividend |
| Text.WrapInt32 | GitSharp/PersonIdent.cs:159 | an unchecked cast to int is the Int32 congruent to its argument modulo 2^32, and leaves values in range unchanged |
| Text.WrapInt64 | GitSharp/PersonIdent.cs:136 | unchecked long arithmetic gives the Int64 congruent to the exact result modulo 2^64, and leaves values in range unchanged |
| Text.XorTwice | GitSharp/PersonIdent.cs:159 | xor-ing an int with the same int twice gives it back |
| Text.IntToString | GitSharp/PersonIdent.cs:182 | Int64.ToString writes a minus sign for a negative number, then its decimal digits without leading zeros |
| Text.ParseDigitsIn | GitSharp/PersonIdent.cs:129-136 | int.Parse of an optional sign followed by digits gives the digits' value, negated after '-' |
| Text.ParseIntegerOfIntToString | GitSharp/PersonIdent.cs:136 | parsing what Int64.ToString wrote gives the number back |
| Reflog.HexBytesOfText | GitSharp/ReflogReader.cs:57-62 | reading back the hexadecimal text of some bytes gives those bytes |
| Reflog.ObjectIdOfText | GitSharp/ReflogReader.cs:57-62 | the 40 hexadecimal digits of an id, at pos, read back as that id |
| Reflog.ObjectIdAt | GitSharp/ReflogReader.cs:57 | ObjectId.FromString succeeds only with 40 bytes left, and gives 20 bytes |
| Reflog.ParseEntry | GitSharp/ReflogReader.cs:55-76 | the cursor-advancing constructor gives exactly the entry, or the error, of the line read by position |
| Reflog.EntryOfLine | GitSharp/ReflogReader.cs:55-76 | a line laid out as "old SP new SP ident TAB comment LF" parses to the two ids, the ident found at pos + 82, and the comment between the TAB and the LF |
| Reflog.EntryErrors | GitSharp/ReflogReader.cs:59-73 | the constructor throws its own ArgumentException exactly when there is no space after an id, no TAB after the ident, or no LF after the TAB; the last two rest on the assumed -1 of Reflog.Next |
| Reflog.EntryComment | GitSharp/ReflogReader.cs:66-75 | the comment of a parsed entry starts just after the first TAB after the ident, holds no LF, and is followed by an LF |
| Reflog.CommentLine | GitSharp/ReflogReader.cs:66-75 | the text between the TAB and the LF that next and nextLF find holds no LF, and the text before the TAB holds no TAB |
| Reflog.Next | GitSharp/ReflogReader.cs:66-73 | next/nextLF return -1, or an index just past an occurrence of the character; the -1 for an absent character is assumed from the reader's checks |
| Reflog.NextAbsent | GitSharp/ReflogReader.cs:66-73 | next returns -1 exactly when the character does not occur from the start index on, under the assumed -1 of Reflog.Next |
| Reflog.PrevFound | GitSharp/ReflogReader.cs:133-137 | prevLF stops just before an LF, with no LF between that one and where the scan began |
| Reflog.GetReverseEntries | GitSharp/ReflogReader.cs:122-142 | the backward loop returns exactly the entries, or the first error, of the walk that ReverseEntries specifies |
| Reflog.GetAllReverseEntries | GitSharp/ReflogReader.cs:117-120 | getReverseEntries() is getReverseEntries(int.MaxValue) |
| Reflog.GetLastEntry | GitSharp/ReflogReader.cs:111-115 | getLastEntry returns the one entry of getReverseEntries(1), or null when there is none |
| Reflog.Starts | GitSharp/ReflogReader.cs:133-140 | the walk parses at most max entries, and none when the cursor is already before the start |
| Reflog.StartsDescend | GitSharp/ReflogReader.cs:133-140 | the walk visits line starts, each before the one visited just earlier |
| Reflog.StartsAdjacent | GitSharp/ReflogReader.cs:133-140 | the walk skips no line: between two lines it visits there is no LF but the one that ends the earlier line |
| Reflog.StartsReachStart | GitSharp/ReflogReader.cs:133-140 | a walk that visits fewer lines than allowed ends with the line at offset 0 |
| Reflog.StartsPrefix | GitSharp/ReflogReader.cs:135 | a walk allowed fewer entries is the beginning of a walk allowed more |
| Reflog.ParseAllAt | GitSharp/ReflogReader.cs:135-140 | each entry of a successful walk is the entry parsed at its offset |
| Reflog.ParseAllPrefix | GitSharp/ReflogReader.cs:135-140 | if a longer walk parses, so does its beginning, to the beginning of its entries |
| Reflog.ReverseEntriesEmpty | GitSharp/ReflogReader.cs:126-135 | a missing log file, or max <= 0, gives an empty list and not an error |
| Reflog.ReverseEntriesOrder | GitSharp/ReflogReader.cs:122-142 | a successful listing has at most max entries, each parsed at a line start, last line first, and ends with the line at offset 0 when it has fewer than max |
| Reflog.ReverseWalkBegins | GitSharp/ReflogReader.cs:133 | the walk begins with the last line that an LF ends; text after the last LF is not read |
| Reflog.LastEntryIsFirst | GitSharp/ReflogReader.cs:111-115 | getLastEntry is the first entry of every longer listing that succeeds, or null when that listing is empty |
| ObjectChecker.CheckBlob | Tests/ObjectCheckerTests.cs:73-81 | every blob is accepted |
| ObjectChecker.OctalText | Tests/ObjectCheckerTests.cs:1216-1247 | the octal spelling of a mode is octal digits, beginning with '0' exactly for mode 0 |
| ObjectChecker.Parents | Tests/ObjectCheckerTests.cs:285-381 | reading the parent lines either fails with "invalid parent" or leaves the text after them |
| ObjectChecker.ObjectNameHeader | Tests/ObjectCheckerTests.cs:411-652 | an object-name header either fails with its "missing" or its "invalid" message, or consumes at least one character |
| ObjectChecker.PersonHeader | Tests/ObjectCheckerTests.cs:84-282 | a person header either fails with its "missing" or its "invalid" message, or consumes at least one character |
| TreeLaws.OctalValueOfText | Tests/ObjectCheckerTests.cs:1216-1247 | the octal spelling of a mode reads back as that mode |
| TreeLaws.OctalTextOfValue | Tests/ObjectCheckerTests.cs:1250-1299 | octal digits without a leading zero are the spelling of their value |
| TreeLaws.ScanModeSplit | Tests/ObjectCheckerTests.cs:1182-1299 | an accepted mode is octal digits without a leading zero, and the mode is their value |
| TreeLaws.ScanNameClean | Tests/ObjectCheckerTests.cs:1302-1316 | an accepted name holds no NUL and no '/' |
| TreeLaws.EntryHeaderFrom | Tests/ObjectCheckerTests.cs:1566-1617 | the header of a well-formed entry reads back its mode and name |
| TreeLaws.ModePart | Tests/ObjectCheckerTests.cs:1182-1299 | the mode of an accepted header is one of the five supported ones, spelt in octal without a leading zero before its space |
| TreeLaws.NamePart | Tests/ObjectCheckerTests.cs:1302-1367 | the name of an accepted header is valid and lies between the space and a NUL |
| TreeLaws.EntriesOf | Tests/ObjectCheckerTests.cs:1035-1162 | on well-formed entries the checker gives the order verdict: the first repeated name or inversion decides |
| TreeLaws.EncodesTree | Tests/ObjectCheckerTests.cs:1566-1617 | the encoding of a list of entries is read as that list |
| TreeLaws.VerdictIsOrder | Tests/ObjectCheckerTests.cs:1035-1162 | the order verdict accepts exactly the lists in tree order with distinct names, and otherwise reports "duplicate entry names" or "incorrectly sorted" |
| TreeLaws.TreeAccepted | Tests/ObjectCheckerTests.cs:1566-1699 | every list of well-formed entries in tree order encodes an accepted tree |
| TreeLaws.TreeRejected | Tests/ObjectCheckerTests.cs:1035-1162 | a list of well-formed entries out of tree order is refused with "duplicate entry names" or "incorrectly sorted" |
| TreeLaws.EntriesDecoded | Tests/ObjectCheckerTests.cs:1566-1699 | what the checker reads successfully is a run of well-formed entries |
| TreeLaws.TreeDecoded | Tests/ObjectCheckerTests.cs:1541-1699 | every accepted tree is the encoding of a list of well-formed entries in tree order |
| TreeLaws.HeaderRejected | Tests/ObjectCheckerTests.cs:1165-1367 | a refused entry header refuses the whole tree with the same message |
| TreeLaws.ModeRejected | Tests/ObjectCheckerTests.cs:1216-1247 | an unsupported mode is refused with "invalid mode " and the mode in octal |
| TreeLaws.NameSlashRejected | Tests/ObjectCheckerTests.cs:1302-1316 | a name holding '/' is refused with "name contains '/'" |
| TreeLaws.NameUnterminated | Tests/ObjectCheckerTests.cs:1370-1384 | a name that runs to the end without its NUL is refused with "truncated in name" |
| TreeLaws.NameReadRejected | Tests/ObjectCheckerTests.cs:1319-1367 | a name read in full that is empty, "." or ".." refuses the tree with the matching message |
| TreeLaws.EmptyNameRejected | Tests/ObjectCheckerTests.cs:1353-1367 | an empty name is refused with "zero length name" |
| TreeLaws.DotNameRejected | Tests/ObjectCheckerTests.cs:1319-1333 | the name "." is refused with "invalid name '.'" |
| TreeLaws.DotDotNameRejected | Tests/ObjectCheckerTests.cs:1336-1350 | the name ".." is refused with "invalid name '..'" |
| TreeLaws.IdShortRejected | Tests/ObjectCheckerTests.cs:1387-1401 | a header read in full with fewer than 20 characters after it is refused with "truncated in object id" |
| TreeLaws.IdTruncated | Tests/ObjectCheckerTests.cs:1387-1401 | a valid header followed by fewer than 20 characters is refused with "truncated in object id" |
| TreeLaws.PathCompareAntisymmetric | Tests/ObjectCheckerTests.cs:1620-1699 | swapping the operands of the tree-order comparison negates it |
| TreeLaws.PathCompareZero | Tests/ObjectCheckerTests.cs:1089-1162 | between valid names the comparison is zero exactly when the names are equal, whatever the modes |
| CommitTagLaws.IdentLengthOf | Tests/ObjectCheckerTests.cs:1489-1538 | every well-formed ident `name <email> digits ±hhmm` is accepted in full |
| CommitTagLaws.IdentOfLength | Tests/ObjectCheckerTests.cs:84-282 | what the ident scan accepts is the text of a well-formed ident |
| CommitTagLaws.ParentsOf | Tests/ObjectCheckerTests.cs:1419-1486 | any number of well-formed parent lines is read in full |
| CommitTagLaws.ParentsSplit | Tests/ObjectCheckerTests.cs:285-408 | what the parent scan reads is a run of well-formed parent lines, and no `parent ` line follows it |
| CommitTagLaws.CommitAccepted | Tests/ObjectCheckerTests.cs:1419-1538 | every well-formed commit record, followed by any message, is accepted |
| CommitTagLaws.CommitDecoded | Tests/ObjectCheckerTests.cs:1419-1538 | every accepted commit is the text of a well-formed commit record followed by a message |
| CommitTagLaws.TagAccepted | Tests/ObjectCheckerTests.cs:1548-1563 | every well-formed tag record, followed by any message, is accepted |
| CommitTagLaws.TagDecoded | Tests/ObjectCheckerTests.cs:1548-1563 | every accepted tag is the text of a well-formed tag record followed by a message |
| CommitTagLaws.NameLineRead | Tests/ObjectCheckerTests.cs:411-492 | the value of an object-name header is accepted exactly when it is 40 hex digits and an LF |
| CommitTagLaws.ObjectNameHeaderRejected | Tests/ObjectCheckerTests.cs:411-492 | a keyword followed by anything but 40 hex digits and an LF gives the header's "invalid" message |
| CommitTagLaws.PersonHeaderRejected | Tests/ObjectCheckerTests.cs:84-282 | a keyword followed by anything but a well-formed ident and an LF gives the header's "invalid" message |
| CommitTagLaws.ParentsRejected | Tests/ObjectCheckerTests.cs:285-381 | well-formed parent lines followed by a malformed one are refused with "invalid parent" |
| CommitTagLaws.CommitNoTree | Tests/ObjectCheckerTests.cs:571-652 | a commit not beginning with `tree ` is refused with "no tree header" |
| CommitTagLaws.CommitBadTree | Tests/ObjectCheckerTests.cs:411-492 | a malformed tree id is refused with "invalid tree" |
| CommitTagLaws.CommitBadParent | Tests/ObjectCheckerTests.cs:285-381 | a malformed parent id after well-formed ones is refused with "invalid parent" |
| CommitTagLaws.CommitNoAuthor | Tests/ObjectCheckerTests.cs:495-517 | after the parents, a line that is neither `parent ` nor `author ` is refused with "no author" |
| CommitTagLaws.CommitBadAuthor | Tests/ObjectCheckerTests.cs:84-256 | a malformed author ident is refused with "invalid author" |
| CommitTagLaws.CommitNoCommitter | Tests/ObjectCheckerTests.cs:520-568 | a well-formed author not followed by `committer ` is refused with "no committer" |
| CommitTagLaws.CommitBadCommitter | Tests/ObjectCheckerTests.cs:259-282 | a malformed committer ident is refused with "invalid committer" |
| CommitTagLaws.TagNoObject | Tests/ObjectCheckerTests.cs:705-761 | a tag not beginning with `object ` is refused with "no object header" |
| CommitTagLaws.TagBadObject | Tests/ObjectCheckerTests.cs:764-823 | a malformed object id is refused with "invalid object" |
| CommitTagLaws.TagNoType | Tests/ObjectCheckerTests.cs:945-1009 | a well-formed object line not followed by `type ` is refused with "no type header" |
| CommitTagLaws.TagNoTag | Tests/ObjectCheckerTests.cs:850-942 | a type line not followed by a `tag ` line, including one without its LF, is refused with "no tag header" |
| CommitTagLaws.TagNoTagger | Tests/ObjectCheckerTests.cs:826-847 | a tag line not followed by a `tagger ` line, including one without its LF, is refused with "no tagger header" |
| CommitTagLaws.TagBadTagger | Tests/ObjectCheckerTests.cs:655-702 | a malformed tagger ident is refused with "invalid tagger" |
| CommitTagLaws.IdentNoOpen | Tests/ObjectCheckerTests.cs:109-156 | an ident with no '<' before its LF is refused |
| CommitTagLaws.IdentNoClose | Tests/ObjectCheckerTests.cs:84-106 | an ident with a '<' but no '>' after it before its LF is refused |
| CommitTagLaws.IdentNoTime | Tests/ObjectCheckerTests.cs:159-231 | an ident whose '>' is not followed by a space and a digit is refused |
| CommitTagLaws.IdentNoZone | Tests/ObjectCheckerTests.cs:234-256 | an ident whose seconds are followed by a space and then by fewer than five characters, or by no sign, is refused |
| CommitTagExamples.CheckBlobAny | Tests/ObjectCheckerTests.cs:73-81 | every buffer is accepted, by `checkBlob` and by `check` with the blob type |
| CommitTagExamples.ValidCommitNoParent | Tests/ObjectCheckerTests.cs:1506-1520 | the test's commit is accepted, also through `check` |
| CommitTagExamples.ValidCommit1Parent | Tests/ObjectCheckerTests.cs:1443-1461 | the test's commit is accepted, also through `check` |
| CommitTagExamples.ValidCommit2Parent | Tests/ObjectCheckerTests.cs:1464-1486 | the test's commit is accepted, also through `check` |
| CommitTagExamples.ValidCommit128Parent | Tests/ObjectCheckerTests.cs:1419-1440 | the test's commit is accepted, also through `check` |
| CommitTagExamples.ValidCommitBlankAuthor | Tests/ObjectCheckerTests.cs:1489-1503 | the test's commit is accepted, also through `check` |
| CommitTagExamples.ValidCommitNormalTime | Tests/ObjectCheckerTests.cs:1523-1538 | the test's commit is accepted, also through `check` |
| CommitTagExamples.InvalidCommitNoTree1 | Tests/ObjectCheckerTests.cs:571-589 | the test's commit is refused with "no tree header" |
| CommitTagExamples.InvalidCommitNoTree2 | Tests/ObjectCheckerTests.cs:592-610 | the test's commit is refused with "no tree header" |
| CommitTagExamples.InvalidCommitNoTree3 | Tests/ObjectCheckerTests.cs:613-631 | the test's commit is refused with "no tree header" |
| CommitTagExamples.InvalidCommitNoTree4 | Tests/ObjectCheckerTests.cs:634-652 | the test's commit is refused with "no tree header" |
| CommitTagExamples.InvalidCommitInvalidTree1 | Tests/ObjectCheckerTests.cs:411-429 | the test's commit is refused with "invalid tree" |
| CommitTagExamples.InvalidCommitInvalidTree2 | Tests/ObjectCheckerTests.cs:432-450 | the test's commit is refused with "invalid tree" |
| CommitTagExamples.InvalidCommitInvalidTree3 | Tests/ObjectCheckerTests.cs:453-471 | the test's commit is refused with "invalid tree" |
| CommitTagExamples.InvalidCommitInvalidTree4 | Tests/ObjectCheckerTests.cs:474-492 | the test's commit is refused with "invalid tree" |
| CommitTagExamples.InvalidCommitInvalidParent1 | Tests/ObjectCheckerTests.cs:285-306 | the test's commit is refused with "invalid parent" |
| CommitTagExamples.InvalidCommitInvalidParent2 | Tests/ObjectCheckerTests.cs:309-331 | the test's commit is refused with "invalid parent" |
| CommitTagExamples.InvalidCommitInvalidParent3 | Tests/ObjectCheckerTests.cs:334-356 | the test's commit is refused with "invalid parent" |
| CommitTagExamples.InvalidCommitInvalidParent4 | Tests/ObjectCheckerTests.cs:359-381 | the test's commit is refused with "invalid parent" |
| CommitTagExamples.InvalidCommitInvalidParent5 | Tests/ObjectCheckerTests.cs:384-408 | the test's commit is refused with "no author" |
| CommitTagExamples.InvalidCommitNoAuthor | Tests/ObjectCheckerTests.cs:495-517 | the test's commit is refused with "no author" |
| CommitTagExamples.InvalidCommitNoCommitter1 | Tests/ObjectCheckerTests.cs:520-542 | the test's commit is refused with "no committer" |
| CommitTagExamples.InvalidCommitNoCommitter2 | Tests/ObjectCheckerTests.cs:545-568 | the test's commit is refused with "no committer" |
| CommitTagExamples.InvalidCommitInvalidAuthor1 | Tests/ObjectCheckerTests.cs:84-106 | the test's commit is refused with "invalid author" |
| CommitTagExamples.InvalidCommitInvalidAuthor2 | Tests/ObjectCheckerTests.cs:109-131 | the test's commit is refused with "invalid author" |
| CommitTagExamples.InvalidCommitInvalidAuthor3 | Tests/ObjectCheckerTests.cs:134-156 | the test's commit is refused with "invalid author" |
| CommitTagExamples.InvalidCommitInvalidAuthor4 | Tests/ObjectCheckerTests.cs:159-181 | the test's commit is refused with "invalid author" |
| CommitTagExamples.InvalidCommitInvalidAuthor5 | Tests/ObjectCheckerTests.cs:184-206 | the test's commit is refused with "invalid author" |
| CommitTagExamples.InvalidCommitInvalidAuthor6 | Tests/ObjectCheckerTests.cs:209-231 | the test's commit is refused with "invalid author" |
| CommitTagExamples.InvalidCommitInvalidAuthor7 | Tests/ObjectCheckerTests.cs:234-256 | the test's commit is refused with "invalid author" |
| CommitTagExamples.InvalidCommitInvalidCommitter | Tests/ObjectCheckerTests.cs:259-282 | the test's commit is refused with "invalid committer" |
| CommitTagExamples.ValidTag | Tests/ObjectCheckerTests.cs:1548-1563 | the test's tag is accepted, also through `check` |
| CommitTagExamples.InvalidTagNoObject1 | Tests/ObjectCheckerTests.cs:705-719 | the test's tag is refused with "no object header" |
| CommitTagExamples.InvalidTagNoObject2 | Tests/ObjectCheckerTests.cs:722-740 | the test's tag is refused with "no object header" |
| CommitTagExamples.InvalidTagNoObject3 | Tests/ObjectCheckerTests.cs:743-761 | the test's tag is refused with "no object header" |
| CommitTagExamples.InvalidTagNoObject4 | Tests/ObjectCheckerTests.cs:764-782 | the test's tag is refused with "invalid object" |
| CommitTagExamples.InvalidTagNoObject5 | Tests/ObjectCheckerTests.cs:785-803 | the test's tag is refused with "invalid object" |
| CommitTagExamples.InvalidTagNoObject6 | Tests/ObjectCheckerTests.cs:806-823 | the test's tag is refused with "invalid object" |
| CommitTagExamples.InvalidTagNoType1 | Tests/ObjectCheckerTests.cs:945-963 | the test's tag is refused with "no type header" |
| CommitTagExamples.InvalidTagNoType2 | Tests/ObjectCheckerTests.cs:966-986 | the test's tag is refused with "no type header" |
| CommitTagExamples.InvalidTagNoType3 | Tests/ObjectCheckerTests.cs:989-1009 | the test's tag is refused with "no type header" |
| CommitTagExamples.InvalidTagNoType4 | Tests/ObjectCheckerTests.cs:1012-1032 | the test's tag is refused with "no tag header" |
| CommitTagExamples.InvalidTagNoTagHeader1 | Tests/ObjectCheckerTests.cs:850-870 | the test's tag is refused with "no tag header" |
| CommitTagExamples.InvalidTagNoTagHeader2 | Tests/ObjectCheckerTests.cs:873-894 | the test's tag is refused with "no tag header" |
| CommitTagExamples.InvalidTagNoTagHeader3 | Tests/ObjectCheckerTests.cs:897-918 | the test's tag is refused with "no tag header" |
| CommitTagExamples.InvalidTagNoTagHeader4 | Tests/ObjectCheckerTests.cs:921-942 | the test's tag is refused with "no tagger header" |
| CommitTagExamples.InvalidTagNoTaggerHeader1 | Tests/ObjectCheckerTests.cs:826-847 | the test's tag is refused with "no tagger header" |
| CommitTagExamples.InvalidTagInvalidTaggerHeader1 | Tests/ObjectCheckerTests.cs:655-677 | the test's tag is refused with "invalid tagger" |
| CommitTagExamples.InvalidTagInvalidTaggerHeader3 | Tests/ObjectCheckerTests.cs:680-702 | the test's tag is refused with "invalid tagger" |
| CommitTagExamples.InvalidType | Tests/ObjectCheckerTests.cs:1404-1416 | `check` with the unknown type code -1 fails with "Invalid object type: -1" |
| TreeExamples.InvalidTreeBadSorting1 | Tests/ObjectCheckerTests.cs:1035-1050 | the test's tree is refused with "incorrectly sorted" |
| TreeExamples.InvalidTreeBadSorting2 | Tests/ObjectCheckerTests.cs:1053-1068 | the test's tree is refused with "incorrectly sorted" |
| TreeExamples.InvalidTreeBadSorting3 | Tests/ObjectCheckerTests.cs:1071-1086 | the test's tree is refused with "incorrectly sorted" |
| TreeExamples.InvalidTreeDuplicateNames1 | Tests/ObjectCheckerTests.cs:1089-1104 | the test's tree is refused with "duplicate entry names" |
| TreeExamples.InvalidTreeDuplicateNames2 | Tests/ObjectCheckerTests.cs:1107-1122 | the test's tree is refused with "duplicate entry names" |
| TreeExamples.InvalidTreeDuplicateNames3 | Tests/ObjectCheckerTests.cs:1125-1140 | the test's tree is refused with "duplicate entry names" |
| TreeExamples.InvalidTreeDuplicateNames4 | Tests/ObjectCheckerTests.cs:1143-1162 | the test's tree is refused with "duplicate entry names" |
| TreeExamples.ValidTree1 | Tests/ObjectCheckerTests.cs:1566-1572 | the test's tree is accepted |
| TreeExamples.ValidTree2 | Tests/ObjectCheckerTests.cs:1575-1581 | the test's tree is accepted |
| TreeExamples.ValidTree3 | Tests/ObjectCheckerTests.cs:1584-1590 | the test's tree is accepted |
| TreeExamples.ValidTree4 | Tests/ObjectCheckerTests.cs:1593-1599 | the test's tree is accepted |
| TreeExamples.ValidTree5 | Tests/ObjectCheckerTests.cs:1602-1608 | the test's tree is accepted |
| TreeExamples.ValidTree6 | Tests/ObjectCheckerTests.cs:1611-1617 | the test's tree is accepted |
| TreeExamples.ValidTreeSorting1 | Tests/ObjectCheckerTests.cs:1620-1627 | the test's tree is accepted |
| TreeExamples.ValidTreeSorting2 | Tests/ObjectCheckerTests.cs:1630-1637 | the test's tree is accepted |
| TreeExamples.ValidTreeSorting3 | Tests/ObjectCheckerTests.cs:1640-1647 | the test's tree is accepted |
| TreeExamples.ValidTreeSorting4 | Tests/ObjectCheckerTests.cs:1650-1657 | the test's tree is accepted |
| TreeExamples.ValidTreeSorting5 | Tests/ObjectCheckerTests.cs:1660-1668 | the test's tree is accepted |
| TreeExamples.ValidTreeSorting6 | Tests/ObjectCheckerTests.cs:1671-1678 | the test's tree is accepted |
| TreeExamples.ValidTreeSorting7 | Tests/ObjectCheckerTests.cs:1681-1688 | the test's tree is accepted |
| TreeExamples.ValidTreeSorting8 | Tests/ObjectCheckerTests.cs:1691-1701 | the test's tree is accepted |
| TreeExamples.InvalidTreeModeMissingName | Tests/ObjectCheckerTests.cs:1165-1179 | the test's tree is refused with "truncated in mode" |
| TreeExamples.InvalidTreeModeNotOctal1 | Tests/ObjectCheckerTests.cs:1182-1196 | the test's tree is refused with "invalid mode character" |
| TreeExamples.InvalidTreeModeNotOctal2 | Tests/ObjectCheckerTests.cs:1199-1213 | the test's tree is refused with "invalid mode character" |
| TreeExamples.InvalidTreeModeNotSupportedMode1 | Tests/ObjectCheckerTests.cs:1216-1230 | the test's tree is refused with "invalid mode 1" |
| TreeExamples.InvalidTreeModeNotSupportedMode2 | Tests/ObjectCheckerTests.cs:1233-1247 | the test's tree is refused with "invalid mode " |
| TreeExamples.InvalidTreeModeStartsWithZero1 | Tests/ObjectCheckerTests.cs:1250-1264 | the test's tree is refused with "mode starts with '0'" |
| TreeExamples.InvalidTreeModeStartsWithZero2 | Tests/ObjectCheckerTests.cs:1267-1281 | the test's tree is refused with "mode starts with '0'" |
| TreeExamples.InvalidTreeModeStartsWithZero3 | Tests/ObjectCheckerTests.cs:1285-1299 | the test's tree is refused with "mode starts with '0'" |
| TreeExamples.InvalidTreeNameContainsSlash | Tests/ObjectCheckerTests.cs:1302-1316 | the test's tree is refused with "name contains '/'" |
| TreeExamples.InvalidTreeNameIsDot | Tests/ObjectCheckerTests.cs:1319-1333 | the test's tree is refused with "invalid name '.'" |
| TreeExamples.InvalidTreeNameIsDotDot | Tests/ObjectCheckerTests.cs:1336-1350 | the test's tree is refused with "invalid name '..'" |
| TreeExamples.InvalidTreeNameIsEmpty | Tests/ObjectCheckerTests.cs:1353-1367 | the test's tree is refused with "zero length name" |
| TreeExamples.InvalidTreeTruncatedInName | Tests/ObjectCheckerTests.cs:1370-1384 | the test's tree is refused with "truncated in name" |
| TreeExamples.InvalidTreeTruncatedInObjectId | Tests/ObjectCheckerTests.cs:1387-1401 | the test's tree is refused with "truncated in object id" |
| TreeExamples.ValidEmptyTree | Tests/ObjectCheckerTests.cs:1541-1545 | the empty tree is accepted, by `checkTree` and by `check` with the tree type |

## Left out

- The ObjectChecker implementation is not part of this model. The checker is specified by its test suite. Where no test decides which of two faults is reported, the model reports the first fault met in reading order (for a tree entry: mode, name, order against the entries before it, then id; for commits and tags: header by header).
- ObjectChecker.IdentLength: the ident grammar is exactly `name <email> SP digits SP sign four-digits`, as the test vectors use it. Any looser reading the real checker might allow is not modelled.
- ObjectChecker.SupportedMode: only the five modes 40000, 100644, 100755, 120000 and 160000 are accepted. Other permission bits that git tolerates in old trees are not modelled, because no test exercises them.
- Commit and tag messages are not read, and neither are any headers after `committer` or `tagger` (encoding, gpgsig and so on), because no test exercises them.
- Characters are Dafny `char`s (Unicode scalar values), not UTF-16 code units. Surrogate pairs and the byte-to-char decoding of object payloads are not modelled.
- PersonIdent's constructors that read the clock, the local time zone or the repository configuration (GitSharp/PersonIdent.cs:59-90) are not modelled. They depend on DateTime.Now, TimeZoneInfo and RepositoryConfig.
- PersonIdent.ToString (GitSharp/PersonIdent.cs:222-239) is unfinished in the source and is not modelled.
- PersonIdents.Parse: the .NET exceptions inside the string constructor (FormatException, OverflowException, ArgumentOutOfRangeException) are one error, FormatFailure. Only the two ArgumentExceptions the constructor raises itself carry their messages.
- PersonIdents.GetHashCode: String.GetHashCode is a function parameter. Its value differs between .NET versions and processes.
- PersonIdents.ToExternalString builds its text in one expression instead of appending to a StringBuilder. The text is the same.
- PersonIdentLaws.RoundTrip: only offsets under 100 hours are covered. Larger offsets write three-digit hours, which the fixed three-character hour field cannot read back.
- ReflogReader's file access (the constructor, FileInfo, Path.Combine, IsFile and NB.ReadFully, GitSharp/ReflogReader.cs:106-109 and 126-131) is not modelled. The log is passed in as its bytes, or None when the file does not exist.
- RawParseUtils.parsePersonIdentOnly is a function parameter, because its source is not part of this model.
- ObjectId.FromString is modelled only as "40 hexadecimal digits of either case", because its source is not part of this model.
- RawParseUtils.prevLF/next/nextLF are modelled as the reader's calls and checks use them, because their source is not part of this model. prevLF gives -1 both for an LF at offset 0 and for no LF at all.
- Reflog.Next: the result -1 for an absent character is assumed, not known, since the helpers' source is not part of this model. If next/nextLF return the buffer length instead, the reader's -1 checks never fire, and the NotAnEntry results that Reflog.EntryErrors and Reflog.NextAbsent state for a line with no TAB after its ident, or no LF after that TAB, would not occur in the program. The checks for the space after each id (GitSharp/ReflogReader.cs:59-64) do not depend on it.
- Names and e-mail addresses are never null in the model, since a Dafny string cannot be null. The NullReferenceException that the constructors, Equals and GetHashCode raise on a null string (GitSharp/PersonIdent.cs:155-172) is not modelled.
- Reflog.ParseEntry: the comment is kept as the raw bytes that RawParseUtils.decode would turn into a string. The character decoding is not modelled.
- ReflogReader.Entry.ToString (GitSharp/ReflogReader.cs:98-101) is debugging text built from PersonIdent.ToString, which is unfinished. It is not modelled.

## Findings

| source | as written | input that shows it | evidently intended | confidence | as-written member | corrected member |
|---|---|---|---|---|---|---|
| GitSharp/PersonIdent.cs:125-137 | the offset is the signed hour field times 60 plus the unsigned minute field | "A U Thor <author@example.com> 1142878501 -0230", the external form of offset -150 | -150, the offset that was written: the minutes take the sign of the hours | high, not executed | PersonIdentExamples.NegativeHalfHour | PersonIdentLaws.RoundTripCorrected |
| GitSharp/PersonIdent.cs:117 | IndexOf(' ', gt + 2) is called even when '>' is the last character, so gt + 2 is past the end and .NET throws | "A U Thor <author@example.com>" | When 0 and offset -1, as for every other ident without a time stamp (lines 118-122) | medium, not executed | PersonIdentLaws.CloseAtEnd | PersonIdentExamples.NothingAfterClose |
