# Verified model of the article index, the news cursor and the user table

The bulletin board keeps the articles that it exchanges with other sites in a history: a text file with one line per
article, and a dbz database that gives the offset of the line for a message-id. This project models that database and
what is built on it. It proves what each answers in terms of a plain reference (the first store of a key, a scan of the
text from the top, the articles that a server has), and where that is not always the reference's answer, exactly when it
is.

* **dbz** (`Probe`, `Words`, `CrcHash`, `CaseMap`, `PageFile`, `StoreLog`, `Lookup`, `Dbz`). The database stores offsets
  only. A key is looked for along a path of slots: a run of probes in the first table, then a run in the second, and so
  on without bound; every candidate is compared with the key by reading the base file again. Class `Dbz.Database` has the
  program's own mutable state (page file and its cursor, the position it believes to be at, an in-core copy of the first
  table, the searcher that is reused between calls, the remembered search, the usage counts), and a ghost list of all
  stores. Its invariant `Valid` ties every slot to a store of that list, and `StoreLog` proves what a walk over such a
  table finds. The reference is `FirstValue`: the value of the first store of the key.
* **Configuration** (`Decimal`, `DirConfig`, `ConfFile`, `Primes`, `Again`, `Formats`). The two lines of the `.dir`
  file, written in place and read back character by character; the choice of table sizes; and the rebuild of a database.
  `Formats` states the file formats, and the functions behind them, in plain characters and numbers.
* **History** (`HistoryText`, `History`, `DbTool`, `Expiry`, `Maint`). The text and its index. The reference is `Scan`,
  a linear scan of the text from the top. A lookup is exact if and only if it is `Clear`: no earlier line for a key that
  extends the one looked for is met on the way. What a history holds after adding lines in turn is `Entered`.
* **News cursor** (`ActiveFile`, `ActiveLines`, `PullCursor`, `NewsPull`, `Sessions`). The high mark of each group,
  moved by rounds in which a remote server lists articles and each wanted one is offered to the local server; the text
  file in which the marks are rewritten in place and from which they are read at the next start; and any number of such
  sessions. The reference is what the server holds: numbers and message-ids.
* **User table** (`UserHash`). Chains of user numbers in two arrays, built by walking a pointer. The same module has the
  operations that the board itself performs on the loaded table, after mbbsd/cache.c lines 178-232: `Table.Remove` takes
  one user, and no other, out of his chain; `Table.SearchUser` finds the first user of a chain with some name in any
  case, and answers 0 only if no user in the table has it; `Table.SetUserId` gives a number a name, whether or not it was
  in the table, and leaves all other users as they are. That file is in Big5 and has no rows in the table below.
* `Text`, `Bits` and `Arith` hold strings, bitwise operators by recursion on binary digits, and steps about products.

Conventions. A character is a `char` below 256, a string a sequence of them without its terminator. A `long` of the
program is a number below 2^64 where its bits matter (`Words`), and an `int` otherwise. `flock` is taken as absent, and
`ftell` on the history, which is opened for appending, as its length. Errors that the program reports become `Option`
or a null reference; what the environment answers (clock, file sizes, remote servers) is a parameter.

Where the program does not do what one would expect, the model follows the program:

* A key that is passed without a final NUL is compared with a prefix of the record only, because the pointer `sepp` is
  never moved from the configured separator. `StoreLog.FetchIsFirstStore` gives the exact condition under which a fetch
  is right, `Lookup.PrefixIsMistaken` an input for which it is not, and three lemmas of `Lookup` the kinds of keys for
  which it always is.
* dbzfresh converts the tag mask of its caller to an `int` before it looks at it, so that the mask that dbztagmask makes
  for a file of more than 2^31 bytes counts as 0 and gives the default tags, under which an offset with the default
  marker bit is refused. `Words.TagMaskSuitsExactly` says for which sizes the mask is right.
* `isprime` accepts 1 and rejects the primes up to 37; `dbzsize(1)` is 1.
* The table of the key hash shifts by `j` for bit `j`, so that it is not the usual CRC. What is proved is about this table.
* Because of such prefixes, maintenance of the history can lose a line that has not expired, when its key is extended by
  that of an earlier line: `Expiry.MaintenanceLosesLine`. `Expiry.EnteredIsDeduped` and `Expiry.EnteredScans` say exactly
  which lines are kept.
* dbzfresh leaves no room for a marker above a tag mask that is a run of ones up to the sign bit; every other mask gives
  tags that are in order (`Words.FreshTagsExactly`).
* A malformed XHDR line counts as article 0 and can pull a mark back: `PullCursor.GoesBackExactly` says when the mark can
  go back, and `PullCursor.MalformedLinePullsBack` is an input. With a server that tells the truth, the only such line is
  one that the end of the connection has cut before its blank (`PullCursor.ProperExactly`).
* Articles can be passed without being offered: all of a range when XHDR is refused or the connection closes before the
  first line of its answer; the article in whose line it closes; the lowest article of a group whose mark lies below it;
  everything with a limit of no articles; and the next article to come when a group is reported empty with marks that
  the program swaps. Each has a lemma. `PullCursor.SettledExactly` and `PullCursor.RunIsSafe` say that nothing else is
  lost by a server that tells the truth, wherever connections close and whatever fails.
* A limit of more than 100 articles, which option `-a` accepts, overruns the array of 100 headers:
  `PullCursor.ArrayIsLongEnough`.

## Model

| member | source | states |
|---|---|---|
| Probe.NextProbe | innbbsd/dbz.c:1464-1475 | the step of a search (place, table number, rest of the run) leads from probe i to probe i+1, where probe i is at (h+i) mod tsize + table(i)*tsize |
| Probe.PlaceInTable | innbbsd/dbz.c:1464-1475 | a probe lies in the table its run says, at the hash-determined offset |
| Probe.ProbesLeave | innbbsd/dbz.c:1452-1530 | after a bounded number of probes a search is past any given number of slots |
| Probe.ProbesAreDistinct | innbbsd/dbz.c:1452-1530 | when a run is no longer than a table, no two probes of a path are the same slot |
| Formats.PathInNumbers | innbbsd/dbz.c:1424-1475 | with 0 <= j < 100, probe 100k+j is slot (h+100k+j) mod tsize of table k; in an old database the first run is a whole table and the later ones are of a hundred |
| Words.ByteMapLoop | innbbsd/dbz.c:1654-1671 | the byte loop computes the byte-order mapping |
| Words.ByteMapRoundTrip | innbbsd/dbz.c:1618-1671 | mapping a word to another byte order and back gives the word |
| Words.StoredSlot | innbbsd/dbz.c:128-154 | an acceptable value under any tag is never stored as VACANT, and is read back unchanged by a search for its tag; a search for another tag reads it unchanged or passes it by |
| Words.FaithfulExactly | innbbsd/dbz.c:128-154 | a tag configuration gives every acceptable value back exactly when its masks are apart and no tag goes unmarked, or it never tags |
| Formats.WordInNumbers | innbbsd/dbz.c:1552-1572 | the word for an offset is the offset plus one; where tags are in use and the offset leaves their bits free, tag and marker are added, unless the sum would be NOTFOUND |
| Formats.BytesOfWords | innbbsd/dbz.c:1618-1671 | byte i of the byte map is where the i-th byte of a word goes, counted from the high-order one |
| Formats.DefaultTag | innbbsd/dbz.c:1424-1446 | with the default masks the tag is made of the seven low bits of hash / tsize, in bits 24 to 30 |
| Words.DbzTagMask | innbbsd/dbz.c:1166-1185 | the mask has all bits from the least power of two no less than the file size up to bit 62, or none when fewer than 24 bits would be left |
| Words.DoublingEnds | innbbsd/dbz.c:1166-1185 | the doubling loop comes to an end if and only if the size is at most 2^62 |
| Words.TagMaskFits | innbbsd/dbz.c:1166-1185 | with such a mask the tags are faithful, and every offset below the size satisfies CANTAG and is acceptable |
| Words.TagMaskSuitsExactly | innbbsd/dbz.c:439-456 | the mask of dbztagmask, once dbzfresh has taken it over, suits every offset below the size if and only if these take less than 32 bits |
| Words.FreshTags | innbbsd/dbz.c:439-456 | a caller's mask of either sign is split into an odd mask and a shift that give it back, with the marker bit above, unless its low half asks for the default or for no tags |
| Words.FreshTagsExactly | innbbsd/dbz.c:439-456 | marker and tag do not overlap, and there is a marker if there is a tag, for every mask but a run of ones up to the sign bit, and for no such run |
| CrcHash.CrcInit | innbbsd/dbz.c:1705-1718 | the table holds, for each index, the shifted polynomials that its bits select |
| CrcHash.TableEntries | innbbsd/dbz.c:1705-1718 | the entries for one bit are 0x48000000 and its halves, and the entry for any index is the sum (XOR) of those for its bits |
| CrcHash.Hash | innbbsd/dbz.c:1724-1735 | the loop over the table computes the hash of the key, and its state stays below 2^31 |
| CrcHash.HashByCharacter | innbbsd/dbz.c:1724-1735 | the hash of the empty key is 0; with one more character it is the old hash / 128, XOR the entry for (old hash XOR character) mod 128 |
| CrcHash.HashRange | innbbsd/dbz.c:1697-1735 | the hash of every key lies in [0, 2^31) |
| CrcHash.HashIsLinear | innbbsd/dbz.c:1697-1735 | the hash is XOR-linear on keys of equal length |
| CrcHash.StepIsInjective | innbbsd/dbz.c:1697-1735 | for a fixed character one turn is one-to-one on 31-bit states |
| CrcHash.NearKeysNeverCollide | innbbsd/dbz.c:1697-1735 | keys of equal length whose 7-bit codes differ only inside one window of four characters never collide |
| CrcHash.FiveCharacterCollision | innbbsd/dbz.c:1697-1735 | four is the widest such window: two keys that differ in a window of five collide |
| CaseMap.CaseTable.MapPrime | innbbsd/dbz.c:1770-1788 | priming fills the whole case table |
| CaseMap.CaseTable.CasenCmp | innbbsd/dbz.c:1794-1829 | the result is the collation of the two strings, with the end of a string below everything |
| CaseMap.CollateLaws | innbbsd/dbz.c:1794-1829 | the collation is antisymmetric, and its equality is equality up to case |
| CaseMap.CaseTable.CiPoint | innbbsd/dbz.c:1877-1903 | the point where the key becomes case-insensitive, whether or not the table was primed before |
| CaseMap.CaseTable.MapCase | innbbsd/dbz.c:1835-1862 | the copy is folded as the mode says |
| Formats.FoldInCharacters | innbbsd/dbz.c:1835-1903 | a character changes only from a capital to its small letter, and does so everywhere under '=', and under 'C' from the first at-sign on, or everywhere if postmaster in any case stands between the first character and the first at-sign |
| Formats.FirstDifferenceDecides | innbbsd/dbz.c:1794-1829 | the result is the difference of the signed codes at the first place where the small letters differ, or -1 or 1 where one string ends |
| CaseMap.FoldIdempotent | innbbsd/dbz.c:1755-1903 | folding twice is folding once, in all three modes |
| CaseMap.FoldAppend | innbbsd/dbz.c:997-1012 | a key folds the same with the record's separator behind it |
| CaseMap.FoldTake | innbbsd/dbz.c:924-945 | cutting off a long key and folding it commute |
| PageFile.Pages.Read | innbbsd/dbz.c:1495-1507 | at or past the end of the file nothing is read and the position stays |
| PageFile.Pages.Write | innbbsd/dbz.c:1595-1605 | writing past the end fills the gap with zeros |
| StoreLog.StoreKeepsGood | innbbsd/dbz.c:1087-1132 | a store into the first vacant slot of its path keeps all slots owned by exactly one store, each behind a path of older ones |
| StoreLog.SearchEnds | innbbsd/dbz.c:1452-1530 | for every list of stores and every hash, all probes from some point on are vacant |
| StoreLog.FirstVacantUnique | innbbsd/dbz.c:1424-1446 | there is one first vacant probe, so that a resumed search that stands on it stands where a fresh one would end |
| StoreLog.AppendKeepsRecorded | innbbsd/his.c:447-463 | appending to the base file changes no record |
| StoreLog.CompareWithoutNul | innbbsd/dbz.c:985-1021 | a key without NUL hits its own record, and those of keys that it is a proper prefix of, and no other |
| StoreLog.CompareWithNul | innbbsd/dbz.c:985-1021 | a key with its NUL hits its own record and no other |
| StoreLog.OlderRecordsAreLong | innbbsd/dbz.c:997-1004 | every slot in front of a key's own slot was filled earlier and points to at least keysize bytes of text, so that a short read cannot hide the key |
| StoreLog.FetchIsFirstStore | innbbsd/dbz.c:955-1025 | a fetch gives the value of the first store of its key, or nothing if there was none, if and only if no longer key's record is met on the way |
| StoreLog.WalkAnswers | innbbsd/dbz.c:955-1025 | the same for the table that any list of stores leaves behind |
| Lookup.ExactLookup | innbbsd/dbz.c:955-1025 | a fetch is exact when no key that was stored before extends the one fetched |
| Lookup.NoneMeansAbsent | innbbsd/dbz.c:955-1025 | even otherwise a stored key is never reported missing, and every answer is a stored offset |
| Lookup.NulKeysHaveNoImpostors | innbbsd/dbz.c:1005-1018 | keys with their NUL are always fetched exactly |
| Lookup.MessageIdsHaveNoImpostors | innbbsd/dbz.c:1005-1018 | message-ids in their brackets are always fetched exactly among message-ids |
| Lookup.PrefixIsMistaken | innbbsd/dbz.c:1005-1018 | after one store of "ab" a fetch of "a" finds it |
| Lookup.TableIsInvisible | innbbsd/dbz.c:955-1025 | without older impostors, tables of any size, with or without tags, in any byte order, old or new, give the same answers |
| Lookup.LookupIsCaseInvariant | innbbsd/dbz.c:924-945 | keys of any length that fold alike get the same answer, whatever is stored |
| Lookup.SlotsAreCounted | innbbsd/dbz.c:1127-1131 | the number of occupied slots is the number of stores |
| Dbz.UsageCounts | innbbsd/dbz.c:1127-1131 | the words that differ from zero, in core and in the file, are as many as used[0] counts |
| Dbz.Searcher.Start | innbbsd/dbz.c:1424-1446 | a search is resumed where it stood if the hash is the same, and begins at probe 0 otherwise |
| Dbz.Searcher.Advance | innbbsd/dbz.c:1464-1475 | the searcher goes on to the next probe, unless the current one was not examined yet |
| Dbz.Database.constructor | innbbsd/dbz.c:666-796 | opening a database whose file holds the table of some stores gives a valid database with those stores |
| Dbz.Database.ReadSlot | innbbsd/dbz.c:1483-1507 | without a seek when the position is believed right, the word read is the one an unconditional seek would read, also past the end of the file |
| Dbz.Database.Search | innbbsd/dbz.c:1452-1530 | everything passed over is taken by entries that need not be looked up; the result is the value in the slot, or NOTFOUND at a vacant one |
| Dbz.Database.Walk | innbbsd/dbz.c:955-1025 | the loop of fetch() is the walk of the reference, and when nothing is found it stands on the first vacant slot |
| Dbz.Database.Fetch | innbbsd/dbz.c:955-1025 | a fetch keeps the invariant, answers as the walk does, and leaves a search to be resumed only when nothing was found |
| Dbz.Database.WriteSlot | innbbsd/dbz.c:1574-1609 | one slot of the table changes, in core or in the file, and no other; the file stays right when it is written through |
| Dbz.Database.TagAndBias | innbbsd/dbz.c:1552-1572 | the word to be written encodes the value with the tag, unless it cannot be tagged or would look like NOTFOUND |
| Dbz.Database.FindVacant | innbbsd/dbz.c:1122-1127 | whether or not a search was resumed, the slot found is the first vacant one on the path of the key |
| Dbz.Database.Store | innbbsd/dbz.c:1087-1132 | a store adds its entry at the first vacant slot and counts it, or refuses and changes nothing |
| Dbz.Database.DbzFetch | innbbsd/dbz.c:924-945 | the answer for the folded key is the first store's, exactly when no longer key's record is met |
| Dbz.Database.DbzStore | innbbsd/dbz.c:1059-1081 | the folded key is stored, or refused, with the files as they were, if and only if it has 255 characters or more, the value has the marker bit or the database is read-only |
| Dbz.Database.PutCore | innbbsd/dbz.c:1406-1417 | the file's first table becomes the core copy, and the rest of the file stays |
| Dbz.Database.Sync | innbbsd/dbz.c:875-900 | afterwards the page file holds the table and the .dir file reads back as the configuration |
| Dbz.GetCore | innbbsd/dbz.c:1345-1399 | the core copy is the first table of the file, with zeros for what the file lacks |
| Dbz.FreshConfig | innbbsd/dbz.c:390-465 | which arguments are refused, and that every other configuration can be written, and is usable exactly if the tag mask leaves room for a marker |
| Formats.FreshFolding | innbbsd/dbz.c:417-437 | which case map arguments are accepted, and how keys fold in the new database |
| Dbz.DbzFresh | innbbsd/dbz.c:390-492 | a new database is valid, empty, has the size (or 120011), separator, case mapping and tags asked for, counts its stores from zero, and has all of this in its files |
| Dbz.CloseAndReopen | innbbsd/dbz.c:822-900 | closing and opening again, with or without a core copy, keeps all stores and the layout, with nothing left to flush |
| Decimal.AtolOfDec | innbbsd/dbz.c:1274-1307 | a number is read back from its numeral, whatever non-digit follows |
| Formats.NumeralsAreDecimal | innbbsd/dbz.c:1313-1339 | a numeral is that of a tenth of the number with one more digit, a single digit, or a minus sign with the numeral of the opposite |
| Formats.NumeralsAreRead | innbbsd/dbz.c:1274-1307 | white space and a sign may precede the digits, and anything else without digits reads as 0 |
| Formats.DirText | innbbsd/dbz.c:1313-1339 | the fields of the .dir file in their order, with version 3 and word size 8 |
| Formats.DirRead | innbbsd/dbz.c:1191-1268 | any numbers in that order are read back as the fields of a configuration if and only if the version is 3 and the word size 8 |
| Formats.EmptyDir | innbbsd/dbz.c:1191-1219 | the default configuration, number by number |
| Formats.LongNumber | innbbsd/dbz.c:1274-1307 | only the first 49 characters of a word count |
| Formats.BadNumbers | innbbsd/dbz.c:1274-1307 | the end of a line, a character that is neither digit nor minus sign, and the end of the file are errors |
| DirConfig.ConfigRoundTrip | innbbsd/dbz.c:1191-1339 | getconf gives back what putconf wrote, with no error, whatever bytes follow |
| DirConfig.RewriteIsSafe | innbbsd/dbz.c:1313-1339 | rewriting the .dir file in place without truncating it is safe |
| ConfFile.InFile.ReadNo | innbbsd/dbz.c:1274-1307 | the character loop of getno reads the number, reports the error and leaves the rest as the specification says |
| ConfFile.InFile.ReadConf | innbbsd/dbz.c:1191-1268 | getconf, going on after errors, accepts exactly the well-formed files and returns their configuration |
| ConfFile.WriteConf | innbbsd/dbz.c:1313-1339 | putconf writes the configuration text |
| Primes.IsPrime | innbbsd/dbz.c:524-551 | true exactly for 1 and for the primes above 37, though the root is only halved and the trial stops below it |
| Primes.HalvedRoot | innbbsd/dbz.c:540-543 | the halving loop stops at a number whose square is no larger than x, while the square of the next after its double is larger |
| Primes.LargerPrime | innbbsd/dbz.c:498-516 | there is a prime above every number |
| Primes.DbzSize | innbbsd/dbz.c:498-516 | 120011 without contents, 1 for one entry, and otherwise the least prime p above 37 with 2p >= 3m, where m is the number of entries, less one if it is odd; entries never exceed two thirds of the table but for rounding; ends for every input |
| Again.AgainTags | innbbsd/dbz.c:593-604 | the tags are recomputed exactly when there are tags and the file is larger than 2^24 bytes, whatever the old shift; they then take all bits above those of the file size, with the highest as marker, and every offset of the old file can be tagged |
| Again.AgainConfig | innbbsd/dbz.c:593-624 | the usage counts move on by one, the table does not shrink before a full history, and it holds every recorded usage at two thirds |
| Again.RenewedInNumbers | innbbsd/dbz.c:593-624 | the same in numbers: the size for the largest old usage, kept from shrinking while a usage count is 0; tags that change beyond 16777216 bytes only |
| Again.DbzAgain | innbbsd/dbz.c:557-657 | the rebuilt database is valid and empty with that configuration, all of it, or refused when the old .dir file is bad |
| HistoryText.ScanIsFirstLine | innbbsd/his.c:437-474 | a linear scan of the text finds the first line with the key |
| HistoryText.HistoryIsRecorded | innbbsd/his.c:437-474 | in every history the record of every indexed line is where its offset says |
| HistoryText.FirstStoreIsFirstLine | innbbsd/his.c:437-474 | the first store of a key points to the first line with that key |
| HistoryText.NotExtendedIsClear | innbbsd/his.c:282-340 | if no earlier indexed line's key properly extends a key, the search for it is clear, whatever the table |
| HistoryText.ClearEverywhere | innbbsd/his.c:282-340 | the search for a key is clear in every table if and only if no earlier indexed line's key properly extends it |
| HistoryText.StaysMisled | innbbsd/his.c:437-474 | while a key is absent, a search for it that is not clear stays so whatever is added |
| History.WalkLooksUp | innbbsd/his.c:282-340 | a lookup gives the first line with the key, as a scan does, if and only if the search is clear; otherwise it gives an earlier line for a longer key; it finds nothing for keys of 255 characters or more |
| History.RestInBuffer | innbbsd/his.c:282-340 | the answer is what stands between the first tab and the first newline of the 1023 characters at the offset, and there is none unless they come in this order |
| History.HistoryFile.FilesFor | innbbsd/his.c:282-340 | in every reachable state the text that is returned is the one a scan finds when the search is clear, and otherwise that of an earlier line for a longer key |
| History.HistoryFile.Append | innbbsd/his.c:437-474 | a line is added to the text and entered in the index, and then the index is flushed: the page file holds all stores and the .dir file reads back with the present counts; a line whose key is too long is an orphan and is reported |
| History.HistoryFile.Write | innbbsd/his.c:437-474 | the line holds the key, the date and the paths, and the index is flushed |
| History.HistoryFile.MyWrite | innbbsd/his.c:390-430 | a line is added if and only if its key is too long, or the search for it is clear and it is not there; one that is indexed is in the files too |
| History.HistoryFile.Sync | innbbsd/his.c:208-217 | if lines came in, the page file holds all stores afterwards, and the .dir file reads back as the configuration with its counts; lines and text stay |
| History.HistoryFile.Close | innbbsd/his.c:223-239 | afterwards the files hold everything, whether or not lines came in |
| DbTool.DBfetch | innbbsd/dbztool.c:13-28 | a fetch answers as a scan of the text does if the search is clear, and otherwise with an earlier line for a longer key |
| DbTool.DBstore | innbbsd/dbztool.c:30-47 | the line for the key, of which 510 characters count, is appended, with the date and the paths, and flushed |
| DbTool.StoreDB | innbbsd/dbztool.c:49-61 | indexed lines keep distinct keys, no other key is affected, and afterwards the key has its old text, or the new one if it had none and the search is clear, and otherwise none |
| DbTool.AddedLine | innbbsd/dbztool.c:49-61 | adding a line for an absent key changes a scan for that key only and keeps keys distinct |
| Expiry.FirstLineHasExpired | innbbsd/his.c:120-147 | when maintenance is due the first line has itself expired, so that skipping it unread drops nothing |
| Expiry.WrittenDate | innbbsd/his.c:140-147 | a line expires by the date it was written with |
| Expiry.DueByDate | innbbsd/his.c:120-147 | by the date written with the first line, nothing is touched until 172800 seconds for each day of keeping have passed, and then the unexpired lines behind it are entered in turn |
| Expiry.EnteredDistinct | innbbsd/his.c:390-430 | a history that was filled by myHISwrite has distinct keys |
| Expiry.EnteredIsDeduped | innbbsd/his.c:106-161 | copying keeps the first line of every key if and only if no search for an absent key is unclear when its turn comes |
| Expiry.EarlierFreeMissesNone | innbbsd/his.c:106-161 | that is so for every table when no key is extended by that of an earlier line |
| Expiry.EnteredScans | innbbsd/his.c:106-161 | exactly the keys whose search was clear in their turn are kept; the search for any other one is unclear for good |
| Expiry.MaintainedScans | innbbsd/his.c:106-161 | after maintenance that was due, a scan finds what it found before, if that has not expired and the key survives, and nothing otherwise |
| Expiry.KeepsUnexpired | innbbsd/his.c:106-161 | with distinct keys of which none is extended by an earlier one, exactly the unexpired lines are kept |
| Expiry.MaintenanceLosesLine | innbbsd/his.c:106-161 | in a table of two slots an unexpired line for "a" behind one for "ab" is lost |
| Expiry.MessageIdsArePrefixFree | innbbsd/his.c:106-161 | among message-ids in brackets no key extends another |
| Maint.CopyLine | innbbsd/his.c:138-151 | a line is copied if and only if it has not expired and its key is not found, which it is when it is there or the search is not clear |
| Maint.CopyUnexpired | innbbsd/his.c:138-151 | the read loop enters the unexpired lines after the first in turn |
| Maint.HISmaint | innbbsd/his.c:106-161 | the history stays valid and its keys distinct; if the date of the first line is more than 172800 seconds for each day of keeping ago it holds what entering the other unexpired lines in turn gives, in a table of the size given, and is unchanged if not; an index that was flushed is so afterwards; with distinct keys of which none is extended by an earlier one these are exactly the unexpired lines |
| Maint.MaintenancePreservesLookups | innbbsd/his.c:106-161 | where searches are clear, whatever a lookup answered before, it answers after due maintenance if that has not expired, and nothing otherwise |
| Maint.MaintenanceIsClear | innbbsd/his.c:106-161 | searches are clear before and after when no key is extended by an earlier one, for keys that stay and for keys that are not extended |
| ActiveFile.UpdateRc | innbbsd/bbsnnrp.c:692-701 | the field becomes the last digits of the number, and no other character changes |
| ActiveFile.LastDigitsValue | innbbsd/bbsnnrp.c:692-701 | those digits are the number modulo ten to the length of the field |
| ActiveFile.InitRcFiles | innbbsd/bbsnnrp.c:575-618 | the pointer walk over the text finds the groups of the specification, running on into the next line where the program does |
| ActiveLines.GroupsOfText | innbbsd/bbsnnrp.c:575-618 | a text of lines with four words, too few words, none, or a comment: one group for each line with four, in their order, with the first word as its name, the value of the second as its high mark and of the third as its low mark, and the positions of all four |
| ActiveFile.Reread | innbbsd/bbsnnrp.c:528-701 | reading the text again after a field was rewritten gives the same groups, with the new number in that field as far as it fits |
| ActiveFile.RewriteRoundTrip | innbbsd/bbsnnrp.c:528-701 | a mark is read back as it was written if and only if it fits its field |
| PullCursor.IhaveCodes | innbbsd/bbsnnrp.c:882-983 | 1 exactly when the whole article was accepted, 0 exactly when it was refused for good or is gone, -1 otherwise |
| PullCursor.IhaveByCode | innbbsd/bbsnnrp.c:882-983 | the codes of IHAVE: 335, 435 and 437 for the offer, 220 for the article, 235, 435 and 437 for the result |
| PullCursor.PostByCode | innbbsd/bbsnnrp.c:882-983 | the codes of POST: 340 and 441 for the offer, 220 for the article, 240 and 441 for the result |
| PullCursor.GatherCollects | innbbsd/bbsnnrp.c:1114-1142 | the queue holds, in order, every wanted article up to the last number looked at, and no more than the limit |
| PullCursor.OffersMoveMark | innbbsd/bbsnnrp.c:1143-1159 | the mark ends at the last offer before the first failure |
| PullCursor.TurnAsksFor | innbbsd/bbsnnrp.c:1000-1112 | a turn depends on the headers of exactly the numbers behind its start up to the lesser of the high mark and as many as the limit allows, and goes to that number when the code is not 221 or there are no lines; without 211 for the group, or with nothing new, the mark stays |
| PullCursor.PullIsSafe | innbbsd/bbsnnrp.c:1096-1166 | whatever fails, the mark never goes back, never passes the server's high mark, and never passes a wanted listed article unless it and all before it in the queue were taken or are not to be offered again |
| PullCursor.PullGetsOn | innbbsd/bbsnnrp.c:1096-1166 | a round without failures moves the mark forward |
| PullCursor.CutLine | innbbsd/bbsnnrp.c:839-864 | wherever the line of an article is cut, it is read as the whole line, as a line for the same number with a part of the message-id, or as a line without a number |
| PullCursor.SettledExactly | innbbsd/bbsnnrp.c:1005-1167 | a wanted article that the server holds and whose number a turn passes was settled if and only if articles are pulled at all, XHDR was accepted, its answer did not end before the first line or within that of the article, and the article is not the lowest one above a gap |
| PullCursor.ProperExactly | innbbsd/bbsnnrp.c:839-864 | a truthful answer fails to be one of increasing numbers in the range if and only if a line is cut before its blank |
| PullCursor.SettledWhenPassed | innbbsd/bbsnnrp.c:1075-1167 | when the lines are in order, an article is settled only in the turn that passes it |
| PullCursor.RunNeverGoesBack | innbbsd/bbsnnrp.c:1074-1176 | over every run of turns with proper servers the mark never goes back |
| PullCursor.RunIsSafe | innbbsd/bbsnnrp.c:1005-1176 | over all turns in a row, with lists that are refused or cut anywhere, every article that the server ever holds and that is passed by then was passed in some turn; in every such turn, if it was there and wanted, it was settled exactly under these conditions, and if it was not there yet, the group was reported empty with swapped marks; unless a line was cut before its blank there is one such turn, and the article is settled in no other |
| PullCursor.RunReachesHigh | innbbsd/bbsnnrp.c:1074-1176 | as many failure-free turns as there are numbers left reach the server's high mark |
| PullCursor.GoesBackExactly | innbbsd/bbsnnrp.c:1109-1166 | for any answer to XHDR, no outcome of the offers takes the mark back if and only if neither the last line looked at nor any queued article but the last has a number below it |
| PullCursor.MalformedLinePullsBack | innbbsd/bbsnnrp.c:839-864 | an XHDR line without a blank takes the mark back to 0 |
| PullCursor.EmptyAnswerPassesRange | innbbsd/bbsnnrp.c:1109-1166 | when XHDR is refused, or its answer ends before the first line, the mark goes to the end of the range and nothing is settled |
| PullCursor.RefusalLosesArticle | innbbsd/bbsnnrp.c:1109-1166 | inputs on which a wanted article is lost in these two ways |
| PullCursor.TornLineLosesArticle | innbbsd/bbsnnrp.c:839-864 | an input on which a wanted article is lost because its line is cut within the message-id |
| PullCursor.EmptyGroupPassesNext | innbbsd/bbsnnrp.c:1005-1166 | a group reported empty with marks one apart takes the mark to the number of the next article to come |
| PullCursor.LimitIsNeeded | innbbsd/bbsnnrp.c:1119-1142 | no wanted listed article is ever lost if and only if at least one article is pulled in a round, or no number is looked at |
| PullCursor.ArrayIsLongEnough | innbbsd/bbsnnrp.c:1120-1127 | the queue fits its array for every answer if and only if the limit is no larger than the array |
| PullCursor.NoArticlesMeansLoss | innbbsd/bbsnnrp.c:1119-1142 | with a limit of no articles a wanted one is passed without an offer |
| PullCursor.LowestIsSkipped | innbbsd/bbsnnrp.c:1100-1112 | the lowest article of a group is not settled when the mark lies below it, and is passed when the lines are in order |
| NewsPull.Rewritten | innbbsd/bbsnnrp.c:1082-1166 | rewriting one number in memory and in the text keeps the two in step for all groups |
| NewsPull.Puller.constructor | innbbsd/bbsnnrp.c:528-619 | the groups are those of the active file |
| NewsPull.Puller.Collect | innbbsd/bbsnnrp.c:1114-1142 | the loop over the XHDR lines fills the array, within its bound, with the queue of the specification |
| NewsPull.Puller.Offer | innbbsd/bbsnnrp.c:1143-1159 | the loop of offers sets the mark of the group as the specification says and reports a failure |
| NewsPull.Puller.PullGroup | innbbsd/bbsnnrp.c:1075-1167 | one group gets the mark of the specification, or the server's mark when marks are reset, with its marks in either order, the lesser of which becomes its low mark; no other group changes; text and memory stay in step |
| NewsPull.Puller.ReadNews | innbbsd/bbsnnrp.c:1013-1183 | a session does this to every group |
| Sessions.AllSessions | innbbsd/bbsnnrp.c:528-619 | over any number of starts of the program, every mark goes through its field of the text, and the text can be read again |
| Sessions.SessionsAreRun | innbbsd/bbsnnrp.c:692-701 | the marks of a group over all sessions are those of the turns in a row if and only if each of them fits its field |
| Sessions.SessionsAreSafe | innbbsd/bbsnnrp.c:1005-1183 | over any number of sessions whose marks fit, with lists that are refused or cut anywhere, an article that was passed was passed in some session, with the same conclusions as for turns in a row |
| UserHash.StringHash | util/uhash_loader.c:107-116 | the loop computes the hash, which is a valid index |
| UserHash.HashArithmetic | util/uhash_loader.c:107-116 | the accumulator begins at 0; each character takes it from v to (256v mod 2^32 + v / 2^24) XOR the capital; the hash is v * 2654435769 mod 2^32, divided by 65536 |
| UserHash.SameNameMeans | util/uhash_loader.c:107-116 | names are the same if they are equally long and equal but for the case of letters |
| UserHash.SameNameSameHash | util/uhash_loader.c:107-116 | names that differ in case only have the same hash |
| UserHash.Table.Walk | util/uhash_loader.c:118-129 | the walking pointer ends at the cell that holds the number looked for, or at the end of the chain |
| UserHash.Table.Add | util/uhash_loader.c:118-129 | the user comes to the end of the chain of his name, and no other chain or user changes |
| UserHash.Table.Fill | util/uhash_loader.c:67-106 | after loading, every chain is the increasing list of the users with its hash, and exactly the loaded users are in the table |
| UserHash.BucketsPartition | util/uhash_loader.c:67-129 | these lists are strictly increasing, and every user is in the list of his hash and in no other |
| UserHash.LoadedSearch | util/uhash_loader.c:67-129 | in a table that was just loaded a search finds the first user with that name, as looking at the names one by one would |

## Left out

- Read and write errors, short disks and the `aborted` searches that follow them: files never fail.
- Words.DbzTagMask: file sizes above 2^62, for which the loop does not end, are excluded.
- Again.AgainTags: the same sizes are excluded, for the same loop.
- Again.AgainConfig: the same sizes are excluded.
- Dbz.DbzFresh: a tag mask that is a run of ones up to the sign bit is excluded; the program opens a database for it that has tags but no marker for them.
- Again.DbzAgain: sizes that do not fit a long are excluded by a precondition, as are files above 2^62 bytes, and old configurations whose byte order or kept tags make no sense.
- Primes.IsPrime: negative arguments, which dbzsize never passes, are not modelled.
- Maint.HISmaint: an empty history, for which the program reads an uninitialised buffer, is left alone; leftover `.n` files are taken as absent, and the default table size as a parameter.
- ActiveLines.GroupsOfText: lines with too few words and a blank at the end, for which the program looks for the missing words in the next line, are left to ActiveFile.InitRcFiles.
- History.HistoryFile.FilesFor: lines longer than the buffer (LEN-1 bytes) are excluded by the form of the lines.
- NewsPull.Puller.Collect: limits above the length of the array (see PullCursor.ArrayIsLongEnough) are excluded for the class.
- NewsPull.Puller.constructor: active files in which a number begins a line, two groups share a field, or a number is negative or does not fit its field are excluded; text without NUL characters is assumed.
- ActiveFile.InitRcFiles: a line on which the program would read past the end of the text is taken as holding no group; the first pass, which only counts lines for an allocation, is not modelled.
- UserHash.StringHash: the product is taken as 32 bits wide, as on the machines the program was written for; with a 64-bit `unsigned long` the result would not be an index.
- Several processes on one database, and changing write-through between a store and a sync.
- The memory-mapped core table: the model follows the branch that reads and writes it.
- `dbzcancel`, the debugging switches, and the path names of the base file (`latebase`): easy members.
- `mybytemap`: the host is little-endian; other byte orders appear as stored maps.
- Buffering of stdio, and the buffer that is shared between the page file and the base file.
- Truncation of configuration numbers to `int` when they are read (case map, separator and byte map excepted).
- Values that overflow a `long` when atol reads them, and 64-bit overflow of table sizes and positions.
- `mkhistory`, `HISsetkey` and the other unused parts of the history code.
- Sessions.AllSessions: starts with the option that resets the marks, which passes everything on purpose.
- Control and cancel groups of the news puller, and the flushing of the active file (a failed batch does not mark it dirty).
- Sockets and time-outs: the answers of the two servers are given, one by one.
- A missing reply to GROUP, or one with too few numbers: NNRPgroup parses the buffer or keeps the marks of the group before (bbsnnrp.c lines 1000-1004), so that a group can take over another group's marks.
- Lines of a server that are longer than the buffer, which are read in pieces, and servers that give old numbers to new articles.
- Article numbers in an answer to XHDR are taken as 64 bits wide; NNRPxhdrget stores them through a pointer to `int` into a variable of that width (bbsnnrp.c lines 839-856 and 1115).
- The command framing of the daemon and the terminal output of the board: not part of this model.
