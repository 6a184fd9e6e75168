# A model of mailing-list and mail-altering algorithms

This project models the algorithmic parts of two C programs of a mail-server bundle, the mailing list
manager ezmlm-idx 7.0.2 and the mail modifier alterMIME 0.3.10, and proves what they are for. Each module
follows one component.

- `Ascii` writes out the characters that the programs tell apart by ranges of codes.
- `Calendar` is an independent calendar that only steps from one day to the next; `DatetimeTai` is the
  table-free conversion of seconds to a date in 32-bit arithmetic, with C's truncating division. `Decimal`
  and `DateText` are the number and date formatters and readers; seconds are followed through date, text
  and back.
- `ListProtocol` is a state machine of any number of senders and digest runs that share the files `num`,
  `dignum`, `digissue` and the index under a lock, with commit, rollback, failing queues and deaths at any
  point. `ListFiles` is the straight-line code of one run; it takes steps of that machine.
- `Moderation` is the state machine of the moderation queue: storing, deciding and sweeping, with any call
  failing and any process dying. `ModFiles` is the code of each program.
- `Constmap` is the hash table with chains in arrays, against a scan of all records.
- `StrReplace` is search and replace with a counting pass and a copying pass; `Linebreak` derives the laws
  of the line-break adapter from it.
- `Base64` holds what both base64 codecs share; `EncodeB` and `DecodeB` are the streaming pair of the
  mailing list manager, `AlterBase64` the pair of alterMIME, which decodes in place. `QuotedPrintable` is
  the quoted-printable pair.
- `BoundaryStack` is the linked stack of MIME boundaries with its cached fields.
- `GrowArray` is the growable array over the copying reallocation, `Pool` the static allocator, `Template`
  the substitution of tags in text files.

Where the source updates variables, arrays or fields in place, the model is a method or a class, proved
against a function of its inputs or of the old state; the lemmas are about those functions. What the queue,
the allocator, the file system, the clock and the scheduler do is given from outside, and every answer is
allowed.

Where code and documentation disagree, the model follows the code:

- `encodeB.c:66` says that control 0 resets; control 1 does (line 70).
- `decodeQ.c:10-11` says that characters that decode to NUL or LF are ignored; they are appended.
- `ezmlm-clean.c:179-181` says that a message whose notice fails because of the message is erased; the
  program ends first, and the message stays.
- `copy.c:5-6` says that unset values print as question marks; the parts of unset addresses print as nothing.
- `datetime.c` gives a `yday` that is one too large from March to December of century years that are not leap.
- `AM_adapt_linebreak` is not idempotent for LF on texts with "\r\r\n".
- `AM_base64_encode_buffer_to_FILE` writes lines of 80 characters; section 6.8 of RFC 2045 allows 76.
- `constmap.c:74` counts lines, also those without the separator, which get no record.
- `BS_cmp` tests the first 126 characters of a line only, so it can miss boundaries that with the detect limit
  exceed 127.
- `BS_cmp` drops nodes without lowering `count`, so `BS_count` can exceed the depth.
- The digest branch reads `num` before it locks, so it can announce a number that a sender then rolls back.
- A sender writes an index entry only at the blank line that ends a header, so a message of header lines alone
  is accepted and not listed, also on an indexed list.

## Model

| member | source | states |
|---|---|---|
| Calendar.NthDayNumber | sources/ezmlm-idx-7.0.2/datetime.c:25-46 | The date reached by stepping `n` times from 1 January 1970 is valid, and days-from-civil of it is `n`: the independent calendar that the conversion is proved against |
| Calendar.DayNumberInverts | sources/ezmlm-idx-7.0.2/datetime.c:25-46 | Days-from-civil and day-by-day stepping are inverse on all valid dates |
| Calendar.DayNumberInjective | sources/ezmlm-idx-7.0.2/datetime.c:25-46 | Two valid dates with the same day number are the same date |
| Calendar.WeekdayClosedForm | sources/ezmlm-idx-7.0.2/datetime.c:22-23 | The weekday found by stepping from a Thursday is the source's remainder of the day count plus four |
| Calendar.YearsClosedForm | sources/ezmlm-idx-7.0.2/datetime.c:27-39 | The days before a year, summed year by year, are given by the quotients by 4, 100 and 400 |
| DatetimeTai.Divide | sources/ezmlm-idx-7.0.2/datetime.c:27-28 | C division truncates toward zero (section 6.5.5 of the C standard): quotient and remainder with the sign of the dividend |
| DatetimeTai.SplitCycles | sources/ezmlm-idx-7.0.2/datetime.c:27-28 | Truncating division and the correction for a negative remainder together are the floored division of the day into cycles |
| DatetimeTai.MarchYear | sources/ezmlm-idx-7.0.2/datetime.c:27-40 | The 400-, 100-, 4- and 1-year counters with their end-of-cycle exceptions sum to the day, each within its range |
| DatetimeTai.MonthAndDay | sources/ezmlm-idx-7.0.2/datetime.c:42-45 | Tenths of days divided by 306 pick month and day of the March-based year |
| DatetimeTai.MarchMonths | sources/ezmlm-idx-7.0.2/datetime.c:42-47 | That month and day are the ones whose month lengths sum to the day |
| DatetimeTai.CycleDate | sources/ezmlm-idx-7.0.2/datetime.c:25-52 | The counters name the calendar date `n` days after 1 January 1970, also in century years; `yday` is the true ordinal day except that it is one too large from March to December of century years that are not leap |
| DatetimeTai.TimeOfDay | sources/ezmlm-idx-7.0.2/datetime.c:17-20 | Hour, minute and second in range, and together the second of the day |
| DatetimeTai.WeekdayOf | sources/ezmlm-idx-7.0.2/datetime.c:22-23 | The true weekday |
| DatetimeTai.Datetime.Tai | sources/ezmlm-idx-7.0.2/datetime.c:4-53 | The fields denote second `t`: date equal to the independent calendar's, time of day, true weekday, and the `yday` described above; 32-bit arithmetic does not overflow as long as the day count plus four fits in an int |
| DatetimeTai.SameFieldsSameSecond | sources/ezmlm-idx-7.0.2/datetime.c:13-52 | Two seconds with the same date and time of day are the same second |
| DatetimeTai.EveryDateIsReached | sources/ezmlm-idx-7.0.2/datetime.c:13-52 | Whatever second the fields denote, they show a given valid date and time of day exactly when it is the one second that days-from-civil gives; the conversion covers that second exactly when the date's day count plus four fits in an int |
| DatetimeTai.YdayIsOrdinal | sources/ezmlm-idx-7.0.2/datetime.c:37-47 | `yday` is the ordinal day, or one more exactly from March to December of century years that are not leap |
| DatetimeTai.YdayOf2100 | sources/ezmlm-idx-7.0.2/datetime.c:37-47 | All of 1 March 2100, from second 4107542400 on, where the fields give 60 for day 59 |
| Decimal.DigitIsListed | sources/ezmlm-idx-7.0.2/fmt_ulong.c:13 | The digits are the ten characters of "0123456789" in their order, when written and when read |
| Decimal.FmtUlong | sources/ezmlm-idx-7.0.2/fmt_ulong.c:5-16 | Returns the number of decimal digits for a null buffer too, and otherwise puts exactly the digits into the buffer and nothing else |
| Decimal.FmtUint0 | sources/ezmlm-idx-7.0.2/fmt_uint0.c:5-12 | Pads with zeros on the left to at least `n` characters; same length with a null buffer |
| Decimal.FmtStr | sources/ezmlm-idx-7.0.2/fmt_str.c:3-11 | Copies the text without its NUL, or only measures it |
| Decimal.DigitsValue | sources/ezmlm-idx-7.0.2/fmt_ulong.c:9-14 | The digits read back as the number, have no leading zero, and are digits |
| Decimal.PaddedValue | sources/ezmlm-idx-7.0.2/fmt_uint0.c:8-11 | Padding does not change the value read back |
| Decimal.TwoDigits | sources/ezmlm-idx-7.0.2/fmt_uint0.c:8-11 | A number below 100 in two digits, tens first |
| Decimal.RunIsMaximal | sources/ezmlm-idx-7.0.2/scan_ulong.c:8-11 | The characters scanned are digits and the next one is not |
| Decimal.ScanUlong | sources/ezmlm-idx-7.0.2/scan_ulong.c:3-14 | Returns the length of the longest run of digits and its value modulo 2^64 |
| DateText.Date822Fmt | sources/ezmlm-idx-7.0.2/date822fmt.c:9-29 | Writes the date line and nothing else, and returns its length; the null-buffer call returns the same length |
| DateText.Date2Yyyymm | sources/ezmlm-idx-7.0.2/date2yyyymm.c:3-65 | Accepts exactly the lines of spaces and digits, a month name in any case, a space and a year that is not zero modulo 2^32; returns year times 100 plus month for these and 0 for all others |
| DateText.DateShapeUnique | sources/ezmlm-idx-7.0.2/date2yyyymm.c:15-64 | A line can be read as a date in one way only |
| DateText.TextFields | sources/ezmlm-idx-7.0.2/date822fmt.c:16-27 | Day and month stand in front, and hour, minute and second, two digits each, before the zone |
| DateText.MonthIsNamed | sources/ezmlm-idx-7.0.2/date2yyyymm.c:20-53 | The reader takes exactly the twelve names, each letter of either case |
| DateText.TextHasDateShape | sources/ezmlm-idx-7.0.2/date822fmt.c:16-27 | The line of any date is one that the reader accepts, with that year and month |
| DateText.DateInRange | sources/ezmlm-idx-7.0.2/datetime.c:25-52 | The year of a day count that fits in an int has at most seven digits, so that yyyymm fits in 32 bits |
| DateText.TextLength | sources/ezmlm-idx-7.0.2/date822fmt.h:6 | The line has at most 30 characters, well below the 60 that callers reserve |
| DateText.DateLineRoundTrip | sources/ezmlm-idx-7.0.2/date822fmt.c:14-28 | For every second in range the line fits its buffer and has the date's shape, year and month |
| DateText.YyyymmOfTime | sources/ezmlm-idx-7.0.2/date2yyyymm.c:15-64 | Seconds, date, text and back: `date2yyyymm` of the written line is the civil year times 100 plus the month |
| ListProtocol.SendNum | sources/ezmlm-idx-7.0.2/ezmlm-send.c:395-437 | Every step of a sender that holds the lock keeps `num` equal to the settled numbers and their size, plus at most the number in flight |
| ListProtocol.SendIndex | sources/ezmlm-idx-7.0.2/ezmlm-send.c:497-501 | Every step of a sender, whether or not it writes an index entry, keeps every index file increasing and complete for the attempts that wrote one |
| ListProtocol.BelowKeeps | sources/ezmlm-idx-7.0.2/ezmlm-send.c:265-287 | On a sorted index the copy loop, which stops at the first entry not below the new number, keeps exactly the smaller entries |
| ListProtocol.DigestRanges | sources/ezmlm-idx-7.0.2/ezmlm-get.c:973-1036 | Every step of a digest keeps the settled ranges adjacent and `dignum` at their end, or at the end of the range in flight |
| ListProtocol.DigestIssues | sources/ezmlm-idx-7.0.2/ezmlm-get.c:996-1034 | Every step of a digest keeps the issue numbers increasing, and consecutive unless a process died inside a commit |
| ListProtocol.HolderStep | sources/ezmlm-idx-7.0.2/ezmlm-get.c:1323-1342 | Every step of whoever holds the lock, including commit, rollback and death, keeps the whole invariant of the directory |
| ListProtocol.NumAhead | sources/ezmlm-idx-7.0.2/ezmlm-send.c:715-737 | In every reachable state `num` runs ahead of the settled numbers, by one, exactly between a sender's first write and its outcome |
| ListProtocol.RunKeepsInv | sources/ezmlm-idx-7.0.2/ezmlm-send.c:715-737 | In every interleaving of any number of senders and digests, with failures and deaths anywhere, mutual exclusion and the invariants of `num`, index, `dignum` and issue numbers hold |
| ListProtocol.DigestsPartition | sources/ezmlm-idx-7.0.2/ezmlm-get.c:969-1036 | With the lock free, the settled digest ranges are disjoint and adjacent and partition 1 to `dignum`; the queued ones alone do so exactly when no range was lost to a death inside a commit; without such deaths the issues are 1, 2, 3 and so on |
| ListProtocol.RangeIsSettled | sources/ezmlm-idx-7.0.2/ezmlm-get.c:969-1036 | The exact condition, in every reachable state and at every point of a digest: its range covers settled numbers only if and only if it does not go beyond `num`, as a second read under the lock would tell; it never goes beyond by more than one |
| ListProtocol.DignumBound | sources/ezmlm-idx-7.0.2/ezmlm-get.c:969-971 | `num` is read before the lock is taken: digests announce at most one number that is not settled, and none in runs without such a dirty read; with the lock free, none exactly when `dignum` is not above `num` |
| ListProtocol.DirtyReadRun | sources/ezmlm-idx-7.0.2/ezmlm-get.c:969-1036 | A run without deaths in which a digest announces a message that the sender then rolls back |
| ListProtocol.RecordsRound | sources/ezmlm-idx-7.0.2/ezmlm-send.c:687 | A size counts as the nearest number of 256-byte records |
| ListProtocol.NumbersAreUnique | sources/ezmlm-idx-7.0.2/ezmlm-send.c:715-737 | No two messages settled with the queue share a number; with the lock free `num` holds their count and the sum of their rounded sizes, which is within 128 bytes for each message of their bytes, and is that of the accepted ones when no process died between commit and outcome |
| ListProtocol.DigestSizes | sources/ezmlm-idx-7.0.2/ezmlm-get.c:969-1036 | In runs without dirty reads every settled digest, and with the lock free `dignum`, carries exactly the size of the messages up to its last number |
| ListProtocol.IndexIsExact | sources/ezmlm-idx-7.0.2/ezmlm-send.c:265-287 | In every reachable state every index file is strictly increasing, has only numbers of its hundred and none above `num` plus one, and lists a number exactly when some attempt to send it wrote an entry, whatever became of the attempt |
| ListProtocol.RunIndexes | sources/ezmlm-idx-7.0.2/ezmlm-send.c:265-319 | Over any run no entry is ever lost and none appears but by an attempt that wrote it |
| ListProtocol.HeaderOnlyRun | sources/ezmlm-idx-7.0.2/ezmlm-send.c:494-501 | A run in which a message of header lines alone is accepted without an index entry, so that settled numbers can be missing from the index |
| ListFiles.CopyBelow | sources/ezmlm-idx-7.0.2/ezmlm-send.c:265-285 | The loop that copies index entries below the new number |
| ListFiles.ListDir.InsertIndex | sources/ezmlm-idx-7.0.2/ezmlm-send.c:265-289 | Replaces the index file of the number's hundred by its smaller entries and the number; no other file changes |
| ListFiles.SendAlone | sources/ezmlm-idx-7.0.2/ezmlm-send.c:395-437 | The steps of one sender end with the next number settled, or with `num` restored; in both cases the index has the entry if the message is to be listed and is unchanged if not |
| ListFiles.ListDir.CopyMessage | sources/ezmlm-idx-7.0.2/ezmlm-send.c:494-501 | The loop over the message writes its index entry exactly when the list is indexed and some line is blank, and once |
| ListFiles.DigestAlone | sources/ezmlm-idx-7.0.2/ezmlm-get.c:969-1036 | The steps of one digest end with the range up to what it read queued, or with all files restored |
| ListFiles.ListDir.Send | sources/ezmlm-idx-7.0.2/ezmlm-send.c:395-437 | The straight-line code, with its decrements on failure, takes exactly those steps and leaves exactly those files, with and without an index entry; an accepted message adds its size to the nearest record |
| ListFiles.ListDir.Digest | sources/ezmlm-idx-7.0.2/ezmlm-get.c:971-1036 | The same for a digest; a refusal restores `dignum` and `digissue` |
| ListFiles.GetconfUlong2 | sources/ezmlm-idx-7.0.2/getconf_ulong.c:16-28 | Reads back from the line of `num` the two numbers that `numwrite` wrote into it |
| Constmap.FoldIsLower | sources/ezmlm-idx-7.0.2/case_diffb.c:12-15 | Exactly the 26 capital letters are folded, and they to small letters |
| Constmap.CaseDiffb | sources/ezmlm-idx-7.0.2/case_diffb.c:6-21 | Zero exactly when the two texts are equal up to the case of letters, by the byte arithmetic of the source |
| Constmap.ComputeHash | sources/ezmlm-idx-7.0.2/constmap.c:5-17 | The loop computes the hash of the bytes given, modulo 2^64 |
| Constmap.HashOfA | sources/ezmlm-idx-7.0.2/constmap.c:8-14 | The hash of one letter, worked out |
| Constmap.MaskIsRemainder | sources/ezmlm-idx-7.0.2/constmap.c:26 | With 2^k chains the mask takes the remainder |
| Constmap.HashCongruence | sources/ezmlm-idx-7.0.2/constmap.c:5-17 | Texts that `case_diffb` calls equal have the same hash |
| Constmap.RecordsAreKeys | sources/ezmlm-idx-7.0.2/constmap.c:94-113 | In terms of the bytes: every record is a line, behind the start or a NUL and before a NUL, with the bytes before its first separator or, if none is asked for, all of them as key; they are in order, and every line that has a key has a record |
| Constmap.ChainsAdd | sources/ezmlm-idx-7.0.2/constmap.c:106-111 | Inserting at the head of a bucket's chain keeps all chains: each record links to the last earlier one of its bucket |
| Constmap.Table.constructor | sources/ezmlm-idx-7.0.2/constmap.c:62-125 | The table holds exactly the keys of the lines, in order, in complete chains; `num` counts the lines; the number of chains is the smallest power of two from 64 on that is not below it |
| Constmap.Table.Fill | sources/ezmlm-idx-7.0.2/constmap.c:90-113 | The filling loop enters every line's record, with its hash, into the chains |
| Constmap.Table.AddRecord | sources/ezmlm-idx-7.0.2/constmap.c:104-112 | One record more, at the head of its chain |
| Constmap.Table.KeyLength | sources/ezmlm-idx-7.0.2/constmap.c:96-103 | The key is the whole line, or ends before its first separator; a line without a separator has none |
| Constmap.Table.SameRecord | sources/ezmlm-idx-7.0.2/constmap.c:28-30 | The tests of hash, length and text together are equality up to case |
| Constmap.Table.SearchAdvances | sources/ezmlm-idx-7.0.2/constmap.c:32 | The next link is strictly smaller, and no record that is jumped over matches |
| Constmap.Table.Find | sources/ezmlm-idx-7.0.2/constmap.c:48-59 | The last record that equals the query up to case, as a scan of all records would find it |
| Constmap.LastMatchAnswers | sources/ezmlm-idx-7.0.2/constmap.c:21-35 | The last matching record is the last line whose key is the query up to case, and there is none only if no line has such a key |
| Constmap.Table.Index | sources/ezmlm-idx-7.0.2/constmap.c:21-35 | One plus the largest index of a matching record, which is the last line whose key is the query up to case; 0 exactly if no line has such a key |
| Constmap.Table.Lookup | sources/ezmlm-idx-7.0.2/constmap.c:46-60 | Where the text behind the key starts in the last line whose key is the query up to case, or nothing exactly if no line has such a key |
| Constmap.Table.Get | sources/ezmlm-idx-7.0.2/constmap.c:38-44 | The start of the record with that number; nothing if and only if the number is not in 1 to `num` |
| Constmap.NumCountsRecords | sources/ezmlm-idx-7.0.2/constmap.c:74-101 | `num` equals the number of records exactly when every line has a separator (or none is asked for) |
| Constmap.SkippedLineIsCounted | sources/ezmlm-idx-7.0.2/constmap.c:74-101 | A line without the separator is counted in `num` although it has no record |
| StrReplace.LowerFolds | sources/altermime-0.3.10/pldstr.c:369-377 | Exactly the capital letters are folded, each to its small letter |
| StrReplace.MatchIsEquality | sources/altermime-0.3.10/pldstr.c:31-62 | A match is a piece of the text that equals the pattern, or equals it when both are in small letters |
| StrReplace.OccurrencesAreLeftmost | sources/altermime-0.3.10/pldstr.c:506-541 | The places found one after the other are matches that do not overlap, and every match that is not among them overlaps one that starts before it |
| StrReplace.LeftmostUnique | sources/altermime-0.3.10/pldstr.c:506-541 | There is one such list of places only |
| StrReplace.EligibleIsAnchored | sources/altermime-0.3.10/pldstr.c:533-537 | The comparisons with the anchors' places hold exactly if some match of the one anchor starts before the occurrence, and some match of the other that a search from the left finds starts behind it, as far as they are wanted |
| StrReplace.PldStrstr | sources/altermime-0.3.10/pldstr.c:31-62 | The first match from a place on, with or without regard to case |
| StrReplace.LastOccurrence | sources/altermime-0.3.10/pldstr.c:446-463 | The last of the leftmost occurrences of the post-anchor |
| StrReplace.CountOccurrences | sources/altermime-0.3.10/pldstr.c:472-488 | The counting pass counts the leftmost occurrences |
| StrReplace.NextSegmentEnd | sources/altermime-0.3.10/pldstr.c:511-541 | The first occurrence from a place on that passes the comparisons with both anchors |
| StrReplace.CopyInto | sources/altermime-0.3.10/pldstr.c:555-562 | The bounded copy writes the whole text when there is room for it, and counts the room down |
| StrReplace.SizeBuffer | sources/altermime-0.3.10/pldstr.c:466-490 | The count and the size as the source computes them, for growing, shrinking, limited and unlimited replacements |
| StrReplace.SizeSuffices | sources/altermime-0.3.10/pldstr.c:466-490 | That size, as long as it fits in an int, exceeds the length of the result: growing, shrinking, limited and unlimited |
| StrReplace.SizeOverflows | sources/altermime-0.3.10/pldstr.c:489-490 | A request whose size does not fit: what is left of it after the overflow is too small for the result |
| StrReplace.FindAnchors | sources/altermime-0.3.10/pldstr.c:428-463 | The first pre-anchor and the last of the leftmost post-anchors, or that a wanted one is missing |
| StrReplace.CopySegments | sources/altermime-0.3.10/pldstr.c:493-660 | The copying loop ends, writes exactly the result, and never reaches the branch for memory that ran out |
| StrReplace.SegmentLacks | sources/altermime-0.3.10/pldstr.c:554-576 | One round of the copying loop writes a segment and a replacement, or the tail, and leaves the rest of the result lacking |
| StrReplace.ChosenIsFirst | sources/altermime-0.3.10/pldstr.c:506-657 | The places that are replaced are the first `replacenumber` (or, for 0, all) anchored ones of the occurrences that a search from the left finds |
| StrReplace.SpliceReplaces | sources/altermime-0.3.10/pldstr.c:545-657 | Each replacement, and each piece of text between two, stands where the replacements before it have moved it, and there is nothing else |
| StrReplace.StrReplaceGeneral | sources/altermime-0.3.10/pldstr.c:402-664 | The source with the first `replacenumber` (or, for 0, all) anchored occurrences that a search from the left finds replaced and all else as it was, stated without the search, for every size that an int can hold |
| StrReplace.ReplacedIsRewrite | sources/altermime-0.3.10/pldstr.c:506-657 | Those replacements are what a character-by-character walk from the left would make that asks at each match whether it is anchored |
| StrReplace.ReplacedBySelf | sources/altermime-0.3.10/pldstr.c:543-657 | Replacing the search string by itself gives back the source |
| Linebreak.AdaptLinebreak | sources/altermime-0.3.10/mime_alter.c:687-721 | The input, or with a line feed for every "\r\n", or with "\r\n" for every line feed, as target and input demand |
| Linebreak.ReplacementsMean | sources/altermime-0.3.10/pldstr.c:684-702 | The two replacements, done by the general replacement function, are the expansion of every line feed and the contraction of every "\r\n" |
| Linebreak.CrlfIdempotent | sources/altermime-0.3.10/mime_alter.c:700-708 | Adapting to CRLF twice is adapting once, for every text |
| Linebreak.LfIdempotent | sources/altermime-0.3.10/mime_alter.c:709-717 | Adapting to LF twice is adapting once exactly for texts without "\r\r\n" |
| Linebreak.LfNotIdempotent | sources/altermime-0.3.10/mime_alter.c:709-717 | A text on which a second adaptation to LF changes something |
| Linebreak.CrlfThenLf | sources/altermime-0.3.10/mime_alter.c:687-721 | LF to CRLF to LF is the identity exactly on texts without "\r\n", so on every LF text |
| Linebreak.LfThenCrlf | sources/altermime-0.3.10/mime_alter.c:687-721 | CRLF to LF to CRLF is the identity exactly on uniform CRLF texts, and on texts that have a carriage return but no "\r\n" |
| Base64.AlphabetIs | sources/ezmlm-idx-7.0.2/encodeB.c:9-10 | The table is the alphabet of section 6.8 of RFC 2045 in its order, and the decoding table knows no other character |
| Base64.SplitIsBits | sources/ezmlm-idx-7.0.2/encodeB.c:23-27 | The four sextets are the 24 bits of the three bytes in their order |
| Base64.JoinSplit | sources/ezmlm-idx-7.0.2/encodeB.c:23-27 | Taking 24 bits apart into sextets and putting them together again gives back the three bytes |
| Base64.LegalEncoding | sources/ezmlm-idx-7.0.2/decodeB.c:53-60 | The characters of the alphabet among an encoding's are its sextets |
| Base64.LegalBreaks | sources/ezmlm-idx-7.0.2/decodeB.c:56-57 | Line breaks do not change what the decoder keeps |
| Base64.BreaksAt | sources/ezmlm-idx-7.0.2/encodeB.c:28-31 | Exactly every character number `width` is a line break |
| Base64.BrokenLines | sources/ezmlm-idx-7.0.2/encodeB.c:28-31 | Text broken every `width` characters keeps to a line limit exactly when its full lines do, if it has any, and its last line does with what stands behind it |
| EncodeB.Encoder.AddOne | sources/ezmlm-idx-7.0.2/encodeB.c:17-34 | One byte more, from any state of the register and the line counter; what is written and what is still owed make up the encoding |
| EncodeB.Encoder.DoRest | sources/ezmlm-idx-7.0.2/encodeB.c:36-57 | The flush writes what is owed: the short group with its stop characters, and the final line feed |
| EncodeB.CrLfAddsCr | sources/ezmlm-idx-7.0.2/encodeB.c:77-82 | The text that is encoded has one CR directly before each LF more than the input and nothing else |
| EncodeB.Encoder.EncodeB | sources/ezmlm-idx-7.0.2/encodeB.c:59-86 | A call from any state writes the encoding of its bytes, each LF as CR LF, between what was owed before and what is owed after; control 1 starts from the reset state |
| EncodeB.EncodeStream | sources/ezmlm-idx-7.0.2/encodeB.c:59-86 | Any chunks, flushed at the end, give the encoding of the concatenated input: the output depends on the bytes alone |
| EncodeB.LinesOf72 | sources/ezmlm-idx-7.0.2/encodeB.c:28-31 | No line is longer than 72 characters |
| EncodeB.LinesAre72 | sources/ezmlm-idx-7.0.2/encodeB.c:28-31 | All lines but the last have exactly 72 characters, and the stream ends with a line feed |
| EncodeB.ShortStreams | sources/ezmlm-idx-7.0.2/encodeB.c:17-57 | The streams of one, two and three bytes, written out |
| DecodeB.DecodeB | sources/ezmlm-idx-7.0.2/decodeB.c:22-63 | The loop with its register and padding decodes the characters of the alphabet in groups of four, each group up to its first NUL |
| DecodeB.JunkIsSkipped | sources/ezmlm-idx-7.0.2/decodeB.c:53-57 | A character outside the alphabet changes nothing, wherever it stands |
| DecodeB.DecodeEncoded | sources/ezmlm-idx-7.0.2/decodeB.c:33-62 | Decoding a complete encoded stream gives each group of three bytes up to its first NUL, and gives back what was encoded exactly when that has no NUL |
| DecodeB.RoundTrip | sources/ezmlm-idx-7.0.2/encodeB.c:78-81 | The input comes back, each LF as CR LF, exactly when it has no NUL |
| DecodeB.RoundTripWithoutCr | sources/ezmlm-idx-7.0.2/encodeB.c:78-81 | A NUL-free input itself comes back when one CR is taken away before each LF of the decoded stream |
| AlterBase64.EncodeBufferToFile | sources/altermime-0.3.10/mime_alter.c:862-933 | Writes the encoding of the text before the NUL, in lines of 80 characters |
| AlterBase64.EncodeRest | sources/altermime-0.3.10/mime_alter.c:895-907 | The padded group of the last one or two bytes |
| AlterBase64.LineLimit | sources/altermime-0.3.10/mime_alter.c:923-928 | Lines have at most 80 characters; they keep to the 76 of section 6.8 of RFC 2045 exactly for buffers of at most 57 bytes |
| AlterBase64.LinesAre80 | sources/altermime-0.3.10/mime_alter.c:895-931 | All lines but the last have exactly 80 characters; a blank line follows unless the text ends with a whole group |
| AlterBase64.ReadGroup | sources/altermime-0.3.10/mime_alter.c:965-996 | Collects four characters of the alphabet or runs into the NUL, counting stop characters; never reads behind the NUL |
| AlterBase64.WriteGroup | sources/altermime-0.3.10/mime_alter.c:1004-1008 | Writes the group below the read index and changes nothing from there on |
| AlterBase64.DecodeBuffer | sources/altermime-0.3.10/mime_alter.c:949-1016 | Decodes in place and ends, for NUL-terminated ASCII; the write index never passes the read index, so that nothing is overwritten before it is read |
| AlterBase64.NothingAfterThreeStops | sources/altermime-0.3.10/mime_alter.c:979-1008 | Behind three stop characters nothing is written any more |
| AlterBase64.JunkIsSkipped | sources/altermime-0.3.10/mime_alter.c:985-989 | A character outside the alphabet that is no stop character changes nothing, wherever it stands |
| AlterBase64.RoundTrip | sources/altermime-0.3.10/mime_alter.c:862-1016 | What was written for any buffer is NUL-free ASCII and decodes to the buffer |
| QuotedPrintable.HexIsListed | sources/ezmlm-idx-7.0.2/encodeQ.c:8 | The digits are those of "0123456789ABCDEF" in their order |
| QuotedPrintable.EscapedExactly | sources/ezmlm-idx-7.0.2/encodeQ.c:27-28 | What stands for itself: codes 32 to 60 and 62 to 126, tabs and line feeds |
| QuotedPrintable.EncodeQ | sources/ezmlm-idx-7.0.2/encodeQ.c:10-45 | Escapes and soft breaks as a function of the input and of the column counter, which only escapes raise |
| QuotedPrintable.DecodeQ | sources/ezmlm-idx-7.0.2/decodeQ.c:26-56 | Appends the decoding of the first `n` characters; an escape cut off at the end gives nothing, one that is not hexadecimal gives '=' |
| QuotedPrintable.DecodeEncoded | sources/ezmlm-idx-7.0.2/encodeQ.c:25-43 | From any column and with anything behind it, an encoding decodes to its input with underscores turned into spaces |
| QuotedPrintable.RoundTrip | sources/ezmlm-idx-7.0.2/decodeQ.c:38-55 | Decoding undoes encoding exactly for inputs without underscores, and changes only these otherwise |
| QuotedPrintable.RoundTripInPieces | sources/ezmlm-idx-7.0.2/encodeQ.c:20-44 | Pieces encoded by separate calls decode as one text |
| QuotedPrintable.EncodedIsPrintable | sources/ezmlm-idx-7.0.2/encodeQ.c:27-42 | The output holds only printable ASCII, tabs and line feeds |
| QuotedPrintable.BadEscapes | sources/ezmlm-idx-7.0.2/decodeQ.c:41-53 | An escape that is not hexadecimal is read as '=', one that is cut off at the end as nothing, a soft line break as nothing |
| QuotedPrintable.EscapeIsCanonical | sources/ezmlm-idx-7.0.2/decodeQ.c:46-52 | What the decoder takes for an escape is, but for the case of its letters, exactly what the encoder writes for the decoded character |
| QuotedPrintable.EncodedLines | sources/ezmlm-idx-7.0.2/encodeQ.c:25-43 | For all text an output line is at most 73 characters and the largest number of unescaped characters on a line of the input |
| QuotedPrintable.EscapedLines | sources/ezmlm-idx-7.0.2/encodeQ.c:28-42 | Text of escapes and line feeds alone is broken into lines of at most 73 characters, within section 6.7 of RFC 2045 |
| QuotedPrintable.UnchangedWithoutEscapes | sources/ezmlm-idx-7.0.2/encodeQ.c:27-42 | A text is unchanged exactly when no character of it is escaped, so lines of such characters are not broken at any length |
| BoundaryStack.AlnumIsListed | sources/altermime-0.3.10/boundary-stack.c:228 | The test is that for one of the 62 letters and digits |
| BoundaryStack.NonHyphenLength | sources/altermime-0.3.10/boundary-stack.c:223-231 | The number of places where one of the 62 letters and digits stands |
| BoundaryStack.SameFirstIsPrefix | sources/altermime-0.3.10/boundary-stack.c:434 | `strncmp` with the length of its first argument is the test for a prefix |
| BoundaryStack.Globals.BoundaryDetect | sources/altermime-0.3.10/boundary-stack.c:405-443 | A hit exactly when the boundary occurs at one of the first `detect_limit` places, or, for an empty one, when two hyphens start the line |
| BoundaryStack.Globals.Init | sources/altermime-0.3.10/boundary-stack.c:63-77 | The state of an empty stack with the default detect limit and no hold limit; the popped text stays |
| BoundaryStack.Globals.SetHoldLimit | sources/altermime-0.3.10/boundary-stack.c:94-99 | Any limit is taken, and nothing else changes |
| BoundaryStack.Globals.SetBoundaryDetectLimit | sources/altermime-0.3.10/boundary-stack.c:160-168 | A limit from 1 to 1023 is taken, any other is not; the limit in force is returned |
| BoundaryStack.Globals.Top | sources/altermime-0.3.10/boundary-stack.c:335-343 | The top boundary, or nothing exactly when the stack is empty |
| BoundaryStack.Globals.Push | sources/altermime-0.3.10/boundary-stack.c:248-285 | Pushes with all cached fields updated, or, at the hold limit or without memory, changes nothing |
| BoundaryStack.Globals.Pop | sources/altermime-0.3.10/boundary-stack.c:303-318 | Takes off the top and returns it cut to 1023 characters; on an empty stack returns what was popped last |
| BoundaryStack.PushThenPop | sources/altermime-0.3.10/boundary-stack.c:248-318 | Last in, first out: a boundary of up to 1023 characters that is taken comes back, and stack and count are as before |
| BoundaryStack.Globals.Clear | sources/altermime-0.3.10/boundary-stack.c:186-204 | Empties the stack, the count and the smallest length; the flag for empty boundaries stays |
| BoundaryStack.Globals.Cmp | sources/altermime-0.3.10/boundary-stack.c:465-564 | A hit leaves the stack from the topmost hit on and frees exactly the nodes above it; a miss leaves everything |
| BoundaryStack.Globals.Search | sources/altermime-0.3.10/boundary-stack.c:503-521 | The walk ends at the first node that is hit, or behind the last |
| BoundaryStack.Globals.FreeAbove | sources/altermime-0.3.10/boundary-stack.c:541-556 | The freeing loop walks the list to the node that was hit and frees no other |
| BoundaryStack.RunKeepsInv | sources/altermime-0.3.10/boundary-stack.c:248-318 | In every run from `BS_init`: count is depth plus the nodes that comparisons dropped, `smallest_length` is at most every stacked length, an empty stacked boundary implies `have_empty_boundary` |
| BoundaryStack.CountHolds | sources/altermime-0.3.10/boundary-stack.c:251-255 | The count stays within the hold limit in every step except exactly one: setting a limit below the count |
| BoundaryStack.RunKeepsCount | sources/altermime-0.3.10/boundary-stack.c:251-255 | So it does in every run that sets no such limit |
| BoundaryStack.HoldLimitHolds | sources/altermime-0.3.10/boundary-stack.c:251-255 | Count within the limit and dropped nodes below it: both stay so in every step except exactly the setting of a limit too small for one of them |
| BoundaryStack.RunKeepsHoldLimit | sources/altermime-0.3.10/boundary-stack.c:251-255 | So they do in every run that sets no such limit |
| BoundaryStack.EmptyTakesOne | sources/altermime-0.3.10/boundary-stack.c:251-255 | Then, although the count outlives dropped nodes, an empty stack always takes a boundary |
| BoundaryStack.CountOutlivesNodes | sources/altermime-0.3.10/boundary-stack.c:541-557 | A run after which a stack limited to two is full with one |
| BoundaryStack.CmpIsSeen | sources/altermime-0.3.10/boundary-stack.c:465-564 | With the line's own length, the early returns and the cached fields never change the answer: a hit exactly when some stacked boundary passes the test on the first 126 characters of the line; the stack then starts at the topmost of these, and otherwise stays |
| BoundaryStack.SeenInTime | sources/altermime-0.3.10/boundary-stack.c:491-495 | On a given line, cropping changes the test of a boundary exactly when it occurs near the start but no such occurrence ends within 126 characters |
| BoundaryStack.TooLate | sources/altermime-0.3.10/boundary-stack.c:431-440 | A boundary that first stands one place behind the detect limit is not found |
| BoundaryStack.CroppingIsHarmless | sources/altermime-0.3.10/boundary-stack.c:491-495 | Cropping never changes the test of a boundary, on any line, exactly when boundary and detect limit together are at most 127; this covers the 70 characters of section 5.1.1 of RFC 2046 for detect limits up to 57 |
| BoundaryStack.CmpIsPlain | sources/altermime-0.3.10/boundary-stack.c:465-564 | While all stacked boundaries are that short, a hit is exactly a match by the plain test of the whole line; the stack then starts at the topmost match, and otherwise stays |
| BoundaryStack.LongBoundaryIsMissed | sources/altermime-0.3.10/boundary-stack.c:491-495 | A pushed boundary of 127 letters is missed on a line that consists of it |
| BoundaryStack.EveryCmpIsPlain | sources/altermime-0.3.10/boundary-stack.c:465-564 | Both hold in every reachable state: the answer, the stack after a hit and the state after a miss, by the cropped line always and by the whole line while all stacked boundaries are short |
| BoundaryStack.CmpTwice | sources/altermime-0.3.10/boundary-stack.c:465-564 | Comparing the same line again gives the same answer and changes nothing |
| BoundaryStack.DelimiterIsFound | sources/altermime-0.3.10/boundary-stack.c:405-443 | A boundary of up to 124 characters behind two hyphens (section 5.1.1 of RFC 2046) is recognised exactly when none of the 62 letters and digits follows on the line |
| BoundaryStack.LongerBoundaryIsMissed | sources/altermime-0.3.10/boundary-stack.c:479-506 | The delimiter of a boundary with one letter or digit more is not taken for this one's |
| BoundaryStack.EmptyBoundaryExactly | sources/altermime-0.3.10/boundary-stack.c:411-417 | An empty boundary is found exactly on lines that start with two hyphens and have no letter or digit |
| BoundaryStack.HyphensAreOptional | sources/altermime-0.3.10/boundary-stack.c:431-442 | A boundary without its two hyphens is taken for a delimiter as well |
| Moderation.DelayIsNearest | sources/ezmlm-idx-7.0.2/ezmlm-clean.c:237-242 | A configured delay that is not allowed is replaced by the nearest that is |
| Moderation.DelayIsTaken | sources/ezmlm-idx-7.0.2/ezmlm-clean.c:237-242 | A configured delay from 24 to 240 is taken as it is, and 0 stands for 120 |
| Moderation.Older | sources/ezmlm-idx-7.0.2/ezmlm-clean.c:237-243 | The limit of age is never less than 24 hours back, whatever is configured, and at most 240 hours back exactly as long as it fits into the 32 bits of its variable |
| Moderation.EffectKeepsName | sources/ezmlm-idx-7.0.2/ezmlm-moderate.c:400-408 | Posting or returning a message keeps the books balanced: the outcome is owed an unlink |
| Moderation.CleanedKeepsName | sources/ezmlm-idx-7.0.2/ezmlm-clean.c:200-219 | So does unlinking after a notice, or without one, in each of the directories |
| Moderation.DeathKeepsName | sources/ezmlm-idx-7.0.2/ezmlm-moderate.c:394-398 | A death between an effect and its unlink is one fault |
| Moderation.RunKeepsInv | sources/ezmlm-idx-7.0.2/ezmlm-store.c:184-220 | In every interleaving of stores, decisions and sweeps, with failures and deaths anywhere, mutual exclusion and the books of every name hold |
| Moderation.OutcomesBalance | sources/ezmlm-idx-7.0.2/ezmlm-moderate.c:390-450 | With the lock free, the files stored under a name and the faults together equal the outcomes, the silent erasures and the file that waits; there are never more outcomes than that |
| Moderation.AtMostOneOutcome | sources/ezmlm-idx-7.0.2/ezmlm-moderate.c:102-141 | With unique names and no faults each message is posted, returned or timed out at most once, and once unless it was erased or waits; no name has both stubs |
| Moderation.StubsAreTrue | sources/ezmlm-idx-7.0.2/ezmlm-moderate.c:228-245 | An accepted stub implies posted and a rejected stub implies returned, and so does what a second moderator is told; nobody is told that a message timed out before it was settled |
| Moderation.TimedOutIsOld | sources/ezmlm-idx-7.0.2/ezmlm-clean.c:200-214 | No message times out before it is a day old |
| Moderation.OnlyCompleteIsDecided | sources/ezmlm-idx-7.0.2/ezmlm-store.c:352-384 | Only messages that were stored completely are posted or returned, and only under the lock |
| Moderation.QueueingHoldsNoLock | sources/ezmlm-idx-7.0.2/ezmlm-store.c:357-380 | A store has given the lock back before it queues its request |
| Moderation.FailedUnlinkRepeats | sources/ezmlm-idx-7.0.2/ezmlm-moderate.c:394-409 | The bound is reached: when the unlink fails, the next request posts the message again |
| ModFiles.ModDir.CheckFile | sources/ezmlm-idx-7.0.2/ezmlm-moderate.c:102-141 | 1, -1, -2 or 0 by the first of the three directories that has the file |
| ModFiles.ModDir.FreshName | sources/ezmlm-idx-7.0.2/ezmlm-store.c:205-220 | The name of the first of three tries that is not taken; none exactly when all three are; waiting for the lock and the tries with the time between them are steps of the state machine |
| ModFiles.ModDir.Store | sources/ezmlm-idx-7.0.2/ezmlm-store.c:205-384 | The code from waiting for the lock on takes steps of the state machine, also when it gives up; a message is left complete, left incomplete or taken back as its calls succeed, and a request goes out exactly for exit code 0, which means a complete message |
| ModFiles.ModDir.Moderate | sources/ezmlm-idx-7.0.2/ezmlm-moderate.c:228-450 | The code from waiting for the lock on takes steps of the state machine; exit code 0 exactly when the wish is carried out now or was before; outcome, fault, stub and unlink are stated for every failure, also of a command that posts and then fails |
| ModFiles.ModDir.Finish | sources/ezmlm-idx-7.0.2/ezmlm-moderate.c:400-404 | The stub is written as the moderator decided and the message unlinked; an unlink that fails is a fault and changes no file |
| ModFiles.ModDir.OneFile | sources/ezmlm-idx-7.0.2/ezmlm-clean.c:207-218 | A notice exactly where it is due, then the unlink; a notice that fails ends the program with the file left |
| ModFiles.ModDir.DoDir | sources/ezmlm-idx-7.0.2/ezmlm-clean.c:173-222 | The sweep takes steps of the state machine; each poster who is to be told is told once and no other, the other directories stay as they are, and, if no unlink fails, what is left is exactly what is not too old |
| ModFiles.ModDir.Clean | sources/ezmlm-idx-7.0.2/ezmlm-clean.c:237-251 | The whole run from waiting for the lock on takes steps of the state machine, directory by directory; if nothing fails, what is left in all three is exactly what is not too old, and each poster of a complete message that is too old was told once |
| GrowArray.AllocRe | sources/ezmlm-idx-7.0.2/alloc_re.c:6-16 | A new block with the first elements of the old, or the old block when there is no memory |
| GrowArray.Array.Ready | sources/ezmlm-idx-7.0.2/gen_allocdefs.h:6-18 | Contents and length are kept; room for `n` elements unless memory fails, and then nothing changes but the books; the capacity is `n` at first and then base and nine eighths of `n` |
| GrowArray.Array.ReadyPlus | sources/ezmlm-idx-7.0.2/gen_allocdefs.h:20-32 | The same for `n` elements more than there are |
| GrowArray.Array.Append | sources/ezmlm-idx-7.0.2/gen_allocdefs.h:34-36 | One element behind the others, or nothing on failure |
| GrowArray.RunKeeps | sources/ezmlm-idx-7.0.2/gen_allocdefs.h:6-36 | Over any calls with any failures the array holds what was there and then exactly the elements whose append succeeded |
| GrowArray.CopyingIsLinear | sources/ezmlm-idx-7.0.2/gen_allocdefs.h:12-13 | All elements ever copied are at most eight times the capacity, for every base, and linear in the largest request |
| GrowArray.AppendingIsLinear | sources/ezmlm-idx-7.0.2/gen_allocdefs.h:34-36 | Appending one by one copies at most nine elements per element, besides eight times the base |
| Pool.RoundedIsEnough | sources/ezmlm-idx-7.0.2/alloc.c:17 | The rounded size is aligned, and exceeds the size asked for exactly when the sum fits into 32 bits |
| Pool.Allocator.Alloc | sources/ezmlm-idx-7.0.2/alloc.c:14-23 | Blocks of the static space stay aligned, inside it and apart from each other exactly when the rounding does not overflow; the space is used exactly when the size is below what is left or overflows |
| Template.TagIs | sources/ezmlm-idx-7.0.2/copy.c:120-123 | A tag is "<#", one character and "#>" |
| Template.CopyXlate | sources/ezmlm-idx-7.0.2/copy.c:108-193 | The loop with its two positions gives the line read from the left, tag by tag, each tag replaced by its text |
| Template.PlainPrefix | sources/ezmlm-idx-7.0.2/copy.c:119-126 | What stands before the first tag is copied |
| Template.NoTagsNoChange | sources/ezmlm-idx-7.0.2/copy.c:188-192 | A line without tags is left alone |
| Template.DiesOfUnsafeTags | sources/ezmlm-idx-7.0.2/copy.c:127-164 | The program dies exactly of a header line that holds one of the two unsafe tags anywhere, since these never overlap another tag |
| Template.TargetIsComposed | sources/ezmlm-idx-7.0.2/copy.c:5-17 | The documentation gives `<#A#>` as `<#a#>@<#h#>`: the two print the same exactly when the target's host is the list's |
| Template.ConfirmIsComposed | sources/ezmlm-idx-7.0.2/copy.c:5-17 | The documentation gives `<#r#>` as `<#l#>-<#c#>`: the two print the same exactly when the prefix that was set is the list's name and a hyphen |
| Template.DocumentedTags | sources/ezmlm-idx-7.0.2/copy.c:127-167 | What the documented tags print: list name, host and directory, message number and the addresses as they were set |
| Template.ParameterTags | sources/ezmlm-idx-7.0.2/copy.c:168-182 | The ten digits print the parameters of that number, in order |
| Template.OtherTags | sources/ezmlm-idx-7.0.2/copy.c:183-184 | Every other tag prints nothing |
| Template.UnsetTags | sources/ezmlm-idx-7.0.2/copy.c:54-60 | What was never set prints as question marks for four tags, and as nothing for the three that stand for parts of addresses |
| Template.KillingLeavesTag | sources/ezmlm-idx-7.0.2/copy.c:183-187 | The output is not searched again: killing an unknown tag can leave a known one |

## Left out

- DatetimeTai.Datetime.Tai: day counts within four of the largest int, where `day + 4` overflows in the source.
- StrReplace.StrReplaceGeneral: sizes that overflow an int, after which the source's allocation means nothing; an empty search string, on which the source does not end, a negative limit, which its interface does not define, and a failing `malloc`.
- Linebreak.AdaptLinebreak: a target that starts with neither "\r" nor "\n", for which the source returns an uninitialised pointer, and texts whose adapted size overflows an int.
- Constmap.Table.constructor: failing allocations, and buffers of 2 GB or more, whose length is not an int.
- QuotedPrintable.DecodeQ: an '=' as the last character needs one readable character behind it, as in the source.
- AlterBase64.DecodeBuffer: text with characters above 127, for which the source indexes its table with a negative char.
- Pool.Allocator.Alloc: `alloc_free`, which does nothing to blocks of the static space.
- GrowArray.Array.ReadyPlus: sums that exceed an unsigned int.
- BoundaryStack.Globals.Init: the nodes of a stack that is not empty are not freed, as in the source.
- Moderation.AtMostOneOutcome: names are taken to be unique here and in OnlyCompleteIsDecided, as time and process number make them; the balance of OutcomesBalance holds for repeated names too.
- ListFiles.ListDir.Digest: the third field of `dignum`, the time of the last digest, and failing file writes other than by a death.
- The output reservations of `encodeB` and `encodeQ`: outputs are growing sequences, and no claim is made that the reserved size suffices.
- `encodeB` after a flush without a reset: the flush leaves the register and the line counter as they are.
- Lists that are not archived, and sublists, whose outgoing number can differ from the incoming one.
- The author lines and subjects of index files; entries are their numbers.
- Posts that wait for confirmation (mod/unconfirmed), read-only files, and the order in which a directory is read.
- The contents of messages, addresses and cookies: the state machine takes it that only recipients of a request can answer it.
- Header parsing, MIME decoding of malformed mail, the `FFGET` reader, CGI, SQL back ends, option handling, and the programs around these algorithms.
