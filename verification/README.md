# Verified model of the POCO core

A Dafny model of the stateful and arithmetic core of the POCO C++ libraries, with proofs of what that code is meant to guarantee.
Each module follows one or two source files. Objects that update their fields are classes with the same fields, loops are loops, and
every such method is proved against a function on sequences, maps or trees about which the lemmas then speak.

| module | what it models |
|---|---|
| Glob | pattern matching with backtracking, against a declarative match relation |
| Calendar | Julian days, Gregorian dates, carries, midnight repair, weeks |
| Digits, DateTimeText, DateTimeParser, DateTimeRoundTrip | printing and parsing dates by format strings, and when parsing undoes printing |
| DateTimeShapes, DateTimeReading | what printed dates look like, and what is made of texts the formatter need not have written |
| DirectoryTraversal, DirectoryOrders | the two directory walks with explicit stacks over a finite tree, and what their orders are |
| Digest | the buffering, counting and padding of MD5 and MD4 around an opaque compression function |
| CryptoStream | RSA transforms that cut a stream into pieces, and the buffered streams around them |
| SessionPool | the session pool, its janitor and its clients over whole runs |
| LogArchive | log rotation by number with a compressor running beside it |
| LoggerHierarchy | inheritance of levels and channels along dotted names |
| CppTokens, CppTokenLaws | the C++ tokenizer, and the laws of its operators, numbers, literals, comments and directives |
| AttributesParser, AttributeTexts, AttributesPrinter, AttributesSurvival | the attribute parser, the texts it reads, the printer it undoes, and exactly when it does |
| BaseCoding, Base32, Base64 | the two codecs with their carried groups, padding and line breaks |
| RecordCursor | the filtered cursor and iterator of a record set |
| LineEndings, BinaryStrings, RowOrder | line end conversion, length-prefixed strings, the order of rows |
| Ascii, Wrappers | character classes; a value that may be missing |

File systems are maps or finite trees. Compression functions and the RSA primitive are function parameters. Every method under a mutex
is one atomic step; what other threads may do in between is an arbitrary choice. `double` is `real`, with the rounding of a Julian day
as an arbitrary bounded error. Machine integers are unbounded except where their width shows: the digest counters and block loop, row
numbers, string lengths.

## Where the code does not do what it promises

Each is proved with a concrete input or as an exact condition.

- A glob set whose range ends in `]` or a backslash may stop at a different bracket on a hit than on a miss (`Glob.SetReadingsAgree`, `Glob.BracketBoundMisleads`); in an inverted set it does no harm as long as a bracket follows every range (`Glob.ClosingSetRefuses`).
- Dates before 15 October 1582 get a wrong time of day unless it is midnight (`Calendar.DateTime.SetUtcTime`).
- A recursive directory iterator over an empty directory delivers that directory as an entry (`DirectoryTraversal.WalkChildrenFirst`).
- A single update that comes to 2^32 bytes or more, together with the bytes waiting in the buffer, never leaves its block loop (`Digest.LoopEndsExactly`).
- A crypto input stream whose buffer is larger than two blocks by less than six bytes, which the constructor accepts, delivers nothing (`CryptoStream.ReadBuffer.ReadAll`).
- A read may need more room than it was given with keys whose blocks are more than twice as long as their pieces, such as 512 bits with OAEP; a write may with small buffers that the constructor accepts, such as 350 bytes for 1024 bits with OAEP. (`CryptoStream.ReadsFitExactly`, `CryptoStream.WritesFitExactly`, `CryptoStream.ShortKeyOverflows`, `CryptoStream.SmallBufferOverflows`).
- With OAEP, full pieces are one byte longer than RFC 8017 admits for SHA-1, so that data longer than that cannot be encrypted (`CryptoStream.PiecesAreLongest`).
- Log rotation without compression beside an old `.gz` archive leaves two forms of one archive (`LogArchive.RotationMovesArchives`).
- `setLevel` on a name that has no logger does not reach loggers created later, unless they inherit that level anyway (`LoggerHierarchy.SetLevelLasts`).
- An attribute map that has a value such as `1a`, or one with quotes, backslashes or line ends, or beginning with a brace, never comes back from its printed form (`AttributesPrinter.ReadableExactly`, `AttributesSurvival.PrintAndRead`).
- Space-padded and unpadded numbers run into a digit behind them; a zone behind a mark is not read; a letter or a sign behind UTC is taken along (`DateTimeRoundTrip.LooseNumbersExactly`, `DateTimeRoundTrip.ZoneBehindJunk`, `DateTimeRoundTrip.UtcExactly`).
- `moveNext` on an empty record set moves to a row that does not exist (`RecordCursor.MoveNextStaysInside`).
- `row()` compares row numbers with the number of allowed rows, so a filter with gaps hides allowed rows; the begin iterator stands on row 0 even if the filter excludes it (`RecordCursor.RowsAccepted`, `RecordCursor.IterateAll`).
- The row order is a strict weak order on all rows only for sort maps that compare no numbers before their first empty comparison, since a NaN breaks it (`RowOrder.StrictWeakExactly`).
- The pool's documentation says that idle sessions that are not connected can not exist. They do once a session loses its connection while idle, until the next `get`; a janitor pass leaves it in a pool that may not shrink. Nothing else brings them about (`SessionPool.AnyRun`, `SessionPool.Step`, `SessionPool.DeadWhileIdle`).

## Model

| member | source | states |
|---|---|---|
| Glob.Glob.Match | CppCon2015/osp/Foundation/src/Glob.cpp:40-52 | for a regular pattern, returns without throwing and is true exactly on the subjects described by the declarative relation; with GLOB_DOT_SPECIAL a leading wildcard never matches a leading dot; what a written pattern describes is WrittenIsMatched |
| Glob.Glob.MatchAt | CppCon2015/osp/Foundation/src/Glob.cpp:101-151 | the two-iterator loop, from any pair of positions, against the recursive matching function, including where it throws |
| Glob.Glob.MatchAfterAsterisk | CppCon2015/osp/Foundation/src/Glob.cpp:154-157 | the star loop tries every nonempty rest of the subject |
| Glob.Glob.MatchBracket | CppCon2015/osp/Foundation/src/Glob.cpp:122-134 | the bracket case of the loop, with its inversion |
| Glob.Glob.SkipStars | CppCon2015/osp/Foundation/src/Glob.cpp:105-109 | at the end of the subject exactly the all-star tails are left behind |
| Glob.Glob.MatchSet | CppCon2015/osp/Foundation/src/Glob.cpp:160-208 | the set scan: outcome and the place where it stops, including the two throws |
| Glob.Glob.ReadRangeAt | CppCon2015/osp/Foundation/src/Glob.cpp:172-183 | one set element, escapes and ranges included, from whichever position; which one is ReadsRange |
| Glob.Glob.SkipToClose | CppCon2015/osp/Foundation/src/Glob.cpp:189-205 | the scan after a hit looks for the closing bracket, stepping over backslashes |
| Glob.MatchIsDeclarative | CppCon2015/osp/Foundation/src/Glob.cpp:101-151 | for patterns whose plain sets are consistent and whose inverted sets close, the backtracking search decides the declarative relation for stars, question marks, escapes and sets |
| Glob.StarIsDeclarative | CppCon2015/osp/Foundation/src/Glob.cpp:115-121 | the star loop finds a matching nonempty rest if there is one |
| Glob.EmptySuffix | CppCon2015/osp/Foundation/src/Glob.cpp:115-121 | only an all-star tail matches the empty rest, so the star loop may skip it |
| Glob.StarsMatchEverything | CppCon2015/osp/Foundation/src/Glob.cpp:115-121 | a run of stars matches every subject |
| Glob.SetReadingsAgree | CppCon2015/osp/Foundation/src/Glob.cpp:160-208 | the set scan gives membership and stops behind the closing bracket for all characters if and only if the set is consistent |
| Glob.SetIsDeclarative | CppCon2015/osp/Foundation/src/Glob.cpp:160-208 | on a consistent set it does so for the given character |
| Glob.InconsistentSetFails | CppCon2015/osp/Foundation/src/Glob.cpp:160-208 | on an inconsistent set there is a character on which it does not |
| Glob.ClosingSetRefuses | CppCon2015/osp/Foundation/src/Glob.cpp:122-134 | an inverted set whose ranges all have a bracket somewhere behind them refuses its members and lets all others pass to the right place |
| Glob.PlainBoundsAreConsistent | CppCon2015/osp/Foundation/src/Glob.cpp:160-208 | sets whose ranges do not end in a bracket or a backslash are consistent |
| Glob.BracketBoundMisleads | CppCon2015/osp/Foundation/src/Glob.cpp:189-205 | the set [xa-]] stops at different brackets for x and for y |
| Glob.InversionForgives | CppCon2015/osp/Foundation/src/Glob.cpp:122-134 | the same range in an inverted set does no harm |
| Glob.LateScan | CppCon2015/osp/Foundation/src/Glob.cpp:189-205 | a scan entered one character late reaches the right bracket only if the one on time does |
| Glob.ScanFromNextElement | CppCon2015/osp/Foundation/src/Glob.cpp:189-205 | a scan that ends at the right bracket also does from the next element on |
| Glob.ReadsRange | CppCon2015/osp/Foundation/src/Glob.cpp:172-183 | an element written as x or x-y, each character escaped if it is a bracket, an exclamation mark or a backslash, is read back as the range from x to y |
| Glob.ReadsRanges | CppCon2015/osp/Foundation/src/Glob.cpp:160-208 | all the elements of a written set are read back, up to its closing bracket |
| Glob.ReadsElem | CppCon2015/osp/Foundation/src/Glob.cpp:101-151 | a literal, a question mark, a star or a set, plain or inverted, is read back from the front of a pattern |
| Glob.ReadsPattern | CppCon2015/osp/Foundation/src/Glob.cpp:101-151 | every list of elements can be written, and a pattern read is the one written |
| Glob.WrittenForms | CppCon2015/osp/Foundation/src/Glob.cpp:101-188 | the very characters that are written for wildcards, escapes, sets, ranges and inversion |
| Glob.HarmlessIsRegular | CppCon2015/osp/Foundation/src/Glob.cpp:160-208 | patterns whose ranges do not end in a bracket or a backslash are regular |
| Glob.WrittenIsMatched | CppCon2015/osp/Foundation/src/Glob.cpp:40-52 | writing such elements down and matching a subject against them decides whether the elements describe it |
| Glob.RangeIsMatched | CppCon2015/osp/Foundation/src/Glob.cpp:172-188 | [x-y] matches exactly the characters from x to y |
| Calendar.JulianDayIsInstant | CppCon2015/osp/Foundation/src/DateTime.cpp:301-315 | toJulianDay is the number of days since the epoch of the day numbers, fraction included, exactly |
| Calendar.Epochs | CppCon2015/osp/Foundation/testsuite/src/DateTimeTest.cpp:53-94 | the Julian days of the reform, of the Unix epoch and of noon on 1 January 2000, and the UTC times of the first two |
| Calendar.UtcOfJulianDay | CppCon2015/osp/Foundation/src/DateTime.cpp:26-37 | UTC time to Julian day and back is the identity; a day is 864000000000 ticks |
| Calendar.NextDayNumber | CppCon2015/osp/Foundation/src/DateTime.cpp:301-315 | the calendar day after a valid date has the next day number |
| Calendar.PreviousDayNumber | CppCon2015/osp/Foundation/src/DateTime.cpp:301-315 | and the day before it the previous one |
| Calendar.DateOfDayNumber | CppCon2015/osp/Foundation/src/DateTime.cpp:348-364 | computeGregorian inverts toJulianDay on every valid date |
| Calendar.DayNumberOfDate | CppCon2015/osp/Foundation/src/DateTime.cpp:348-364 | every day number is that of a valid date: a bijection |
| Calendar.DateStepsInReals | CppCon2015/osp/Foundation/src/DateTime.cpp:348-364 | the floors of 36524.25, 365.25 and 153/5 over reals find that date |
| Calendar.DaytimeStepsInReals | CppCon2015/osp/Foundation/src/DateTime.cpp:365-379 | the time steps add up to the fraction of the day rounded to the microsecond |
| Calendar.RoundedFields | CppCon2015/osp/Foundation/src/DateTime.cpp:328-379 | after normalize the fields of any Julian day are those of the rounded microsecond, across month and year ends |
| Calendar.NormalizedKeepsInstant | CppCon2015/osp/Foundation/src/DateTime.cpp:328-345 | normalize keeps the instant and brings every field into range |
| Calendar.RepairIsExact | CppCon2015/osp/Foundation/src/DateTime.cpp:392-431 | with a computed time at most an hour off, the date repaired across midnight is the true one |
| Calendar.SpanFromReform | CppCon2015/osp/Foundation/src/DateTime.cpp:392-404 | from 15 October 1582 on the span components are the time of day |
| Calendar.SpanBeforeReform | CppCon2015/osp/Foundation/src/DateTime.cpp:392-404 | before that they are the time of day exactly at midnight |
| Calendar.FieldsOfInstant | CppCon2015/osp/Foundation/src/DateTime.cpp:301-315 | valid fields are determined by their instant |
| Calendar.Units | CppCon2015/osp/Foundation/src/DateTime.cpp:301-315 | an hour is 3600000000 microseconds, a minute 60000000, a second 1000000, a millisecond 1000 |
| Calendar.DateTime.SetUtcTime | CppCon2015/osp/Foundation/src/DateTime.cpp:131-137 | with any rounding error below an hour in the Julian day, the fields are those of the UTC time if and only if it is not before 15 October 1582 or is a midnight |
| Calendar.DateTime.ComputeGregorian | CppCon2015/osp/Foundation/src/DateTime.cpp:348-379 | the fields of a Julian day |
| Calendar.DateTime.ComputeDate | CppCon2015/osp/Foundation/src/DateTime.cpp:350-364 | its date steps |
| Calendar.DateTime.ComputeFraction | CppCon2015/osp/Foundation/src/DateTime.cpp:365-378 | its time steps |
| Calendar.DateTime.ComputeDaytime | CppCon2015/osp/Foundation/src/DateTime.cpp:392-431 | time of day from the UTC time, date repaired |
| Calendar.DateTime.Normalize | CppCon2015/osp/Foundation/src/DateTime.cpp:328-345 | in place, the normalized fields |
| Calendar.DateTime.CarryFields | CppCon2015/osp/Foundation/src/DateTime.cpp:330-334 | the five carries |
| Calendar.DateTime.CheckLimit | CppCon2015/osp/Foundation/src/DateTime.cpp:318-325 | one carry |
| Calendar.DateTime.constructor | CppCon2015/osp/Foundation/src/DateTime.cpp:56-76 | the stored UTC time is the instant of the given fields |
| Calendar.DateTime.DayOfYear | CppCon2015/osp/Foundation/src/DateTime.cpp:193-200 | the distance from 1 January in day numbers, plus one |
| Calendar.DateTime.DayOfWeek | CppCon2015/osp/Foundation/src/DateTime.cpp:187-190 | at any time of day the weekday of the day the UTC time falls in; before the Julian day -1.5 a week less unless it is a Sunday |
| Calendar.FloorIsDay | CppCon2015/osp/Foundation/src/DateTime.cpp:187-190 | the floor of the Julian day is the day number, whatever the time of day |
| Calendar.DateTime.Week | CppCon2015/osp/Foundation/src/DateTime.cpp:230-244 | the search ends, and weeks count from the one with 4 January; days before it are week 0 |
| Calendar.WeekdayOfJanuary | CppCon2015/osp/Foundation/src/DateTime.cpp:236 | the weekday of a day in January, as the search asks for it |
| Calendar.WeekdaysGoRound | CppCon2015/osp/Foundation/src/DateTime.cpp:187-190 | the weekday advances by one with the date, and 1 January 2000 is a Saturday |
| Calendar.FirstWeekStart | CppCon2015/osp/Foundation/src/DateTime.cpp:230-244 | the first weekday found by the search starts the week with 4 January or the one after it |
| DirectoryTraversal.ChildrenFirstIterator.Next | CppCon2015/osp/Foundation/src/DirectoryIteratorStrategy.cpp:60-105 | each call delivers the next path of the preorder still to come, or the end |
| DirectoryTraversal.ChildrenFirstIterator.NextUpward | CppCon2015/osp/Foundation/src/DirectoryIteratorStrategy.cpp:84-104 | the climb stops at the nearest level with a right sibling |
| DirectoryTraversal.ChildrenFirstIterator.constructor | CppCon2015/osp/Foundation/include/Poco/RecursiveDirectoryIteratorImpl.h:45-50 | what a new iterator will deliver; an empty root delivers itself |
| DirectoryTraversal.ChildrenFirstIterator.Collect | CppCon2015/osp/Foundation/src/DirectoryIteratorStrategy.cpp:60-105 | repeated calls end and deliver everything pending |
| DirectoryTraversal.SiblingsFirstIterator.Next | CppCon2015/osp/Foundation/src/DirectoryIteratorStrategy.cpp:118-167 | each call delivers the next path of the sibling-first order, with both stacks of one height |
| DirectoryTraversal.SiblingsFirstIterator.StepRight | CppCon2015/osp/Foundation/src/DirectoryIteratorStrategy.cpp:124-132 | queueing the current directory and stepping right changes nothing of what is to come |
| DirectoryTraversal.SiblingsFirstIterator.NextDownward | CppCon2015/osp/Foundation/src/DirectoryIteratorStrategy.cpp:136-166 | the loop at the end of a level enters the first queued directory or goes back |
| DirectoryTraversal.SiblingsFirstIterator.constructor | CppCon2015/osp/Foundation/include/Poco/RecursiveDirectoryIteratorImpl.h:45-50 | what a new iterator will deliver; an empty root delivers itself |
| DirectoryTraversal.SiblingsFirstIterator.Collect | CppCon2015/osp/Foundation/src/DirectoryIteratorStrategy.cpp:118-167 | repeated calls end and deliver everything pending |
| DirectoryTraversal.WalkChildrenFirst | CppCon2015/osp/Foundation/src/DirectoryIteratorStrategy.cpp:60-105 | the whole traversal is the preorder down to the depth limit if and only if the root is not empty |
| DirectoryTraversal.WalkSiblingsFirst | CppCon2015/osp/Foundation/src/DirectoryIteratorStrategy.cpp:118-167 | the whole traversal is the sibling-first order if and only if the root is not empty |
| DirectoryTraversal.OrdersArePermutations | CppCon2015/osp/Foundation/src/DirectoryIteratorStrategy.cpp:60-167 | both orders visit exactly the entries down to the limit, as often as they occur |
| DirectoryTraversal.NoEntryTwice | CppCon2015/osp/Foundation/src/DirectoryIteratorStrategy.cpp:60-167 | with distinct paths no traversal visits an entry twice |
| DirectoryTraversal.LimitOnlyOmits | CppCon2015/osp/Foundation/src/DirectoryIteratorStrategy.cpp:32-35 | a depth limit only leaves entries out |
| DirectoryTraversal.SettledDelivers | CppCon2015/osp/Foundation/src/DirectoryIteratorStrategy.cpp:84-104 | after the climb the top of the stack is the next entry of the preorder |
| DirectoryTraversal.SettledQueuesDeliver | CppCon2015/osp/Foundation/src/DirectoryIteratorStrategy.cpp:136-166 | after the loop over the queues the top of the stack is the next entry of the sibling-first order |
| DirectoryOrders.ChildrenFirstOrder | CppCon2015/osp/Foundation/src/DirectoryIteratorStrategy.cpp:60-105 | the preorder names every entry the depth limit admits exactly once, each directory right before what is in it and all of that before its next sibling |
| DirectoryOrders.SiblingsFirstOrder | CppCon2015/osp/Foundation/src/DirectoryIteratorStrategy.cpp:118-167 | the sibling-first order names every entry the depth limit admits exactly once, a whole directory before anything below it, the subdirectories in their order |
| DirectoryOrders.DescentsOrder | CppCon2015/osp/Foundation/src/DirectoryIteratorStrategy.cpp:136-166 | the part of it behind the entries of the directory itself |
| Digest.Engine.Update | CppCon2015/osp/Foundation/src/MD5Engine.cpp:60-90 | the state is the fold over the full blocks of everything fed in, the buffer holds the tail and the counter the bits modulo 2^64 |
| Digest.Engine.GetDigest | CppCon2015/osp/Foundation/src/MD5Engine.cpp:110-142 | the digest of the padded message (RFC 1321, sections 3.1 to 3.3), 16 bytes; the engine is reset |
| Digest.Engine.Reset | CppCon2015/osp/Foundation/src/MD5Engine.cpp:99-107 | the initial state |
| Digest.Engine.constructor | CppCon2015/osp/Foundation/src/MD5Engine.cpp:47-51 | the initial state |
| Digest.Engine.AddLength | CppCon2015/osp/Foundation/src/MD5Engine.cpp:69-71 | the two counter words hold the bit count modulo 2^64 |
| Digest.Engine.TransformBlocks | CppCon2015/osp/Foundation/src/MD5Engine.cpp:80-81 | the block loop folds whole blocks and leaves less than one |
| Digest.Engine.CompleteBuffer | CppCon2015/osp/Foundation/src/MD5Engine.cpp:76-79 | filling the buffer folds one more block |
| Digest.Engine.BufferRemaining | CppCon2015/osp/Foundation/src/MD5Engine.cpp:86-89 | the rest becomes the tail |
| Digest.Engine.Encode | CppCon2015/osp/Foundation/src/MD5Engine.cpp:287-298 | words are written low byte first |
| Digest.DigestOfChunks | CppCon2015/osp/Foundation/src/MD4Engine.cpp:60-142 | any splitting of a message, in chunks that each stay below 2^32 bytes with what is buffered before, gives the digest of the message; MD4 has the same buffering around its own compression |
| Digest.CounterIsExact | CppCon2015/osp/Foundation/src/MD5Engine.cpp:69-71 | for inputs below 2^61 bytes the counter is right if and only if the input is shorter than 2^32 bytes |
| Digest.CounterAdds | CppCon2015/osp/Foundation/src/MD5Engine.cpp:69-71 | it always counts the length modulo 2^32 |
| Digest.LoopEndsExactly | CppCon2015/osp/Foundation/src/MD5Engine.cpp:73-81 | the block loop with its 32-bit index reaches a false guard if and only if the buffered bytes and the input together are shorter than 2^32 |
| Digest.GuardAtBoundary | CppCon2015/osp/Foundation/src/MD5Engine.cpp:80 | at every block boundary the guard decides rightly if they are, and is true if they are not |
| Digest.PassesKeepBoundary | CppCon2015/osp/Foundation/src/MD5Engine.cpp:80 | however often the index wraps, it stays at a block boundary of the message |
| Digest.LengthIsCount | CppCon2015/osp/Foundation/src/MD5Engine.cpp:121-130 | the counter words are the length field of the padding |
| Digest.FoldConcat | CppCon2015/osp/Foundation/src/MD5Engine.cpp:60-90 | folding a concatenation at a block boundary |
| Digest.FoldDropsTail | CppCon2015/osp/Foundation/src/MD5Engine.cpp:60-90 | an unfinished block does not show in the state |
| Digest.WordRoundTrip | CppCon2015/osp/Foundation/src/MD5Engine.cpp:287-310 | decode undoes encode on a word |
| Digest.WordBytes | CppCon2015/osp/Foundation/src/MD5Engine.cpp:287-297 | a word is written lowest byte first |
| Digest.InitialBytes | CppCon2015/osp/Foundation/src/MD5Engine.cpp:99-107 | the initial state as the sixteen bytes of section 3.3 of RFC 1321 |
| Digest.LengthField | CppCon2015/osp/Foundation/src/MD5Engine.cpp:121-122 | the length field is the number of bits in eight bytes, lowest first, cut to 64 bits |
| Digest.PaddedShape | CppCon2015/osp/Foundation/src/MD5Engine.cpp:110-130 | the padded message is the message, 0x80, as few zeros as bring it to 8 bytes short of whole blocks, and the length |
| Digest.ShortDigest | CppCon2015/osp/Foundation/src/MD5Engine.cpp:110-142 | the digest of a message of up to 55 bytes is the compression of its one padded block |
| Digest.BlockFold | CppCon2015/osp/Foundation/src/MD5Engine.cpp:73-81 | each further block is compressed into the state of those before it |
| CryptoStream.RsaTransform.Transform | CppCon2015/osp/Crypto/src/RSACipherImpl.cpp:132-173 | however the input is split, what is put out is a prefix of the encryption of its consecutive pieces, within the room, and the asserted room for a whole block is there before each encryption |
| CryptoStream.RsaTransform.Finalize | CppCon2015/osp/Crypto/src/RSACipherImpl.cpp:176-187 | the last piece, if there is any input |
| CryptoStream.RsaTransform.Pass | CppCon2015/osp/Crypto/src/RSACipherImpl.cpp:144-171 | one round of the loop |
| CryptoStream.RsaTransform.Append | CppCon2015/osp/Crypto/src/RSACipherImpl.cpp:160-168 | bytes are added to the buffer |
| CryptoStream.RsaTransform.constructor | CppCon2015/osp/Crypto/src/RSACipherImpl.cpp:91-98 | an empty buffer |
| CryptoStream.ChunkedRoundTrip | CppCon2015/osp/Crypto/src/RSACipherImpl.cpp:132-294 | decrypting block by block what was encrypted piece by piece gives the message back |
| CryptoStream.PiecesAreTransformed | CppCon2015/osp/Crypto/src/RSACipherImpl.cpp:132-201 | what comes out for a message in pieces, all but the last of full size, is the results of the pieces in their order |
| CryptoStream.PiecesAreLongest | CppCon2015/osp/Crypto/src/RSACipherImpl.cpp:113-129 | a full piece is the longest message that RFC 8017, sections 7.1.1 and 7.2.1, admits, except with OAEP, where it is one byte too long |
| CryptoStream.ReadBuffer.ReadFromDevice | CppCon2015/osp/Crypto/src/CryptoStream.cpp:105-151 | over any run of reads nothing is skipped or repeated, finalize runs once, and the buffer is never overrun |
| CryptoStream.ReadBuffer.ReadStep | CppCon2015/osp/Crypto/src/CryptoStream.cpp:112-148 | the room always covers the cipher precondition and what the RSA transform puts out; every step makes progress |
| CryptoStream.ReadBuffer.Read | CppCon2015/osp/Crypto/src/CryptoStream.cpp:126-130 | the underlying stream read |
| CryptoStream.ReadBuffer.ReadAll | CppCon2015/osp/Crypto/src/CryptoStream.cpp:105-151 | reading to the end delivers everything if and only if the buffer has six bytes more than two blocks, or there is nothing to deliver |
| CryptoStream.ReadBuffer.constructor | CppCon2015/osp/Crypto/src/CryptoStream.cpp:37-47 | a stream at its start |
| CryptoStream.WriteBuffer.WriteToDevice | CppCon2015/osp/Crypto/src/CryptoStream.cpp:154-192 | all bytes are taken, and the output of each half buffer fits the buffer, for every buffer in which it always does |
| CryptoStream.WriteBuffer.Close | CppCon2015/osp/Crypto/src/CryptoStream.cpp:76-102 | the sink holds the whole encryption; closing again changes nothing |
| CryptoStream.WriteBuffer.constructor | CppCon2015/osp/Crypto/src/CryptoStream.cpp:50-60 | an empty sink |
| CryptoStream.NewOutputBound | CppCon2015/osp/Crypto/src/CryptoStream.cpp:114-140 | what one read can put out, whatever the buffer holds |
| CryptoStream.ReadsFitExactly | CppCon2015/osp/Crypto/src/CryptoStream.cpp:112-140 | every legal read of every input fits its room if and only if a block is at most twice as long as a piece |
| CryptoStream.ReadOverflows | CppCon2015/osp/Crypto/src/CryptoStream.cpp:112-140 | for any key with longer blocks, a read that needs more room than it has |
| CryptoStream.ShortKeyOverflows | CppCon2015/osp/Crypto/src/CryptoStream.cpp:112-140 | the keys of 512 bits with OAEP are of that kind: 436 bytes into a room of 1000 need 1216 |
| CryptoStream.WritesFitExactly | CppCon2015/osp/Crypto/src/CryptoStream.cpp:159-176 | every chunk of half a buffer fits the buffer from every state if and only if one block for each piece begun in half a buffer does |
| CryptoStream.SmallBufferOverflows | CppCon2015/osp/Crypto/src/CryptoStream.cpp:50-60 | a buffer of 350 bytes, which the constructor accepts for a key of 1024 bits with OAEP, is too small: 175 bytes need 384 |
| CryptoStream.OutputAtFullBuffer | CppCon2015/osp/Crypto/src/RSACipherImpl.cpp:143-172 | whatever is held, a chunk puts out no more than behind a full piece |
| CryptoStream.DecryptionFits | CppCon2015/osp/Crypto/src/CryptoStream.cpp:159-176 | a decrypting stream always fits |
| CryptoStream.FlushFits | CppCon2015/osp/Crypto/src/RSACipherImpl.cpp:149-158 | a flush stays within what the call puts out |
| CryptoStream.EncryptAndDecrypt | CppCon2015/osp/Crypto/src/CryptoStream.cpp:105-192 | data pushed through an encrypting stream in any pieces comes out as the encryption of its full pieces in order, and pulled through a decrypting one comes back, for every key and buffer in which half buffers always fit |
| SessionPool.Pool.Get | CppCon2015/osp/Data/src/SessionPool.cpp:66-93 | exhausted exactly when nothing is available; otherwise a connected idle session, or a new one if none is left, becomes active |
| SessionPool.Pool.PurgeDeadSessions | CppCon2015/osp/Data/src/SessionPool.cpp:96-111 | exactly the dead idle sessions go, in place, and the count with them |
| SessionPool.Pool.EraseDead | CppCon2015/osp/Data/src/SessionPool.cpp:101-110 | the erasing loop keeps the connected ones in order |
| SessionPool.Pool.ProvideIdle | CppCon2015/osp/Data/src/SessionPool.cpp:71-85 | the first half of get |
| SessionPool.Pool.HandOut | CppCon2015/osp/Data/src/SessionPool.cpp:87-92 | the second half of get |
| SessionPool.Pool.MoveFrontToActive | CppCon2015/osp/Data/src/SessionPool.cpp:90-91 | the front of the idle list becomes the front of the active list |
| SessionPool.Pool.PutBack | CppCon2015/osp/Data/src/SessionPool.cpp:224-257 | the holder is active, so the unknown-session bugcheck is not reached; a dead session is dropped from the count |
| SessionPool.Pool.PutBackActive | CppCon2015/osp/Data/src/SessionPool.cpp:229-252 | the branch of an open pool |
| SessionPool.Pool.FindActive | CppCon2015/osp/Data/src/SessionPool.cpp:229-230 | the search |
| SessionPool.Pool.ReturnHolder | CppCon2015/osp/Data/src/SessionPool.cpp:232-251 | the list part |
| SessionPool.Pool.OnJanitorTimer | CppCon2015/osp/Data/src/SessionPool.cpp:260-277 | the first expired or dead idle sessions are closed and go, as many as the count exceeds the minimum, never below it; the connected ones that have not expired stay; if the count still exceeds the minimum, none left is dead or expired |
| SessionPool.Pool.JanitorPass | CppCon2015/osp/Data/src/SessionPool.cpp:265-276 | the loop |
| SessionPool.Pool.JanitorStep | CppCon2015/osp/Data/src/SessionPool.cpp:268-275 | one idle session |
| SessionPool.Pool.DropIdle | CppCon2015/osp/Data/src/SessionPool.cpp:270-273 | a session is closed and forgotten |
| SessionPool.Pool.Shutdown | CppCon2015/osp/Data/src/SessionPool.cpp:280-288 | all sessions closed, both lists empty, count zero |
| SessionPool.Pool.CloseAll | CppCon2015/osp/Data/src/SessionPool.cpp:291-301 | one list |
| SessionPool.Pool.constructor | CppCon2015/osp/Data/src/SessionPool.cpp:27-39 | an empty pool |
| SessionPool.PooledSession.Close | CppCon2015/osp/Data/src/PooledSessionImpl.cpp:131-150 | the holder goes back once; a failed rollback gives the session up |
| SessionPool.Holder.Settle | CppCon2015/osp/Data/src/PooledSessionImpl.cpp:135-146 | rollback or closing |
| SessionPool.AnyRun | CppCon2015/osp/Data/src/SessionPool.cpp:66-301 | in every state that any run of clients, failing connections, janitor and shutdown reaches, the pool is valid; its idle sessions are all connected if none has lost its connection while idle since the last get |
| SessionPool.RunOn | CppCon2015/osp/Data/src/SessionPool.cpp:66-301 | the same from any valid state |
| SessionPool.Step | CppCon2015/osp/Data/src/SessionPool.cpp:66-301 | every single event keeps the pool valid; a get leaves only connected idle sessions, no other event but a lost connection of an idle one adds a dead one, and that one does |
| SessionPool.DeadWhileIdle | CppCon2015/osp/Data/include/Poco/Data/SessionPool.h:55-62 | a session fetched, returned and lost while idle stays in the pool, and a janitor pass removes it if and only if the minimum is not positive |
| SessionPool.OpenClientsAreActive | CppCon2015/osp/Data/src/SessionPool.cpp:224-257 | in a valid open pool the count is idle plus active within the limit, and open client sessions and active holders correspond one to one |
| SessionPool.DropFirstCount | CppCon2015/osp/Data/src/SessionPool.cpp:265-276 | what the janitor may and may not drop |
| SessionPool.FilterKeeps | CppCon2015/osp/Data/src/SessionPool.cpp:96-111 | purging keeps the pool sound |
| SessionPool.SoundAfter | CppCon2015/osp/Data/src/SessionPool.cpp:66-257 | moving holders between the lists or dropping some keeps the count right and no holder twice |
| LogArchive.ArchiveStrategy.Archive | CppCon2015/osp/Foundation/src/ArchiveStrategy.cpp:159-188 | with any compressions pending and whatever the compressor does meanwhile, once it is done archive k is archive k+1 below the first free number, the log is archive 0, and all else is untouched |
| LogArchive.ArchiveStrategy.MoveUp | CppCon2015/osp/Foundation/src/ArchiveStrategy.cpp:173-186 | one move of the second loop |
| LogArchive.ArchiveStrategy.FirstFree | CppCon2015/osp/Foundation/src/ArchiveStrategy.cpp:163-171 | the search ends at the smallest number without an archive |
| LogArchive.FirstFreeExactly | CppCon2015/osp/Foundation/src/ArchiveStrategy.cpp:163-171 | the smallest number without a plain archive and, with compression on, without a compressed one |
| LogArchive.ArchiveStrategy.MoveFile | CppCon2015/osp/Foundation/src/ArchiveStrategy.cpp:100-123 | which file moves where, and what is queued for compression |
| LogArchive.ArchiveStrategy.RenameTo | CppCon2015/osp/Foundation/src/ArchiveStrategy.cpp:114-119 | a rename never meets an existing target |
| LogArchive.ArchiveStrategy.CompressNext | CppCon2015/osp/Foundation/src/ArchiveStrategy.cpp:53-72 | a compression step, also of a file that has been moved on, does not change what will have settled |
| LogArchive.ArchiveStrategy.LetCompressorRun | CppCon2015/osp/Foundation/src/ArchiveStrategy.cpp:53-72 | nor does any number of them, at any time |
| LogArchive.ArchiveStrategy.Drain | CppCon2015/osp/Foundation/src/ArchiveStrategy.cpp:53-72 | the compressor comes to rest with everything settled |
| LogArchive.ArchiveStrategy.constructor | CppCon2015/osp/Foundation/src/ArchiveStrategy.cpp:81-97 | nothing queued |
| LogArchive.RotationMovesArchives | CppCon2015/osp/Foundation/src/ArchiveStrategy.cpp:159-188 | no text is lost; one form per archive is kept if and only if compression is on or no path.n.gz was left over |
| LogArchive.MoveReady | CppCon2015/osp/Foundation/src/ArchiveStrategy.cpp:173-186 | each rename finds its source, compressed already or not, and a free target |
| LogArchive.MoveKeeps | CppCon2015/osp/Foundation/src/ArchiveStrategy.cpp:173-186 | one rename carries the hole down by one |
| LogArchive.RestIsSound | CppCon2015/osp/Foundation/src/ArchiveStrategy.cpp:126-141 | pending compressions change nothing about which archives exist |
| LogArchive.ExistingAreFinite | CppCon2015/osp/Foundation/src/ArchiveStrategy.cpp:163-171 | archives are files, so the search ends |
| LogArchive.RotateOne | CppCon2015/osp/Foundation/src/ArchiveStrategy.cpp:159-188 | one log written and rotated, the compressor lagging behind as it likes |
| LogArchive.RotateAll | CppCon2015/osp/Foundation/src/ArchiveStrategy.cpp:159-188 | after any number of rotations without waiting for the compressor, once it is done archive k holds the k-th last log |
| LoggerHierarchy.Registry.Get | CppCon2015/osp/Foundation/src/Logger.cpp:285-310 | a new logger takes the level and channel of its nearest existing dotted ancestor, the root if there is none; no existing logger changes |
| LoggerHierarchy.Registry.Parent | CppCon2015/osp/Foundation/src/Logger.cpp:399-412 | the nearest ancestor, creating the root at most |
| LoggerHierarchy.Registry.SetLevel | CppCon2015/osp/Foundation/src/Logger.cpp:115-131 | exactly the loggers that pass the name test get the level |
| LoggerHierarchy.Registry.SetChannel | CppCon2015/osp/Foundation/src/Logger.cpp:134-150 | exactly those get the channel |
| LoggerHierarchy.Registry.SetLevelThenGet | CppCon2015/osp/Foundation/src/Logger.cpp:115-131 | after setLevel on an existing logger and any run of get, every logger at or below it, old or new, has the level |
| LoggerHierarchy.Registry.constructor | CppCon2015/osp/Foundation/src/Logger.cpp:477-482 | no loggers |
| LoggerHierarchy.SetLevelLasts | CppCon2015/osp/Foundation/src/Logger.cpp:115-131 | the level reaches later loggers if and only if the named logger exists or would inherit that level anyway |
| LoggerHierarchy.GetKeepsInheritance | CppCon2015/osp/Foundation/src/Logger.cpp:293-310 | get changes no other logger, and what any name would inherit stays the same |
| LoggerHierarchy.RunKeepsInheritance | CppCon2015/osp/Foundation/src/Logger.cpp:293-310 | after any run of get every logger has what its name inherited before it, in any order of calls |
| LoggerHierarchy.LeveledInheritance | CppCon2015/osp/Foundation/src/Logger.cpp:115-131 | what setLevel does to inheritance inside and outside the subtree |
| LoggerHierarchy.ChanneledInheritance | CppCon2015/osp/Foundation/src/Logger.cpp:134-150 | the same for setChannel |
| LoggerHierarchy.SettingsReached | CppCon2015/osp/Foundation/src/Logger.cpp:115-150 | setLevel and setChannel change the level or the channel, and nothing else, of exactly the loggers whose way to the root passes the name |
| LoggerHierarchy.NothingInherited | CppCon2015/osp/Foundation/src/Logger.cpp:293-311 | with no loggers yet, any name gets no channel and the level of information |
| LoggerHierarchy.BelowIsOnWayUp | CppCon2015/osp/Foundation/src/Logger.cpp:121-127 | the string test of setLevel is the ancestor relation of parent |
| CppTokens.Tokenizer.Next | CppCon2015/osp/Foundation/src/StreamTokenizer.cpp:72-104 | the next token of the text and the place behind it; white space is skipped; every token but the end takes at least one character; which token that is, is FirstDecides and the laws behind it |
| CppTokens.Tokenizer.Read | CppCon2015/osp/Foundation/src/StreamTokenizer.cpp:79-98 | the first kind of token that can start takes it; the operators are those of LongestOperator |
| CppTokens.Tokenizer.TakeWhile | CppCon2015/osp/CppParser/src/CppToken.cpp:344-355 | a run of characters of one class, as long as it goes |
| CppTokens.Tokenizer.FinishLiteral | CppCon2015/osp/CppParser/src/CppToken.cpp:391-406 | quoted literals with escapes, or the exception |
| CppTokens.Tokenizer.FinishNumber | CppCon2015/osp/CppParser/src/CppToken.cpp:512-602 | integer or float and where it ends, or the exception |
| CppTokens.Tokenizer.FinishFraction | CppCon2015/osp/CppParser/src/CppToken.cpp:560-601 | its part after the period |
| CppTokens.Tokenizer.FinishExponent | CppCon2015/osp/CppParser/src/CppToken.cpp:565-593 | its exponent |
| CppTokens.Tokenizer.FinishComment | CppCon2015/osp/CppParser/src/CppToken.cpp:642-668 | line and block comments |
| CppTokens.Tokenizer.FinishDirective | CppCon2015/osp/CppParser/src/CppToken.cpp:703-736 | continued preprocessor lines |
| CppTokens.TextOf | CppCon2015/osp/CppParser/src/CppToken.cpp:409-424 | the unescaped text of a string literal |
| CppTokenLaws.LongestOperator | CppCon2015/osp/CppParser/src/CppToken.cpp:52-255 | the operator taken is in the table, and no longer beginning of the text is; it fails only at two periods without a third |
| CppTokenLaws.OperatorStarts | CppCon2015/osp/CppParser/src/CppToken.cpp:116-152 | an operator starts where the text begins with one from the table, unless a number or a comment does |
| CppTokenLaws.TwoPeriods | CppCon2015/osp/CppParser/src/CppToken.cpp:155-225 | two periods without a third are an error, of which one alone would be an operator |
| CppTokenLaws.FirstDecides | CppCon2015/osp/Foundation/src/StreamTokenizer.cpp:79-98 | the first character decides the kind of token, with the second for a period or a slash |
| CppTokenLaws.TextAndRest | CppCon2015/osp/Foundation/src/StreamTokenizer.cpp:72-104 | a token and what is left behind it are the input without the white space in front: nothing is lost |
| CppTokenLaws.NumeralIsRead | CppCon2015/osp/CppParser/src/CppToken.cpp:512-602 | every numeral, decimal, octal, hexadecimal or real with its exponent and suffix, is read to its end and as what it is |
| CppTokenLaws.ExponentNeedsDigits | CppCon2015/osp/CppParser/src/CppToken.cpp:565-593 | an exponent without digits is an error |
| CppTokenLaws.LiteralRoundTrip | CppCon2015/osp/CppParser/src/CppToken.cpp:391-424 | any text, quoted with a backslash before each quote, backslash and line end, is one literal with that text as its value |
| CppTokenLaws.BlockEndsFirst | CppCon2015/osp/CppParser/src/CppToken.cpp:642-668 | a block comment ends behind the first asterisk and slash, or with the text |
| CppTokenLaws.LineEndsFirst | CppCon2015/osp/CppParser/src/CppToken.cpp:642-668 | a line comment ends before the first line end, or with the text |
| CppTokenLaws.DirectiveIsTaken | CppCon2015/osp/CppParser/src/CppToken.cpp:703-736 | a preprocessor line continues behind a backslash at a line end, and on no other condition |
| Ascii.ClassesPartition | CppCon2015/osp/Foundation/src/Ascii.cpp:23-150 | the character classes, spelled out; every printed character but the space is in exactly one |
| AttributesParser.Parser.Parse | CppCon2015/osp/CppParser/src/AttributesParser.cpp:42-51 | succeeds if and only if the text is a written attribute list; then the attributes are its flattened form, with an empty entry for every attribute that has a list; what nesting means is NestingIsDotting |
| AttributesParser.Parser.ParseAttributes | CppCon2015/osp/CppParser/src/AttributesParser.cpp:54-63 | attributes in a row with or without commas; the identifier prefix is as before on success |
| AttributesParser.Parser.ParseOther | CppCon2015/osp/CppParser/src/AttributesParser.cpp:57-61 | one more of them |
| AttributesParser.Parser.ParseAttribute | CppCon2015/osp/CppParser/src/AttributesParser.cpp:66-87 | one attribute at any depth |
| AttributesParser.Parser.ParseBody | CppCon2015/osp/CppParser/src/AttributesParser.cpp:71-84 | its value or list |
| AttributesParser.Parser.ParseComplexAttribute | CppCon2015/osp/CppParser/src/AttributesParser.cpp:90-110 | a list in braces, the prefix extended behind by the name inside and restored afterwards, as PrefixedIsNested says |
| AttributesParser.Parser.ParseIdentifier | CppCon2015/osp/CppParser/src/AttributesParser.cpp:113-133 | a dotted name |
| AttributesParser.Parser.SetAttribute | CppCon2015/osp/CppParser/src/AttributesParser.cpp:136-146 | the value under the prefix, a period and the name |
| AttributesParser.Parser.Next | CppCon2015/osp/CppParser/src/AttributesParser.cpp:44-44 | the next token, failing where the tokenizer throws |
| AttributesParser.Parser.constructor | CppCon2015/osp/CppParser/src/AttributesParser.cpp:30-34 | a parser at the start of its input |
| AttributesParser.AcceptsExactly | CppCon2015/osp/CppParser/src/AttributesParser.cpp:42-51 | the grammar function accepts a token sequence as a list exactly when it is written that way; so no sequence is written two ways |
| AttributesParser.AttributeIsWritten | CppCon2015/osp/CppParser/src/AttributesParser.cpp:66-110 | what is parsed is what was written |
| AttributesParser.ListIsWritten | CppCon2015/osp/CppParser/src/AttributesParser.cpp:54-63 | the same for lists |
| AttributesParser.WrittenAttribute | CppCon2015/osp/CppParser/src/AttributesParser.cpp:66-110 | what was written is parsed, to any depth of nesting |
| AttributesParser.WrittenList | CppCon2015/osp/CppParser/src/AttributesParser.cpp:54-63 | the same for lists |
| AttributesParser.OutcomeBounds | CppCon2015/osp/CppParser/src/AttributesParser.cpp:54-87 | every successful parse of a name, attribute or list consumes at least one token |
| AttributesParser.NestingIsDotting | CppCon2015/osp/CppParser/src/AttributesParser.cpp:90-146 | p={l} declares every attribute of l with the path p in front of its name, and then p itself |
| AttributesParser.PrefixedIsNested | CppCon2015/osp/CppParser/src/AttributesParser.cpp:136-146 | a list under a prefix declares what the list with that path in front of each name declares |
| AttributesParser.NameOfConcat | CppCon2015/osp/CppParser/src/AttributesParser.cpp:136-146 | the name of a longer path is the two names with a period between them |
| AttributeTexts.TextIsParsed | CppCon2015/osp/CppParser/src/AttributesParser.cpp:42-133 | declarations written with dots, equals signs, braces and commas are read back, and nothing is left over |
| AttributeTexts.BracesAreDots | CppCon2015/osp/CppParser/src/AttributesParser.cpp:90-146 | the text p={l} sets what l with p in front of each name would set, and p |
| AttributeTexts.PlainMeaning | CppCon2015/osp/CppParser/src/AttributesParser.cpp:66-87 | a name alone sets the empty value, a name with a value its text, a literal without its quotes |
| AttributesPrinter.WriteAttributes | CppCon2015/osp/CodeGeneration/src/Utility.cpp:166-198 | the printed lines |
| AttributesPrinter.WriteAttribute | CppCon2015/osp/CodeGeneration/src/Utility.cpp:174-196 | one line |
| AttributesPrinter.Quotes | CppCon2015/osp/CodeGeneration/src/Utility.cpp:180-192 | quotes are put exactly where a character needs them and the value does not start with a brace |
| AttributesPrinter.ShownExactly | CppCon2015/osp/CodeGeneration/src/Utility.cpp:180-194 | a value is quoted unless it begins with a brace or has letters, digits and underscores only |
| AttributesPrinter.LineOf | CppCon2015/osp/CodeGeneration/src/Utility.cpp:176-196 | the line of an entry: tabs, the comment mark, the name, and the value, if any, behind an equals sign |
| AttributesPrinter.LinesConcat | CppCon2015/osp/CodeGeneration/src/Utility.cpp:174-197 | one line for each entry, in their order |
| AttributesPrinter.ReadableExactly | CppCon2015/osp/CodeGeneration/src/Utility.cpp:174-196 | a printed value is read as one value token with that text if and only if it is readable: a word, an integer literal, or quoted text without quote, backslash or line end |
| AttributesPrinter.TextDeclaresMap | CppCon2015/osp/CodeGeneration/src/Utility.cpp:166-198 | the collected text declares exactly the map |
| AttributesPrinter.TextTokens | CppCon2015/osp/CodeGeneration/src/Utility.cpp:166-198 | it is tokenized as the list of the attributes |
| AttributesPrinter.LinesAreCollected | CppCon2015/osp/CppParser/src/Parser.cpp:934-958 | the comments are collected whole, whatever code follows |
| AttributesPrinter.PlainCommentsAreSkipped | CppCon2015/osp/CppParser/src/Parser.cpp:934-958 | a line comment without the mark adds nothing |
| AttributesPrinter.Collect | CppCon2015/osp/CppParser/src/Parser.cpp:934-958 | the comment loop |
| AttributesPrinter.LexShown | CppCon2015/osp/CppParser/src/CppToken.cpp:335-602 | a readable value is one token |
| AttributesPrinter.NameTokens | CppCon2015/osp/CppParser/src/CppToken.cpp:335-355 | a dotted name is read as its parts |
| AttributesSurvival.PrintAndRead | CppCon2015/osp/CodeGeneration/src/Utility.cpp:166-198 | print any attribute map in front of any code, tokenize the source, collect the comments, parse them: the same map comes back if and only if all names are dotted and all values readable |
| AttributesSurvival.OnlyPrintableSurvive | CppCon2015/osp/CodeGeneration/src/Utility.cpp:166-198 | no other map comes back, whatever its values inject |
| AttributesSurvival.PrintableComesBack | CppCon2015/osp/CodeGeneration/src/Utility.cpp:166-198 | every such map does |
| AttributesSurvival.DeclaredIsReadable | CppCon2015/osp/CodeGeneration/src/Utility.cpp:166-198 | a map whose own printed text declares it has readable values only |
| AttributesSurvival.DeclaredWeight | CppCon2015/osp/CppParser/src/AttributesParser.cpp:42-146 | the quotes and backslashes that the values of a declared map need are in the text that declares it |
| AttributesSurvival.TextSupplies | CppCon2015/osp/CodeGeneration/src/Utility.cpp:166-198 | the printed text has no more of them than the values bring along and printing adds |
| AttributesSurvival.TokensWeight | CppCon2015/osp/CppParser/src/CppToken.cpp:335-602 | the tokens of an accepted text need no more of them than it has |
| AttributesSurvival.SetWeight | CppCon2015/osp/CppParser/src/AttributesParser.cpp:42-146 | names set twice only waste them |
| AttributesSurvival.NeedsAreSupplied | CppCon2015/osp/CodeGeneration/src/Utility.cpp:174-196 | a value needs at least what it is printed with, and is readable if it needs no more |
| AttributesSurvival.LiteralWeight | CppCon2015/osp/CppParser/src/CppToken.cpp:391-430 | a string literal has two quotes and an escape for every special character of its value |
| AttributesSurvival.FineList | CppCon2015/osp/CppParser/src/AttributesParser.cpp:42-146 | only dotted names and values without line ends can be declared |
| AttributesSurvival.CollectedInLine | CppCon2015/osp/CppParser/src/Parser.cpp:934-958 | what is collected has no line ends, whatever the source text |
| AttributesSurvival.ReadText | CppCon2015/osp/CppParser/src/Parser.cpp:862-870 | parsing the collected text |
| DateTimeText.Append | CppCon2015/osp/Foundation/src/DateTimeFormatter.cpp:32-78 | the loop over the format prints what each directive stands for; what that looks like is stated column by column and name by name in PrintedWeekdays to AscTimeText |
| DateTimeText.WeekdayNamesFollow | CppCon2015/osp/Foundation/src/DateTimeFormatter.cpp:44-45 | weekday names follow each other with the dates, and 1 January 2000 was a Saturday |
| DateTimeShapes.PrintedWeekdays | CppCon2015/osp/Foundation/src/DateTimeFormatter.cpp:44-45 | %W prints the English name of the weekday, %w its first three letters |
| DateTimeShapes.PrintedMonths | CppCon2015/osp/Foundation/src/DateTimeFormatter.cpp:46-47 | %B prints the English name of the month, %b its first three letters |
| DateTimeShapes.PrintedDates | CppCon2015/osp/Foundation/src/DateTimeFormatter.cpp:48-55 | day, month and year in fixed columns of digits, with or without leading zero or space |
| DateTimeShapes.PrintedTimes | CppCon2015/osp/Foundation/src/DateTimeFormatter.cpp:56-68 | the time of day in fixed columns, on the 24- or the 12-hour clock, and its fractions |
| DateTimeShapes.PrintedZones | CppCon2015/osp/Foundation/src/DateTimeFormatter.cpp:113-154 | the marker of UTC, or a sign, two columns of hours and two of minutes |
| DateTimeShapes.PrintedOthers | CppCon2015/osp/Foundation/src/DateTimeFormatter.cpp:71 | any other character stands for itself |
| DateTimeShapes.LiteralsAppear | CppCon2015/osp/Foundation/src/DateTimeFormatter.cpp:76 | characters of the format that belong to no directive appear unchanged |
| DateTimeShapes.LonePercent | CppCon2015/osp/Foundation/src/DateTimeFormatter.cpp:38-41 | a percent sign at the end prints and reads nothing |
| DateTimeShapes.ZeroPaddedColumns | CppCon2015/osp/Foundation/src/DateTimeFormatter.cpp:48-68 | a zero-padded number shows exactly its last digits |
| DateTimeShapes.IsoTexts | CppCon2015/osp/Foundation/src/DateTimeFormat.cpp:23-31 | the sortable and the ISO 8601 texts, character by character |
| DateTimeShapes.MailFormats | CppCon2015/osp/Foundation/src/DateTimeFormat.cpp:23-31 | the five mail formats: weekday, comma, day, month, year, time and zone with their separators |
| DateTimeShapes.AscTimeText | CppCon2015/osp/Foundation/src/DateTimeFormat.cpp:23-31 | the text of asctime |
| DateTimeParser.ParseText | CppCon2015/osp/Foundation/src/DateTimeParser.cpp:47-179 | the loop over format and text; a result is in range, field by field and for the length of its month, and fields that can be read but are not in range give none |
| DateTimeParser.Reader.ParseDirective | CppCon2015/osp/Foundation/src/DateTimeParser.cpp:73-166 | one directive |
| DateTimeParser.Reader.ParseDigits | CppCon2015/osp/Foundation/src/DateTimeParser.cpp:84-161 | the numeric ones |
| DateTimeParser.Reader.ParseNumber | CppCon2015/osp/Foundation/src/DateTimeParser.cpp:39-40 | at most n digits |
| DateTimeParser.Reader.ParseFraction | CppCon2015/osp/Foundation/src/DateTimeParser.cpp:43-44 | at most n digits, scaled to n |
| DateTimeParser.Reader.ParseYear | CppCon2015/osp/Foundation/src/DateTimeParser.cpp:96-118 | the three year directives |
| DateTimeParser.Reader.ParseSecond | CppCon2015/osp/Foundation/src/DateTimeParser.cpp:132-146 | seconds with an optional fraction |
| DateTimeParser.Reader.ParseSubSeconds | CppCon2015/osp/Foundation/src/DateTimeParser.cpp:156-161 | milli- and microseconds |
| DateTimeParser.Reader.ParseMonth | CppCon2015/osp/Foundation/src/DateTimeParser.cpp:326-344 | the month a name or its beginning stands for, or the exception |
| DateTimeParser.Reader.ParseAMPM | CppCon2015/osp/Foundation/src/DateTimeParser.cpp:368-393 | the half of the day applied to the hour |
| DateTimeParser.Reader.ParseTZD | CppCon2015/osp/Foundation/src/DateTimeParser.cpp:244-323 | designators and numeric offsets |
| DateTimeParser.Reader.Skip | CppCon2015/osp/Foundation/src/DateTimeParser.cpp:27-32 | characters of one class are skipped |
| DateTimeParser.Reader.Word | CppCon2015/osp/Foundation/src/DateTimeParser.cpp:331-336 | a run of letters |
| DateTimeParser.Reader.ParseAfterJunk | CppCon2015/osp/Foundation/src/DateTimeParser.cpp:88-89 | a number behind anything that is no digit |
| DateTimeText.RangeIsChecked | CppCon2015/osp/Foundation/src/DateTimeParser.cpp:172-178 | a text is accepted if and only if its fields can be read and, with 1 for a missing month or day, are a date of the years 0 to 9999 and a time of day |
| DateTimeText.MomentsAreInRange | CppCon2015/osp/Foundation/src/DateTime.cpp:216-227 | what can be printed is what can be accepted |
| DateTimeShapes.DateTexts | CppCon2015/osp/Foundation/src/DateTimeParser.cpp:172-178 | any year, month and day in columns under %Y-%m-%d are accepted if and only if they are a date |
| DateTimeReading.MonthWords | CppCon2015/osp/Foundation/src/DateTimeParser.cpp:326-344 | a word of letters names a month if and only if it is three or more letters of its name, from the first on and in any case |
| DateTimeReading.HalfDayWords | CppCon2015/osp/Foundation/src/DateTimeParser.cpp:368-393 | AM and PM in any case put the hours of the twelve-hour clock into their half of the day; any other word is refused |
| DateTimeReading.WeekdayWords | CppCon2015/osp/Foundation/src/DateTimeParser.cpp:75-79 | any word is skipped for the weekday |
| DateTimeReading.YearTexts | CppCon2015/osp/Foundation/src/DateTimeParser.cpp:96-118 | four, two or any number of digits, and the century of a year that lacks it |
| DateTimeReading.SecondTexts | CppCon2015/osp/Foundation/src/DateTimeParser.cpp:132-146 | a fraction behind a period or a comma belongs to the seconds, with %s only |
| DateTimeReading.ZoneWords | CppCon2015/osp/Foundation/src/DateTimeParser.cpp:290-309 | a designator stands for its differential, an unknown one for none |
| DateTimeReading.UniversalZones | CppCon2015/osp/Foundation/src/DateTimeParser.cpp:254-256 | the designators of UTC in RFC 822, section 5.1 |
| DateTimeReading.AmericanZones | CppCon2015/osp/Foundation/src/DateTimeParser.cpp:271-278 | the zones of RFC 822, section 5.1, daylight saving time an hour ahead |
| DateTimeReading.OuterAmericanZones | CppCon2015/osp/Foundation/src/DateTimeParser.cpp:267-281 | the other American ones |
| DateTimeReading.EuropeanZones | CppCon2015/osp/Foundation/src/DateTimeParser.cpp:257-266 | the European ones |
| DateTimeReading.AustralianZones | CppCon2015/osp/Foundation/src/DateTimeParser.cpp:282-287 | the Australian ones |
| DateTimeReading.LiteralsAreSkipped | CppCon2015/osp/Foundation/src/DateTimeParser.cpp:67-171 | characters of the format that belong to no directive ask nothing of the text |
| DateTimeReading.OtherCharacters | CppCon2015/osp/Foundation/src/DateTimeParser.cpp:73-166 | a character that is no directive reads nothing |
| DateTimeRoundTrip.FormatParsesBack | CppCon2015/osp/Foundation/src/DateTimeFormatter.cpp:32-78 | for every readable format, parsing the printed text succeeds and gives back every printed component, a two-digit year as one of 1969 to 2068, %c as whole hundreds of milliseconds, the zone to the minute |
| DateTimeRoundTrip.ParsesBack | CppCon2015/osp/Foundation/src/DateTimeParser.cpp:47-179 | the parsed date and time as a whole, defaults for what was not printed |
| DateTimeRoundTrip.ReadsAll | CppCon2015/osp/Foundation/src/DateTimeParser.cpp:67-171 | reading undoes printing from any position within the junk before a directive |
| DateTimeRoundTrip.ReadsDirective | CppCon2015/osp/Foundation/src/DateTimeParser.cpp:73-166 | one directive is read back from behind its junk and leaves the rest |
| DateTimeRoundTrip.StandardFormatsParseBack | CppCon2015/osp/Foundation/src/DateTimeFormat.cpp:23-31 | all nine format constants give back date, time and zone; the year if and only if it has four digits or is one of 1969 to 2068 |
| DateTimeRoundTrip.ComponentComesBack | CppCon2015/osp/Foundation/src/DateTimeFormatter.cpp:32-78 | every printed component but the hour comes back, and nothing else is touched |
| DateTimeRoundTrip.HourComesBack | CppCon2015/osp/Foundation/src/DateTimeParser.cpp:368-393 | the hour comes back from %H, and from %h together with the half of the day |
| DateTimeRoundTrip.PlausibleIsInRange | CppCon2015/osp/Foundation/src/DateTimeParser.cpp:172-178 | what is parsed passes the range check, 29 February in a two-digit year included |
| DateTimeRoundTrip.ZonesToTheMinute | CppCon2015/osp/Foundation/src/DateTimeFormatter.cpp:113-154 | a zone survives if and only if it is whole minutes and not the UTC marker, which comes back as zero |
| DateTimeRoundTrip.LooseNumbersExactly | CppCon2015/osp/Foundation/src/DateTimeParser.cpp:84-95 | a number without leading zero comes back if and only if it has both digits or no digit follows |
| DateTimeRoundTrip.ZoneBehindJunk | CppCon2015/osp/Foundation/src/DateTimeParser.cpp:290-322 | a numeric zone comes back, whatever stands before it, if and only if that is space and possibly a designator that stands for no differential or for nothing |
| DateTimeRoundTrip.MarkHidesZone | CppCon2015/osp/Foundation/src/DateTimeParser.cpp:290-322 | so any other mark than a letter before a zone hides it |
| DateTimeRoundTrip.UtcExactly | CppCon2015/osp/Foundation/src/DateTimeParser.cpp:290-322 | the UTC marker is read, taking nothing of what follows, if and only if no letter and no sign follows |
| DateTimeRoundTrip.DashBehindUtc | CppCon2015/osp/Foundation/src/DateTimeParser.cpp:290-322 | for example a dash and two digits behind UTC are taken for an offset |
| DateTimeRoundTrip.MonthIsFound | CppCon2015/osp/Foundation/src/DateTimeParser.cpp:338-342 | the first three letters tell the months apart |
| Digits.ReadsPadded | CppCon2015/osp/Foundation/src/DateTimeParser.cpp:27-40 | a printed number is read back from behind any junk without digits |
| Digits.ReadsFraction | CppCon2015/osp/Foundation/src/DateTimeParser.cpp:43-44 | six digits are read back as milli- and microseconds |
| Digits.ValueOfDecimal | CppCon2015/osp/Foundation/src/DateTimeParser.cpp:39-40 | the digit loop undoes decimal printing |
| BaseCoding.BuildTable | CppCon2015/osp/Foundation/src/Base32Decoder.cpp:44-55 | the inverse table holds the value of every character |
| BaseCoding.ValueOfWritten | CppCon2015/osp/Foundation/src/Base32Decoder.cpp:44-55 | looking up a character of the alphabet undoes writing it |
| BaseCoding.OneMoreByte | CppCon2015/osp/Foundation/src/Base32Encoder.cpp:57-79 | one more byte completes a group or waits |
| Base32.EncodeAndDecode | CppCon2015/osp/Foundation/src/Base32Encoder.cpp:53-166 | whatever bytes are written, with or without padding, the decoder reads them back |
| Base32.DecodeEncoded | CppCon2015/osp/Foundation/src/Base32Decoder.cpp:64-125 | decoding undoes encoding, and padded encodings may follow one another |
| Base32.Encoder.WriteToDevice | CppCon2015/osp/Foundation/src/Base32Encoder.cpp:53-80 | the stream holds the encoding of the whole groups, the group the remainder |
| Base32.Encoder.Close | CppCon2015/osp/Foundation/src/Base32Encoder.cpp:83-166 | the stream holds the whole encoding, and the encoder starts afresh |
| Base32.Encoder.WriteGroup | CppCon2015/osp/Foundation/src/Base32Encoder.cpp:60-77 | a whole group |
| Base32.Encoder.WriteRest | CppCon2015/osp/Foundation/src/Base32Encoder.cpp:88-164 | the last group, if there is one |
| Base32.Encoder.WriteTail | CppCon2015/osp/Foundation/src/Base32Encoder.cpp:88-164 | its characters and padding |
| Base32.Encoder.WritePadding | CppCon2015/osp/Foundation/src/Base32Encoder.cpp:96-103 | the padding |
| Base32.Encoder.constructor | CppCon2015/osp/Foundation/src/Base32Encoder.cpp:32-37 | nothing written |
| Base32.IndicesAreDigits | CppCon2015/osp/Foundation/src/Base32Encoder.cpp:60-77 | the characters are the base 32 digits of the group read as a number, as in section 6 of RFC 4648 |
| Base32.AlphabetIs | CppCon2015/osp/Foundation/src/Base32Encoder.cpp:23-29 | table 3 of RFC 4648 |
| Base32.EncodedConcat | CppCon2015/osp/Foundation/src/Base32Encoder.cpp:53-80 | whole groups of five bytes are encoded on their own, in their order |
| Base32.EncodedGroup | CppCon2015/osp/Foundation/src/Base32Encoder.cpp:83-176 | a last group of 1 to 5 bytes gives as many digits as hold one of its bits, then padding if that is on |
| Base32.NoIndicesLeft | CppCon2015/osp/Foundation/src/Base32Encoder.cpp:88-164 | a short group filled with zeros has only zeros where padding goes |
| Base32.GroupBack | CppCon2015/osp/Foundation/src/Base32Decoder.cpp:64-125 | an encoded group is read back as one block |
| Base32.Decoder.ReadFromDevice | CppCon2015/osp/Foundation/src/Base32Decoder.cpp:64-125 | each call delivers the next decoded byte, the end, or an exception |
| Base32.Decoder.ReadBlock | CppCon2015/osp/Foundation/src/Base32Decoder.cpp:72-124 | a block is decoded, its first byte delivered |
| Base32.Decoder.ReadBuffer | CppCon2015/osp/Foundation/src/Base32Decoder.cpp:72-104 | the characters of a block, with the lengths the source permits at the end of the stream |
| Base32.Decoder.Regroup | CppCon2015/osp/Foundation/src/Base32Decoder.cpp:106-121 | the bytes of a block |
| Base32.Decoder.constructor | CppCon2015/osp/Foundation/src/Base32Decoder.cpp:37-56 | a stream at its start |
| Base32.ReadAll | CppCon2015/osp/Foundation/src/Base32Decoder.cpp:64-125 | reading to the end delivers all decoded bytes, or throws |
| Base32.LastBlockLengths | CppCon2015/osp/Foundation/src/Base32Decoder.cpp:76-104 | a last block is accepted if and only if it has 0, 2, 4, 5 or 7 characters, all known |
| Base32.AcceptedExactly | CppCon2015/osp/Foundation/src/Base32Decoder.cpp:64-125 | any text is accepted if and only if its characters are those of the alphabet and equals signs, and its last block has 2, 4, 5, 7 or 8 of them |
| Base32.UngroupedIsNumber | CppCon2015/osp/Foundation/src/Base32Decoder.cpp:106-110 | the bytes of a block are the base 256 digits of the number its values are in base 32 |
| Base64.EncodeAndDecode | CppCon2015/osp/Foundation/src/Base64Encoder.cpp:69-128 | for any bytes and any line length the text is their encoding in full lines, and the decoder reads the bytes back |
| Base64.EncodeAll | CppCon2015/osp/Foundation/src/Base64Encoder.cpp:69-128 | the text in lines of the line length rounded up to whole groups |
| Base64.DecodeEncoded | CppCon2015/osp/Foundation/src/Base64Decoder.cpp:63-108 | decoding undoes encoding, and encodings may follow one another |
| Base64.Encoder.WriteToDevice | CppCon2015/osp/Foundation/src/Base64Encoder.cpp:69-95 | a whole group is put out, with a line break exactly where the position reaches the line length |
| Base64.Encoder.Close | CppCon2015/osp/Foundation/src/Base64Encoder.cpp:98-128 | but for line breaks the stream holds the whole encoding; the position on the line stays |
| Base64.Encoder.WriteGroup | CppCon2015/osp/Foundation/src/Base64Encoder.cpp:76-92 | a whole group |
| Base64.Encoder.WriteRest | CppCon2015/osp/Foundation/src/Base64Encoder.cpp:103-126 | the last group, if there is one |
| Base64.Encoder.WriteTail | CppCon2015/osp/Foundation/src/Base64Encoder.cpp:103-126 | its characters and padding |
| Base64.Encoder.SetLineLength | CppCon2015/osp/Foundation/src/Base64Encoder.cpp:57-60 | the line length |
| Base64.Encoder.constructor | CppCon2015/osp/Foundation/src/Base64Encoder.cpp:36-42 | nothing written, lines of 72 |
| Base64.IndicesAreDigits | CppCon2015/osp/Foundation/src/Base64Encoder.cpp:76-83 | the characters are the base 64 digits of the group read as a number, as in section 4 of RFC 4648 |
| Base64.AlphabetIs | CppCon2015/osp/Foundation/src/Base64Encoder.cpp:23-33 | table 1 of RFC 4648 |
| Base64.EncodedConcat | CppCon2015/osp/Foundation/src/Base64Encoder.cpp:69-95 | whole groups of three bytes are encoded on their own, in their order |
| Base64.EncodedGroup | CppCon2015/osp/Foundation/src/Base64Encoder.cpp:98-128 | a last group of 1 to 3 bytes gives one digit more than it has bytes, then padding to four characters |
| Base64.LinesAre | CppCon2015/osp/Foundation/src/Base64Encoder.cpp:85-91 | lines end in CR and LF when they hold the line length rounded up to whole groups, and not before |
| Base64.LineStep | CppCon2015/osp/Foundation/src/Base64Encoder.cpp:84-90 | a group wraps exactly when it fills its line |
| Base64.LinesGrow | CppCon2015/osp/Foundation/src/Base64Encoder.cpp:84-90 | lines of one width grow group by group |
| Base64.GroupBack | CppCon2015/osp/Foundation/src/Base64Decoder.cpp:63-99 | an encoded group is read back as one block |
| Base64.AcceptedExactly | CppCon2015/osp/Foundation/src/Base64Decoder.cpp:63-99 | any text, white space aside, is accepted if and only if its characters are those of the alphabet and equals signs, in whole blocks of four |
| Base64.UngroupedIsNumber | CppCon2015/osp/Foundation/src/Base64Decoder.cpp:86-88 | the bytes of a block are the base 256 digits of the number its values are in base 64 |
| Base64.Decoder.ReadFromDevice | CppCon2015/osp/Foundation/src/Base64Decoder.cpp:63-99 | each call delivers the next decoded byte, the end, or an exception |
| Base64.Decoder.ReadBlock | CppCon2015/osp/Foundation/src/Base64Decoder.cpp:71-97 | a block is decoded, its first byte delivered |
| Base64.Decoder.ReadBuffer | CppCon2015/osp/Foundation/src/Base64Decoder.cpp:71-84 | the four characters of a block |
| Base64.Decoder.ReadOne | CppCon2015/osp/Foundation/src/Base64Decoder.cpp:102-108 | spaces and line breaks are skipped |
| Base64.Decoder.Regroup | CppCon2015/osp/Foundation/src/Base64Decoder.cpp:86-95 | the bytes of a block |
| Base64.Decoder.constructor | CppCon2015/osp/Foundation/src/Base64Decoder.cpp:36-55 | a stream at its start |
| Base64.ReadAll | CppCon2015/osp/Foundation/src/Base64Decoder.cpp:63-108 | reading to the end delivers all decoded bytes, or throws |
| RecordCursor.RecordSet.VisitAll | CppCon2015/osp/Data/src/RecordSet.cpp:224-260 | on a record set that is not empty, moveFirst and repeated moveNext visit exactly the allowed rows in increasing order |
| RecordCursor.RecordSet.RowCount | CppCon2015/osp/Data/src/RecordSet.cpp:201-214 | the number of rows so visited |
| RecordCursor.RecordSet.MoveFirst | CppCon2015/osp/Data/src/RecordSet.cpp:224-246 | the first allowed row |
| RecordCursor.RecordSet.MoveNext | CppCon2015/osp/Data/src/RecordSet.cpp:249-260 | the next allowed row, or no move |
| RecordCursor.RecordSet.MovePrevious | CppCon2015/osp/Data/src/RecordSet.cpp:263-274 | the previous allowed row, or no move |
| RecordCursor.RecordSet.MoveLast | CppCon2015/osp/Data/src/RecordSet.cpp:277-299 | the last allowed row |
| RecordCursor.RecordSet.RowExists | CppCon2015/osp/Data/src/RecordSet.cpp:160-164 | which row numbers row() accepts |
| RecordCursor.RowsAreAllowed | CppCon2015/osp/Data/src/RecordSet.cpp:217-221 | the rows visited are exactly the allowed ones, each once, in order |
| RecordCursor.BackFromNext | CppCon2015/osp/Data/src/RecordSet.cpp:249-274 | going back undoes going forward from an allowed row |
| RecordCursor.MoveNextStaysInside | CppCon2015/osp/Data/src/RecordSet.cpp:249-260 | moveNext never leaves the record set if and only if it has a row |
| RecordCursor.RowsAccepted | CppCon2015/osp/Data/src/RecordSet.cpp:160-164 | row() accepts every allowed row if and only if no row before an allowed one is filtered out |
| RecordCursor.RowIterator.Increment | CppCon2015/osp/Data/src/RowIterator.cpp:67-85 | loop and recursion end at the row moveNext reaches, or at the end, also over an empty record set |
| RecordCursor.RowIterator.constructor | CppCon2015/osp/Data/src/RowIterator.cpp:31-35 | the first row or the end |
| RecordCursor.IterateAll | CppCon2015/osp/Data/src/RowIterator.cpp:67-85 | from begin to end: row 0 whether allowed or not, then the allowed rows after it; so the allowed rows if and only if row 0 is one |
| RecordCursor.RestBegins | CppCon2015/osp/Data/src/RowIterator.cpp:67-85 | what is left to visit begins with the next row |
| LineEndings.PullAndPush | CppCon2015/osp/Foundation/src/LineEndingConverter.cpp:67-98 | the pulling and the pushing machine give the same converted text |
| LineEndings.Puller.ReadFromDevice | CppCon2015/osp/Foundation/src/LineEndingConverter.cpp:67-86 | each call delivers the next character of the converted text |
| LineEndings.Pusher.WriteToDevice | CppCon2015/osp/Foundation/src/LineEndingConverter.cpp:89-98 | after each character the stream holds the converted text so far |
| LineEndings.Puller.constructor | CppCon2015/osp/Foundation/src/LineEndingConverter.cpp:29-36 | nothing delivered |
| LineEndings.Pusher.constructor | CppCon2015/osp/Foundation/src/LineEndingConverter.cpp:39-46 | nothing written |
| LineEndings.ConvertedSnoc | CppCon2015/osp/Foundation/src/LineEndingConverter.cpp:89-98 | an LF after a CR belongs to it, and to nothing else |
| LineEndings.LinesStay | CppCon2015/osp/Foundation/src/LineEndingConverter.cpp:67-98 | conversion changes the line ends and nothing else |
| LineEndings.ConvertedTwice | CppCon2015/osp/Foundation/src/LineEndingConverter.cpp:67-98 | converting twice is converting once to the second line end |
| BinaryStrings.WriteAndRead | CppCon2015/osp/Foundation/src/BinaryWriter.cpp:253-270 | a string comes back, with the stream behind it, if and only if its length fits 32 bits |
| BinaryStrings.Writer.Write7BitEncoded | CppCon2015/osp/Foundation/src/BinaryWriter.cpp:295-321 | groups of seven bits, lowest first |
| BinaryStrings.Writer.WriteString | CppCon2015/osp/Foundation/src/BinaryWriter.cpp:253-270 | the length cut to 32 bits and that many bytes |
| BinaryStrings.Reader.Read7BitEncoded | CppCon2015/osp/Foundation/src/BinaryReader.cpp:220-256 | the number, cut to the word, and the place behind it |
| BinaryStrings.Reader.ReadString | CppCon2015/osp/Foundation/src/BinaryReader.cpp:197-217 | as many bytes as announced, or as there are |
| BinaryStrings.DecodedBack | CppCon2015/osp/Foundation/src/BinaryReader.cpp:220-256 | every number is read back, whatever follows it |
| BinaryStrings.EncodedExactly | CppCon2015/osp/Foundation/src/BinaryWriter.cpp:295-321 | the bytes of a number are the fewest that hold it in groups of seven bits, lowest first, the high bit set on all but the last |
| RowOrder.StrictWeakOrder | CppCon2015/osp/Data/src/Row.cpp:305-352 | for rows without NaNs where the sort map looks, less-than is irreflexive, transitive, and so is incomparability |
| RowOrder.StrictWeakExactly | CppCon2015/osp/Data/src/Row.cpp:305-352 | a sort map orders all rows strictly and weakly if and only if it compares no numbers before its first empty comparison |
| RowOrder.NotWeakWithNaN | CppCon2015/osp/Data/src/Row.cpp:328-335 | wherever the sort map compares numbers, there are rows among which incomparability is not transitive |
| RowOrder.FirstFloatDecides | CppCon2015/osp/Data/src/Row.cpp:305-352 | rows that differ in their first number only are ordered by it, behind any integers and strings |
| RowOrder.FirstDifferenceDecides | CppCon2015/osp/Data/src/Row.cpp:305-352 | at the first field of the sort map in which two rows differ the smaller integer, number or string comes first |
| RowOrder.TextLessExactly | CppCon2015/osp/Data/src/Row.cpp:337-342 | a string is less if it is a proper beginning of the other or has the smaller character at the first difference |
| RowOrder.LessThan | CppCon2015/osp/Data/src/Row.cpp:305-352 | the loop over the sort fields, and the exception for different criteria |

## Left out

- Calendar.DateTime.CheckLimit: does not model the 16-bit wrap-around of the fields, which no date in range reaches.
- Calendar.DateTime.SetUtcTime: IEEE rounding is a bounded error of the Julian day, not the exact rounding of each operation.
- CryptoStream.RsaTransform.Transform: the output pointer is a returned sequence, and a primitive does not fail.
- CryptoStream.RsaTransform.Pass: the assertion with which the source stops an encryption short of room is shown to hold under the requirements, not modelled as an exception.
- CryptoStream.EncryptAndDecrypt: the primitive is taken to invert pieces of any size up to the full one, which RSA_PADDING_NONE does for full pieces only, and OAEP for all but full ones.
- CryptoStream.ReadBuffer.ReadStep: ciphers other than RSA enter only through the room they demand.
- SessionPool.Pool.PutBack: resetting features and properties of a returned session, and exceptions from it, are not modelled.
- SessionPool.PooledSession.Close: whether rollback succeeds is an arbitrary choice; rollback, putBack and clearing the holder are one event, while the source holds no lock across them, so that the holder may be handed out again before the closing session lets go of it.
- LogArchive.ArchiveStrategy.CompressNext: compression either completes or has not begun, so the time when both forms of an archive exist is left out; a failing disk is not modelled.
- LogArchive.ArchiveStrategy.MoveFile: looking for a file and renaming it are one step, so that the compressor cannot take it away in between.
- LogArchive.ArchiveStrategy.Archive: switching compression off while files still wait for it is not modelled.
- LoggerHierarchy.Registry.SetLevel: loggers are visited in arbitrary order instead of by name.
- CppTokens.Tokenizer.Next: keywords are identifiers, operators are their text, and the raw text of a preprocessor line is dropped.
- CppTokens.Tokenizer.FinishDirective: only the place where the line ends is kept.
- CppTokens.Tokenizer.FinishComment: an unterminated block comment lacks the stray end-of-file character of the original.
- AttributesPrinter.WriteAttributes: a negative indentation, with which the original's loop does not end, is not modelled.
- AttributesPrinter.Collect: documentation, package and library comments, and the test whether a token is in the file at hand, are left out.
- DateTimeRoundTrip.FormatParsesBack: covers formats in which every directive is safe whatever is printed; a format outside them may read back for some dates.
- DateTimeParser.ParseText: the overflow of a year with more digits than an int holds is not modelled.
- Base64.EncodeAll: exact lines are stated for one line length; after a change of it in mid-stream only the text without breaks is.
- BinaryStrings.Reader.Read7BitEncoded: shifts beyond the width of the word, which only malformed input causes, count as zero.
- RowOrder.LessThan: conversions of dynamic values are given, and their exceptions are not modelled.
- RecordCursor.RecordSet.MoveNext: the filter answers for any row number; exceptions of a filter are not modelled.
- Guessing the format of a date text without a format string, and local time.
- Cipher implementations, OpenSSL, zlib, SQL, threads and clocks.
- Glob expansion over directories, symbolic links, and archives named by timestamp.
- The C++ parser beyond comment collection, name lookup, code generation beyond attributes.
- Row filters, statement execution, row formatting, changes of the sort map, backward iteration.
- The compression rounds of MD4 and MD5, and the other digests.
