# Verification of the hard core of the C sources

Dafny models of the algorithms of this repository that carry unbounded state or span several calls,
and proofs of what they promise. `dafny verify dfyconfig.toml` checks everything.

| files | component |
|---|---|
| `GetoptLookup`, `GetoptScan`, `GetoptLaws`, `GetoptText`, `GetoptEndMarker`, `Getopt`, `GetoptPrefix`, `GetoptAgain` | the permuting `getopt` of `src/common/win32/getoptw.c` |
| `Protothread`, `ProtothreadLaws`, `Spawn`, `BoundedBuffer`, `ExampleThreads`, `CodeLock` | the protothread macros, semaphores, and two programs written with them |
| `ByteOrder`, `Utf8`, `Convd`, `Chunks`, `ChunkLaws`, `ChunkWhole`, `ConvFile`, `ConvLock` | chunked charset conversion, its byte-order helpers, and calls of one descriptor by many threads |
| `XmlHead`, `XmlParse`, `XmlDeclaration`, `XmlRoundTrip`, `XmlFile` | printing and parsing the XML declaration under six byte-order marks, and converting an XML file |
| `TrimWhitespace`, `ReplaceSplit`, `CStrBuf`, `Timestamp`, `TimestampSpellings`, `TimestampBuffers` | the in-place string algorithms, the growing buffer, and timestamps of `src/common/cstrbuf.h` |
| `Calendar` | `getlocaltime_safe` of `src/common/timeut.h` |
| `RefCount` | reference-counted objects, and the creation of a conversion descriptor |
| `Common` | a few shared definitions |

**getopt.** `ParseArgs` is the simple reading of a command line: left to right, nothing moves. The class
`GetoptData` is the program: it swaps blocks of `argv` in place and keeps `optind`, `nextchar` and the
range of skipped non-options across calls. Each call is proved to be one step (`Call`) of a scan over
arguments that stay where they are, and the calls up to the first -1 add up to `ParseArgs`, in each of the
three ordering modes. A call after that reads what is left over. `GetoptText` says what each kind of
argument means, from the characters of the option string and the table of long options. The laws about clusters, attached arguments, `--name=value` and the stable partition are
proved of `ParseArgs` alone.

**Protothreads.** `Exec` and `Call` are the macros: a switch into the middle of a body, a saved line number
of sixteen bits, a flag for yields. `Resume` is a blocking thread that knows neither labels nor flags.
They agree on every body with distinct labels, over every run and every environment, and so does a parent
that spawns a child. `ProtothreadLaws` says what a call does in terms of calls alone, statement by statement. The bounded buffer and the code lock are proved as whole programs; for the former, the
methods are also shown to be what the macros make of the two thread bodies.

**Conversion.** The reader cuts a file into runs of equal bit 7 through a buffer of `linesize` bytes and
converts each run on its own; a UCS file it cuts into whole units. `ChunksFrom` says what the chunks are, with
`ChunkLaws` and `ChunkWhole` about what they add up to. `ConvertFile` is the program; `ConvertUtf8File` and
`ConvertUcsFile` are its laws for the two kinds of files, and `ConvXmlFile` puts a new declaration in front.
`ConvLock` interleaves the single steps of calls that share one descriptor.

**Strings and dates.** In-place methods on character arrays are proved against functions on strings, and
what the functions mean is proved as lemmas.

## Where the code and its documentation part

- `CONVD_ERR_INSUFF` is the positive number 5 (`src/convd/convd_def.h:53`), and the conversion loop takes every
  positive result for a length (`src/convd/convd.c:638`). A run that fills the buffer is therefore cut to its
  first five bytes, and the next chunk that fits takes the reader back into what it has passed. So, unless one run
  fills the last buffer of the file, bytes are repeated, five for every cut (`ChunkLaws.CutsAddBytes`,
  `ChunkWhole.BytesAreRepeated`); bytes are lost where a cut run ends the file (`ChunkWhole.BytesAreLost`). In a
  buffer of more than five bytes the chunks add up to the text if and only if every run is shorter than the buffer
  (`ChunkWhole.TextComesOutIff`), with one exception: in a buffer of ten, what is read twice of a cut run at the
  end of the text can happen to make up for what is left out (`ChunkWhole.BytesComeOutByChance`).
- The parser of the XML declaration copies a version of any length into an array of 16 bytes
  (`src/convd/convd.c:274-279`), while it checks the length of the encoding (`src/convd/convd.c:285`). What is
  proved is about versions that fit.
- `convd_conv_xmlfile` takes the length of the declaration, which includes the mark, for an offset behind the mark
  (`src/convd/convd.c:635-636`, `src/convd/convd.c:744`): in a file with a mark the text starts as many bytes too
  late as the mark has (`XmlFile.MarkIsCountedTwice`). It prints no new declaration for target encodings other than
  five (`src/convd/convd.c:725-742`).
- The comment above the loop that reads a run says that it ends behind a line feed too, and drops a carriage return
  before one (`src/convd/convd.c:434`). The code looks at bit 7 alone (`Convd.Position.ReadNext`).
- The saved line number has sixteen bits. A thread resumes where it yielded exactly if that line is below 65536
  (`ProtothreadLaws.ResumesIff`, `ProtothreadLaws.LinesCollide`).
- The comment on the last wait of the code lock says that a key pressed meanwhile keeps it locked. A key that is
  noticed only after the half second has passed does not (`CodeLock.LateKeyIsIgnored`).
- The bounded buffer shares one index between producer and consumer. What comes out is what went in exactly if
  the number of items is a multiple of the capacity, or is 1 (`BoundedBuffer.RunExample`).
- A leading `+` or `-` of the option string is an ordering prefix on the first call of `getopt` only; later calls
  read it as an option character, and do not see a `:` behind it. `prog -a -+` with "+a" and `prog -x -b` with "+:b:"
  show it (`GetoptPrefix.PlusIsAnOptionLater`, `GetoptPrefix.ColonIsMissedLater`). No command line can show it exactly
  if the prefix character is classified the same without it and, where a colon follows it, no option requires an
  argument (`GetoptPrefix.PrefixIsHarmlessIff`).
- An option whose returned value happens to be -1 ends the caller's loop early, so the main theorem of `getopt`
  speaks of the events before the first such value. No command line has one exactly if no option that a command
  line can ask for has that code (`GetoptEndMarker.EndMarkerIff`).
- A call of `getopt` after a -1 starts over at the first argument left over. Operands behind `--` are then read as
  options; after a run that did not end at `--` the result is -1 again (`GetoptAgain.StopsAgainIff`,
  `GetoptAgain.OperandIsReadAsOption`).
- A version number of one character is not read back from an XML declaration (`XmlRoundTrip.HeadRoundTrip`).
- `cstrbufPushBack` writes no terminator while there is room, so the text after the length can be stale
  (`CStrBuf.StaleTail`).
- The comment above the leap-year macro calls years divisible by 400 common years
  (`src/common/timeut.h:239`); the macro, rightly, does not.
- A text that ends in the time zone W00:01 is rejected, because the value of that zone is the -1 that stands for
  an error; its neighbours are accepted (`Timestamp.OneMinuteWestIsRejected`, `Timestamp.ZoneAcceptedIff`).

## Model

| member | source | states |
|---|---|---|
| GetoptLookup.LookUp | src/common/win32/getoptw.c:401-443 | the first exact name wins; otherwise the first prefix, unless a later prefix differs in has_arg, flag or val (or long_only is set), which is ambiguous; otherwise not found |
| GetoptLookup.ResolvesIsUnique | src/common/win32/getoptw.c:406-441 | that rule determines the answer: no word resolves in two ways |
| GetoptLookup.FindLong | src/common/win32/getoptw.c:401-443 | the loop with `exact`, `ambig` and `pfound` computes that answer, whatever the table |
| GetoptScan.DecodeLong | src/common/win32/getoptw.c:390-517 | a long option is returned exactly if its name up to `=` resolves, it has an argument if it requires one, and none behind `=` if it takes none; then the value or the stored flag is that of the table entry, and the argument is the text behind `=`, or the following element, which is used up; otherwise the code is `?`, or the one for a missing argument, and the entry's value, or 0, is reported |
| GetoptScan.DecodeShort | src/common/win32/getoptw.c:519-694 | a declared short option with an argument where it requires one returns its character; any other returns `?`, or the code for a missing argument, and reports the character; an argument is the rest of the cluster, or, if one is required, the following element, which is used up; it stays in its cluster exactly if characters are left and it takes no argument |
| GetoptScan.CallIsParsing | src/common/win32/getoptw.c:261-373 | in each ordering mode one resumable call takes the first event off the parse of what remains; it stops exactly where the parse is empty, with the same two lists |
| GetoptScan.CallKeepsCursor | src/common/win32/getoptw.c:292-373 | a call keeps the cursor valid in all three orderings, and at the stop every argument is accounted for |
| GetoptScan.CallMakesProgress | src/common/win32/getoptw.c:261-373 | each call that returns an option gets closer to the end, inside an element or by an element |
| GetoptScan.SkippingIsParsing | src/common/win32/getoptw.c:315-322 | skipping a row of non-options at once is parsing them one by one |
| GetoptScan.DecodingIsParsing | src/common/win32/getoptw.c:375-694 | decoding inside an element takes the first event off the parse of that element and what follows it |
| GetoptLaws.ParseIsStablePartition | src/common/win32/getoptw.c:218-221 | options with their arguments, and non-options, are two selections of the same arguments by one mask, each in its old order |
| GetoptLaws.LeftoversAreNonOptions | src/common/win32/getoptw.c:315-373 | what is left over before the place where the parse ends has no option syntax, and only permuting leaves anything there; at that place stands a used-up `--`, or, where order is required, a non-option, or the end; everything behind it is left over |
| GetoptLaws.OrderKeptUnlessPermuting | src/common/win32/getoptw.c:357-366 | requiring order and returning in order leave every argument where it is: what is used up, followed by what is left over |
| GetoptLaws.ClusterLaw | src/common/win32/getoptw.c:519-527 | `-ab` means what `-a -b` means if `a` takes no argument |
| GetoptLaws.AttachedArgumentLaw | src/common/win32/getoptw.c:665-690 | `-avalue` means what `-a value` means if `a` requires an argument |
| GetoptLaws.LongArgumentLaw | src/common/win32/getoptw.c:447-483 | `--name=value` means what `--name value` means if `name` resolves to an option that requires an argument |
| GetoptText.CodeOf | src/common/win32/getoptw.c:521-535 | an option character is returned as a signed `char` |
| GetoptText.ShortAlone | src/common/win32/getoptw.c:652-690 | in every ordering, a short option on its own takes the next element as its argument if one colon stands behind it in the option string, and neither without a colon nor with two |
| GetoptText.ShortAtEnd | src/common/win32/getoptw.c:668-684 | at the end of the command line that argument is missing: `:` is returned if the option string starts with a colon, `?` if not, and the character is reported |
| GetoptText.ShortAttached | src/common/win32/getoptw.c:652-667 | text behind the character is its argument with one colon or two, and more options without |
| GetoptText.Undeclared | src/common/win32/getoptw.c:521-551 | a character that is not in the option string, or a colon, gives `?`, is reported, and is passed over |
| GetoptText.UndeclaredInCluster | src/common/win32/getoptw.c:521-551 | also inside a cluster, whose rest is read as if it stood alone |
| GetoptText.Positional | src/common/win32/getoptw.c:357-366 | an element that is a dash or starts with none ends the parse where order is required, is passed over when permuting, and is returned with code 1 in order |
| GetoptText.EndOfOptions | src/common/win32/getoptw.c:325-343 | two dashes end the options in every ordering, and what follows is left over |
| GetoptText.LongAlone | src/common/win32/getoptw.c:443-494 | a word that is a name, or starts only names that agree, returns the value of that entry or stores it through its flag; it takes the next element exactly if the entry requires an argument, and at the end reports it missing |
| GetoptText.LongWithText | src/common/win32/getoptw.c:447-470 | the text behind `=` is the argument, or an error for an entry that takes none |
| GetoptText.LongUnresolved | src/common/win32/getoptw.c:433-512 | a word that starts no name, or names that disagree, gives `?` and reports 0 |
| GetoptText.NoLongOptions | src/common/win32/getoptw.c:370-373 | without a table of long options a second dash is an undeclared character |
| GetoptText.PrefixDecides | src/common/win32/getoptw.c:190-203 | a first argument that is no option is returned with code 1 under `-`, ends the run under `+` or POSIXLY_CORRECT, and is left over otherwise |
| GetoptText.PrefixIsDropped | src/common/win32/getoptw.c:190-195 | the first call reads the option string without its prefix |
| GetoptEndMarker.EveryOptionIsSeen | src/common/win32/getoptw.c:489-493 | if no option in reach of a command line has the code -1, no event of a parse is -1 |
| GetoptEndMarker.MarkedCharacter | src/common/win32/getoptw.c:521-535 | a declared character of code -1 has a command line whose first event is -1 |
| GetoptEndMarker.MarkedLongOption | src/common/win32/getoptw.c:443-494 | so has a long option of value -1 that some word resolves to |
| GetoptEndMarker.EndMarkerIff | src/common/win32/getoptw.c:443-494 | every command line is read to its end if and only if no option in reach has the code -1 |
| Getopt.SwapBlocks | src/common/win32/getoptw.c:141-147 | the swap loop exchanges two equally long blocks and nothing else |
| Getopt.GetoptData.Exchange | src/common/win32/getoptw.c:123-171 | the two adjacent segments change places, each in its own order, nothing else moves, and the recorded range moves along |
| Getopt.ExchangedIsConcatenation | src/common/win32/getoptw.c:114-121 | exchanging is: the part before, the second segment, the first segment, the part behind |
| Getopt.BottomBlockPlaced | src/common/win32/getoptw.c:136-149 | if the bottom segment is shorter, swapping it with the far end of the top one leaves a smaller exchange with the same result |
| Getopt.TopBlockPlaced | src/common/win32/getoptw.c:150-164 | the same for a top segment that is not longer |
| Getopt.GetoptData.Initialize | src/common/win32/getoptw.c:175-203 | the ordering comes from the prefix of the option string, or from the environment; an empty range of skipped arguments |
| Getopt.GetoptData.GatherAndSkip | src/common/win32/getoptw.c:305-323 | permuting brings the options passed so far to the front, and skips to the next option |
| Getopt.GetoptData.EndOptions | src/common/win32/getoptw.c:325-343 | `--` joins the options, everything behind it the non-options, and `argv` is settled |
| Getopt.GetoptData.Advance | src/common/win32/getoptw.c:292-373 | moving to the next element does to `argv` what the scan says, and stops or delivers exactly when the scan does |
| Getopt.GetoptData.DecodeLongOption | src/common/win32/getoptw.c:390-517 | result, `optarg`, `optopt`, `*longind`, the stored flag, `optind` and `nextchar` are those of `DecodeLong` |
| Getopt.GetoptData.DecodeShortOption | src/common/win32/getoptw.c:519-694 | the same for one short option |
| Getopt.GetoptData.ReachNext | src/common/win32/getoptw.c:295-323 | the recorded range stays behind `optind`, and in permuting mode the next non-options are passed over |
| Getopt.GetoptData.GetoptInternal | src/common/win32/getoptw.c:261-694 | one call, in any ordering mode, is one step of the scan over unmoved arguments, and `argv` is laid out accordingly; without arguments the result is -1 and nothing changes |
| Getopt.UntilEndMarker | src/common/win32/getoptw.c:218-221 | the events a caller sees before the first result of -1 |
| Getopt.GetoptLoop | src/common/win32/getoptw.c:261-694 | in each ordering mode, calling until -1 returns the promised options and arguments, leaves what was used up before what is left over, each in old order, and `optind` at the first element left over, where a further call would go on; without permuting nothing moves; the run ends |
| Getopt.PromisedIsParse | src/common/win32/getoptw.c:208-221 | for an option string without an ordering prefix, what a run promises is the simple parse of the arguments |
| Getopt.NothingMoves | src/common/win32/getoptw.c:357-366 | unless the run permutes, used up and left over are the arguments as they were |
| GetoptPrefix.PlusIsAnOptionLater | src/common/win32/getoptw.c:277-284 | two successive calls on `prog -a -+` with "+a": the second takes `+` for a declared option |
| GetoptPrefix.ColonIsMissedLater | src/common/win32/getoptw.c:679-683 | two successive calls on `prog -x -b` with "+:b:": the second returns `?` where the string without its prefix asks for `:` |
| GetoptPrefix.ShortAlikeIff | src/common/win32/getoptw.c:519-694 | a short option reads the same with and without the prefix if and only if it is classified the same, or has its argument attached either way, and no `:` is due for a missing one |
| GetoptPrefix.LongAlikeIff | src/common/win32/getoptw.c:471-483 | a long option reads the same if and only if no `:` is due for its missing argument |
| GetoptPrefix.CallAlikeIff | src/common/win32/getoptw.c:261-694 | a call does the same with and without the prefix if and only if the option it decodes, if any, reads the same |
| GetoptPrefix.PrefixIsHarmlessIff | src/common/win32/getoptw.c:190-203 | on all command lines a run with a prefixed option string keeps the promise of the string without it, if and only if the prefix character is classified the same without it and, where `:` follows it, no option requires an argument |
| GetoptAgain.FurtherCall | src/common/win32/getoptw.c:292-373 | a call after a -1 returns the first event of a new parse of what is left over, or -1 again if that has none |
| GetoptAgain.NothingToReadIff | src/common/win32/getoptw.c:305-373 | a parse has no event if and only if nothing but non-options stands before a `--` or the end, or in front where order is required |
| GetoptAgain.StopsAgainIff | src/common/win32/getoptw.c:345-366 | after a run a further call returns -1 again if and only if no option is ahead in what is left over, which is so after every run that does not end at `--` |
| GetoptAgain.OperandIsReadAsOption | src/common/win32/getoptw.c:325-354 | after `prog -- -a` has been read to its end, a further call returns `a` |
| Protothread.RunAgrees | src/protothreads/pt.h:115-154 | executing a statement from its start agrees with the blocking thread |
| Protothread.SeekAgrees | src/protothreads/lc-switch.h:66-72 | jumping to a label inside a statement agrees with resuming the blocking thread there |
| Protothread.SeekPasses | src/protothreads/lc-switch.h:68-70 | the jump passes over every statement that does not hold the label, and executes nothing |
| Protothread.CallIsResume | src/protothreads/pt.h:115-128 | one call of the thread function is one turn of the blocking thread: same result, same state, a continuation that means the same; after end, exit and restart it starts at the top |
| Protothread.RunsAgree | src/protothreads/pt.h:115-317 | over every run, with any changes of the state between calls, the calls show what the blocking thread shows |
| Protothread.BudgetIsIrrelevant | src/protothreads/pt.h:148-154 | a turn that ends is the same turn under every larger loop budget |
| Protothread.YieldReturnsOnce | src/protothreads/pt.h:290-297 | wherever a yield stands in a body, a call suspended there has returned PT_YIELDED, and the next call goes on behind it, whatever the state, and checks nothing first |
| ProtothreadLaws.YieldUntilIs | src/protothreads/pt.h:309-316 | anywhere in a body, against a PT_YIELD in its place: a call that comes to PT_YIELD_UNTIL by execution returns PT_YIELDED there, whatever the condition, in the state it came with; the next call yields again if the condition does not hold, and if it holds goes on as behind the PT_YIELD |
| ProtothreadLaws.YieldUntilTrue | src/protothreads/pt.h:309-316 | over every run, with a condition that always holds it shows what PT_YIELD shows |
| ProtothreadLaws.ResumesIff | src/protothreads/lc-switch.h:64-70 | the call after a yield goes on behind it exactly if the line number of the yield is below 65536 |
| ProtothreadLaws.LinesCollide | src/protothreads/lc-switch.h:64-70 | of two yields 65536 lines apart the second resumes at the first: every later call redoes what is between them and yields again |
| ProtothreadLaws.AtLoop | src/protothreads/lc-switch.h:66-72 | a call at the start of a loop is a call behind it, or a call of one iteration followed by the loop, with one iteration less in the budget |
| ProtothreadLaws.InLoop | src/protothreads/lc-switch.h:66-72 | a call that jumps into a loop finishes that iteration and then the loop, without a look at its condition |
| ProtothreadLaws.InSequence | src/protothreads/lc-switch.h:66-72 | a call that jumps behind a statement is a call of what follows it |
| Spawn.SpawnTurn | src/protothreads/pt.h:192-210 | while a parent waits for a child, its call is one turn of the blocking child; it goes on in the call in which the child exits or ends |
| Spawn.SuspendedStatus | src/protothreads/pt.h:58-61 | a suspended thread waits or yields; only exit and end count as done |
| Spawn.WaitingIsInlined | src/protothreads/pt.h:192-192 | over a whole run, waiting for a child shows the child's turns, then the rest of the parent |
| Spawn.SpawnIsInlined | src/protothreads/pt.h:206-210 | PT_SPAWN behaves as the child's blocking body put in its place, each of its suspensions reported as waiting |
| BoundedBuffer.Add | src/protothreads/example-buffer.c:94-99 | producing one item keeps the account of slots, items and index |
| BoundedBuffer.Take | src/protothreads/example-buffer.c:113-118 | consuming one item keeps it too |
| BoundedBuffer.NextIsModulo | src/protothreads/example-buffer.c:56-56 | the next index is taken modulo the capacity |
| BoundedBuffer.Example.AddToBuffer | src/protothreads/example-buffer.c:51-57 | the item goes to the shared index, which moves on |
| BoundedBuffer.Example.GetFromBuffer | src/protothreads/example-buffer.c:58-67 | the item comes from the same shared index |
| BoundedBuffer.Example.Producer | src/protothreads/example-buffer.c:85-102 | a call adds items until there is no slot or all are produced, resumes inside its loop, and ends exactly with the last item |
| BoundedBuffer.Example.Consumer | src/protothreads/example-buffer.c:104-121 | a call takes items until there is none or all are consumed |
| BoundedBuffer.Example.AnySchedule | src/protothreads/pt-sem.h:183-222 | after every sequence of calls in any order, both counts are non-negative and add up to the capacity, and items added minus items taken is the count of `empty` |
| BoundedBuffer.DriverWaitsForBoth | src/protothreads/pt.h:271-271 | the driver goes on exactly while one of the two threads waits or yields |
| BoundedBuffer.OneRound | src/protothreads/example-buffer.c:85-140 | a full round hands over what was added; a shorter round hands over something else, except for a single first item |
| BoundedBuffer.RunExample | src/protothreads/example-buffer.c:85-140 | for every capacity and item count: the number of rounds, every item added once and in order, as many taken, and the items taken equal those added if and only if the count is a multiple of the capacity or is 1 |
| ExampleThreads.ProducerIsThread | src/protothreads/example-buffer.c:85-102 | the macros, applied to the producer's body, do what `Example.Producer` promises, from either place where it can be suspended |
| ExampleThreads.ConsumerIsThread | src/protothreads/example-buffer.c:104-121 | the same for the consumer |
| CodeLock.Lock.KeyPressed | src/protothreads/example-codelock.c:110-118 | a pressed key is reported once |
| CodeLock.Lock.TimerExpired | src/protothreads/example-codelock.c:409-413 | the timer has expired if its interval has passed at the next reading of the clock |
| CodeLock.Lock.CodelockThread | src/protothreads/example-codelock.c:128-252 | a call with its nested loops, breaks and three entry points is a turn of the blocking lock |
| CodeLock.SessionIsSafe | src/protothreads/example-codelock.c:128-252 | in every run, under every clock, the lock opens only if the last four keys compared are 1, 4, 2, 3 within one attempt, the last three each passed a check under 1000 ms, and the last reading is at least 500 ms after the timer was set |
| CodeLock.SessionSpendsKeys | src/protothreads/example-codelock.c:110-118 | in every run under a clock that never goes back, each single comparison comes after a key press that no earlier comparison had |
| CodeLock.ComparisonWithoutPress | src/protothreads/example-codelock.c:173-201 | a run from the start, under a clock that goes back once, in which a key is compared a second time without a second press |
| CodeLock.ComparesUnpressedIff | src/protothreads/example-codelock.c:173-201 | a call that finds no key pressed compares one if and only if it waits for a further key, and its timer has expired at the first reading and not at the second |
| CodeLock.LateKeyIsIgnored | src/protothreads/example-codelock.c:219-244 | the final wait unlocks if and only if its timer has expired at the first reading, key or no key |
| CodeLock.RightCodeOpens | src/protothreads/example-codelock.c:146-246 | typing the code opens the lock, with any number of calls before each key and before the end of the last wait, as long as no timer runs out too early |
| CodeLock.KeyDecides | src/protothreads/example-codelock.c:151-212 | what a call does with a pressed key: one that comes too late is not compared, it and a wrong one start over, and a right one leads to the next wait or beyond |
| CodeLock.LastWait | src/protothreads/example-codelock.c:219-246 | in the last wait a key in time locks again, an expired timer unlocks, and otherwise the wait goes on |
| CodeLock.NoKeyDecides | src/protothreads/example-codelock.c:151-196 | without a key the first wait goes on; a further one goes on under its timer, and starts over behind it |
| ByteOrder.SwapEvenBytes | src/common/bo.h:165-176 | the in-place loop reverses the bytes of a value and touches nothing else |
| ByteOrder.ReversedTwice | src/common/bo.h:165-176 | swapping twice restores the value |
| ByteOrder.SwappedUnitsSplit | src/common/bo.h:234-250 | swapping unit by unit distributes over a split between units |
| Utf8.RunLength | src/convd/convd.c:435-444 | the bytes up to the first change of bit 7 |
| Utf8.RunsPartition | src/convd/convd.c:431-444 | the runs are maximal and, put together, are the text |
| Utf8.RunsUnique | src/convd/convd.c:431-444 | there is no other partition into maximal runs |
| Utf8.RunsWellFormed | src/convd/convd.c:434-444 | every run of well-formed UTF-8 (sections 3 and 4 of RFC 3629) is well-formed: no character is cut |
| Convd.Position.ReadNext | src/convd/convd.c:389-460 | the next chunk: whole units in host order, or a run, or the code for a full buffer, which then holds the bytes read, while read position and offset differ |
| Convd.MarkIs | src/convd/convd.c:109-146 | which byte-order mark a text has, by its first bytes |
| Convd.Position.ConvText | src/convd/convd.c:581-611 | one conversion of a chunk into the output part of the buffer, which holds four times the line size; it fails on bad input or lack of room |
| ConvFile.RunByRun | src/convd/convd.c:638-655 | converting the runs one by one is converting the text, for a converter that distributes over well-formed text |
| Chunks.ReadSeesRun | src/convd/convd.c:431-449 | a read sees the whole run at its position, unless that run fills the buffer |
| ChunkLaws.FittingChunksAreRuns | src/convd/convd.c:431-459 | if every run fits, the chunks are the runs |
| ChunkLaws.CutsAddBytes | src/convd/convd.c:446-459 | unless one run fills the last buffer of the text, the chunks have five bytes more than the text for every read that a run fills |
| ChunkLaws.NoCutsIff | src/convd/convd.c:446-449 | no read is filled by one run if and only if every run is shorter than the buffer |
| ChunkLaws.CutRunLength | src/convd/convd.c:446-459 | a run of q buffers and m more bytes comes out 10q + m bytes long, or 5q if m is 0 |
| ChunkLaws.WholeRun | src/convd/convd.c:446-459 | what is delivered of a run that is cut: five bytes of each buffer, the rest, and from there five bytes of each buffer again, before the reader gets behind it with its offset still inside |
| ChunkWhole.MoreChangesOrLess | src/convd/convd.c:446-459 | once bit 7 changes between the offset and the read position, what is delivered has more changes than the text still to be read, or is shorter than it |
| ChunkWhole.OtherwiseAllFit | src/convd/convd.c:446-449 | outside a buffer of ten bytes the condition of `AddUpIff` is that every run fits |
| ChunkWhole.AddUpIff | src/convd/convd.c:446-459 | in a buffer of more than five bytes, the chunks from any position add up to the text there if and only if every run fits, except that the last one may come out as it is although it is cut |
| ChunkWhole.TextComesOutIff | src/convd/convd.c:614-665 | the same for the whole text of a file in single bytes |
| ChunkLaws.UnitChunksAddUp | src/convd/convd.c:407-429 | the chunks of a UCS file are whole units, and add up to all whole units of the text in host order |
| ChunkWhole.BytesAreLost | src/convd/convd.c:446-449 | of a file that is one run of exactly one buffer all but five bytes are lost |
| ChunkWhole.BytesAreRepeated | src/convd/convd.c:446-459 | ten equal characters and an accented one, through a buffer of ten, come out with bytes repeated |
| ChunkWhole.BytesComeOutByChance | src/convd/convd.c:446-459 | eleven equal characters through a buffer of ten come out whole, in chunks that are not the runs |
| ConvFile.ConvertFile | src/convd/convd.c:614-665 | the loop ends; the output is the head and the converted chunks; at the end of the file these are all of `ChunksFrom`, and after a failure those before the first whose conversion fails; in buffers over 5 bytes they are the runs exactly if every run fits; in UCS files they add up to all whole units in host order |
| ConvFile.ConvertUtf8File | src/convd/convd.c:614-665 | for a file without a UCS mark, whose text behind EF BB BF, if it has that mark, is UTF-8 with fitting runs, the output is the head and the conversion of the whole text, no byte lost or repeated, and the call fails when that conversion fails |
| ConvFile.ChunkByChunk | src/convd/convd.c:638-655 | converting chunks of whole units one by one is converting what they add up to, for a converter that distributes over whole units |
| ConvFile.UcsInput | src/convd/convd.c:389-429 | what is converted of a UCS file: the text behind the mark, cut to pairs or fours, as it is in little-endian files, with each pair exchanged or each four reversed in big-endian ones |
| ConvFile.ConvertUcsFile | src/convd/convd.c:614-665 | for UCS files, the output is the head and the conversion of that input, byte by byte, and the call fails when that conversion fails |
| ConvLock.YieldsOne | src/convd/convd.c:594-607 | converting an input alone has one result |
| ConvLock.PiecesInOrder | src/convd/convd.c:593-607 | the result is all pieces the library wrote, in order, if its calls take up the whole input, and none if one of them fails |
| ConvLock.StepKeepsInv | src/convd/convd.c:581-611 | every single step of every thread keeps: the lock is held exactly inside the critical section, locks and unlocks tally, and a looping thread owns the shift state |
| ConvLock.EveryRun | src/convd/convd.c:581-611 | in every interleaving no two threads convert at once, each finished call has locked and released once, and returned the conversion of its own input from the initial shift state |
| ConvLock.ResultDependsOnInputOnly | src/convd/convd.c:585-591 | two calls with the same input and room return the same, in whatever runs they take part |
| ConvLock.NeverStuck | src/common/refcobject.h:122-134 | while a call is under way some thread can go on |
| ConvLock.RunsEnd | src/convd/convd.c:594-607 | with a library that consumes its input on success, a run of n calls has at most 6n steps |
| XmlHead.FormattedSpells | src/convd/convd.c:16-106 | the bytes of a printed declaration in each form: the mark, and each character as it is, or as a pair or four bytes in the order of the mark with its sign extended |
| XmlHead.Format | src/convd/convd.c:16-106 | the declaration is printed whole, byte by byte as above, if it and one byte more fit; the result is its size, or 0 for lack of room, or -1 for an unknown mark; in wide units nothing is written then |
| XmlHead.SafeCopy | src/common/cstrbuf.h:1015-1040 | the copy succeeds exactly if the text and a terminator fit; otherwise what fits is copied, with three dots before the terminator in the last cell if there is room for them; no other cell changes |
| XmlHead.DecodeEncoded | src/common/bo.h:440-474 | writing characters as units and reading them back gives the characters, whatever follows |
| XmlParse.Scan | src/convd/convd.c:190-266 | the scan returns the characters up to the first `>` and the byte position behind it |
| XmlParse.ParseHead | src/convd/convd.c:179-299 | mark, version, encoding and byte length of the declaration, or length 0 |
| XmlDeclaration.CharactersAre | src/convd/convd.c:190-266 | the characters the parser sees: the bytes behind the mark, or the low byte of each pair or four |
| XmlDeclaration.RecognisedIff | src/convd/convd.c:268-299 | a declaration is found if and only if the characters up to the first `>` are 21 to 127, start with `<?xml `, end in `?>`, and have a version before any null; the length ends behind the `>` |
| XmlDeclaration.FieldsAre | src/convd/convd.c:272-290 | the version is the text between the quotes of its first occurrence if it has two characters or more, and the encoding that of its first in upper case if it has fewer than 64; nothing where there is no closing quote |
| XmlRoundTrip.BomRecognised | src/convd/convd.c:109-146 | the mark of a printed head is recognised under all six forms, whatever follows |
| XmlRoundTrip.HeadRoundTrip | src/convd/convd.c:179-299 | parsing a printed head and any trailing text gives its exact byte length, its mark, the upper-cased encoding, and its version if and only if that is not of length 1 |
| XmlRoundTrip.PrintAndParse | src/convd/convd.c:16-106 | the same for the two programs one after the other, given enough room |
| XmlFile.FrontReturns | src/convd/convd.c:302-317 | on the first 112 bytes of a file the scan always ends |
| XmlFile.PrintHead | src/convd/convd.c:725-742 | the new declaration has no mark, the old version, and the target encoding, cut and marked if it is as long as its array; for other targets there is none |
| XmlFile.ConvXmlFile | src/convd/convd.c:717-747 | without a declaration in its first 112 bytes a file is refused; otherwise, for UTF-8 with fitting runs, the output is the new declaration and the conversion of the text, and the call fails when that conversion fails |
| XmlFile.MarkIsCountedTwice | src/convd/convd.c:635-636 | the text converted is what is behind the declaration, without as many bytes as the mark has |
| XmlFile.DeclarationIsRenewed | src/convd/convd.c:717-747 | a file that starts with a printed declaration comes out as one whose declaration, when parsed, has the same version and names the target encoding, in front of the converted rest |
| XmlFile.OtherwiseNoHead | src/convd/convd.c:724-742 | for target encodings other than the five nothing is printed in front |
| TrimWhitespace.CstrTrimWhitespace | src/common/cstrbuf.h:308-312 | the result points at the non-space characters in order, packed against the terminator, with only whitespace left before them |
| TrimWhitespace.TrimmedIsFixed | src/common/cstrbuf.h:308-312 | the non-space characters of a compacted string are that string |
| TrimWhitespace.EachCharacter | src/common/cstrbuf.h:308-312 | of each character by itself: the six kinds of whitespace go, every other character stays |
| TrimWhitespace.PackedAgain | src/common/cstrbuf.h:311-311 | running the recursion again on its own output, as each level does, finds the same characters |
| ReplaceSplit.JoinPieces | src/common/cstrbuf.h:642-665 | the pieces joined by the separator are the string |
| ReplaceSplit.PiecesAreFree | src/common/cstrbuf.h:642-665 | no piece contains the separator, and each separator is found at the earliest place, also where occurrences overlap |
| ReplaceSplit.ReplacedLength | src/common/cstrbuf.h:396-444 | the length after replacing, from the number of occurrences, also for a shorter replacement |
| ReplaceSplit.NewLengthIs | src/common/cstrbuf.h:396-444 | the unsigned computation of that length wraps around to the right value |
| ReplaceSplit.CountPattern | src/common/cstrbuf.h:396-444 | the counting pass counts one less than there are pieces |
| ReplaceSplit.CopyPass | src/common/cstrbuf.h:396-444 | the copying pass fills the result exactly with the pieces joined by the replacement |
| ReplaceSplit.CstrReplaceNew | src/common/cstrbuf.h:396-444 | no result if the pattern does not occur; otherwise the pieces joined by the replacement, a terminator, and the length |
| ReplaceSplit.CstrSplitSubstr | src/common/cstrbuf.h:642-665 | the pointers are the pieces in order, as many as there are slots for, and nothing behind the string changes |
| CStrBuf.Buffer.New | src/common/cstrbuf.h:1598-1632 | contents, zeros behind them, and the exact or aligned capacity for each way of giving capacity, text and length |
| CStrBuf.Buffer.Cat | src/common/cstrbuf.h:1660-1738 | appends in place exactly if text and terminator fit, and otherwise in a new buffer of the next multiple of 16 |
| CStrBuf.Buffer.PushBack | src/common/cstrbuf.h:1820-1833 | appends one character; the fast path leaves the cell behind it as it was |
| CStrBuf.Buffer.Trunc | src/common/cstrbuf.h:1741-1749 | cuts the contents down, never extends them |
| CStrBuf.Buffer.Dup | src/common/cstrbuf.h:1770-1797 | replaces the contents, in place or in a new buffer |
| CStrBuf.Buffer.Sub | src/common/cstrbuf.h:1800-1817 | splices a substring into a string |
| CStrBuf.AlignSizeFits | src/common/cstrbuf.h:1559-1559 | the aligned size is the least multiple of 16 above the length |
| CStrBuf.CatTo | src/common/cstrbuf.h:1665-1695 | without a buffer, appending makes a new one with room for the text |
| CStrBuf.RunOps | src/common/cstrbuf.h:1598-1833 | any sequence of the six operations, from a buffer or from the null pointer, keeps the length below the capacity and the contents equal to those of the same operations on strings, across reallocations |
| CStrBuf.StaleTail | src/common/cstrbuf.h:1820-1826 | a buffer whose contents are followed by an old character and not by a terminator |
| Timestamp.PaddedIs | src/common/cstrbuf.h:1111-1146 | a zero-padded number has its width, only digits, and its value |
| Timestamp.ValidDayOfMonth | src/common/cstrbuf.h:1165-1184 | the nested tests accept exactly the dates whose day is one of their month, by the calendar's own month lengths, and the times in range |
| Timestamp.ZoneIs | src/common/cstrbuf.h:1187-1221 | a printed time zone is read back |
| Timestamp.ParsePrint | src/common/cstrbuf.h:1224-1497 | for every valid date, date and time, or date and time with milliseconds, and every zone but -1, parsing the printed text gives the same fields and the milliseconds since the epoch; the text fits its buffer |
| Timestamp.ParsedIsPrintable | src/common/cstrbuf.h:1224-1497 | whatever text is accepted, what is read is a valid timestamp in one of the three shapes |
| Timestamp.SurvivesIffPrintable | src/common/cstrbuf.h:1111-1497 | fields survive printing and parsing if and only if they are valid in one of the three shapes |
| Timestamp.ReprintedTextIsEquivalent | src/common/cstrbuf.h:1224-1497 | an accepted spelling, printed again and read again, is the same instant with the same fields |
| Timestamp.ZoneAcceptedIff | src/common/cstrbuf.h:1187-1221 | a zone is accepted if and only if it is a sign, two digits, a separator and two digits, at most 23 hours and 59 minutes, and not one minute west |
| Timestamp.AcceptedIff | src/common/cstrbuf.h:1255-1283 | a text is accepted if and only if its body is, and its zone, if it has one, is such a zone |
| Timestamp.OneMinuteWestIsRejected | src/common/cstrbuf.h:1276-1281 | behind every valid timestamp the zone W00:01 is rejected, while W00:02 and +00:01 are accepted |
| TimestampSpellings.SpellingIsRead | src/common/cstrbuf.h:1224-1497 | every spelling of a stamp is read as that stamp: digits of its fields, blanks or quotes around them, and a zone with any of the four signs and two separators, found by the four searches |
| TimestampSpellings.ReadIsSpelling | src/common/cstrbuf.h:1224-1497 | and whatever is read is read from such a spelling |
| TimestampSpellings.PrintedIsSpelled | src/common/cstrbuf.h:1110-1130 | the printed text has the digits of the fields at their places |
| TimestampSpellings.PrintedZone | src/common/cstrbuf.h:1132-1142 | a zone is printed with a plus or a W, and a colon |
| TimestampSpellings.PaddedNumber | src/common/cstrbuf.h:1117-1129 | a number of any size is printed with all its digits, and zeros in front only up to the width |
| TimestampBuffers.Snprintf | src/common/unitypes.h:356-374 | the text is written as far as there is room, with a terminator, and what is cut off is not counted |
| TimestampBuffers.DatetimePrint | src/common/cstrbuf.h:1110-1146 | the buffer holds the printed text, or its first 29 characters, and a terminator |
| TimestampBuffers.FindZone | src/common/cstrbuf.h:1255-1274 | where the zone starts, by the four searches in their order |
| TimestampBuffers.ReadZone | src/common/cstrbuf.h:1187-1221 | the value of the zone, or -1 |
| TimestampBuffers.Trim | src/common/cstrbuf.h:250-281 | both ends trimmed, the right one by writing terminators |
| TimestampBuffers.Cut | src/common/cstrbuf.h:1301-1430 | the fields of a text of length 10, 19 or 23, cut by writing terminators at its separators, or an error |
| TimestampBuffers.ParseTimestamp | src/common/cstrbuf.h:1224-1497 | the in-place parser computes `Timestamp.Parse` of the string it was given |
| Calendar.GetLocaltimeSafe | src/common/timeut.h:233-307 | the fields are in range if and only if the shifted time is not negative; then days-from-civil and time of day give the shifted time back, and weekday and day of the year agree with the date; before the epoch they are a non-positive day of January 1970 and a non-positive time of day; both loops end |
| Calendar.FindYear | src/common/timeut.h:275-285 | the year loop splits the days into whole years and a rest within the year |
| Calendar.FindMonth | src/common/timeut.h:287-301 | the month loop ends below month 12 with a day of that month |
| Calendar.MarchBased | src/common/timeut.h:241-251 | the day number is that of the closed formula that starts years in March |
| Calendar.OrderKept | src/common/timeut.h:233-307 | of two valid dates with times, the one with the smaller time is the lexicographically earlier one, and equal times mean equal fields |
| RefCount.StepKeepsInv | src/common/refcobject.h:72-95 | every step of every thread keeps: the count is the number of references held, and the object is alive, being finalised by one thread, or gone |
| RefCount.HoldersFindItAlive | src/common/refcobject.h:72-81 | whoever holds a reference finds the object alive |
| RefCount.EveryRun | src/common/refcobject.h:61-95 | in every interleaving: no access after the memory is freed, the finaliser runs at most once, only after the last release and before the lock goes, and at the end exactly once, closing an open handle exactly once |
| RefCount.Iconv.Create | src/convd/convd.c:470-539 | the result code for each kind of failure, in the order of the tests; a failed call leaves nothing open, a successful one exactly its own handle |
| RefCount.Iconv.Cleanup | src/convd/convd.c:320-325 | the finaliser closes the handle of a descriptor that has one |

## Left out

- Getopt.GetoptLoop: option strings with the `W;` extension are excluded by a precondition; error messages and the program name are not modelled, and POSIXLY_CORRECT is a parameter that stays the same.
- Getopt.GetoptData.DecodeShortOption: option strings with the `W;` extension are excluded here too.
- Getopt.GetoptData.GetoptInternal: `long_only` is 0, as in every entry point of the file; the lookup itself covers both values.
- Protothread.RunsAgree: a call whose loops use up a given number of iterations counts as not returning; the budget is arbitrary, and irrelevant for calls that return. State that lives on the C stack across calls, and jumps into a `switch` of the body's own, are outside the macros' contract.
- Spawn.SpawnIsInlined: speaks of runs in which each call of the child, up to the one that ends it, returns within the loop budget.
- The driver of the bounded buffer is modelled as its loop of rounds with the producer called first; C leaves the order of the two calls open.
- CodeLock.SessionIsSafe: clock readings are unbounded integers, so the wrap-around of a 32-bit millisecond clock is not modelled; the simulated input thread is any sequence of key presses.
- Convd.Position.ReadNext: errors of the file system are not modelled; a file is a sequence of bytes with a position, and a read is short only at the end.
- ConvFile.ConvertFile: for line buffers of at most 5 bytes only one direction of the equivalence holds and is stated, because the error code can then be the length of a run. The reported size is that of the body, without the head, as in the code.
- ConvFile.ConvertUtf8File: the conversion library is a function on texts that distributes over well-formed pieces. Encodings whose trail bytes have bit 7 clear, converters with a shift state or a mark of their own, and the library itself are not part of this model.
- ConvLock.EveryRun: the lock is taken to exclude other threads, and nobody reconfigures the descriptor while it is in use (`convd_config`).
- XmlFile.ConvXmlFile: versions longer than their array are excluded by a precondition. For UCS files the result of the chunked conversion is that of `ConvFile.ConvertFile`, without a law of its own here. Failures to open or write files are not modelled.
- `convd_conv_xmltext`: its parts are modelled, its composition is not.
- XmlHead.Format: in single bytes the buffer holds at least the mark, or one byte, because the code writes these before it checks for room; both strings fit their arrays.
- XmlHead.SafeCopy: the buffer is not empty, because its last byte is written in any case.
- XmlParse.ParseHead: texts on which the scan does not end (127 characters without `>`, `src/convd/convd.c:255-264`) and versions longer than their array are excluded by preconditions.
- ReplaceSplit.CstrReplaceNew: an empty pattern, on which the counting loop of the code does not end, is excluded by a precondition.
- ReplaceSplit.CstrSplitSubstr: the length that the caller passes for the separator is taken to be its length, and both strings end at their first null character.
- CStrBuf.Buffer.Cat: formatted printing is given its text; a text that formats itself is not modelled, nor is running out of memory. A reallocation is a new array that holds the old contents.
- Timestamp.ParsePrint: `mktime` is a parameter that may fail; it fails, as in the code, when it returns -1. An output structure is always given.
- Calendar.GetLocaltimeSafe: fields are unbounded integers.
- RefCount.EveryRun: that the last release also clears the caller's pointer is not modelled, and the atomic operations are single steps.
- `cstr_split_multi_chrs`, `cstr_Rtrim_chr`, `difftime_msec`, the number parsers of `cstrbuf.h`, and the pairs of conversions in `bo.h` that the conversion code does not use.
- `example-small.c`, `lc-addrlabels.h`, the lock and atomics headers, logging, memory mapping, JNI and Java code: small instances of the same ideas, or platform plumbing.
