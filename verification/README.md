# A verified model of unreliablefs

unreliablefs is a FUSE file system that injects faults, configured at run time by an INI control file; its
tests include fsx, a random file-system exerciser. This project models the four parts where the logic is and
proves what they promise:

* **The INI parser** (`unreliablefs/conf.c`). `IniParser` is the parser as it is written: one 200-character
  buffer, cut up in place by writing NULs, with index "pointers". `IniReader` and `IniGrammar` say what a text
  means without any buffer: a list of chunks, one outcome per chunk, the handler calls and the result. The
  first is proved equal to the second for every text and handler. The other modules prove what follows:
  exact conditions under which a line (`IniLines`), a text of one pair (`IniPairText`) and a text of a header or a
  continuation with its pair (`IniShortTexts`) survive printing and parsing, composition at section boundaries and first-error reporting (`IniTheorems`), when exactly comments
  are transparent (`IniByteOrderMark`), the round trip of documents (`IniRoundTrip`), and, in literal characters
  and for every line there is, what the line means (`IniAnyLine`).
* **The fault engine** (`unreliablefs/unreliablefs_errinj.c`). `CHeap` and `FaultEngine` are the code over an
  explicit heap with allocation, `free` and pointers, so that freeing twice, reading freed memory and leaking
  can be stated. `FaultConfig` gives the queue of rules and, separately, the meaning of a list of handler calls
  without a queue; `FaultResolution` says what an operation's draws and rules decide; `ConfigRoundTrip` prints
  a queue as a control file and gets it back; `ControlFile` goes from the characters of a control file to the
  fate of the next request.
* **The operations** (`unreliablefs/unreliablefs_ops.c`). `UnreliableFs` has ten operations as written: inject
  first, then system calls on an arbitrary base file system with a descriptor table. `Dispatch` specifies them
  and proves that over whole runs a fault strikes before an operation or not at all. `Handles` says which file a
  handle reaches, when noops may have been injected into opens. `MapFs` is a concrete base file system, with
  what runs of renames, writes and reads do to its files.
* **The exerciser** (`unreliablefs/tests/fsx.c`). `Fsx` and `FsxLog` are the program as written, with its
  buffers and ring log updated in place; `FsxModel` is the same as a state machine, and `FsxMeaning` spells out
  which operation a draw stands for and what each operation logs, stores, sends to the file and checks. The file system under test
  is arbitrary: a set of functions that may answer anything. `FsxShadow` computes every byte of the file from
  the operation log alone; `FsxOracle` proves that the checks stop a run exactly when some reply differs from
  that. It also compares a run that only simulates a prefix with one that executes it: whatever the file system
  replies in either, they can only differ in where and how a check stops them. `PageMask` does the page arithmetic on bits.

## How the source is represented

* Text is `string`. A character stands for a byte; nothing depends on characters being below 256. `isspace` is
  that of the "C" locale. The control file is read with `fgets`, for which the repository's own
  `ini_reader_string` is the model; a text may contain NULs, and then a chunk means its part before the first.
* The handler of the parser is a function of all the calls it has had so far to a yes or no. So the theorems
  hold for every stateful handler, and `ParseStream` shows that no answer changes which calls are made.
  Loading a configuration performs the handler's changes to the queue after the parse, in call order.
* `rand()` and `random()` are infinite streams of naturals. Regular expression matching, the choice of an
  errno, whether FUSE knows the caller, and the base file system are arbitrary functions. A chosen errno is only
  assumed to be positive.
* The exerciser's file system may reply anything to `read`, to each byte of a mapping, to `fstat` and to
  `lseek`. An `Env` holds the replies of one run, so it covers file systems that remember earlier operations;
  theorems about two runs take one for each. The original data buffer is arbitrary. Option values are those
  `main` accepts, and where `test` passes an operation length to a truncation (style 1, not lite), operations are
  no longer than the file bound; lengths fit in 31 bits together, so that no 32-bit sum wraps.

Automatic induction is switched off throughout. `hide` statements keep definitions a proof does not need out of
it, which keeps the proofs quick.

## Where the documentation and the code differ

* unreliablefs.conf(5) says that a probability of 0 means a fault never happens. The code compares a draw from
  0 to 100 with `<=`, so a rule with probability 0 fires on one draw in 101. `ProbabilityZeroIsNotNever` gives
  the draw and the exact condition under which a rule of any probability stays silent.
* unreliablefs.conf(5) says that a slowdown lasts for the configured duration. The code puts it into `tv_nsec`
  alone, and `nanosleep` refuses a `tv_nsec` of a second or more: the limit is that of `nanosleep`, put into the
  model as `SleepEffect`. `LongSlowdownIsNone` shows that such a rule then does nothing.
* A noop injected into `open` is meant to leave things as they are, but its answer 0 hands out a handle with
  `fi->fh` at 0. `NoopReachesAnotherFile` is a run in which that handle reaches the file of another one, and its
  release takes the other's descriptor away; `HandlesInRuns` gives the exact condition.
* `logdump` numbers operations correctly only while the ring has not wrapped. `NumbersShown` says by how much the
  numbers are too high afterwards: never by less than a whole ring.
* conf.h names only `;` as starting a comment in its introduction; by its own default `#` does too, and the
  model follows the code.
* When the control file exists but cannot be opened, `config_init` drops the queue head it has just allocated.
  `ServeAndShutDown` says exactly how much is left on the heap: one head for every such load.

## Model

| member | source | states |
|---|---|---|
| IniReader.StringReader.CopyLine | unreliablefs/conf.c:275-282 | the loop stops after a newline, at 199 characters or at the end of the text, whichever comes first, and leaves the rest of the buffer alone |
| IniReader.StringReader.Read | unreliablefs/conf.c:265-288 | delivers exactly the next chunk with a NUL behind it, or reports the end and changes nothing |
| IniReader.ChunksConserve | unreliablefs/conf.c:265-288 | the chunks concatenate to the text, none is empty or longer than the limit, a newline is only ever last, and a chunk is cut short only by a newline |
| IniReader.ChunksUnique | unreliablefs/conf.c:265-288 | those properties leave one possible list of chunks |
| IniReader.FittingLinesAreChunks | unreliablefs/conf.c:265-288 | when every physical line fits in the buffer, the chunks are exactly the physical lines |
| IniReader.ChunksAppend | unreliablefs/conf.c:265-288 | text that ends a line is chunked the same whatever follows it |
| IniParser.RStrip | unreliablefs/conf.c:48-54 | in place: the C string becomes its right-trimmed self and nothing outside it changes |
| IniParser.LSkip | unreliablefs/conf.c:57-62 | the pointer returned points to the left-trimmed string |
| IniParser.FindCharsOrComment | unreliablefs/conf.c:67-82 | stops at the first wanted character or at the first ';' after whitespace |
| IniParser.StrNCpy0 | unreliablefs/conf.c:86-94 | the destination holds the source cut to fit, with a NUL, and keeps what it held behind that NUL |
| IniParser.TextStart | unreliablefs/conf.c:159-167 | byte order mark skipped on line 1 only, whitespace stripped, and the result is past the buffer start exactly for an indented or marked line |
| IniParser.HeaderInPlace | unreliablefs/conf.c:180-196 | the section buffer and the previous name follow the line grammar on a header line |
| IniParser.TrimValue | unreliablefs/conf.c:203-210 | cutting the inline comment and trimming in place leaves the value of the line and does not touch the name before it |
| IniParser.PairInPlace | unreliablefs/conf.c:197-228 | the handler call, with the untruncated name, and the 49-character previous name follow the line grammar on a pair line |
| IniParser.TextInPlace | unreliablefs/conf.c:169-228 | the in-place cascade comment, continuation, header, pair equals the line grammar |
| IniParser.Account | unreliablefs/conf.c:176-177 | handler called once per emitting line, error set only while it is 0 |
| IniParser.ParseStream | unreliablefs/conf.c:97-241 | for every text and every handler that may remember all its calls: the calls made and the number returned are those of the pure line grammar (spelled out in IniAnyLine) folded over the chunks |
| IniAnyLine.SpacesAreWhite | unreliablefs/conf.c:48-62 | whitespace is exactly space, tab, newline, vertical tab, form feed and carriage return |
| IniAnyLine.Layout | unreliablefs/conf.c:157-168 | every chunk is a byte order mark (on line 1), whitespace, a text that neither begins nor ends with whitespace, whitespace, and a NUL with anything behind it, each of them possibly missing |
| IniAnyLine.OnlyTextCounts | unreliablefs/conf.c:159-178 | laid out so, a line means what its text means, indented when a mark or whitespace stands before it |
| IniAnyLine.CommentForm | unreliablefs/conf.c:169-172 | an empty text and one that starts with ';' or '#' do nothing |
| IniAnyLine.ContinuationForm | unreliablefs/conf.c:173-178 | any other indented text, while there is a previous name, is a value of that name in full |
| IniAnyLine.IndentContinues | unreliablefs/conf.c:159-178 | so any indent of whitespace makes a visible line a continuation, whatever whitespace follows |
| IniAnyLine.HeaderForm | unreliablefs/conf.c:180-187 | otherwise a '[', a title without ']' and inline comment, and a ']' set the section to its first 49 characters and forget the previous name, whatever follows |
| IniAnyLine.BadHeaderForm | unreliablefs/conf.c:188-195 | a '[' without such a title is malformed |
| IniAnyLine.PairForm | unreliablefs/conf.c:197-216 | otherwise a name, '=' or ':', and a value, with any whitespace between them and any inline comment behind, give the call with the bare name and value; the first 49 characters become the previous name |
| IniAnyLine.PairShaped | unreliablefs/conf.c:197-216 | every text with a separator before any inline comment has that shape |
| IniAnyLine.NoPairForm | unreliablefs/conf.c:224-228 | a text without one is malformed |
| IniLines.HeaderRoundTrip | unreliablefs/conf.c:180-196 | a printed header gives back its title if and only if the title has at most 49 characters, no ']' and no ';' after whitespace |
| IniLines.ContinuationRoundTrip | unreliablefs/conf.c:173-178 | an indented line continues the previous name with its text if and only if that text is trimmed, not empty and does not start with a comment character |
| IniLines.PairRoundTrip | unreliablefs/conf.c:173-216 | a printed pair gives back its name and value in a given context if and only if both are well formed, the value not starting with ';', the name empty only while there is no previous name |
| IniPairText.PairTextRoundTrip | unreliablefs/conf.c:97-241 | a text of one printed pair makes exactly the one call with that name and value if and only if both are well formed, hold no NUL or newline, do not open with a byte order mark, and the line without trailing blanks has at most 199 characters |
| IniLines.SemicolonLost | unreliablefs/conf.c:205-207 | the failing case: a value that starts with ';' after the separator and a space is always lost |
| IniShortTexts.CallsOfTextClean | unreliablefs/conf.c:97-241 | whatever the text, the handler never sees a NUL or a newline, nor a section that no header line could say |
| IniShortTexts.SectionTextRoundTrip | unreliablefs/conf.c:180-216 | a text of one header and one pair makes exactly the one call with that section, name and value if and only if the title has at most 49 characters, no NUL, newline, ']' or ';' after whitespace, and the pair is well formed and fits |
| IniShortTexts.ContinuedTextRoundTrip | unreliablefs/conf.c:173-228 | a text of one pair and a continuation line makes exactly the two calls it stands for if and only if the pair comes back, its name has 1 to 49 characters, and the continuation is one trimmed line that is not a comment and fits |
| IniTheorems.ResultIsFirstBad | unreliablefs/conf.c:157-240 | the result is 0 exactly when no chunk is malformed and no call was answered 0, otherwise the number of the first such chunk |
| IniTheorems.SectionBoundary | unreliablefs/conf.c:112-240 | at a section boundary parsing composes: calls concatenate, and the first error is that of the first part, else that of the second shifted by the lines of the first |
| IniTheorems.HeaderResets | unreliablefs/conf.c:180-187 | a closed header in column 0 is parsed the same in every context |
| IniByteOrderMark.CommentTransparency | unreliablefs/conf.c:159-178 | inserting a blank or comment line at a line boundary changes no call and shifts only later error numbers, by one, for every handler; except exactly in front of a text that opens with a byte order mark and whose first line is well formed with the mark or without it |
| IniByteOrderMark.NotBeforeByteOrderMark | unreliablefs/conf.c:160-166 | for instance a pair line: below line 1 the mark becomes part of its name |
| IniRoundTrip.RoundTrip | unreliablefs/conf.c:97-241 | printing any well-formed document, with lines of up to 199 visible characters and options without a name before the first named one, and parsing it makes exactly its calls, with result 0 when the handler accepts them |
| FaultConfig.KindsInOrder | unreliablefs/unreliablefs_errinj.c:300-318 | exactly the fault types with a call are queued, in the order of their first calls |
| FaultConfig.KindsDistinct | unreliablefs/unreliablefs_errinj.c:300-318 | no fault type is queued twice |
| FaultConfig.LastValueIsLast | unreliablefs/unreliablefs_errinj.c:320-331 | an option has the value of the last call that sets it, and none when no call does |
| FaultConfig.OptionNames | unreliablefs/unreliablefs_errinj.c:320-335 | which field each of the four keys sets, numbers modulo 2^32, and that no other key sets any |
| FaultConfig.SectionNames | unreliablefs/unreliablefs_errinj.h:35-41 | which kind each of the four section names stands for, and that a new rule has no options |
| FaultConfig.HandlerAnswers | unreliablefs/unreliablefs_errinj.c:289-338 | -1 for any other section, 0 for any other key, else 1 |
| FaultConfig.QueueIsMeaning | unreliablefs/unreliablefs_errinj.c:289-338 | the queue built call by call is the queue-free meaning of the whole call list |
| FaultConfig.UnknownSectionIgnored | unreliablefs/unreliablefs_errinj.c:293-297 | a call for an unknown section can be removed from any position without changing the queue |
| FaultConfig.ConfigurationMeaning | unreliablefs/unreliablefs_errinj.c:254-338 | end to end, for any text: the queue is the meaning of its lines, and the parser reports exactly the first malformed line or unknown key of a known section |
| ConfigRoundTrip.AtoiOfDecimal | unreliablefs/unreliablefs_errinj.c:328-331 | reading a number inverts writing it in decimal |
| ConfigRoundTrip.AtoiReads | unreliablefs/unreliablefs_errinj.c:328-331 | whitespace before a number is skipped, a sign counts, and what follows the digits does not |
| ConfigRoundTrip.AtoiOfNothing | unreliablefs/unreliablefs_errinj.c:328-331 | text that does not start a number reads as 0 |
| ConfigRoundTrip.ConfigurationRoundTrip | unreliablefs/unreliablefs_errinj.c:254-338 | a queue of rules of distinct kinds, printed as a control file, is loaded as that very queue |
| ControlFile.PaddedOption | unreliablefs/conf.c:97-241 | a header and an option line, with any whitespace before the name, around the separator and behind the value, and any inline comment, make the one call with the bare name and value |
| ControlFile.PaddedOptionLoaded | unreliablefs/unreliablefs_errinj.c:254-338 | loading such a text gives one rule of the kind named with that option set |
| ControlFile.PrintedQueueDecides | unreliablefs/unreliablefs_errinj.c:165-287 | a request for the control path while the file holds a printed queue makes exactly that queue decide the next request |
| ControlFile.NoopFileDecides | unreliablefs/unreliablefs_errinj.c:165-338 | end to end from characters: after the text `[errinj_noop]`, `probability = p` with tabs has been loaded, a mkdir is answered 0 and not performed on exactly the draws whose remainder by 101 is at most p, and performed on all others |
| FaultResolution.LastTriggeredRuleWins | unreliablefs/unreliablefs_errinj.c:183-235 | the code is that of the last triggered noop or errno rule, 0 if none; kill and slowdown never change it |
| FaultResolution.OneRule | unreliablefs/unreliablefs_errinj.c:183-235 | a single rule, spelled out: it injects exactly when it is a noop or errno rule, the draw modulo 101 is at most its probability, and path and operation name match the patterns that are given; with which code, which effects and how many draws |
| FaultResolution.RuleInQueue | unreliablefs/unreliablefs_errinj.c:183-235 | the same for a rule at any position of a queue |
| FaultEngine.InjectExactly | unreliablefs/unreliablefs_errinj.c:165-240 | a request for the control path is answered 0 and leaves the rules the file means; any other is injected into exactly when some noop or errno rule strikes it, with the code of the last such rule |
| Dispatch.InjectedExactly | unreliablefs/unreliablefs_ops.c:144-432 | the same for each of the ten requests, with the path and the operation name it hands over |
| FaultResolution.DrawCount | unreliablefs/unreliablefs_errinj.c:184-222 | one draw per rule in queue order, plus one per triggered errno rule |
| FaultResolution.EffectsInOrder | unreliablefs/unreliablefs_errinj.c:208-234 | kills happen for exactly the triggered kill rules with a known caller and sleeps for exactly the triggered slowdown rules below a second, in queue order |
| FaultResolution.LongSlowdownIsNone | unreliablefs/unreliablefs_errinj.c:223-233 | a slowdown rule that always triggers sleeps for its duration when that is below 10^9, and has no effect at 10^9 or above |
| FaultResolution.FiringThresholds | unreliablefs/unreliablefs_errinj.c:160-190 | probability p fires on min(p, 100) + 1 of the 101 thresholds |
| FaultResolution.ProbabilityZeroIsNotNever | unreliablefs/unreliablefs.conf.5:54-56 | the documented "0 never fires" is false and "100 always fires" is true of 100 and above; a rule is silent exactly on draws whose remainder by 101 exceeds its probability |
| CHeap.Insert | unreliablefs/unreliablefs_errinj.c:307-318 | in the heap: a new rule extends the queue by a zeroed one and nothing else changes |
| CHeap.StoreString | unreliablefs/unreliablefs_errinj.c:320-327 | in the heap: freeing the old string and storing a copy changes one option of one rule, and ownership stays exact |
| CHeap.StoreNumbers | unreliablefs/unreliablefs_errinj.c:328-331 | in the heap: only the numbers of one rule change |
| CHeap.Remove | unreliablefs/unreliablefs_errinj.c:278-285 | in the heap: unlinking the first rule gives up exactly the cells it owns |
| FaultEngine.Engine.constructor | unreliablefs/unreliablefs.c:165-175 | the engine starts with the rules its control file means, and none without one |
| FaultEngine.Engine.TypeByName | unreliablefs/unreliablefs_errinj.c:242-252 | the index of the name, -1 if there is none |
| FaultEngine.Engine.FindOrInsert | unreliablefs/unreliablefs_errinj.c:298-318 | the first rule of the kind, or a zeroed new last one |
| FaultEngine.Engine.SetString | unreliablefs/unreliablefs_errinj.c:320-327 | one string option replaced, the old string freed, nothing else touched |
| FaultEngine.Engine.ConfOptionHandler | unreliablefs/unreliablefs_errinj.c:289-338 | the queue changes as specified, the result is -1, 0 or 1 as specified, and cells outside the queue are untouched |
| FaultEngine.Engine.DeleteFirst | unreliablefs/unreliablefs_errinj.c:278-285 | one rule and its strings leave the heap, each freed once |
| FaultEngine.Engine.ConfigDelete | unreliablefs/unreliablefs_errinj.c:272-287 | exactly the cells reachable from the queue leave the heap, each freed once |
| FaultEngine.Engine.ConfigInit | unreliablefs/unreliablefs_errinj.c:254-270 | a new queue holding exactly the rules that the lines of the file mean and sharing nothing with the heap before it; an empty one when there is no file; on a failed open NULL, and the new head is leaked |
| FaultEngine.Engine.Reload | unreliablefs/unreliablefs_errinj.c:174-178 | after a reload the rules are what the lines of the control file mean and everything on the heap is owned or leaked |
| FaultEngine.Engine.Turn | unreliablefs/unreliablefs_errinj.c:184-235 | one rule: its draws, whether it strikes (probability, path pattern, operation pattern), and then the code or the effect of its kind |
| FaultEngine.Engine.ResolveAll | unreliablefs/unreliablefs_errinj.c:183-235 | the loop over the rules computes the specified resolution |
| FaultEngine.Engine.ErrorInject | unreliablefs/unreliablefs_errinj.c:165-240 | answer and new state as specified (spelled out in InjectExactly), mutex released on every path, the control path answers 0 and loads what the file means, a leak exactly when a reload fails to open the file |
| FaultEngine.Engine.ServeAndShutDown | unreliablefs/unreliablefs_errinj.c:165-287 | over any run and shutdown: the answers are those of the specification and what is left on the heap is one head per failed load, so nothing exactly when none failed |
| Dispatch.AllOrNothing | unreliablefs/unreliablefs_ops.c:144-432 | after any run the file system, descriptors, handles and replies are those of the base file system run on the untouched requests alone; injected requests answer 0 or the code and change nothing |
| Dispatch.LastTouchConfigures | unreliablefs/unreliablefs_errinj.c:172-178 | the rules in force are those of the control file as it was just before the last request for it |
| Dispatch.LowestFree | unreliablefs/unreliablefs_ops.c:306-310 | a new descriptor is the lowest one not in use |
| Handles.HandlesInRuns | unreliablefs/unreliablefs_ops.c:297-432 | over any run that opens each handle once and uses it between open and release: reads and writes through a handle act on the file its open delivered exactly when nothing was injected into that open and, if it got descriptor 0, no other handle at 0 was released since; always, when no open was answered by a noop |
| Handles.HandleReaches | unreliablefs/unreliablefs_ops.c:297-432 | the same condition at every point of a run, for any pattern of injections |
| Handles.NoopReachesAnotherFile | unreliablefs/unreliablefs_ops.c:297-313 | the failing case: after a noop on its open a handle reads another handle's file, and its release closes it |
| MapFs.RenameMoves | unreliablefs/unreliablefs_ops.c:212-227 | on a concrete file system: after an untouched rename the new name holds what the old one held, the old one is gone and no other name changes; a missing name answers -ENOENT |
| MapFs.WriteRenameRead | unreliablefs/unreliablefs_ops.c:212-381 | what is written through a handle is read back through it after a rename, and through the new name without a handle |
| UnreliableFs.Fs.Mkdir | unreliablefs/unreliablefs_ops.c:144-159 | an injected noop (999) answers 0 and any other injected code itself, with nothing changed; otherwise the base file system did exactly mkdir(path, mode) and the answer is 0 or its negated errno; fault engine state included |
| UnreliableFs.Fs.Unlink | unreliablefs/unreliablefs_ops.c:161-176 | an injected noop (999) answers 0 and any other injected code itself, with nothing changed; otherwise the base file system did exactly unlink(path) and the answer is 0 or its negated errno; fault engine state included |
| UnreliableFs.Fs.Rename | unreliablefs/unreliablefs_ops.c:212-227 | an injected noop (999) answers 0 and any other injected code itself, with nothing changed; otherwise the base file system did exactly rename(path, newpath) and the answer is 0 or its negated errno; fault engine state included |
| UnreliableFs.Fs.Truncate | unreliablefs/unreliablefs_ops.c:280-295 | an injected noop (999) answers 0 and any other injected code itself, with nothing changed; otherwise the base file system did exactly truncate(path, length) and the answer is 0 or its negated errno; fault engine state included |
| UnreliableFs.Fs.Open | unreliablefs/unreliablefs_ops.c:297-313 | the same for open(path, flags); only when it succeeds does the handle get a descriptor, the lowest not in use |
| UnreliableFs.Fs.Create | unreliablefs/unreliablefs_ops.c:673-690 | the same for creat(path, flags, mode) |
| UnreliableFs.Fs.Read | unreliablefs/unreliablefs_ops.c:315-347 | the same for pread of size bytes at offset: on the file at the descriptor of the handle, -EBADF if there is none, or without a handle on the path opened O_RDONLY for just this call; the descriptor table stays as it was |
| UnreliableFs.Fs.Write | unreliablefs/unreliablefs_ops.c:349-381 | the same for pwrite of the data at offset, without a handle on the path opened O_WRONLY; the descriptor table stays as it was |
| UnreliableFs.Fs.Flush | unreliablefs/unreliablefs_ops.c:400-415 | close of a duplicate: 0 or EBADF, and neither the descriptor table nor the files change |
| UnreliableFs.Fs.Release | unreliablefs/unreliablefs_ops.c:417-432 | the same for release: the descriptor leaves the table, EBADF if it was not there |
| UnreliableFs.Fs.Run | unreliablefs/unreliablefs_ops.c:144-432 | the imperative operations, run on any request list, are explained by the base file system on the untouched requests |
| PageMask.MaskIsMod | unreliablefs/tests/fsx.c:1002-1003 | bitwise: & page_mask is the remainder by the page size and & ~page_mask rounds down |
| PageMask.BitsOf | unreliablefs/tests/fsx.c:1002-1003 | the two mask operations are & and & ~ on every single bit |
| PageMask.EofPage | unreliablefs/tests/fsx.c:507-530 | unless the access ends by the last page boundary, the addresses scanned are exactly those of the file offsets from file_size to the end of that page, inside the mapped pages |
| FsxModel.Decode | unreliablefs/tests/fsx.c:838-903 | every random choice yields an operation within the bounds of the buffers |
| FsxMeaning.DrawnOperation | unreliablefs/tests/fsx.c:842-870 | which draw stands for which of the five operations, under every combination of lite mode and mapped access |
| FsxMeaning.DrawnRange | unreliablefs/tests/fsx.c:871-896 | the offset and length drawn: writes anywhere in the buffer, reads inside the file, both cut to fit; and the size of a truncation |
| FsxMeaning.DrawsMade | unreliablefs/tests/fsx.c:842-896 | how many random numbers a call of test uses |
| FsxMeaning.FlagsDrawn | unreliablefs/tests/fsx.c:853-858 | the call is counted, and each flag is set exactly on draws below 2^28 over its probability |
| FsxModel.Execute | unreliablefs/tests/fsx.c:455-758 | every operation keeps the shadow within its buffer and asks the file only for ranges inside it |
| FsxMeaning.ExecuteMeans | unreliablefs/tests/fsx.c:455-758 | in literal terms, for each operation: the aligned range, exactly when it is skipped, the entry and marks it logs, every byte of the shadow image and the size after it, and what it asks of the file |
| FsxMeaning.TailIsClean | unreliablefs/tests/fsx.c:506-530 | check_eofpage passes exactly when the mapping, offset by offset, shows zeros from the end of the file to the end of its page, unless the access ends by the last page boundary |
| FsxMeaning.BytesShown | unreliablefs/tests/fsx.c:571-586 | a mapped read gets the wanted bytes exactly when the mapping shows each of them at its file offset |
| FsxShadow.NoWriterBeyondEnd | unreliablefs/tests/fsx.c:618-621 | offsets at or beyond the file size have no last writer in the log, so what re-appears there reads as zero |
| FsxShadow.WriteExplained | unreliablefs/tests/fsx.c:601-626 | a write, with its hole zeroed, keeps every byte below file_size what the log says |
| FsxShadow.TruncateExplained | unreliablefs/tests/fsx.c:728-744 | so does a truncation up or down |
| FsxShadow.ByteProvenance | unreliablefs/tests/fsx.c:590-598 | in every reachable state each byte below file_size is the number of the operation that last wrote it (plus the original byte at odd offsets), or 0, as computed from the log alone |
| FsxOracle.ChecksAreExact | unreliablefs/tests/fsx.c:376-530 | the checks of a real operation pass exactly when the replies equal what the log demands |
| FsxOracle.SuspectedOperation | unreliablefs/tests/fsx.c:389-409 | the bytes read at a mismatch lie in the buffers exactly when it is the last byte of neither, and the operation number printed is that of the last writer of the even offset it is taken from exactly when the bad byte is at an odd offset and that even one was read right |
| FsxOracle.TestIsExact | unreliablefs/tests/fsx.c:837-910 | one more call of test passes exactly when it is simulated or correctly answered, and the file keeps following the shadow |
| FsxOracle.CommandAnswered | unreliablefs/tests/fsx.c:837-910 | the replies to what an operation asks of the file are right exactly when those that its drawn command calls for are |
| FsxOracle.OracleIsExact | unreliablefs/tests/fsx.c:837-910 | soundness and completeness together: against any file system, a run of any length is unstopped exactly when every real operation was correctly answered; what must be answered follows from the command drawn and the size the log demands: every non-empty read inside the file is read back |
| FsxOracle.OracleSoundness | unreliablefs/tests/fsx.c:837-910 | on an ideal POSIX file no check of any run fails, and after every real operation the file is what the log demands |
| FsxOracle.PrefixSkipped | unreliablefs/tests/fsx.c:850-851 | whatever the file systems of the two runs reply: after a simulated prefix, writing the image out gives the whole state of the run that executed the prefix, exactly when no check stopped that run |
| FsxOracle.PassingRunsAgree | unreliablefs/tests/fsx.c:837-910 | whatever the file systems of the two runs reply: beyond the prefix, as long as the run that simulated it is not stopped, it is in the state of the one that executed it exactly when that one is not stopped either |
| FsxOracle.RunsPartAtChecks | unreliablefs/tests/fsx.c:837-910 | whatever the file systems of the two runs reply, stopped or not: beyond the prefix the two states are equal exactly when exit status, badoff and number of calls are |
| FsxOracle.ReplaySkip | unreliablefs/tests/fsx.c:837-910 | when the two runs get the same replies beyond the prefix, whatever they got during it: they agree in everything after every later operation, the failing one included, exactly when the executed prefix passed its checks |
| FsxOracle.ReplaySkipHonest | unreliablefs/tests/fsx.c:837-910 | on ideal file systems any prefix can be simulated instead of executed, in lite mode too |
| FsxOracle.OperationNumbers | unreliablefs/tests/fsx.c:853-910 | in every reachable state, a stopped run included, operation n of the log is the entry the n-th test call logged first, and is counted as number n |
| FsxOracle.EntryOfCall | unreliablefs/tests/fsx.c:853-910 | conversely: a log entry is an operation with n operations up to it exactly when call n logged it first |
| FsxLog.RingLog.DoLog4 | unreliablefs/tests/fsx.c:189-203 | the ring holds the last 1000 entries, entry j in slot j mod 1000, and logptr is logcount mod 1000 |
| FsxLog.RingLog.NumbersShown | unreliablefs/tests/fsx.c:217-233 | the number shown for an operation is its own exactly while the ring has not wrapped; afterwards it is too high by a stated amount, at least a whole ring |
| FsxLog.RingLog.LogDump | unreliablefs/tests/fsx.c:217-311 | visits the entries still in the ring oldest first; the numbers run from 1, or once the ring has wrapped from logcount + 1 |
| Fsx.Tester.constructor | unreliablefs/tests/fsx.c:1180-1216 | the state main sets up: zeroed buffers, an empty log, an empty file or in lite mode one of zeros, no failure |
| Fsx.Tester.Log4 | unreliablefs/tests/fsx.c:206-214 | one entry, then the marks of the two flags |
| Fsx.Tester.GenerateData | unreliablefs/tests/fsx.c:589-598 | exactly the given range is generated |
| Fsx.Tester.CheckBuffers | unreliablefs/tests/fsx.c:375-415 | stops exactly on a mismatch; n is the exact number of differing bytes, hence not 0, badoff the greatest differing offset, and for the least one the two bytes read from each buffer and the operation number printed, or that the read leaves the buffer |
| FsxModel.DifferencesCounted | unreliablefs/tests/fsx.c:388-405 | the n printed is the size of the set of differing positions |
| Fsx.Tester.CheckSize | unreliablefs/tests/fsx.c:418-436 | stops with 120 exactly when fstat or lseek disagrees with file_size |
| Fsx.Tester.CheckEofPage | unreliablefs/tests/fsx.c:506-530 | passes exactly when the mapping is zero from the end of the file to the end of its page, and never leaves the mapping |
| Fsx.Tester.DoRead | unreliablefs/tests/fsx.c:455-503 | in place: logs SKIPPED exactly when the read is empty or its aligned range leaves the file, else READ; a real read passes exactly when the reply is the shadow image of the range, else ends with 141 for a wrong length and 110 for wrong bytes |
| Fsx.Tester.DoMapRead | unreliablefs/tests/fsx.c:533-586 | the same for a mapped read: 205 exactly when the tail of the last page is not clean, else 110 exactly when the mapping does not show the shadow image of the range |
| Fsx.Tester.DoWrite | unreliablefs/tests/fsx.c:601-653 | in place: the entry logged with the old size, every byte of the shadow image with a hole zeroed, the file size, and the file with the new bytes at the aligned offset; 149 when a lite run would grow |
| Fsx.Tester.DoMapWrite | unreliablefs/tests/fsx.c:656-725 | the same through a mapping, the file extended first when it grows; 205 exactly when the tail of the last page is not clean, 200 when a lite run would grow |
| Fsx.Tester.DoTruncate | unreliablefs/tests/fsx.c:728-758 | in place: the aligned size and the old one logged, what is added zeroed, shadow size and file set to the aligned size |
| Fsx.Tester.WriteFileImage | unreliablefs/tests/fsx.c:761-784 | writes the image and truncates except in lite mode: the file becomes the shadow image below file_size |
| Fsx.Tester.Choose | unreliablefs/tests/fsx.c:842-896 | the random choices are those of the model, draw by draw |
| Fsx.Tester.Test | unreliablefs/tests/fsx.c:837-910 | one call takes the whole state, buffers and log included, where the state machine's step takes it |
| Fsx.Tester.ReportFailure | unreliablefs/tests/fsx.c:354-369 | the dump of a run: before the ring wraps, a line carries number n exactly when call n of test logged the entry it shows, the failed call included |
| Fsx.Tester.RunTests | unreliablefs/tests/fsx.c:1218-1219 | the whole loop: unstopped exactly when every real operation was correctly answered, never stopped on an ideal file system, and otherwise ended by that dump |

## Left out

- Allocation failure: `calloc` and `strdup` always succeed in the model, and `atoi` of a number outside `int`, whose behaviour section 7.22.1 of ISO/IEC 9899:2011 leaves undefined, is the mathematical number taken modulo 2^32.
- The errno tables and `op_random_errno`: a chosen errno is an arbitrary positive number, and nothing is claimed about the table index.
- Regular expressions: matching is an arbitrary relation between pattern and string, NULL matching everything.
- Signals, `nanosleep`, logging and printing: kills and sleeps are recorded as effects, a `kill` that is refused or a sleep that a signal interrupts is not told apart, other output is not modelled; the bytes `check_eofpage` prints beside a mismatch are not computed, nor what lies behind a buffer when `check_buffers` reads there.
- Concurrency of FUSE threads: the mutex is a flag that every path takes and releases; calls are served one at a time, and the operations' own system calls are not interleaved.
- The operations of `unreliablefs_ops.c` other than the ten modelled: they have the same shape, and the irregular ones (`getxattr`, `readlink`, `fallocate`, `fsyncdir`, locks, `ioctl`) would add nothing to the theorem about runs.
- Exhaustion of descriptors and failure of `dup` for want of one: the lowest free descriptor always exists.
- Heap-buffer, `realloc` and custom-allocator variants of the parser, and its other compile-time settings: compiled out by default.
- Failing `lseek`, `mmap`, `msync`, `munmap`, `ftruncate`, `write`, `close` and `open` in fsx: each ends the program at once; the model's file system performs them and lies only in what it lets be read.
- The effects of `doinvl` and `docloseopen` on the tested file: none on the model's file; their marks in the log are modelled.
- What `logdump` prints of an operation besides its number, `save_buffer` and the final `exit` of `report_failure`: output only.
- The command line, signal handling, `biggest` and the start-up reads of fsx: the model starts from the state `main` has set up.
- gRPC client and server, FUSE option parsing, build files and Python tests: input, output and process plumbing.
- IniRoundTrip.RoundTrip: states that well-formed documents survive; the converse is stated for texts of one pair (IniPairText.PairTextRoundTrip), of a header and a pair and of a pair and its continuation (IniShortTexts.SectionTextRoundTrip, IniShortTexts.ContinuedTextRoundTrip), since a malformed line of a document can be unobservable, as the title of a section without entries is.
