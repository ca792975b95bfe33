# Verified models of the commons library

This project models the parts of the commons library whose behaviour is hardest to see from the
code, and proves what they are for. Everything is plain Dafny; `dafny verify dfyconfig.toml`
checks the whole project. Nothing here executes the library.

- **The ERE engine** (`utils/compat/airy_regex*.c`). `RegexSyntax` and `RegexMeaning` say what a
  syntax tree matches; `RegexGrammar` says which texts spell which tree. `RegexParse`,
  `RegexCompile` and `RegexEngine` are the parser, the compiler and the backtracking executor as
  they work: a moving cursor, an instruction list patched in place, a recursive search with a
  depth cap. `RegexProgram`, `RegexEncoding` and `RegexLinear` connect programs to trees,
  `RegexDepth` does so for the depth cap and `RegexCost` bounds it from tree and text length,
  `RegexBalance` says when the parser gives up text, `RegexPriority` which of several matches is
  reported, `RegexCaptures` what a reported span is, and `RegexApi` goes from the text of a pattern to
  the answer about a string. `RegexPatterns` says what families of patterns match, from their bytes.
- **Event numbers across processes** (`utils/hall/hall_event.c`). `HallGseq` is the reservation
  protocol as a state machine with any number of processes, interleavings and crashes, and
  `HallGseqDense` says that without crashes it skips no number and always gets out of the lock;
  `HallWatermark` is the code of one process, tied to that machine; `HallEvents` is the naming and
  chaining of event files.
- **Indexes that must agree with something simple.** `CacheSpec` and `Cache` (the LRU/TTL cache,
  on the heap, against a list in order of use); `HashIndex` (open addressing with tombstones
  against a finite map).
- **Small concurrent protocols of the Windows branches.** `ThreadContext` (who frees a thread's
  context), `RwLock` (the sign-dispatched lock), `NarrowAtomics` and `NarrowAtomicRuns` (byte and
  half-word atomics inside a 32-bit word), `NarrowAtomicValues` (the same runs in integer arithmetic).
- **Data and arithmetic.** `Crc`, `ImeFormat`, `ImeWriter`, `ImeQuery` (the pinyin dictionary from
  writer to query), `YamlTree` and `YamlStore` (mapping buffers, deep copies, `<<` merges),
  `CivilTime` (Gregorian day count), `Bits` and `Ids` (splitmix64 trace ids and their names),
  `CheckpointNames`, `CheckpointJson`, `Decimal`, `Sorting`, `Options`.

Clocks, allocation outcomes that matter, directory listings, file contents and seeds are
parameters. The lock file is mutual exclusion and a rename is atomic. C integers are naturals or
integers with the reduction written out where a width matters.

## What the code does not do

Where a promise fails, the model keeps the code and the project proves exactly when it holds.

- A group 0 span is never written: `regexec` reports (0, 0) for the whole match, and the other
  offsets count from the start of the attempt (`RegexEngine.FirstMatchCaptures`).
- A concatenation of more than 256 nodes is cut without an error (`RegexPatterns.LongPatternLosesTail`);
  the compiler sees the whole tree exactly when every list fits (`RegexSyntax.UncutIffShort`).
- The parser can give up text without an error: `(x(||y)` is accepted as `(|y)`
  (`RegexGrammar.BarsHideText`), and a closing parenthesis that closes nothing ends the pattern
  (`RegexGrammar.ParenthesisEndsPattern`). The text decides both: a pattern that parses loses nothing
  exactly when, up to that parenthesis or the end, no `(` stands before `)` or the end and no `|`
  before `|`, `)` or the end, outside escapes and classes (`RegexBalance.LostIffGap`); the whole
  pattern is read exactly when besides every `)` closes a group (`RegexBalance.WholeIffNoGap`).
- A search can end with -1 instead of an answer: exactly when, at the first start not ruled out, the
  expression gets to make 4096 choices before its first match (`RegexEngine.AttemptOverflowsIff`). It
  never does if the choices counted from the tree stay below that, where unbounded repeats must take a
  byte a round and add the length of the string (`RegexEngine.CheapNeverOverflows`).
- Task and category names may contain dots, but such event names are not read back, so numbering
  starts again (`HallEvents.NameReadBack`).
- If the watermark file is lost, a number can be handed out twice exactly when some number above all
  those on disk is issued or held at that moment (`HallGseq.LossRepeatsIff`).
- A comment promises that a damaged watermark is never used; the code refuses a text exactly when no
  digit follows its leading blanks (`HallWatermark.LoadsIff`). A number cut short loads as a smaller one
  (`HallWatermark.TornMarkLoads`), and `0x` loads as 0 (`HallWatermark.DamagedMarkIsZero`).
- Detaching the null handle is safe exactly when no context is being created
  (`ThreadContext.StepKeepsInv`, `ThreadContext.NullDetachTouchesFreed`). With 2^31 readers an unlock
  takes the wrong branch (`RwLock.TooManyReadersMisdispatch`).
- The dictionary's checksum does not cover the entry count and the pool offset
  (`ImeFormat.OneByteDamage`, `ImeFormat.SmallerCountLoads`).
- A comment in the dictionary query promises that candidates of equal frequency keep their order; the
  code orders them by text (`ImeQuery.TiesAreReordered`). The promise is kept exactly when they were
  found in the order of their texts (`ImeQuery.KeepsTiesIff`).
- An entry written after a `<<` that supplies the same key stays shadowed
  (`YamlTree.EntryOverridesIff`).
- A trace id can be the null id, exactly when the generator's state becomes zero
  (`Ids.NullIdIffZeroState`); after that ids repeat whenever the seed does (`Ids.ReseedsAgreeIff`,
  `Ids.ReseedRepeats`).
- Escaped text is not always JSON: a control character other than line feed, carriage return and tab is
  written as it is, and nothing else is wrong (`CheckpointJson.ControlFreeIff`,
  `CheckpointJson.EscapeIsBody`). Escapes the writer does not use are not decoded
  (`CheckpointJson.UnknownEscape`).
- A name printed into a buffer that is too short does not parse back (`Ids.TraceRoundTrip`).

## Model

| member | source | states |
|---|---|---|
| `RegexGrammar.ParseIffSpelled` | utils/compat/airy_regex_parse.c:278-321 | the parser reads a tree from the front of a pattern, giving up no text, if and only if that front spells the tree and ends with the pattern or before a closing parenthesis; group numbers and end position included |
| `RegexGrammar.AltSound` | utils/compat/airy_regex_parse.c:303-321 | at every position and group count: what was parsed without giving up text is spelled by the text consumed |
| `RegexGrammar.AltComplete` | utils/compat/airy_regex_parse.c:303-321 | whatever a text spells is parsed, to that tree and no other |
| `RegexGrammar.ConcatComplete` | utils/compat/airy_regex_parse.c:278-301 | every spelled concatenation is parsed, although pieces are not delimited |
| `RegexGrammar.AtomComplete` | utils/compat/airy_regex_parse.c:95-190 | every spelled atom is parsed, with groups numbered in order of their opening parenthesis |
| `RegexGrammar.QuantifierSound` | utils/compat/airy_regex_parse.c:193-275 | an accepted quantifier is spelled by its text, with bounds ordered and at most 256 |
| `RegexGrammar.QuantifierComplete` | utils/compat/airy_regex_parse.c:193-275 | every spelled quantifier is accepted with its bounds and greediness |
| `RegexText.NumberIffSpelled` | utils/compat/airy_regex_parse.c:193-203 | a bound is the number its digits write in positional notation, at least one digit and nothing but digits |
| `RegexGrammar.BarsHideText` | utils/compat/airy_regex_parse.c:104-126 | the counterexample: an inner group that starts with two bars swallows what stands before it |
| `RegexGrammar.ParenthesisEndsPattern` | utils/compat/airy_regex_parse.c:282-285 | the counterexample `a)b` |
| `RegexBalance.LostIffUnbalanced` | utils/compat/airy_regex_parse.c:104-126 | in an accepted pattern the groups are the opening parentheses read outside escapes and classes, and text was given up if and only if they outnumber the closing ones |
| `RegexBalance.LostIffGap` | utils/compat/airy_regex_parse.c:104-126 | a pattern that parses gives up text if and only if its text has a gap before its end: an opening parenthesis in front of a closing one or the end, or a bar in front of a bar, a closing parenthesis or the end; without one it is read up to its end |
| `RegexBalance.SpelledIffBalanced` | utils/compat/airy_regex_parse.c:278-321 | the part read spells the tree if and only if it is balanced, and if and only if the pattern has no gap before its end |
| `RegexBalance.WholeIffNoGap` | utils/compat/airy_regex_parse.c:278-321 | the whole pattern spells the tree if and only if it has no gap and every closing parenthesis closes a group |
| `RegexText.SetItemsHas` | utils/compat/airy_regex_parse.c:48-83 | a class bitmap holds exactly the bytes its items and ranges cover |
| `RegexText.ComplementHas` | utils/compat/airy_regex_parse.c:88-91 | a negated class holds exactly the other bytes |
| `RegexText.ItemIffMember` | utils/compat/airy_regex_parse.c:48-83 | one turn of the class loop reads a member if and only if the text spells it: an escape, a range of bytes in order, or a byte |
| `RegexText.ItemsSound` | utils/compat/airy_regex_parse.c:48-93 | the members read are those the text up to the closing bracket spells, in order |
| `RegexText.ItemsComplete` | utils/compat/airy_regex_parse.c:48-93 | every spelled class body is read, to those members and no others |
| `RegexText.SpellsClassAt` | utils/compat/airy_regex_parse.c:129-142 | a text that spells members makes the parser build the bitmap of exactly the bytes they cover, or of exactly the others after a caret |
| `RegexParse.Parser.ClassBody` | utils/compat/airy_regex_parse.c:48-93 | the loop succeeds if and only if the text spells a class body, stops behind its bracket and builds the bitmap of the bytes its members cover, or of the others |
| `RegexParse.Parser.Digits` | utils/compat/airy_regex_parse.c:193-203 | consumes the longest run of digits and returns its value, or -1 |
| `RegexParse.Parser.ParseBounds` | utils/compat/airy_regex_parse.c:206-227 | accepts exactly `n}`, `n,}` and `n,m}` |
| `RegexParse.Parser.ParseRepeat` | utils/compat/airy_regex_parse.c:243-275 | applies the quantifier that follows, if any |
| `RegexParse.Parser.ParseAtom` | utils/compat/airy_regex_parse.c:155-190 | cursor, group count, error flag and result are those of the grammar's atom |
| `RegexParse.Parser.ParseGroup` | utils/compat/airy_regex_parse.c:104-126 | numbers the group, at most nine, and closes it |
| `RegexParse.Parser.ParseConcat` | utils/compat/airy_regex_parse.c:278-301 | the list-building loop computes the grammar's concatenation |
| `RegexParse.Parser.ParseAlt` | utils/compat/airy_regex_parse.c:303-321 | the branch loop computes the grammar's alternation |
| `RegexSyntax.UncutIffShort` | utils/compat/airy_regex_compile.c:80-83 | the compiler sees the whole tree if and only if no list is longer than 256 |
| `RegexMeaning.MatchIffDerived` | utils/compat/airy_regex.c:63-149 | a span matches if and only if some sequence of branch choices derives it |
| `RegexMeaning.DeriveSound` | utils/compat/airy_regex.c:63-149 | what a sequence of choices derives is a match |
| `RegexMeaning.DeriveComplete` | utils/compat/airy_regex.c:63-149 | every match is derived by some choices, whatever the captures before |
| `RegexPriority.LeftFirst` | utils/compat/airy_regex_compile.c:227-241 | the reported match of an alternation is the left branch's if that matches at all there, else the right branch's |
| `RegexPriority.RepeatEnds` | utils/compat/airy_regex_compile.c:96-166 | the reported match of a repeated byte, dot or class takes as many bytes as the row of fitting bytes and the upper bound allow, and as few as the lower bound allows if it is lazy |
| `RegexCaptures.CapturesMatch` | utils/compat/airy_regex.c:115-118 | a reported span of a group is (0, 0) or text that the body of that group matches |
| `RegexCaptures.WholeGroup` | utils/compat/airy_regex.c:115-118 | a group around the whole expression reports the whole match |
| `RegexCaptures.AltNumbers` | utils/compat/airy_regex_parse.c:104-126 | in the tree of every spelled pattern no group contains a group of its own number, and the numbers are those handed out |
| `RegexProgram.ExploreAccepts` | utils/compat/airy_regex.c:120-138 | an accepting search reports end and captures of the first accepting path in SPLIT order, nothing from abandoned branches |
| `RegexProgram.ExploreFails` | utils/compat/airy_regex.c:120-138 | failure without overflow rules out every path |
| `RegexProgram.ExploreOverflows` | utils/compat/airy_regex.c:58-62 | an overflow comes from a live path with as many SPLITs as calls were left, before any accepting path |
| `RegexProgram.LongPathOverflows` | utils/compat/airy_regex.c:58-62 | such a path always overflows, so the condition is exact |
| `RegexProgram.AcceptedComparable` | utils/compat/airy_regex.c:120-138 | accepting paths are totally ordered, so the first is unique |
| `RegexEncoding.EncodedFollows` | utils/compat/airy_regex_compile.c:170-248 | a program that encodes a node behaves on every input and every choice sequence like the node followed by its continuation |
| `RegexEncoding.EncodedListFollows` | utils/compat/airy_regex_compile.c:77-91 | the same for a concatenation |
| `RegexEncoding.EncodedLoopFollows` | utils/compat/airy_regex_compile.c:120-137 | the SPLIT loop behaves like the unbounded repeat, greedy or not, empty bodies included |
| `RegexEncoding.EncodedOptionalFollows` | utils/compat/airy_regex_compile.c:138-156 | the chain of optional copies behaves like the bounded repeat |
| `RegexDepth.EncodedLives` | utils/compat/airy_regex_compile.c:170-248 | a program that encodes a node reaches a SPLIT for every choice exactly when a derivation of the node, or what follows it, makes those choices |
| `RegexDepth.AliveIffSpent` | utils/compat/airy_regex.c:120-138 | for a whole expression: the program lives as long as the expression does |
| `RegexCost.CostListBounds` | utils/compat/airy_regex_compile.c:96-166 | an expression makes at most the choices counted from its tree and, with unbounded repeats whose bodies take a byte a round, one more for every byte left |
| `RegexCost.MatchForward` | utils/compat/airy_regex.c:63-149 | a match stays inside the string and goes forward, by at least a byte where the tree says so |
| `RegexEncoding.ExtendsKeeps` | utils/compat/airy_regex_compile.c:19-34 | code emitted later leaves earlier encodings intact |
| `RegexLinear.CodeEncodes` | utils/compat/airy_regex_compile.c:36-71 | a cloned chain with its tail redirected encodes the same node with a new continuation |
| `RegexLinear.BranchFound` | utils/compat/airy_regex_compile.c:107-116 | walking the chain of a branching body does meet a second link, so the check rejects it |
| `RegexCompile.Compiler.CloneLinear` | utils/compat/airy_regex_compile.c:36-56 | appends a copy of the chain and nothing else |
| `RegexCompile.Compiler.ChainTail` | utils/compat/airy_regex_compile.c:58-71 | redirects the end of the chain |
| `RegexCompile.Compiler.CompileClass` | utils/compat/airy_regex_compile.c:194-209 | the class index is in range and denotes the class |
| `RegexCompile.Compiler.CompileGroup` | utils/compat/airy_regex_compile.c:210-226 | save slots are in range; the result encodes the group |
| `RegexCompile.Compiler.CompileAlt` | utils/compat/airy_regex_compile.c:227-241 | the result encodes the alternation |
| `RegexCompile.Compiler.CompileRepeat` | utils/compat/airy_regex_compile.c:96-166 | the result encodes the repeat, or the body branches or vanishes and compilation fails |
| `RegexCompile.Compiler.CompileOne` | utils/compat/airy_regex_compile.c:170-248 | a result exists if and only if the node compiles, and encodes it; every cycle passes through a SPLIT |
| `RegexCompile.Compiler.CompileSeq` | utils/compat/airy_regex_compile.c:77-91 | the same for a list, as far as the 256-node buffer reaches |
| `RegexEngine.Vm.Run` | utils/compat/airy_regex.c:56-150 | the executor ends on every program and string, returns the verdict of the capped search with the captures of the accepted path, and restores the depth on every failing return |
| `RegexEngine.AttemptAccepts` | utils/compat/airy_regex.c:247-262 | an accepting attempt reports the first derivation of the expression |
| `RegexEngine.AttemptFails` | utils/compat/airy_regex.c:262-268 | an attempt that fails without overflow means nothing matches there |
| `RegexEngine.AttemptOverflowsIff` | utils/compat/airy_regex.c:58-62 | an attempt overflows if and only if the expression gets to make 4096 choices before its first derivation |
| `RegexEngine.CheapNeverOverflows` | utils/compat/airy_regex.c:58-62 | an expression that makes fewer choices, counting the length of the string for unbounded repeats that move forward, never overflows |
| `RegexEngine.FirstMatchCaptures` | utils/compat/airy_regex.c:115-118 | captures are spans inside the match; group 0 is (0, 0) |
| `RegexEngine.Report` | utils/compat/airy_regex.c:254-260 | copies at most ten spans and touches no others |
| `RegexEngine.Regexec` | utils/compat/airy_regex.c:236-269 | 0 with the leftmost match and its captures, REG_NOMATCH when no start matches or overflows, or -1 at the first start that overflows |
| `RegexApi.Regcomp` | utils/compat/airy_regex.c:173-234 | a pattern compiles if and only if flags, parse and compilation allow it; the program encodes the tree |
| `RegexApi.Search` | utils/compat/airy_regex.c:173-269 | any pattern that spells a compilable tree with short lists is accepted, and searching gives the meaning of the tree: leftmost match, no match, or -1 exactly at the first start that overflows; every reported group span is (0, 0) or matched by that group's body; a tree that is cheap for the length of the string is always decided |
| `RegexPatterns.PlainPattern` | utils/compat/airy_regex_parse.c:155-190 | a pattern of ordinary bytes matches exactly its own bytes |
| `RegexPatterns.AnchoredPattern` | utils/compat/airy_regex.c:98-113 | between `^` and `$` it matches exactly the string that equals it, whole |
| `RegexPatterns.RangePattern` | utils/compat/airy_regex_parse.c:48-93 | `[x-y]` matches exactly the bytes from x to y |
| `RegexPatterns.DotAndEscape` | utils/compat/airy_regex_parse.c:155-190 | `.` matches any byte, a backslash and a byte match that byte |
| `RegexPatterns.MarkedPattern` | utils/compat/airy_regex_parse.c:243-275 | `*`, `+` and `?` after a byte match any number, at least one and at most one of it |
| `RegexPatterns.IntervalPattern` | utils/compat/airy_regex_parse.c:206-227 | `{a,b}` after a byte matches from a to b of it, for one-digit bounds |
| `RegexPatterns.EitherPattern` | utils/compat/airy_regex_parse.c:303-321 | two bytes with a bar between them in parentheses are group 1 and match exactly those bytes |
| `RegexPatterns.DanglingMark` | utils/compat/airy_regex_parse.c:155-190 | a quantifier or a brace with nothing before it is an error |
| `RegexPatterns.LongPatternLosesTail` | utils/compat/airy_regex_compile.c:80-83 | every pattern of more than 256 ordinary bytes is accepted, is compiled as its first 256, and so matches those although the pattern itself does not |
| `HallGseq.NumbersAreUnique` | utils/hall/hall_event.c:301-356 | over every run of the protocol no number is handed out twice, each process's numbers increase, and all exceed the events the scan reads before there is a watermark |
| `HallGseq.ReservationsExclude` | utils/hall/hall_event.c:301-321 | two processes are never inside the reservation together |
| `HallGseq.StepKeepsInv` | utils/hall/hall_event.c:301-356 | the invariant survives every step, crashes included |
| `HallGseq.CallRuns` | utils/hall/hall_event.c:348-356 | an undisturbed call is a run of the protocol |
| `HallGseqDense.NoNumberSkipped` | utils/hall/hall_event.c:301-356 | after any run without a crash the numbers handed out or held are exactly those from the largest on disk up to as many blocks as were stored |
| `HallGseqDense.ReservationEnds` | utils/hall/hall_event.c:301-321 | from every reachable state a process inside the reservation gets out by its own steps, with the mark stored, the lock free and nothing issued |
| `HallGseq.LossRepeatsIff` | utils/hall/hall_event.c:309-314 | in every state that keeps the invariant, losing the watermark lets some continuation hand out a number twice if and only if a number above all those on disk is issued or held |
| `HallGseq.LostWatermarkRepeats` | utils/hall/hall_event.c:309-314 | the continuation: a new process reserves from the scan and reaches that number again |
| `HallWatermark.LoadMark` | utils/hall/hall_event.c:261-279 | the loops read the positional value, modulo 2^64, of the digits that follow the leading blanks up to the first other character, or report a missing watermark |
| `HallWatermark.LoadsNumber` | utils/hall/hall_event.c:184-196 | the number loaded is the one that stands first in the text after spaces, tabs, line feeds and carriage returns |
| `HallWatermark.LoadsIff` | utils/hall/hall_event.c:184-196 | a text is refused if and only if no character from 0 to 9 follows its leading spaces, tabs, line feeds and carriage returns |
| `HallWatermark.TornMarkLoads` | utils/hall/hall_event.c:184-196 | every stored number cut short loads as a smaller number |
| `HallWatermark.DamagedMarkIsZero` | utils/hall/hall_event.c:184-196 | a damaged text that loads as 0 |
| `HallWatermark.StoreThenLoad` | utils/hall/hall_event.c:261-291 | what is stored is loaded, for every 64-bit value |
| `HallWatermark.Allocator.Reserve` | utils/hall/hall_event.c:301-321 | returns the larger of the floor and the mark, or the scan where there is no mark or no lock, and leaves the mark a block above it, in 64 bits; without the lock file, the floor; without the lock or a successful store, the mark unchanged |
| `HallWatermark.Allocator.NextGseq` | utils/hall/hall_event.c:348-356 | what a call returns and leaves behind, in 64 bits, whether or not it gets the lock, always above the last number below 2^64; when it gets the lock and the numbers stay below 2^64 it takes the protocol from one state to the next, whatever the other processes hold |
| `HallEvents.ParseIffName` | utils/hall/hall_event.c:119-145 | the parser accepts exactly the names of the format and returns their components |
| `HallEvents.Parse` | utils/hall/hall_event.c:119-145 | the dot scan computes that parse |
| `HallEvents.NameTextIs` | utils/hall/hall_event.c:109-117 | the text of a name: the four fields, the number on at least four digits, the ending |
| `HallEvents.EventSeq` | utils/hall/hall_event.c:147-160 | the positional value, modulo 2^64, of the number in a name of the format, and 0 for every other file name |
| `HallEvents.SeqOfIs` | utils/hall/hall_event.c:147-160 | whatever the five components of a name are, its number is the last one if that is decimal; without such components there is none |
| `HallEvents.NameReadBack` | utils/hall/hall_event.c:110-160 | a written name is read back with its number exactly when task and category have no dot |
| `HallEvents.DirScan` | utils/hall/hall_event.c:360-381 | one more than the largest number, and the file that has it; with larger numbers what the 32-bit scan computes |
| `HallEvents.ScanContinues` | utils/hall/hall_event.c:360-381 | in a directory holding a chain the scan finds its last event |
| `HallEvents.EventDir.Write` | utils/hall/hall_event.c:452-481 | successful writes leave events numbered 1 to n, each naming its predecessor; a name too long changes nothing |
| `HashIndex.Hash` | utils/ds/hindex.c:21-30 | the hash loop computes the polynomial in 33 of the key's characters, modulo the word |
| `HashIndex.HashIsPolynomial` | utils/ds/hindex.c:21-30 | wrapping at every step and wrapping once at the end are the same |
| `HashIndex.Placed` | utils/ds/hindex.c:96-100 | a key put at the first EMPTY slot of its probe path keeps every other key reachable |
| `HashIndex.Buried` | utils/ds/hindex.c:157-173 | a tombstone removes one key and cuts no probe path |
| `HashIndex.NotBeyond` | utils/ds/hindex.c:32-45 | a probe that meets an EMPTY slot has passed every place the key could be |
| `HashIndex.RoomLeft` | utils/ds/hindex.c:126-142 | a table that is not full has an EMPTY slot |
| `HashIndex.Index.Scan` | utils/ds/hindex.c:32-45 | finds a key if and only if the map has it |
| `HashIndex.Index.Pack` | utils/ds/hindex.c:80-106 | compaction keeps the map and drops every tombstone |
| `HashIndex.Index.Put` | utils/ds/hindex.c:108-144 | map update; with allocation succeeding it fails exactly for a new key with live keys times 4 at least cap times 3, losing nothing |
| `HashIndex.Index.Get` | utils/ds/hindex.c:146-155 | map lookup |
| `HashIndex.Index.Delete` | utils/ds/hindex.c:157-173 | map removal |
| `CacheSpec.RunSound` | utils/cache/cache_common.c:285-447 | over every operation sequence keys stay distinct, size stays within capacity, hits plus misses count the lookups, and the hits are the lookups that found something |
| `CacheSpec.CachedIsLastStored` | utils/cache/cache_common.c:285-356 | whatever is cached carries the value and the time of the last store under its key, and was not deleted since |
| `CacheSpec.LookupIff` | utils/cache/cache_common.c:285-319 | a lookup finds something if and only if an item with the key is there and no lifetime is set or no more than it has passed since the store |
| `CacheSpec.HitIsFresh` | utils/cache/cache_common.c:285-319 | in every run from an empty cache, a hit comes no later than the lifetime after the last store under its key, and no lookup of the key since then missed |
| `CacheSpec.UsedIsFound` | utils/cache/cache_common.c:285-356 | the converse: in every run a key stored or found before is found again, if in between fewer other keys than the capacity were used, nothing was cleared or resized, and the lifetime has not passed since its last store |
| `CacheSpec.HitIsLastStored` | utils/cache/cache_common.c:285-356 | in every run from an empty cache, each lookup that hits returns what was stored last under its key before it |
| `CacheSpec.RecentlyUsedStays` | utils/cache/cache_common.c:208-219 | an item stays cached while fewer other keys than the capacity are used: only the least recently used goes |
| `Cache.LruCache.LruRemove` | utils/cache/cache_common.c:137-152 | unlinks one entry, the order of the others kept |
| `Cache.LruCache.MoveToHead` | utils/cache/cache_common.c:154-170 | moves one entry to the front |
| `Cache.LruCache.BucketFind` | utils/cache/cache_common.c:172-180 | finds the entry with the key in the chain, or none has it |
| `Cache.LruCache.BucketUnlink` | utils/cache/cache_common.c:182-198 | takes one entry out of its chain, other chains untouched |
| `Cache.LruCache.EntryReap` | utils/cache/cache_common.c:200-206 | takes an entry out of both containers |
| `Cache.LruCache.EvictLru` | utils/cache/cache_common.c:208-219 | removes exactly the last of the list |
| `Cache.LruCache.Get` | utils/cache/cache_common.c:285-319 | refines the list lookup, with expiry, move to front and statistics |
| `Cache.LruCache.Put` | utils/cache/cache_common.c:321-364 | refines the list update, deletion and eviction |
| `Cache.LruCache.SetCapacity` | utils/cache/cache_common.c:433-447 | keeps the most recently used items |
| `Cache.LruCache.Clear` | utils/cache/cache_common.c:252-267 | frees every entry once and empties both containers |
| `Cache.LruCache.SetTtl` | utils/cache/cache_common.c:464-475 | changes the lifetime and nothing else |
| `Cache.LruCache.PerformAll` | utils/cache/cache_common.c:285-475 | any sequence of operations leaves contents, capacity, lifetime and statistics where the list specification says and returns its answers; from an empty cache every hit is the value stored last, within the lifetime |
| `ThreadContext.ContextsFreedOnce` | platform/src/platform_sync.c:52-175 | in every interleaving no context is touched after being freed or freed twice, finished ones are freed once, and a join returns what the thread produced |
| `ThreadContext.StepKeepsInv` | platform/src/platform_sync.c:44-175 | the ownership invariant survives every step of creators, threads, joiners and detachers |
| `ThreadContext.ReclaimRetriesOnce` | platform/src/platform_sync.c:86-104 | the compare-exchange loop goes round again only because the thread has just finished |
| `ThreadContext.AlwaysFinishes` | platform/src/platform_sync.c:52-175 | from every state that keeps the invariant a context whose join or detach was called is finished and freed once by a bounded number of steps of its own thread and caller alone |
| `ThreadContext.NullDetachTouchesFreed` | platform/src/platform_sync.c:52-67 | in every state that keeps the invariant and has a creation in flight, detaching the null handle can be continued to a write to freed memory, so the condition of StepKeepsInv is exact |
| `RwLock.ReleasesMatch` | platform/src/platform_sync.c:626-687 | in every interleaving a release matches how its thread acquired, and writers exclude everyone |
| `RwLock.StepKeepsInv` | platform/src/platform_sync.c:626-687 | lock and state word stay consistent although they change at different moments |
| `RwLock.AlwaysLeaves` | platform/src/platform_sync.c:626-687 | a thread that holds the lock gets out by a fixed number of its own steps, every other thread where it was |
| `RwLock.GetsInIff` | platform/src/platform_sync.c:626-662 | a reader can enter if and only if no thread holds the lock as writer, a writer if and only if none holds it at all |
| `RwLock.TooManyReadersMisdispatch` | platform/src/platform_sync.c:679-686 | the bound on readers is exact |
| `NarrowAtomics.PutIsLocal` | utils/include/atomic_compat_platform.h:176-190 | storing a byte or half-word reads back modulo its width and leaves the neighbours |
| `NarrowAtomicRuns.Linearizable` | utils/include/atomic_compat_platform.h:176-354 | every run has one legal history of atomic operations, each completed operation inside its own interval with its own result |
| `NarrowAtomicRuns.FieldsAreIndependent` | utils/include/atomic_compat_platform.h:176-354 | in a legal history each field is an atomic variable of its own |
| `NarrowAtomicValues.RunInNumbers` | utils/include/atomic_compat_platform.h:176-354 | over every run the words between the completed operations do in integer arithmetic what each operation says: sums and differences modulo the width, comparison of the expected value modulo the width, the old value returned, every disjoint field unchanged |
| `NarrowAtomicValues.GetNumber` | utils/include/atomic_compat_platform.h:176-190 | the value of a field is the word divided by its position, modulo its width |
| `NarrowAtomicValues.PlusNumber` | utils/include/atomic_compat_platform.h:215-230 | adding is addition modulo the width |
| `NarrowAtomicValues.MinusNumber` | utils/include/atomic_compat_platform.h:232-247 | subtracting is subtraction modulo the width |
| `NarrowAtomicRuns.MismatchIsGenuine` | utils/include/atomic_compat_platform.h:192-213 | a strong compare-exchange never fails because of a neighbour |
| `NarrowAtomicRuns.RetryMeansProgress` | utils/include/atomic_compat_platform.h:176-230 | a retry means another operation completed |
| `Crc.FillTable` | utils/ime/airy_ime.c:59-67 | each table word is eight rounds on its index |
| `Crc.TableStep` | utils/ime/airy_ime.c:68-69 | one table step takes in the eight bits of a byte |
| `Crc.Crc32` | utils/ime/airy_ime.c:52-71 | the table-driven loop computes the bit-serial CRC-32 of IEEE 802.3 |
| `Crc.CheckValue` | utils/ime/airy_ime.c:52-71 | the checksum of FF FF FF FF 80 is 0x12477CDF, which fixes polynomial, bit order, start and final inversion |
| `Crc.OneByteChangesChecksum` | utils/ime/airy_ime.c:52-71 | changing one byte of a message of any length changes its checksum |
| `ImeFormat.Load` | utils/ime/airy_ime.c:135-158 | accepts exactly the files whose header, bounds and checksum agree |
| `ImeFormat.LittleEndian` | utils/ime/airy_ime.c:39-49 | the bytes of a header field are its digits in base 256, lowest first |
| `ImeFormat.ImageLoads` | utils/ime/airy_ime.c:135-158 | every written file loads with its own entry count |
| `ImeFormat.OneByteDamage` | utils/ime/airy_ime.c:134-152 | a file with one byte changed is refused, except that changes of count and pool offset are refused exactly by the bounds checks |
| `ImeFormat.SmallerCountLoads` | utils/ime/airy_ime.c:145-149 | lowering any byte of the entry count by any amount is such a change that is accepted |
| `ImeFormat.CountCanBeLowered` | utils/ime/airy_ime.c:145-149 | every image of a dictionary with entries has a byte to lower |
| `ImeWriter.Pool.Intern` | utils/ime/gen_ime_dict.py:169-177 | each string stands once in the pool, terminated, and earlier ones stay |
| `ImeWriter.PutCands` | utils/ime/gen_ime_dict.py:185-186 | appends one record per candidate |
| `ImeWriter.PutEntry` | utils/ime/gen_ime_dict.py:181-187 | appends one entry record, all earlier records still valid |
| `ImeWriter.Serialize` | utils/ime/gen_ime_dict.py:161-193 | whatever is written is a file of the dictionary, and a dictionary within the field widths is written |
| `ImeQuery.KeyRead` | utils/ime/airy_ime.c:74-78 | the key read from a file is the key written |
| `ImeQuery.LowerBound` | utils/ime/airy_ime.c:81-92 | the first key not below the query |
| `ImeQuery.PrefixInterval` | utils/ime/airy_ime.c:198-201 | the scan may stop at the first key without the prefix |
| `ImeQuery.LessIsBelow` | utils/ime/airy_ime.c:81-92 | one text is before another if and only if it is a proper prefix or smaller at the first difference |
| `ImeQuery.CollectEntry` | utils/ime/airy_ime.c:202-214 | reads an entry's candidates back, up to the cap |
| `ImeQuery.Collect` | utils/ime/airy_ime.c:196-215 | search and scan find exactly the matching candidates, the first 4096 of them |
| `ImeQuery.MatchingHas` | utils/ime/airy_ime.c:196-215 | a candidate matches if and only if it belongs to an entry whose key starts with the query, byte for byte |
| `ImeQuery.SortedIsOrdered` | utils/ime/airy_ime.c:222-232 | sorted by the code's comparison means: higher frequency first, and of equal ones no later text before an earlier |
| `ImeQuery.RankedOnce` | utils/ime/airy_ime.c:222-232 | frequency and text determine the order, so answers are unique |
| `ImeQuery.KeepsTiesIff` | utils/ime/airy_ime.c:221-232 | candidates of equal frequency keep the order found if and only if they were found in the order of their texts |
| `ImeQuery.TiesAreReordered` | utils/ime/airy_ime.c:221-232 | a dictionary and a query whose answer reorders equal frequencies |
| `ImeQuery.Query` | utils/ime/airy_ime.c:174-239 | the first `outCap` of the matching candidates, frequency descending then text ascending at the first differing byte; nothing unless the query is letters a to z and there is room |
| `ImeQuery.WriteLoadQuery` | utils/ime/airy_ime.c:94-239 | writing, loading and querying any dictionary that is written answers candidates whose key starts with the query, in order of frequency and text; all of them if they are no more than the cap and the room; a dictionary within the field widths is written |
| `Sorting.InsertionSort` | utils/ime/airy_ime.c:222-232 | the insertion sort orders and permutes |
| `YamlTree.MergeLookup` | utils/config_unified/yaml_minimal_parser.c:93-114 | existing keys keep their value, missing ones take the source's |
| `YamlTree.MergeExtends` | utils/config_unified/yaml_minimal_parser.c:93-114 | existing entries stay in place, and at most the source's are added |
| `YamlTree.MergeAdds` | utils/config_unified/yaml_minimal_parser.c:103-113 | every entry added is the source's, under a new key |
| `YamlTree.MergeAllLookup` | utils/config_unified/yaml_minimal_parser.c:140-148 | of a sequence of mappings the earliest with the key wins |
| `YamlTree.FirstProviderWins` | utils/config_unified/yaml_minimal_parser.c:184-194 | in any mapping a key has the value of whatever provided it first |
| `YamlTree.EntryOverridesIff` | utils/config_unified/yaml_minimal_parser.c:184-194 | an entry takes effect if and only if nothing before it provides its key |
| `YamlStore.Size` | utils/config_unified/yaml_minimal_node.c:21-40 | the scan for the free slot stays in the buffer and counts the entries |
| `YamlStore.Get` | utils/config_unified/yaml_minimal_node.c:42-64 | the first entry with the key |
| `YamlStore.DeepCopy` | utils/config_unified/yaml_minimal_anchor.c:120-163 | new nodes only, standing for the same tree |
| `YamlStore.Doc.Alloc` | utils/config_unified/yaml_minimal_anchor.c:23-43 | every node is on the document's list |
| `YamlStore.GrowKeeps` | utils/config_unified/yaml_minimal_lexer.c:35-52 | growing keeps the entries and clears the rest |
| `YamlStore.Builder.Append` | utils/config_unified/yaml_minimal_internal.h:78-91 | adds one entry and keeps a free slot behind the last |
| `YamlStore.Builder.MergeFrom` | utils/config_unified/yaml_minimal_parser.c:74-116 | adds the missing keys as new copies; the second growth is never reached |
| `YamlStore.Builder.ApplyMerge` | utils/config_unified/yaml_minimal_parser.c:137-159 | merges a mapping or a sequence of mappings, or fails at the first other value with the mappings before it merged |
| `YamlStore.MergedLookup` | utils/config_unified/yaml_minimal_parser.c:137-159 | after a `<<` a key has what it had, else what the first of the mappings in its value that has the key gives, else nothing |
| `YamlStore.Builder.Put` | utils/config_unified/yaml_minimal_parser.c:184-194 | stores an entry or merges, with size and capacity right afterwards; after a failed merge the mappings before the failure are merged and the size is the old one |
| `CivilTime.EpochIsZero` | platform/src/platform_time.c:62-71 | 1970-01-01 is day 0 |
| `CivilTime.NextIsOneMore` | platform/src/platform_time.c:62-71 | the day after any valid date, in any year, is numbered one more |
| `CivilTime.CivilOfDays` | platform/src/platform_time.c:62-71 | counting days from the epoch recovers every date |
| `CivilTime.LaterIsMore` | platform/src/platform_time.c:62-71 | later dates have larger numbers |
| `CivilTime.EpochRoundTrip` | platform/src/platform_time.c:73-80 | second counts and broken-down times determine each other |
| `CivilTime.NextSecondIsOneMore` | platform/src/platform_time.c:73-80 | the second after any valid time, carried by hand through minute, hour and day, is numbered one more |
| `CivilTime.OffsetRecovered` | platform/src/platform_time.c:82-91 | the offset of any zone is recovered exactly |
| `Ids.MixInjective` | utils/id/airy_id.c:47-50 | the finalizer is one to one on 64-bit words |
| `Ids.UnmixUndoes` | utils/id/airy_id.c:47-50 | the inverse, step by step: what the finalizer computes determines its input, so its shifts and multipliers are the published ones |
| `Ids.NullIdIffZeroState` | utils/id/airy_id.c:45-50 | the null id is generated exactly when the state becomes zero |
| `Ids.Generator.Generate` | utils/id/airy_id.c:32-51 | one call without another in between |
| `Ids.Generator.GenerateAll` | utils/id/airy_id.c:32-58 | a serial run gives the mixes of its successive states, and no id repeats without a null id in between |
| `Ids.SerialIdsDistinct` | utils/id/airy_id.c:32-51 | two ids of a serial run differ unless the state returned to zero in between, with no bound on the run |
| `Ids.ReseedsAgreeIff` | utils/id/airy_id.c:34-50 | two calls that find the state zero return the same id if and only if their seeds are the same |
| `Ids.ReseedRepeats` | utils/id/airy_id.c:34-50 | for every seed: a run that always draws it returns to its first id |
| `Ids.ParseHex` | utils/id/airy_id.c:144-168 | accepts exactly hexadecimal digits of either case and computes their value modulo 2^64 |
| `Ids.HexIff` | utils/id/airy_id.c:144-168 | a character is read as a digit if and only if it is one of 0 to 9, a to f, A to F |
| `Ids.HexDigitIs` | utils/id/airy_id.c:144-168 | the digit of a value is the character at that place of 0 to 9 and a to f, in either case |
| `Ids.ValueIsPlaces` | utils/id/airy_id.c:144-168 | the value of digits is the positional one: each digit times its power of sixteen |
| `Ids.TraceFromString` | utils/id/airy_id.c:170-181 | the id a text names, the null id for any other text |
| `Ids.MsgFromString` | utils/id/airy_id.c:183-202 | the same for message ids, although the text is split at its first dash |
| `Ids.TraceRoundTrip` | utils/id/airy_id.c:124-181 | printing then parsing returns the id, for all 2^64, if and only if the buffer holds the name or the id is null |
| `Ids.MsgRoundTrip` | utils/id/airy_id.c:131-202 | the same for message ids |
| `Ids.NamesPrintBack` | utils/id/airy_id.c:124-202 | parsing then printing returns the text in lower case |
| `Ids.NamesSortLikeIds` | utils/id/airy_id.c:124-142 | names sort as text in the order of their ids |
| `CheckpointNames.ParseIffName` | utils/execution/checkpoint_persist.c:36-76 | the parser accepts exactly the names of the format; the number is what follows the last underscore |
| `CheckpointNames.ParseName` | utils/execution/checkpoint_persist.c:36-76 | the scanning code returns task id and the positional value of the digits, modulo 2^64, for every name of the format, and refuses every other |
| `CheckpointNames.BuildThenParse` | utils/execution/checkpoint_persist.c:23-76 | parsing undoes building for every fitting task id and every 64-bit number |
| `CheckpointNames.BuildInjective` | utils/execution/checkpoint_persist.c:23-34 | different checkpoints have different names |
| `CheckpointNames.BuildExample` | utils/execution/checkpoint_persist.c:23-34 | the name of checkpoint 12 of `my_task` |
| `CheckpointNames.Grow.Push` | utils/execution/checkpoint_persist.c:123-140 | appends to a growing array |
| `CheckpointNames.CollectTaskSeqs` | utils/execution/checkpoint_persist.c:193-210 | collects the numbers of one task from a listing |
| `CheckpointNames.CollectsExactly` | utils/execution/checkpoint_persist.c:142-210 | exactly the numbers that file names carry, each once if and only if no two names carry the same; in a directory without other checkpoint files these are the task's saved numbers |
| `CheckpointNames.FindLatest` | utils/execution/checkpoint_persist.c:232-246 | the largest positive number that a file name carries, or 0; in a directory without other checkpoint files the largest saved one |
| `CheckpointNames.ListOrder` | utils/execution/checkpoint_session.c:92-120 | listing goes through all those numbers in ascending order, strictly if no two names carry the same |
| `CheckpointJson.WriteEscaped` | utils/execution/checkpoint_persist.c:248-276 | the writer emits the escaped text |
| `CheckpointJson.ReadString` | utils/execution/checkpoint_persist.c:297-354 | the reader with its doubling buffer computes the reading of the text |
| `CheckpointJson.EscapeThenRead` | utils/execution/checkpoint_persist.c:248-354 | reading undoes escaping for every string and stops at the closing quote, whatever follows |
| `CheckpointJson.EscapeKeepsNulFree` | utils/execution/checkpoint_persist.c:248-276 | escaped text has no line feed and no NUL of its own |
| `CheckpointJson.EscapeIsBody` | utils/execution/checkpoint_persist.c:248-276 | escaped text is the inside of a string literal: every quote and backslash in it belongs to one of the five escapes |
| `CheckpointJson.FiveEscapes` | utils/execution/checkpoint_persist.c:248-276 | the five escapes, as RFC 8259 section 7 writes them |
| `CheckpointJson.ControlFreeIff` | utils/execution/checkpoint_persist.c:248-276 | escaped text has no control character if and only if the string has none but line feed, carriage return and tab |
| `CheckpointJson.UnknownEscape` | utils/execution/checkpoint_persist.c:297-354 | a backslash before any other character is kept and that character dropped |
| `Decimal.ParseDigits` | utils/hall/hall_event.c:184-196 | digit loops compute the positional value of the digits modulo 2^64 |
| `Decimal.ValueIsPlaces` | utils/hall/hall_event.c:184-196 | the value of digits is the positional one: each digit times its power of ten |
| `Decimal.PrintIs` | utils/hall/hall_event.c:281-291 | a text is the printed form of a number if and only if it is digits without a leading zero whose positional value is the number |
| `Decimal.PaddedIs` | utils/hall/hall_event.c:109-117 | a padded number is the printed number behind as many zeros as the width asks for |

## Left out

- RegexParse.Parser.Digits: numbers are unbounded; the code adds up in an `int`, and a bound of more than nine digits is undefined there.
- RegexText.ItemAt: reads a range's upper end as a signed `char`; on a platform with unsigned `char` ranges above 127 are accepted instead.
- HallGseq.NumbersAreUnique: covers reservations that get the lock and whose store succeeds; without the lock the code makes no promise of uniqueness. Old events whose names the parser refuses are not read by the scan and may carry higher numbers.
- HallEvents.EventDir.Write: the numbering and chaining of a write; the event's JSON, its read-back and its roles are not modelled.
- Cache.LruCache.Put: keys and values are strings, and copying them succeeds.
- Ids.Generator.Generate: concurrent calls; the code loads and stores the state separately, so overlapping calls may return the same id.
- ImeWriter.Serialize: takes the entries in key order, as `sorted` returns them, and texts as UTF-8 bytes; the bound under which it must succeed counts a repeated string each time, although the pool holds it once.
- ImeQuery.Query: defined for files that the writer made; the code does not check record offsets of other files, and what it reads there is undefined. Candidate texts are values, not addresses.
- ImeQuery.LowerBound: defined for files that the writer made, as the query is.
- ImeQuery.CollectEntry: defined for files that the writer made, as the query is.
- ImeQuery.Collect: defined for files that the writer made, as the query is.
- CheckpointJson.ReadString: starts behind the opening quote; the search for the key is not modelled.
- NULL arguments, allocation failure (except in `HashIndex.Index.Put`), freeing of memory after errors.
- YAML text: lexing, block parsing, anchors, dumping.
- Building dictionary entries from word lists, the SNTP client, sockets, processes, sandboxing, path discovery, logging, configuration flattening, error catalogues: system calls, libraries, or tables that one reading settles.
- Object ids, `regfree`, cache statistics getters, `yaml_get_index`: concatenation of fields already covered, a free loop, and single reads without a branch.
