# Verified models of the segvault fuzzers

This project models the stateful and algorithmic parts of a collection of fuzzers and proves what
they promise. `dafny verify dfyconfig.toml` checks all of it. Random choices (`randint`, `choice`)
are arbitrary values of their range, so every statement holds for every run.

| file | models |
|---|---|
| `MangleOperations.dfy` | the edit operations of the incremental mangler: in-place byte edits, their bit ranges, how they are drawn |
| `IncrMangle.dfy` | the chain of data versions with its caches, and how session outcomes grow, revert and roll back the chain |
| `IncrMangleRuns.dfy`, `MangleCapacity.dfy` | whole runs of the incremental mangler: how scores steer the chain, and how long it can grow |
| `Mangle.dfy` | the plain file mangler: what random edits keep of the file, and when a run may raise |
| `Odometer.dfy`, `FuzzingFunctions.dfy` | the XML fuzzer's enumeration of a cartesian product, and the functions that build its lists |
| `Scanner.dfy`, `LexerTables.dfy` | the flex scanner of the protocol compiler: match loop, back-up, comment skipping; its generated tables |
| `LexerRules.dfy`, `LexerAutomaton.dfy`, `LexerTokens.dfy` | the rules of `lexer.l`, the proof that the generated tables implement them, and the tokens and lines of a text in terms of the rules |
| `Aggressivity.dfy` | the feedback controller that tunes how aggressive fuzzing is |
| `Bits.dfy`, `FixPng.dfy` | integer/byte conversion, and the repair of PNG signatures and checksums |
| `DeParen.dfy`, `SimpleSource.dfy` | parenthesis removal and string escaping of the JavaScript fuzzer |
| `SplitLines.dfy` | the line splitter that is fed a file in chunks |
| `UniqueFilename.dfy` | the search for an unused file name |
| `Handshake.dfy` | the debugger's side of the fuzzer-debugger handshake, with its linked list |
| `XmlGen.dfy` | the tag stack and the attribute choice of the XML generator |
| `Units.dfy`, `Wrappers.dfy` | shared types |

Modelling choices:

- Python lists, tuples and strings that are reassigned are fields of type `seq`; byte buffers edited
  in place are arrays; objects with mutable fields are classes. A class and its subclasses in the
  original (`DataVersion`) are one class with a flag; the operation classes are one datatype.
- Exceptions, exit calls and loops that need not end are results: `None`, `null`, `Raises`, `hangs`.
- A byte is a bit vector where bits are edited (`MangleOperations`) and a number elsewhere.
- Methods are proved against functions of the inputs or of the old state, and the lemmas are about
  these functions. Helper methods split long bodies of the original.
- Aggressivity counts hundredths, which makes the rounding of `setValue` exact; scores are reals.

Where documentation and code differ, the code is modelled: the debugger acknowledges the start
message although its comment says that no acknowledgement follows it, and a string message without
bytes makes it exit, because reading nothing is taken for a closed connection. `max_version` does
not bound the version chain by itself: a chain that is too long is rolled back to a random version,
which may be its last one, and then grows. `IncrMangleRuns.MaxVersionBoundsIff` says exactly when no
run passes `max_version + 1` versions, and `IncrMangleRuns.MostVersionsIsExact` how many there can be.

## Model

| member | source | states |
|---|---|---|
| MangleOperations.Operation.Call | fusil/fusil/incr_mangle_op.py:40-88 | the in-place edit of every operation class leaves the array as `Apply` of the old bytes, and on its own bytes: InverseBit flips its bit, ReplaceByte and SpecialValue write their bytes, Increment adds and becomes 0 or 255 where the sum passes that bound |
| MangleOperations.Operation.CallInverseBit | fusil/fusil/incr_mangle_op.py:40-46 | testing, clearing and setting the masked bit is the exclusive or that the specification uses |
| MangleOperations.ApplyFramesBits | fusil/fusil/incr_mangle_op.py:35-88 | no operation changes a bit outside its range; InverseBit flips the one bit it owns |
| MangleOperations.ApplyAllFramesBits | fusil/fusil/incr_mangle.py:97-104 | after a whole operation list, every bit outside the union of the ranges is the original bit |
| MangleOperations.CleanIffDisjoint | fusil/fusil/incr_mangle.py:40-46 | the dirty-bit test accepts an operation exactly when its range is disjoint from that of every earlier operation |
| MangleOperations.DirtyBitsMembers | fusil/fusil/incr_mangle.py:34-35 | the dirty bits are exactly the bits of some operation |
| MangleOperations.ApplyCommutes | fusil/fusil/incr_mangle_op.py:35-88 | two operations on disjoint bit ranges commute, also two bit flips in one byte |
| MangleOperations.AnyOrder | fusil/fusil/incr_mangle.py:26-46 | a list of pairwise disjoint operations gives the same bytes in every permutation |
| MangleOperations.EachOperationSurvives | fusil/fusil/incr_mangle.py:26-46 | on its own bits, every operation of a version leaves what it would leave alone |
| MangleOperations.EachOperationWrites | fusil/fusil/incr_mangle.py:26-46 | after all operations of a version, the bytes of each one are what it writes over the original bytes: its byte, its special value, the clamped sum, or the flipped bit |
| MangleOperations.SpecialValuesMembers | fusil/fusil/mangle_op.py:1-30 | every generated special value is one of the sixteen values or its reversal |
| MangleOperations.SpecialValuesAreAllListed | fusil/fusil/mangle_op.py:22-30 | all sixteen values and all their reversals are generated |
| MangleOperations.SpecialValuesInFull | fusil/fusil/mangle_op.py:1-30 | the list holds just the values 00, 01, 7f, 80, fe and ff in the sizes the source gives them, in both byte orders |
| MangleOperations.SpecialValueSizes | fusil/fusil/mangle_op.py:1-30 | special values have 1, 2 or 4 bytes |
| MangleOperations.MinMax | fusil/fusil/tools.py:3-14 | a value between the bounds is kept, and any other becomes the bound it passes |
| MangleOperations.CreateBitOffset | fusil/fusil/incr_mangle_op.py:6-13 | draws from the user's window cut to the data, and raises exactly when that window is empty |
| MangleOperations.CreateByteOffset | fusil/fusil/incr_mangle_op.py:15-22 | the same for byte offsets |
| MangleOperations.Draw | fusil/fusil/incr_mangle_op.py:35-88 | a constructor yields an operation of its class in its window, or raises when the window it drew from is empty |
| MangleOperations.DrawnOperationFits | fusil/fusil/incr_mangle_op.py:6-79 | every operation that is drawn lies inside the data, whatever the data length and the window; an increment is at least 1 and at most 8, up or down |
| MangleOperations.DrawnOperationStartsInWindow | fusil/fusil/incr_mangle_op.py:6-22 | an operation starts in the user's offset window and, unless it is a special value, ends in it |
| MangleOperations.DrawNeverRaisesIffRoom | fusil/fusil/incr_mangle_op.py:6-22 | no random choice raises if and only if the window leaves room for the class: 1 byte for InverseBit, 2 for ReplaceByte and Increment, 5 for SpecialValue |
| IncrMangle.DataVersion.CreateOperation | fusil/fusil/incr_mangle.py:40-46 | a new operation can be drawn, fits and avoids all dirty bits; a refused one can be drawn and hits a dirty bit |
| IncrMangle.DataVersion.CreateVersion | fusil/fusil/incr_mangle.py:22-38 | the new version adds 1 to operation_per_version drawable operations, stays disjoint, and has the union of the ranges as dirty bits; giving up means that on the way a list of disjoint operations was met whose dirty bits a drawable operation hits; the chain is untouched |
| IncrMangle.MayBeRefusedIff | fusil/fusil/incr_mangle.py:22-46 | such a list can be met if and only if something can be drawn at all and a version or its addition leaves an operation to collide with: from the original only with more than one operation per version |
| IncrMangle.DataVersion.FindCached | fusil/fusil/incr_mangle.py:90-95 | the walk back ends at the nearest earlier version with data, whose data equals its own replay |
| IncrMangle.DataVersion.CreateData | fusil/fusil/incr_mangle.py:72-104 | returns the original bytes with all operations of the version applied from scratch, whatever caches exist, and caches just that |
| IncrMangle.DataVersion.Revert | fusil/fusil/incr_mangle.py:54-59 | removes this one version, and the chain stays valid when it was the last; the original is kept |
| IncrMangle.DataVersions.AddVersion | fusil/fusil/incr_mangle.py:116-121 | appends the version and keeps the chain valid, with caches in the last two entries only |
| IncrMangle.DataVersions.GetPrevious | fusil/fusil/incr_mangle.py:132-134 | the version numbered one less; for the first entry, the last one |
| IncrMangle.DataVersions.Rollback | fusil/fusil/incr_mangle.py:136-138 | keeps the first versions and a valid chain |
| IncrMangle.DataVersions.EarlierIsPrefix | fusil/fusil/incr_mangle.py:22-38 | the operations of an earlier version are a prefix of those of a later one |
| IncrMangle.DataVersions.CleanBitsAreOriginal | fusil/fusil/incr_mangle.py:97-104 | the data of a version keeps the length of the source file, and its bits outside the dirty bits |
| IncrMangle.DataVersions.OperationsAreInData | fusil/fusil/incr_mangle.py:97-104 | in the data of every version of a chain, each of its operations has written its bytes over those of the source file |
| IncrMangle.DataVersions.OrderDoesNotMatter | fusil/fusil/incr_mangle.py:97-104 | every permutation of a version's operations, applied to the source file, gives the data of the version |
| IncrMangle.DataVersions.ChainIsBounded | fusil/fusil/incr_mangle.py:22-46 | a chain has at most one version more than the source file has bits, because each version owns a bit of its own |
| IncrMangle.IncrMangle.CheckPreviousVersion | fusil/fusil/incr_mangle.py:175-202 | success leaves the original alone, an error or a smaller score drops the last version, a chain that is too long is cut to some prefix, otherwise nothing changes; the chain stays valid |
| IncrMangle.IncrMangle.RollbackLast | fusil/fusil/incr_mangle.py:204-208 | some non-empty prefix of the chain remains, perhaps all of it |
| IncrMangle.IncrMangle.MangleData | fusil/fusil/incr_mangle.py:210-232 | one session moves the chain by a permitted step, whose new version holds disjoint drawable operations, keeps it valid, and returns the replay of its last version; it raises only if a draw may raise |
| MangleCapacity.DrawnOperationsAreBounded | fusil/fusil/incr_mangle_op.py:6-22 | no more disjoint operations can be drawn than there are places where one may start: bits of the window with InverseBit, else bytes |
| MangleCapacity.SmallestOperations | fusil/fusil/incr_mangle_op.py:35-88 | every such place can be used at the same time, so that bound is attained |
| IncrMangleRuns.RunSessions | fusil/fusil/incr_mangle.py:155-232 | over every sequence of scores, session after session moves the chain as the scores before it determine, and every file written is the source file with the disjoint operations of its chain applied |
| IncrMangleRuns.SmallerIff | fusil/fusil/incr_mangle.py:155-165 | a score is smaller exactly when it is from 0 up to, but not, the success score, and below the last score before it in that range |
| IncrMangleRuns.ScoresSteerTheChain | fusil/fusil/incr_mangle.py:155-202 | in every run, the session after a success keeps only the original, the session after an error or a smaller score drops the last version, and each adds at most one version to what it keeps; after any other score it keeps the whole chain and extends it, unless the chain is longer than max_version or an operation may be refused |
| IncrMangleRuns.ScoresBoundTheChain | fusil/fusil/incr_mangle.py:155-232 | in every run, the scores alone bound the chain: two versions after a success, no more than before after an error or a smaller score, one more after any other score |
| IncrMangleRuns.RunKeepsLadder | fusil/fusil/incr_mangle.py:210-232 | in every run, each version extends the one before it, from the unedited file on |
| IncrMangleRuns.MostVersionsIsExact | fusil/fusil/incr_mangle.py:155-232 | for every sequence of scores, the longest chain the next session can leave has exactly as many versions as the scores permit, cut off at one more than there are places for operations; a run that attains it is built step by step |
| IncrMangleRuns.MaxVersionBoundsIff | fusil/fusil/incr_mangle.py:192-208 | no run leaves more than max_version + 1 versions if and only if there are at most max_version places for operations, or no score can be normal and max_version is at least 1 |
| Mangle.Mangle.Call | fusil/fusil/mangle.py:45-79 | each operation makes one edit of its kind at or after first_offset, or raises and changes nothing; bytes are written over others, inserted or taken out there and the others stay; mangle_bit changes one bit at most, mangle_increment adds within its limit and clamps to 0 and 255, and the insertion loop inserts one block |
| Mangle.Mangle.Run | fusil/fusil/mangle.py:81-103 | a run makes between min_op and max_op edits, each by one of the operations; it raises only if max_op is below min_op or some operation may raise on the data it has come to |
| Mangle.HeaderStays | fusil/fusil/mangle.py:36-43 | no run changes a byte before first_offset |
| Mangle.LengthIsBounded | fusil/fusil/mangle.py:69-103 | a run adds at most max_insert_bytes and removes at most max_delete_bytes per operation, and keeps the length when nothing inserts or deletes |
| Mangle.DefaultKeepsLength | fusil/fusil/mangle.py:86-90 | without a list of operations and without change_size, every run keeps the length |
| Mangle.RunKeepsMost | fusil/fusil/mangle.py:45-103 | after a run, all bytes of the original are left in their order but 4 per operation, or max_delete_bytes if that is more |
| Mangle.RunMayRaiseIff | fusil/fusil/mangle.py:36-103 | some run of so many operations raises if and only if a limit is below one, or the data after first_offset is shorter than some operation needs once all operations before it deleted what they can |
| Mangle.DefaultMayRaiseIff | fusil/fusil/mangle.py:36-90 | without a list of operations, some choice of an operation raises if and only if fewer than four bytes follow first_offset, or change_size is set with a limit below one |
| Odometer.Iterator.constructor | untidy/untidy.py:124-135 | the wheels start one turn before the first combination |
| Odometer.Iterator.Next | untidy/untidy.py:137-149 | call k returns the join of the entries that the mixed-radix digits of k pick, last position fastest; after as many calls as the product of the lengths it stops for good |
| Odometer.Iterator.IncrementCounter | untidy/untidy.py:160-181 | one call adds one to the mixed-radix value, and the stop flag is set on the last combination |
| Odometer.Iterator.Carry | untidy/untidy.py:166-171 | a carry keeps the value, with only the wheel before it possibly past its end |
| Odometer.CarryStep | untidy/untidy.py:166-171 | position 0 never carries, so the negative index is never used |
| Odometer.Drain | untidy/untidy.py:223-224 | a loop over a new iterator sees exactly the product of the lengths many strings, in order |
| Odometer.EachCombinationOnce | untidy/untidy.py:123-185 | every combination has a call that yields it, and no two calls yield the same one |
| Odometer.DigitsOfValue | untidy/untidy.py:160-171 | digits of the value of a combination are that combination |
| Odometer.ValueOfDigits | untidy/untidy.py:160-171 | every number below the product has in-range digits with that value |
| Odometer.ChoiceIsYielded | untidy/untidy.py:137-158 | any choice of one entry from every list is joined, in the order of the lists, by the call with the mixed-radix number of the choice |
| Odometer.CombinationsAreOrdered | untidy/untidy.py:160-171 | the combinations come in lexicographic order: the last list turns fastest |
| Odometer.JoinConcat | untidy/untidy.py:148-148 | joining keeps the items in order, whole and without separators |
| Odometer.FirstString | untidy/untidy.py:132-149 | the first string joins the first entries |
| FuzzingFunctions.Ff1 | untidy/fuzzingFunctions.py:76-86 | one result per repetition count for a token that starts with an angle bracket, none for others |
| FuzzingFunctions.Ff2 | untidy/fuzzingFunctions.py:88-101 | the token followed by as many opening and then closing brackets as the count says |
| FuzzingFunctions.Ff6 | untidy/fuzzingFunctions.py:135-158 | the results are those of the runs of the token, in order |
| FuzzingFunctions.TimesAt | untidy/fuzzingFunctions.py:76-125 | a repeated text consists of just so many copies, side by side |
| FuzzingFunctions.InsertionForTwo | untidy/fuzzingFunctions.py:142-156 | with two repetitions ff6 inserts AA before letters, 1099511627775 before digits, and doubles any other character |
| FuzzingFunctions.EntriesForTwo | untidy/fuzzingFunctions.py:65-125 | the entries of any token with two repetitions, spelled out: the token, `>>` for its opening bracket, `<<>>` or AA after it, the token twice, nothing, and the results of ff6 |
| FuzzingFunctions.RunFuzzMembers | untidy/fuzzingFunctions.py:127-158 | the results of ff6 are exactly the token with one insertion at the start of a run of letters, of digits, or of a single other character |
| FuzzingFunctions.EntriesCount | untidy/fuzzingFunctions.py:65-158 | a token's list has 2 entries and, per repetition count, 3 more, one for an opening bracket and one for each run |
| FuzzingFunctions.FuzzToken | untidy/untidy.py:201-209 | the list of a token is the results of ff0 to ff6 in order, headed by the token itself |
| FuzzingFunctions.Fuzz | untidy/untidy.py:190-212 | the enumeration runs over the lists of all tokens, has the product of their counts many strings, and starts with the unfuzzed text; without tokens construction raises |
| Scanner.YyLexer.NextState | autodafe/src/adc/lexer.c:664-670 | the walk over the compressed tables ends and takes the transition of the automaton |
| Scanner.YyLexer.Match | autodafe/src/adc/lexer.c:655-682 | for any tables with the table facts, the token is the longest prefix that some rule accepts, with its rule, whenever there is such a prefix; None exactly when the end-of-buffer mark comes first |
| Scanner.YyLexer.FindAction | autodafe/src/adc/lexer.c:675-682 | backing up to the recorded state gives the longest accepted prefix whenever there is one |
| Scanner.JammedForever | autodafe/src/adc/lexer.c:673-673 | nothing read after a state with the jam base leaves the jam state, so stopping there loses no match |
| Scanner.YyLexer.SkipComment | autodafe/src/adc/lexer.c:1789-1801 | where a comment ends and how many lines it counts |
| Scanner.CommentEndsAtFirstClose | autodafe/src/adc/lexer.c:1789-1801 | a comment ends right after the first star-slash, or with the text |
| Scanner.CommentLinesAreNewlines | autodafe/src/adc/lexer.c:1795-1800 | all newlines of a comment are counted, except that an unclosed comment loses a newline that ends the text |
| Scanner.YyLexer.Tokens | autodafe/src/adc/lexer.c:642-780 | with a default rule, repeated scanning cuts the text into consecutive longest matches, comments skipped, up to the end mark or a fatal token, and counts lines by the actions of the rules; what the rules of this scanner match and what is counted in the end is stated by `LexerTokens` |
| Scanner.TokenizationIsUnique | autodafe/src/adc/lexer.c:642-682 | such a tokenization is determined by the text |
| LexerTables.LexerHasTableFacts | autodafe/src/adc/lexer.c:287-432 | the generated tables have all the table facts and a default rule, so the scanner of lexer.c itself returns longest matches, one for every non-empty text |
| LexerTables.DefaultsAreShallow | autodafe/src/adc/lexer.c:362-378 | every chain of default states reaches the jam state within three steps |
| LexerAutomaton.TablesImplementRules | autodafe/src/adc/lexer.l:22-72 | the rule that the generated tables accept a text with is the first rule of lexer.l whose pattern matches it, and none if no pattern does |
| LexerTokens.LongestMatchIff | autodafe/src/adc/lexer.l:22-72 | the scanner takes a token with a rule if and only if it is the longest text that matches a pattern of lexer.l, and this is the first pattern it matches |
| LexerTokens.TextsOfRules | autodafe/src/adc/lexer.l:25-54 | the rule that skips a comment stands for slash-star alone, the newline rule for a newline, the line comment rule for slash-slash up to a newline, rules 5 to 8 for the four signs, the string rule for quoted strings, and the rule for unknown characters for the single bytes no other rule takes |
| LexerTokens.FatalTexts | autodafe/src/adc/lexer.c:739-768 | scanning is given up exactly at a byte that no rule but the last resort takes, and at a quoted string of more than 255 bytes |
| LexerTokens.LinesAreNewlines | autodafe/src/adc/lexer.c:699-717 | for every text, the line counter counts exactly the newlines of the text that was read, except that an unclosed comment loses a newline that ends the text |
| Aggressivity.AggressivityAgent.Update | fusil/fusil/aggressivity.py:73-92 | one update is one step of the transition function, whose meaning the lemmas below state: exact waiting times to the maximum, to the minimum and at both |
| Aggressivity.EveryRunIsReachable | fusil/fusil/aggressivity.py:24-141 | on every run the aggressivity stays between 0.01 and 1.00, scores are ordered, and the growing and reducing states imply bounds on it |
| Aggressivity.RecordsAreExtremes | fusil/fusil/aggressivity.py:73-104 | on every run min_score and max_score are the least and the greatest of the first score and all later ones that are no success |
| Aggressivity.RecordIff | fusil/fusil/aggressivity.py:94-104 | a score that is no success sets a new record exactly when it passes all of these; after a success as first score there is no new greatest score |
| Aggressivity.CalmStep | fusil/fusil/aggressivity.py:94-141 | a non-negative score without success or record brings the maximum exactly one update nearer, or keeps it |
| Aggressivity.CalmReachesMaximum | fusil/fusil/aggressivity.py:73-141 | from every reachable state such scores reach the maximum after exactly `Climb` updates, at most 39, and it is then kept |
| Aggressivity.SourStep | fusil/fusil/aggressivity.py:94-141 | a negative score without record brings the minimum exactly one update nearer, or stays at the floor |
| Aggressivity.SourReachesFloor | fusil/fusil/aggressivity.py:73-141 | from every reachable state such scores reach the minimum after exactly `Fall` updates, at most 30, and it is exceeded by no more than 0.01 from then on |
| Aggressivity.FloorPulses | fusil/fusil/aggressivity.py:94-141 | at the floor, negative scores without record bring 0.02 again after exactly `Rise` updates, at most 6, and from then on once in every 7 updates; else the value is 0.01 |
| Aggressivity.EventsAtOnce | fusil/fusil/aggressivity.py:73-104 | a success or a record changes the aggressivity at once only for a new least score, which lowers it by 0.01 unless it is at the minimum |
| Aggressivity.EventsHold | fusil/fusil/aggressivity.py:94-125 | after a success or a record, calm updates hold the aggressivity for exactly four or five updates, and the next one raises it by 0.01 |
| Bits.Uint2Bytes | fusil/fusil/bits.py:11-42 | returns the encoding, padded to the size asked for |
| Bits.Bytes2Uint | fusil/fusil/bits.py:63-97 | returns the positional value of 1 to 32 bytes, and fails on other lengths |
| Bits.DecodeEncode | fusil/fusil/bits.py:23-97 | decoding an encoded value gives it back, for both endians and every size |
| Bits.EncodeDecode | fusil/fusil/bits.py:23-97 | encoding a decoded byte string at its own length gives it back |
| Bits.WidthIsMinimal | fusil/fusil/bits.py:25-34 | without padding the encoding is the shortest that can hold the value |
| Bits.EndiansMirror | fusil/fusil/bits.py:34-41 | the two endians are reverses of each other |
| Bits.BytesAreDigits | fusil/fusil/bits.py:23-42 | byte i from the least significant end is digit i of the value in base 256, for both endians |
| FixPng.FixPNG | fusil/fusil/fixpng.py:17-58 | returns the repaired bytes for input of at least 8 bytes, and fails on shorter input; what the repair writes is stated by the lemmas below |
| FixPng.FixedIsWellFormed | fusil/fusil/fixpng.py:32-55 | the output has the signature, the chunk boundaries of the input, and the right checksum in every chunk the walk reaches |
| FixPng.ChunksAreAWalk | fusil/fusil/fixpng.py:35-51 | the chunks follow each other from byte 8 on, each as long as its first four bytes say plus 12, as long as they fit |
| FixPng.FixedIsRepair | fusil/fusil/fixpng.py:32-55 | the output is a repair of the input: well formed, with the chunks of the input, and the other bytes the same |
| FixPng.ChecksumsCoverTypeAndData | fusil/fusil/fixpng.py:44-49 | in a repair, the last four bytes of each chunk are, big-endian, the crc32 of the bytes between its length and its checksum, that is of its type and its data |
| FixPng.SignatureIsWritten | fusil/fusil/fixpng.py:32-33 | the output starts with the bytes 137 80 78 71 13 10 26 10 |
| FixPng.FixedFrame | fusil/fusil/fixpng.py:32-55 | no byte outside the signature and the checksum fields changes |
| FixPng.FixedIffWellFormed | fusil/fusil/fixpng.py:32-55 | a file is left alone exactly when it is well formed already; repairing twice is repairing once |
| FixPng.WalkIsLocal | fusil/fusil/fixpng.py:36-51 | which chunks the walk finds from a position on depends only on the bytes from there on |
| DeParen.FindPairs | jsfunfuzz/jsfunfuzz.js:817-832 | pairs every left parenthesis with its match, and fails exactly on unbalanced text |
| DeParen.DeParenthesize | jsfunfuzz/jsfunfuzz.js:809-850 | nothing for unbalanced text; for balanced text one string per left parenthesis, in order, each the text without it and its match |
| DeParen.RemovalIsBalanced | jsfunfuzz/jsfunfuzz.js:841-846 | each of these strings is balanced and two units shorter, and putting the two parentheses back gives the program |
| DeParen.MatchIffEnclosedBalanced | jsfunfuzz/jsfunfuzz.js:821-829 | two parentheses match exactly when the text between them is balanced |
| DeParen.MatchIsUnique | jsfunfuzz/jsfunfuzz.js:821-829 | a left parenthesis has at most one match |
| DeParen.LeftsAreAll | jsfunfuzz/jsfunfuzz.js:817-824 | the positions are all left parentheses, in text order |
| DeParen.DepthCounts | jsfunfuzz/jsfunfuzz.js:819-829 | the depth that balance is about is the number of left parentheses less that of right parentheses |
| SimpleSource.SimpleSource | jsfunfuzz/jsfunfuzz.js:88-108 | the five replacements produce the quoted one-pass escape of the string |
| SimpleSource.Hexify | jsfunfuzz/jsfunfuzz.js:90-97 | the padding loop yields all four hexadecimal digits |
| SimpleSource.ChainIsOneSubstitution | jsfunfuzz/jsfunfuzz.js:100-105 | no replacement disturbs the output of an earlier one: the chain substitutes each code unit once |
| SimpleSource.UnitsOfEscape | jsfunfuzz/jsfunfuzz.js:90-105 | what the chain makes of each code unit: backslash, quote, NUL and newline get a two-unit escape, printable ASCII stays, the others become four hexadecimal digits |
| SimpleSource.SourceIsPrintable | jsfunfuzz/jsfunfuzz.js:100-105 | the literal is printable ASCII |
| SimpleSource.ReadsBackIffNoNulBeforeDigit | jsfunfuzz/jsfunfuzz.js:100-105 | by section 7.8.4 of ECMA-262, 3rd edition, the literal reads back as the string if and only if no NUL is directly followed by a digit; otherwise it is no literal |
| SimpleSource.EscapeIsInjective | jsfunfuzz/jsfunfuzz.js:100-105 | different strings have different literals, NULs before digits included |
| SplitLines.FileWatch.Split | fusil/fusil/file_watch.py:128-138 | a consumed call yields the stripped complete lines of buffer and data, and leaves the unterminated tail in the buffer |
| SplitLines.CompleteLinesAreLines | fusil/fusil/file_watch.py:128-138 | the complete lines follow each other from the start of the data, each text without line ends before just one newline, carriage return, or both |
| SplitLines.CompleteJoin | fusil/fusil/file_watch.py:128-138 | the complete lines and the tail make up the data |
| SplitLines.RstripRemovesSpaces | fusil/fusil/file_watch.py:138-138 | stripping removes all white space at the end of a line and nothing else |
| SplitLines.FileWatch.ReadLines | fusil/fusil/file_watch.py:192-211 | call after call, however each one ends, the chunks read so far are the part of the file up to the position, and the lines yielded so far are those of the chunk stream; a call that is not too slow reads all there is |
| SplitLines.StreamIsWholeIffNoLineEndCut | fusil/fusil/file_watch.py:128-138 | for every cutting the buffer ends as the unterminated tail, and the lines are those of the whole data if and only if no cut separates a carriage return from its newline; each such cut adds one line |
| SplitLines.NoReturnsNoCutLineEnds | fusil/fusil/file_watch.py:128-138 | data without carriage returns may be cut anywhere |
| UniqueFilename.Directory.UniqueFilename | fusil/fusil/directory.py:50-78 | the name is neither recorded nor on disk, is the first free one in counting order, and needs at most one more try than there are taken names |
| UniqueFilename.CandidateIsInjective | fusil/fusil/directory.py:61-73 | different counts give different names |
| UniqueFilename.CandidateParts | fusil/fusil/directory.py:61-73 | the counter comes after a hyphen before the first dot of the name, in digits that read as the count |
| UniqueFilename.DecimalReadsBack | fusil/fusil/directory.py:61-73 | the digits read as the number again, without leading zeros |
| UniqueFilename.TriesAreBounded | fusil/fusil/directory.py:71-78 | there are no more failing tries than taken names |
| UniqueFilename.Directory.ManyNames | fusil/fusil/directory.py:15-84 | for any mix of calls, saved or not, with or without a count, failing or not, a name that a saved call hands out comes again only after it was ignored |
| UniqueFilename.RecordedUntilIgnored | fusil/fusil/directory.py:15-84 | a recorded name stays recorded, and no call hands it out, until it is ignored |
| Handshake.Debugger.Monitor | autodafe/src/adbg/network.c:272-301 | the list gains the string at its end exactly when its identifier is new |
| Handshake.Debugger.Decode | autodafe/src/adbg/network.c:196-321 | one acknowledgement per decoded message; on a wrong version, an unknown message or a string without bytes the debugger exits and the list is unchanged |
| Handshake.Debugger.Connection | autodafe/src/adbg/network.c:350-375 | returns exactly when the messages begin with a whole handshake, and then the list holds the first string of each identifier and one acknowledgement was written per message |
| Handshake.EntryIsFirstMessage | autodafe/src/adbg/network.c:272-280 | a string is listed exactly when it came in the first message with its identifier |
| Handshake.IdsAreUnique | autodafe/src/adbg/network.c:272-280 | no identifier is listed twice |
| Handshake.EntriesInOrder | autodafe/src/adbg/network.c:272-301 | strings are listed in the order in which their first messages arrived |
| XmlGen.XMLGen.ChooseAttributes | fusil/fusil/xmlgen.py:885-893 | attributes are distinct and come from the element's list; the retry loop fails to end if and only if the list has fewer distinct names than entries and than attributes asked for |
| XmlGen.NeverHangsIff | fusil/fusil/xmlgen.py:884-893 | the loop ends for every number of attributes that can be drawn if and only if the list repeats no name or has seven different ones |
| XmlGen.TwiceTheSameHangs | fusil/fusil/xmlgen.py:884-893 | a list of one name twice hangs when two or more attributes are drawn |
| XmlGen.XMLGen.Element | fusil/fusil/xmlgen.py:882-909 | starts just this element, with one attribute at least where its list has any and seven at most, and the open tags after its tokens are what the stack holds |
| XmlGen.XMLGen.CloseTags | fusil/fusil/xmlgen.py:906-912 | closes the innermost open elements, each by its own tag |
| XmlGen.XMLGen.Fuzz | fusil/fusil/xmlgen.py:868-922 | the document is the root element around a well-nested part that starts exactly the picked elements in order; with XHTML the head is closed before that part, and a body element may enclose it and nothing else; no tag repeats an attribute, and the stack is left empty; it hangs only in a picked element whose list can hang |
| XmlGen.WrapStaysNested | fusil/fusil/xmlgen.py:875-921 | enclosing well-nested tokens in a tag keeps them well nested |

## Left out

- Mangle.Mangle.Run: a negative first_offset, which would count from the end of the data, and names of operations that do not exist are not modelled.
- The statements of `IncrMangle` assume one source file of fixed, non-zero length; several files of different lengths are not modelled.
- How likely random choices are: giving up after 25000 refused draws is possible whenever one draw can be refused, however unlikely it is.
- UniqueFilename.Directory.UniqueFilename: returns the name without the directory and models the count format `%d` only; a base name with percent signs must not need a counter, because its percent signs would be taken for further formats.
- FixPng.FixPNG: returns the bytes as a sequence; zlib's `crc32` is an arbitrary function, reduced modulo 2^32.
- Bits.Bytes2Uint: `struct.unpack` is modelled as the positional value it returns.
- FuzzingFunctions.Fuzz: starts from the list of tokens; the regular expression that cuts XML into tokens is not modelled, nor is `ff8`, which the enumeration never reaches.
- Scanner.YyLexer.Match: scans a complete buffer of non-NUL bytes; refilling the buffer, NUL bytes and the end-of-file action are not modelled.
- Scanner.YyLexer.Tokens: the values that actions give to tokens are not modelled, except where an action ends the program.
- Handshake.Debugger.Connection: messages arrive whole and in host byte order; sockets, short reads and memory allocation are not modelled.
- XmlGen.XMLGen.Fuzz: attribute values, random text, document headers, the text of the style sheet and the parsing of DTDs are not modelled; the retry loop is a choice among the attributes that are not yet taken.
- SplitLines.FileWatch.ReadLines: the clock is arbitrary, so a call may end as too slow at any time; scoring of lines and read errors are not modelled.
- SimpleSource.SimpleSource: values that are not strings are not modelled.
- Log output, graph files, agents and their messages, project and session lifecycle.
- The other fuzzers: network, kernel, file system, CSS, PHP and JavaScript grammar generators.
