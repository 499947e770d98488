# Verified models of tudocomp's stateful cores

This project models the parts of tudocomp, and of the scripts and libraries that its repository carries, whose
correctness rests on an argument that runs across several functions or over whole runs, and proves that argument in
Dafny 4.11. `dafny verify dfyconfig.toml` checks everything.

- **Arithmetic coder** (`ArithmeticModel`, `ArithmeticTable`, `ArithmeticRoundTrip`, `ArithmeticDomain`,
  `ArithmeticStream`, `ArithmeticCoder`, `ArithmeticExamples`). The encoder counts literals, normalises the counts
  into cumulative intervals, writes a codebook and narrows a 64-bit interval, which it flushes when it gets too small;
  the decoder replays the narrowing. All arithmetic wraps at the source's widths (32-bit counters and table entries,
  64-bit bounds, codebook values read back as signed 32-bit). The main result is an equivalence: a text comes back,
  with the stream used up exactly, if and only if it is not empty, has fewer than 2^32 literals, does not contain
  literal 255, contains literal 0 either not at all or at least as often as the rarest other literal, and has a
  normalised total below 2^31. The two classes are proved against the specification on every text and on every stream
  of bytes, with reads past the end giving zero bits as in the source; on the texts above the decoding loop of the
  source's test gives the text back.
- **Bit streams and the two simple coders** (`BitStream`, `BitCoder`, `AsciiCoder`). Closing a stream records in three
  bits how many bits of the last data byte are valid; reading it back gives exactly the bits written. On top of that,
  mixed sequences of ranged numbers, literals and bits round-trip through both coders.
- **Option evaluator and algorithm registry** (`OptionEval`, `OptionArgs`, `Meta`, `Defaults`, `Builder`, `Gathering`,
  `SelectionKeys`, `Enumeration`, `EnumerationOnce`, `Reachability`, `RegistryObject`). Evaluation of typed
  invocations with defaults and compile-time arguments, the declarations built through option builders, the key under
  which implementations are stored and selected, and the enumeration of all registered patterns.
- **Page pipeline and brace scanner** (`PipelineSystem`, `PipelineInvariant`, `PipelineRuns`, `PipelineLoad`,
  `Braces`, `BracesFound`, `BracesMerged`, `BracesParts`, `BracesComment`). One mapper, N workers and a reducer with a
  reorder buffer as a transition system over every interleaving; the stack-based scanner, what it finds in nested
  texts, the splitting of parameters, and the scanner as its comment describes it.
- **Threaded red-black tree** (`RedBlackShape`, `RedBlackRepair`, `RedBlackHeap`, `RedBlackTree`, `RedBlackRuns`). The
  tree keeps its own node objects with parent, child and neighbour pointers. A ghost shape says which tree the
  pointers form; a path with a hole says what lies around the part a repair loop is working on.
- **Phase memory accounting** (`StatPhases`, `StatEvents`), **output buffering** (`StreamBufferer`) and the **grouping
  loop** (`GroupSplit`).

Where the source works by changing fields or in loops, the model is a class or a method with the same steps, proved
against a specification function; the lemmas are about those functions and about runs of them.

What the proofs show about the code beyond its documentation:

- Literal 255 is counted but left out of the announced length (`TopLiteralIsLost`). A literal 0 rarer than every other
  literal gets an empty interval and leaves the codebook one entry short, so that the decoder takes the first code
  word for an entry; when that word is 0, as for every text that starts with such a zero, decoding divides by zero
  (`LeadingRareZeroIsLost`, `RareZeroIsLost`). A normalised total of 2^31 or more is read back as a negative number
  (`LongTextIsLost`).
- Passing the whole static tree as fixed arguments forces the static selection exactly when no algorithm below the
  root of that tree has an empty name (`FixedArgumentsWin`, with `EmptyFixedPartGivesWay` for the other case).
- A meta's own static arguments evaluate exactly when no part of its tree is nameless or of the type "string"
  (`OwnEval`, with `UnnameableIsNotEvaluated` for the other case).
- `check_for_undefined_algorithms` filters patterns that were already filtered to the registered ones, so what it
  returns is always an empty list. After registrations without a conflict it returns at all exactly if no option
  within the enumeration's reach is nameless (`EnumSucceeds`).
- The comment above the brace scanner calls closing braces inside double square brackets plain text. The code lets
  them close the brackets, so the comment holds exactly for the texts whose scan never meets two or more closing
  braces while a square bracket is open on top (`DocumentedUnlessBracketMet`); `BracesCloseBrackets` and
  `BracketsReadOtherwise` show a text where it does not. The model follows the code.
- `StreamBufferer.flush` leaves the byte count as it was, so the first chunk after a flush can be short
  (`ShortChunkAfterFlush`, `OneByteChunk`); `SizedExactly` states exactly when sized chunks have their size.

## Model

| member | source | states |
|---|---|---|
| BitStream.FromBitsToBits | include/tudocomp/io/BitIStream.hpp:118-126 | An integer that fits the width is what reading that many most-significant-first bits gives back |
| BitStream.ToBitsAt | include/tudocomp/io/BitOStream.hpp:97-102 | Bit i of w is the one of weight 2^(w-1-i): the highest comes first |
| BitStream.UnsealSeal | include/tudocomp/io/BitOStream.hpp:53-64 | Closing any bit sequence and reopening the bytes gives exactly these bits, whatever their number modulo 8 |
| BitStream.SealFormat | include/tudocomp/io/BitOStream.hpp:53-64 | Bit by bit: the closed bytes hold what was written in order, then zeros, and in the last three bits the number of bits in the last byte that has any; one byte more is used when the three do not fit |
| BitStream.BitOStream.WriteBit | include/tudocomp/io/BitOStream.hpp:79-88 | The bit is appended to everything written so far, across byte boundaries |
| BitStream.BitOStream.WriteInt | include/tudocomp/io/BitOStream.hpp:97-102 | The low bits of the value are appended, highest first |
| BitStream.BitOStream.Close | include/tudocomp/io/BitOStream.hpp:53-64 | The bytes left behind are the sealed form of all bits written |
| BitStream.BitIStream.constructor | include/tudocomp/io/BitIStream.hpp:69-81 | What can be read is the unsealed form of the bytes, also for empty and one-byte streams |
| BitStream.BitIStream.ReadNext | include/tudocomp/io/BitIStream.hpp:27-63 | Moving to the next byte keeps what remains to be read, with the final byte's bit count taken out |
| BitStream.BitIStream.ReadBit | include/tudocomp/io/BitIStream.hpp:91-109 | Takes the first remaining bit, or gives zero at the end |
| BitStream.BitIStream.ReadInt | include/tudocomp/io/BitIStream.hpp:118-126 | Takes the next bits as a number, padded with zeros past the end |
| BitCoder.BitsForMinimal | include/tudocomp/util.hpp:175-196 | The width for n holds n and, for positive n, one bit less would not |
| BitCoder.ItemFormat | include/tudocomp/Coder.hpp:60-77 | A ranged number takes the width of its range and holds the offset from the minimum, a literal takes eight bits, a bit one |
| BitCoder.Encoder.Encode | include/tudocomp/Coder.hpp:60-77 | Appends the offset from the range's minimum in the range's width, or one bit |
| BitCoder.Decoder.Decode | include/tudocomp/Coder.hpp:126-142 | Reads one value of the given range and leaves the rest of the stream |
| BitCoder.StreamRoundTrip | include/tudocomp/Coder.hpp:60-142 | Any mixed sequence of values read with the same ranges comes back, and whatever follows stays |
| BitCoder.EncodeAndDecode | include/tudocomp/Coder.hpp:60-142 | Writing with the encoder, closing, reopening and reading with the decoder returns the values and ends at the end of the stream |
| AsciiCoder.NumberOfDecimal | include/tudocomp/coders/ASCIICoder.hpp:58-73 | Reading the decimal digits of a number gives the number |
| AsciiCoder.DecimalUnique | include/tudocomp/coders/ASCIICoder.hpp:33-49 | The digits written for a number are the only ones of that value without a needless leading zero |
| AsciiCoder.CharsFormat | include/tudocomp/coders/ASCIICoder.hpp:33-49 | A ranged number is its digits without a leading zero and a colon, a literal itself, a bit '0' or '1' |
| AsciiCoder.Encoder.Encode | include/tudocomp/coders/ASCIICoder.hpp:33-49 | Appends the characters of the value: decimal and colon, the literal, or '0' and '1' |
| AsciiCoder.Decoder.Decode | include/tudocomp/coders/ASCIICoder.hpp:57-84 | Reads one value and stops behind its terminator, also on streams that end early |
| AsciiCoder.TextRoundTrip | include/tudocomp/coders/ASCIICoder.hpp:33-84 | Any mixed sequence of values comes back from its characters, and whatever follows stays |
| AsciiCoder.EncodeAndDecodeAscii | include/tudocomp/coders/ASCIICoder.hpp:33-84 | The same through both classes and a closed bit stream |
| ArithmeticTable.TableStep | include/tudocomp/coders/ArithmeticCoder.hpp:72-92 | After normalisation the cumulative table rises strictly at present literals and is constant elsewhere |
| ArithmeticTable.TableIsScaled | include/tudocomp/coders/ArithmeticCoder.hpp:72-92 | Every table entry is the number of literals up to it, divided by the least count of an occurring literal 1..255 and rounded down |
| ArithmeticTable.TotalIsNormalisedLength | include/tudocomp/coders/ArithmeticCoder.hpp:85-91 | The announced count is the text's length; the last entry, the encoder's minimal range and the normalised length agree |
| ArithmeticTable.BookSize | include/tudocomp/coders/ArithmeticCoder.hpp:119-144 | Exactly as many codebook entries are written as the codebook size announces |
| ArithmeticTable.BookSizeWithoutZero | include/tudocomp/coders/ArithmeticCoder.hpp:73-143 | With a literal 0 that is too rare, one entry fewer is written than announced |
| ArithmeticTable.BookIndex | include/tudocomp/coders/ArithmeticCoder.hpp:133-143 | Every literal of the text has its entry, right after the entry of the next smaller present literal |
| ArithmeticRoundTrip.OffsetExact | include/tudocomp/coders/ArithmeticCoder.hpp:109-115 | As long as the range is not below the total, the offset is computed without overflow and stays inside the range |
| ArithmeticRoundTrip.NarrowNests | include/tudocomp/coders/ArithmeticCoder.hpp:96-117 | Encoding a literal gives a non-empty interval inside the old one, at the literal's share of the range |
| ArithmeticRoundTrip.SearchFindsLiteral | include/tudocomp/coders/ArithmeticCoder.hpp:200-217 | For every code inside the encoder's new interval the search picks exactly the encoded literal and the same interval |
| ArithmeticRoundTrip.Lockstep | include/tudocomp/coders/ArithmeticCoder.hpp:96-222 | From equal intervals, the first code word lies in the current interval and the decoder returns exactly the remaining literals, over all blocks |
| ArithmeticRoundTrip.RunWritesRestWords | include/tudocomp/coders/ArithmeticCoder.hpp:146-176 | The encoder's calls write one word per flushed block, the last lower bound and the dummy, and nothing else |
| ArithmeticRoundTrip.ParseStream | include/tudocomp/coders/ArithmeticCoder.hpp:224-238 | Reading header, codebook and words back from the written bits gives the header and words that were written |
| ArithmeticDomain.SecondLiteralFits | include/tudocomp/coders/ArithmeticCoder.hpp:96-104 | After one literal in a fresh interval the range still holds another one |
| ArithmeticDomain.WordCount | include/tudocomp/coders/ArithmeticCoder.hpp:96-155 | n literals give at most (n-1)/2 + 2 words, so every flushed block holds two literals or more |
| ArithmeticDomain.OnlyLastIsDummy | include/tudocomp/coders/ArithmeticCoder.hpp:151-155 | No code word except the last one equals the dummy 2^64-1 |
| ArithmeticDomain.SupportedRoundTrips | include/tudocomp/coders/ArithmeticCoder.hpp:72-264 | Every supported text comes back from the encoder's bits, whatever the number of blocks |
| ArithmeticDomain.RoundTripIffSupported | include/tudocomp/coders/ArithmeticCoder.hpp:72-264 | A text comes back with the stream used up exactly if and only if it is supported |
| ArithmeticDomain.TopLiteralIsLost | include/tudocomp/coders/ArithmeticCoder.hpp:85-91 | A text of one literal 255 does not come back |
| ArithmeticDomain.LongTextIsLost | include/tudocomp/coders/ArithmeticCoder.hpp:236-238 | 2^31 twos and a single one do not come back: the total is read as a negative number |
| ArithmeticStream.SupportedComesBack | include/tudocomp/coders/ArithmeticCoder.hpp:224-264 | For every supported text the decoding loop until the end of the stream returns the text, with reads past the end padded |
| ArithmeticStream.DecodeRestGoes | include/tudocomp/coders/ArithmeticCoder.hpp:242-264 | While good code words follow, the calls return exactly the literals of the buffer and of these words, and then the stream is at its end |
| ArithmeticStream.ReadStream | include/tudocomp/coders/ArithmeticCoder.hpp:224-238 | The constructor reads back the header and codebook that were written and leaves the code words |
| ArithmeticStream.ReadBookTooFar | include/tudocomp/coders/ArithmeticCoder.hpp:230-238 | With one entry fewer written than announced, the next 40 bits of the code words become the last entry |
| ArithmeticStream.ZeroWordDividesByZero | include/tudocomp/coders/ArithmeticCoder.hpp:119-238 | If a literal 0 is too rare and the first code word is 0, the first call of decode divides by zero |
| ArithmeticStream.LeadingRareZeroIsLost | include/tudocomp/coders/ArithmeticCoder.hpp:72-264 | Every text that starts with a literal 0 rarer than all others ends in a division by zero |
| ArithmeticStream.RareZeroIsLost | include/tudocomp/coders/ArithmeticCoder.hpp:76-90 | The text 1, 1, 0 is encoded, and decoding it with padded reads divides by zero |
| ArithmeticExamples.RoundedDown | include/tudocomp/coders/ArithmeticCoder.hpp:87-90 | Counts of three, two and three give the values 1, 2 and 4 |
| ArithmeticExamples.TwoLiterals | include/tudocomp/coders/ArithmeticCoder.hpp:96-176 | The whole stream of the text 1, 2, field by field |
| ArithmeticCoder.CountAlphabetLiterals | include/tudocomp/coders/ArithmeticCoder.hpp:52-65 | The array holds every literal's number of occurrences, modulo 2^32 |
| ArithmeticCoder.Encoder.constructor | include/tudocomp/coders/ArithmeticCoder.hpp:158-166 | The array left behind holds these rounded-down quotients for every countable text, and the header and codebook are written |
| ArithmeticCoder.Encoder.BuildIntervals | include/tudocomp/coders/ArithmeticCoder.hpp:72-92 | In place, counts become the normalised table; size, length and minimal range are those of the specification |
| ArithmeticCoder.Encoder.WriteCodebook | include/tudocomp/coders/ArithmeticCoder.hpp:119-144 | Appends length, size and exactly the entries where the table rises |
| ArithmeticCoder.Encoder.SetNewBounds | include/tudocomp/coders/ArithmeticCoder.hpp:96-117 | Flushes and resets a too small interval, then narrows it as the specification says; fails only on an empty table |
| ArithmeticCoder.Encoder.Encode | include/tudocomp/coders/ArithmeticCoder.hpp:168-176 | One call is one step of the specification, with the closing words after the last literal |
| ArithmeticCoder.Decoder.ReadCodebook | include/tudocomp/coders/ArithmeticCoder.hpp:224-238 | On any stream: reads the announced length, the codebook size and that many entries, with zeros past the end, and takes the last value as the minimal range |
| ArithmeticCoder.Decoder.SearchInterval | include/tudocomp/coders/ArithmeticCoder.hpp:203-214 | The loop's result is the specified interval search |
| ArithmeticCoder.Decoder.DecodeCode | include/tudocomp/coders/ArithmeticCoder.hpp:190-221 | The buffer receives exactly one block's literals |
| ArithmeticCoder.Decoder.Decode | include/tudocomp/coders/ArithmeticCoder.hpp:242-264 | On any stream: returns the next buffered literal or the closing zero, reading the next word as soon as the buffer is used up; a division by zero or an access further behind is reported |
| ArithmeticCoder.DecodeAll | test/arithm_tests.cpp:28-37 | Opening any closed stream and decoding until its end is the specified decoding of its bits |
| ArithmeticCoder.EncodeAndDecode | test/arithm_tests.cpp:11-40 | For any text the result is the specified decoding of the specified encoding, and every supported text comes back |
| OptionEval.Evaluate | include/tudocomp/AlgorithmStringParser.hpp:94-277 | The loops of the evaluator compute the specified evaluation, failures included |
| OptionArgs.ArgumentValues | include/tudocomp/AlgorithmStringParser.hpp:174-268 | An invocation succeeds exactly if its arguments are accepted, the fixed ones match the static ones one to one, and every argument looked at has a value that evaluates. The result holds exactly these arguments: the last expression written for the name, else the fixed one, else the default; the selection lists the static ones in order |
| Defaults.DefaultMeansBare | include/tudocomp/Meta.hpp:125-144 | The expression declared as a default evaluates as its algorithm invoked without arguments does |
| Defaults.BareInvocation | include/tudocomp/AlgorithmStringParser.hpp:199-206 | A gathered algorithm can be invoked without arguments exactly if every option has a default that evaluates, and each option then has its default |
| OptionEval.FixedArgumentsWin | include/tudocomp/AlgorithmStringParser.hpp:106-112 | When evaluation with fixed arguments succeeds, the selection is the fixed tree at all levels if and only if that tree has no empty name below its root |
| OptionEval.EmptyFixedPartGivesWay | include/tudocomp/AlgorithmStringParser.hpp:106-112 | With x fixed to an algorithm without a name, the invocation a(x = b) selects b and not the fixed tree |
| OptionEval.PatternEvalAgrees | include/tudocomp/AlgorithmStringParser.hpp:279-296 | Whenever full evaluation succeeds, pattern evaluation succeeds with the same selection |
| OptionEval.SelectionNamedBelow | include/tudocomp/AlgorithmStringParser.hpp:245-252 | No selection contains an unnamed algorithm below its root |
| OptionEval.MoreFuel | include/tudocomp/AlgorithmStringParser.hpp:237-243 | A result reached within some recursion depth is the result for every larger depth |
| OptionEval.WalkSignature | include/tudocomp/AlgorithmStringParser.hpp:177-263 | The signature loop with its reversed and popped stack of fixed arguments computes the specified arguments |
| OptionEval.FindArgNames | include/tudocomp/AlgorithmStringParser.hpp:140-172 | The loop computes the specified argument names or fails |
| OptionEval.ArgNamesByIndex | include/tudocomp/AlgorithmStringParser.hpp:140-172 | The arguments are accepted exactly when every keyword is declared and every positional one has a place in the signature and no keyword before it; each gets its keyword or the name at its place |
| Meta.MetaObject.Templated | include/tudocomp/Meta.hpp:92-112 | The four lists of the object stay those of the sequence of option calls, and a name declared twice fails |
| Meta.MetaObject.TemplatedDefault | include/tudocomp/Meta.hpp:125-144 | The same when the declaration just pushed is popped and pushed again with its default |
| Meta.MetaObject.Dynamic | include/tudocomp/Meta.hpp:150-170 | The same for options read from a string, with and without default |
| Meta.GatherKeeps | include/tudocomp/Meta.hpp:292-332 | Without a reported conflict names stay unique per type, nothing known before changes and the whole meta tree is known |
| Gathering.GatherSucceeds | include/tudocomp/Meta.hpp:292-332 | Gathering fails exactly if two declarations of one type and name differ, within the tree or from what is known; it declares the tree and nothing else |
| Gathering.GatherKnown | include/tudocomp/Meta.hpp:303-324 | Gathering a tree that is known changes nothing |
| Gathering.SharedCoder | include/tudocomp/Meta.hpp:303-320 | Two compressors over the same coder are gathered one after the other |
| Meta.OwnEval | include/tudocomp/Registry.hpp:11-19 | After gathering, pattern evaluation of the meta's own static arguments returns that same tree exactly when it can be named, and fails otherwise |
| Meta.UnnameableIsNotEvaluated | include/tudocomp/Registry.hpp:11-19 | A meta of the type "string" and one over a nameless algorithm are gathered without a conflict and do not evaluate |
| SelectionKeys.EvalLater | include/tudocomp/Registry.hpp:11-25 | Registering more algorithms never changes what an accepted invocation evaluates to |
| SelectionKeys.SelectionWellFormed | include/tudocomp/AlgorithmStringParser.hpp:177-268 | Every selection fits the declarations: known names, static arguments in declared order and type |
| SelectionKeys.SelectionKey | include/tudocomp/Registry.hpp:204-218 | The key used for selecting is the one pattern evaluation gives for the same invocation, now or after more registrations |
| SelectionKeys.BuilderSelectsRegisteredKey | include/tudocomp/CreateAlgorithm.hpp:31-58 | An algorithm created by its type is selected under the very key it was registered with, whatever options the user passes; if its own name is empty the options alone decide |
| Builder.Builds | include/tudocomp/CreateAlgorithm.hpp:31-58 | Building by type without options, or with the static arguments repeated, succeeds exactly if every dynamic option down the static tree has a default that is not empty and every static argument is named |
| Enumeration.CrossIsProduct | include/tudocomp/util.hpp:282-306 | For non-empty lists of lists without empty members the result holds exactly the concatenations of one choice from each list |
| Enumeration.CrossSize | include/tudocomp/util.hpp:282-306 | Its size is the product of the sizes |
| Enumeration.CrossLoop | include/tudocomp/util.hpp:282-306 | The nested loops compute it |
| Enumeration.SeenBound | include/tudocomp/Registry.hpp:53-63 | At most three entries per known type are ever on the stack, which bounds the recursion |
| Enumeration.EnumExact | include/tudocomp/Registry.hpp:38-122 | A pattern is enumerated exactly when it is well formed and within the limit on every path |
| Enumeration.AllowedIffBounded | include/tudocomp/Registry.hpp:53-65 | Within the limit means: no root-to-leaf path has more than three nodes of one type, those already seen included |
| EnumerationOnce.EnumOnce | include/tudocomp/Registry.hpp:38-122 | No selection is listed twice |
| Reachability.GatherKeepsClosed | include/tudocomp/Meta.hpp:292-332 | Gathering without a conflict keeps the type of every static argument known |
| Reachability.RegistrationsClose | include/tudocomp/Registry.hpp:11-25 | So does any sequence of conflict-free registrations |
| Reachability.EnumSucceeds | include/tudocomp/Registry.hpp:38-84 | With no unknown type the enumeration succeeds exactly when every option on every way down, no type more than three times on it, has a name |
| RegistryObject.Registry.GatherTypes | include/tudocomp/Meta.hpp:292-324 | Extends the map in place, keeping names unique per type, and reports a conflict exactly if two declarations of one type and name differ |
| RegistryObject.Registry.RegisterAlgorithm | include/tudocomp/Registry.hpp:11-25 | Stores the constructor under the static tree of the meta; for the root type this succeeds exactly without a conflict, for a tree that can be named and a key that is not taken; earlier entries stay |
| RegistryObject.Registry.Select | include/tudocomp/Registry.hpp:204-218 | Finds the implementation registered under the pattern of the invocation, or none |
| RegistryObject.Registry.AllInternal | include/tudocomp/Registry.hpp:38-122 | Terminates, computes the specified enumeration and gives the stack of seen types back unchanged |
| RegistryObject.Registry.AllAlgorithmsWithStatic | include/tudocomp/Registry.hpp:124-136 | For the root type: exactly the registered patterns with at most three nodes of one type on every path, each once; with no unknown type it fails only for an unknown root or a nameless option within reach |
| RegistryObject.Registry.CheckForUndefinedAlgorithms | include/tudocomp/Registry.hpp:138-147 | Never reports anything, and with no unknown type fails only for an unknown root or a nameless option within reach |
| PipelineInvariant.RunKeepsInv | etc/WikiExtractor.py:2809-2924 | Every interleaving keeps every dispatched, unwritten page in exactly one place with its text, stops behind pages and sentinels counted |
| PipelineRuns.WrittenInOrder | etc/WikiExtractor.py:2904-2924 | After every run entry i of the output is the text extracted from page i, or empty if its extraction raised, for the pages 0 to next_page-1 |
| PipelineRuns.FinishedMeansAllWritten | etc/WikiExtractor.py:2916-2924 | When the reducer has taken the final None, or the mapper is done, every page is written and the spool is empty |
| PipelineRuns.NextPageIsInSpool | etc/WikiExtractor.py:2904-2924 | A non-empty spool with no page in flight contains the next page |
| PipelineRuns.NeverDeadlocks | etc/WikiExtractor.py:2777-2840 | Every reachable state that is not final has an enabled step, despite bounded queues, throttle and joins |
| PipelineRuns.RunsAreBounded | etc/WikiExtractor.py:2809-2924 | A run over n pages with w workers has at most 9n + 2w + 6 steps |
| PipelineRuns.MaximalRunsWriteEverything | etc/WikiExtractor.py:2809-2924 | Every run that cannot continue has ended with all pages written |
| PipelineLoad.HoldsBounded | etc/WikiExtractor.py:2772-2812 | With a positive process count no queue outgrows its size, and the pages held anywhere, the reorder buffer included, are at most the spool limit, what queues and workers hold, and two |
| Braces.FindMatchingBraces | etc/WikiExtractor.py:1139-1200 | The nested loops over the stack end and yield exactly the specified spans |
| Braces.SpansOrdered | etc/WikiExtractor.py:1139-1200 | For every text, each span starts behind the previous one, does not end before it starts and lies inside the text |
| BracesFound.SearchLeftmost | etc/WikiExtractor.py:1132-1137 | A search takes the leftmost place where enough equal characters of an asked kind follow each other, to their end, or none if there is no such place |
| BracesFound.TidyFound | etc/WikiExtractor.py:1139-1200 | For every text of nested templates, arguments and links whose runs do not touch, and every least length, the spans are exactly the outermost structures of that length |
| BracesFound.TemplateFound | etc/WikiExtractor.py:1139-1200 | Two braces around plain text in plain text yield exactly this span |
| BracesFound.ArgumentFound | etc/WikiExtractor.py:1139-1200 | So do three braces |
| BracesFound.LinkFound | etc/WikiExtractor.py:1139-1200 | And two square brackets |
| BracesMerged.LooseFound | etc/WikiExtractor.py:1139-1200 | Without a least length the same holds for texts whose runs touch |
| BracesMerged.UnevenFound | etc/WikiExtractor.py:1100-1104 | A longer closing run leaves its rest outside the span as plain text, a shorter one closes nothing |
| BracesMerged.AmbiguousSkipped | etc/WikiExtractor.py:1168-1176 | An opening run over two structures of which only the inner one has the least length yields nothing with that length and the outer structure without one |
| Braces.SplitParts | etc/WikiExtractor.py:1058-1090 | The parts are the text cut at the bars outside all spans, and joining them with bars gives the text back |
| Braces.PartsOutside | etc/WikiExtractor.py:1062-1071 | Outside spans a stretch of text is split at each of its bars |
| Braces.PartsInside | etc/WikiExtractor.py:1074-1076 | Inside a span nothing is cut: the stretch goes to the last part as a whole |
| BracesParts.ParametersBack | etc/WikiExtractor.py:1058-1090 | Texts without bars outside their structures, joined with bars, are the parts that splitting gives back |
| Braces.BracesCloseBrackets | etc/WikiExtractor.py:1105-1175 | Two opening square brackets and two closing braces yield the empty span at 0 |
| BracesComment.BracketIsClosed | etc/WikiExtractor.py:1160-1175 | A run of closing braces that meets an open square bracket on top of the stack always closes it |
| BracesComment.RunReadAsDocumented | etc/WikiExtractor.py:1105-1175 | One run of closing braces is read as the comment says exactly if it does not get to an open square bracket |
| BracesComment.DocumentedUnlessBracketMet | etc/WikiExtractor.py:1105-1200 | A text is read as the comment says exactly if its scan meets no two closing braces while a square bracket is open on top, and then the spans are those of the comment |
| BracesComment.CurlyOnlyIsDocumented | etc/WikiExtractor.py:1132-1137 | Scans that ask for curly braces only, and texts without two opening square brackets in a row, are read as the comment says |
| BracesComment.BracketsReadOtherwise | etc/WikiExtractor.py:1105-1175 | For the text of `BracesCloseBrackets` the comment gives no span and the code gives one |
| RedBlackShape.Zip | www/charter/d3.v3.js:5255-5440 | The heap forms the whole tree exactly when it forms the part in focus and the path around it, parent pointers included |
| RedBlackShape.PlugBalanced | www/charter/d3.v3.js:5286-5323 | A part that fits its path makes a tree with black root, no red node with a red child and equal black heights |
| RedBlackShape.UnplugBalanced | www/charter/d3.v3.js:5331-5357 | Taking such a tree apart anywhere leaves a part that fits its path |
| RedBlackShape.InorderPlug | www/charter/d3.v3.js:5255-5440 | The in-order traversal is what lies before, inside and after the part in focus |
| RedBlackRepair.RecolouredFits | www/charter/d3.v3.js:5286-5294 | Red uncle: recolouring moves the only flaw two levels up and keeps order and nodes |
| RedBlackRepair.InnerFits | www/charter/d3.v3.js:5295-5300 | Black uncle, inner child: after the first rotation the flaw is still the only one |
| RedBlackRepair.OuterFits | www/charter/d3.v3.js:5301-5304 | Black uncle: after the second rotation nothing is left to repair above |
| RedBlackRepair.LoweredFits | www/charter/d3.v3.js:5366-5372 | Red sibling: afterwards the sibling is black and the part is still exactly one black node short |
| RedBlackRepair.NearFits | www/charter/d3.v3.js:5374-5379 | Only the near nephew red: afterwards the far one is |
| RedBlackRepair.FarFits | www/charter/d3.v3.js:5380-5384 | Far nephew red: the whole tree is balanced again with the same order and nodes |
| RedBlackRepair.PaledFits | www/charter/d3.v3.js:5408-5411 | No red nephew: the shortage moves one level up |
| RedBlackRepair.CutFits | www/charter/d3.v3.js:5329-5357 | Taking a node out leaves a part that is short by one black node exactly if the colour that went missing is black |
| RedBlackRepair.CutOrder | www/charter/d3.v3.js:5329-5357 | The others keep their order when a node is taken out, its successor moving up or not |
| RedBlackTree.First | www/charter/d3.v3.js:5441-5444 | Ends at the leftmost node of the subtree |
| RedBlackTree.Tree.RotateLeft | www/charter/d3.v3.js:5415-5427 | All pointers, the parent's and the root included, form the rotated tree in the same place |
| RedBlackTree.Tree.RotateRight | www/charter/d3.v3.js:5428-5440 | The mirror image |
| RedBlackTree.Tree.RepairInsertion | www/charter/d3.v3.js:5285-5323 | The loop ends with a sound red-black tree of the same nodes in the same order |
| RedBlackTree.Tree.Insert | www/charter/d3.v3.js:5256-5324 | The tree stays sound, the new node is the only new one and stands right behind the given node, or first, in traversal and neighbour list |
| RedBlackTree.PutFar | www/charter/d3.v3.js:5336-5347 | The successor takes the node's place, colour and children, and its own right child takes its old place |
| RedBlackTree.Tree.RepairRemoval | www/charter/d3.v3.js:5359-5412 | The loop ends with a sound red-black tree of the same nodes in the same order |
| RedBlackTree.Tree.Remove | www/charter/d3.v3.js:5325-5413 | The tree stays sound, exactly the node is gone from traversal and neighbour list, and its own neighbours are cleared |
| RedBlackRuns.Run | www/charter/d3.v3.js:5255-5414 | After every legal sequence of insertions and removals the tree is sound and its order is that of the list operations |
| RedBlackRuns.TakeUndoesInsert | www/charter/d3.v3.js:5255-5414 | Removing a node just inserted gives the old order back |
| RedBlackRuns.DepthIsLogarithmic | www/charter/d3.v3.js:5286-5323 | A sound tree of n nodes with L levels has 2^ceil(L/2) at most n + 1 |
| StatPhases.RunKeepsInv | include/tudocomp_stat/StatPhase.hpp:61-278 | Every well-nested run keeps the accounting invariant of all open and ended phases |
| StatPhases.EveryRunAccounts | include/tudocomp_stat/StatPhase.hpp:73-112 | Strict ancestors track; each phase's memory is what was charged in it and below it; its peak is its highest value; offset plus memory and offset plus peak agree with the parent |
| StatPhases.EveryEndedPhaseAccounts | include/tudocomp_stat/StatPhase.hpp:114-128 | The same for every ended child that the parent still holds |
| StatEvents.EventReachesAll | include/tudocomp_stat/StatPhase.hpp:73-86 | With the current phase tracking, allocating or freeing n bytes raises or lowers the memory of every open phase by n and only allocating can raise a peak; otherwise nothing changes |
| StatEvents.MemoryIsNet | include/tudocomp_stat/StatPhase.hpp:73-112 | In every run an open phase holds the allocated minus the freed bytes of the events tracked since it began, and its peak is the highest that balance has been |
| StatEvents.EndedWithNet | include/tudocomp_stat/StatPhase.hpp:114-128 | A phase that ends goes behind its parent's earlier children with that balance and peak |
| StatPhases.SplitIsEndBegin | include/tudocomp_stat/StatPhase.hpp:258-278 | A split equals ending the phase and beginning the next, and the recomputed offset equals the parent's memory |
| StatPhases.StatPhase.TrackInternal | include/tudocomp_stat/StatPhase.hpp:73-86 | An event is counted here and in every ancestor up to the first that does not track |
| StatPhases.Statics.TrackEvent | include/tudocomp_stat/StatPhase.hpp:178-192 | Tracking is the specified step on the stack of phases |
| StatPhases.Statics.Begin | include/tudocomp_stat/StatPhase.hpp:233-237 | A new phase becomes the current one, with the parent paused only around its allocation |
| StatPhases.Statics.Destroy | include/tudocomp_stat/StatPhase.hpp:251-256 | The current phase is appended to its parent, which becomes current |
| StatPhases.Statics.Split | include/tudocomp_stat/StatPhase.hpp:264-278 | The same object starts the next sibling phase |
| StreamBufferer.StreamBufferer.Process | etc/python_libs/sh.py:2994-3057 | Nothing is lost or reordered; lines end at their only newline; all sized chunks have their size exactly if the given condition on count and buffer holds |
| StreamBufferer.StreamBufferer.ChangeBuffering | etc/python_libs/sh.py:2979-2991 | Switching to unbuffered marks the buffer to be used up first, and nothing that is buffered is lost |
| StreamBufferer.StreamBufferer.Flush | etc/python_libs/sh.py:3060-3070 | Everything taken in so far has then been given out |
| StreamBufferer.Drive | etc/python_libs/sh.py:2994-3070 | For every sequence of calls each call returns what the specification says, and all bytes returned followed by a final flush are the input bytes |
| StreamBufferer.DriveSized | etc/python_libs/sh.py:3039-3054 | From a fresh buffer with a fixed size every chunk has exactly that size and less than one chunk remains |
| StreamBufferer.DriveLines | etc/python_libs/sh.py:3015-3036 | In fixed line mode every chunk is one line and no newline remains |
| StreamBufferer.SizedExactly | etc/python_libs/sh.py:3039-3054 | All chunks of a call have the buffer size exactly if there is not enough counted for one or enough held and given for one |
| StreamBufferer.CallKeepsBytes | etc/python_libs/sh.py:2979-3070 | What a call returns and leaves in the buffer is what was held and what came in, in order |
| StreamBufferer.UnbufferedReturns | etc/python_libs/sh.py:3005-3013 | Without buffering a chunk is returned as it came, behind what was held before |
| StreamBufferer.UnbufferedFromStart | etc/python_libs/sh.py:3005-3013 | From an unbuffered start every call returns exactly its chunk |
| StreamBufferer.ShortChunkAfterFlush | etc/python_libs/sh.py:3060-3067 | Some bytes, a flush, some more: the second chunk goes out alone as soon as both together reach the size, because a flush does not reset the count |
| StreamBufferer.OneByteChunk | etc/python_libs/sh.py:3060-3067 | Three bytes, a flush and one byte more give a chunk of one byte in a buffer of four |
| GroupSplit.SplitGroups | etc/genregistry.py:302-346 | The groups hold exactly the instances, in falling sizes, and any two are told apart by a name that all of one have and none of the other; for duplicate-free, pairwise different hierarchies the loop succeeds with exactly the wanted number of non-empty groups |
| GroupSplit.ChooseName | etc/genregistry.py:313-327 | The name chosen is the most frequent one that not all instances have; the index error means there is none |
| GroupSplit.NameExists | etc/genregistry.py:326-336 | Two instances with different names always leave a name that some have and some have not |
| GroupSplit.RoundKeepsTotal | etc/genregistry.py:307-343 | A round keeps the instances and the order of sizes and adds one group |
| GroupSplit.RoundSeparates | etc/genregistry.py:326-343 | The two halves are told apart by the chosen name, and all other pairs stay apart |
| GroupSplit.SplitMembers | etc/genregistry.py:326-336 | The first half are the instances that have the name, the second those that do not |
| GroupSplit.SortStable | etc/genregistry.py:338-342 | Sorting keeps the order of groups of one size |

## Left out

- OptionEval.Evaluate: recursion is bounded by a depth parameter, because declared defaults may refer to each other in circles; `MoreFuel` shows that a result does not depend on the bound, circular defaults have none.
- OptionEval: the parser of invocation strings, error texts, flags of text data structures and evaluation of the `string` type beyond its check.
- RegistryObject.Registry.RegisterAlgorithm: constructors are values of a type parameter; environments and instances are not built.
- RegistryObject.Registry.AllAlgorithmsWithStatic: types and arguments that make the source stop with an error make the result None.
- ArithmeticStream.RareZeroIsLost: texts with a rare zero whose first code word is not 0 do not come back with the stream used up exactly (`RoundTripIffSupported`); what the padded loop returns for them is computed by the specification and not described further.
- ArithmeticCoder.Decoder: accesses that the source leaves undefined (an empty codebook, a character further behind the buffer than its closing zero) make the result None.
- ArithmeticCoder: ranges other than literals on the same stream; the coder consumes the stream in words.
- BitStream: unary, ternary, Elias and compressed integers; output and input objects below the bit streams are byte sequences.
- BitCoder.Decoder.Decode: values are size_t; a narrower result type would truncate.
- PipelineSystem: operating-system processes and the feeder threads of queues are steps of one system; a worker that dies, logging, output files and compression are left out, and extraction of a page is an arbitrary result.
- Braces: the scanner is a generator in the source; the model returns all spans at once.
- RedBlackTree.Tree.Insert: callers pass a node that is in the tree and a node that is not, as the source's callers do; the rest of d3 is not modelled.
- StatPhases: times, titles, user statistics, JSON output and the malloc override; byte counts are unbounded integers, where the source adds unsigned sizes to signed fields; the sibling list is a sequence.
- StatPhases.Statics.Finish: operations are those of the current phase; ending a phase that is not the current one is not modelled.
- StreamBufferer: the lock, text encodings other than one byte per newline, and negative buffer sizes.
- GroupSplit.SplitGroups: the branch that does not group, file names and hashing.
- Everything else in the repository: compressors, text data structures, tries, driver, documentation generator, web pages.
