# Verification of the Tuyul TCP library and its vendored GoogleTest/GoogleMock

This project models the behaviour of the Tuyul repository in Dafny and proves properties of the
model. Tuyul itself is a small epoll-based TCP library; most of the repository's algorithms live in
the GoogleTest and GoogleMock sources vendored with it. Paths below are relative to the root of the
repository.

- **Matching** (`Matching.dfy`): the unordered matchers decide whether elements and matchers can be
  paired by running Ford-Fulkerson over two mutually referent vectors, one depth-first search per
  left node. One pass gives a matching of maximum size. The certificate is the set of right nodes
  that failed searches have seen: no residual path leaves it, and every other matching can be charged
  injectively to the matched right nodes.
- **Filters** (`Filter.dfy`): the glob matcher that remembers only the last `*`, splitting at `:` and
  `-`, and the filter language built from them, against a declarative meaning of globs.
- **Simple regular expressions** (`Regex.dfy`, `RegexMeaning.dfy`): the validator accepts exactly the
  texts of a parse tree, and the matcher decides membership in the language of that tree. What each
  class, escape, repetition and anchor matches, and where each character may stand, is stated once more
  by character codes.
- **Edit scripts and diffs** (`EditDistance.dfy`, `UnifiedDiff.dfy`): the dynamic program and its
  backtrace, interning of lines, and hunks. The script read back is compared with all scripts, and the
  exact condition under which it is a cheapest one is proved. The hunks, applied like a patch, turn
  left into right, remove and add exactly the lines the script does, by number, and each is framed by
  exactly the context asked for.
- **Primes** (`Primes.dfy`): trial division, the sieve and their hybrid, against divisibility.
- **Codecs** (`Decimal.dfy`, `Base64.dfy`, `Utf8.dfy`, `Literal.dfy`): 128-bit decimal printing,
  Base64 decoding, UTF-8 and UTF-16, and C++ string literals, each against an independent reference
  (canonical numerals, the encoders of sections 4 and 5 of RFC 4648, the encoding of section 3 and
  the grammar of section 4 of RFC 3629, the pairs of section 2 of RFC 2781, the lexical rules of
  section 5.13.3 of ISO C++17).
- **Prerequisites** (`Prerequisites.dfy`): the worklist traversals of the expectation graph, against
  reachability by paths. Where there is no visited set, the measure is the number of paths that start
  on the stack.
- **Registry and sharding** (`Shuffle.dfy`, `Registry.dfy`, `Sharding.dfy`): Fisher-Yates shuffling of
  ranges, the registry's invariants over registration, shuffling and unshuffling, and the partition of
  the selected tests over shards.
- **TCP server and client** (`Reactor.dfy`, `EndToEnd.dfy`, `TcpServer.dfy`, `TcpClient.dfy`): the
  edge-triggered reactor as a state machine in which steps of the event loop interleave with arbitrary
  steps of peers and kernel; joint runs, in which the peer of one connection is a client that logs its
  calls of `send_data`; and the loops of both sides as code, every system call of which is a step of
  the machine. In every state of every joint run the bytes at the server's callback and under way are,
  in order, those the client's calls handed over.

Code that works step by step is a class or a method with loops, proved against functions and
predicates on values; about those the lemmas state what the code is for.

## Where a plausible claim is false

The model keeps the code as it is. Each claim is refuted by the condition under which it does hold:

| plausible claim | holds exactly when | member |
|---|---|---|
| the edit script is a cheapest one | some cheapest script that matches equal elements passes no cell where a tie between adding and removing is resolved to a dearer replacement; in particular if there is no such cell | `EditDistance.CheapestIffClearRoute`, `EditDistance.CheapestIfNoBadTie` |
| the edit table holds least costs | no cell resolves such a tie badly | `EditDistance.TableIsLeastIffNoBadTie` |
| the unified diff is a correct patch | the context is positive, or nothing changed | `UnifiedDiff.CreateUnifiedDiff`, `UnifiedDiff.NoContextNoPatch` |
| `FullMatch` means membership of the whole string | the pattern does not end in an escaped dollar sign | `SimpleRegex.FullMatchAnchored` |
| the printed literal denotes the string | no NUL is immediately followed by an octal digit | `StringLiteral.RoundTrip` |
| what is written for a code point is UTF-8 | it is a scalar value, or above 21 bits (a remark in ASCII is written) | `Utf8.WrittenIsUtf8` |
| the output for a wide string is UTF-8 | 16-bit characters: every high surrogate is followed by a low one and every low one preceded by a high one; 32-bit characters: each is a scalar value or above 21 bits | `Utf8.WideStringToUtf8` |
| a test suite is the same by either accessor | the suites are in registration order (`GetTestSuite` ignores the shuffle) | `TestRegistry.AccessorsAgreeIffUnshuffled` |
| a death test suite registered into shuffled suites still runs among the first | the suite it displaces was in its own place | `TestRegistry.UnitTestImpl.Insert` |
| appending to a sequence keeps the prerequisites acyclic | the sequence's last expectation does not already require the new one | `Prerequisites.SequenceStaysAcyclic` |
| a graceful close means complete delivery | the read buffer is not empty | `Reactor.GracefulIsCompleteIff` |
| stopping the server releases every descriptor | no client was connected | `Reactor.StopReleasesAllIffNoClients` |
| disconnecting the client releases its descriptors | the client was still marked connected | `Client.TcpClient.Disconnect` |

## Model

| member | source | states |
|---|---|---|
| BipartiteMatching.MaxBipartiteMatchState.constructor | tuyul-lib/googletest/googlemock/src/gmock-matchers.cc:126-129 | a new state is valid and matches nothing |
| BipartiteMatching.MaxBipartiteMatchState.TryAugment | tuyul-lib/googletest/googlemock/src/gmock-matchers.cc:184-208 | true exactly if an augmenting path avoids the seen nodes; only the argument becomes newly matched; seen and trapped nodes keep their partner; a failed search leaves a set that no residual path leaves |
| BipartiteMatching.MaxBipartiteMatchState.Compute | tuyul-lib/googletest/googlemock/src/gmock-matchers.cc:132-163 | one attempt per left node gives a matching of maximum size, listed by increasing left node |
| BipartiteMatching.FindMaxBipartiteMatching | tuyul-lib/googletest/googlemock/src/gmock-matchers.cc:228-230 | the result is a matching and no matching is larger, for every finite graph |
| BipartiteMatching.TrappedBlocksPaths | tuyul-lib/googletest/googlemock/src/gmock-matchers.cc:184-208 | if all edges of a node lead into a set without residual exits, no augmenting path starts there |
| BipartiteMatching.CertificateBounds | tuyul-lib/googletest/googlemock/src/gmock-matchers.cc:132-163 | the certificate left by the single pass bounds every other matching by the number of matched right nodes |
| BipartiteMatching.AddFlow | tuyul-lib/googletest/googlemock/src/gmock-matchers.cc:200-205 | linking two nodes after the recursive call restores mutual reference except at the former partner |
| BipartiteMatching.PathThrough | tuyul-lib/googletest/googlemock/src/gmock-matchers.cc:184-208 | a path found by the recursive call extends to one of the caller |
| BipartiteMatching.FlowDecidesPairing | tuyul-lib/googletest/googlemock/src/gmock-matchers.cc:436-475 | the required injection or bijection exists exactly if the maximum matching covers the required sides |
| BipartiteMatching.FindPairing | tuyul-lib/googletest/googlemock/src/gmock-matchers.cc:436-475 | true exactly if the assignment demanded by the flags exists |
| BipartiteMatching.VerifyMatchMatrix | tuyul-lib/googletest/googlemock/src/gmock-matchers.cc:369-434 | true exactly if the sizes agree for exact matching and no required row or column is empty |
| BipartiteMatching.VerifyIsSound | tuyul-lib/googletest/googlemock/src/gmock-matchers.cc:369-434 | the pre-filter never rejects a matrix for which a pairing exists |
| BipartiteMatching.MatchAndExplain | tuyul-lib/googletest/googlemock/include/gmock/gmock-matchers.h:3644-3654 | filtering first and pairing then decides exactly the existence of the pairing |
| TestFilter.PatternMatchesString | tuyul-lib/googletest/googletest/src/gtest.cc:729-774 | the two-pointer matcher terminates and agrees with the declarative meaning of `?` and `*` |
| TestFilter.EarlierStarIsRedundant | tuyul-lib/googletest/googletest/src/gtest.cc:755-769 | remembering only the last star loses no match |
| TestFilter.SplitString | tuyul-lib/googletest/googletest/src/gtest.cc:1277-1292 | the parts are the fields between delimiters |
| TestFilter.SplitIsLossless | tuyul-lib/googletest/googletest/src/gtest.cc:1277-1292 | joining the fields gives the string back, and no field holds the delimiter |
| TestFilter.JoinIsReversible | tuyul-lib/googletest/googletest/src/gtest.cc:1277-1292 | splitting a join of delimiter-free fields gives the fields back |
| TestFilter.ExactIsGlob | tuyul-lib/googletest/googletest/src/gtest.cc:778-814 | for a pattern without wildcards, equality agrees with globbing |
| TestFilter.StarFreeMatches | tuyul-lib/googletest/googletest/src/gtest.cc:729-774 | a pattern without a star matches exactly the names of its length that agree with it wherever it has no question mark |
| TestFilter.StarMatches | tuyul-lib/googletest/googletest/src/gtest.cc:729-774 | a leading star matches any part of the name, the empty one included |
| TestFilter.PrefixPattern | tuyul-lib/googletest/googletest/src/gtest.cc:729-774 | text and a star match exactly the names that begin with the text |
| TestFilter.SuffixPattern | tuyul-lib/googletest/googletest/src/gtest.cc:729-774 | a star and text match exactly the names that end with the text |
| TestFilter.InfixPattern | tuyul-lib/googletest/googletest/src/gtest.cc:729-774 | text between stars matches exactly the names that contain it |
| TestFilter.UnitTestFilter.constructor | tuyul-lib/googletest/googletest/src/gtest.cc:788-802 | exact patterns and globs together hold exactly the fields of the filter |
| TestFilter.UnitTestFilter.MatchesName | tuyul-lib/googletest/googletest/src/gtest.cc:806-814 | true exactly if some pattern glob-matches the name |
| TestFilter.PositiveAndNegativeUnitTestFilter.constructor | tuyul-lib/googletest/googletest/src/gtest.cc:828-853 | the two filters are those of the parts before and after the first dash, `*` standing for an empty positive part |
| TestFilter.PositiveAndNegativeUnitTestFilter.MatchesTest | tuyul-lib/googletest/googletest/src/gtest.cc:858-861 | true exactly if the whole filter selects "suite.test" |
| TestFilter.PositiveAndNegativeUnitTestFilter.MatchesName | tuyul-lib/googletest/googletest/src/gtest.cc:865-868 | true exactly if a positive field matches and no negative field does |
| TestFilter.PartsOfFilter | tuyul-lib/googletest/googletest/src/gtest.cc:831-852 | splitting at every dash and rejoining the tail recovers the parts around the first dash |
| TestFilter.FilterLanguage | tuyul-lib/googletest/googletest/src/gtest.cc:828-868 | written with colons and a dash, a filter selects the names that a pattern before the dash matches, or all if there is none, and no pattern after it does |
| TestFilter.UniversalAcceptsAll | tuyul-lib/googletest/googletest/src/gtest.cc:188 | the universal filter accepts every name |
| TestFilter.NegativeOnly | tuyul-lib/googletest/googletest/src/gtest.cc:835-846 | a filter that begins with a dash selects exactly what the rest does not accept |
| SimpleRegex.ValidateRegex | tuyul-lib/googletest/googletest/src/gtest-port.cc:822-873 | accepts exactly the texts of well-formed parse trees |
| SimpleRegex.ScanRegex | tuyul-lib/googletest/googletest/src/gtest-port.cc:831-869 | the loop checks exactly the positional rules for escapes, anchors and repetitions |
| SimpleRegex.ValidMeansTree | tuyul-lib/googletest/googletest/src/gtest-port.cc:822-873 | the positional rules hold exactly if the text has a tree |
| SimpleRegex.TreeIsUnique | tuyul-lib/googletest/googletest/src/gtest-port.cc:822-873 | a text has at most one tree, so its language is well defined |
| SimpleRegex.MatchRepetitionAndRegexAtHead | tuyul-lib/googletest/googletest/src/gtest-port.cc:882-901 | true exactly if some allowed number of repetitions followed by the rest matches at the head |
| SimpleRegex.MatchRegexAtHead | tuyul-lib/googletest/googletest/src/gtest-port.cc:906-930 | true exactly if a prefix (the whole string if anchored) is in the language of the items |
| SimpleRegex.MatchRegexAnywhere | tuyul-lib/googletest/googletest/src/gtest-port.cc:940-950 | true exactly if a substring that respects the anchors is in the language |
| SimpleRegex.FullText | tuyul-lib/googletest/googletest/src/gtest-port.cc:982-994 | the stored full pattern is the text of the tree with anchors added, except behind an escaped dollar |
| SimpleRegex.RE.constructor | tuyul-lib/googletest/googletest/src/gtest-port.cc:968-995 | valid exactly if the text has a tree, which is then remembered |
| SimpleRegex.RE.PartialMatch | tuyul-lib/googletest/googletest/src/gtest-port.cc:963-965 | valid and some substring that respects the anchors is in the language |
| SimpleRegex.RE.FullMatch | tuyul-lib/googletest/googletest/src/gtest-port.cc:957-959 | valid and the whole string is in the language; where the pattern ends in an escaped dollar, valid and some prefix is |
| SimpleRegex.AnchoredMeaning | tuyul-lib/googletest/googletest/src/gtest-port.cc:982-994 | the stored full pattern matches exactly whole strings of the language, or prefixes where an escaped dollar takes the place of the anchor |
| SimpleRegex.LanguageInhabited | tuyul-lib/googletest/googletest/src/gtest-port.cc:781-811 | every well-formed list of items matches some string, and one without a NUL |
| SimpleRegex.FullMatchAnchored | tuyul-lib/googletest/googletest/src/gtest-port.cc:992-994 | full matching means whole-string membership for all C strings exactly if the pattern does not end in an escaped dollar |
| RegexMeaning.ClassMeaning | tuyul-lib/googletest/googletest/src/gtest-port.cc:763-807 | by character codes, `\d`, `\s` and `\w` match exactly digits, the six white-space characters, and letters, digits and the underscore; `\D`, `\S` and `\W` match exactly one other character |
| RegexMeaning.ControlMeaning | tuyul-lib/googletest/googletest/src/gtest-port.cc:788-801 | each control escape matches exactly its one character |
| RegexMeaning.LiteralMeaning | tuyul-lib/googletest/googletest/src/gtest-port.cc:807-810 | a dot matches any character but newline; every other plain character and every escaped punctuation mark matches exactly itself |
| RegexMeaning.RepetitionMeaning | tuyul-lib/googletest/googletest/src/gtest-port.cc:882-901 | `?`, `*` and `+` match at most one, any number, and at least one character, each of which the atom matches alone |
| RegexMeaning.SequenceMeaning | tuyul-lib/googletest/googletest/src/gtest-port.cc:906-930 | a sequence of items matches a string that splits into a match of the first one and a match of the others; the empty sequence matches the empty string alone |
| RegexMeaning.AnchorMeaning | tuyul-lib/googletest/googletest/src/gtest-port.cc:940-950 | plain characters are found where they occur; the anchors tie the place to the beginning, the end, or both |
| RegexMeaning.AnchorSpelling | tuyul-lib/googletest/googletest/src/gtest-port.cc:940-950 | how such patterns are written |
| RegexMeaning.ItemSpelling | tuyul-lib/googletest/googletest/src/gtest-port.cc:906-930 | how escapes and repetitions are written |
| RegexMeaning.EscapesAreValid | tuyul-lib/googletest/googletest/src/gtest-port.cc:764-777 | by character codes, the characters that may follow a backslash |
| RegexMeaning.ValidWithoutEscapes | tuyul-lib/googletest/googletest/src/gtest-port.cc:822-873 | a text without escapes is valid exactly if it has no bracket, brace or bar, `^` only first, `$` only last, and a repetition only behind something to repeat |
| RegexMeaning.ValidWithEscape | tuyul-lib/googletest/googletest/src/gtest-port.cc:834-849 | a text with an escape is valid exactly if the escape is and the text with a letter in its place is; a lone backslash at the end never is |
| EditDistance.CalculateOptimalEdits | tuyul-lib/googletest/googletest/src/gtest.cc:1334-1389 | the script read back transforms left into right and costs exactly the last table entry; no script is cheaper exactly if some cheapest script comes through no bad tie |
| EditDistance.FillTable | tuyul-lib/googletest/googletest/src/gtest.cc:1336-1376 | every cell holds the cost and the move of the recurrence |
| EditDistance.FillCell | tuyul-lib/googletest/googletest/src/gtest.cc:1353-1374 | one cell is filled from its three neighbours, keeping all others |
| EditDistance.PathTransforms | tuyul-lib/googletest/googletest/src/gtest.cc:1379-1388 | from every cell the backtraced script is valid for the prefixes and costs the table entry |
| EditDistance.LeastIsLowerBound | tuyul-lib/googletest/googletest/src/gtest.cc:1334-1389 | no valid script is cheaper than the least cost |
| EditDistance.LeastIsReached | tuyul-lib/googletest/googletest/src/gtest.cc:1334-1389 | some valid script has the least cost |
| EditDistance.CheapestIffClearRoute | tuyul-lib/googletest/googletest/src/gtest.cc:1334-1389 | no valid script costs less than the one read back exactly if some cheapest script that matches equal elements passes no badly resolved tie |
| EditDistance.CheapestIfNoBadTie | tuyul-lib/googletest/googletest/src/gtest.cc:1364-1374 | without a badly resolved tie anywhere the script read back is a cheapest one |
| EditDistance.TableIsLeastIffNoBadTie | tuyul-lib/googletest/googletest/src/gtest.cc:1364-1374 | the table holds least costs exactly if no tie between adding and removing is resolved to a dearer replacement |
| EditDistance.NotAlwaysOptimal | tuyul-lib/googletest/googletest/src/gtest.cc:1364-1374 | "aba" to "bab" gives three replacements where a removal and an addition suffice |
| EditDistance.Prices | tuyul-lib/googletest/googletest/src/gtest.cc:1357-1373 | a match is free, adding and removing cost the same, a replacement 1.00001 times as much |
| EditDistance.LastStep | tuyul-lib/googletest/googletest/src/gtest.cc:1353-1374 | the last step from a cell: a match where the elements are equal, else the neighbour that alone is cheapest, else a replacement |
| UnifiedDiff.InternalStrings.GetId | tuyul-lib/googletest/googletest/src/gtest.cc:1394-1406 | equal strings get equal numbers, different strings different ones, and old numbers stay |
| UnifiedDiff.InternedPath | tuyul-lib/googletest/googletest/src/gtest.cc:1410-1424 | interning does not change the edit script |
| UnifiedDiff.CalculateOptimalEditsOfStrings | tuyul-lib/googletest/googletest/src/gtest.cc:1410-1424 | the script for the lines themselves, which it transforms |
| UnifiedDiff.Hunk.FlushEdits | tuyul-lib/googletest/googletest/src/gtest.cc:1472-1475 | removals then additions move behind the hunk, nothing is lost |
| UnifiedDiff.Hunk.PushLine | tuyul-lib/googletest/googletest/src/gtest.cc:1441-1457 | a line shows on its sides after everything pushed before, and is counted |
| UnifiedDiff.Hunk.PrintTo | tuyul-lib/googletest/googletest/src/gtest.cc:1459-1493 | prints all lines, removals before additions in each block; the header shows the range of a side exactly if the side has edits, with the number of its lines |
| UnifiedDiff.HunkApplies | tuyul-lib/googletest/googletest/src/gtest.cc:1459-1493 | a hunk that shows two slices applies at the place its header names |
| UnifiedDiff.StartHunk | tuyul-lib/googletest/googletest/src/gtest.cc:1516-1529 | a new hunk starts with equal lines right before the next edit, and does not reach back into the previous hunk |
| UnifiedDiff.FillHunk | tuyul-lib/googletest/googletest/src/gtest.cc:1531-1560 | the hunk shows consecutive slices of both sides, ends only where the next edit is far, and no run of common lines in it reaches twice the context |
| UnifiedDiff.FramingStep | tuyul-lib/googletest/googletest/src/gtest.cc:1534-1548 | pushing one more edit keeps the bounds on common lines: a run grows past the context only when the next edit is near |
| UnifiedDiff.FramingEnds | tuyul-lib/googletest/googletest/src/gtest.cc:1535-1543 | where the inner loop stops, the hunk ends with exactly the context, or the edits are used up |
| UnifiedDiff.NextHunk | tuyul-lib/googletest/googletest/src/gtest.cc:1516-1568 | one round of the outer loop: the next hunk shows consecutive slices, carries the edits from where the last one ended to where it ends, and stops as the inner loop does; or nothing is left to show |
| UnifiedDiff.HunkDone | tuyul-lib/googletest/googletest/src/gtest.cc:1516-1568 | with the new hunk, the hunks so far turn a longer prefix of left into one of right, carry exactly the edits before it by line number, and stay framed |
| UnifiedDiff.TextAtNumber | tuyul-lib/googletest/googletest/src/gtest.cc:1441-1493 | in a hunk that shows a slice, the line with a given number has exactly the text at that place of the side |
| UnifiedDiff.CreateUnifiedDiff | tuyul-lib/googletest/googletest/src/gtest.cc:1509-1570 | with context of at least one line, applying the hunks to left gives right, the numbers of the lines they remove and add are exactly those of the script's removals and additions, and each is framed by exactly the context asked for; without context nothing is emitted; each header shows the range of a side exactly if some line of that side is edited, with its number of lines and where they stand |
| UnifiedDiff.HeadersTell | tuyul-lib/googletest/googletest/src/gtest.cc:1481-1492 | in terms of the lines, what the headers of all hunks show |
| UnifiedDiff.ShapeMeaning | tuyul-lib/googletest/googletest/src/gtest.cc:1503-1508 | what framing counts: the common lines at either end of a hunk and its longest run of them |
| UnifiedDiff.FramedMeaning | tuyul-lib/googletest/googletest/src/gtest.cc:1503-1508 | in terms of the lines: an edited line near either end of a hunk, exactly the context at both ends unless the text ends there, and nowhere twice as many common lines |
| UnifiedDiff.NoContextNoPatch | tuyul-lib/googletest/googletest/src/gtest.cc:1533-1565 | an empty diff is a correct patch exactly if nothing changed |
| Primes.LargerPrime | tuyul-lib/googletest/googletest/samples/prime_tables.h:66-72 | there is a prime above every number, so the unbounded search ends |
| Primes.OnTheFlyIsPrime | tuyul-lib/googletest/googletest/samples/prime_tables.h:55-64 | trial division up to the square root decides primality for every integer |
| Primes.OnTheFlyGetNextPrime | tuyul-lib/googletest/googletest/samples/prime_tables.h:66-72 | the least prime above p; -1 for negative p |
| Primes.StruckIndexAddsNothing | tuyul-lib/googletest/googletest/samples/prime_tables.h:106-109 | an index already struck out can be skipped: its divisors have done all of its work |
| Primes.EvenIndexAddsNothing | tuyul-lib/googletest/googletest/samples/prime_tables.h:106-107 | skipping even indices above 2 loses nothing |
| Primes.StartAtSquare | tuyul-lib/googletest/googletest/samples/prime_tables.h:112-113 | starting at the square loses nothing |
| Primes.PreCalculatedPrimeTable.constructor | tuyul-lib/googletest/googletest/samples/prime_tables.h:80-84 | for every max of at least 1 the table marks exactly the primes up to max |
| Primes.PreCalculatedPrimeTable.CalculatePrimesUpTo | tuyul-lib/googletest/googletest/samples/prime_tables.h:100-116 | afterwards an index is marked exactly if it is prime |
| Primes.PreCalculatedPrimeTable.Strike | tuyul-lib/googletest/googletest/samples/prime_tables.h:111-114 | striking the multiples of an index from its square on removes exactly the numbers it divides |
| Primes.PreCalculatedPrimeTable.IsPrime | tuyul-lib/googletest/googletest/samples/prime_tables.h:87-89 | prime and within the table |
| Primes.PreCalculatedPrimeTable.GetNextPrime | tuyul-lib/googletest/googletest/samples/prime_tables.h:91-97 | the least prime above p if the table holds one, else -1 |
| Primes.HybridPrimeTable.constructor | tuyul-lib/googletest/googletest/samples/sample8_unittest.cc:50-55 | the table is present unless the on-the-fly one is forced |
| Primes.HybridPrimeTable.IsPrime | tuyul-lib/googletest/googletest/samples/sample8_unittest.cc:61-66 | primality, for every integer and either configuration |
| Primes.HybridPrimeTable.GetNextPrime | tuyul-lib/googletest/googletest/samples/sample8_unittest.cc:68-74 | the least prime above every non-negative p; for negative p what the two tables answer |
| Decimal.DivisionStep | tuyul-lib/googletest/googletest/src/gtest-printers.cc:309-320 | one step gives the true quotient and remainder by ten, and no word exceeds 64 bits |
| Decimal.DivideByTen | tuyul-lib/googletest/googletest/src/gtest-printers.cc:309-320 | the two words hold the quotient, with wrap-around arithmetic |
| Decimal.WriteDigits | tuyul-lib/googletest/googletest/src/gtest-printers.cc:291-323 | the canonical numeral stands right before the terminator of the 40-byte buffer |
| Decimal.PrintUnsigned | tuyul-lib/googletest/googletest/src/gtest-printers.cc:291-323 | the canonical numeral of every 128-bit value, zero included |
| Decimal.PrintSigned | tuyul-lib/googletest/googletest/src/gtest-printers.cc:324-331 | the numeral of the magnitude behind a minus sign if negative, also for the least value |
| Decimal.NumeralDenotes | tuyul-lib/googletest/googletest/src/gtest-printers.cc:291-323 | the numeral is made of digits without a leading zero and denotes the number |
| Decimal.NumeralIsUnique | tuyul-lib/googletest/googletest/src/gtest-printers.cc:291-323 | no other numeral without leading zeros denotes it |
| Decimal.ThirtyNineDigits | tuyul-lib/googletest/googletest/src/gtest-printers.cc:297-299 | 39 digits are enough for 128 bits |
| Base64.TableIsInverse | tuyul-lib/googletest/googlemock/src/gmock-internal-utils.cc:203-227 | the lookup table inverts both alphabets and marks every other character |
| Base64.TakeSextet | tuyul-lib/googletest/googlemock/src/gmock-internal-utils.cc:244-252 | one step of the loop completes exactly the bytes the sextets determine and keeps the leftover bits |
| Base64.Base64Unescape | tuyul-lib/googletest/googlemock/src/gmock-internal-utils.cc:229-255 | fails exactly if a character other than white space and `=` is outside both alphabets; else the bytes of the sextets |
| Base64.AcceptedInputs | tuyul-lib/googletest/googlemock/src/gmock-internal-utils.cc:235-243 | acceptance depends on each character alone |
| Base64.BytesInvertSextets | tuyul-lib/googletest/googlemock/src/gmock-internal-utils.cc:229-255 | regrouping four sextets into three bytes inverts the encoding for every byte sequence |
| Base64.RegroupBehindFour | tuyul-lib/googletest/googlemock/src/gmock-internal-utils.cc:244-252 | each group of four codes is regrouped by itself, whatever follows |
| Base64.SameBits | tuyul-lib/googletest/googlemock/src/gmock-internal-utils.cc:229-255 | three bytes and the four sextets that encode them are the same 24 bits |
| Base64.EncodedInGroups | tuyul-lib/googletest/googlemock/src/gmock-internal-utils.cc:229-255 | each three bytes are encoded by themselves |
| Base64.EncodedRemainder | tuyul-lib/googletest/googlemock/src/gmock-internal-utils.cc:229-255 | one or two bytes left over are encoded as if zeros followed |
| Base64.SameBitsBack | tuyul-lib/googletest/googlemock/src/gmock-internal-utils.cc:244-252 | four sextets and the three bytes they decode to are the same 24 bits |
| Base64.DecodedInGroups | tuyul-lib/googletest/googlemock/src/gmock-internal-utils.cc:244-252 | each four sextets are decoded by themselves, and of an incomplete group only the complete bytes |
| Base64.SkippedCharacters | tuyul-lib/googletest/googlemock/src/gmock-internal-utils.cc:236 | by character codes, what is skipped: 9 to 13, the blank and the equals sign |
| Base64.InsertSkipped | tuyul-lib/googletest/googlemock/src/gmock-internal-utils.cc:235-238 | these characters may be inserted anywhere into an encoding |
| Base64.RoundTrip | tuyul-lib/googletest/googlemock/src/gmock-internal-utils.cc:229-255 | decoding any encoding of a byte sequence, padded or not, in either alphabet, with white space anywhere, gives the sequence back |
| Utf8.EncodedIsChar | tuyul-lib/googletest/googletest/src/gtest.cc:2015-2041 | the octets of a value of up to 21 bits are a character of the grammar exactly if it is a scalar value |
| Utf8.CharIsEncoded | tuyul-lib/googletest/googletest/src/gtest-printers.cc:483-514 | every character of the grammar is the encoding of its scalar value |
| Utf8.WellFormedIsUtf8 | tuyul-lib/googletest/googletest/src/gtest-printers.cc:483-514 | cutting off one grammar character after the other succeeds exactly for concatenations of encodings |
| Utf8.DecodingIsUnique | tuyul-lib/googletest/googletest/src/gtest-printers.cc:483-514 | the decomposition into scalar values is unique |
| Utf8.IsValidUTF8 | tuyul-lib/googletest/googletest/src/gtest-printers.cc:483-514 | true exactly for concatenations of encodings of scalar values |
| Utf8.StoreChars | tuyul-lib/googletest/googletest/src/gtest.cc:2021-2040 | chopping six bits at a time stores the encoding and a terminator within five bytes |
| Utf8.CodePointToUtf8 | tuyul-lib/googletest/googletest/src/gtest.cc:2015-2041 | the encoding for 1 to 0x1FFFFF, nothing for 0, a remark above |
| Utf8.HexDenotes | tuyul-lib/googletest/googletest/src/gtest.cc:2015-2019 | the remark gives the code point in upper-case hexadecimal digits without leading zeros |
| Utf8.WrittenIsUtf8 | tuyul-lib/googletest/googletest/src/gtest.cc:2015-2041 | what is written is UTF-8 exactly for scalar values and values above 21 bits |
| Utf8.BitFieldsAreDigits | tuyul-lib/googletest/googletest/src/gtest.cc:2003-2007 | chopping low bits by mask and shift is remainder and quotient by 64 |
| Utf8.MarkersAreAdded | tuyul-lib/googletest/googletest/src/gtest.cc:2023-2039 | setting the marker bits of an octet adds them |
| Utf8.SurrogateMasks | tuyul-lib/googletest/googletest/src/gtest.cc:2050-2067 | the masks recognise exactly the surrogate ranges and extract their offsets |
| Utf8.PairBits | tuyul-lib/googletest/googletest/src/gtest.cc:2056-2067 | the bit-vector expression that combines a surrogate pair is the arithmetic of the model |
| Utf8.NextCodePoint | tuyul-lib/googletest/googletest/src/gtest.cc:2089-2097 | the next code point, a surrogate pair being combined |
| Utf8.WideStringToUtf8 | tuyul-lib/googletest/googletest/src/gtest.cc:2082-2102 | for 16-bit and 32-bit characters, what is written for the code points of the units before the terminator and within the length; it is UTF-8 exactly if every surrogate is paired, or every 32-bit unit can be written |
| Utf8.VisibleMeaning | tuyul-lib/googletest/googletest/src/gtest.cc:2082-2090 | the units that count are those before the first NUL, before the end, and no more than asked for |
| Utf8.LimitMeaning | tuyul-lib/googletest/googletest/src/gtest.cc:2082-2085 | all units for -1, none for any other negative number |
| Utf8.UnitsOfUtf16 | tuyul-lib/googletest/googletest/src/gtest.cc:2050-2067 | reading back the UTF-16 of scalar values gives the values |
| Utf8.Transcode | tuyul-lib/googletest/googletest/src/gtest.cc:2082-2102 | well-formed UTF-16 or UTF-32 without NUL becomes the UTF-8 of the same code points |
| Utf8.ValidOutput | tuyul-lib/googletest/googletest/src/gtest.cc:2082-2102 | the text written for a list of code points is UTF-8 exactly if each is a scalar value or above 21 bits |
| Utf8.WritableIffPaired | tuyul-lib/googletest/googletest/src/gtest.cc:2089-2097 | every code point read from UTF-16 can be written exactly if each high surrogate is followed by a low one and each low one preceded by a high one |
| StringLiteral.PrintAsCharLiteralTo | tuyul-lib/googletest/googletest/src/gtest-printers.cc:150-196 | the text and the format of every byte in a character literal |
| StringLiteral.PrintAsStringLiteralTo | tuyul-lib/googletest/googletest/src/gtest-printers.cc:200-211 | the same for a string literal, where the double quote is escaped and the single one is not |
| StringLiteral.PrintCharsAsStringTo | tuyul-lib/googletest/googletest/src/gtest-printers.cc:338-363 | the literal, broken where a digit would extend a hexadecimal escape, and the format of the worst byte |
| StringLiteral.Spelling | tuyul-lib/googletest/googletest/src/gtest-printers.cc:150-196 | by character codes, how each byte is spelled: itself, a letter behind a backslash, or upper-case hexadecimal digits |
| StringLiteral.Interruption | tuyul-lib/googletest/googletest/src/gtest-printers.cc:338-363 | the literal is interrupted only between a byte spelled by hexadecimal digits and a character that could continue it |
| StringLiteral.PrintableIsItself | tuyul-lib/googletest/googletest/src/gtest-printers.cc:338-363 | a string of printable characters without quote or backslash is printed as it is, between quotes |
| StringLiteral.LexTail | tuyul-lib/googletest/googletest/src/gtest-printers.cc:338-363 | lexing what follows any byte gives what the rest denotes, whatever escape came before |
| StringLiteral.DenotedIsSelf | tuyul-lib/googletest/googletest/src/gtest-printers.cc:154-156 | the literal denotes the string exactly if no NUL precedes an octal digit, and is shorter otherwise |
| StringLiteral.RoundTrip | tuyul-lib/googletest/googletest/src/gtest-printers.cc:338-363 | lexing the printed text as adjacent literals gives the original exactly if no NUL precedes an octal digit |
| StringLiteral.DigitsRead | tuyul-lib/googletest/googletest/src/gtest-printers.cc:180-184 | the lexer reads upper-case and lower-case hexadecimal digits alike, and octal ones by their place |
| Prerequisites.Expectations.RetireAllPreRequisites | tuyul-lib/googletest/googlemock/src/gmock-spec-builders.cc:109-132 | from a closed retired set, exactly the transitive prerequisites are retired in addition, on every finite graph |
| Prerequisites.Expectations.RetireUnretired | tuyul-lib/googletest/googlemock/src/gmock-spec-builders.cc:122-130 | the inner loop keeps the marking: all that is retired and unexplored is pending |
| Prerequisites.Expectations.AllPrerequisitesAreSatisfied | tuyul-lib/googletest/googlemock/src/gmock-spec-builders.cc:136-153 | terminates on every acyclic graph without a visited set; true exactly if all transitive prerequisites are satisfied |
| Prerequisites.Expectations.FindUnsatisfiedPrerequisites | tuyul-lib/googletest/googlemock/src/gmock-spec-builders.cc:156-183 | adds exactly the unsatisfied prerequisites reached through expectations satisfied without a call |
| Prerequisites.FindsNothingIffAllSatisfied | tuyul-lib/googletest/googlemock/src/gmock-spec-builders.cc:136-183 | the two traversals agree: nothing is found exactly if all prerequisites are satisfied, when what was called has satisfied prerequisites |
| Prerequisites.NoSelfRequirement | tuyul-lib/googletest/googlemock/src/gmock-spec-builders.cc:136-153 | in an acyclic graph nothing requires itself |
| Prerequisites.Expectations.AddExpectation | tuyul-lib/googletest/googlemock/src/gmock-spec-builders.cc:759-767 | the sequence's previous last expectation becomes a prerequisite of the new one |
| Prerequisites.SequenceStaysAcyclic | tuyul-lib/googletest/googlemock/src/gmock-spec-builders.cc:759-767 | the graph stays acyclic exactly if the previous last expectation does not require the new one |
| Prerequisites.SequenceOrders | tuyul-lib/googletest/googlemock/src/gmock-spec-builders.cc:759-767 | the new expectation requires the previous one and all it requires |
| Shuffling.Random.Generate | tuyul-lib/googletest/googletest/src/gtest.cc:405-419 | the generator's next state, 1103515245 times the last plus 12345 modulo 2^31, reduced below the range |
| Shuffling.ShuffleRange | tuyul-lib/googletest/googletest/src/gtest-internal-inl.h:304-325 | the result is the Fisher-Yates permutation for exactly the numbers the generator yields from its state |
| Shuffling.ShuffledRearranges | tuyul-lib/googletest/googletest/src/gtest-internal-inl.h:304-325 | any choices permute the range onto itself and leave everything else in place |
| Shuffling.FirstChoiceShows | tuyul-lib/googletest/googletest/src/gtest-internal-inl.h:313-323 | the element at the first choice ends in the last place of the range |
| Shuffling.DrawAt | tuyul-lib/googletest/googletest/src/gtest-internal-inl.h:313-323 | number k drawn is the generator's next one, reduced below the width that is left |
| Shuffling.StateAfterDraws | tuyul-lib/googletest/googletest/src/gtest-internal-inl.h:313-323 | a shuffle draws one number fewer than it has elements |
| Shuffling.ShuffledKeepsMultiset | tuyul-lib/googletest/googletest/src/gtest-internal-inl.h:304-325 | any choices keep the multiset of elements |
| Shuffling.EveryOrderReachable | tuyul-lib/googletest/googletest/src/gtest-internal-inl.h:304-325 | every order of the range comes from some choices |
| Shuffling.ChoicesAreUnique | tuyul-lib/googletest/googletest/src/gtest-internal-inl.h:304-325 | different choices give different orders, so equally likely choices give equally likely orders |
| TestRegistry.UnitTestImpl.GetTestSuite | tuyul-lib/googletest/googletest/src/gtest.cc:5788-5828 | in any order of the suites: the registered suite of that name, by the fast path as by the map; else a new one behind the last death suite or at the end; death suites still run first exactly if it is none or comes in time |
| TestRegistry.UnitTestImpl.Insert | tuyul-lib/googletest/googletest/src/gtest.cc:5807-5827 | inserting keeps names unique and the indices an order; from a state in which death suites run first they still do exactly if the new one is none or the suite it displaces was in its own place; unshuffled stays unshuffled |
| TestRegistry.TestSuite.ShuffleTests | tuyul-lib/googletest/googletest/src/gtest.cc:3099-3101 | the tests of a suite are permuted by the generator's next numbers, and the vector stays a permutation |
| TestRegistry.TestSuite.UnshuffleTests | tuyul-lib/googletest/googletest/src/gtest.cc:3104-3108 | the tests are back in order of definition |
| TestRegistry.UnitTestImpl.ShuffleTests | tuyul-lib/googletest/googletest/src/gtest.cc:6315-6327 | death suites, then the others, then each suite's tests are permuted among themselves by consecutive numbers of the generator, and all invariants hold |
| TestRegistry.UnitTestImpl.UnshuffleTests | tuyul-lib/googletest/googletest/src/gtest.cc:6330-6337 | every order is the identity again, and death suites run first again even after a late registration |
| TestRegistry.UnitTestImpl.RepeatTests | tuyul-lib/googletest/googletest/src/gtest.cc:5926-6019 | every iteration runs in the order that its own seed determines, or in that of registration if no test is to run; the registry ends unshuffled and valid |
| TestRegistry.UnitTestImpl.RunIteration | tuyul-lib/googletest/googletest/src/gtest.cc:5926-6019 | one iteration: if any test is to run, each suite is run in the order of the seed if shuffling, else in that of registration; the order is undone afterwards, and the seed moves on |
| TestRegistry.UnitTestImpl.RunSuites | tuyul-lib/googletest/googletest/src/gtest.cc:5965-5975 | the suites are run once each, in the current order, if any test is to run |
| TestRegistry.StartLater | tuyul-lib/googletest/googletest/src/gtest.cc:6007-6018 | a run that starts with the seed of iteration i goes through the orders of the iterations from i on, so a failure can be reproduced without the earlier ones |
| TestRegistry.GetNextRandomSeed | tuyul-lib/googletest/googletest/src/gtest-internal-inl.h:131-137 | a valid seed other than the given one |
| TestRegistry.SeedsInOrder | tuyul-lib/googletest/googletest/src/gtest-internal-inl.h:131-137 | with shuffling the iterations go through the seeds 1 to 99999 in increasing order, wrapping around |
| TestRegistry.DeathTestNames | tuyul-lib/googletest/googletest/src/gtest.cc:185 | a suite is a death test suite exactly if its name ends in "DeathTest" or contains "DeathTest/" |
| TestRegistry.OrdersAreOrders | tuyul-lib/googletest/googletest/src/gtest.cc:6315-6327 | in the order of every seed each suite and each test has exactly one place, death test suites first |
| TestRegistry.GetElementOr | tuyul-lib/googletest/googletest/src/gtest-internal-inl.h:294-298 | the element, or the default outside the vector |
| TestRegistry.UnitTestImpl.GetMutableSuiteCase | tuyul-lib/googletest/googletest/src/gtest-internal-inl.h:603-606 | the suite at a place of the current order, or null |
| TestRegistry.UnitTestImpl.GetTestSuiteAt | tuyul-lib/googletest/googletest/src/gtest-internal-inl.h:591-594 | the suite at a place of the registration order, whatever the current one |
| TestRegistry.DeathTestsRunFirst | tuyul-lib/googletest/googletest/src/gtest.cc:6315-6327 | in every valid state all death suites run before all others |
| TestRegistry.EverySuiteRunsOnce | tuyul-lib/googletest/googletest/src/gtest.cc:6315-6337 | in every valid state every suite has exactly one place in the order of the run |
| TestRegistry.AccessorsAgreeIffUnshuffled | tuyul-lib/googletest/googletest/src/gtest-internal-inl.h:591-606 | the two accessors agree everywhere exactly if the order is the identity |
| TestRegistry.LateDeathTestSuite | tuyul-lib/googletest/googletest/src/gtest.cc:5811-5826 | one more death suite keeps the split of the order exactly if the suite it displaces was in its own place |
| Sharding.FilterTest | tuyul-lib/googletest/googletest/src/gtest.cc:6165-6190 | a test runs exactly if it is runnable and its number falls to the shard; the marks for disabled, selected and other shard are right |
| Sharding.DisabledNames | tuyul-lib/googletest/googletest/src/gtest.cc:180 | a name disables exactly if it begins with "DISABLED_" or contains "/DISABLED_" |
| Sharding.RunnableTest | tuyul-lib/googletest/googletest/src/gtest.cc:6165-6180 | a test is runnable exactly if the filter selects its full name and neither name disables it, unless disabled tests are wanted |
| Sharding.FilterSuite | tuyul-lib/googletest/googletest/src/gtest.cc:6161-6192 | a suite's tests are selected by number, both counters are right, and it runs exactly if one of its tests does |
| Sharding.FilterTests | tuyul-lib/googletest/googletest/src/gtest.cc:6143-6195 | over all suites the tests selected are those whose number among the runnable ones falls to the shard, every test is marked as disabled or selected by the filter exactly if it is; the value returned counts the selected |
| Sharding.FilterForEveryShard | tuyul-lib/googletest/googletest/src/gtest.cc:6143-6195 | filtering the same suites once per shard, each runnable test is chosen in exactly one of the runs, any other in none, the values returned add up to the runnable tests, and the suites are left as the last run chose |
| Sharding.RunsPartition | tuyul-lib/googletest/googletest/src/gtest.cc:6132-6195 | of the first n runs, exactly one chose a runnable test if its shard is among them |
| Sharding.SelectionAt | tuyul-lib/googletest/googletest/src/gtest.cc:6132-6134 | test k is selected exactly if it is runnable and the number of runnable tests before it falls to the shard |
| Sharding.ShardsPartition | tuyul-lib/googletest/googletest/src/gtest.cc:6132-6195 | each runnable test is selected by exactly one of the shards, and no other test by any |
| Sharding.ShardSize | tuyul-lib/googletest/googletest/src/gtest.cc:6132-6134 | how many tests a shard runs |
| Sharding.ShardsAreBalanced | tuyul-lib/googletest/googletest/src/gtest.cc:6132-6134 | the sizes of two shards differ by at most one |
| Sharding.ShardsCoverAll | tuyul-lib/googletest/googletest/src/gtest.cc:6132-6195 | together the shards run as many tests as are runnable |
| Reactor.RunKeepsInv | tuyul-tcp/src/tcp_server.cpp:152-252 | the reactor's invariant holds in every state of every run of server, peer and kernel steps |
| Reactor.NoLostReadiness | tuyul-tcp/src/tcp_server.cpp:167-241 | whenever the server waits, every client with unread bytes or an unseen end of stream is registered and pending |
| Reactor.StreamConserved | tuyul-tcp/src/tcp_server.cpp:219-241 | bytes delivered, buffered, received and on the wire are, in order, the bytes accepted, in every state of every run |
| Reactor.GracefulCloseDeliversAll | tuyul-tcp/src/tcp_server.cpp:219-247 | with a non-empty buffer, a connection closed at the end of its stream has delivered every byte |
| Reactor.GracefulIsCompleteIff | tuyul-tcp/src/tcp_server.cpp:220-231 | a graceful close means complete delivery in all runs exactly if the buffer is not empty |
| Reactor.EmptyBufferRun | tuyul-tcp/src/tcp_server.cpp:220-231 | a run in which an empty buffer closes unread bytes away |
| Reactor.StopReleasesAllIffNoClients | tuyul-tcp/src/tcp_server.cpp:45-56 | in every run, after cleanup the descriptors left open are exactly those of connected clients; none exactly if no client was connected |
| Server.Kernel.EpollWait | tuyul-tcp/src/tcp_server.cpp:167 | a batch of pending descriptors, or none; a step of the machine |
| Server.Kernel.Read | tuyul-tcp/src/tcp_server.cpp:220 | any non-empty part of what was received that fits, the end of the stream, would-block only when nothing is readable, or an error |
| Server.TcpServer.AcceptAll | tuyul-tcp/src/tcp_server.cpp:184-214 | the accept loop ends; every connection handed out is watched, unless making it non-blocking or watching it failed, and none that was there before is dropped |
| Server.TcpServer.Admit | tuyul-tcp/src/tcp_server.cpp:199-213 | one new connection is watched once it is non-blocking, and closed only if one of the two calls failed |
| Server.TcpServer.ReadAll | tuyul-tcp/src/tcp_server.cpp:216-241 | the read loop ends with nothing readable or the connection finished; the callback has had exactly the bytes delivered on every connection, the new ones for this descriptor |
| Server.TcpServer.Handle | tuyul-tcp/src/tcp_server.cpp:182-248 | one event of the batch is dealt with, as steps of the machine |
| Server.TcpServer.Run | tuyul-tcp/src/tcp_server.cpp:152-254 | the whole event loop is a run of the machine that ends only when told to or when epoll_wait fails, not at a timeout or an interrupt; in every waiting state nothing readable lacks an event, the callback has had what was delivered, and the own descriptors are released in the end |
| Server.TcpServer.Cleanup | tuyul-tcp/src/tcp_server.cpp:45-56 | both own descriptors are closed and client connections are left alone; doing it twice changes nothing |
| Server.TcpServer.Stop | tuyul-tcp/src/tcp_server.cpp:80-84 | a running server is cleaned up, a stopped one left alone |
| Client.TcpClient.WriteAll | tuyul-tcp/src/tcp_client.cpp:209-229 | over any partial writes and refusals the log of the call grows by exactly the prefix the kernel took; success exactly for all of the payload, failure exactly after a refusal that is not would-block |
| Client.TcpClient.SendData | tuyul-tcp/src/tcp_client.cpp:203-230 | hands over a prefix of the payload, by which the stream the server's connection has accepted grows; success exactly if the client is connected and all of it was taken, and a connected client fails only after a refusal that is not would-block |
| Client.Socket.Write | tuyul-tcp/src/tcp_client.cpp:214 | the kernel takes some non-empty prefix of what is offered, or refuses; a step of the joint run on the server's own connection |
| Client.Socket.EpollWait | tuyul-tcp/src/tcp_client.cpp:163 | may be called only when nothing readable lacks an event; reports a pending event or nothing |
| Client.TcpClient.ReadAll | tuyul-tcp/src/tcp_client.cpp:172-189 | reads while data comes and reports a dropped server exactly after the end of the stream or an error, not after would-block; after a graceful end the callback has had the whole stream |
| Client.TcpClient.Work | tuyul-tcp/src/tcp_client.cpp:152-198 | the worker never waits with something readable and no event; it ends only when told to, when a wait fails, or when a read ends the stream or fails, and clears the flag except when a wait fails |
| Client.TcpClient.WorkOnce | tuyul-tcp/src/tcp_client.cpp:163-194 | one wait and the reads for it; timeouts and interrupts go on |
| Client.TcpClient.ShutdownPipeline | tuyul-tcp/src/tcp_client.cpp:43-61 | both descriptors are closed and forgotten |
| Client.TcpClient.Disconnect | tuyul-tcp/src/tcp_client.cpp:81-85 | the descriptors are released exactly if the client was still marked connected |
| EndToEnd.StreamArrives | tuyul-tcp/src/tcp_client.cpp:203-230 | in every state of every joint run of client and server, bytes at the server's callback and under way are, in order, the bytes the calls of send_data handed over; a prefix of the payloads as long as no failed call is followed by another |
| EndToEnd.AllDelivered | tuyul-tcp/src/tcp_server.cpp:219-247 | in every joint run, if all calls succeeded, a connection closed at the end of its stream has delivered exactly the payloads |
| EndToEnd.JointRunLinks | tuyul-tcp/src/tcp_client.cpp:213-227 | in every state of every joint run, what the connection has accepted is what the logged calls handed over |
| EndToEnd.OthersKeepPeerSide | tuyul-tcp/src/tcp_server.cpp:152-252 | no step of the server, the network or another peer adds to what a connection has accepted or finishes it |
| EndToEnd.JointRunIsRun | tuyul-tcp/src/tcp_server.cpp:152-252 | seen from the server, a joint run is a run of the reactor, so all that holds of those holds here |

## Left out

- Real sockets, `getaddrinfo`, `fcntl`, signals, threads and the unsynchronised flags: the kernel is an explicit environment whose every step is chosen freely; `stop` happens between iterations of the event loop.
- epoll itself: its behaviour is an assumption, stated by the steps of `Reactor.dfy` (an arrival puts a registered descriptor into the ready set, reporting it takes it out, registering a readable descriptor reports it, the listening socket is level-triggered).
- Unbounded activity of peers: `budget` and `rounds` bound how often others act within a call and how often the loops wait; both are arbitrary, and without such a bound draining a descriptor need not end.
- Setting up the listening socket and connecting (`TcpServer::start` before its loop, `TcpClient::connect_to` before its worker): straight-line error handling around system calls; the model starts with the descriptors open.
- A missing data callback: both loops are modelled with a callback set.
- Logging, message text, coloured output, XML and JSON reports, flag parsing and the `UNIT_TEST` branches: user interface and test scaffolding.
- The text of diffs: hunks and their headers are values, not formatted characters.
- Floating-point edit costs: scaled integers in the same ratios (100000 and 100001), which compare alike as long as the doubles are exact enough.
- Machine-integer overflow in the edit table, the diff positions and the prime loops: mathematical integers.
- Pointers: a C string is a sequence and a position, and terminators are explicit where the code tests them; sets of pointers become sets of numbers, without the order in which they are iterated.
- The buffers of the reactor are byte sequences, not arrays; the read buffer holds one chunk until the callback has had it.
- `std::partition` in the filter's constructor and `std::unordered_set`: only which patterns end up on which side is modelled, not their order.
- `ShouldShard` and the environment variables it reads: the shard is a parameter, already checked to be sensible.
- The POSIX regex backend, death tests, stream capture, process spawning and the Windows code: foreign calls.
- Template machinery, actions, cardinalities, listeners, event order and the easy samples (Counter, Factorial, MyString, Queue): no member beyond what their bodies say.
- Shared pointers, locks and `GTEST_CHECK_` failures: a failing check aborts, so its condition is a precondition.
- Base64.Base64Unescape: where `char` is signed, characters above 0x7F are left out, since the source then indexes its table far out of bounds; where it is unsigned they are covered.
- TestRegistry.UnitTestImpl.RepeatTests: the endless repetition of a negative repeat count, of which every finite part is covered.
- TestRegistry.UnitTestImpl.RunIteration: what running a suite does, environments, and `fail_fast`; only which suites run, and when, is modelled.
- Client.TcpClient.ShutdownPipeline: joining the worker thread is left out, as threads are.
- Primes.PreCalculatedPrimeTable.constructor: requires max >= 1, because index 1 is always written.
- Primes.PreCalculatedPrimeTable.GetNextPrime: requires p >= -1, because below that the source reads in front of the table; `Primes.HybridPrimeTable.GetNextPrime` inherits this.
- Shuffling.ChoicesAreUnique: uniformity is stated as a bijection between choices and orders, since the generator is deterministic.
- Prerequisites.Expectations.AllPrerequisitesAreSatisfied: requires an acyclic graph, on a cyclic one the source does not terminate; the same holds for `Prerequisites.Expectations.FindUnsatisfiedPrerequisites`.
- Server.TcpServer.Stop: client descriptors stay open, as in the source.
