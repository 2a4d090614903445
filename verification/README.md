# SinboHA in Dafny

SinboHA is an active/standby switch framework: two nodes exchange heartbeats, agree on
which of them is active, hand over on request and fail over on silence. It carries its
own copy of the spdlog logging library and of the fmt formatting library. This project
models the parts that are hard to get right and proves what they are for.

`dafny verify dfyconfig.toml` checks everything.

## The parts

| files | what they model |
|---|---|
| `HaStatus`, `HaElection`, `HaProtocol`, `HaFailover` | the status record of a node, the election rules, the two-node protocol with any number of heartbeat links, the failure detector |
| `Machine`, `Powers`, `Decimal` | machine integers, powers of two and ten, decimal notation |
| `Fp`, `CachedPowers`, `Grisu`, `GrisuFormat`, `Doubles` | printing a double with Grisu2, down to "the digits read back as the same double" |
| `CountDigits`, `Itoa`, `IntDigits`, `IntWriter`, `IntParsing`, `IntReading` | counting digits, the fixed-point itoa, the digit writers, padding and alignment, reading integers, formatted integers read back with sign and radix |
| `CircularQ`, `MpmcQueue`, `ThreadPool` | the ring buffer, the blocking queue under it as threads and critical sections, the worker pool and its shutdown |
| `FileNames`, `RotatingSink` | names of rotated files, the size-rotated log |
| `BraceParser`, `BraceGrammar` | the parser of format strings, and which strings it reads as what |
| `PatternPad`, `PatternCompiler`, `PatternFields`, `PatternDirectives`, `PatternFormatter` | padding, the compiler of `%` patterns, the texts of its fields, what each directive shows, the formatter with its time caches |
| `Calendar` | the offset from Greenwich computed from two broken-down times |

Objects that the program updates in place are classes with the same fields; each method is
proved against a function of its inputs or of the old state, and the promised properties
are lemmas about those functions. Concurrent code is a state machine over the steps that
other threads can see. Integers are bounded or wrapped wherever the width matters.

### Results worth knowing

* **Election.** From any two states, one quiet beat of each node leaves exactly one active
  node, unless the pair is two standbys of the same instant on a millisecond boundary
  (`OneRoundSettles`). When questions and answers interleave, on any number of links, an
  idle pair with a winner keeps it in every undisturbed run (`WinnerStays`), and two active
  nodes are reachable if and only if neither beats the other and the pair is not deadlocked
  (`SplitBrainIff`); from a start, only within one millisecond (`SplitBrainAtStart`).
* **Two active nodes.** Under `Disciplined` (a node goes on standby in another millisecond
  than its peer's last change, a switch waits for the node's own answer, a failover fires
  only when the peer neither is nor is about to be active) two active nodes are
  unreachable from a settled pair if and only if each node has one heartbeat link
  (`SafeIffSingleLink`); the program starts two. No clause of the discipline can be dropped,
  even with one link: `SwitchWhileWaiting`, `SwitchInSameMilli`, `DenialInSameMilli`,
  `FalseAlarmUnsafe` and `EarlyAlarmUnsafe` each break one of them once and end with two.
* **Times.** Over any history a node's change time is the time of the last event that changed
  its status, its live time that of the last contact (`ChangeTimeIsLastChange`,
  `LiveTimeIsLastContact`; in the two-node protocol `TimesAfter`).
* **Healing.** Two active nodes that hear each other are down to one after a beat of each,
  when the beats do not overlap: the one activated in the later millisecond stays
  (`DoubleActiveHeals`, `LaterFailoverStays`). When they overlap it still does
  (`LaterStaysActive`); but nodes activated within one millisecond, and only those, can
  demote each other (`BothDemotedIff`), become active together again, and go on like that
  for ever (`MayNeverHeal`).
* **Failover.** A contact that arrives after the detector has read the clock does not stop
  the takeover (`LateContactTakesOver`).
* **Grisu2.** For every positive finite double the digits denote a number strictly inside
  its rounding interval, hence read back as it, and no number of a larger decimal exponent
  lies in that interval but within 2^-60 of its ends (`FormatPositive`). The table of
  cached powers is not assumed: all 87 entries are proved to be within half a unit.
* **Format strings.** The strings read without an error are exactly those spelled from text with
  its braces doubled and from fields with an automatic, numbered or named argument; the parser
  reports each as its pieces (`FormatGrammar`, `ReportsPieces`), and the wrong fields as the
  error they are (`WrongNumber`, `WrongStart`, `WrongAfterName`, `WrongSpecs`).
* **Integers.** Without its fill a formatted integer is sign, radix mark and digits of one letter
  case, for every type letter, and reads back as the number, sign included
  (`SignedReadsBack`).
* **Pool shutdown.** Needs a queue with at least one slot (`ZeroCapacityHangs` otherwise);
  then it cannot deadlock, cannot run forever without infinitely many timeouts and spurious
  wake-ups, and drains everything accepted. The destructor can return if and only if there
  is a slot (`ReturnsIffSlot`).
* **Rotating log.** While renames succeed, what is on disk is a suffix of what was written,
  short only of files pushed out of the last slot; a rename that fails twice costs the text
  of slot 0 as well, and the size counter stays right.
* **Patterns.** Every pattern is spelled from plain characters, directives and a directive cut
  short by its end, and shows what they show, one after the other, each with the spaces of
  its width on the side its sign asks for (`EveryPattern`, `PaddedDirective`); every
  numeric field reads back as its number, for every time (`NumberReadsBack`).
* **Pattern width.** The width of `%`-padding is the one written, cut to 128, exactly when it
  fits 64 bits or happens to wrap to at least 128 (`WidthAsWritten`, `WidthWraps`).
* **Pattern fields.** The default formatter is its documented pattern exactly for messages of
  a named logger without a source location (`DefaultIsDocumented`). A field of time honours
  every width exactly when the size it declares is its size (`EveryWidthHonoured`), which
  for years 1000 to 9999 is (`FieldFits`): never for `%D`; for `%c` outside September on
  two-digit days and in September on one-digit days; for `%E` while the seconds take ten
  characters; for `%e`, `%f` and `%F` from the epoch on and, before it, only when the
  fraction is zero; for `%C` unless the two-digit year is below -9; always for the others.
* **Time caches.** Exact once some message has been logged outside the seconds around the
  epoch that truncate to zero; until then the default pattern always prints a wrong date
  (`DefaultPatternExact`).
* **Offset.** Exact when the code misjudges the leap days of both years or of neither; it
  misjudges only years before year 1 (`OffsetExact`, `OffsetWrongBeforeYearOne`).

### Where code and comments disagree

The code is followed in each case.

* `spdlog/fmt/bundled/format-inl.h:429-430` promises a cached exponent at most 3 above the
  minimum. It is the least one in the table, at most 26 above (`ChosenExponent`), as for a
  minimum of 4 (`TwentySixAbove`); within 3 if and only if the table has one there
  (`WithinThreeIff`).
* `format-inl.h:406-408` calls the lower boundary half way to the predecessor; at the smallest
  normal double it is nearer (`LowerIsMidpoint`).
* `spdlog/details/pattern_formatter.h:328` calls `%D` equivalent to `%m/%d/%y`; there is no
  `%y` flag, the two never agree (`ShortYearFlagMissing`), and it is `%m/%d/%C` (`DatePattern`).
* The note on `OnReceiveData` (`SinboHA.h:64`, GBK) says it is not called while the node is not active;
  the code passes it on only on standby.

### Where the status record's bodies are

The bodies of the status record are in `src/SinbohaSolution/Sinboha/SinbohaImp.cpp`, lines
148-388, a file in GBK encoding; rows below cite its declarations in `SinbohaImp.h` and the
callers. In that file: `IfAllowPeerActivate` 171-260, `TryActivate` 262-306, `Switch` 308-330,
`RecvData` 344-358, `BrainSplit` 365-388. Clock readings are ticks of 100 nanoseconds, as in
the Visual C++ library the project is built with; truncation to milliseconds is what
matters, not the tick.

## Model

| member | source | states |
|---|---|---|
| HaStatus.Wire | src/SinbohaSolution/Sinboha/SinbohaNetClient.cpp:44 | the time on the wire is a whole number of milliseconds, the change time less the fraction |
| HaStatus.StatusRep.constructor | src/SinbohaSolution/Sinboha/SinbohaImp.h:15 | a node starts pending, with no callback, its creation as change time and a clock reading as the last sign of the peer |
| HaStatus.StatusRep.IfAllowPeerActivate | src/SinbohaSolution/Sinboha/SinbohaImp.h:18 | a peer's question is answered by the election table and noted as a sign of life; nothing else changes (SinbohaImp.cpp:171-260) |
| HaStatus.StatusRep.TryActivate | src/SinbohaSolution/Sinboha/SinbohaImp.h:19 | a "yes" makes the node active, a "no" standby; the change time becomes the present, and the callback hears of it, exactly on a real change (SinbohaImp.cpp:262-306) |
| HaStatus.StatusRep.Switch | src/SinbohaSolution/Sinboha/SinbohaImp.h:20 | only an active node can be switched, to standby since now; otherwise failure and no change (SinbohaImp.cpp:308-330) |
| HaStatus.StatusRep.BrainSplit | src/SinbohaSolution/Sinboha/SinbohaImp.h:27 | the node becomes active, since now if it was not, and is notified then (SinbohaImp.cpp:365-388) |
| HaStatus.StatusRep.RecvData | src/SinbohaSolution/Sinboha/SinbohaImp.h:25 | data is accepted exactly on standby and then passed to the callback once (SinbohaImp.cpp:344-358) |
| HaElection.WireOrder | src/SinbohaSolution/Sinboha/SinbohaRPCHandler.h:24-28 | a truncated time compares the right way across milliseconds and, within one, as the boundary decides |
| HaElection.ExactlyOneGrant | src/SinbohaSolution/Sinboha/SinbohaNetClient.cpp:41-55 | of two nodes asking each other, both are let through, or neither, exactly in the two kinds of tie within a millisecond |
| HaElection.UnknownIsRefused | src/SinbohaSolution/Sinboha/SinbohaRPCHandler.h:24-28 | a status outside the three, as the unchecked cast from the wire can give, is never let through and lets nobody through |
| HaElection.OneRoundSettles | src/SinbohaSolution/Sinboha/SinbohaSync.cpp:129-135 | from any two states one quiet beat of each leaves one active and one standby, and says which; the one exception is characterised |
| HaElection.SettledForever | src/SinbohaSolution/Sinboha/SinbohaSync.cpp:129-135 | a settled (or deadlocked) pair never changes by itself |
| HaElection.AnyScheduleSettles | src/SinbohaSolution/Sinboha/SinbohaSync.cpp:115-142 | every quiet schedule in which each node beats ends settled, unless it began deadlocked |
| HaElection.SwitchHandsOver | src/SinbohaSolution/Sinboha/SinbohaImp.h:20 | after a switch by hand the standby takes over, whichever node beats first, if and only if it has been on standby since an earlier millisecond, or since the boundary of the one of the switch |
| HaProtocol.WinnerStays | src/SinbohaSolution/Sinboha/SinbohaSync.cpp:106-143 | from an idle pair of any two records of which one beats the other, in every interleaving on any number of links the winner keeps its record or becomes active and the loser keeps its record or goes on standby |
| HaProtocol.SplitBrainIff | src/SinbohaSolution/Sinboha/SinbohaSync.cpp:106-143 | from an idle pair not both active, an undisturbed run can reach two active nodes if and only if both or neither would be let through and the pair is not deadlocked |
| HaProtocol.ElderWins | src/SinbohaSolution/Sinboha/SinbohaSync.cpp:106-143 | over all interleavings of questions, answers and losses on any number of links, the node that started first is never demoted and the other never active |
| HaProtocol.SplitBrainAtStart | src/SinbohaSolution/Sinboha/SinbohaNetClient.cpp:41-74 | an undisturbed start can end with two active nodes if and only if neither is the elder to the millisecond |
| HaProtocol.SafeStep | src/SinbohaSolution/Sinboha/SinbohaSync.cpp:115-142 | the safety invariant is kept by every disciplined step |
| HaProtocol.NeverTwoActive | src/SinbohaSolution/Sinboha/SinbohaSync.cpp:106-143 | with one link each and the discipline, no run of questions, answers, losses, switches and failovers has two active nodes |
| HaProtocol.SafeIffSingleLink | src/SinbohaSolution/Sinboha/SinbohaSync.cpp:106-143 | from a settled pair with at least one link each, a disciplined run can reach two active nodes if and only if some node has a second link |
| HaProtocol.SafeStarts | src/SinbohaSolution/Sinboha/SinbohaImp.h:15-20 | the invariant holds at start-up and at every settled moment |
| HaProtocol.SwitchWhileWaiting | src/SinbohaSolution/Sinboha/SinbohaSync.cpp:129-135 | a switch while the node's own question is answered but not applied leads to two active nodes, all else disciplined |
| HaProtocol.SwitchInSameMilli | src/SinbohaSolution/Sinboha/SinbohaNetClient.cpp:44 | so does a switch in the millisecond the standby changed in |
| HaProtocol.DenialInSameMilli | src/SinbohaSolution/Sinboha/SinbohaNetClient.cpp:44 | so does a denial applied in the millisecond the peer was switched in |
| HaProtocol.SecondLinkUnsafe | src/SinbohaSolution/Sinboha/SinbohaSync.cpp:106-143 | with a second link on the standby side two active nodes are reachable though every step is disciplined |
| HaProtocol.HandOver | src/SinbohaSolution/Sinboha/SinbohaSync.cpp:129-135 | a disciplined run swaps the roles of a settled pair and leaves it settled |
| HaProtocol.FalseAlarmUnsafe | src/SinbohaSolution/Sinboha/SinbohaBrainSplit.cpp:95-100 | a failover while the peer is active makes two |
| HaProtocol.EarlyAlarmUnsafe | src/SinbohaSolution/Sinboha/SinbohaBrainSplit.cpp:95-100 | so does one while the peer has been let through and has yet to act |
| HaProtocol.DoubleActiveHeals | src/SinbohaSolution/Sinboha/SinbohaSync.cpp:129-135 | two active nodes settle after one beat each that do not overlap; the one activated in the later millisecond stays |
| HaProtocol.LaterFailoverStays | src/SinbohaSolution/Sinboha/SinbohaBrainSplit.cpp:95-100 | of two nodes made active by their failure detectors in different milliseconds, after one beat each, whichever first, the one activated later is active since then and the other on standby |
| HaProtocol.TimesAfter | src/SinbohaSolution/Sinboha/SinbohaNetClient.cpp:41-74 | after any run of the protocol a node's change time is that of the step that last changed its status, and its live time that of the step that last heard from the peer |
| HaProtocol.LaterStaysActive | src/SinbohaSolution/Sinboha/SinbohaSync.cpp:106-143 | when beats overlap, the one activated in the later millisecond stays active since the same time and the other is active since its own or on standby |
| HaProtocol.BothDemotedIff | src/SinbohaSolution/Sinboha/SinbohaSync.cpp:106-143 | some undisturbed run demotes both if and only if they were activated within one millisecond |
| HaProtocol.MayNeverHeal | src/SinbohaSolution/Sinboha/SinbohaSync.cpp:106-143 | from two nodes active since one millisecond a run demotes both and another makes both active again within one millisecond |
| HaFailover.LiveTimeIsLastContact | src/SinbohaSolution/Sinboha/SinbohaImp.h:26 | after any history the live time is the time of the last contact |
| HaFailover.StatusAfter | src/SinbohaSolution/Sinboha/SinbohaImp.h:18-27 | what the last event makes of the status: an answer decides it, a switch ends an active time, questions leave it |
| HaFailover.ChangeTimeIsLastChange | src/SinbohaSolution/Sinboha/SinbohaImp.h:18-27 | after any history the change time is the time of the event that last changed the status, in either direction, or what it was if none did (SinbohaImp.cpp:283, 297, 319, 385) |
| HaFailover.TakesOverIffSilent | src/SinbohaSolution/Sinboha/SinbohaBrainSplit.cpp:95-100 | a look at the clock and its later act, whatever comes between, leave the node active exactly when the silence exceeded the timeout at the look, or it is active already |
| HaFailover.LateContactTakesOver | src/SinbohaSolution/Sinboha/SinbohaBrainSplit.cpp:95-100 | a peer heard, and even answering no, between look and act does not stop the takeover |
| HaFailover.StaysActive | src/SinbohaSolution/Sinboha/SinbohaBrainSplit.cpp:81-102 | the detector and the peer's questions leave an active node active since the same time |
| HaFailover.FailoverCompletes | src/SinbohaSolution/Sinboha/SinbohaBrainSplit.cpp:81-102 | over any rounds of the detector, a node whose peer went silent is active from the first round past the timeout on, and active since that round if it was not before |
| Fp.Float.FromDouble | src/SinbohaSolution/spdlog/fmt/bundled/format-inl.h:370-388 | the decoded significand and exponent denote the double, subnormals included, per section 3.4 of IEEE 754-2008 |
| Fp.Float.Normalize | src/SinbohaSolution/spdlog/fmt/bundled/format-inl.h:390-404 | the top bit ends set, the number unchanged, the exponent within stated bounds, no bit lost |
| Fp.Multiply | src/SinbohaSolution/spdlog/fmt/bundled/format-inl.h:433-442 | by 32-bit halves the product is floor((x*y + 2^63) / 2^64) exactly, and no 64-bit intermediate wraps |
| Fp.ComputeBoundaries | src/SinbohaSolution/spdlog/fmt/bundled/format-inl.h:409-416 | both bounds denote the exact ends of the rounding interval at one exponent, the upper one normalized, at least 1536 units apart |
| CachedPowers.TableAccurate | src/SinbohaSolution/spdlog/fmt/bundled/format-inl.h:291-338 | all 87 entries have the top bit set and are within half a unit of the power of ten they stand for |
| CachedPowers.ChosenExponent | src/SinbohaSolution/spdlog/fmt/bundled/format-inl.h:444-455 | for every exponent a double can bring the entry is the first with an exponent no less than asked, and at most 26 above |
| CachedPowers.WithinThreeIff | src/SinbohaSolution/spdlog/fmt/bundled/format-inl.h:429-455 | the promised excess of at most 3 holds if and only if some entry has an exponent that close above |
| CachedPowers.TwentySixAbove | src/SinbohaSolution/spdlog/fmt/bundled/format-inl.h:429-455 | for a least exponent of 4 it is 30 |
| Grisu.GenDigits | src/SinbohaSolution/spdlog/fmt/bundled/format-inl.h:457-512 | terminates within 29 digits without 64-bit overflow, no leading zero; digits and exponent lie within delta below the scaled upper bound, and no multiple of a larger power of ten does |
| GrisuFormat.ScaledGap | src/SinbohaSolution/spdlog/fmt/bundled/format-inl.h:526-531 | scaled bounds stay far enough apart that delta is at least 1 after the shrink by two units |
| GrisuFormat.UnitCoversError | src/SinbohaSolution/spdlog/fmt/bundled/format-inl.h:529-530 | one unit covers the error of the table entry and of the rounded product together |
| GrisuFormat.Contained | src/SinbohaSolution/spdlog/fmt/bundled/format-inl.h:526-532 | any number the digit generator may give lies strictly between the exact bounds |
| GrisuFormat.ShortestInReals | src/SinbohaSolution/spdlog/fmt/bundled/format-inl.h:526-532 | so no such multiple lies between the exact bounds, but within 2^-60 of an end |
| GrisuFormat.FormatPositive | src/SinbohaSolution/spdlog/fmt/bundled/format-inl.h:514-533 | for every positive finite double the printed decimal is strictly inside its rounding interval, nearer to it than to every other double, and as coarse as the interval allows up to that margin |
| Doubles.NextDouble | src/SinbohaSolution/spdlog/fmt/bundled/format-inl.h:370-388 | the next bit pattern denotes one unit in the last place more, across exponents and from subnormal to normal |
| Doubles.Increasing | src/SinbohaSolution/spdlog/fmt/bundled/format-inl.h:370-388 | bit patterns of finite doubles are ordered as their numbers |
| Doubles.UpperIsMidpoint | src/SinbohaSolution/spdlog/fmt/bundled/format-inl.h:406-414 | the upper boundary is the midpoint to the next double |
| Doubles.LowerIsMidpoint | src/SinbohaSolution/spdlog/fmt/bundled/format-inl.h:406-416 | the lower boundary is the midpoint to the previous double, and at the smallest normal double not below it |
| Doubles.ReadsBack | src/SinbohaSolution/spdlog/fmt/bundled/format-inl.h:406-416 | every real strictly between a double's boundaries is closer to it than to any other double |
| CountDigits.FastCountExact | src/SinbohaSolution/spdlog/fmt/bundled/format.h:902-909 | the branch-free count of every 64-bit value is the number of its decimal digits |
| CountDigits.FastCount32 | src/SinbohaSolution/spdlog/fmt/bundled/format.h:1007-1012 | so is the 32-bit one, within its ten-entry table |
| CountDigits.CountByDivision | src/SinbohaSolution/spdlog/fmt/bundled/format.h:911-925 | and so is the count by divisions by 10000 |
| Decimal.ValDec | src/SinbohaSolution/spdlog/fmt/bundled/format.h:1050-1078 | canonical decimal digits read back as the number |
| Decimal.CanonicalDigits | src/SinbohaSolution/spdlog/fmt/bundled/format.h:1050-1078 | they are the one numeral for the number without a leading zero it could do without |
| Decimal.DecLength | src/SinbohaSolution/spdlog/fmt/bundled/format.h:901-909 | k digits means 10^(k-1) <= n < 10^k |
| Itoa.Lg | src/SinbohaSolution/spdlog/fmt/bundled/format.h:940-953 | the comparison tree picks the floor of the decimal logarithm |
| Itoa.StartAccurate | src/SinbohaSolution/spdlog/fmt/bundled/format.h:974-980 | for each number of digits the 4.32 quotient errs by less than one unit of the last digit and the product fits 64 bits |
| Itoa.Split | src/SinbohaSolution/spdlog/fmt/bundled/format.h:981-988 | whole part and fraction of such a quotient are the leading digits and a quotient for the rest |
| Itoa.FixedPoint | src/SinbohaSolution/spdlog/fmt/bundled/format.h:976-980 | computed in 64-bit arithmetic, the quotient is that one |
| Itoa.On | src/SinbohaSolution/spdlog/fmt/bundled/format.h:968-992 | writes the canonical digits for each digit count |
| Itoa.FormatLg | src/SinbohaSolution/spdlog/fmt/bundled/format.h:937-993 | the fixed-point printer equals plain decimal for every 32-bit value |
| IntDigits.GroupedLength | src/SinbohaSolution/spdlog/fmt/bundled/format.h:2612-2618 | the size reserved for a grouped number is its length |
| IntDigits.GroupedDigits | src/SinbohaSolution/spdlog/fmt/bundled/format.h:2599-2610 | taking out the separators leaves the canonical digits |
| IntDigits.LeftwardsIsGrouped | src/SinbohaSolution/spdlog/fmt/bundled/format.h:1023-1045 | a separator after every third digit from the right is grouping in threes with none leading |
| IntDigits.ThousandsSep.Apply | src/SinbohaSolution/spdlog/fmt/bundled/format.h:1038-1044 | the functor writes its separator before every third digit and moves the position by it |
| IntDigits.FormatDecimal | src/SinbohaSolution/spdlog/fmt/bundled/format.h:1050-1078 | the two-digits-at-a-time writer fills exactly its place with the grouped digits |
| IntDigits.RadixRoundTrip | src/SinbohaSolution/spdlog/fmt/bundled/format.h:1095-1106 | binary, octal and hexadecimal digits read back, with no leading zero |
| IntDigits.RadixCase | src/SinbohaSolution/spdlog/fmt/bundled/format.h:1095-1106 | every digit is one of the radix, hexadecimal letters in the case asked for |
| IntDigits.CountRadixDigits | src/SinbohaSolution/spdlog/fmt/bundled/format.h:2503-2512 | counting by shifts gives the number of radix digits |
| IntDigits.FormatUint | src/SinbohaSolution/spdlog/fmt/bundled/format.h:1095-1106 | the mask-and-shift writer fills exactly its place with the radix digits |
| IntWriter.AbsoluteValue | src/SinbohaSolution/spdlog/fmt/bundled/format.h:2514-2521 | negation modulo the word size is the true magnitude for every value, the least included |
| IntWriter.LayoutLength | src/SinbohaSolution/spdlog/fmt/bundled/format.h:2450-2473 | a formatted integer is max(width, prefix plus digits or precision) long |
| IntWriter.LayoutShape | src/SinbohaSolution/spdlog/fmt/bundled/format.h:2450-2473 | the fill goes right under left alignment, left under right and default, half each side when centred, between prefix and digits when numeric; precision is filled with zeros |
| IntWriter.TextReadsBack | src/SinbohaSolution/spdlog/fmt/bundled/format.h:2450-2618 | for every type letter, alignment, width and precision the text is prefix and digits with only fill around or, under numeric alignment, between them, and the digits read back as the value |
| IntWriter.UnfilledReadsBack | src/SinbohaSolution/spdlog/fmt/bundled/format.h:2450-2618 | with a fill character of its own, dropping it leaves exactly prefix and digits |
| IntReading.PlainText | src/SinbohaSolution/spdlog/fmt/bundled/format.h:2514-2540 | without width, precision and flags the text is the plain signed decimal |
| IntReading.SignedReadsBack | src/SinbohaSolution/spdlog/fmt/bundled/format.h:2450-2618 | for every type letter the unfilled text is sign, radix mark and digits; '-' begins exactly the negative numbers, '+' or a space the others when asked; it reads back as the number; hexadecimal letters are of one case |
| IntReading.TypeOfText | src/SinbohaSolution/spdlog/fmt/bundled/format.h:2490-2618 | there is a text exactly for the type letters that integers have |
| IntWriter.BasicWriter.WritePadded | src/SinbohaSolution/spdlog/fmt/bundled/format.h:2780-2802 | fill goes left, right or half each side, and as much is reserved as is written |
| IntWriter.BasicWriter.WriteInt | src/SinbohaSolution/spdlog/fmt/bundled/format.h:2454-2473 | writes the specified layout in exactly the room reserved |
| IntWriter.BasicWriter.Write | src/SinbohaSolution/spdlog/fmt/bundled/format.h:2490-2618 | for every type letter, sign, prefix, precision, width and alignment the text is the specified one; other letters write nothing |
| IntParsing.SignedRoundTrip | src/SinbohaSolution/spdlog/fmt/bundled/format.h:3056-3064 | the text of a signed integer reads back as it |
| IntParsing.FormatInt.Unsigned | src/SinbohaSolution/spdlog/fmt/bundled/format.h:3070-3072 | every unsigned 64-bit value fits the buffer and comes out in canonical digits |
| IntParsing.FormatInt.Signed | src/SinbohaSolution/spdlog/fmt/bundled/format.h:3056-3069 | so does every signed 64-bit value, the least included |
| IntParsing.ParseNonnegativeInt | src/SinbohaSolution/spdlog/fmt/bundled/format.h:1595-1615 | the whole digit run is read exactly if it is at most INT_MAX, else the error; the 32-bit accumulator never wraps |
| IntParsing.ParseFormatted | src/SinbohaSolution/spdlog/fmt/bundled/format.h:1595-1615 | a formatted number followed by a non-digit is read back as itself |
| CircularQ.CircularQ.PushBack | src/SinbohaSolution/spdlog/details/circular_q.h:25-36 | appends, dropping the oldest at capacity and counting it, for every capacity including 0 |
| CircularQ.CircularQ.PopFront | src/SinbohaSolution/spdlog/details/circular_q.h:38-44 | takes the oldest item, the others keep their order |
| CircularQ.CircularQ.Empty | src/SinbohaSolution/spdlog/details/circular_q.h:46-49 | true exactly when nothing is held |
| CircularQ.CircularQ.Full | src/SinbohaSolution/spdlog/details/circular_q.h:51-55 | true exactly at capacity |
| MpmcQueue.Queue.EnqueueTurn | src/SinbohaSolution/spdlog/details/mpmc_blocking_q.h:35-43 | pushes exactly when there is room; the overrun counter never moves |
| MpmcQueue.Queue.EnqueueNowait | src/SinbohaSolution/spdlog/details/mpmc_blocking_q.h:46-53 | pushes always, dropping and counting the oldest at capacity |
| MpmcQueue.Queue.DequeueTurn | src/SinbohaSolution/spdlog/details/mpmc_blocking_q.h:57-69 | pops the oldest exactly when there is one |
| MpmcQueue.NoStrandedStep | src/SinbohaSolution/spdlog/details/mpmc_blocking_q.h:35-69 | every step of every thread keeps: beside a sleeper there are enough awake threads and pending notifications for the items, or the free slots |
| MpmcQueue.NobodyStranded | src/SinbohaSolution/spdlog/details/mpmc_blocking_q.h:35-69 | in every interleaving, with timeouts and spurious wake-ups, beside a sleeper awake threads and pending notifications match the items or free slots, so there is always one to see to them |
| MpmcQueue.TimeoutEndsCall | src/SinbohaSolution/spdlog/details/mpmc_blocking_q.h:57-69 | a timed-out dequeue ends at its next turn, whatever other threads did meanwhile: with nothing if the queue is empty, else with the oldest item |
| MpmcQueue.WaitsForItem | src/SinbohaSolution/spdlog/details/mpmc_blocking_q.h:57-69 | one that has not timed out goes on, in every run, until it has its item |
| MpmcQueue.NothingLost | src/SinbohaSolution/spdlog/details/mpmc_blocking_q.h:35-69 | over any run pushed is popped plus overrun plus held, in order; without enqueue_nowait nothing is overrun |
| ThreadPool.InvStep | src/SinbohaSolution/spdlog/details/thread_pool.h:140-158 | every step of the shutdown keeps: one terminate for every live worker, every popped message in one worker's hands or finished |
| ThreadPool.NoDeadlock | src/SinbohaSolution/spdlog/details/thread_pool.h:140-158 | until all workers are joined some thread can move without a timeout |
| ThreadPool.WorkStep | src/SinbohaSolution/spdlog/details/thread_pool.h:196-234 | every step but a timeout or spurious wake-up reduces the work left; those add at most three units |
| ThreadPool.ShutdownTerminates | src/SinbohaSolution/spdlog/details/thread_pool.h:140-158 | with a slot in the queue, no run is longer than the work at the start plus four steps a wake-up |
| ThreadPool.ReturnsIffSlot | src/SinbohaSolution/spdlog/details/thread_pool.h:124-158 | from every start of a shutdown, a run that joins all workers exists if and only if the queue has a slot |
| ThreadPool.ShutdownDrains | src/SinbohaSolution/spdlog/details/thread_pool.h:140-234 | when all are joined the queue is empty, everything accepted was popped once in order and handled, then one terminate a worker |
| ThreadPool.ZeroCapacityHangs | src/SinbohaSolution/spdlog/details/thread_pool.h:124-158 | with no slot the destructor never returns |
| FileNames.RFind | src/SinbohaSolution/spdlog/details/file_helper.h:127 | the last position of a character, or -1 |
| FileNames.SplitByExtension | src/SinbohaSolution/spdlog/details/file_helper.h:125-145 | the two parts join to the name, and an extension has a stem and a letter |
| FileNames.SplitIsLastExtension | src/SinbohaSolution/spdlog/details/file_helper.h:112-145 | an extension starts at the one position with the documented properties, if there is one, else there is none |
| FileNames.CalcFilenameInjective | src/SinbohaSolution/spdlog/sinks/rotating_file_sink.h:43-59 | rotated files of different index never share a name |
| FileNames.IndexReadsBack | src/SinbohaSolution/spdlog/sinks/rotating_file_sink.h:43-59 | between path and extension a rotated file's name has a dot and the numeral that reads back as its index |
| RotatingSink.RotatingFileSink.constructor | src/SinbohaSolution/spdlog/sinks/rotating_file_sink.h:34-41 | opening keeps an existing log and counts its length |
| RotatingSink.RotatedAt | src/SinbohaSolution/spdlog/sinks/rotating_file_sink.h:81-115 | a rotation slot by slot, for any slots present or absent |
| RotatingSink.RotationKeeps | src/SinbohaSolution/spdlog/sinks/rotating_file_sink.h:81-115 | the joined text loses only the file in the last slot, and only when another takes its place |
| RotatingSink.AbandonKeeps | src/SinbohaSolution/spdlog/sinks/rotating_file_sink.h:99-111 | after two failed renames the joined text ends where slot 0 began |
| RotatingSink.AbandonedAt | src/SinbohaSolution/spdlog/sinks/rotating_file_sink.h:99-111 | slot by slot what giving up at a slot leaves, the slots below it untouched |
| RotatingSink.SunkKeeps | src/SinbohaSolution/spdlog/sinks/rotating_file_sink.h:62-73 | after a message slot 0 is within the limit or only that message, and the joined text stays a suffix of the history |
| RotatingSink.RetainedIsSuffix | src/SinbohaSolution/spdlog/sinks/rotating_file_sink.h:62-115 | over any run, from any files, with any rename outcomes, likewise; with renames that succeed the history is everything written |
| RotatingSink.NoRotationWhileItFits | src/SinbohaSolution/spdlog/sinks/rotating_file_sink.h:62-73 | while all that is logged fits the limit, slot 0 grows by it and every other slot stays as it was |
| RotatingSink.NothingElseLost | src/SinbohaSolution/spdlog/sinks/rotating_file_sink.h:62-115 | over any run with renames that succeed, what was there and what was written are the texts pushed out of the last slot, in order, and then what is on disk |
| RotatingSink.RotatingFileSink.RenameFile | src/SinbohaSolution/spdlog/sinks/rotating_file_sink.h:117-124 | one try moves one slot, or removes the target, or does nothing; other files are untouched |
| RotatingSink.RotatingFileSink.Rotate | src/SinbohaSolution/spdlog/sinks/rotating_file_sink.h:86-115 | the loop on file names has the specified slots, stopping at the highest slot it twice fails to fill with an empty log and a zero counter |
| RotatingSink.RotatingFileSink.SinkIt | src/SinbohaSolution/spdlog/sinks/rotating_file_sink.h:62-73 | the counter is the length of slot 0 after every call, failed ones included, and the slots are the specified ones |
| BraceParser.Find | src/SinbohaSolution/spdlog/fmt/bundled/format.h:2116-2131 | the first occurrence in a range, or none |
| BraceParser.Write | src/SinbohaSolution/spdlog/fmt/bundled/format.h:2150-2164 | the inner scan reports a stretch without opening braces as its meaning, up to an unmatched brace |
| BraceParser.ParseArgId | src/SinbohaSolution/spdlog/fmt/bundled/format.h:1948-1970 | automatic, numbered or named argument, or which error, and where it ends |
| BraceParser.ParseFormatString | src/SinbohaSolution/spdlog/fmt/bundled/format.h:2147-2198 | for every string the two nested scans report what reading one character at a time does: same fields, arguments, errors and text, save text just before an error |
| BraceParser.EscapeRoundTrip | src/SinbohaSolution/spdlog/fmt/bundled/format.h:2147-2198 | text with its braces doubled is reported back as that text alone, and only such strings are reported as text alone |
| BraceParser.OnlyEscapedMeansText | src/SinbohaSolution/spdlog/fmt/bundled/format.h:2164-2197 | a string that means text alone is that text with its braces doubled |
| BraceGrammar.ArgIdRead | src/SinbohaSolution/spdlog/fmt/bundled/format.h:1948-1970 | a number up to INT_MAX, with leading zeros or not, is reported as that index, a name as that name, nothing as the automatic argument, and no more is consumed |
| BraceGrammar.ArgIdSpelled | src/SinbohaSolution/spdlog/fmt/bundled/format.h:1948-1970 | whatever is read as an argument is spelled like that |
| BraceGrammar.FormatGrammar | src/SinbohaSolution/spdlog/fmt/bundled/format.h:2147-2198 | the strings read without an error are exactly those spelled from pieces, and each is read as its pieces |
| BraceGrammar.ReportsPieces | src/SinbohaSolution/spdlog/fmt/bundled/format.h:2147-2198 | the parser reports no error exactly for them, and reports their pieces, positions included |
| BraceGrammar.OneField | src/SinbohaSolution/spdlog/fmt/bundled/format.h:2147-2198 | a string that is one field is reported as just its argument and where it ends |
| BraceGrammar.WrongNumber | src/SinbohaSolution/spdlog/fmt/bundled/format.h:1953-1957 | a number above INT_MAX is too big; one not followed by a brace or colon makes the string invalid |
| BraceGrammar.WrongStart | src/SinbohaSolution/spdlog/fmt/bundled/format.h:1960-1961 | so does whatever begins no argument, the end of the string included |
| BraceGrammar.WrongAfterName | src/SinbohaSolution/spdlog/fmt/bundled/format.h:2179-2192 | after a name the closing brace is missing |
| BraceGrammar.WrongSpecs | src/SinbohaSolution/spdlog/fmt/bundled/format.h:2183-2190 | an error of the specifiers is passed on; specifiers that do not end at the brace are unknown |
| PatternPad.PaddedField | src/SinbohaSolution/spdlog/details/pattern_formatter.h:53-93 | a field is max(width, size) long with the text in it and spaces left, right or half each side, an odd one right |
| PatternPad.WidthHonoured | src/SinbohaSolution/spdlog/details/pattern_formatter.h:56-81 | a field padded by a declared size is as wide as asked if and only if the size is true, or neither it nor the text calls for padding |
| PatternPad.ScopedPad.constructor | src/SinbohaSolution/spdlog/details/pattern_formatter.h:56-81 | writes the spaces before the field and keeps the count for after it, never more than 128 |
| PatternPad.ScopedPad.Close | src/SinbohaSolution/spdlog/details/pattern_formatter.h:88-101 | writes the spaces after the field; the assertion on the row of spaces holds |
| PatternPad.AppendField | src/SinbohaSolution/spdlog/details/pattern_formatter.h:137-148 | name, level and message are appended padded |
| PatternCompiler.HandlePadspec | src/SinbohaSolution/spdlog/details/pattern_formatter.h:1235-1273 | reads side and width, wrapping at 64 bits digit by digit as once at the end, and never passes the end |
| PatternCompiler.WidthAsWritten | src/SinbohaSolution/spdlog/details/pattern_formatter.h:1266-1272 | the width is the one written, cut to 128, if and only if it fits 64 bits or wraps to 128 or more |
| PatternCompiler.WidthWraps | src/SinbohaSolution/spdlog/details/pattern_formatter.h:1266-1272 | a width of 2^64 + 1 becomes 1 |
| PatternCompiler.WidthsBounded | src/SinbohaSolution/spdlog/details/pattern_formatter.h:1239-1272 | no pattern compiles to a width above 128 |
| PatternCompiler.UnknownFlagAsIs | src/SinbohaSolution/spdlog/details/pattern_formatter.h:1223-1228 | an unknown flag appears with its percent sign and without its padding, and reading goes on after it |
| PatternCompiler.CompiledMeaning | src/SinbohaSolution/spdlog/details/pattern_formatter.h:1275-1313 | for every pattern the formatters render what reading it one character at a time means |
| PatternCompiler.DoubledRoundTrip | src/SinbohaSolution/spdlog/details/pattern_formatter.h:1219-1228 | any text with its percent signs doubled is a pattern for that text |
| PatternFormatter.DoubledPrintsItself | src/SinbohaSolution/spdlog/details/pattern_formatter.h:1030-1046 | formatting by it gives the text and the end of line, for every message and state of the caches |
| PatternFormatter.PatternFormatter.CompilePattern | src/SinbohaSolution/spdlog/details/pattern_formatter.h:1275-1313 | the loop yields the specified formatters for every pattern, each default formatter a new object |
| PatternFormatter.FullFormatter.Format | src/SinbohaSolution/spdlog/details/pattern_formatter.h:909-985 | writes cached date and time, milliseconds, name, level, place and text; the cache is refreshed exactly on a new second or when empty |
| PatternFormatter.PatternFormatter.Format | src/SinbohaSolution/spdlog/details/pattern_formatter.h:1030-1046 | for any sequence of messages in any order of time both caches give the rendering of one broken-down time, plus the end of line; once primed, that of the message itself |
| PatternFormatter.TmStep | src/SinbohaSolution/spdlog/details/pattern_formatter.h:1033-1038 | comparing with the last second recomputes exactly when needed, but for the unprimed first second |
| PatternFormatter.DefaultPatternExact | src/SinbohaSolution/spdlog/details/pattern_formatter.h:1030-1046 | for the default pattern being primed is also necessary |
| PatternFields.FractionLength | src/SinbohaSolution/spdlog/details/fmt_helper.h:76-118 | for every time a fraction of a second takes exactly 3, 6 or 9 digits if and only if it is not negative; from the epoch on it is the remainder of the time |
| PatternFields.FieldFits | src/SinbohaSolution/spdlog/details/pattern_formatter.h:196-620 | for years 1000 to 9999 and every message time, when each field of time has the size it declares |
| PatternFields.FullDateLength | src/SinbohaSolution/spdlog/details/pattern_formatter.h:279-309 | %c has its 24 characters if and only if exactly one holds: September, or a day of two digits |
| PatternFields.SecondsLength | src/SinbohaSolution/spdlog/details/pattern_formatter.h:530-545 | %E has its ten characters if and only if the seconds have ten digits, or nine and a sign |
| PatternFields.EveryWidthHonoured | src/SinbohaSolution/spdlog/details/pattern_formatter.h:56-81 | a field of time honours every width a pattern can ask if and only if its declared size is its size |
| PatternFields.ShortDateTooNarrow | src/SinbohaSolution/spdlog/details/pattern_formatter.h:328-348 | %D has eight characters, or nine, and declares ten: it honours a width if and only if its text fills it |
| PatternFields.ClockPattern | src/SinbohaSolution/spdlog/details/pattern_formatter.h:602-620 | %T means what %H:%M:%S means |
| PatternFields.DatePattern | src/SinbohaSolution/spdlog/details/pattern_formatter.h:328-348 | %D means what %m/%d/%C means |
| PatternFields.ShortYearFlagMissing | src/SinbohaSolution/spdlog/details/pattern_formatter.h:328-348 | and never what %m/%d/%y means |
| PatternFields.DefaultIsDocumented | src/SinbohaSolution/spdlog/details/pattern_formatter.h:899-985 | the default formatter writes what its documented pattern means if and only if the logger has a name and the message no source location |
| PatternDirectives.PaddedDirective | src/SinbohaSolution/spdlog/details/pattern_formatter.h:1235-1313 | a directive for the name, level, text or a field of time, with any sign and width, shows it with the spaces missing to the width before it, after it under '-', on both sides under '=' with the odd one after |
| PatternDirectives.WidthOfNumber | src/SinbohaSolution/spdlog/details/pattern_formatter.h:1257-1272 | a width written in decimal is that width, up to 128 |
| PatternDirectives.OtherDirective | src/SinbohaSolution/spdlog/details/pattern_formatter.h:1075-1230 | %+ shows the default line and the remaining flags their field for the padding asked for |
| PatternDirectives.CutShort | src/SinbohaSolution/spdlog/details/pattern_formatter.h:1275-1313 | a directive cut short by the end of the pattern shows nothing |
| PatternDirectives.PartsRead | src/SinbohaSolution/spdlog/details/pattern_formatter.h:1275-1313 | plain characters and directives one after the other mean what each of them shows |
| PatternDirectives.EveryPattern | src/SinbohaSolution/spdlog/details/pattern_formatter.h:1275-1313 | every pattern is spelled from such parts, and what its formatters write is what the parts show |
| PatternDirectives.NumberReadsBack | src/SinbohaSolution/spdlog/details/pattern_formatter.h:311-545 | every numeric field reads back as its number, for every time and broken-down time, wrapped fractions before the epoch included |
| PatternDirectives.HourFromHalf | src/SinbohaSolution/spdlog/details/pattern_formatter.h:196-204 | the hour of %I and the half of %p tell the hour of the day |
| PatternDirectives.NamesInFull | src/SinbohaSolution/spdlog/details/pattern_formatter.h:206-277 | the names of days and months in full, and the short ones as their first three letters, four in September |
| PatternDirectives.FieldsOfFields | src/SinbohaSolution/spdlog/details/pattern_formatter.h:279-620 | %c, %D, %x, %r, %R, %T and %X are made of the shorter fields |
| PatternDirectives.DefaultByParts | src/SinbohaSolution/spdlog/details/pattern_formatter.h:899-985 | the default line is the date part of the documented pattern, the name if any, the level, file and line if any, and the text |
| Calendar.DaysBeforeClosed | src/SinbohaSolution/spdlog/details/os.h:284-293 | counting days year by year by the Gregorian rule has the closed form with three quotients, for all years |
| Calendar.CodeLeapDays | src/SinbohaSolution/spdlog/details/os.h:289-290 | the code's mix of shifts and truncating divisions is that form, a day short for the years described |
| Calendar.OffsetCounted | src/SinbohaSolution/spdlog/details/os.h:279-301 | the offset is the difference of the two counted times, up to those days |
| Calendar.OffsetExact | src/SinbohaSolution/spdlog/details/os.h:279-301 | it is exact if and only if both years or neither are misjudged, so for all years from 1 on |
| Calendar.OffsetWrongBeforeYearOne | src/SinbohaSolution/spdlog/details/os.h:279-301 | two times an hour apart whose offset comes out a day too large |

## Left out

Weaker than the source or its promises:

- MpmcQueue.NobodyStranded: the interleavings are of a state machine over values, whose steps are the critical sections that class `Queue` proves on the ring buffer; the mutex itself is taken as given, and so is a notification that wakes one waiter.
- ThreadPool.ShutdownDrains: threads other than the destructor and the workers are not in the model once the shutdown begins.
- GrisuFormat.FormatPositive: the one floating-point product on the way to the table is taken as the exact product plus an error below a millionth, far more than a double's; within 2^-60 of the ends of the interval a coarser number may be missed.
- RotatingSink.RotatingFileSink.SinkIt: the file system is a map from names to texts; opening and writing always succeed, and what a rename does is a parameter.
- BraceParser.ParseFormatString: how format specifiers are read is a parameter, since it depends on the argument's type; they may end anywhere later in the string or fail.
- BraceParser.ParseArgId: the source reads one character past a name that ends the string before it checks; the character is not used and not modelled.
- PatternFormatter.PatternFormatter.Format: short level, thread, process, source location and time zone are a function of flag, padding, message and broken-down time; the colour range is not modelled, nor is the ten-second cache of `%z`.
- PatternFields.FieldFits: beyond the ends of the tables of names, where the source reads past them, a name is empty; `size_t` has 64 bits.
- IntReading.SignedReadsBack: only for a fill character that is not one of the text's own, as for UnfilledReadsBack.
- IntWriter.UnfilledReadsBack: only for a fill character that is not one of the text's own; with one that is, the text is ambiguous, and TextReadsBack says what it is made of.
- Calendar.OffsetCounted: `int` and `long` do not overflow.
- CircularQ.CircularQ.PushBack: the overrun counter and the capacity plus one do not wrap at the word size.

Not modelled:

- sockets, the generated RPC code, starting and stopping threads, clocks, and time-zone lookup
- the order in which the callback of the status record runs against other threads (it runs under the lock)
- `round`, exponent notation and precision in the printing of doubles; `scaled_value`, which the source computes and ignores
- the overload of the decimal writer for arbitrary iterators
- the reading of format specifiers, argument lookup and the compile-time checks of fmt
- locale lookup of the thousands separator, which is a parameter
- loggers, the registry, the other sinks, flushing, and the sample program
