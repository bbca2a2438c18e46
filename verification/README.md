# Plaudern: masking, mark-up, calendar and registry algorithms, proved

Plaudern turns recordings into transcripts, summaries, a calendar and a registry of
people. This project models the algorithms of its web client and of its shared
contracts that do real work on data, and proves what they are for:

- **Masking.** Sensitive passages are hidden by offset (`maskSpans`) or by substring
  (`maskSecrets`). `OffsetMasking` runs the sweep and proves it equal to a
  position-by-position meaning; `OffsetMaskingLaws` says what survives, `MaskingOrder`
  exactly when the order of the spans matters; `SubstringMasking` finds exactly which
  secrets are certain to be hidden; `SecretCuts` follows the replacements on the original
  text, and `MaskersAgree` shows that the substring masker is one simultaneous offset
  masking and of which stretches.
- **Mark-up.** `Mentions` is the `@[LABEL]` tokeniser, `MentionTree` what the rewrite of a
  document tree means, `MentionPlugin` the same rewrite on mutable nodes whose `children`
  are assigned in place. `Citations` is the splitting and re-testing of `[n]` markers in a
  chat answer on the page, `CitationLinks` what the markers link to; `CitationTokens` reads
  the same markers as the server does, `CitationEnforcer` strips and renumbers them, with
  `EnforcerLaws` on what is left; `CitationTidy` is the white-space clean-up and `TidyLaws`
  what it does.
- **Calendar.** `Gregorian` is ECMAScript's day arithmetic (sections 15.9.1.2 to 15.9.1.6
  and 15.9.1.12 of ECMA-262 5.1), `DayKeys` the `YYYY-MM-DD` strings, `IsoTimes` the
  order of timestamps as strings, `MonthGrid` the 42-cell grid and month stepping,
  `EventDays` the 24-hour stepping loops with their 62-step guard, `Buckets` the mutable
  day index, `FetchWindow` the fetched range.
- **Registry.** `AliasHygiene` and `AliasLaws` clean alias lists, `AliasWords` says what a
  normal form is, `MergePeople` merges voice profiles and person entities.
- **Wrapping arithmetic.** `Hashing` is the speaker colour hash and the test-vector
  generator; `GeneratorPeriod` proves the generator's full period.

`Utf16` (text as UTF-16 code units and its order), `Digits`, `Numerals` (padded numbers),
`Filters`, `Options` and `StableSort` are shared.
`StableSort` stands for `Array.prototype.sort` with a comparator: it proves its insertion
sort ordered, a permutation and stable, and that there is only one such result.

`dafny verify dfyconfig.toml` checks the project. `hide` statements keep definitions a
proof does not need out of the solver's way; they weaken nothing.

## Where the code and its comments differ

- `maskSecrets` is documented to replace every occurrence of each secret. A secret that
  starts or ends with a bullet, or contains six in a row, can reappear in the output:
  masking creates it (`SubstringMasking.LeaksAtStart`, `LeaksAtEnd`, `LeaksInside`).
  `HiddenExactlyWhenDetached` proves this family is the only exception.
- `buildBuckets` is documented to show an event on every day it covers. The 62-step guard
  breaks this for longer events; `TimedRangeIsExact` and `AllDayRangeIsExact` prove that it
  holds exactly up to the bound, `TimedDays` and `AllDayDays` what happens beyond it.
- Stepping months forward and back returns to the start except through the years 0 to 99,
  which the `Date` constructor reads as 1900 to 1999 (`ForwardAndBackReturns`).
- The window is documented as the visible grid with slack, and the range queries to be
  right because timestamps are ISO strings. `WindowLosesNoEvent`, `WindowLosesNoRecording`
  and `WindowLosesNoReminder` prove exactly what the queries on strings return of what the
  grid shows. While all years have four digits, an event that ends before it starts can be
  missed (`BackwardsEventCanBeMissed`) and nothing else is; with other years also what is
  out of step with the window is missed. On the grid of December 9999 the window ends in a
  year written `+010000`, and ordinary events are lost (`LastDecemberIsLost`,
  `OrdinaryEventIsMissed`). `EarlierIsSmaller` says for which years comparing timestamps is
  comparing instants. The ICS parser lets no backwards event in
  (libs/backend/calendar/src/ics/ics-parser.ts:104-112), but the Google client copies start
  and end as they come (libs/backend/calendar/src/google/google-calendar.client.ts:45-55).
- `enforceCitations` is documented to leave only markers of sources that were given.
  Stripping can complete a new marker: `[[99]12]` becomes `[12]` and is then written as
  `[undefined]` (`SplicedShowsUndefined`). `StrippingIsExact` proves when this happens.
- `utcDayKey` is documented as the UTC day of an instant. In years that need a sign the ten
  characters hold the month only (`SameUtcKey`), and in years below 1000 the grid writes
  its keys differently (`UtcKeyIsDayKey`), so outside the years 1000 to 9999 the calendar
  shows no all-day event and no dated document (`LookupFindsTheDay`, `RecordingOnItsDay`).
- `mergePeople` folds a linked entity into its profile's card; a second entity linked to the
  same profile is in no card at all (`EntityShowsOrIsFolded`).

## Model

| member | source | states |
|---|---|---|
| OffsetMasking.MaskSpans | libs/contracts/src/sensitivity.ts:184-198 | for any spans, in any order and shape, the output is the text with each stretch of positions that have one first-covering span shown as one marker |
| OffsetMaskingLaws.SurvivorsAreTheUncovered | libs/contracts/src/sensitivity.ts:184-198 | what stays visible is, in order, exactly the positions no given span covers |
| OffsetMaskingLaws.OutputShowsExactlyTheUncovered | libs/contracts/src/sensitivity.ts:184-198 | deleting the marker characters from the output leaves exactly the uncovered characters, when the text has no marker character |
| OffsetMaskingLaws.ReorderingKeepsSurvivors | libs/contracts/src/sensitivity.ts:180-186 | permuting the spans never changes which characters survive |
| MaskingOrder.OrderMattersExactlyWhenContested | libs/contracts/src/sensitivity.ts:184-198 | all orders of the spans give the same output if and only if no span that ends inside the text shares its start with a longer one and has a position free of spans that start earlier |
| MaskingOrder.OutputDependsOnOrderExactlyWhenContested | libs/contracts/src/sensitivity.ts:184-198 | the same for the output text, with any marker that is not empty |
| MaskingOrder.ReorderingKeepsOutput | libs/contracts/src/sensitivity.ts:186 | in particular permuting the spans leaves the whole output alone if no two different spans share a start |
| OffsetMaskingLaws.SharedStartsDependOnOrder | libs/contracts/src/sensitivity.ts:186-194 | with a shared start the number of markers can depend on the order |
| OffsetMaskingLaws.AddingSpansOnlyHides | libs/contracts/src/sensitivity.ts:186-196 | further spans remove exactly the survivors they cover and add none |
| OffsetMaskingLaws.OneMarkerPerContributingSpan | libs/contracts/src/sensitivity.ts:189-195 | one marker for each span that newly covers some position, so never more markers than spans |
| SubstringMasking.MaskSecrets | apps/web/src/components/SpeakerTranscript.tsx:29-36 | the output is the text with the non-empty secrets replaced in turn, and no detached secret of the list occurs in it |
| SubstringMasking.DetachedSecretsAreGone | apps/web/src/components/SpeakerTranscript.tsx:21-36 | for any text, list and order, a detached secret of the list occurs nowhere in the output |
| SubstringMasking.MaskAllCreatesNothing | apps/web/src/components/SpeakerTranscript.tsx:31-34 | later replacements never recreate an occurrence of a detached string |
| SubstringMasking.MaskAllInTurn | apps/web/src/components/SpeakerTranscript.tsx:31-34 | a list of secrets is masked by masking its front and then its back |
| SubstringMasking.HiddenExactlyWhenDetached | apps/web/src/components/SpeakerTranscript.tsx:20-36 | a secret is hidden in every text by every list naming it if and only if it neither starts nor ends with the marker's character nor contains the marker |
| SubstringMasking.LeaksAtStart | apps/web/src/components/SpeakerTranscript.tsx:33 | a text that shows a secret starting with the marker's character after masking |
| SubstringMasking.LeaksAtEnd | apps/web/src/components/SpeakerTranscript.tsx:33 | the same for a secret ending with it |
| SubstringMasking.LeaksInside | apps/web/src/components/SpeakerTranscript.tsx:33 | the same for a secret containing the whole marker |
| SecretCuts.ReplaceAcross | apps/web/src/components/SpeakerTranscript.tsx:33 | split and join of a detached secret distribute over markers already placed |
| MaskersAgree.SecretMaskingIsSpanMasking | apps/web/src/components/SpeakerTranscript.tsx:29-36 | masking detached secrets one by one equals `maskSpans` on some pairwise disjoint intervals of the original text that each spell one of the secrets, and every occurrence of a secret is one of them, or overlaps one of an earlier secret, or one of the same secret further left |
| MaskersAgree.SpansAreDetermined | apps/web/src/components/SpeakerTranscript.tsx:31-34 | such intervals are determined by the text and the order of the secrets |
| MaskersAgree.SecretsInOrder | apps/web/src/components/SpeakerTranscript.tsx:120-123 | the secrets are the non-empty texts under the spans, in the order of the spans |
| MaskersAgree.SliceIsTextUnderSpan | apps/web/src/components/SpeakerTranscript.tsx:122 | a span within the content gives the text under it; negative, reversed and overlong spans are cut as `slice` does |
| MaskersAgree.MarkerIsSixBullets | apps/web/src/components/SpeakerTranscript.tsx:20 | the marker is six bullets |
| MaskersAgree.SpeakerViewHidesSpans | apps/web/src/components/SpeakerTranscript.tsx:120-124 | in whatever text the speaker view shows, the content under a span does not occur after masking, if it is detached |
| Mentions.SplitMentions | apps/web/src/components/Markdown.tsx:22-39 | the loop returns the leftmost split, whose parts print the input back and are canonical |
| Mentions.ResplitsExactlyWhenCanonical | apps/web/src/components/Markdown.tsx:20-39 | re-splitting printed parts gives the same parts if and only if prose is non-empty, never adjacent, no token starts in it, and labels are valid |
| Mentions.PlainResplits | apps/web/src/components/Markdown.tsx:20-39 | parts whose prose is non-empty, never adjacent and free of `@[` survive printing and re-splitting |
| Mentions.SplitLeavesNoToken | apps/web/src/components/Markdown.tsx:20-37 | no prose part contains `@[`, characters other than `]` and white space, and `]`; labels are non-empty without `]` or white space |
| MentionTree.RewriteKeepsMeaning | apps/web/src/components/Markdown.tsx:41-63 | the rewrite keeps the printed text, every outermost element tagged code or pre with everything in it, and the place of every other node among the stretches of text and chips, each with its printed text, and leaves no complete token in a text node below the root outside those elements |
| MentionTree.RewriteIsIdempotent | apps/web/src/components/Markdown.tsx:46-63 | a second pass changes nothing; a tree is unchanged if and only if it holds no complete token outside code |
| MentionPlugin.HastNode.Visit | apps/web/src/components/Markdown.tsx:47-61 | walking mutable nodes and assigning `children` in place turns the tree a node stands for into its rewrite, touching only that tree's nodes |
| MentionPlugin.HastNode.VisitChildren | apps/web/src/components/Markdown.tsx:51-59 | the loop over the children builds the rewritten child list, owning disjoint subtrees |
| MentionPlugin.TreeIsRead | apps/web/src/components/Markdown.tsx:10-18 | the tree a node stands for is its text or shape with the trees of its children, in order |
| Citations.SplitClassifies | apps/web/src/pages/ChatPage.tsx:282-286 | joining the parts gives the content back, and a part passes the whole-part re-test if and only if the split captured it |
| Citations.RunsAreMaximal | apps/web/src/pages/ChatPage.tsx:278-282 | captured stretches are maximal runs that start where the lookbehind allows |
| Citations.CapturedExactlyWhenCited | apps/web/src/pages/ChatPage.tsx:278-282 | a marker is captured if and only if it is not preceded by an identifier character, `]` or `)`, or directly follows a captured one |
| Citations.AnswerReadsAsWritten | apps/web/src/pages/ChatPage.tsx:282-310 | the displayed answer equals the content if and only if no captured marker has a leading zero, whatever the citations |
| CitationLinks.LinksAreTheCitations | apps/web/src/pages/ChatPage.tsx:228-306 | the links of the displayed answer are, in order, the citations of those of its numbers that have one, each the last citation with that number |
| CitationTokens.ScanIsSplit | libs/backend/citations/src/citation-coverage.ts:22-34 | the markers the server treats as citations are exactly those in the runs the page's split captures, in order |
| CitationTokens.RescansExactlyWhenCanonical | libs/backend/citations/src/citation-coverage.ts:31-34 | a list of characters and markers is read back from its text if and only if every marker stands where a citation can and no character completes another |
| CitationEnforcer.EnforceCitations | libs/backend/chat/src/citation-enforcer.ts:43-69 | the two passes and the clean-up return the specified text and the kept numbers in order of first appearance; every citation of the result is one of 1 to k, no two blanks meet, no space stands before a stop, and neither end is white space |
| CitationEnforcer.StrippingIsExact | libs/backend/chat/src/citation-enforcer.ts:44-55 | after stripping the citations are exactly the valid ones of the answer if and only if nowhere a bracket that could open a citation is followed by markers that are all stripped and then by digits and a closing bracket |
| CitationEnforcer.CitationsInRange | libs/backend/chat/src/citation-enforcer.ts:57-67 | every number at a citation position of the result lies between 1 and k, for any answer and any sources |
| CitationEnforcer.CitationsAreRenumbered | libs/backend/chat/src/citation-enforcer.ts:8-12 | if nothing is spliced, the citations of the result are the valid ones of the answer in order, numbered densely by first appearance |
| EnforcerLaws.ContentIsRenewed | libs/backend/chat/src/citation-enforcer.ts:44-66 | if nothing is spliced, the result is the tidied text of the answer's other characters and its valid citations, in order, each with the place of its number among the used ones |
| EnforcerLaws.StrippedNumbers | libs/backend/chat/src/citation-enforcer.ts:48-55 | stripping leaves exactly the numbers of known sources, in order, and every character outside the citations |
| EnforcerLaws.FirstSeenPicks | libs/backend/chat/src/citation-enforcer.ts:52 | the used numbers are those that occur, each once, in the order in which they first do |
| CitationEnforcer.SplicedShowsUndefined | libs/backend/chat/src/citation-enforcer.ts:57-62 | an answer like `[[99]12]`, with 99 not a source, is spliced and comes out as `[undefined]` |
| CitationTidy.TidyKeepsCitations | libs/backend/chat/src/citation-enforcer.ts:63-66 | the white-space clean-up neither makes nor loses a citation |
| TidyLaws.TidyIsTidy | libs/backend/chat/src/citation-enforcer.ts:63-66 | tidied text has no two spaces or tabs together, no space before a stop and no white space at its ends, and all other characters are those of the text, in order |
| TidyLaws.TidyIsLocal | libs/backend/chat/src/citation-enforcer.ts:64-66 | the clean-up is a reference in which every character is treated by its neighbours alone: a lone blank stays, the first of several becomes a space, a space before a stop goes, and the ends are trimmed |
| TidyLaws.TrimIsSlice | libs/backend/chat/src/citation-enforcer.ts:66 | trimming takes white space off both ends and nothing else |
| DayKeys.DayKeyIsInjective | apps/web/src/lib/format.ts:78-81 | different days have different keys, in every year |
| DayKeys.KeyIsSpelled | apps/web/src/lib/format.ts:78-81 | a key is the year as printed, a dash, the month from one in two figures, a dash, and the date in two figures |
| DayKeys.LocalDayIsFloor | apps/web/src/lib/format.ts:79 | the local day of an instant counts the whole days before it |
| DayKeys.KeyOrderIsDayOrder | apps/web/src/lib/format.ts:78-81 | for four-figure years the string order of keys is the order of days |
| DayKeys.SameUtcKey | apps/web/src/lib/format.ts:83-86 | two instants have the same UTC key if and only if they lie on the same UTC day or, where the year is written with a sign, in the same month |
| DayKeys.UtcKeyIsDayKey | apps/web/src/lib/format.ts:77-86 | the UTC key of an instant is the local key of a day if and only if that is its UTC day and the year lies between 1000 and 9999 |
| DayKeys.LocalAgreesWithUtc | apps/web/src/lib/format.ts:77-86 | at offset zero both keys of an instant agree if and only if its year is between 1000 and 9999 |
| IsoTimes.EarlierIsSmaller | libs/backend/calendar/src/calendar-events.service.ts:100-109 | of two instants the earlier has the smaller timestamp string if and only if its year is negative and the other is the same or has four digits, or its year has four digits and so has the other, or both have more |
| IsoTimes.StringOrderIsTimeOrder | libs/backend/calendar/src/calendar-events.service.ts:100-109 | for years 0 to 9999 the order of timestamp strings is the order of instants |
| IsoTimes.ParseIsoString | apps/web/src/pages/CalendarPage.tsx:51-55 | a timestamp of a four-digit year has the 24 characters of the ISO format, and reading its numerals gives its instant back |
| Utf16.LessIsFirstDifference | apps/web/src/lib/mergePeople.ts:45 | the order of strings is that of the first difference, a proper prefix first |
| Gregorian.DayOfDate | apps/web/src/lib/format.ts:97-106 | making the day of the date read off a day gives the day back |
| Gregorian.DateOfDay | apps/web/src/lib/format.ts:97-106 | reading the date off the day made of a valid date gives the date back |
| Gregorian.DateOrder | apps/web/src/lib/format.ts:97-106 | days are ordered as their year, month and date are |
| Gregorian.DayZero | apps/web/src/lib/format.ts:97-99 | day 0 is 1 January 1970, a Thursday |
| Gregorian.NextDay | apps/web/src/lib/format.ts:97-106 | the next day is the next weekday and the next date: of the same month up to its last date (31, 30, or 28 and 29 by the leap rule), else the first of the next month or year |
| MonthGrid.MonthGridDays | apps/web/src/lib/format.ts:96-111 | the loop returns the 42 days from the last Monday not after the first of the month |
| MonthGrid.GridIsConsecutive | apps/web/src/lib/format.ts:95-109 | cell i is local midnight i days after the first and falls on Monday-first weekday i mod 7 |
| MonthGrid.MonthAppearsOnce | apps/web/src/lib/format.ts:96-111 | each day of the month is in exactly one cell |
| MonthGrid.InMonthIsExact | apps/web/src/lib/format.ts:106 | `inMonth` is set exactly on the days of that month of that year |
| MonthGrid.GridKeysAreDistinct | apps/web/src/lib/format.ts:104 | the 42 keys of a grid are all different |
| MonthGrid.MonthCursor.ShiftMonth | apps/web/src/pages/CalendarPage.tsx:161-165 | the page's year and month become those of the shifted first of the month, with the month in 0 to 11 and the count of months moved by the shift, a two-digit year first read as 19xx |
| MonthGrid.PressesCount | apps/web/src/pages/CalendarPage.tsx:161-165 | every run of presses keeps the month in 0 to 11 and counts months, jumping only out of the years 0 to 99 |
| MonthGrid.ForwardAndBackReturns | apps/web/src/pages/CalendarPage.tsx:161-183 | n presses forward and n back are the identity if and only if n is 0, the year is 100 or later, or the run ends before year 0 |
| EventDays.EventKeys | apps/web/src/pages/CalendarPage.tsx:46-67 | the loops return, without duplicates, exactly the keys of the days the event covers |
| EventDays.TimedDays | apps/web/src/pages/CalendarPage.tsx:59-66 | a timed event covers its days from first to last, cut after 62, and always its end day |
| EventDays.TimedRangeIsExact | apps/web/src/pages/CalendarPage.tsx:25-66 | the days covered are exactly first to last if and only if the last is not before the first and at most 62 days after it |
| EventDays.AllDaySteps | apps/web/src/pages/CalendarPage.tsx:48-57 | an all-day event at any instants covers its start day and, up to 62, one day more for each whole day after the start that begins before the end |
| EventDays.AllDayDays | apps/web/src/pages/CalendarPage.tsx:48-57 | an all-day event between UTC midnights covers its dates, end excluded, cut after 62, and its start date if there is none |
| EventDays.AllDayRangeIsExact | apps/web/src/pages/CalendarPage.tsx:48-57 | the days covered are exactly start to end, end excluded, if and only if there are between 1 and 62 |
| EventDays.ListedOnItsDays | apps/web/src/pages/CalendarPage.tsx:55-66 | an event is listed under the key of a day if and only if it covers that day and, if it is an all-day event, the year lies between 1000 and 9999 |
| Buckets.BuildBuckets | apps/web/src/pages/CalendarPage.tsx:31-86 | for every key the mutable index holds exactly the input events listed there and the recordings and reminders with that key, in input order, and no empty bucket |
| Buckets.BucketIndex.Bucket | apps/web/src/pages/CalendarPage.tsx:36-44 | get or create: returns the bucket of the key, new only if there was none, and changes what no lookup shows |
| Buckets.FileEvent | apps/web/src/pages/CalendarPage.tsx:46-69 | one event is appended once to the bucket of each key it is listed under and to no other |
| Buckets.LookupFindsTheDay | apps/web/src/pages/CalendarPage.tsx:25-69 | looking up the key of any day finds, in input order, exactly the events covering that day, but outside the years 1000 to 9999 only the timed ones |
| Filters.FilterPicks | apps/web/src/pages/CalendarPage.tsx:68 | a filtered list is the list at an ascending list of positions, which holds exactly those of what is kept |
| Buckets.RecordingOnItsDay | apps/web/src/pages/CalendarPage.tsx:71-79 | a recording has the key of a day if and only if its document date is that UTC date and the year lies between 1000 and 9999, or, without a document date, it happened on that local day |
| Buckets.ReminderOnItsDay | apps/web/src/pages/CalendarPage.tsx:81-84 | a reminder has the key of a day if and only if it is due on that local day |
| Buckets.EventsAreConserved | apps/web/src/pages/CalendarPage.tsx:46-69 | under a key where it is listed an event is found as often as it was given, elsewhere never |
| Buckets.RecordingsAreConserved | apps/web/src/pages/CalendarPage.tsx:71-79 | every recording lands in exactly one bucket, as often as it was given |
| Buckets.RemindersAreConserved | apps/web/src/pages/CalendarPage.tsx:81-84 | every reminder lands in exactly one bucket, as often as it was given |
| FetchWindow.WindowIsAccepted | libs/contracts/src/calendar.ts:108-116 | the fetched window meets the two length conditions of the schema: it is always 44 days long, so positive and within the 400-day cap |
| FetchWindow.VisibleEventIsInRange | apps/web/src/pages/CalendarPage.tsx:103-107 | at any offset below 24 hours an event that covers a grid day, local or UTC, overlaps the window unless it ends before it starts and its far end is outside, and then does not |
| FetchWindow.BackwardsEventCanBeMissed | apps/web/src/pages/CalendarPage.tsx:103-112 | a timed event ending before it starts that covers the first grid day and lies outside the window, so that with four-digit years the query misses it |
| FetchWindow.QueryIsMeant | libs/backend/calendar/src/calendar-events.service.ts:67-73 | the query on timestamp strings, stated on instants: of what it is meant to return it returns exactly what is in step with the window, its years comparing as instants do |
| FetchWindow.LastDecemberIsLost | apps/web/src/pages/CalendarPage.tsx:103-112 | on the grid of December 9999 every visible event that starts before the year 10000 lies in the range and is missed by the query |
| FetchWindow.OrdinaryEventIsMissed | apps/web/src/pages/CalendarPage.tsx:103-112 | one such event, at noon of 15 December 9999 |
| FetchWindow.VisibleEventIsFetched | libs/backend/calendar/src/calendar-events.service.ts:67-73 | exactly which visible events the query on strings returns: those in step with the window, and a backwards one outside it only if string order brings its far end in |
| FetchWindow.WindowLosesNoEvent | libs/backend/calendar/src/calendar-events.service.ts:67-73 | a visible day lists the same events as if everything had been fetched, if and only if the query on strings reaches each one listed there; with four-digit years, if and only if none ends before it starts with its far end outside the window |
| FetchWindow.WindowLosesNoRecording | libs/backend/calendar/src/calendar-events.service.ts:90-110 | at any offset below 24 hours a visible day lists the same recordings, dated documents and plain ones, as if everything had been fetched, if and only if each one there is in step with the window; always, if the window lies in the years 0 to 9999 |
| FetchWindow.QueryComparesInstants | libs/backend/calendar/src/calendar-events.service.ts:67-73 | for years 0 to 9999 the query on timestamp strings is the query on instants |
| FetchWindow.WindowLosesNoReminder | libs/backend/reminders/src/reminders.service.ts:176-182 | the same for reminders |
| AliasHygiene.NormalizeIsIdempotent | libs/contracts/src/alias-hygiene.ts:16-19 | normal forms are fixed points, and trimming first changes nothing, even where a character is lower-cased by what stands around it |
| AliasWords.NormalFormIsWords | libs/contracts/src/alias-hygiene.ts:16-19 | the normal form is the words of the trimmed, lower-cased alias with one blank between them |
| AliasWords.LowerIsPiecewise | libs/contracts/src/alias-hygiene.ts:18 | lower-casing puts for each character, in order, what it becomes between the text before and after it |
| AliasWords.TrimIsSlice | libs/contracts/src/alias-hygiene.ts:18 | trimming takes white space off both ends and nothing else |
| AliasHygiene.SanitizeAliases | libs/contracts/src/alias-hygiene.ts:71-84 | the result is, trimmed and in input order, the first alias of each normal form that is meaningful and not the canonical one |
| AliasLaws.CleanedPicksFirstOccurrences | libs/contracts/src/alias-hygiene.ts:59-84 | the result is the trimmed aliases at an ascending list of positions, which holds exactly the first positions of those normal forms that hold a letter, are not on the word list and are not the canonical one |
| AliasLaws.CleanedKeys | libs/contracts/src/alias-hygiene.ts:59-84 | the normal forms of the result are exactly those of the input that hold a letter, are not on the word list and are not the canonical one |
| AliasLaws.CleanedIsDistinct | libs/contracts/src/alias-hygiene.ts:66-84 | no normal form appears twice in the result |
| AliasLaws.CleaningIsIdempotent | libs/contracts/src/alias-hygiene.ts:66-84 | cleaning a clean list changes nothing |
| AliasLaws.AccretionEqualsBatch | libs/contracts/src/alias-hygiene.ts:8-10 | cleaning a cleaned list with new aliases appended equals cleaning everything at once |
| AliasLaws.CleaningCommutes | libs/contracts/src/alias-hygiene.ts:71-84 | cleaning under two canonical names commutes |
| AliasLaws.OnlyTheNormalFormMatters | libs/contracts/src/alias-hygiene.ts:72-78 | canonical names with the same normal form clean alike |
| AliasLaws.NormalFormCleansAlike | libs/contracts/src/alias-hygiene.ts:72-78 | a canonical name and its normal form clean alike |
| MergePeople.Merge | apps/web/src/lib/mergePeople.ts:95-122 | the result is the stable sort, latest activity first, of one row per profile with its first linked entity and one per entity without a known profile |
| MergePeople.MergedIsSorted | apps/web/src/lib/mergePeople.ts:116-121 | whatever the locale's collation, the rows are a permutation in descending order of activity strings, ties in their original order |
| MergePeople.NewestFirst | apps/web/src/lib/mergePeople.ts:85-121 | under a collation that orders timestamps by their characters, rows with later activity come first and rows without any last |
| MergePeople.ActivityIsLatest | apps/web/src/lib/mergePeople.ts:42-64 | the activity of a profile's row is one that its halves know of, and neither knows of a later one in string order |
| MergePeople.RowShowsItsHalves | apps/web/src/lib/mergePeople.ts:48-83 | each row carries the identity, counts, consent and flags of its profile, the mentions of its entity, and the profile's name or else the entity's |
| MergePeople.RowsInOrder | apps/web/src/lib/mergePeople.ts:116-119 | before the sort the rows are those of the profiles in order, then those of the lone entities in order |
| MergePeople.EveryProfileHasItsRow | apps/web/src/lib/mergePeople.ts:116-117 | every profile has its row, with the first entity linked to it |
| MergePeople.EveryLoneEntityHasItsRow | apps/web/src/lib/mergePeople.ts:110-118 | every entity with no link or an unknown one has its row |
| MergePeople.NoOtherRows | apps/web/src/lib/mergePeople.ts:95-122 | there are no other rows |
| MergePeople.RowsAreForDifferentPeople | apps/web/src/lib/mergePeople.ts:18-19 | with distinct ids all row keys differ, and there are as many rows as profiles and lone entities |
| MergePeople.EntityShowsOrIsFolded | apps/web/src/lib/mergePeople.ts:100-114 | an entity is in some row if and only if it has no known profile or is the first linked to it |
| MergePeople.ProvenanceIsHonest | apps/web/src/pages/ContactsPage.tsx:56-59 | provenance matches the halves present, so a row of the review queue has a voice profile |
| Hashing.SpeakerColor | apps/web/src/lib/speakerColors.ts:24-30 | the palette index is the absolute value, modulo 8, of the base-31 polynomial of the code units reduced to signed 32 bits |
| Hashing.PolynomialSnoc | apps/web/src/lib/speakerColors.ts:26-28 | a further character multiplies the polynomial by 31 and adds it |
| Hashing.ToInt32IsSigned | apps/web/src/lib/speakerColors.ts:27 | the reduction gives the congruent integer from -2147483648 to 2147483647 |
| Hashing.DeterministicVector | apps/api/src/testing/fake-providers.ts:240-248 | coordinate i is the state after i + 1 steps from the seed, divided by 2^31, minus one |
| Hashing.StepIsSpelled | apps/api/src/testing/fake-providers.ts:244 | one step is 1664525 times the state plus 1013904223, modulo 2^32 |
| Hashing.StepIsABijection | apps/api/src/testing/fake-providers.ts:244 | a step of the generator is undone by an explicit inverse, both ways |
| Hashing.VectorsDifferEverywhere | apps/api/src/testing/fake-providers.ts:239-248 | vectors of different seeds differ in every coordinate, and all coordinates lie in [-1, 1) |
| GeneratorPeriod.GeometricTwos | apps/api/src/testing/fake-providers.ts:244 | a power of two divides 1 + a + ... + a^(n-1) if and only if it divides n, for a = 1 modulo 4 |
| GeneratorPeriod.ReturnsAfterFullPeriod | apps/api/src/testing/fake-providers.ts:241-246 | from any seed the generator returns to it exactly after the multiples of 2^32 steps |
| GeneratorPeriod.CoordinatesRepeatOnlyAfterFullPeriod | apps/api/src/testing/fake-providers.ts:243-246 | two coordinates of a vector are equal if and only if their positions differ by a multiple of 2^32 |
| StableSort.SortIsStable | libs/contracts/src/sensitivity.ts:186 | the comparator sort is ordered, a permutation and keeps ties in order |
| StableSort.StableSortIsUnique | apps/web/src/lib/mergePeople.ts:121 | two ordered sequences with the same ties are equal, so the stable sort is determined |

## Left out

- Daylight-saving changes: the browser's zone is one constant offset; with a 23-hour day the 24-hour step can skip a local day.
- The limits of `Date`: instants are unbounded integers, so the range error beyond about 275760 years is not modelled; timestamps in data are valid ISO instants, and a day key sliced from a stored timestamp is that of the canonical form `toISOString` writes.
- The tables of Unicode, the word list and the collation of a locale: lower-casing is an arbitrary function of a character and the text around it that is done after one pass, `\p{L}` an arbitrary predicate, `NON_NAME_TERMS` an arbitrary set and `localeCompare` an arbitrary total preorder, so everything holds for any of them.
- The collation of the database: its text comparisons are taken to be by character code.
- DayKeys.SameUtcKey: stated for years of at most six figures, which is every year a `Date` can hold.
- IsoTimes.EarlierIsSmaller: likewise stated for years of at most six figures.
- FetchWindow.WindowLosesNoEvent: likewise, for the window and the events; so are the lemmas for recordings and reminders.
- FetchWindow.WindowIsAccepted: only the two length conditions; the schema also asks `from` and `to` to be written as its date-time format has it, and that format's library is not part of this model.
- CitationEnforcer.CitationsAreRenumbered: stated for fewer than 1000 used sources, as the thousandth number would have four digits and be no marker; `CitationsInRange` needs no such bound.
- Hashing.DeterministicVector: the seed is any 32-bit word; the SHA-256 digest it is cut from is not modelled. Coordinates are exact reals, which the 33-bit values are in double precision too.
- The colour class names of the palette: only the index is modelled.
- The other fields of events, recordings and reminders: they are carried along and never looked at.
- React rendering, effects, polling and navigation, and the network calls behind them: their order depends on the browser.
- The server's extraction pipeline, search, merging of recordings and the counting of uncited clauses: other components, not part of this model.
- `maxTier`, `isMaskedTier`, `speakerDisplayName`, `formatBytes` and the other formatters are not modelled.
