# A model of the hard logic in this repository

Dafny models of six parts of the repository, each with proofs of what that part is for:

- **The TC-string codec** bundled in the documentation theme (`BitString`, `ConsentVector`, `ListCodec`, `VendorVector`,
  `VendorSize`, `PurposeRestrictions`, `RestrictionEntries`, `ConsentSegment`, `CoreSegment`, `CodecFormat`): the id vector
  with its cached maximum, the vendor encoder that decides inside its loop between bitfield and range form, the restriction
  encoder that lets ranges swallow ids missing from the GVL, and the base64url text form (section 5 of RFC 4648).
- **The Guild stale sweep** (`GuildBoard`, `GuildProtocol`, `GuildLiveness`, `GuildExamples`): one sweep as a method on a
  board, and whole histories of sweeps, comments, assignments and edits. The sweep has no state of its own; the theorems
  are about every history.
- **The duplicate bot** (`CandidateSelection`, `MatchFilter`, `MagnetList`, `MagnetOrder`, `MagnetParser`, `MagnetRoundTrip`,
  `BotComment`, `BotCommentText`, `BotCommentRoundTrip`, `BotCommentMarkers`, with `Text` and `Sorting`): the quota allocator,
  the filter that must hold against arbitrary model replies, and two formats that one script prints and another parses.
- **Text and interval algorithms** (`SkillName`, `SkillLaws`, `Frontmatter`, `ExcerptRanges`, `TerminalOutput`).
- **Triage** (`TriageSync`, `TriageQueue`): three derivations that must agree, the business-day window, two board syncs.
- **Thread migration** (`LegacyThread`).

Loops and mutable objects of the source are methods and classes here, each proved against a function; the properties are
lemmas about those functions. Times are integers in seconds, days are counted from a Monday, remote services are explicit
state, and replies of a model or a YAML library are arbitrary.

Some promises do not hold of the code as it is. Each has an exact condition and a lemma at a failing input: vendor
vectors that cannot be encoded (`VendorVector.EncodeFailsIff`, `BoundIsTight`), range form that is longer than the
bitfield (`VendorSize.LongerThanBitfieldIff`, `ExcessIsReached`), restrictions that lose vendor 0
(`PurposeRestrictions.LastDecides`, `ZeroCanBeLost`) or have no vendors (`KeysKeptIff`, `EmptyRestrictionIsDropped`),
entries that are not as few as they could be (`RestrictionEntries.FewestIff`, `MoreThanNeeded`),
clearings that are unfair to one of several guild assignees (`GuildProtocol.FairIffNudged`,
`GuildExamples.SharedAssignmentIsUnsafe`, `CoAssigneeIsRemoved`), free text that smuggles references or markers into a
comment (`BotCommentRoundTrip.SuggestedIff`, `ReferenceCanBeInjected`, `BotCommentMarkers.UserFacingIff`,
`MarkerCanBeSmuggled`), limits below 6 (`CandidateSelection.PromisesKeptIff`, `PromiseCanBreak`), overwritten tool results
(`LegacyThread.ResultsConservedIff`, `ResultsCanBeLost`), stale dates that stay on the board
(`TriageSync.StaleSinceForgetsIff`, `StaleDateCanStay`), a short staff comment that moves an anchor back
(`TriageSync.AnchorMovesBackIff`, `ShortCommentRewinds`), and weekend issues that wait a day longer than the comment in the
code says (`TriageQueue.WordingHoldsIff`, `SaturdayWaits`).

The codec is one minified line; its export table names the parts (`pe` Base64Url, `L` IntEncoder, `ne` FixedVectorEncoder,
`ce` VendorVectorEncoder, `Ve` PurposeRestrictionVectorEncoder, `H` Vector, `he` PurposeRestrictionVector).

`dafny verify dfyconfig.toml` checks the whole project.

## Model

| member | source | states |
|---|---|---|
| `BitString.EncodeIntAsWritten` | docs/theme/c15t@2.0.0-rc.3.js:1 | the fixed-width encoder equals the code's own spelling: numeral, length test, left padding |
| `BitString.IntRoundTrip` | docs/theme/c15t@2.0.0-rc.3.js:1 | whatever integer encodes is decoded back |
| `BitString.IntCanonical` | docs/theme/c15t@2.0.0-rc.3.js:1 | every bit string of a field's width is the code of the number it decodes to, so encoding is onto |
| `BitString.IntAtAsWritten` | docs/theme/c15t@2.0.0-rc.3.js:1 | reading a field in place equals decoding the clamped substring |
| `ConsentVector.Vector.constructor` | docs/theme/c15t@2.0.0-rc.3.js:1 | a new vector is empty with maximum 0 |
| `ConsentVector.Vector.Set` | docs/theme/c15t@2.0.0-rc.3.js:1 | adds a positive id and keeps the cached maximum right; any other id raises and changes nothing |
| `ConsentVector.Vector.SetEach` | docs/theme/c15t@2.0.0-rc.3.js:1 | setting a list adds its ids up to the first bad one, and raises exactly on a bad one |
| `ConsentVector.Vector.SetRange` | docs/theme/c15t@2.0.0-rc.3.js:1 | setting a range adds exactly the ids of the interval |
| `ConsentVector.Vector.Unset` | docs/theme/c15t@2.0.0-rc.3.js:1 | removes one id; the maximum is found anew when the largest id goes |
| `ConsentVector.Vector.Largest` | docs/theme/c15t@2.0.0-rc.3.js:1 | the search over the remaining ids returns their maximum, 0 for none |
| `ConsentVector.Vector.Empty` | docs/theme/c15t@2.0.0-rc.3.js:1 | clears set and maximum but leaves the cached bit length, as the code does |
| `ConsentVector.MaxIsUnique` | docs/theme/c15t@2.0.0-rc.3.js:1 | the cached maximum is determined by the set |
| `ConsentVector.EncodeBitfield` | docs/theme/c15t@2.0.0-rc.3.js:1 | the loop over ids writes one bit per id up to the count |
| `ConsentVector.DecodeBitfield` | docs/theme/c15t@2.0.0-rc.3.js:1 | reads back exactly the ids whose bit is set, or raises when the length is not the count |
| `ConsentVector.BitfieldRoundTrip` | docs/theme/c15t@2.0.0-rc.3.js:1 | bitfield form gives the set back when the count reaches its maximum |
| `ListCodec.ListRoundTrip` | docs/theme/c15t@2.0.0-rc.3.js:1 | an element-wise inverse is an inverse of counted lists, wherever the code stands in the bits |
| `VendorVector.BuildRangeEncoding` | docs/theme/c15t@2.0.0-rc.3.js:1 | count and entries, or an error as soon as one field does not fit |
| `VendorVector.EncodeVector` | docs/theme/c15t@2.0.0-rc.3.js:1 | the adaptive loop (running estimate, pending range, range form that never turns on again) computes the specification |
| `VendorVector.RunsCoverAll` | docs/theme/c15t@2.0.0-rc.3.js:1 | the range list is complete: the runs cover exactly the ids |
| `VendorVector.DecodeEntryInto` | docs/theme/c15t@2.0.0-rc.3.js:1 | one entry adds a single id or the ids of a range, none for a reversed one; id 0 raises |
| `VendorVector.DecodeRanges` | docs/theme/c15t@2.0.0-rc.3.js:1 | reading the counted entries gives their union and the end position |
| `VendorVector.DecodeVector` | docs/theme/c15t@2.0.0-rc.3.js:1 | both forms; the consumed length is recorded in the vector |
| `VendorVector.RoundTrip` | docs/theme/c15t@2.0.0-rc.3.js:1 | decoding what was encoded, followed by any bits, returns exactly the set and consumes exactly the code, in both forms |
| `VendorVector.VersionOne` | docs/theme/c15t@2.0.0-rc.3.js:1 | version 1 reads one bit more in range form: off it is skipped, on it raises; its bitfield form is the same |
| `VendorVector.EncodeFailsIff` | docs/theme/c15t@2.0.0-rc.3.js:1 | encoding raises exactly for a maximum over 65535, or for 4096 isolated ids with a maximum of 65533 or more |
| `VendorVector.SmallVectorsEncode` | docs/theme/c15t@2.0.0-rc.3.js:1 | up to a maximum of 65532 encoding never raises and the entry count fits 12 bits |
| `VendorVector.BoundIsTight` | docs/theme/c15t@2.0.0-rc.3.js:1 | at maximum 65533 there are 4096 ids that pick range form and cannot be encoded |
| `VendorSize.FormIsPickedIff` | docs/theme/c15t@2.0.0-rc.3.js:1 | range form is picked exactly when the maximum exceeds 45 and 16 bits per id alone and 33 per run stay below maximum + 4 |
| `VendorSize.CodeSize` | docs/theme/c15t@2.0.0-rc.3.js:1 | the exact length of a code in either form, from the ids alone, the runs and the maximum |
| `VendorSize.LongerThanBitfieldIff` | docs/theme/c15t@2.0.0-rc.3.js:1 | when the picked form is longer than the bitfield, exactly, and never by more than 15 bits and one for each id alone |
| `VendorSize.ExcessIsReached` | docs/theme/c15t@2.0.0-rc.3.js:1 | that excess is reached for every number of ids from 4 to 4095 |
| `PurposeRestrictions.EncodeVendors` | docs/theme/c15t@2.0.0-rc.3.js:1 | the loop that opens entries, extends them over ids missing from the GVL and closes them, for every vendor set: the gap entries, preceded by the number of entries opened; which vendors share an entry is `RestrictionEntries.ShareIff` |
| `PurposeRestrictions.WrittenCountIs` | docs/theme/c15t@2.0.0-rc.3.js:1 | the count is the number of entries, one too many exactly when vendor 0 starts an entry that goes on |
| `PurposeRestrictions.EncodeVector` | docs/theme/c15t@2.0.0-rc.3.js:1 | the whole map, or the first error |
| `PurposeRestrictions.PurposeRestrictionVector.Add` | docs/theme/c15t@2.0.0-rc.3.js:1 | adds a vendor under its key; a key that cannot be hashed raises |
| `PurposeRestrictions.PurposeRestrictionVector.ReadEntry` | docs/theme/c15t@2.0.0-rc.3.js:1 | one range entry, added id by id |
| `PurposeRestrictions.PurposeRestrictionVector.ReadEntries` | docs/theme/c15t@2.0.0-rc.3.js:1 | all entries of a restriction, merged into the map |
| `PurposeRestrictions.PurposeRestrictionVector.ReadRestriction` | docs/theme/c15t@2.0.0-rc.3.js:1 | key fields, then the entries |
| `PurposeRestrictions.DecodeVector` | docs/theme/c15t@2.0.0-rc.3.js:1 | the loop over restrictions computes the functional decoder |
| `PurposeRestrictions.CoverSound` | docs/theme/c15t@2.0.0-rc.3.js:1 | the ids an encoding covers contain every vendor (but a lost 0), add none that the GVL lists, and are empty only for no vendors |
| `PurposeRestrictions.RoundTrip` | docs/theme/c15t@2.0.0-rc.3.js:1 | decoding gives exactly the entries with a non-empty cover and consumes exactly the code, if no restriction loses vendor 0 |
| `PurposeRestrictions.KeysKeptIff` | docs/theme/c15t@2.0.0-rc.3.js:1 | the restriction keys come back exactly when no vendor set is empty |
| `PurposeRestrictions.VendorsKept` | docs/theme/c15t@2.0.0-rc.3.js:1 | each decoded vendor set contains the original, adds no listed id, and equals it on the GVL |
| `PurposeRestrictions.ReadExactlyIff` | docs/theme/c15t@2.0.0-rc.3.js:1 | wherever a restriction stands, it is read back exactly if and only if it does not lose vendor 0 |
| `PurposeRestrictions.LastDecides` | docs/theme/c15t@2.0.0-rc.3.js:1 | decoding is exact if and only if the last restriction does not lose vendor 0, the others keeping theirs; else it fails or runs 17 bits too far |
| `PurposeRestrictions.ZeroCanBeLost` | docs/theme/c15t@2.0.0-rc.3.js:1 | vendors 0 and 1, both listed, cannot be decoded exactly |
| `PurposeRestrictions.EmptyRestrictionIsDropped` | docs/theme/c15t@2.0.0-rc.3.js:1 | a restriction without vendors encodes, and nothing of it comes back |
| `RestrictionEntries.ShareIff` | docs/theme/c15t@2.0.0-rc.3.js:1 | two positive vendors share an entry exactly when the GVL lists no id between them that is no vendor, and lists something from the larger one to the largest vendor |
| `RestrictionEntries.ShareIffListed` | docs/theme/c15t@2.0.0-rc.3.js:1 | for listed vendors, exactly when no listed id that is no vendor lies between them |
| `RestrictionEntries.CoverIff` | docs/theme/c15t@2.0.0-rc.3.js:1 | the cover is the vendors and the ids between neighbouring vendors with nothing listed between them, as long as something is listed from the later one on |
| `RestrictionEntries.FewestIff` | docs/theme/c15t@2.0.0-rc.3.js:1 | no entries that contain the vendors and no other listed id are fewer, if and only if something is listed beyond every vendor but the largest |
| `RestrictionEntries.FewestForListed` | docs/theme/c15t@2.0.0-rc.3.js:1 | so for listed vendors the count written is the least possible |
| `RestrictionEntries.MoreThanNeeded` | docs/theme/c15t@2.0.0-rc.3.js:1 | two unlisted vendors and an empty GVL: two entries where one would do |
| `CodecFormat.EntryFormat` | docs/theme/c15t@2.0.0-rc.3.js:1 | an entry is 0 and an id, or 1 and two ends, 16 bits each |
| `CodecFormat.VendorCodeFront` | docs/theme/c15t@2.0.0-rc.3.js:1 | a vendor code starts with the maximum in 16 bits and the form |
| `CodecFormat.BitfieldPlaces` | docs/theme/c15t@2.0.0-rc.3.js:1 | the bit of an id stands at its place, counted from 1 |
| `CodecFormat.RangeCount` | docs/theme/c15t@2.0.0-rc.3.js:1 | in range form the number of runs follows in 12 bits |
| `CodecFormat.RestrictionFront` | docs/theme/c15t@2.0.0-rc.3.js:1 | a restriction starts with 6 bits of purpose, 2 of type and 12 of count |
| `CodecFormat.MapFront` | docs/theme/c15t@2.0.0-rc.3.js:1 | the map starts with its number of restrictions in 12 bits |
| `CodecFormat.RestrictionEncodesIff` | docs/theme/c15t@2.0.0-rc.3.js:1 | a restriction encodes exactly when purpose, type, count and ids fit their fields |
| `CodecFormat.OddVendorEntries` | docs/theme/c15t@2.0.0-rc.3.js:1 | a vendor entry for id 0 raises, and a reversed range adds nothing |
| `CodecFormat.OddRestrictionEntries` | docs/theme/c15t@2.0.0-rc.3.js:1 | in a restriction a reversed range raises, and so does any id under a key that cannot be hashed |
| `ConsentSegment.Encode` | docs/theme/c15t@2.0.0-rc.3.js:1 | Base64Url.encode pads to 24 bits and spells six bits a letter; the empty string raises |
| `ConsentSegment.Decode` | docs/theme/c15t@2.0.0-rc.3.js:1 | Base64Url.decode, or an error on a character outside the alphabet |
| `ConsentSegment.LetterRoundTrip` | docs/theme/c15t@2.0.0-rc.3.js:1 | the alphabet and its index table are inverse, from number to letter |
| `ConsentSegment.LetterIndexRoundTrip` | docs/theme/c15t@2.0.0-rc.3.js:1 | and from letter to number |
| `ConsentSegment.TextRoundTrip` | docs/theme/c15t@2.0.0-rc.3.js:1 | text decodes to the bits followed by fewer than 24 zero bits |
| `ConsentSegment.SegmentRoundTrip` | docs/theme/c15t@2.0.0-rc.3.js:1 | the vendors-disclosed segment survives bits, text and padding |
| `CodecFormat.LetterIs` | docs/theme/c15t@2.0.0-rc.3.js:1 | the letters are the base64url alphabet in its order |
| `CodecFormat.SegmentFront` | docs/theme/c15t@2.0.0-rc.3.js:1 | the segment is type 1 in 3 bits followed by the vendor code, spelled as text |
| `CoreSegment.ReadFields` | docs/theme/c15t@2.0.0-rc.3.js:1 | the cursor moves by the length each of the three variable fields recorded |
| `CoreSegment.FieldsRoundTrip` | docs/theme/c15t@2.0.0-rc.3.js:1 | vendor consents, legitimate interests and publisher restrictions in a row come back, each from where the one before ended, after any prefix and before any suffix |
| `CoreSegment.FieldsSurviveText` | docs/theme/c15t@2.0.0-rc.3.js:1 | and through the text form with its padding |
| `GuildBoard.ScanComments` | script/github-guild-board.py:625-634 | one pass finds the assignee's last activity and the last check-in |
| `GuildBoard.SweepItem` | script/github-guild-board.py:595-675 | one item: skipped, nudged, cleared and moved to its column, or stopped for want of an assignment event; the lemmas below say which from the item alone |
| `GuildBoard.OutOfReachIsSkipped` | script/github-guild-board.py:595-616 | an item that is archived, no issue, not In Progress, on hold, has a closing pull request or no guild assignee is skipped and unchanged |
| `GuildBoard.DecisionIff` | script/github-guild-board.py:617-657 | every other item, from its thread: cleared exactly when a check-in is no older than anything the first guild assignee did and none is younger than 7 days; nudged exactly when there is no such check-in and that assignee was quiet for 14 days |
| `GuildBoard.StopsIff` | script/github-guild-board.py:172-187 | the sweep stops exactly when that assignee has no assignment event |
| `GuildBoard.ClearedItem` | script/github-guild-board.py:657-675 | a clearing takes the guild assignees away, moves features to "Ship a New Feature", bugs, docs and crashes to "Bug Bashers", leaves other types In Progress, and changes nothing else |
| `GuildBoard.NudgedItem` | script/github-guild-board.py:644-650 | a check-in adds one comment of the bot with the marker and changes nothing else |
| `GuildBoard.Board.RunStale` | script/github-guild-board.py:591-677 | the whole sweep: each item on its own, both counters right, and an early stop leaves the rest untouched |
| `GuildProtocol.AssigneesAreRecorded` | script/github-guild-board.py:172-187 | in every history, whoever is assigned has an assignment event |
| `GuildProtocol.SweepNeverStops` | script/github-guild-board.py:172-187 | so no sweep of a history stops early |
| `GuildProtocol.HeldIsLeftAlone` | script/github-guild-board.py:595-616 | in no history does a sweep nudge or clear an item that is out of reach at that moment |
| `GuildProtocol.CheckInRecorded` | script/github-guild-board.py:626-631 | the latest marker comment is the last check-in of the history |
| `GuildProtocol.ActivityRecorded` | script/github-guild-board.py:625-634 | the recovered activity is the assignee's last comment or assignment in the history |
| `GuildProtocol.CheckInMeans` | script/github-guild-board.py:636-650 | a check-in means at least 14 quiet days and no check-in since the last activity |
| `GuildProtocol.ClearMeans` | script/github-guild-board.py:652-657 | a clearing means a check-in after the last activity, at least 7 days ago |
| `GuildProtocol.ClearedOnlyAfterSilence` | script/github-guild-board.py:620-657 | in every history with one guild assignee at a time: 14 quiet days, a check-in to that very person, 7 more quiet days; never within 21 days of any activity |
| `GuildProtocol.FairIffNudged` | script/github-guild-board.py:618-657 | for any number of guild assignees and each of them: 14 quiet days, an own check-in and 7 more quiet days, if and only if they were nudged themselves since last active |
| `GuildProtocol.FairMeansTwentyOneDays` | script/github-guild-board.py:636-657 | and then nobody goes within 21 days of any activity |
| `GuildProtocol.ClearingRemovesAll` | script/github-guild-board.py:657-657 | a clearing takes exactly the guild assignees away, those the sweep never looked at included |
| `GuildExamples.TwentyOneDaysIsTight` | script/github-guild-board.py:620-657 | the bound is reached: a history with one assignee, cleared exactly 21 days after the assignment |
| `GuildProtocol.OneCheckInPerSilence` | script/github-guild-board.py:619-650 | between two check-ins lies activity of the person nudged second |
| `GuildLiveness.SilenceIsCleared` | script/github-guild-board.py:595-657 | whoever is silent and is found first on an item in progress by every sweep is cleared within 21 days plus 2g (plus posting lag), whatever else happens to the item |
| `GuildExamples.SharedAssignmentIsUnsafe` | script/github-guild-board.py:618-657 | with two guild assignees: a history that clears somebody 9 days after joining, never nudged |
| `GuildExamples.CoAssigneeIsRemoved` | script/github-guild-board.py:618-657 | and one that takes a co-assignee away one day after their comment, never nudged |
| `CandidateSelection.SelectSearchCandidates` | script/github-check-new-issue-for-duplicates.py:613-638 | the loops over channels and candidates, with the key set kept beside the list |
| `CandidateSelection.SelectionSize` | script/github-check-new-issue-for-duplicates.py:625-638 | no repeated key, only offered keys, and exactly min(limit, distinct keys) candidates |
| `CandidateSelection.QuotasFitIff` | script/github-check-new-issue-for-duplicates.py:617-623 | the five reserved quotas fit the limit exactly from 6 on |
| `CandidateSelection.PromisesKeptIff` | script/github-check-new-issue-for-duplicates.py:630-638 | every channel gets its first quota-many matches exactly when the promised candidates have at most `limit` keys |
| `CandidateSelection.KeepsPromises` | script/github-check-new-issue-for-duplicates.py:617-638 | so for every limit of at least 6 |
| `CandidateSelection.SharesKept` | script/github-check-new-issue-for-duplicates.py:617-638 | the shares in numbers: a third of the limit for semantic matches, a tenth (at least 1) for error patterns, a sixth for title keywords, a fifth for popular areas, a sixth for area labels |
| `CandidateSelection.RestIsFilledInOrder` | script/github-check-new-issue-for-duplicates.py:625-638 | the places left over go to the other candidates in their order |
| `CandidateSelection.PromiseCanBreak` | script/github-check-new-issue-for-duplicates.py:617-638 | six candidates and a limit of 5: a promise is broken, so 6 is the least |
| `MatchFilter.ResolveMatches` | script/github-check-new-issue-for-duplicates.py:1042-1059 | the filtering loop with `seen` and `dropped`; each reply is resolved or dropped; which, is `BucketsAreComplete` |
| `MatchFilter.ResolveSpec` | script/github-check-new-issue-for-duplicates.py:1042-1059 | exactly the first usable reply for each key gets through, with its candidate; a key gets through exactly when some reply for it is usable |
| `MatchFilter.CritiqueProposedMatches` | script/github-check-new-issue-for-duplicates.py:1129-1189 | the loop over both buckets: kept likely; downgraded likely, then kept possible |
| `MatchFilter.RoutedLabelled` | script/github-check-new-issue-for-duplicates.py:1176-1186 | a possible match never becomes likely, whatever the verdict text |
| `MatchFilter.CritiqueRelatedClosed` | script/github-check-new-issue-for-duplicates.py:1264-1316 | exactly the included closed candidates stay |
| `MatchFilter.AnalysisIsSafe` | script/github-check-new-issue-for-duplicates.py:1040-1079 | whatever the model replies: offered candidates in the required state, root causes on open issues, all keys of the three buckets different |
| `MatchFilter.BucketsAreComplete` | script/github-check-new-issue-for-duplicates.py:1040-1079 | and nothing sound is lost: each bucket holds exactly the keys that some reply for it names with an offered candidate in the right state, and with a root cause if that is an open issue; the possible bucket leaves out what is likely |
| `MatchFilter.ResolveInOrder` | script/github-check-new-issue-for-duplicates.py:1042-1059 | what gets through keeps the order of the replies |
| `MatchFilter.SurvivorsAreSafe` | script/github-check-new-issue-for-duplicates.py:1129-1189 | the same after both critiques, for every verdict or failure, with an exact description of each surviving bucket |
| `MatchFilter.NeverPromoted` | script/github-check-new-issue-for-duplicates.py:1129-1189 | a key that no likely reply names soundly is never among the surviving likely matches |
| `MatchFilter.TrackerReadsSurvivors` | script/github-check-new-issue-for-duplicates.py:142-227 | the numbers read back from the posted comment are those of surviving issues, each once |
| `MagnetList.GroupByArea` | script/github-find-top-duplicated-bugs.py:154-159 | the grouping loops: areas in order of first appearance, totals beside them |
| `MagnetOrder.GroupedSpec` | script/github-find-top-duplicated-bugs.py:154-159 | one group for each listed area, in order of first listing, with exactly the issues listed under it and the sum of their counts |
| `MagnetList.PrintGroups` | script/github-find-top-duplicated-bugs.py:161-176 | the printing loops: heading and sorted lines for each area |
| `MagnetList.BuildMarkdownBody` | script/github-find-top-duplicated-bugs.py:148-178 | the whole list, areas by total |
| `MagnetOrder.PrintedInOrder` | script/github-find-top-duplicated-bugs.py:148-178 | each area once, by non-increasing sum of its counts, ties by first listing; under it exactly its issues by non-increasing count, ties in their order |
| `MagnetList.ParseDuplicateMagnets` | script/github-check-new-issue-for-duplicates.py:487-524 | the parsing loop, then the sort by count |
| `MagnetParser.ParseLineIff` | script/github-check-new-issue-for-duplicates.py:503-507 | a line gives a count and a number exactly when it has the printed shape, spelled out on the text |
| `MagnetParser.EntryOfLine` | script/github-check-new-issue-for-duplicates.py:493-513 | a line counts under the last heading above it |
| `MagnetParser.ParsedMagnets` | script/github-check-new-issue-for-duplicates.py:487-524 | for every body: one magnet for each number that a line gives under a heading, the count of the first such line, the areas of all of them, sorted by count |
| `MagnetRoundTrip.InfoLineParses` | script/github-find-top-duplicated-bugs.py:173-176 | a printed line parses to its count and number |
| `MagnetRoundTrip.RepositoryUrl` | script/github-check-new-issue-for-duplicates.py:503-507 | repository issue urls satisfy what the line parser needs |
| `MagnetRoundTrip.RoundTrip` | script/github-check-new-issue-for-duplicates.py:487-524 | parsing the printed list: sorted by count, each number once, with number, count and set of areas of an input; an input is there exactly when an area name is not blank |
| `Sorting.SortDescSpec` | script/github-check-new-issue-for-duplicates.py:522-522 | the sort is a descending permutation and keeps the order of elements with equal keys |
| `Sorting.SortKeepsOrder` | script/github-check-new-issue-for-duplicates.py:522-522 | elements with equal keys come in the order they had |
| `BotCommentRoundTrip.SuggestedJoin` | script/github-track-duplicate-bot-effectiveness.py:154-156 | the numbers read from joined text are those of its pieces, in order |
| `BotCommentRoundTrip.LineNumberIff` | script/github-track-duplicate-bot-effectiveness.py:154-156 | a number is read from a line exactly when the line is a reference to it, spelled out on the text |
| `BotCommentRoundTrip.SuggestedIff` | script/github-track-duplicate-bot-effectiveness.py:154-156 | the tracker reads likely, possible and closed issue numbers in this order and no discussion, exactly when no free text has a later line that looks like a reference |
| `BotCommentRoundTrip.ReferenceCanBeInjected` | script/github-track-duplicate-bot-effectiveness.py:154-156 | an explanation with a second line "- #7" makes the tracker read something else |
| `BotCommentMarkers.UserFacingIff` | script/github-track-duplicate-bot-effectiveness.py:132-133 | a comment is user-facing exactly when there is a likely match, or a free text of the triage section holds a marker |
| `BotCommentMarkers.MarkerCanBeSmuggled` | script/github-track-duplicate-bot-effectiveness.py:132-133 | a possible match whose explanation quotes the marker makes the comment user-facing |
| `BotCommentMarkers.BotCommentIff` | script/github-track-duplicate-bot-effectiveness.py:127-129 | a comment is recognised exactly when anything was posted |
| `BotCommentText.LikelyIssueShown` | script/github-check-new-issue-for-duplicates.py:142-227 | a likely issue is listed as a duplicate; its explanation and its root cause stand under their own labels |
| `BotCommentText.LikelyDiscussionShown` | script/github-check-new-issue-for-duplicates.py:142-227 | a likely discussion is listed as covering the report, with link and explanation |
| `BotCommentText.PossibleIssueShown` | script/github-check-new-issue-for-duplicates.py:142-227 | a possible issue stands among the open issues, explanation first, root cause below |
| `BotCommentText.TriageIsFolded` | script/github-check-new-issue-for-duplicates.py:142-227 | possible and closed matches stand behind the summary line that the tracker looks for |
| `BotCommentText.ClosedIssueShown` | script/github-check-new-issue-for-duplicates.py:142-227 | a closed issue stands among the recently closed ones, marked exactly if it was closed as a duplicate |
| `BotCommentText.PossibleDiscussionShown` | script/github-check-new-issue-for-duplicates.py:142-227 | a possible discussion stands among the discussions, with its link |
| `ExcerptRanges.Absorb` | crates/acp_thread/src/diff.rs:363-371 | the inner loop absorbs every touching range and covers the same places |
| `ExcerptRanges.MergeSorted` | crates/acp_thread/src/diff.rs:360-376 | the result is separated, ordered and covers exactly the input |
| `ExcerptRanges.PendingDiff.ExcerptRanges` | crates/acp_thread/src/diff.rs:340-376 | the same for unsorted hunks and revealed ranges |
| `ExcerptRanges.PendingDiff.RevealRange` | crates/acp_thread/src/diff.rs:256-259 | afterwards exactly the old places and those of the range are visible |
| `ExcerptRanges.MergeIsUnique` | crates/acp_thread/src/diff.rs:358-375 | a separated list is determined by what it covers |
| `ExcerptRanges.MergeIgnoresOrder` | crates/acp_thread/src/diff.rs:356-375 | the result does not depend on the order of the ranges |
| `ExcerptRanges.MergeIsIdempotent` | crates/acp_thread/src/diff.rs:358-375 | merging again changes nothing |
| `ExcerptRanges.InsideExactlyOne` | crates/acp_thread/src/diff.rs:358-375 | each input lies in exactly one output |
| `SkillName.CollectWords` | crates/agent_skills/agent_skills.rs:455-479 | the one-pass loop equals splitting the mapped text at separators and joining the words |
| `SkillName.Slugify` | crates/agent_skills/agent_skills.rs:450-490 | the whole function against the split-and-join specification, truncation included; `SkillLaws` says what that is, character by character |
| `SkillName.SlugIsValid` | crates/agent_skills/agent_skills.rs:449-490 | every slug passes the validator and has no double hyphen |
| `SkillName.ValidNamesAreFixed` | crates/agent_skills/agent_skills.rs:450-527 | a valid name without a double hyphen is its own slug |
| `SkillName.FixedIff` | crates/agent_skills/agent_skills.rs:450-527 | and a double hyphen is the only exception |
| `SkillName.SlugIsIdempotent` | crates/agent_skills/agent_skills.rs:450-490 | slugging a slug changes nothing |
| `SkillName.NoSlugIff` | crates/agent_skills/agent_skills.rs:450-490 | there is no slug exactly when the input has no ASCII alphanumeric and no ampersand |
| `SkillLaws.CaseIsIgnored` | crates/agent_skills/agent_skills.rs:450-490 | texts that differ only in ASCII case have the same slug |
| `SkillLaws.WordsAreLowered` | crates/agent_skills/agent_skills.rs:455-479 | a word of ASCII letters and digits becomes that word with A to Z replaced by a to z |
| `SkillLaws.TidyIsFixed` | crates/agent_skills/agent_skills.rs:455-479 | any text of name characters without stray hyphens is its own untruncated slug, however long |
| `SkillLaws.SpaceIsHyphen` | crates/agent_skills/agent_skills.rs:455-479 | a space and a hyphen are the same |
| `SkillLaws.SeparatorsCollapse` | crates/agent_skills/agent_skills.rs:455-479 | separators in a row are one |
| `SkillLaws.EndsAreTrimmed` | crates/agent_skills/agent_skills.rs:455-479 | separators at the ends are none |
| `SkillLaws.AmpersandIsAnd` | crates/agent_skills/agent_skills.rs:450-479 | an ampersand is the word "and" between separators |
| `SkillLaws.SpacedAmpersand` | crates/agent_skills/agent_skills.rs:450-479 | so "x & y" and "x and y" have the same slug |
| `SkillLaws.OthersAreDropped` | crates/agent_skills/agent_skills.rs:455-479 | any other character is dropped and separates nothing |
| `SkillLaws.CutAtTheLimit` | crates/agent_skills/agent_skills.rs:480-490 | a slug is whole up to 64 characters; beyond it is the prefix of 64, or of 63 if a hyphen would end it |
| `SkillLaws.ValidIff` | crates/agent_skills/agent_skills.rs:508-527 | a name is valid exactly when it has 1 to 64 characters a to z, 0 to 9 or hyphen, and no hyphen at either end |
| `SkillLaws.TooLongIff` | crates/agent_skills/agent_skills.rs:508-527 | a name is reported as too long exactly when its UTF-8 form exceeds 64 bytes |
| `Frontmatter.FindCandidates` | crates/agent_skills/agent_skills.rs:359-388 | the candidates are collected in order |
| `Frontmatter.ScanSeesNextLine` | crates/agent_skills/agent_skills.rs:361-386 | at a line feed the byte tests look exactly at whether the next line is a delimiter |
| `Frontmatter.ScanIsClosers` | crates/agent_skills/agent_skills.rs:350-388 | the scan equals a walk over the lines |
| `Frontmatter.CandidatesAreDelimiterLines` | crates/agent_skills/agent_skills.rs:350-388 | the candidates are exactly the ends of the non-first lines that are delimiters, increasing |
| `Frontmatter.DelimiterLinesClose` | crates/agent_skills/agent_skills.rs:350-388 | a line "---" after a line break closes, ended by LF, CRLF or the end of the text |
| `Frontmatter.TryCandidates` | crates/agent_skills/agent_skills.rs:394-412 | for any YAML library the earliest accepted candidate is taken, else the last reported error |
| `Frontmatter.LastErrorIs` | crates/agent_skills/agent_skills.rs:394-412 | the error kept is that of the last candidate that reported one |
| `Frontmatter.Extract` | crates/agent_skills/agent_skills.rs:343-413 | each outcome exactly; accepted prefix plus body is the left-trimmed content |
| `Frontmatter.TrimStartIs` | crates/agent_skills/agent_skills.rs:343-350 | the trimmed text is the longest suffix that does not start with one of the 25 white-space code points |
| `TerminalOutput.TruncatedOutput` | crates/acp_thread/src/terminal.rs:557-576 | the loop to a character boundary and the cut at the last line break |
| `TerminalOutput.BoundaryNearby` | crates/acp_thread/src/terminal.rs:566-569 | a boundary is at most three bytes below |
| `TerminalOutput.CutIsValid` | crates/acp_thread/src/terminal.rs:566-572 | cutting valid UTF-8 at a boundary leaves valid UTF-8 |
| `TerminalOutput.TruncationIsGood` | crates/acp_thread/src/terminal.rs:557-576 | valid prefix; shorter exactly when the limit is exceeded; then it is cut at the largest boundary within the limit, at most three bytes below it, and from there back to the last line break if there is one |
| `TerminalOutput.ScalarsAreAccepted` | crates/acp_thread/src/terminal.rs:566-569 | the model of UTF-8 accepts every encoded scalar value, whatever follows |
| `TerminalOutput.OnlyScalarsAreAccepted` | crates/acp_thread/src/terminal.rs:566-569 | and nothing else |
| `TerminalOutput.EncodedIsValid` | crates/acp_thread/src/terminal.rs:557-576 | every encoded text is valid |
| `TerminalOutput.ValidIsEncoded` | crates/acp_thread/src/terminal.rs:557-576 | and every valid byte string is an encoded text |
| `TerminalOutput.Terminal.CurrentOutput` | crates/acp_thread/src/terminal.rs:537-555 | text and flag, before and after exit: the flag is set exactly when the original exceeded the limit |
| `TerminalOutput.Terminal.Exit` | crates/acp_thread/src/terminal.rs:537-549 | the output is frozen as it is when the command ends |
| `LegacyThread.Upgrade` | crates/agent/src/legacy_thread.rs:88-112 | the migration loop |
| `LegacyThread.OutlineKept` | crates/agent/src/legacy_thread.rs:93-105 | messages keep their order and everything but their results; only absorbed carriers go |
| `LegacyThread.UnchangedIff` | crates/agent/src/legacy_thread.rs:93-105 | the upgrade changes nothing exactly when no user message after the first has tool results |
| `LegacyThread.LengthIs` | crates/agent/src/legacy_thread.rs:93-105 | exactly those messages go |
| `LegacyThread.ResultsConservedIff` | crates/agent/src/legacy_thread.rs:93-105 | all tool results are kept in order exactly when no carrier directly follows a message with results |
| `LegacyThread.ResultsCanBeLost` | crates/agent/src/legacy_thread.rs:93-105 | two carriers in a row lose results |
| `LegacyThread.CarrierLeftIff` | crates/agent/src/legacy_thread.rs:93-105 | a tool-bearing user message is left after the first position exactly when there was a stray carrier |
| `LegacyThread.IdempotentIff` | crates/agent/src/legacy_thread.rs:88-112 | upgrading again changes nothing exactly then |
| `TriageSync.FindLastAsk` | script/triage_project_sync.py:385-388 | the loop keeps the last substantive staff comment |
| `TriageSync.FindLastOutside` | script/triage_project_sync.py:463-467 | the loop keeps the last comment from outside |
| `TriageSync.LatestReporterActivity` | script/triage_project_sync.py:329-336 | the maximum over creation and the reporter's comments |
| `TriageSync.ReporterActivityIsMax` | script/triage_project_sync.py:329-336 | it bounds all of them and is one of them |
| `TriageSync.FindAnswer` | script/triage_project_sync.py:419-428 | the backward search finds an answer exactly when there is one |
| `TriageSync.DeriveStatus` | script/triage_project_sync.py:345-437 | the cascade with its loops computes the status function |
| `TriageSync.DeriveStaleSince` | script/triage_project_sync.py:440-474 | the anchor of any status, derived or not |
| `TriageSync.DecidingLabel` | script/triage_project_sync.py:349-437 | each of the twelve statuses, exactly, from labels, assignees and thread |
| `TriageSync.SubstantiveMeans` | script/triage_project_sync.py:300-326 | a substantive comment is by staff, by no bot, and has 50 characters or something to look at; an outside comment is by neither |
| `TriageSync.AnsweredIff` | script/triage_project_sync.py:418-429 | rule R5 finds an answer exactly when staff wrote something substantive after the creation and everything the reporter wrote |
| `TriageSync.AwaitingUserAnchor` | script/triage_project_sync.py:454-461 | anchored on the last substantive staff comment, never on the fallback |
| `TriageSync.UserRepliedAnchor` | script/triage_project_sync.py:397-411 | anchored on the last comment, which is from outside and strictly later than that staff comment |
| `TriageSync.RestingIffNoAnchor` | script/triage_project_sync.py:440-493 | no anchor exactly for resting and unknown statuses, and exactly these are never aged |
| `TriageSync.AgedIff` | script/triage_project_sync.py:477-493 | when an issue is aged, in terms of its thread: always, or strictly more than 7, 7, 14 or 3 days after what it waits for |
| `TriageSync.AgedNeverReverts` | script/triage_project_sync.py:477-493 | time alone never makes an aged issue fresh; 14 days after the anchor everything anchored is aged |
| `TriageSync.AnchorMovesBackIff` | script/triage_project_sync.py:381-416 | a new comment moves the anchor back exactly when it ends User-replied without asking anything |
| `TriageSync.ShortCommentRewinds` | script/triage_project_sync.py:381-416 | an ask, a reply and a short staff comment: the issue waits from the ask on again |
| `TriageSync.AskAndReply` | script/triage_project_sync.py:381-416 | asking leads to Awaiting-user and a later outside reply to User-replied, each anchored on that comment |
| `TriageSync.FindIteration` | script/triage_project_sync.py:566-577 | the first iteration that covers the instant |
| `TriageSync.WrittenWeek` | script/triage_project_sync.py:566-577 | the intake week written is the first iteration that contains the creation; without one the field stays |
| `TriageSync.Project.SyncIssue` | script/triage_project_sync.py:701-781 | the entry afterwards, all other entries untouched; nothing on a dry run, a pull request or an administrative type |
| `TriageSync.OnlyTriageItemsAreSynced` | script/triage_project_sync.py:701-781 | pull requests, Meta and Tracking issues are left alone, everything else gets an entry, no other entry changes |
| `TriageSync.WrittenDay` | script/triage_project_sync.py:766-773 | the date written is the day that contains the anchor |
| `TriageSync.MissingOptionsStay` | script/triage_project_sync.py:747-764 | a value without an option in the project leaves the field as it was |
| `TriageSync.SyncIsIdempotent` | script/triage_project_sync.py:701-706 | a second sync changes nothing |
| `TriageSync.LaterSyncOnlyAges` | script/triage_project_sync.py:701-781 | a later sync of an unchanged issue can only turn Aged from no to yes |
| `TriageSync.EditsDoNotMatter` | script/triage_project_sync.py:747-764 | with all options present Status and Aged do not depend on what the board held |
| `TriageSync.StaleSinceForgetsIff` | script/triage_project_sync.py:766-773 | Stale since forgets what the board held exactly when the status is neither resting nor unknown |
| `TriageSync.StaleDateCanStay` | script/triage_project_sync.py:766-773 | a closed issue keeps whatever date the board held |
| `TriageQueue.WindowDays` | script/github-triage-queue-board.py:87-100 | the reassigned locals give the weekday table of window edges |
| `TriageQueue.InWindowIff` | script/github-triage-queue-board.py:77-100 | the window of instants is the window of days |
| `TriageQueue.WindowSpec` | script/github-triage-queue-board.py:87-100 | no window is empty, all of it is past, and weekend windows equal Friday's |
| `TriageQueue.DueIff` | script/github-triage-queue-board.py:87-100 | each creation day is due from one weekday to the Sunday of exactly one week |
| `TriageQueue.DueMeans` | script/github-triage-queue-board.py:94-99 | due means not dropped by the Monday reset and a whole business day in between, weekend issues counting from Monday |
| `TriageQueue.WordingHoldsIff` | script/github-triage-queue-board.py:97-99 | the comment's wording, with the true creation day, fails exactly for weekend issues on the Tuesday after |
| `TriageQueue.SaturdayWaits` | script/github-triage-queue-board.py:97-99 | every Saturday issue is such a case |
| `TriageQueue.Board.AddMissing` | script/github-triage-queue-board.py:191-195 | the adding loop |
| `TriageQueue.Board.RemoveOthers` | script/github-triage-queue-board.py:197-201 | the removing loop |
| `TriageQueue.Board.SyncProject` | script/github-triage-queue-board.py:182-201 | kept entries in order, then the missing issues; nothing on a dry run |
| `TriageQueue.SyncIsExact` | script/github-triage-queue-board.py:182-201 | the issues on the board are exactly the eligible ones; drafts and pull requests stay |
| `TriageQueue.SyncIsIdempotent` | script/github-triage-queue-board.py:182-201 | a second sync changes nothing |
| `TriageQueue.OnBoardIff` | script/github-triage-queue-board.py:87-201 | on a synced board an issue is there exactly when it is open and today lies in its one block of days |

## Left out

- All HTTP, GraphQL and Slack calls, retries and pagination: fetched data are parameters, posting is a state change.
- The rest of the consent bundle: the GVL semantic pre-encoder, the core segment's fixed-width fields, translations and browser code.
- Guild membership that changes within a history, and sweeps of one item that overlap with other events: an item's sweep is one event.
- PurposeRestrictions.RoundTrip: no restriction loses vendor 0; `ReadExactlyIff` has both directions for each restriction and `LastDecides` for the last of a map, while what a map decodes to after an earlier one was read too far depends on how the following bits are misread.
- RestrictionEntries.ShareIff: for vendor sets without 0; what becomes of vendor 0 is `PurposeRestrictions.ReadExactlyIff`.
- Reactions of the Guild board to single webhook events and its weekly report.
- MagnetRoundTrip.RoundTrip: for distinct numbers, urls that end in the first "/issues/" and the number, and one-line area names; `int()` is modelled on ASCII digits without underscores.
- BotCommentRoundTrip.SuggestedIff: discussion urls are one line; `\d` is modelled on ASCII digits.
- MatchFilter.ResolveMatches: a reply without explanation, or with a key that cannot be hashed, raises in the source; replies here have both.
- MatchFilter.TrackerReadsSurvivors: keys of issues are made from their numbers, as the search functions make them.
- Ranking and enriching of candidates, matching of areas, author-reference filtering and `extract_duplicate_info`: they would add only easy members.
- ExcerptRanges.PendingDiff.RevealRange: a range starts no later than it ends; points are integers, of which only the order is used, and buffer edits between two calls are not modelled.
- Frontmatter.Extract: positions count characters, not bytes; every byte the scan looks for is ASCII.
- TerminalOutput.Terminal.CurrentOutput: the exit status that is passed through.
- LegacyThread.Upgrade: the debug assertion on the role of the previous message, and the version string.
- TriageSync.Project.SyncIssue: comments always have an author and a time; errors of single field updates are not modelled.
- TriageQueue.InWindowIff: wall-clock seconds; the two days a year with 23 or 25 hours are not modelled, nor the search limit of 1000 results.
- Log lines and the texts of check-in and Slack messages.
