# barm habit tracker: verified model of the core rules

barm is a habit-tracking web app. A user keeps daily **missions** (workout or study habits with a daily
target), writes one **record** per mission and day, sees a personal **streak**, joins a small **group**
with an invite code, and takes part in time-boxed **challenges** (one week, two weeks or a month) in teams
of five to nine people.

This project models the app's rules in Dafny and proves what they promise:

- **Personal streak.** Records become a date → achieved map. The best streak is the longest run of
  consecutive calendar days. The current streak walks back from today, or from yesterday.
- **Challenge rules.** The length of each challenge type, the result tier, and the split into teams.
  The demo copy of these rules is proved to agree with the app's.
- **Challenge calendar.** The days of a challenge, the days remaining and the days until the start.
  Also the reminder-time table and the date texts of the challenge screens.
- **Seeding script.** Starting from the next Monday, it writes 52 back-to-back one-week challenges.
- **Persistence layer.** Each table is a map from document id to document, and each batch of writes is
  one method of a store class.
  - Challenges: join and withdraw, which keep `participantCount`, and the record upsert, which keeps
    `achievedDays`.
  - Groups: invite codes, membership and the group streak.
  - Missions: at most ten active per user, listed by `sortOrder`.
  - Records: keyed upsert and filters.
  - Users: get-or-create and the partial update.
- **Auth store.** The client-side auth state.

Dates are valid Gregorian `(year, month, day)` triples with a day number counted from 1970-01-01.
Date texts have the `YYYY-MM-DD` shape of the `full-date` rule of RFC 3339, section 5.6. Instants are
integer milliseconds since 1970-01-01T00:00Z. The clock, `Math.random` and fresh document ids are
parameters.

Modules and files:

| module | file | models |
|---|---|---|
| `Wrappers` | `wrappers.dfy` | `Option`, `Result` |
| `Counting` | `counting.dfy` | set-size helpers |
| `Digits` | `digits.dfy` | decimal text, `padStart`, JS string order, whitespace trim |
| `Calendar` | `calendar.dfy` | the calendar, `formatDate`, `parseDate`, `addDays` |
| `Streak` | `streak.dfy` | web/src/lib/utils/streak.ts |
| `ChallengeRules` | `challenge_rules.dfy` | web/src/lib/types/challenge.ts |
| `DemoRules` | `demo_rules.dfy` | web/src/app/demo/time-boxed-challenge/_data/mock.ts |
| `ChallengeUtils` | `challenge_utils.dfy` | web/src/lib/firebase/challenge-utils.ts |
| `Challenges` | `challenges.dfy` | web/src/lib/firebase/challenges.ts |
| `Groups` | `groups.dfy` | web/src/lib/firebase/groups.ts |
| `Missions` | `missions.dfy` | web/src/lib/firebase/missions.ts |
| `Records` | `records.dfy` | web/src/lib/firebase/records.ts |
| `Users` | `users.dfy` | web/src/lib/firebase/firestore.ts and web/src/lib/types/user.ts |
| `AuthStore` | `auth_store.dfy` | web/src/lib/stores/auth-store.ts |
| `ChallengeConstants` | `challenge_constants.dfy` | web/src/components/features/challenge/constants.ts |
| `SeedChallenges` | `seed_challenges.dfy` | web/scripts/seed-challenges.ts |

## Model

| member | source | states |
|---|---|---|
| Calendar.NextDay | web/src/lib/utils/streak.ts:128-132 | the next day is a valid date strictly after the given one |
| Calendar.PrevDay | web/src/lib/utils/streak.ts:128-132 | the previous day is a valid date strictly before the given one |
| Calendar.NextPrevInverse | web/src/lib/utils/streak.ts:128-132 | stepping one day forward and one back, in either order, returns the same date |
| Calendar.DayNumberNext | web/src/lib/utils/streak.ts:128-132 | the next day's day number is one more, across month and year ends |
| Calendar.DayNumberOrder | web/src/lib/utils/streak.ts:54-56 | the order of dates is the order of their day numbers, and equal day numbers mean equal dates |
| Calendar.AddDays | web/src/lib/utils/streak.ts:128-132 | adding k days gives a valid date whose day number is k more |
| Calendar.AddDaysCompose | web/src/lib/utils/streak.ts:128-132 | adding a days and then b days equals adding a + b days |
| Calendar.DaysBackDayNumber | web/src/lib/firebase/groups.ts:391-392 | stepping back i days lowers the day number by i |
| Calendar.ParseDate | web/src/lib/utils/streak.ts:113-119 | a parsed date is a valid calendar day with a year from 1000 to 9999 |
| Calendar.ParseFormatDate | web/src/lib/utils/streak.ts:113-126 | a formatted date with a four-digit year parses back to the same date |
| Calendar.FormatParseDate | web/src/lib/utils/streak.ts:113-126 | a text that parses is the formatted text of its date |
| Calendar.FormatDateInjective | web/src/lib/utils/streak.ts:121-126 | different dates have different texts |
| Calendar.DateTextOrder | web/src/lib/utils/streak.ts:34 | for parseable date texts, string order is calendar order |
| Calendar.Weekday | web/src/components/features/challenge/constants.ts:111 | `getDay()` lies in 0..6 |
| Digits.NatToString | web/src/lib/firebase/groups.ts:431-432 | `String(n)` is a non-empty digit string, starts with '0' only for 0, and has one digit exactly below 10 |
| Digits.ParseNatToString | web/src/lib/firebase/groups.ts:431-432 | the decimal text of n reads back as n |
| Digits.NatToStringInjective | web/src/components/features/challenge/constants.ts:117-121 | different numbers have different decimal texts |
| Digits.Pad2ParseNat | web/src/lib/firebase/groups.ts:431-432 | `padStart(2, '0')` of n below 100 is two digits that read back as n |
| Digits.StrLessTransitive | web/src/lib/utils/streak.ts:38-41 | JS string order is transitive |
| Digits.StrLessTotal | web/src/lib/utils/streak.ts:38-41 | any two different strings are ordered one way or the other |
| Streak.BuildAchievedMap | web/src/lib/utils/streak.ts:29-36 | the loop builds the date → achieved map: records in order, each admitted one overwriting its date |
| Streak.AchievedMapKeys | web/src/lib/utils/streak.ts:32-35 | the map's keys are exactly the dates of records that are not blank and not after today |
| Streak.AchievedMapValues | web/src/lib/utils/streak.ts:35 | a date is achieved iff its record's value reaches the target |
| Streak.AchievedMapLastWins | web/src/lib/utils/streak.ts:35 | the last admitted record of a date decides that date |
| Streak.InsertSorted | web/src/lib/utils/streak.ts:38-41 | inserting keeps the keys strictly sorted and adds exactly the new key |
| Streak.SortAchievedKeys | web/src/lib/utils/streak.ts:38-41 | the sorted list holds exactly the achieved dates, in strictly ascending order |
| Streak.LongestRunIsLongest | web/src/lib/utils/streak.ts:43-69 | the longest run is a run of consecutive days, and no run is longer |
| Streak.LongestRunUnique | web/src/lib/utils/streak.ts:43-69 | the longest-run length is unique |
| Streak.NoDaysNoRun | web/src/lib/utils/streak.ts:43-69 | with no achieved day the longest run is 0 |
| Streak.ExtendLongest | web/src/lib/utils/streak.ts:54-66 | adding a later day whose run has t days makes the longest run max(best, t) |
| Streak.RunEndingStep | web/src/lib/utils/streak.ts:54-61 | a day right after the previous one extends its run by one; any other day starts a run of 1 |
| Streak.LongestRunOfSorted | web/src/lib/utils/streak.ts:43-69 | the walk over the sorted dates returns the longest run of achieved day numbers, skipping unparseable dates |
| Streak.WalkBackRun | web/src/lib/utils/streak.ts:100-108 | walking back counts achieved days and stops at the first day that is not achieved |
| Streak.WalkBack | web/src/lib/utils/streak.ts:100-108 | the `while (true)` loop returns the length of the achieved run walking back from its start |
| Streak.CalculateCurrentStreak | web/src/lib/utils/streak.ts:80-111 | the current streak starts today if today is achieved, else yesterday; it is 0 when neither is achieved |
| Streak.CalculateStreak | web/src/lib/utils/streak.ts:20-78 | the result is (current, max(longest, current)); best ≥ current; no records give (0, 0) |
| Streak.RejectedRecordsIgnored | web/src/lib/utils/streak.ts:32-34 | records with a blank or future date never change the result |
| Streak.StreakOrderIndependent | web/src/lib/utils/streak.ts:38-41 | any reordering of the records (agreeing on each date's outcome) gives the same result |
| Streak.CurrentWithinLongest | web/src/lib/utils/streak.ts:74-77 | the current run is itself a run of achieved days, so it never exceeds the longest run |
| Streak.OneAchievedDay | web/src/lib/utils/streak.ts:20-78 | a single achieved record for today gives a current and best streak of 1 |
| ChallengeRules.Duration | web/src/lib/types/challenge.ts:9-13 | a challenge lasts 7, 14 or 30 days |
| ChallengeRules.DurationInjective | web/src/lib/types/challenge.ts:9-13 | each type has its own length; two weeks are twice one week |
| ChallengeRules.ResultTiers | web/src/lib/types/challenge.ts:211-216 | for a positive total: completed iff 5a ≥ 4t, almost iff 2a ≥ t and 5a < 4t, failed iff 2a < t |
| ChallengeRules.ResultMonotone | web/src/lib/types/challenge.ts:213-216 | more achieved days never give a lower tier |
| ChallengeRules.ResultExamples | web/src/lib/types/challenge.ts:211-216 | zero total fails; 8/10 completes; 7/10 and 5/10 are almost; 4/10 fails |
| ChallengeRules.TeamSizesSum | web/src/lib/types/challenge.ts:233 | the comprehension's sizes add up to count · base + extra |
| ChallengeRules.CeilDiv | web/src/lib/types/challenge.ts:229 | `Math.ceil(a / d)` is the q with (q − 1)·d < a ≤ q·d |
| ChallengeRules.SmallGroupOneTeam | web/src/lib/types/challenge.ts:221-227 | up to 9 participants, below 5 included, form one team [n] |
| ChallengeRules.DistributeSum | web/src/lib/types/challenge.ts:220-234 | the team sizes always add up to n |
| ChallengeRules.DistributeBalanced | web/src/lib/types/challenge.ts:229-233 | above 9 there are ceil(n/9) teams; each has n/t or n/t + 1 members, larger teams first, all between 5 and 9 |
| ChallengeRules.DistributeExamples | web/src/lib/types/challenge.ts:220-234 | 5 → [5], 9 → [9], 10 → [5, 5], 14 → [7, 7], 18 → [9, 9], 19 → [7, 6, 6] |
| DemoRules.DemoDistributeAgrees | web/src/app/demo/time-boxed-challenge/_data/mock.ts:38-59 | the demo split equals the app's split for every n, with the unused `maxTeams` ignored |
| DemoRules.DemoDistributeExamples | web/src/app/demo/time-boxed-challenge/_data/mock.ts:61-67 | the listed examples hold, including 19 → [7, 6, 6] |
| DemoRules.PercentAgreesWithRatio | web/src/app/demo/time-boxed-challenge/_data/mock.ts:447-452 | for a positive total the percentage tier equals the ratio tier |
| DemoRules.PercentEdges | web/src/app/demo/time-boxed-challenge/_data/mock.ts:448-451 | a non-positive total reads as 0 % and fails; more achieved than total days completes |
| DemoRules.PercentDiffersOnNegativeTotal | web/src/app/demo/time-boxed-challenge/_data/mock.ts:448 | on a negative total the two copies differ (−1 of −1: completed vs failed) |
| ChallengeUtils.DayOfInstant | web/src/lib/firebase/challenge-utils.ts:9 | an instant falls on the valid date whose day number is the instant's whole days |
| ChallengeUtils.GetChallengeDays | web/src/lib/firebase/challenge-utils.ts:6-18 | the loop returns the day texts of the duration's days from the start day |
| ChallengeUtils.DayTextsAt | web/src/lib/firebase/challenge-utils.ts:11-15 | entry i is the text of start + i days |
| ChallengeUtils.DayTextsParse | web/src/lib/firebase/challenge-utils.ts:14 | every entry is a `YYYY-MM-DD` text of start + i days, the first being the start day |
| ChallengeUtils.AddDaysNext | web/src/lib/firebase/challenge-utils.ts:11-15 | neighbouring entries are one day apart |
| ChallengeUtils.RemainingDaysSpec | web/src/lib/firebase/challenge-utils.ts:20-26 | the remaining days are never negative, 0 exactly when the end has passed, else the fewest whole days covering the time left |
| ChallengeUtils.DaysUntilStartSpec | web/src/lib/firebase/challenge-utils.ts:28-34 | the same clamp and rounding for the start |
| ChallengeUtils.RemainingDaysExamples | web/src/lib/firebase/challenge-utils.ts:20-34 | 5 days ahead gives 5, a past end gives 0, just under 3 days to start gives 3 |
| Challenges.GoalError | web/src/lib/firebase/challenges.ts:147-155 | a goal passes iff name 1–100 chars, target in (0, 10000], unit 1–20 chars; the first broken limit is reported |
| Challenges.RecordInputError | web/src/lib/firebase/challenges.ts:290-299 | a record input passes iff its date has the date shape, its value is in [0, 100000] and its memo has at most 500 chars |
| Challenges.NotificationTimeOf | web/src/lib/firebase/challenges.ts:175 | an absent or empty time becomes '20:00'; a given one is kept |
| Challenges.StoredMemo | web/src/lib/firebase/challenges.ts:322 | an empty memo is stored as null; any other memo as given |
| Challenges.NewParticipation | web/src/lib/firebase/challenges.ts:163-178 | the new participation has no team, 0 achieved days, notifications on, the time or '20:00', and is paid iff it is the user's first |
| Challenges.ParticipantsAfterSet | web/src/lib/firebase/challenges.ts:180-191 | writing a participation changes a challenge's participant count by the entries moved in or out |
| Challenges.AchievedAfterSet | web/src/lib/firebase/challenges.ts:325-331 | writing a record changes the achieved count of a participation by the flag change |
| Challenges.ChunkIds | web/src/lib/firebase/challenges.ts:264-267 | the chunks are non-empty, at most 30 long, all but the last full, ceil(n/30) of them, and concatenate to the id list |
| Challenges.FlattenMembers | web/src/lib/firebase/challenges.ts:270-281 | an id lies in the concatenation iff it lies in some chunk |
| Challenges.ChallengeStore.GetChallenge | web/src/lib/firebase/challenges.ts:72-81 | the challenge with that id, or none when there is none |
| Challenges.ChallengeStore.GetMyParticipation | web/src/lib/firebase/challenges.ts:87-104 | the user's participation in the challenge, which is unique, or none |
| Challenges.ChallengeStore.JoinChallenge | web/src/lib/firebase/challenges.ts:133-194 | errors in the source's order (missing, not upcoming, goal, already joined); on success one participation is added and the count goes up by one, keeping count = participations |
| Challenges.ChallengeStore.UpdateGoal | web/src/lib/firebase/challenges.ts:196-204 | replaces only the goal of an existing participation; a missing one fails |
| Challenges.ChallengeStore.UpdateNotification | web/src/lib/firebase/challenges.ts:206-215 | replaces only the time and flag of an existing participation |
| Challenges.ChallengeStore.WithdrawFromChallenge | web/src/lib/firebase/challenges.ts:217-238 | allowed iff the challenge is upcoming; deletes the participation and lowers the count by one; the count stays right only if the participation was in that challenge |
| Challenges.ChallengeStore.WithdrawChecked | web/src/lib/firebase/challenges.ts:217-238 | as above, but also refuses a missing or foreign participation, so the count always stays right |
| Challenges.ChallengeStore.UpsertRecord | web/src/lib/firebase/challenges.ts:286-368 | input checks first; the existing record of (participation, date) is updated, else one is created, which as written fails for an input without a memo; Ok exactly when those conditions hold; one record per (participation, date) and achievedDays = achieved records are kept |
| Challenges.ChallengeStore.UpsertRecordChecked | web/src/lib/firebase/challenges.ts:286-368 | the same with the corrected create path: a save without a memo succeeds on both paths, and either path stores a missing or empty memo as null |
| Challenges.ChallengeStore.UpdateRecord | web/src/lib/firebase/challenges.ts:310-338 | the record takes the new value, flag and memo; achievedDays moves ±1 only when the flag flips |
| Challenges.ChallengeStore.CreateRecord | web/src/lib/firebase/challenges.ts:339-367 | as written: an input without a memo is refused with nothing written, since the document's `memo` would be `undefined`; otherwise a new record under a fresh id, and achievedDays grows by one iff it is achieved |
| Challenges.ChallengeStore.CreateRecordChecked | web/src/lib/firebase/challenges.ts:339-367 | corrected: a missing or empty memo is stored as null; Ok exactly when the participation exists or the record is not achieved |
| Challenges.ChallengeStore.AddRecord | web/src/lib/firebase/challenges.ts:351-364 | the create batch: stores the record and adds one to achievedDays for an achieved record; a missing participation fails the batch with nothing written |
| Challenges.ChallengeStore.GetRecordsForDate | web/src/lib/firebase/challenges.ts:257-284 | no ids give nothing; otherwise exactly the records of that date whose participation is listed |
| Challenges.DoubleWithdrawDrift | web/src/lib/firebase/challenges.ts:217-238 | withdrawing the same participation twice leaves the count at −1 with nobody in the challenge |
| Challenges.DoubleWithdrawChecked | web/src/lib/firebase/challenges.ts:217-238 | the checked withdrawal refuses the second call and the count stays 0 |
| Challenges.MemoLessFirstRecord | web/src/lib/firebase/challenges.ts:342-353 | the first record of a day without a memo is refused as written and nothing is stored |
| Challenges.MemoLessFirstRecordChecked | web/src/lib/firebase/challenges.ts:342-353 | through the corrected create path the same record is stored, with no memo, and counted as achieved |
| Groups.CodeOfValid | web/src/lib/firebase/groups.ts:43-60 | every generated code passes `isValidInviteCode` |
| Groups.CodeOfUnambiguous | web/src/lib/firebase/groups.ts:37-38 | a generated code never holds 0, O, 1, I or L |
| Groups.GenerateInviteCode | web/src/lib/firebase/groups.ts:43-50 | the loop picks the six characters the random draws index |
| Groups.InviteCodeExamples | web/src/lib/firebase/groups.ts:55-60 | six upper-case letters or digits pass; lower case, five or seven chars, and other symbols fail |
| Groups.GroupOf | web/src/lib/firebase/groups.ts:65-71 | a missing user, null and '' all mean no group |
| Groups.DisplayNameFor | web/src/lib/firebase/groups.ts:91-93 | the member's name is never empty: the display name or 'Unknown' |
| Groups.CreateKeepsValid | web/src/lib/firebase/groups.ts:104-127 | a new group with its owner as sole member keeps the membership invariants |
| Groups.JoinKeepsValid | web/src/lib/firebase/groups.ts:162-176 | adding a member to a group below 5 keeps the invariants |
| Groups.LeaveKeepsValid | web/src/lib/firebase/groups.ts:205-218 | a non-owner leaving keeps the invariants |
| Groups.LeaveLastKeepsValid | web/src/lib/firebase/groups.ts:213-218 | the owner leaving as last member, and so deleting the group, keeps the invariants |
| Groups.GroupStore.GetGroup | web/src/lib/firebase/groups.ts:252-261 | the group with that id, or none |
| Groups.GroupStore.GetGroupByInviteCode | web/src/lib/firebase/groups.ts:266-279 | the group holding that code, unique when codes are unique, or none |
| Groups.GroupStore.NewInviteCode | web/src/lib/firebase/groups.ts:92-102 | the retry loop ends with a valid code no group uses |
| Groups.GroupStore.CreateGroup | web/src/lib/firebase/groups.ts:76-130 | blank name, too long (untrimmed) and already grouped are refused; the group stores the trimmed name, owner, one member and a fresh code |
| Groups.GroupStore.JoinGroup | web/src/lib/firebase/groups.ts:135-182 | checks format, not grouped, code exists and fewer than 5 members, in that order; success adds the member and raises the count |
| Groups.GroupStore.LeaveGroup | web/src/lib/firebase/groups.ts:187-219 | only a member may leave, the owner not while others remain; the group goes when the owner was alone |
| Groups.GroupStore.DeleteGroup | web/src/lib/firebase/groups.ts:224-247 | only the owner, with at most one member; removes the group, the membership and the groupId |
| Groups.DateKeyOf | web/src/lib/firebase/groups.ts:391-393 | the date key of day k back is the text of any date whose day number is k less than today's |
| Groups.GroupStreakOf | web/src/lib/firebase/groups.ts:376-390 | the streak lies in 0..365 and is 0 without active missions |
| Groups.RunFromStops | web/src/lib/firebase/groups.ts:418-423 | the run counts completed days up to the first failed one |
| Groups.GroupStreakCounts | web/src/lib/firebase/groups.ts:390-426 | a failed today does not end the count; the first failed earlier day does |
| Groups.AllCompletedCheck | web/src/lib/firebase/groups.ts:404-416 | a day counts iff every active mission's value (0 without a record) reaches its target |
| Groups.CheckDateString | web/src/lib/firebase/groups.ts:391-393 | the key checked for `daysBack` is the date that many days before today |
| Groups.CalculateGroupStreak | web/src/lib/firebase/groups.ts:367-427 | the loop returns the streak function's value |
| Missions.ActiveIds | web/src/lib/firebase/missions.ts:27-33 | exactly the user's active missions |
| Missions.Applied | web/src/lib/firebase/missions.ts:79-88 | only the supplied fields change, plus updatedAt |
| Missions.UpdateKeepsListing | web/src/lib/firebase/missions.ts:79-88 | an update that leaves isActive alone leaves the listing as it was |
| Missions.CreateListing | web/src/lib/firebase/missions.ts:62-75 | a new active mission adds exactly its id to its owner's listing |
| Missions.DeleteListing | web/src/lib/firebase/missions.ts:90-93 | a deletion removes exactly that id from the listing |
| Missions.OrderBySortOrder | web/src/lib/firebase/missions.ts:32 | the listing holds each selected mission once, in ascending sortOrder |
| Missions.MissionStore.GetMissions | web/src/lib/firebase/missions.ts:27-39 | exactly the user's active missions, in ascending sortOrder |
| Missions.MissionStore.GetMission | web/src/lib/firebase/missions.ts:41-50 | the mission with that id, or none |
| Missions.MissionStore.CreateMission | web/src/lib/firebase/missions.ts:52-77 | refused at 10 active missions; else an active mission with sortOrder = active count and createdAt = updatedAt |
| Missions.MissionStore.UpdateMission | web/src/lib/firebase/missions.ts:79-88 | applies the supplied fields to an existing mission; a missing one fails unchanged |
| Missions.MissionStore.DeleteMission | web/src/lib/firebase/missions.ts:90-93 | removes that mission and nothing else |
| Missions.DeleteThenCreateRepeatsOrder | web/src/lib/firebase/missions.ts:70 | after a deletion a new mission can take a sortOrder already in use |
| Records.RecordFromFirestore | web/src/lib/types/record.ts:22-32 | the record carries the document's fields and its id |
| Records.RecordId | web/src/lib/firebase/records.ts:57-59 | the id is user, mission and date joined by two underscores |
| Records.RecordIdInjective | web/src/lib/firebase/records.ts:57-59 | with no underscore in user and mission ids, different triples get different ids |
| Records.RecordIdsCollide | web/src/lib/firebase/records.ts:57-59 | without that condition two triples can share an id |
| Records.RecordsForDate | web/src/lib/firebase/records.ts:21-35 | exactly the user's records of that date |
| Records.RecordsForMission | web/src/lib/firebase/records.ts:37-55 | exactly the user's records of the mission with startDate ≤ date ≤ endDate as strings |
| Records.InWindowByDay | web/src/lib/firebase/records.ts:47-48 | for date texts the string window is the calendar window, both ends included |
| Records.GetTodayDateString | web/src/lib/firebase/records.ts:90-96 | the year, then the zero-padded month and day, joined by dashes |
| Records.TodayDateStringReadsBack | web/src/lib/firebase/records.ts:90-96 | for a four-digit year the text has the date shape and reads back as today |
| Records.RecordStore.UpsertRecord | web/src/lib/firebase/records.ts:61-88 | the whole document under the composite id is replaced, createdAt included; the returned record carries the input |
| Records.UpsertTwice | web/src/lib/firebase/records.ts:65-85 | two upserts of one (user, mission, date) leave one record with the last value |
| Records.UpsertListed | web/src/lib/firebase/records.ts:61-88 | after an upsert the date's listing shows the written value |
| Users.UserFromFirestore | web/src/lib/types/user.ts:20-29 | the user carries the document's fields and its id |
| Users.UserToFirestore | web/src/lib/types/user.ts:31-45 | a field is copied iff it is not undefined, null included; id and the instants never appear |
| Users.Merge | web/src/lib/firebase/firestore.ts:40-51 | an update merge changes exactly the present fields |
| Users.ConversionRoundTrip | web/src/lib/types/user.ts:20-45 | converting a stored user back keeps its three fields, and merging them changes nothing |
| Users.UserStore.GetUser | web/src/lib/firebase/firestore.ts:13-22 | null when there is no document, else the stored user |
| Users.UserStore.CreateUser | web/src/lib/firebase/firestore.ts:24-38 | stores null fields with createdAt = updatedAt = now |
| Users.UserStore.UpdateUser | web/src/lib/firebase/firestore.ts:40-51 | writes only the kept fields plus updatedAt; createdAt untouched; a missing user fails |
| Users.UserStore.GetOrCreateUser | web/src/lib/firebase/firestore.ts:53-59 | an existing user is returned unchanged, else one is created |
| Users.GetOrCreateTwice | web/src/lib/firebase/firestore.ts:53-59 | a second call returns the same user and creates nothing more |
| AuthStore.DisplayNameOf | web/src/lib/stores/auth-store.ts:27 | `user?.displayName` is undefined without a user, else null or the text |
| AuthStore.HasDisplayNameFlag | web/src/lib/stores/auth-store.ts:27 | for a user: a non-empty display name; without a user: true |
| AuthStore.AuthState.constructor | web/src/lib/stores/auth-store.ts:16-21 | no users, loading, not authenticated, no display name |
| AuthStore.AuthState.SetUser | web/src/lib/stores/auth-store.ts:23-28 | sets the user and derives both flags; nothing else changes |
| AuthStore.AuthState.SetFirebaseUser | web/src/lib/stores/auth-store.ts:30-33 | changes only the provider's user |
| AuthStore.AuthState.SetLoading | web/src/lib/stores/auth-store.ts:35 | changes only the loading flag |
| AuthStore.AuthState.Reset | web/src/lib/stores/auth-store.ts:37-44 | clears both users and all three flags |
| AuthStore.SignOutPaths | web/src/lib/stores/auth-store.ts:23-44 | `setUser(null)` leaves hasDisplayName true; `reset` leaves it false |
| ChallengeConstants.TimeOptionShape | web/src/components/features/challenge/constants.ts:98-104 | 18 entries; entry i's value is the two-digit hour i + 6 with ':00'; the label drops the leading zero |
| ChallengeConstants.TimeOptionsAscending | web/src/components/features/challenge/constants.ts:98-104 | the values ascend as strings |
| ChallengeConstants.TimeOptionExamples | web/src/components/features/challenge/constants.ts:98-104 | first ('06:00', '6:00'), last ('23:00', '23:00'), and '20:00' is on offer |
| ChallengeConstants.ShortDateReadsBack | web/src/components/features/challenge/constants.ts:117-121 | two short texts are equal iff month and day are |
| ChallengeConstants.DayWithWeekdayReadsBack | web/src/components/features/challenge/constants.ts:108-113 | two `M/D (曜)` texts are equal iff month, day and weekday are |
| ChallengeConstants.DateRangeReadsBack | web/src/components/features/challenge/constants.ts:107-115 | two range texts are equal iff both ends' texts are |
| ChallengeConstants.WeekdayNamesDistinct | web/src/components/features/challenge/constants.ts:111 | the seven weekday names are one character each and distinct |
| ChallengeConstants.DateRangeExample | web/src/components/features/challenge/constants.ts:107-115 | Monday 2026-01-05 to Sunday 2026-01-11 reads "1/5 (月) 〜 1/11 (日)" |
| SeedChallenges.GetDay | web/scripts/seed-challenges.ts:45 | `getDay()` lies in 0..6 |
| SeedChallenges.GetDayIsWeekday | web/scripts/seed-challenges.ts:45 | an instant's weekday is that of its calendar day |
| SeedChallenges.AddDays | web/scripts/seed-challenges.ts:52-56 | the result is `days` days later at the same time of day |
| SeedChallenges.NextMondayIsFirstMondayAfter | web/scripts/seed-challenges.ts:43-50 | the result is the midnight start of the first Monday 1–7 days on; from a Monday, 7 days on |
| SeedChallenges.StatusByWindow | web/scripts/seed-challenges.ts:58-63 | upcoming iff before the start, completed iff after the end, active on the closed window; the status never moves back as time passes |
| SeedChallenges.GenerateWeeklyChallenges | web/scripts/seed-challenges.ts:84-103 | exactly 52 challenges, week w starting 7·w days after the next Monday |
| SeedChallenges.WeekIsMondayToSunday | web/scripts/seed-challenges.ts:90-99 | each challenge is one week with no participants, Monday midnight to Sunday midnight, 7 days counted |
| SeedChallenges.WeeksBackToBack | web/scripts/seed-challenges.ts:102 | each week starts the day after the previous one ends |
| SeedChallenges.AllSeededUpcoming | web/scripts/seed-challenges.ts:87-96 | every seeded challenge is upcoming at the time of the run |

## Left out

- Time zones and daylight saving. JavaScript dates are read in local time; here local time is UTC. So
  `getDay`, `setDate`, `setHours` and `toISOString` all work on UTC days. The `Math.round` over a local
  millisecond difference in the streak walk becomes an exact day difference.
- `Calendar.ParseDate`: accepts only years 1000 to 9999 and real calendar days; every other text is
  rejected. The source's `new Date(y, m - 1, d)` is more lenient in three ways:
  - it rolls an out-of-range day over (2026-02-30 becomes March 2);
  - it parses years 0100 to 0999 as written ("0999-06-15" is 15 June 999);
  - it maps years 0000 to 0099 onto 1900 to 1999.
  The model therefore ignores records dated before year 1000. The source counts them in the best streak
  only. Its walk back for the current streak compares `formatDate` texts with the stored keys.
  `formatDate` writes such a year unpadded ("999-06-15"), or as 19xx for 0000 to 0099, so it never
  matches a stored key.
- String lengths and string order use Unicode code points, not UTF-16 code units. This matters only
  outside the Basic Multilingual Plane.
- Record values and targets are exact reals. NaN, infinities and rounding are not modelled. The demo
  percentage `(a / t) * 100` is exact.
- `Streak.StreakOrderIndependent`: requires that admitted records of the same date agree on meeting
  the target. With disagreeing duplicates, the last one wins, so order then matters, as
  `Streak.AchievedMapLastWins` states.
- `Streak.CurrentWithinLongest`: holds only where the walk-back stays at or after year 1000. Earlier
  dates have no four-digit text.
- Firestore mechanics are not modelled: queries, `orderBy`, `increment`, `serverTimestamp`, `async`,
  network failure and concurrent writers. Each batch is one atomic method. The read-then-write checks
  run in sequence: the group-full check, invite-code uniqueness and the first-challenge check.
- Automatic document ids are fresh-id parameters. Server and client clocks are `now` parameters.
  `Math.random` is a sequence of draws in [0, 1).
- `Missions.MissionStore.GetMissions`: the order of missions with equal `sortOrder` is not fixed, as
  Firestore's tie order is not part of the source.
- `Missions.Applied`: a property present with the value `undefined` is treated as absent.
- `updateMission` and `updateGoal`/`updateNotification` fail on a missing document, as `updateDoc` does.
  They are modelled as an error result.
- `SeedChallenges.GenerateWeeklyChallenges`: every challenge carries one `createdAt`. The script reads
  the clock once per push, so its instants can differ by milliseconds.
- The seeding script's Admin initialisation, existing-challenge prompt, batch commit and `process.exit`
  are not modelled.
- `Challenges.ChallengeStore.GetRecordsForDate`: returns a map keyed by participation id, not the
  source's array built chunk after chunk. The array's order is not kept. Neither is the duplicate record
  that an id listed in two chunks yields there.
- The reads of the group screens are not modelled: `getGroupMembers` and `getMemberRecords`. They only
  gather documents for display.
- The challenge queries that only list documents are not modelled: `getChallenges`,
  `getMyParticipations`, `getTeamParticipations`, `getRecords`, `getTeam` and `getTeamsForChallenge`.
  The team assignment at a challenge's start is not part of the source.
- The copies of `getChallengeDays`, `getRemainingDays` and `getDaysUntilStart` at the end of
  web/src/lib/firebase/challenges.ts are modelled once, in `ChallengeUtils`. They are the same code.
- The demo mock's `getRemainingDays` and its locale date formatting are not modelled. Neither are its
  data tables.
- `ChallengeConstants.TimeOption` names the `label` field `caption`, because `label` is a reserved word.
- The `*FromFirestore` converters of challenges, teams and participations are not modelled. They copy
  fields one for one.
- React pages, hooks, the native bridge, authentication and configuration are outside the model.

## Findings

| source | as written | input that shows it | evidently intended | confidence | as-written member | corrected member |
|---|---|---|---|---|---|---|
| web/src/lib/firebase/challenges.ts:339-367 | The create path of `upsertRecord` writes `memo: input.memo`. `memo` is optional, and the record form passes `undefined` for an empty memo (web/src/components/features/challenge/RecordInput.tsx:40). The database handle uses default settings (web/src/lib/firebase/config.ts:27), so `batch.set` refuses a field whose value is `undefined`. The update path writes null for a missing memo instead. | A participation's first record of a day, saved without a memo: the create path fails and nothing is stored. | Store a missing memo as null, as the update path does, so a record without a memo is created like any other. | not executed | Challenges.ChallengeStore.CreateRecord, Challenges.MemoLessFirstRecord | Challenges.ChallengeStore.CreateRecordChecked, Challenges.MemoLessFirstRecordChecked |
| web/src/lib/firebase/challenges.ts:217-238 | `withdrawFromChallenge` checks only that the challenge is upcoming, then deletes the participation and decrements `participantCount`. It never checks that the participation exists or belongs to that challenge. | One user joined challenge "c" (count 1). Withdrawing participation "p" from "c" twice leaves the count at −1 with no participation left. | Withdraw only an existing participation of that challenge. Then `participantCount` always equals the number of participations. | not executed | Challenges.ChallengeStore.WithdrawFromChallenge, Challenges.DoubleWithdrawDrift | Challenges.ChallengeStore.WithdrawChecked, Challenges.DoubleWithdrawChecked |
