# FHE voting front end — a Dafny model

This project models the React front end of the FHEAppPlus confidential-voting
dApp. The front end reads votes from an on-chain contract through wagmi hooks
and lets a connected wallet create a vote, cast an (encrypted) choice, reveal
the tally and browse results. The model covers the rules that decide what the
pages show and what they send:

- the reading of `getVoteInfo` records (the ABI layout of `config/contract.ts`)
  and the guard every consumer applies before using a read;
- the clock-dependent status of a vote at every site that computes one:
  `getVoteStatus`, `getTimeStatus`, `calculateTimeLeft`, `formatTimeLeft`,
  `calculateTimeRemaining`, the detail page's countdown, the countdown widget,
  the statistics hook, the list filter and the results index;
- form validation (`validateVoteForm` and the create page's `validateForm`),
  the option editor, the submit handler and the arguments it sends;
- the write hooks for `createVote`, `castVote` and `revealVoteResults`, their
  status merging, and the fixed create hook's one-shot auto-write effect;
- the list and statistics pages: per-id filtering and search, the category
  counters, newest-first ordering, the mock list page;
- the results page: route parsing, the result rows, percentages, the winning
  option and the descending sort (an in-place insertion sort on an array).

Each component or hook is a module. Pure computations are functions whose
contracts state what the result means. React state that handlers update step
by step is a class: `CreateVotePage.CreateVoteForm`,
`CreateVoteHook.CreateVoteFixed`, `CountdownTimer.Timer` and
`VoteDetailPage.CountdownState`. Their methods carry `modifies` clauses and
state the whole new state. The clock (`Date.now()`) is a parameter `nowMs` in
milliseconds. Every wagmi read is a `Read` value (loading flag, error, data).
The module `DeadlineAgreement` proves how the many deadline tests relate: all
the clock comparisons agree at every instant except `getVoteStatus`, whose
strict comparison keeps a vote active for the deadline's own millisecond. The
sites that also read the contract's `isActive` flag (the statistics hook, the
list tabs and the detail record) differ from the clock-only card once the
contract closes a vote before its deadline, as
`DeadlineAgreement.FlagNarrowsCardStatus` states.

## Model

| member | source | states |
|---|---|---|
| ContractAbi.EncodeCreateVoteArgs | frontend/src/config/contract.ts:36-45 | createVote arguments match the input layout, with title, description, options and deadline at positions 0-3 |
| VoteData.EncodeVoteInfo | frontend/src/config/contract.ts:74-87 | a vote record encodes to values matching the eight getVoteInfo outputs |
| VoteData.DecodeEncode | frontend/src/pages/VoteDetailPage.tsx:32-34 | positional destructuring reads back every field of an encoded record |
| VoteData.EncodeDecode | frontend/src/pages/ResultsPage.tsx:31-33 | every value list with the getVoteInfo layout is the encoding of the record read from it |
| VoteData.VotesGetterIsNotGetVoteInfo | frontend/src/config/contract.ts:19-31 | output of the public votes getter never has the getVoteInfo layout (third field is an address, not string[]) |
| VoteData.VoteInfoEnabled | frontend/src/hooks/useVoteData.ts:36 | the record read is enabled iff the id is non-negative |
| VoteData.ShortCreator | frontend/src/pages/ResultsPage.tsx:42 | for 10+ characters: 13 characters, first six and last four of the address; for at most 4: the address twice around "..." |
| VoteData.ShortCreatorVersusFormatAddress | frontend/src/utils/format.ts:64-68 | inline shortening equals formatAddress(addr, 6, 4) exactly for addresses longer than 10 characters, and differs otherwise |
| VoteData.IsLive | frontend/src/pages/VoteDetailPage.tsx:46 | live iff the contract flag is set and the deadline second is after the current whole second; not live iff either fails |
| VoteData.IsCreatedByUser | frontend/src/components/VoteList.tsx:35 | never without an address; otherwise iff creator and address are equal ignoring case |
| VoteData.CreatedByUserIgnoresCase | frontend/src/components/VoteCard.tsx:57 | lower-casing either side does not change the ownership test |
| VoteData.CalculateTimeRemaining | frontend/src/hooks/useVoteData.ts:76-95 | ended iff no whole second is left; days+hours from 25 h, hours+minutes from 1 h, minutes below, each with the correct unit split |
| VoteData.OneDayReadsAsHours | frontend/src/hooks/useVoteData.ts:87-91 | exactly 24 h left reads as 24 hours 0 minutes, not as 1 day |
| VoteData.LastMinuteReadsZero | frontend/src/hooks/useVoteData.ts:92-93 | under a minute left reads "0分钟" while the card stays active |
| Format.TimeStatusText | frontend/src/utils/format.ts:28-58 | the badge reads 即将结束 exactly for the urgent and soon states |
| Format.GetTimeStatus | frontend/src/utils/format.ts:23-59 | expired at no milliseconds left, urgent below 1 h, soon below 24 h, running beyond |
| Format.CalculateTimeLeft | frontend/src/utils/format.ts:88-109 | all zero once the deadline is reached; otherwise total is the milliseconds left and days/hours/minutes/seconds are its whole-unit split, within a second of it |
| Format.FormatTimeLeft | frontend/src/utils/format.ts:114-132 | 已结束 at or past the deadline, 即将结束 under a minute, then minutes, hours+minutes and days+hours with correct units |
| Format.TimeStatusMatchesTimeLeft | frontend/src/utils/format.ts:23-109 | the badge and the time-left units agree at every clock reading |
| Format.FormatAddress | frontend/src/utils/format.ts:64-68 | short addresses unchanged; longer ones are the prefix, "..." and the suffix (the whole address again when endLength is 0) |
| VoteUtils.GetVoteStatus | frontend/src/utils/vote.ts:22-26 | revealed, else expired flag or a deadline strictly before now, else active |
| VoteUtils.ActiveAtDeadlineMillisecond | frontend/src/utils/vote.ts:24 | an unrevealed vote is active at its deadline's own millisecond and expired one millisecond later |
| VoteUtils.CanUserVote | frontend/src/utils/vote.ts:31-37 | voting allowed iff connected, not yet voted and the status is active |
| VoteUtils.CanVoteOnlyBeforeDeadline | frontend/src/utils/vote.ts:22-37 | voting allowed iff connected, not voted, unrevealed, not flagged expired and now is not past the deadline millisecond |
| VoteUtils.GetStatusText | frontend/src/utils/vote.ts:42-53 | every status has a text of its own; the fallback 未知状态 never appears |
| VoteUtils.StatusTextsDistinct | frontend/src/utils/vote.ts:42-53 | two statuses share a text iff they are equal |
| VoteUtils.OptionChecks | frontend/src/utils/vote.ts:111-119 | the Set-size test fires iff two normalised options repeat; the long-option filter is non-empty iff some option exceeds 50 characters |
| VoteUtils.ValidateVoteForm | frontend/src/utils/vote.ts:88-152 | the successive assignments end with the record in which each field holds the message of its last failing rule |
| VoteUtils.NotLaterMessageNeverShown | frontend/src/utils/vote.ts:130-148 | the "later than now" message is always overwritten; a past deadline reports the five-minute message |
| VoteUtils.NormalizedDuplicates | frontend/src/utils/vote.ts:111-113 | the Set size test finds a repeat iff two options normalise alike |
| VoteUtils.OptionsAcceptedIff | frontend/src/utils/vote.ts:103-121 | options pass iff 2-10 non-blank ones, each at most 50 characters, pairwise distinct after normalising |
| VoteUtils.GetOptionColor | frontend/src/utils/vote.ts:157-172 | the colour is always one of the ten palette entries |
| VoteUtils.OptionColorsCycle | frontend/src/utils/vote.ts:157-172 | option i < 10 gets the i-th palette colour, colours repeat every ten options and differ within any ten consecutive ones |
| VoteUtils.VotesData | frontend/src/utils/vote.ts:199-204 | one entry per option, with its text, index, count (0 when missing) and exact percentage of the total (0 with no votes) |
| VoteUtils.CalculateVoteStats | frontend/src/utils/vote.ts:193-216 | total is the sum of counts; the results are a stable descending permutation of the entries; a winner exists iff some vote was cast and options exist |
| VoteUtils.WinnerIsFirstMostVoted | frontend/src/utils/vote.ts:207-209 | the winner is the first option, in option order, with the most votes |
| VoteUtils.NoVotesNoWinner | frontend/src/utils/vote.ts:209 | with all counts zero there is no winner, and every option is still listed |
| VoteUtils.IsValidAddress | frontend/src/utils/vote.ts:221-223 | valid iff 42 characters, "0x" then forty hex digits of either case |
| VoteUtils.LowerCasePreservesValidity | frontend/src/utils/vote.ts:221-223 | lower-casing a valid address keeps it valid |
| VoteUtils.ValidAddressFormatsToThirteen | frontend/src/utils/format.ts:64-68 | formatAddress shortens a valid address to 13 characters |
| VoteStats.VoteStatOf | frontend/src/hooks/useVoteStats.ts:6-42 | no flag until the record is loaded; then active iff live, ended iff not, ownership by address, hasVoted never set |
| VoteStats.Stats | frontend/src/hooks/useVoteStats.ts:46-49 | one stat per id 0..total-1, each that id's stat |
| VoteStats.UseVoteStats | frontend/src/hooks/useVoteStats.ts:45-67 | total passes through; active, ended and myCreated count the loaded records that are live, not live and the address's own; myVoted is 0; loading iff some read is loading |
| VoteStats.CountersCountRecords | frontend/src/hooks/useVoteStats.ts:52-55 | each counter over the per-id flags equals the number of ids whose loaded record has that property |
| VoteStats.ActivePlusEndedIsLoaded | frontend/src/hooks/useVoteStats.ts:51-56 | active plus ended equals the number of loaded reads |
| VoteStats.UnsettledCountsNowhere | frontend/src/hooks/useVoteStats.ts:11-20 | a loading or failed read moves no counter, only the loading flag |
| VoteList.MatchesSearch | frontend/src/components/VoteList.tsx:38-40 | matches iff the term is empty or occurs in the lower-cased title or description |
| VoteList.ItemShown | frontend/src/components/VoteList.tsx:13-68 | an unloaded record always renders; a loaded one iff it matches the search and passes the tab's filter |
| VoteList.ShownIds | frontend/src/components/VoteList.tsx:70-88 | the rendered ids are ascending, in range, and exactly those whose item is shown |
| VoteList.ActiveEndedComplementary | frontend/src/components/VoteList.tsx:33-50 | a loaded, matching record shows under exactly one of the active and ended tabs |
| VoteList.MyVotesShowsAll | frontend/src/components/VoteList.tsx:54-59 | the my-votes tab shows the same as the all tab |
| VoteList.MyCreatedIsOwnership | frontend/src/components/VoteList.tsx:35-53 | with no search, my-created shows a loaded record iff its creator is the connected address, case aside |
| VoteList.ActiveTabMatchesCounter | frontend/src/components/VoteList.tsx:33-47 | the statistics' active counter equals the number of loaded records the active tab shows |
| VoteListPage.KeepVote | frontend/src/pages/VoteListPage.tsx:87-100 | kept iff in the tab and matching the search; with no search, iff in the tab |
| VoteListPage.FilteredVotes | frontend/src/pages/VoteListPage.tsx:87-100 | a subsequence of the mock list holding exactly the kept votes |
| VoteListPage.ButtonCount | frontend/src/pages/VoteListPage.tsx:159-163 | a tab's count never exceeds the list length |
| VoteListPage.ButtonCountIsUnsearchedLength | frontend/src/pages/VoteListPage.tsx:159-163 | each tab's count is the number of votes it shows with an empty search |
| VoteListPage.SearchNeverExceedsButtonCount | frontend/src/pages/VoteListPage.tsx:87-163 | a search never shows more votes than the tab's count |
| VoteListPage.MockButtonCounts | frontend/src/pages/VoteListPage.tsx:22-79 | the four mock votes give counts 4, 3, 1, 1, 1 |
| VoteCard.VoteCardView | frontend/src/components/VoteCard.tsx:10-158 | skeleton iff loading, failure card iff no data, else the card whose status and time come from calculateTimeRemaining, with ownership, a three-option preview and the participate link iff active |
| VoteCard.CardIgnoresContractFlag | frontend/src/components/VoteCard.tsx:54-56 | two records differing only in the contract's isActive flag render the same card |
| VoteCard.ParticipateWhileDeadlineAhead | frontend/src/components/VoteCard.tsx:139-147 | the participate link shows iff the deadline second is after the current one |
| VoteCard.PreviewAccountsForAllOptions | frontend/src/components/VoteCard.tsx:104-114 | the preview plus the "+N" badge count every option once |
| CountdownTimer.StatusColor | frontend/src/components/CountdownTimer.tsx:46-60 | red below 1 h (including ended), orange below 24 h, green beyond |
| CountdownTimer.ShouldAnimate | frontend/src/components/CountdownTimer.tsx:62-65 | pulse iff some time is left and under an hour |
| CountdownTimer.ColorFollowsTimeStatus | frontend/src/components/CountdownTimer.tsx:46-65 | colour and pulse follow getTimeStatus at the same reading: red for expired/urgent, orange soon, green running, pulse iff urgent |
| CountdownTimer.Render | frontend/src/components/CountdownTimer.tsx:67-83 | ended view (red) iff the stored total is zero; else formatTimeLeft's label with the stored total's colour and pulse |
| CountdownTimer.RunningViewCounts | frontend/src/components/CountdownTimer.tsx:76-82 | at one clock reading a running view never reads 已结束 |
| CountdownTimer.ExpiredStaysExpired | frontend/src/components/CountdownTimer.tsx:22-29 | once nothing is left, nothing is left at every later reading |
| CountdownTimer.Timer.constructor | frontend/src/components/CountdownTimer.tsx:20 | the state starts as calculateTimeLeft at mount, with no expiry calls |
| CountdownTimer.Timer.Tick | frontend/src/components/CountdownTimer.tsx:22-33 | stores calculateTimeLeft at the tick and calls onExpire iff it is zero and a callback was given |
| CountdownTimer.TwoTicksAfterDeadline | frontend/src/components/CountdownTimer.tsx:22-33 | two ticks past the deadline call onExpire twice |
| VoteDetail.HasVotedEnabled | frontend/src/hooks/useVoteDetail.ts:18 | the has-voted read runs iff an address is connected and the id is non-negative |
| VoteDetail.HasVotedValue | frontend/src/hooks/useVoteDetail.ts:23 | has voted iff the read returned true; no data reads as not voted |
| VoteDetail.VoteResultsEnabled | frontend/src/hooks/useVoteDetail.ts:113 | the results read is enabled for exactly the ids the record read is |
| VoteDetail.HexChar | frontend/src/hooks/useVoteDetail.ts:62 | a lower-case hex digit whose value is the input |
| VoteDetail.ToHex | frontend/src/hooks/useVoteDetail.ts:62 | toString(16) yields a non-empty string of lower-case hex digits |
| VoteDetail.PadStart | frontend/src/hooks/useVoteDetail.ts:62 | padStart keeps a long string and otherwise fills in front up to the width |
| VoteDetail.EncodeChoice | frontend/src/hooks/useVoteDetail.ts:62 | "0x" then at least four lower-case hex digits; exactly four iff the index is below 65536 |
| VoteDetail.ToHexLength | frontend/src/hooks/useVoteDetail.ts:62 | the hex form has at most k digits iff the value is below 16^k |
| VoteDetail.ParseToHex | frontend/src/hooks/useVoteDetail.ts:62 | reading the hex form back gives the number |
| VoteDetail.ParseHexLeadingZeros | frontend/src/hooks/useVoteDetail.ts:62 | padding zeros do not change the value read |
| VoteDetail.PadStartKeepsValue | frontend/src/hooks/useVoteDetail.ts:62 | padStart with '0' does not change the hex value read |
| VoteDetail.EncodeChoiceRoundTrip | frontend/src/hooks/useVoteDetail.ts:62 | the option index can be read back from the encoded choice |
| VoteDetail.EncodeChoiceInjective | frontend/src/hooks/useVoteDetail.ts:62 | different options never share an encoding |
| VoteDetail.CastVoteArgs | frontend/src/hooks/useVoteDetail.ts:59-74 | castVote inputs match the layout: the vote id, then bytes from which the option index reads back |
| VoteDetail.EncodeCastVote | frontend/src/config/contract.ts:50-57 | the two castVote inputs in order, matching the layout |
| VoteDetail.CastVoteRequest | frontend/src/hooks/useVoteDetail.ts:56-80 | no call without a write function, else the castVote arguments |
| VoteDetail.RevealArgs | frontend/src/hooks/useVoteDetail.ts:150-164 | reveal inputs match the layout: the id and every count in order |
| VoteDetail.RevealRequest | frontend/src/hooks/useVoteDetail.ts:150-164 | no call without a write function, else the reveal arguments |
| VoteDetail.WriteStatus | frontend/src/hooks/useVoteDetail.ts:97-103 | loading iff writing or confirming; the write error wins over the wait error |
| VoteDetailPage.DetailViewOf | frontend/src/pages/VoteDetailPage.tsx:29-48 | no view without a record; otherwise its fields, the short creator and isActive iff live |
| VoteDetailPage.DetailCountdown | frontend/src/pages/VoteDetailPage.tsx:54-76 | 已结束 iff no whole second is left; hours+minutes from 1 h, minutes+seconds from 1 min, seconds below, correctly split |
| VoteDetailPage.EndedIsFinal | frontend/src/pages/VoteDetailPage.tsx:59-63 | once the label is 已结束 it stays so at later readings |
| VoteDetailPage.PageCountsHoursWhereCardCountsDays | frontend/src/pages/VoteDetailPage.tsx:65-75 | with 25 h or more left the page shows hours where the list card shows days |
| VoteDetailPage.CountdownState.constructor | frontend/src/pages/VoteDetailPage.tsx:24-25 | empty label, not expired |
| VoteDetailPage.CountdownState.Tick | frontend/src/pages/VoteDetailPage.tsx:54-76 | stores the label for the tick and sets the expired flag once nothing is left, never clearing it |
| VoteDetailPage.CountdownState.Restart | frontend/src/pages/VoteDetailPage.tsx:51-81 | a new deadline restarts the interval; the expired flag is kept |
| VoteDetailPage.HandleVote | frontend/src/pages/VoteDetailPage.tsx:99-134 | the guards in order (wallet, selection, voted, expired, write available); a cast iff all pass, with the selected index |
| VoteDetailPage.ButtonDisabled | frontend/src/pages/VoteDetailPage.tsx:310 | disabled iff no option is selected or a cast is in flight |
| VoteDetailPage.Screen | frontend/src/pages/VoteDetailPage.tsx:146-280 | connect prompt, loading, a failed render when the settled read has no record, then voted, expired or options panel, each iff its condition |
| VoteDetailPage.SettledWithoutRecordFails | frontend/src/pages/VoteDetailPage.tsx:29-30 | a connected, settled page fails to render iff the record read returned no data |
| VoteDetailPage.EnabledButtonCasts | frontend/src/pages/VoteDetailPage.tsx:99-134 | an enabled button on the options panel casts whenever the write exists |
| VoteDetailPage.CastOnlyFromOptionsPanel | frontend/src/pages/VoteDetailPage.tsx:247-280 | a cast only happens when the options panel is on screen and the read did not report a vote |
| VoteDetailPage.CastSendsAShownOption | frontend/src/pages/VoteDetailPage.tsx:124-134 | a cast sends the index of an option on screen |
| VoteDetailPage.ExpiryGuardIgnoresContractFlag | frontend/src/pages/VoteDetailPage.tsx:46-63 | a vote the contract closed before its deadline is inactive yet its countdown runs |
| CreateVoteHook.PrepareEnabled | frontend/src/hooks/useContract-fixed.ts:29 | preparation runs iff connected with arguments set |
| CreateVoteHook.AutoWriteFires | frontend/src/hooks/useContract-fixed.ts:105 | the effect fires iff write ready, arguments set, no write in flight, no transaction yet |
| CreateVoteHook.FixedStatus | frontend/src/hooks/useContract-fixed.ts:117-121 | loading iff any phase is busy; the first error among prepare, write, wait |
| CreateVoteHook.SimpleStatus | frontend/src/hooks/useContract-fixed.ts:214-218 | loading iff writing or confirming; write error before wait error |
| CreateVoteHook.StatusesAgreeWithoutPrepare | frontend/src/hooks/useContract-fixed.ts:119-121 | with an idle prepare phase both create hooks and the vote-detail write hooks report the same status |
| CreateVoteHook.PrepareErrorTakesPrecedence | frontend/src/hooks/useContract-fixed.ts:121 | a prepare error hides later errors |
| CreateVoteHook.SimpleCreateVote | frontend/src/hooks/useContract-fixed.ts:192-212 | no call without a write function; else the four arguments in order |
| CreateVoteHook.CreateVoteFixed.constructor | frontend/src/hooks/useContract-fixed.ts:16 | no arguments, idle phases, nothing sent |
| CreateVoteHook.CreateVoteFixed.Status | frontend/src/hooks/useContract-fixed.ts:117-121 | the hook's status is FixedStatus of its phases |
| CreateVoteHook.CreateVoteFixed.CreateVote | frontend/src/hooks/useContract-fixed.ts:79-101 | stores the new arguments; a write already prepared is sent with the arguments it was prepared for |
| CreateVoteHook.CreateVoteFixed.Observe | frontend/src/hooks/useContract-fixed.ts:19-48 | the library's phases change; arguments and sent writes stay |
| CreateVoteHook.CreateVoteFixed.AutoWrite | frontend/src/hooks/useContract-fixed.ts:104-115 | writes the prepared arguments and clears them iff the guard holds, else nothing changes |
| CreateVoteHook.CreateVoteFixed.Reset | frontend/src/hooks/useContract-fixed.ts:123-126 | clears the arguments and the write phase |
| CreateVoteHook.AutoWriteOncePerArgs | frontend/src/hooks/useContract-fixed.ts:103-115 | with no createVote between, two runs of the effect write at most once |
| CreateVoteHook.NoWriteAfterReset | frontend/src/hooks/useContract-fixed.ts:123-126 | after reset the effect does not write |
| CreateVotePage.AddOptionTo | frontend/src/pages/CreateVotePage.tsx:33-41 | nothing at ten options; else one empty option with the clock id appended |
| CreateVotePage.RemoveOptionFrom | frontend/src/pages/CreateVotePage.tsx:44-51 | nothing at two or fewer; else exactly the options with other ids, in order |
| CreateVotePage.UpdateOptionIn | frontend/src/pages/CreateVotePage.tsx:54-58 | options with that id take the text; ids, order and length stay |
| CreateVotePage.InitialOptionsWellFormed | frontend/src/pages/CreateVotePage.tsx:25-28 | the two initial options are well formed |
| CreateVotePage.RemoveDropsAtMostOne | frontend/src/pages/CreateVotePage.tsx:44-51 | with distinct ids removal drops at most one and keeps ids distinct |
| CreateVotePage.OptionEditsKeepShape | frontend/src/pages/CreateVotePage.tsx:33-58 | edits keep 2-10 options with distinct ids, adding only with a fresh clock id |
| CreateVotePage.ClockIdIsNotInitial | frontend/src/pages/CreateVotePage.tsx:25-39 | clock readings above 2 never give the initial ids |
| CreateVotePage.SameMillisecondAdditions | frontend/src/pages/CreateVotePage.tsx:33-51 | two additions in one millisecond share an id; removing it then leaves a single option |
| CreateVotePage.TitleCheck | frontend/src/pages/CreateVotePage.tsx:64-70 | passes iff non-blank and 3-100 characters; the required message iff blank |
| CreateVotePage.DescriptionCheck | frontend/src/pages/CreateVotePage.tsx:72-78 | passes iff non-blank and 10-500 characters; the required message iff blank |
| CreateVotePage.DurationCheck | frontend/src/pages/CreateVotePage.tsx:80-84 | passes iff 1-168 hours |
| CreateVotePage.ValidOptionsHaveText | frontend/src/pages/CreateVotePage.tsx:87 | every kept option has non-blank text |
| CreateVotePage.OptionsCheck | frontend/src/pages/CreateVotePage.tsx:87-97 | passes iff at least two valid options and no repeat after trim and lower-casing |
| CreateVotePage.OptionsCheckInSourceOrder | frontend/src/pages/CreateVotePage.tsx:87-97 | the options message is the duplicate message when there is a repeat, else the count message |
| CreateVotePage.OptionsMessage | frontend/src/pages/CreateVotePage.tsx:87-97 | the count assignment then the overriding duplicate assignment leave the options check's message |
| CreateVotePage.DuplicatesNeedTwoOptions | frontend/src/pages/CreateVotePage.tsx:88-97 | a repeat needs two valid options, so the duplicate message only replaces a passing count |
| CreateVotePage.FormAcceptedIff | frontend/src/pages/CreateVotePage.tsx:61-101 | the form passes iff every field is within its bounds and the options are usable |
| CreateVotePage.DurationFromInput | frontend/src/pages/CreateVotePage.tsx:269 | never zero; a non-zero parsed value is kept |
| CreateVotePage.SubmittedOptions | frontend/src/pages/CreateVotePage.tsx:117-119 | the valid options' trimmed texts, in order, all non-empty |
| CreateVotePage.SubmittedDeadline | frontend/src/pages/CreateVotePage.tsx:123-124 | exactly duration hours after the current second; at least an hour for a valid duration |
| CreateVotePage.CreateVoteForm.constructor | frontend/src/pages/CreateVotePage.tsx:19-30 | empty fields, 24 hours, the two initial options, no errors |
| CreateVotePage.CreateVoteForm.AddOption | frontend/src/pages/CreateVotePage.tsx:33-41 | refused iff ten options; the options become AddOptionTo; shape kept with a fresh id; other fields unchanged |
| CreateVotePage.CreateVoteForm.RemoveOption | frontend/src/pages/CreateVotePage.tsx:44-51 | refused iff two or fewer; the options become RemoveOptionFrom; shape kept |
| CreateVotePage.CreateVoteForm.UpdateOption | frontend/src/pages/CreateVotePage.tsx:54-58 | the options become UpdateOptionIn; shape kept |
| CreateVotePage.CreateVoteForm.SetDuration | frontend/src/pages/CreateVotePage.tsx:269 | duration becomes the parsed value or 1 |
| CreateVotePage.CreateVoteForm.ValidateForm | frontend/src/pages/CreateVotePage.tsx:61-101 | stores the errors of the current fields; passes iff none |
| CreateVotePage.CreateVoteForm.HandleSubmit | frontend/src/pages/CreateVotePage.tsx:104-139 | the not-connected outcome iff no wallet; rejected iff connected with errors; submitted iff connected with no errors, carrying the trimmed fields, the valid options and the deadline, sent iff a write exists |
| CreateVotePage.SubmittedArgumentsUsable | frontend/src/pages/CreateVotePage.tsx:104-139 | an accepted form submits 2+ non-empty, distinct options, non-blank title and description and a deadline an hour or more ahead |
| ResultsPage.ParseVoteId | frontend/src/pages/ResultsPage.tsx:20 | no id reads 0, digits read their decimal value, a word reads 0 |
| ResultsPage.RouteRoundTrip | frontend/src/pages/ResultsPage.tsx:20 | the id rendered into a results link reads back as itself |
| ResultsPage.ResultsViewOfRecord | frontend/src/pages/ResultsPage.tsx:28-49 | a loaded record gives a view of its fields with the short creator |
| ResultsPage.RoundPercentNearest | frontend/src/pages/ResultsPage.tsx:74 | the rounded share is the nearest whole percent, halves up |
| ResultsPage.PercentWithinHalf | frontend/src/pages/ResultsPage.tsx:74 | the rounded share is within half a point of the exact one |
| ResultsPage.PercentAtMostHundred | frontend/src/pages/ResultsPage.tsx:74 | no option shows above 100% |
| ResultsPage.OptionLabel | frontend/src/pages/ResultsPage.tsx:76 | non-empty; an option's own text when it has one |
| ResultsPage.VoteResults | frontend/src/pages/ResultsPage.tsx:52-92 | one row per option with its palette colour; zero counts until revealed; revealed rows carry the counts and percentages |
| ResultsPage.ShownCountsSum | frontend/src/pages/ResultsPage.tsx:69-73 | padded counts sum to at most the revealed total, exactly it when none is cut off |
| ResultsPage.RevealedRowCounts | frontend/src/pages/ResultsPage.tsx:72-81 | revealed rows carry results[index] or 0 |
| ResultsPage.DisplayedTotal | frontend/src/pages/ResultsPage.tsx:70-73 | the rows' counts sum to the displayed total when no count is cut off |
| ResultsPage.RowPercentagesBounded | frontend/src/pages/ResultsPage.tsx:74 | every shown percentage is 0-100 |
| ResultsPage.KeepLarger | frontend/src/pages/ResultsPage.tsx:97 | the reducer returns one of its inputs, at least as large as both |
| ResultsPage.WinningOption | frontend/src/pages/ResultsPage.tsx:95-98 | no winner iff no rows |
| ResultsPage.ReduceFromFirstMaximum | frontend/src/pages/ResultsPage.tsx:97 | the fold lands on the first maximum |
| ResultsPage.WinningIsFirstMaximum | frontend/src/pages/ResultsPage.tsx:95-98 | the winner is the first row with the most votes |
| ResultsPage.WinnerHeadsSortedList | frontend/src/pages/ResultsPage.tsx:328-329 | the winner is the head of the sorted list |
| ResultsPage.NoVotesFirstOptionWins | frontend/src/pages/ResultsPage.tsx:95-98 | with no votes the first option wins |
| ResultsPage.SiftIntoPlace | frontend/src/pages/ResultsPage.tsx:328-329 | one insertion step: the prefix becomes the sorted insertion of the next row, the rest is untouched |
| ResultsPage.SortByVotes | frontend/src/pages/ResultsPage.tsx:328-329 | sorts the array in place to the stable descending order |
| ResultsPage.SortedListProperties | frontend/src/pages/ResultsPage.tsx:328-329 | the sorted list is descending, a permutation, and keeps ties in option order |
| ResultsIndexPage.Reverse | frontend/src/pages/ResultsIndexPage.tsx:90 | the reversed list has the same length, element i taken from the other end |
| ResultsIndexPage.ReversePermutes | frontend/src/pages/ResultsIndexPage.tsx:90 | reversing keeps the same elements |
| ResultsIndexPage.TotalOf | frontend/src/pages/ResultsIndexPage.tsx:86 | an absent total reads as 0 |
| ResultsIndexPage.NewestFirst | frontend/src/pages/ResultsIndexPage.tsx:85-94 | total ids, newest first, strictly descending |
| ResultsIndexPage.NewestFirstPermutesIdRange | frontend/src/pages/ResultsIndexPage.tsx:85-94 | the same ids as 0..total-1; an id is listed iff it is in range |
| ResultsIndexPage.ViewableCount | frontend/src/pages/ResultsIndexPage.tsx:127-132 | the viewable counter always equals the number of ids |
| ResultsIndexPage.ResultCard | frontend/src/pages/ResultsIndexPage.tsx:7-29 | skeleton iff loading, nothing without data, else the summary with expired iff the deadline second has come |
| ResultsIndexPage.ResultCardIgnoresContractFlag | frontend/src/pages/ResultsIndexPage.tsx:23-29 | the card ignores the contract's isActive flag |
| DeadlineAgreement.SecondsAgreeWithMilliseconds | frontend/src/utils/format.ts:26-28 | comparing the deadline with whole seconds agrees with comparing it in milliseconds |
| DeadlineAgreement.MillisecondSitesAgree | frontend/src/utils/format.ts:23-132 | the badge, the time left and its label are ended iff the deadline millisecond has come |
| DeadlineAgreement.SecondSitesAgree | frontend/src/hooks/useVoteData.ts:76-95 | the list card and the detail page's label, which count whole seconds, are ended iff the deadline millisecond has come |
| DeadlineAgreement.EndedSitesAgree | frontend/src/utils/format.ts:23-132 | the badge, the time left, its label, the card and the detail countdown are all ended iff the deadline millisecond has come |
| DeadlineAgreement.ResultCardExpiresWithBadge | frontend/src/pages/ResultsIndexPage.tsx:29 | the results card is expired iff the badge is |
| DeadlineAgreement.StrictStatusLagsByOneMillisecond | frontend/src/utils/vote.ts:24 | getVoteStatus agrees with the other sites except at the deadline's own millisecond |
| DeadlineAgreement.FlagNarrowsCardStatus | frontend/src/components/VoteCard.tsx:56 | a live record shows an active card; a card can be active while the contract has closed the vote |
| DeadlineAgreement.LiveAgreesAcrossPages | frontend/src/hooks/useVoteStats.ts:29-30 | the detail page and the statistics hook agree on whether a record is live |
| Common.LowerStr | frontend/src/components/VoteList.tsx:39-40 | ASCII toLowerCase: same length, letters lowered, others kept |
| Common.TrimStartDropsSpaces | frontend/src/pages/CreateVotePage.tsx:64 | the leading part trim removes is white space, and what is left does not start with white space |
| Common.TrimEndDropsSpaces | frontend/src/pages/CreateVotePage.tsx:64 | the trailing part trim removes is white space, and what is left does not end with white space |
| Common.TrimIsSpaceFreeSlice | frontend/src/pages/CreateVotePage.tsx:64 | trim yields a slice of the input with only white space cut on either side and none left at its ends |
| Common.BlankIffAllSpaces | frontend/src/utils/vote.ts:92 | trim() is empty iff the string is all spaces |
| Common.IncludesIffOccurs | frontend/src/components/VoteList.tsx:39-40 | includes iff the term occurs at some position |
| Common.NatToString | frontend/src/hooks/useVoteData.ts:87-93 | a non-empty string of digits |
| Common.ParseRendered | frontend/src/pages/ResultsPage.tsx:20 | parsing a rendered number gives it back |
| Common.RenderedCountStartsWithDigit | frontend/src/utils/format.ts:114-132 | a counting label starts with a digit; 已结束 and 即将结束 never do |
| Common.Filter | frontend/src/pages/CreateVotePage.tsx:87 | the kept elements satisfy the predicate |
| Common.FilterLength | frontend/src/pages/CreateVotePage.tsx:87 | a filter is no longer than its input |
| Common.FilterIsSubsequence | frontend/src/pages/VoteListPage.tsx:87 | a filter is a subsequence holding exactly the kept elements |
| Common.IdRange | frontend/src/hooks/useVoteStats.ts:46 | the ids 0..total-1, empty for a non-positive total |
| Common.SortDescSorted | frontend/src/utils/vote.ts:207 | the stable descending sort is sorted, a permutation and keeps ties in order |
| Common.FirstSortedIsFirstMaximum | frontend/src/utils/vote.ts:207-209 | the head of the sorted list is the first maximum |
| Common.Take | frontend/src/components/VoteCard.tsx:104 | slice(0, n): the first n elements, or all |
| Common.SliceFromEnd | frontend/src/components/VoteCard.tsx:132 | slice(-n): the last n, or the whole for 0 or too large n |
| Common.SetSizeIffDistinct | frontend/src/utils/vote.ts:111-113 | the set is as large as the list iff nothing repeats |
| Common.FindIndex | frontend/src/pages/CreateVotePage.tsx:93 | the first position of the value, or -1 iff absent |
| Common.FindIndexRevealsDuplicates | frontend/src/pages/CreateVotePage.tsx:92-94 | some entry is not at its first position iff a value repeats |
| Common.FirstPresent | frontend/src/hooks/useVoteDetail.ts:97-103 | a or b: the first present value |

## Left out

- wagmi, viem and the wallet connector are not part of this model. A read is a `Read` value (loading, error, data) and a write is a set of phase flags an environment step sets. Caching, refetching and the chain itself are left out.
- `Date.now()` is a parameter `nowMs`. `setInterval` and `clearInterval` are modelled as explicit `Tick` and `Restart` calls; the teardown of an old interval is not modelled.
- `toLowerCase` is modelled for ASCII letters only; JavaScript also folds non-ASCII letters. `trim` removes the ECMAScript white-space and line-terminator characters (`Common.IsJsSpace`). Strings are sequences of Unicode characters, not of UTF-16 code units, so `length` counts a character outside the Basic Multilingual Plane once where JavaScript counts it twice.
- ResultsPage.RoundPercentNearest: `Math.round(votes / total * 100)` is modelled as exact integer rounding, halves up. The floating-point product can land just below or above an exact half, which the model ignores.
- VoteUtils.VotesData: the percentage is an exact real number. The source's floating-point division can differ from it in the last bits.
- `new Date(string)` parsing in `validateVoteForm` becomes the `DeadlineInput` datatype (an invalid date, or a millisecond time). The one-year bound is a parameter `oneYearLaterMs`.
- The styling helpers are not modelled because they only pick CSS classes or fixed labels: `getStatusClassName`, the widget's size classes, and VoteListPage's `getStatusColor` and `getStatusText`.
- `formatDate`, `formatRelativeTime`, `formatNumber` and `formatPercentage` are not modelled. They wrap `Intl`/`Date` locale formatting.
- `useAllVotes` is not modelled. No page in this model calls it.
- Toasts, navigation, `window.confirm`, `console.log`, and ResultsPage's share and export (frontend/src/pages/ResultsPage.tsx:102-136) are left out as user-interface side effects.
- The `try`/`catch` blocks around writes are left out. A thrown write is modelled only through the error field of its phase.
- `Number(bigint)` conversions are exact here. Integers are unbounded, so precision loss above 2^53 is not modelled.
- `castVote` and `revealVoteResults` take a `nat` vote id. `BigInt` of a negative or NaN id, which throws in the source, is not modelled.
- The detail page's route parse `parseInt(id || '0')` is not modelled. The vote id is a parameter of the page's members.
- ResultsPage.ParseVoteId: only an absent id, decimal digits, or a string starting with a letter are modelled (`ModelledRouteId`). Mixed strings such as "12abc", signs, white space and exponent forms are excluded.
- The results index's `voteIds` state is modelled as its settled value. It starts as `[]` for one render, and the page's loading spinner is not modelled.
- Error objects are reduced to an optional message or a flag.
- The mock list page's optional fields `isCreatedByUser` and `hasVoted` are `Option<bool>`, and a vote counts only when the field is `true`.
- Purely presentational pages are not modelled: the home and about pages, `main.tsx` and `App.tsx`, the wagmi configuration, the network checker, and the debug hooks and components.
- `config/contract.ts` is used only as the ABI layout the encoders match; the contract's own behaviour is not part of this model.
- CountdownTimer.Timer.Tick: only the number of `onExpire` calls is recorded, not what the callback does.
