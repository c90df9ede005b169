/**
 * Vote helpers shared by the pages (frontend/src/utils/vote.ts): the
 * three-valued vote status and whether a user may vote, the creation-form
 * validator, the colour palette, the result statistics and the address check.
 */
module VoteUtils {
  import opened Common
  import Format

  // ---------------------------------------------------------------------------
  // Status
  // ---------------------------------------------------------------------------

  datatype VoteStatus = Active | Expired | Completed

  datatype VoteInfo = VoteInfo(
    id: int,
    title: string,
    description: string,
    options: seq<string>,
    deadline: int,
    totalVoters: nat,
    isActive: bool,
    isRevealed: bool,
    creator: string)

  /**
   * `getVoteStatus(voteInfo, isExpired)`: revealed votes are completed; otherwise
   * expired when the caller says so or strictly after the deadline millisecond.
   * An omitted `isExpired` is `false`.
   */
  function GetVoteStatus(info: VoteInfo, isExpired: bool, nowMs: int): (s: VoteStatus)
    ensures info.isRevealed ==> s == Completed
    ensures !info.isRevealed ==> (s == Expired <==> isExpired || nowMs > info.deadline * 1000)
    ensures s == Active <==> !info.isRevealed && !isExpired && nowMs <= info.deadline * 1000
  {
    if info.isRevealed then Completed
    else if isExpired || nowMs > info.deadline * 1000 then Expired
    else Active
  }

  /** At the deadline millisecond itself the vote is still active. */
  lemma ActiveAtDeadlineMillisecond(info: VoteInfo)
    requires !info.isRevealed
    ensures GetVoteStatus(info, false, info.deadline * 1000) == Active
    ensures GetVoteStatus(info, false, info.deadline * 1000 + 1) == Expired
  {
  }

  function CanUserVote(isConnected: bool, hasVoted: bool, status: VoteStatus): (ok: bool)
    ensures ok <==> isConnected && !hasVoted && status == Active
  {
    isConnected && !hasVoted && status == Active
  }

  /** A user may vote only on an unrevealed vote whose deadline millisecond has not passed. */
  lemma CanVoteOnlyBeforeDeadline(info: VoteInfo, isExpired: bool, nowMs: int, isConnected: bool, hasVoted: bool)
    ensures CanUserVote(isConnected, hasVoted, GetVoteStatus(info, isExpired, nowMs)) <==>
      isConnected && !hasVoted && !info.isRevealed && !isExpired && nowMs <= info.deadline * 1000
  {
  }

  /** `getStatusText`; the '未知状态' default is unreachable for the three statuses. */
  function GetStatusText(status: VoteStatus): (text: string)
    ensures text != "未知状态"
  {
    match status
    case Active => "进行中"
    case Expired => "已过期"
    case Completed => "已完成"
  }

  lemma StatusTextsDistinct(a: VoteStatus, b: VoteStatus)
    ensures GetStatusText(a) == GetStatusText(b) <==> a == b
  {
  }

  // ---------------------------------------------------------------------------
  // validateVoteForm
  // ---------------------------------------------------------------------------

  /** The deadline field: empty, a string `Date` cannot parse, or an instant in ms. */
  datatype DeadlineInput = NoDeadline | Unparsable | At(ms: int)

  /** `FormErrors`; an options error is the one-message array the source assigns. */
  datatype FormErrors = FormErrors(
    title: Option<FormMessage>,
    description: Option<FormMessage>,
    options: Option<FormMessage>,
    deadline: Option<FormMessage>)

  const NoErrors := FormErrors(None, None, None, None)

  /** The messages `validateVoteForm` can assign. */
  datatype FormMessage =
    | TitleRequired
    | TitleTooLong
    | DescriptionTooLong
    | TooFewOptions
    | TooManyOptions
    | DuplicateOptions
    | OptionTooLong
    | DeadlineRequired
    | DeadlineNotLater
    | DeadlineTooFar
    | DeadlineTooSoon

  /** The text shown for each message. */
  function MessageText(m: FormMessage): (text: string)
  {
    match m
    case TitleRequired => "请输入投票标题"
    case TitleTooLong => "标题不能超过100个字符"
    case DescriptionTooLong => "描述不能超过500个字符"
    case TooFewOptions => "至少需要两个有效选项"
    case TooManyOptions => "选项数量不能超过10个"
    case DuplicateOptions => "选项不能重复"
    case OptionTooLong => "每个选项不能超过50个字符"
    case DeadlineRequired => "请选择截止时间"
    case DeadlineNotLater => "截止时间必须晚于当前时间"
    case DeadlineTooFar => "截止时间不能超过一年"
    case DeadlineTooSoon => "截止时间至少需要5分钟后"
  }

  /** `opt.trim() !== ''`. */
  predicate NonBlank(opt: string) {
    !IsBlank(opt)
  }

  /** `opt.trim().toLowerCase()`, the key duplicates are detected on. */
  function NormalizeOption(opt: string): string {
    LowerStr(Trim(opt))
  }

  predicate IsLongOption(opt: string) {
    |opt| > 50
  }

  predicate HasLongOption(valid: seq<string>) {
    exists i :: 0 <= i < |valid| && IsLongOption(valid[i])
  }

  /** The set-size test finds duplicates and the filter finds over-long options. */
  lemma OptionChecks(valid: seq<string>)
    ensures |Elements(Map(valid, NormalizeOption))| != |valid| <==> HasDuplicates(Map(valid, NormalizeOption))
    ensures |Filter(valid, IsLongOption)| > 0 <==> HasLongOption(valid)
  {
    SetSizeIffDistinct(Map(valid, NormalizeOption));
    FilterLength(valid, IsLongOption);
    CountPositiveIffExists(valid, IsLongOption);
  }

  /** Which title message wins. */
  function TitleError(title: string): Option<FormMessage> {
    if IsBlank(title) then Some(TitleRequired)
    else if |title| > 100 then Some(TitleTooLong)
    else None
  }

  /**
   * Which options message survives the successive assignments: the count checks
   * first, then an over-long option over a duplicate.
   */
  function OptionsError(options: seq<string>): Option<FormMessage> {
    var valid := Filter(options, NonBlank);
    if |valid| < 2 then Some(TooFewOptions)
    else if |valid| > 10 then Some(TooManyOptions)
    else if HasLongOption(valid) then Some(OptionTooLong)
    else if HasDuplicates(Map(valid, NormalizeOption)) then Some(DuplicateOptions)
    else None
  }

  /**
   * Which deadline message survives: the five-minute check is assigned last, so
   * it wins over the other two; `fiveMinutesLater` is `nowMs + 300000`.
   */
  function DeadlineError(deadline: DeadlineInput, nowMs: int, oneYearLaterMs: int): Option<FormMessage> {
    match deadline
    case NoDeadline => Some(DeadlineRequired)
    case Unparsable => None
    case At(d) =>
      if d < nowMs + 300_000 then Some(DeadlineTooSoon)
      else if d > oneYearLaterMs then Some(DeadlineTooFar)
      else if d <= nowMs then Some(DeadlineNotLater)
      else None
  }

  function ExpectedErrors(title: string, description: string, options: seq<string>,
                          deadline: DeadlineInput, nowMs: int, oneYearLaterMs: int): FormErrors {
    FormErrors(
      TitleError(title),
      if |description| > 500 then Some(DescriptionTooLong) else None,
      OptionsError(options),
      DeadlineError(deadline, nowMs, oneYearLaterMs))
  }

  /**
   * `validateVoteForm`: builds the error record by successive assignments, in
   * the source's order, and ends with the record `ExpectedErrors` describes.
   * `oneYearLaterMs` is the calendar date one year after now.
   */
  method ValidateVoteForm(title: string, description: string, options: seq<string>,
                          deadline: DeadlineInput, nowMs: int, oneYearLaterMs: int)
    returns (errors: FormErrors)
    ensures errors == ExpectedErrors(title, description, options, deadline, nowMs, oneYearLaterMs)
  {
    errors := NoErrors;

    if IsBlank(title) {
      errors := errors.(title := Some(TitleRequired));
    } else if |title| > 100 {
      errors := errors.(title := Some(TitleTooLong));
    }

    assert errors == NoErrors.(title := TitleError(title));

    if |description| > 500 {
      errors := errors.(description := Some(DescriptionTooLong));
    }
    ghost var afterText := errors;

    var validOptions := Filter(options, NonBlank);
    if |validOptions| < 2 {
      errors := errors.(options := Some(TooFewOptions));
    } else if |validOptions| > 10 {
      errors := errors.(options := Some(TooManyOptions));
    } else {
      OptionChecks(validOptions);
      if |Elements(Map(validOptions, NormalizeOption))| != |validOptions| {
        errors := errors.(options := Some(DuplicateOptions));
      }
      var longOptions := Filter(validOptions, IsLongOption);
      if |longOptions| > 0 {
        errors := errors.(options := Some(OptionTooLong));
      }
    }

    assert errors == afterText.(options := OptionsError(options));

    match deadline {
      case NoDeadline =>
        errors := errors.(deadline := Some(DeadlineRequired));
      case Unparsable =>
      case At(d) =>
        if d <= nowMs {
          errors := errors.(deadline := Some(DeadlineNotLater));
        }
        if d > oneYearLaterMs {
          errors := errors.(deadline := Some(DeadlineTooFar));
        }
        if d < nowMs + 300_000 {
          errors := errors.(deadline := Some(DeadlineTooSoon));
        }
    }
    assert errors.deadline == DeadlineError(deadline, nowMs, oneYearLaterMs);
  }

  /** The "must be later than now" message is always overwritten by the five-minute one. */
  lemma NotLaterMessageNeverShown(deadline: DeadlineInput, nowMs: int, oneYearLaterMs: int)
    ensures DeadlineError(deadline, nowMs, oneYearLaterMs) != Some(DeadlineNotLater)
    ensures deadline.At? && deadline.ms <= nowMs ==>
      DeadlineError(deadline, nowMs, oneYearLaterMs) == Some(DeadlineTooSoon)
  {
  }

  lemma NormalizedDuplicates(valid: seq<string>)
    ensures HasDuplicates(Map(valid, NormalizeOption)) <==>
      exists i, j :: 0 <= i < j < |valid| && NormalizeOption(valid[i]) == NormalizeOption(valid[j])
  {
    var normalized := Map(valid, NormalizeOption);
    if HasDuplicates(normalized) {
      var i, j :| 0 <= i < j < |normalized| && normalized[i] == normalized[j];
      assert NormalizeOption(valid[i]) == NormalizeOption(valid[j]);
    }
  }

  /** The options pass exactly when 2..10 are non-blank, none is over 50 characters, and no two match after trim and lower-casing. */
  lemma OptionsAcceptedIff(options: seq<string>)
    ensures OptionsError(options).None? <==>
      var valid := Filter(options, NonBlank);
      && 2 <= |valid| <= 10
      && (forall i :: 0 <= i < |valid| ==> |valid[i]| <= 50)
      && (forall i, j :: 0 <= i < j < |valid| ==> NormalizeOption(valid[i]) != NormalizeOption(valid[j]))
  {
    var valid := Filter(options, NonBlank);
    NormalizedDuplicates(valid);
    assert HasLongOption(valid) <==> !(forall i :: 0 <= i < |valid| ==> |valid[i]| <= 50);
    assert OptionsError(options).None? <==>
      2 <= |valid| <= 10 && !HasLongOption(valid) && !HasDuplicates(Map(valid, NormalizeOption));
  }

  // ---------------------------------------------------------------------------
  // getOptionColor
  // ---------------------------------------------------------------------------

  const OptionPalette: seq<string> := [
    "#3B82F6", "#10B981", "#F59E0B", "#EF4444", "#8B5CF6",
    "#06B6D4", "#84CC16", "#F97316", "#EC4899", "#6B7280"]

  /** `getOptionColor`: the palette entry at the index modulo the palette's length. */
  function GetOptionColor(index: nat): (color: string)
    ensures color in OptionPalette
  {
    OptionPalette[index % |OptionPalette|]
  }

  /**
   * The first ten options take the palette in order, colours repeat every ten
   * options, and ten consecutive options get ten different colours.
   */
  lemma OptionColorsCycle(i: nat, j: nat)
    ensures i < 10 ==> GetOptionColor(i) == OptionPalette[i]
    ensures GetOptionColor(i + 10) == GetOptionColor(i)
    ensures i < j < i + 10 ==> GetOptionColor(i) != GetOptionColor(j)
  {
    assert (i + 10) % 10 == i % 10;
    if i < j < i + 10 {
      assert i % 10 != j % 10;
    }
  }

  // ---------------------------------------------------------------------------
  // calculateVoteStats
  // ---------------------------------------------------------------------------

  datatype VoteEntry = VoteEntry(option: string, votes: nat, percentage: real, index: nat)

  datatype VoteStats = VoteStats(totalVotes: nat, winner: Option<VoteEntry>, results: seq<VoteEntry>)

  function EntryVotes(e: VoteEntry): int {
    e.votes
  }

  /** `results[index] || 0`: a missing count reads as zero. */
  function CountAt(results: seq<nat>, i: nat): nat {
    if i < |results| then results[i] else 0
  }

  /** One entry per option, in option order, before sorting. */
  function VotesData(options: seq<string>, results: seq<nat>): (d: seq<VoteEntry>)
    ensures |d| == |options|
    ensures forall i :: 0 <= i < |d| ==>
      d[i].option == options[i] && d[i].votes == CountAt(results, i) && d[i].index == i
    ensures forall i :: 0 <= i < |d| ==>
      d[i].percentage == if Sum(results) > 0 then CountAt(results, i) as real / Sum(results) as real * 100.0 else 0.0
  {
    var total := Sum(results);
    seq(|options|, i requires 0 <= i < |options| =>
      VoteEntry(options[i], CountAt(results, i),
                if total > 0 then CountAt(results, i) as real / total as real * 100.0 else 0.0, i))
  }

  /**
   * `calculateVoteStats`: the total of every count, the entries sorted by votes
   * descending with ties in option order, and the first sorted entry as winner
   * when some vote was cast.
   */
  function CalculateVoteStats(options: seq<string>, results: seq<nat>): (s: VoteStats)
    ensures s.totalVotes == Sum(results)
    ensures |s.results| == |options|
    ensures multiset(s.results) == multiset(VotesData(options, results))
    ensures SortedDesc(s.results, EntryVotes)
    ensures forall k :: KeyRun(s.results, EntryVotes, k) == KeyRun(VotesData(options, results), EntryVotes, k)
    ensures s.winner.Some? <==> s.totalVotes > 0 && |options| > 0
    ensures s.winner.Some? ==> s.winner.value == s.results[0]
  {
    var total := Sum(results);
    var data := VotesData(options, results);
    var sorted := SortDesc(data, EntryVotes);
    SortDescSorted(data, EntryVotes);
    VoteStats(total, if total > 0 && |sorted| > 0 then Some(sorted[0]) else None, sorted)
  }

  /** The winner is the first option, in option order, with the most votes. */
  lemma WinnerIsFirstMostVoted(options: seq<string>, results: seq<nat>) returns (m: nat)
    requires Sum(results) > 0 && options != []
    ensures IsFirstMaximum(VotesData(options, results), EntryVotes, m)
    ensures CalculateVoteStats(options, results).winner == Some(VotesData(options, results)[m])
  {
    var data := VotesData(options, results);
    m := FirstMaximumExists(data, EntryVotes);
    FirstSortedIsFirstMaximum(data, EntryVotes, m);
  }

  /** With no votes cast there is no winner, even though every option has an entry. */
  lemma NoVotesNoWinner(options: seq<string>, results: seq<nat>)
    requires forall i :: 0 <= i < |results| ==> results[i] == 0
    ensures CalculateVoteStats(options, results).winner.None?
    ensures |CalculateVoteStats(options, results).results| == |options|
  {
    SumAllZero(results);
  }

  // ---------------------------------------------------------------------------
  // isValidAddress
  // ---------------------------------------------------------------------------

  predicate IsHexDigit(c: char) {
    ('0' <= c <= '9') || ('a' <= c <= 'f') || ('A' <= c <= 'F')
  }

  /** `/^0x[a-fA-F0-9]{40}$/`: a lower-case "0x" prefix and exactly forty hex digits. */
  function IsValidAddress(address: string): (ok: bool)
    ensures ok <==> |address| == 42 && address[..2] == "0x"
                    && forall i :: 2 <= i < |address| ==> IsHexDigit(address[i])
  {
    && StartsWith(address, "0x")
    && |address[2..]| == 40
    && forall i :: 0 <= i < |address[2..]| ==> IsHexDigit(address[2..][i])
  }

  /** Lower-casing keeps an address valid: the form the pages compare creators in. */
  lemma LowerCasePreservesValidity(address: string)
    requires IsValidAddress(address)
    ensures IsValidAddress(LowerStr(address))
  {
    var l := LowerStr(address);
    assert l[..2] == "0x";
  }

  /** A valid address is shortened by `formatAddress` to 6 + 3 + 4 characters. */
  lemma ValidAddressFormatsToThirteen(address: string)
    requires IsValidAddress(address)
    ensures |Format.FormatAddress(address, 6, 4)| == 13
  {
  }
}
