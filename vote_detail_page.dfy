/**
 * The vote page (frontend/src/pages/VoteDetailPage.tsx): the record decoded
 * once per read with its `isActive` flag, the one-second countdown that writes
 * the label and the sticky `isExpired` state, the guards `handleVote` passes
 * before calling `castVote`, the submit button, and which screen and panel the
 * page shows.
 */
module VoteDetailPage {
  import opened Common
  import opened ContractAbi
  import opened VoteData
  import VoteDetail

  // ---------------------------------------------------------------------------
  // voteData
  // ---------------------------------------------------------------------------

  datatype DetailView = DetailView(
    title: string,
    description: string,
    options: seq<string>,
    creator: string,
    deadline: nat,
    totalVoters: nat,
    isActive: bool)

  /**
   * The memoised `voteData`: null without a read result; otherwise the tuple
   * fields, the abbreviated creator, and `isActive` as the contract flag
   * together with a deadline still ahead of the clock reading taken at decode time.
   */
  function DetailViewOf(voteInfo: Option<seq<AbiValue>>, nowMs: int): (v: Option<DetailView>)
    requires voteInfo.Some? ==> Matches(voteInfo.value, GetVoteInfoOutputs)
    ensures v.None? <==> voteInfo.None?
    ensures v.Some? ==>
      var t := DecodeVoteInfo(voteInfo.value);
      && v.value.title == t.title && v.value.description == t.description
      && v.value.options == t.options && v.value.deadline == t.deadline
      && v.value.totalVoters == t.totalVoters
      && v.value.creator == ShortCreator(t.creator)
      && (v.value.isActive <==> t.isActive && t.deadline > nowMs / 1000)
  {
    if voteInfo.None? then None
    else
      var t := DecodeVoteInfo(voteInfo.value);
      Some(DetailView(t.title, t.description, t.options, ShortCreator(t.creator),
                      t.deadline, t.totalVoters, t.isActive && t.deadline > nowMs / 1000))
  }

  // ---------------------------------------------------------------------------
  // The countdown label
  // ---------------------------------------------------------------------------

  /**
   * The label the page's interval writes, in whole seconds against
   * `floor(nowMs / 1000)`: hours and minutes, then minutes and seconds, then
   * seconds. There is no day unit, so hours grow without bound.
   */
  function DetailCountdown(deadline: int, nowMs: int): (c: Countdown)
    ensures c == Ended <==> deadline - nowMs / 1000 <= 0
    ensures c.HoursMinutes? <==> deadline - nowMs / 1000 >= 3600
    ensures c.MinutesSeconds? <==> 60 <= deadline - nowMs / 1000 < 3600
    ensures c.Seconds? <==> 0 < deadline - nowMs / 1000 < 60
    ensures c.HoursMinutes? ==>
      c.minutes < 60
      && c.hours * 3600 + c.minutes * 60 <= deadline - nowMs / 1000
      && deadline - nowMs / 1000 < c.hours * 3600 + (c.minutes + 1) * 60
    ensures c.MinutesSeconds? ==>
      0 < c.minutes < 60 && c.seconds < 60 && c.minutes * 60 + c.seconds == deadline - nowMs / 1000
    ensures c.Seconds? ==> c.seconds == deadline - nowMs / 1000
  {
    var diff := deadline - nowMs / 1000;
    if diff <= 0 then Ended
    else
      var hours := diff / 3600;
      var minutes := (diff % 3600) / 60;
      var seconds := diff % 60;
      HoursAndMinutes(diff);
      if hours > 0 then HoursMinutes(hours, minutes)
      else if minutes > 0 then MinutesSeconds(minutes, seconds)
      else Seconds(seconds)
  }

  /** A count of seconds splits into whole hours, whole minutes of the rest, and seconds. */
  lemma HoursAndMinutes(diff: int)
    requires diff > 0
    ensures diff == diff / 3600 * 3600 + (diff % 3600) / 60 * 60 + diff % 60
  {
    var r := diff % 3600;
    DivModUnique(diff, 60, 60 * (diff / 3600) + r / 60, r % 60);
  }

  /** Once the label reads "已结束" it does so at every later clock reading. */
  lemma EndedIsFinal(deadline: int, nowMs: int, laterMs: int)
    requires nowMs <= laterMs
    requires DetailCountdown(deadline, nowMs) == Ended
    ensures DetailCountdown(deadline, laterMs) == Ended
  {
  }

  /**
   * The page label and the card label of `calculateTimeRemaining` differ from
   * 25 hours on: the card switches to days, the page keeps counting hours,
   * with the same total.
   */
  lemma PageCountsHoursWhereCardCountsDays(deadline: int, nowMs: int)
    requires deadline - nowMs / 1000 >= 25 * 3600
    ensures var page, card := DetailCountdown(deadline, nowMs), CalculateTimeRemaining(deadline, nowMs).remaining;
      page.HoursMinutes? && card.DaysHours? && page.hours == card.days * 24 + card.hours
  {
    var page, card := DetailCountdown(deadline, nowMs), CalculateTimeRemaining(deadline, nowMs).remaining;
    var hours := (deadline - nowMs / 1000) / 3600;
    assert page.hours == hours;
    assert card == DaysHours(hours / 24, hours % 24);
  }

  /**
   * The countdown state of the page: the label (empty before the first tick)
   * and `isExpired`, which the interval only ever sets.
   */
  class CountdownState {
    var deadline: int
    var timeRemaining: Option<Countdown>
    var isExpired: bool

    /** An "已结束" label is never on screen without the expired flag. */
    ghost predicate Valid()
      reads this
    {
      timeRemaining == Some(Ended) ==> isExpired
    }

    constructor (deadline: int)
      ensures Valid()
      ensures this.deadline == deadline && timeRemaining.None? && !isExpired
    {
      this.deadline := deadline;
      timeRemaining := None;
      isExpired := false;
    }

    /** `updateTimeRemaining`: one tick of the interval at clock reading `nowMs`. */
    method Tick(nowMs: int)
      requires Valid()
      modifies this
      ensures Valid()
      ensures deadline == old(deadline)
      ensures timeRemaining == Some(DetailCountdown(deadline, nowMs))
      ensures isExpired <==> old(isExpired) || deadline - nowMs / 1000 <= 0
    {
      var now := nowMs / 1000;
      var diff := deadline - now;
      if diff <= 0 {
        timeRemaining := Some(Ended);
        isExpired := true;
        return;
      }
      var hours := diff / 3600;
      var minutes := (diff % 3600) / 60;
      var seconds := diff % 60;
      if hours > 0 {
        timeRemaining := Some(HoursMinutes(hours, minutes));
      } else if minutes > 0 {
        timeRemaining := Some(MinutesSeconds(minutes, seconds));
      } else {
        timeRemaining := Some(Seconds(seconds));
      }
    }

    /**
     * The effect re-runs when the record's deadline changes: a new interval
     * ticks at once, and an `isExpired` set for the earlier deadline stays set.
     */
    method Restart(newDeadline: int, nowMs: int)
      requires Valid()
      modifies this
      ensures Valid()
      ensures deadline == newDeadline
      ensures timeRemaining == Some(DetailCountdown(newDeadline, nowMs))
      ensures isExpired <==> old(isExpired) || newDeadline - nowMs / 1000 <= 0
    {
      deadline := newDeadline;
      Tick(nowMs);
    }
  }

  // ---------------------------------------------------------------------------
  // handleVote
  // ---------------------------------------------------------------------------

  /** Where a click on the submit button ends: one refusal per guard, or the cast. */
  datatype VoteClick =
    | ConnectFirst                          // 请先连接钱包
    | ChooseFirst                           // 请选择一个选项
    | AlreadyVoted                          // 您已经投过票了
    | VoteClosed                            // 投票已结束
    | CastUnavailable                       // 投票功能不可用，请检查钱包连接和网络
    | Cast(voteId: int, optionIndex: int)   // castVote(voteId, selectedOption)

  /**
   * `handleVote`: the wallet, a chosen option, not voted yet, not expired and a
   * cast function, checked in this order; the first that fails decides the refusal.
   */
  function HandleVote(isConnected: bool, selectedOption: int, hasVoted: bool, isExpired: bool,
                      castAvailable: bool, voteId: int): (click: VoteClick)
    ensures click.Cast? <==> isConnected && selectedOption != -1 && !hasVoted && !isExpired && castAvailable
    ensures click.Cast? ==> click.voteId == voteId && click.optionIndex == selectedOption
    ensures !isConnected ==> click == ConnectFirst
    ensures isConnected && selectedOption == -1 ==> click == ChooseFirst
    ensures isConnected && selectedOption != -1 && hasVoted ==> click == AlreadyVoted
    ensures isConnected && selectedOption != -1 && !hasVoted && isExpired ==> click == VoteClosed
    ensures click == CastUnavailable <==>
      isConnected && selectedOption != -1 && !hasVoted && !isExpired && !castAvailable
  {
    if !isConnected then ConnectFirst
    else if selectedOption == -1 then ChooseFirst
    else if hasVoted then AlreadyVoted
    else if isExpired then VoteClosed
    else if !castAvailable then CastUnavailable
    else Cast(voteId, selectedOption)
  }

  /** `disabled={selectedOption === -1 || isCasting}`. */
  function ButtonDisabled(selectedOption: int, isCasting: bool): (disabled: bool)
    ensures disabled <==> selectedOption == -1 || isCasting
  {
    selectedOption == -1 || isCasting
  }

  // ---------------------------------------------------------------------------
  // Screens and panels
  // ---------------------------------------------------------------------------

  datatype Panel = VotedPanel | ExpiredPanel | OptionsPanel

  /**
   * `RenderFails` is the page reading the fields of a null `voteData`: no guard
   * stands between a settled read without data and the content, so the render
   * throws instead of showing a screen.
   */
  datatype DetailScreen = ConnectPrompt | LoadingScreen | RenderFails | VoteScreen(panel: Panel)

  /**
   * The wallet prompt first, then the spinner while either read loads, then the
   * page built from `voteData`, whose panel is "voted" over "expired" over the
   * option list.
   */
  function Screen(isConnected: bool, loadingVoteInfo: bool, loadingHasVoted: bool,
                  voteData: Option<DetailView>, hasVoted: bool, isExpired: bool): (s: DetailScreen)
    ensures s == ConnectPrompt <==> !isConnected
    ensures s == LoadingScreen <==> isConnected && (loadingVoteInfo || loadingHasVoted)
    ensures s == RenderFails <==> isConnected && !loadingVoteInfo && !loadingHasVoted && voteData.None?
    ensures s == VoteScreen(VotedPanel) <==>
      isConnected && !loadingVoteInfo && !loadingHasVoted && voteData.Some? && hasVoted
    ensures s == VoteScreen(ExpiredPanel) <==>
      isConnected && !loadingVoteInfo && !loadingHasVoted && voteData.Some? && !hasVoted && isExpired
    ensures s == VoteScreen(OptionsPanel) <==>
      isConnected && !loadingVoteInfo && !loadingHasVoted && voteData.Some? && !hasVoted && !isExpired
  {
    if !isConnected then ConnectPrompt
    else if loadingVoteInfo || loadingHasVoted then LoadingScreen
    else if voteData.None? then RenderFails
    else if hasVoted then VoteScreen(VotedPanel)
    else if isExpired then VoteScreen(ExpiredPanel)
    else VoteScreen(OptionsPanel)
  }

  /**
   * A connected page whose record read settles without data (a failed read, an
   * id the contract does not know) fails to render, whatever the other reads say.
   */
  lemma SettledWithoutRecordFails(voteInfo: Option<seq<AbiValue>>, nowMs: int, hasVoted: bool, isExpired: bool)
    requires voteInfo.Some? ==> Matches(voteInfo.value, GetVoteInfoOutputs)
    ensures Screen(true, false, false, DetailViewOf(voteInfo, nowMs), hasVoted, isExpired) == RenderFails
      <==> voteInfo.None?
  {
  }

  /**
   * The button lives in the option panel, and an enabled button there passes
   * every guard but the last: with a cast function, the click casts the chosen option.
   */
  lemma EnabledButtonCasts(isConnected: bool, loadingVoteInfo: bool, loadingHasVoted: bool,
                           voteData: Option<DetailView>, hasVoted: bool, isExpired: bool,
                           selectedOption: int, isCasting: bool, castAvailable: bool, voteId: int)
    requires Screen(isConnected, loadingVoteInfo, loadingHasVoted, voteData, hasVoted, isExpired)
      == VoteScreen(OptionsPanel)
    requires !ButtonDisabled(selectedOption, isCasting)
    ensures HandleVote(isConnected, selectedOption, hasVoted, isExpired, castAvailable, voteId) ==
      if castAvailable then Cast(voteId, selectedOption) else CastUnavailable
  {
  }

  /**
   * Conversely, a click that casts comes from a page that, once loaded with its
   * record (the button only exists then), shows the option panel; with the
   * `hasVoted` read's default, only a read that says "true" blocks it.
   */
  lemma CastOnlyFromOptionsPanel(isConnected: bool, selectedOption: int, voteData: Option<DetailView>,
                                 hasVotedData: Option<bool>, isExpired: bool, castAvailable: bool, voteId: int)
    requires voteData.Some?
    requires HandleVote(isConnected, selectedOption, VoteDetail.HasVotedValue(hasVotedData), isExpired,
                        castAvailable, voteId).Cast?
    ensures Screen(isConnected, false, false, voteData, VoteDetail.HasVotedValue(hasVotedData), isExpired)
      == VoteScreen(OptionsPanel)
    ensures hasVotedData != Some(true)
  {
  }

  /**
   * The option the page can select is an index into the record's shown options
   * or -1; a cast then sends a choice that decodes to one of those indices.
   */
  lemma CastSendsAShownOption(voteData: DetailView, selectedOption: int, hasVoted: bool, isExpired: bool,
                              voteId: nat)
    requires -1 <= selectedOption < |voteData.options|
    requires HandleVote(true, selectedOption, hasVoted, isExpired, true, voteId).Cast?
    ensures 0 <= selectedOption < |voteData.options|
    ensures var args := VoteDetail.CastVoteArgs(voteId, selectedOption);
      args[0].n == voteId && VoteDetail.ParseHex(args[1].hex[2..]) == selectedOption
  {
  }

  /**
   * The expiry that blocks a click is the countdown's sticky flag, not the
   * decoded `isActive`: a vote whose contract flag is off but whose deadline is
   * ahead still passes the expiry guard.
   */
  lemma ExpiryGuardIgnoresContractFlag(values: seq<AbiValue>, nowMs: int)
    requires Matches(values, GetVoteInfoOutputs)
    requires !values[5].b && values[3].n > nowMs / 1000
    ensures !DetailViewOf(Some(values), nowMs).value.isActive
    ensures DetailCountdown(values[3].n, nowMs) != Ended
  {
  }
}
