/**
 * How the call sites that decide whether a vote is over relate to each other.
 * Some compare milliseconds (`deadline * 1000 - now`), some whole seconds
 * (`deadline - floor(now / 1000)`). Most treat a difference of zero as over;
 * `getVoteStatus` alone is strict. Some combine the clock with the contract's
 * `isActive` flag; others look at the clock only.
 */
module DeadlineAgreement {
  import opened Common
  import opened VoteData
  import Format
  import VoteUtils
  import VoteDetailPage
  import VoteStats
  import ResultsIndexPage

  /** A deadline in seconds is not after the current whole second iff its millisecond is not after now. */
  lemma {:induction false} SecondsAgreeWithMilliseconds(deadline: int, nowMs: int)
    ensures deadline <= nowMs / 1000 <==> deadline * 1000 <= nowMs
  {
    var q := nowMs / 1000;
    assert q * 1000 <= nowMs < q * 1000 + 1000;
    if deadline <= q {
      assert deadline * 1000 <= q * 1000;
    } else {
      assert deadline * 1000 >= (q + 1) * 1000;
    }
  }

  /** The sites that count milliseconds: the time badge and the countdown widget's stored total and label. */
  lemma MillisecondSitesAgree(deadline: int, nowMs: int)
    ensures var ended := deadline * 1000 <= nowMs;
      && (Format.GetTimeStatus(deadline, nowMs) == Format.Expired <==> ended)
      && (Format.CalculateTimeLeft(deadline, nowMs).total == 0 <==> ended)
      && (Format.FormatTimeLeft(deadline, nowMs) == Ended <==> ended)
  {
  }

  /** The sites that count whole seconds: the card status and the detail page's label. */
  lemma SecondSitesAgree(deadline: int, nowMs: int)
    ensures var ended := deadline * 1000 <= nowMs;
      && (CalculateTimeRemaining(deadline, nowMs).status == CardEnded <==> ended)
      && (VoteDetailPage.DetailCountdown(deadline, nowMs) == Ended <==> ended)
  {
    SecondsAgreeWithMilliseconds(deadline, nowMs);
  }

  /**
   * Every site that treats `diff <= 0` as over ends at the same instant,
   * whether it counts milliseconds or whole seconds: the time badge, the
   * countdown widget's stored total and label, the card status and the
   * detail page's label.
   */
  lemma EndedSitesAgree(deadline: int, nowMs: int)
    ensures var ended := deadline * 1000 <= nowMs;
      && (Format.GetTimeStatus(deadline, nowMs) == Format.Expired <==> ended)
      && (Format.CalculateTimeLeft(deadline, nowMs).total == 0 <==> ended)
      && (Format.FormatTimeLeft(deadline, nowMs) == Ended <==> ended)
      && (CalculateTimeRemaining(deadline, nowMs).status == CardEnded <==> ended)
      && (VoteDetailPage.DetailCountdown(deadline, nowMs) == Ended <==> ended)
  {
    MillisecondSitesAgree(deadline, nowMs);
    SecondSitesAgree(deadline, nowMs);
  }

  /** The summary card on the results index expires exactly when the time badge reads expired. */
  lemma ResultCardExpiresWithBadge(voteId: nat, t: VoteTuple, nowMs: int)
    ensures ResultsIndexPage.ResultCard(voteId, false, Some(EncodeVoteInfo(t)), nowMs).isExpired <==>
      Format.GetTimeStatus(t.deadline, nowMs) == Format.Expired
  {
    DecodeEncode(t);
    SecondsAgreeWithMilliseconds(t.deadline, nowMs);
  }

  /**
   * `getVoteStatus` is strict: for an unrevealed vote it agrees with every
   * other site except at the deadline millisecond itself, where it still
   * says active while the others already say ended.
   */
  lemma StrictStatusLagsByOneMillisecond(info: VoteUtils.VoteInfo, nowMs: int)
    requires !info.isRevealed
    ensures nowMs != info.deadline * 1000 ==>
      (VoteUtils.GetVoteStatus(info, false, nowMs) == VoteUtils.Expired <==>
       Format.GetTimeStatus(info.deadline, nowMs) == Format.Expired)
    ensures nowMs == info.deadline * 1000 ==>
      && VoteUtils.GetVoteStatus(info, false, nowMs) == VoteUtils.Active
      && Format.GetTimeStatus(info.deadline, nowMs) == Format.Expired
      && CalculateTimeRemaining(info.deadline, nowMs).status == CardEnded
  {
    EndedSitesAgree(info.deadline, nowMs);
  }

  /**
   * The sites that also read the contract flag narrow the clock's verdict:
   * a live vote is active on its card, and with the flag set the two agree.
   * With the flag cleared before the deadline, the card still offers the
   * vote while the list's tabs and the statistics call it over. (The detail
   * page derives the same flag into its record but never shows it: its badge
   * and its vote guard follow the clock alone.)
   */
  lemma FlagNarrowsCardStatus(contractIsActive: bool, deadline: int, nowMs: int)
    ensures IsLive(contractIsActive, deadline, nowMs) ==> CalculateTimeRemaining(deadline, nowMs).status == CardActive
    ensures contractIsActive ==>
      (IsLive(contractIsActive, deadline, nowMs) <==> CalculateTimeRemaining(deadline, nowMs).status == CardActive)
    ensures !contractIsActive && deadline > nowMs / 1000 ==>
      !IsLive(contractIsActive, deadline, nowMs) && CalculateTimeRemaining(deadline, nowMs).status == CardActive
  {
  }

  /** The detail page, the statistics hook and the list filter derive the same live flag from one record. */
  lemma LiveAgreesAcrossPages(t: VoteTuple, address: Option<string>, nowMs: int)
    ensures VoteDetailPage.DetailViewOf(Some(EncodeVoteInfo(t)), nowMs).value.isActive
      == IsLive(t.isActive, t.deadline, nowMs)
    ensures VoteStats.VoteStatOf(Read(false, None, Some(t)), address, nowMs).isActive
      == IsLive(t.isActive, t.deadline, nowMs)
  {
    DecodeEncode(t);
  }
}
