/**
 * The list card (frontend/src/components/VoteCard.tsx): a skeleton while the
 * record loads, a failure card without it, and otherwise the card whose status
 * and remaining time come from `calculateTimeRemaining` alone, with the
 * ownership badge, a preview of at most three options, and the links.
 */
module VoteCard {
  import opened Common
  import opened ContractAbi
  import opened VoteData

  datatype CardView =
    | Skeleton                                    // animate-pulse placeholder
    | LoadFailed(voteId: int, message: Option<string>)   // 投票 #{voteId} 加载失败
    | Card(
        title: string,
        description: string,
        status: CardStatus,
        remaining: Countdown,
        isCreatedByUser: bool,
        preview: seq<string>,
        more: Option<nat>,                        // +{n} 更多
        totalVoters: nat,
        creator: string,
        participateLink: bool)                    // the results link is always present

  /** The card for one `getVoteInfo` read. */
  function VoteCardView(voteId: int, r: Read<seq<AbiValue>>, address: Option<string>, nowMs: int): (v: CardView)
    requires r.data.Some? ==> Matches(r.data.value, GetVoteInfoOutputs)
    ensures v == Skeleton <==> r.isLoading
    ensures v.LoadFailed? <==> !r.isLoading && (r.error.Some? || r.data.None?)
    ensures v.LoadFailed? ==> v.voteId == voteId && v.message == r.error
    ensures v.Card? <==> Settled(r)
    ensures v.Card? ==>
      var t := DecodeVoteInfo(r.data.value);
      var left := CalculateTimeRemaining(t.deadline, nowMs);
      && v.title == t.title && v.description == t.description
      && v.status == left.status && v.remaining == left.remaining
      && v.isCreatedByUser == IsCreatedByUser(t.creator, address)
      && |v.preview| == (if |t.options| < 3 then |t.options| else 3)
      && v.preview == t.options[..|v.preview|]
      && (v.more.Some? <==> |t.options| > 3)
      && (v.more.Some? ==> v.more.value == |t.options| - 3)
      && v.totalVoters == t.totalVoters
      && v.creator == ShortCreator(t.creator)
      && (v.participateLink <==> left.status == CardActive)
  {
    if r.isLoading then Skeleton
    else if r.error.Some? || r.data.None? then LoadFailed(voteId, r.error)
    else
      var t := DecodeVoteInfo(r.data.value);
      var left := CalculateTimeRemaining(t.deadline, nowMs);
      Card(t.title, t.description, left.status, left.remaining,
           IsCreatedByUser(t.creator, address),
           Take(t.options, 3),
           if |t.options| > 3 then Some(|t.options| - 3) else None,
           t.totalVoters, ShortCreator(t.creator),
           left.status == CardActive)
  }

  /**
   * The card ignores the contract's `isActive` flag: two records that differ
   * only in it render the same card, so a vote the contract closed early still
   * offers the participate link until its deadline.
   */
  lemma CardIgnoresContractFlag(voteId: int, t: VoteTuple, address: Option<string>, nowMs: int)
    ensures
      var open := Read(false, None, Some(EncodeVoteInfo(t.(isActive := true))));
      var closed := Read(false, None, Some(EncodeVoteInfo(t.(isActive := false))));
      VoteCardView(voteId, open, address, nowMs) == VoteCardView(voteId, closed, address, nowMs)
  {
    DecodeEncode(t.(isActive := true));
    DecodeEncode(t.(isActive := false));
  }

  /** The participate link is offered exactly while the deadline, in whole seconds, is ahead. */
  lemma ParticipateWhileDeadlineAhead(voteId: int, t: VoteTuple, address: Option<string>, nowMs: int)
    ensures VoteCardView(voteId, Read(false, None, Some(EncodeVoteInfo(t))), address, nowMs).participateLink
      <==> t.deadline > nowMs / 1000
  {
    DecodeEncode(t);
  }

  /** Together, the preview and the "+N" badge account for every option exactly once. */
  lemma PreviewAccountsForAllOptions(voteId: int, r: Read<seq<AbiValue>>, address: Option<string>, nowMs: int)
    requires r.data.Some? ==> Matches(r.data.value, GetVoteInfoOutputs)
    requires Settled(r)
    ensures var v := VoteCardView(voteId, r, address, nowMs);
      |v.preview| + (if v.more.Some? then v.more.value else 0) == |DecodeVoteInfo(r.data.value).options|
  {
  }
}
