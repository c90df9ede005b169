/**
 * The results index (frontend/src/pages/ResultsIndexPage.tsx): the ids of all
 * votes, newest first, the two overview counters over them, and one summary
 * card per id.
 */
module ResultsIndexPage {
  import opened Common
  import opened ContractAbi
  import opened VoteData

  /** `reverse()` of an id list. */
  function Reverse(s: seq<nat>): (r: seq<nat>)
    ensures |r| == |s|
    ensures forall i :: 0 <= i < |s| ==> r[i] == s[|s| - 1 - i]
  {
    if s == [] then [] else Reverse(s[1..]) + [s[0]]
  }

  /** Reversing keeps every id, each as often as before. */
  lemma {:induction false} ReversePermutes(s: seq<nat>)
    ensures multiset(Reverse(s)) == multiset(s)
  {
    if s != [] {
      ReversePermutes(s[1..]);
      assert s == [s[0]] + s[1..];
    }
  }

  /** `totalVotes ? Number(totalVotes) : 0`: an absent total reads as zero. */
  function TotalOf(totalVotes: Option<nat>): (total: nat)
    ensures totalVotes.None? ==> total == 0
    ensures totalVotes.Some? ==> total == totalVotes.value
  {
    if totalVotes.Some? then totalVotes.value else 0
  }

  /**
   * The id list the effect stores: `total - 1` down to `0` when the total is
   * positive, else empty.
   */
  function NewestFirst(totalVotes: Option<nat>): (ids: seq<nat>)
    ensures |ids| == TotalOf(totalVotes)
    ensures forall i :: 0 <= i < |ids| ==> ids[i] == TotalOf(totalVotes) - 1 - i
    ensures forall i, j :: 0 <= i < j < |ids| ==> ids[i] > ids[j]
  {
    var total := TotalOf(totalVotes);
    if total > 0 then Reverse(IdRange(total)) else []
  }

  /** The newest-first list holds exactly the ids `0 .. total - 1`, each once. */
  lemma NewestFirstPermutesIdRange(totalVotes: Option<nat>)
    ensures multiset(NewestFirst(totalVotes)) == multiset(IdRange(TotalOf(totalVotes)))
    ensures forall id :: id in NewestFirst(totalVotes) <==> 0 <= id < TotalOf(totalVotes)
  {
    var total := TotalOf(totalVotes);
    if total > 0 {
      ReversePermutes(IdRange(total));
    }
    var ids := NewestFirst(totalVotes);
    forall id | 0 <= id < total ensures id in ids {
      assert ids[total - 1 - id] == id;
    }
  }

  /** The "可查看结果" counter: `voteIds.filter(() => true).length`, always the list's length. */
  function ViewableCount(voteIds: seq<nat>): (n: nat)
    ensures n == |voteIds|
  {
    var viewable := (id: nat) => true;
    CountAllTrue(voteIds, viewable);
    Count(voteIds, viewable)
  }

  /** What `VoteResultCard` renders. */
  datatype ResultCardView =
    | CardSkeleton                      // animate-pulse placeholder
    | NoCard                            // null
    | ResultSummary(
        voteId: nat,
        title: string,
        description: string,
        optionCount: nat,
        totalVoters: nat,
        isExpired: bool,                // 已结束 / 进行中
        isRevealed: bool,               // 已解密 / 未解密
        deadlineMs: nat)                // the date shown is `new Date(deadline * 1000)`

  /**
   * `VoteResultCard`: a skeleton while loading, nothing without data (a read
   * error is not looked at), else the summary, expired once the deadline is
   * not after the current whole second.
   */
  function ResultCard(voteId: nat, isLoading: bool, voteInfo: Option<seq<AbiValue>>, nowMs: int): (v: ResultCardView)
    requires voteInfo.Some? ==> Matches(voteInfo.value, GetVoteInfoOutputs)
    ensures v == CardSkeleton <==> isLoading
    ensures v == NoCard <==> !isLoading && voteInfo.None?
    ensures v.ResultSummary? ==>
      var t := DecodeVoteInfo(voteInfo.value);
      && v.voteId == voteId && v.title == t.title && v.description == t.description
      && v.optionCount == |t.options| && v.totalVoters == t.totalVoters
      && (v.isExpired <==> t.deadline <= nowMs / 1000)
      && v.isRevealed == t.isRevealed
      && v.deadlineMs == t.deadline * 1000
  {
    if isLoading then CardSkeleton
    else if voteInfo.None? then NoCard
    else
      var t := DecodeVoteInfo(voteInfo.value);
      ResultSummary(voteId, t.title, t.description, |t.options|, t.totalVoters,
                    t.deadline <= nowMs / 1000, t.isRevealed, t.deadline * 1000)
  }

  /** The summary ignores the contract's `isActive` flag, like the list card. */
  lemma ResultCardIgnoresContractFlag(voteId: nat, t: VoteTuple, nowMs: int)
    ensures ResultCard(voteId, false, Some(EncodeVoteInfo(t.(isActive := true))), nowMs)
         == ResultCard(voteId, false, Some(EncodeVoteInfo(t.(isActive := false))), nowMs)
  {
    DecodeEncode(t.(isActive := true));
    DecodeEncode(t.(isActive := false));
  }
}
