/**
 * The vote record as the pages receive it (frontend/src/hooks/useVoteData.ts):
 * the `getVoteInfo` result tuple and its positional decoding, the state of a
 * contract read, the creator abbreviation the pages inline, and
 * `calculateTimeRemaining`, the card countdown.
 */
module VoteData {
  import opened Common
  import opened ContractAbi
  import Format

  // ---------------------------------------------------------------------------
  // The getVoteInfo tuple
  // ---------------------------------------------------------------------------

  datatype VoteTuple = VoteTuple(
    title: string,
    description: string,
    options: seq<string>,
    deadline: nat,
    totalVoters: nat,
    isActive: bool,
    isRevealed: bool,
    creator: string)

  function EncodeVoteInfo(t: VoteTuple): (values: seq<AbiValue>)
    ensures Matches(values, GetVoteInfoOutputs)
  {
    [ StringValue(t.title), StringValue(t.description), StringArrayValue(t.options),
      UintValue(t.deadline), UintValue(t.totalVoters), BoolValue(t.isActive),
      BoolValue(t.isRevealed), AddressValue(t.creator) ]
  }

  /**
   * `const [title, description, options, deadline, totalVoters, contractIsActive,
   * isRevealed, creator] = voteInfo`: the destructuring every page repeats.
   */
  function DecodeVoteInfo(values: seq<AbiValue>): VoteTuple
    requires Matches(values, GetVoteInfoOutputs)
  {
    VoteTuple(values[0].text, values[1].text, values[2].texts, values[3].n,
              values[4].n, values[5].b, values[6].b, values[7].address)
  }

  /** The destructuring reads back every field in the order `getVoteInfo` returns them. */
  lemma DecodeEncode(t: VoteTuple)
    ensures DecodeVoteInfo(EncodeVoteInfo(t)) == t
  {
  }

  lemma EncodeDecode(values: seq<AbiValue>)
    requires Matches(values, GetVoteInfoOutputs)
    ensures EncodeVoteInfo(DecodeVoteInfo(values)) == values
  {
    var e := EncodeVoteInfo(DecodeVoteInfo(values));
    forall i | 0 <= i < 8 ensures e[i] == values[i] {
      assert TypeOf(values[i]) == GetVoteInfoOutputs[i];
    }
  }

  /**
   * The public `votes` getter has the creator third and no options: its result
   * cannot be read with the `getVoteInfo` positions.
   */
  lemma VotesGetterIsNotGetVoteInfo(values: seq<AbiValue>)
    requires Matches(values, VotesGetterOutputs)
    ensures !Matches(values, GetVoteInfoOutputs)
    ensures |values| > 2 && TypeOf(values[2]) != GetVoteInfoOutputs[2]
  {
  }

  // ---------------------------------------------------------------------------
  // Contract reads
  // ---------------------------------------------------------------------------

  /** What `useContractRead` hands back: the loading flag, an error, the data. */
  datatype Read<T> = Read(isLoading: bool, error: Option<string>, data: Option<T>)

  /** `!(isLoading || error || !data)`: the guard every consumer of a read applies first. */
  predicate Settled<T>(r: Read<T>) {
    !r.isLoading && r.error.None? && r.data.Some?
  }

  /** `useVoteInfo(voteId)` queries only for a non-negative id. */
  function VoteInfoEnabled(voteId: int): (enabled: bool)
    ensures enabled <==> voteId >= 0
  {
    voteId >= 0
  }

  // ---------------------------------------------------------------------------
  // The inline creator abbreviation
  // ---------------------------------------------------------------------------

  /** `creator.slice(0, 6) + '...' + creator.slice(-4)`, as written inline on three pages. */
  function ShortCreator(creator: string): (r: string)
    ensures |creator| >= 10 ==> |r| == 13 && r[..6] == creator[..6] && r[9..] == creator[|creator| - 4..]
    ensures |creator| <= 4 ==> r == creator + "..." + creator
  {
    Take(creator, 6) + "..." + SliceFromEnd(creator, 4)
  }

  /**
   * The inline abbreviation and `formatAddress` agree on strings longer than ten
   * characters (every address); on shorter ones `formatAddress` leaves the string
   * alone while the inline form still inserts "...".
   */
  lemma ShortCreatorVersusFormatAddress(creator: string)
    ensures |creator| > 10 ==> ShortCreator(creator) == Format.FormatAddress(creator, 6, 4)
    ensures |creator| <= 10 ==> ShortCreator(creator) != Format.FormatAddress(creator, 6, 4)
  {
    if |creator| <= 10 {
      assert |ShortCreator(creator)| > |creator|;
    }
  }

  // ---------------------------------------------------------------------------
  // Flags the list, the statistics and the pages derive inline from a record
  // ---------------------------------------------------------------------------

  /**
   * `contractIsActive && deadline > Math.floor(Date.now() / 1000)`, and its
   * complement `!contractIsActive || deadline <= now`.
   */
  function IsLive(contractIsActive: bool, deadline: int, nowMs: int): (live: bool)
    ensures live <==> contractIsActive && deadline > nowMs / 1000
    ensures !live <==> !contractIsActive || deadline <= nowMs / 1000
  {
    contractIsActive && deadline > nowMs / 1000
  }

  /**
   * `creator.toLowerCase() === address?.toLowerCase()`: with no connected
   * address the right side is `undefined` and the test fails.
   */
  function IsCreatedByUser(creator: string, address: Option<string>): (mine: bool)
    ensures address.None? ==> !mine
    ensures address.Some? ==> (mine <==> SameIgnoringCase(creator, address.value))
  {
    address.Some? && LowerStr(creator) == LowerStr(address.value)
  }

  /** The test is blind to case on both sides: a checksummed address matches its lower-case form. */
  lemma CreatedByUserIgnoresCase(creator: string, address: string)
    ensures IsCreatedByUser(creator, Some(address)) == IsCreatedByUser(LowerStr(creator), Some(address))
    ensures IsCreatedByUser(creator, Some(address)) == IsCreatedByUser(creator, Some(LowerStr(address)))
  {
    LowerStrIdempotent(creator);
    LowerStrIdempotent(address);
  }

  // ---------------------------------------------------------------------------
  // calculateTimeRemaining
  // ---------------------------------------------------------------------------

  datatype CardStatus = CardActive | CardEnded

  datatype TimeRemaining = TimeRemaining(remaining: Countdown, status: CardStatus)

  /**
   * The card countdown, in whole seconds against `floor(nowMs / 1000)`: days
   * appear only above 24 whole hours, so exactly one day still reads as hours.
   */
  function CalculateTimeRemaining(deadline: int, nowMs: int): (r: TimeRemaining)
    ensures r.status == CardEnded <==> deadline - nowMs / 1000 <= 0
    ensures r.status == CardEnded <==> r.remaining == Ended
    ensures r.remaining.DaysHours? <==> deadline - nowMs / 1000 >= 25 * 3600
    ensures r.remaining.HoursMinutes? <==> 3600 <= deadline - nowMs / 1000 < 25 * 3600
    ensures r.remaining.Minutes? <==> 0 < deadline - nowMs / 1000 < 3600
    ensures r.remaining.DaysHours? ==>
      r.remaining.hours < 24
      && (r.remaining.days * 24 + r.remaining.hours) * 3600 <= deadline - nowMs / 1000
      && deadline - nowMs / 1000 < (r.remaining.days * 24 + r.remaining.hours + 1) * 3600
    ensures r.remaining.HoursMinutes? ==>
      r.remaining.minutes < 60
      && r.remaining.hours * 3600 + r.remaining.minutes * 60 <= deadline - nowMs / 1000
      && deadline - nowMs / 1000 < r.remaining.hours * 3600 + (r.remaining.minutes + 1) * 60
    ensures r.remaining.Minutes? ==>
      r.remaining.minutes * 60 <= deadline - nowMs / 1000 < (r.remaining.minutes + 1) * 60
  {
    var now := nowMs / 1000;
    var diff := deadline - now;
    if diff <= 0 then TimeRemaining(Ended, CardEnded)
    else
      var hours := diff / 3600;
      var minutes := (diff % 3600) / 60;
      if hours > 24 then TimeRemaining(DaysHours(hours / 24, hours % 24), CardActive)
      else if hours > 0 then TimeRemaining(HoursMinutes(hours, minutes), CardActive)
      else TimeRemaining(Minutes(minutes), CardActive)
  }

  /** Exactly one day left reads "24小时0分钟", not "1天0小时". */
  lemma OneDayReadsAsHours(deadline: int, nowMs: int)
    requires deadline - nowMs / 1000 == 24 * 3600
    ensures CalculateTimeRemaining(deadline, nowMs).remaining == HoursMinutes(24, 0)
  {
  }

  /** Under a minute left reads "0分钟" while the status stays active. */
  lemma LastMinuteReadsZero(deadline: int, nowMs: int)
    requires 0 < deadline - nowMs / 1000 < 60
    ensures CalculateTimeRemaining(deadline, nowMs) == TimeRemaining(Minutes(0), CardActive)
  {
  }
}
