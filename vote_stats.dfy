/**
 * The statistics hook (frontend/src/hooks/useVoteStats.ts): one `getVoteInfo`
 * read per candidate id, reduced to per-record flags, and the category
 * counters over them. A record that is loading, failed or empty sets no flag;
 * `hasVoted` is never set.
 */
module VoteStats {
  import opened Common
  import opened VoteData

  /** What `useVoteStat` returns for one id. */
  datatype VoteStat = VoteStat(
    isLoading: bool,
    hasError: bool,
    isActive: bool,
    isEnded: bool,
    isCreatedByUser: bool,
    hasVoted: bool)

  /**
   * `useVoteStat`: the read's own loading and error state with every flag off
   * until the record is there; then the live/ended split of the record against
   * the clock, and the ownership test.
   */
  function VoteStatOf(r: Read<VoteTuple>, address: Option<string>, nowMs: int): (s: VoteStat)
    ensures !Settled(r) ==> s == VoteStat(r.isLoading, r.error.Some?, false, false, false, false)
    ensures Settled(r) ==>
      && !s.isLoading && !s.hasError && !s.hasVoted
      && (s.isActive <==> r.data.value.isActive && r.data.value.deadline > nowMs / 1000)
      && s.isEnded == !s.isActive
      && s.isCreatedByUser == IsCreatedByUser(r.data.value.creator, address)
  {
    if r.isLoading || r.error.Some? || r.data.None? then
      VoteStat(r.isLoading, r.error.Some?, false, false, false, false)
    else
      var t := r.data.value;
      var isActive := IsLive(t.isActive, t.deadline, nowMs);
      VoteStat(false, false, isActive, !isActive, IsCreatedByUser(t.creator, address), false)
  }

  /** `!stat.isLoading && !stat.error`: the records the counters look at. */
  predicate Counted(s: VoteStat) {
    !s.isLoading && !s.hasError
  }

  predicate CountsActive(s: VoteStat) { Counted(s) && s.isActive }
  predicate CountsEnded(s: VoteStat) { Counted(s) && s.isEnded }
  predicate CountsMyCreated(s: VoteStat) { Counted(s) && s.isCreatedByUser }
  predicate CountsMyVoted(s: VoteStat) { Counted(s) && s.hasVoted }
  predicate StillLoading(s: VoteStat) { s.isLoading }

  /** What `useVoteStats` returns. */
  datatype Summary = Summary(total: int, active: nat, ended: nat, myCreated: nat, myVoted: nat, isLoading: bool)

  /** The per-id flags, one per candidate id `0 .. totalVotes - 1`; `readOf` is the read for an id. */
  function Stats(totalVotes: int, readOf: nat -> Read<VoteTuple>, address: Option<string>, nowMs: int): (stats: seq<VoteStat>)
    ensures |stats| == |IdRange(totalVotes)|
    ensures forall i :: 0 <= i < |stats| ==> stats[i] == VoteStatOf(readOf(i), address, nowMs)
  {
    Map(IdRange(totalVotes), (id: nat) => VoteStatOf(readOf(id), address, nowMs))
  }

  /** `useVoteStats(totalVotes)`. */
  function UseVoteStats(totalVotes: int, readOf: nat -> Read<VoteTuple>, address: Option<string>, nowMs: int): (r: Summary)
    ensures r.total == totalVotes
    ensures r.myVoted == 0
    ensures r.active + r.ended <= |IdRange(totalVotes)|
    ensures r.isLoading <==> exists id :: 0 <= id < totalVotes && readOf(id).isLoading
    ensures r.active == Count(IdRange(totalVotes), (id: nat) =>
      Settled(readOf(id)) && IsLive(readOf(id).data.value.isActive, readOf(id).data.value.deadline, nowMs))
    ensures r.ended == Count(IdRange(totalVotes), (id: nat) =>
      Settled(readOf(id)) && !IsLive(readOf(id).data.value.isActive, readOf(id).data.value.deadline, nowMs))
    ensures r.myCreated == Count(IdRange(totalVotes), (id: nat) =>
      Settled(readOf(id)) && IsCreatedByUser(readOf(id).data.value.creator, address))
  {
    var stats := Stats(totalVotes, readOf, address, nowMs);
    var summary := Summary(
      totalVotes,
      Count(stats, CountsActive),
      Count(stats, CountsEnded),
      Count(stats, CountsMyCreated),
      Count(stats, CountsMyVoted),
      Count(stats, StillLoading) > 0);
    CountNoneTrue(stats, CountsMyVoted);
    CountPartition(stats, CountsActive, CountsEnded, (s: VoteStat) => CountsActive(s) || CountsEnded(s));
    CountPositiveIffExists(stats, StillLoading);
    CountersCountRecords(totalVotes, readOf, address, nowMs);
    assert summary.isLoading ==> exists id :: 0 <= id < totalVotes && readOf(id).isLoading by {
      if summary.isLoading {
        var i :| 0 <= i < |stats| && StillLoading(stats[i]);
        assert readOf(i).isLoading;
      }
    }
    assert (exists id :: 0 <= id < totalVotes && readOf(id).isLoading) ==> summary.isLoading by {
      if exists id :: 0 <= id < totalVotes && readOf(id).isLoading {
        var id :| 0 <= id < totalVotes && readOf(id).isLoading;
        assert StillLoading(stats[id]);
      }
    }
    summary
  }

  /**
   * Every loaded record is counted exactly once as active or ended, so the two
   * counters add up to the number of loaded reads; loading, failed and empty
   * reads count in neither.
   */
  lemma ActivePlusEndedIsLoaded(totalVotes: int, readOf: nat -> Read<VoteTuple>, address: Option<string>, nowMs: int)
    ensures var r := UseVoteStats(totalVotes, readOf, address, nowMs);
      r.active + r.ended == Count(IdRange(totalVotes), (id: nat) => Settled(readOf(id)))
  {
    var ids := IdRange(totalVotes);
    var f := (id: nat) => VoteStatOf(readOf(id), address, nowMs);
    var stats := Stats(totalVotes, readOf, address, nowMs);
    var both := (s: VoteStat) => CountsActive(s) || CountsEnded(s);
    CountPartition(stats, CountsActive, CountsEnded, both);
    CountMap(ids, f, both, (id: nat) => Settled(readOf(id)));
  }

  /**
   * Each counter counts the loaded records with its property: live, not live,
   * and created by the connected address.
   */
  lemma CountersCountRecords(totalVotes: int, readOf: nat -> Read<VoteTuple>, address: Option<string>, nowMs: int)
    ensures var stats := Stats(totalVotes, readOf, address, nowMs);
      && Count(stats, CountsActive) == Count(IdRange(totalVotes), (id: nat) =>
           Settled(readOf(id)) && IsLive(readOf(id).data.value.isActive, readOf(id).data.value.deadline, nowMs))
      && Count(stats, CountsEnded) == Count(IdRange(totalVotes), (id: nat) =>
           Settled(readOf(id)) && !IsLive(readOf(id).data.value.isActive, readOf(id).data.value.deadline, nowMs))
      && Count(stats, CountsMyCreated) == Count(IdRange(totalVotes), (id: nat) =>
           Settled(readOf(id)) && IsCreatedByUser(readOf(id).data.value.creator, address))
  {
    var ids := IdRange(totalVotes);
    var f := (id: nat) => VoteStatOf(readOf(id), address, nowMs);
    CountMap(ids, f, CountsActive, (id: nat) =>
      Settled(readOf(id)) && IsLive(readOf(id).data.value.isActive, readOf(id).data.value.deadline, nowMs));
    CountMap(ids, f, CountsEnded, (id: nat) =>
      Settled(readOf(id)) && !IsLive(readOf(id).data.value.isActive, readOf(id).data.value.deadline, nowMs));
    CountMap(ids, f, CountsMyCreated, (id: nat) =>
      Settled(readOf(id)) && IsCreatedByUser(readOf(id).data.value.creator, address));
  }

  /** A record that is still loading or failed moves no counter but the loading flag. */
  lemma UnsettledCountsNowhere(r: Read<VoteTuple>, address: Option<string>, nowMs: int)
    requires r.isLoading || r.error.Some?
    ensures var s := VoteStatOf(r, address, nowMs);
      !CountsActive(s) && !CountsEnded(s) && !CountsMyCreated(s) && !CountsMyVoted(s)
      && (StillLoading(s) <==> r.isLoading)
  {
  }
}
