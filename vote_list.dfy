/**
 * The on-chain vote list (frontend/src/components/VoteList.tsx): one item per
 * candidate id `0 .. totalVotes - 1`, each of which reads its record and
 * decides on its own whether to render. A record that is not there yet
 * always renders, as a card that shows its loading or failure state. A loaded
 * record renders when it passes the status filter and the search.
 */
module VoteList {
  import opened Common
  import opened VoteData
  import VoteStats

  /** The filter tabs: 'all' | 'active' | 'ended' | 'my-votes' | 'my-created'. */
  datatype VoteFilter = All | ActiveOnly | EndedOnly | MyVotes | MyCreated

  /**
   * `searchTerm === '' || title.toLowerCase().includes(term) ||
   * description.toLowerCase().includes(term)`, with the term lower-cased too.
   */
  function MatchesSearch(title: string, description: string, searchTerm: string): (m: bool)
    ensures searchTerm == [] ==> m
    ensures m <==> (searchTerm == []
                    || (exists i :: OccursAt(LowerStr(title), LowerStr(searchTerm), i))
                    || (exists i :: OccursAt(LowerStr(description), LowerStr(searchTerm), i)))
  {
    IncludesIffOccurs(LowerStr(title), LowerStr(searchTerm));
    IncludesIffOccurs(LowerStr(description), LowerStr(searchTerm));
    searchTerm == []
      || Includes(LowerStr(title), LowerStr(searchTerm))
      || Includes(LowerStr(description), LowerStr(searchTerm))
  }

  /** The `switch` on the filter that sets `shouldShow`; 'my-votes' shows everything. */
  function PassesFilter(filter: VoteFilter, isActive: bool, isEnded: bool, isCreatedByUser: bool): bool {
    match filter
    case All => true
    case ActiveOnly => isActive
    case EndedOnly => isEnded
    case MyCreated => isCreatedByUser
    case MyVotes => true
  }

  /** `VoteFilterItem`: whether the item for one read renders its card. */
  function ItemShown(r: Read<VoteTuple>, filter: VoteFilter, searchTerm: string,
                     address: Option<string>, nowMs: int): (shown: bool)
    ensures !Settled(r) ==> shown
    ensures Settled(r) ==>
      var t := r.data.value;
      (shown <==> MatchesSearch(t.title, t.description, searchTerm)
                  && PassesFilter(filter, IsLive(t.isActive, t.deadline, nowMs),
                                  !IsLive(t.isActive, t.deadline, nowMs),
                                  IsCreatedByUser(t.creator, address)))
  {
    if r.isLoading || r.error.Some? || r.data.None? then true
    else
      var t := r.data.value;
      var isActive := t.isActive && t.deadline > nowMs / 1000;
      var isEnded := !t.isActive || t.deadline <= nowMs / 1000;
      var isCreatedByUser := IsCreatedByUser(t.creator, address);
      var matchesSearch := MatchesSearch(t.title, t.description, searchTerm);
      PassesFilter(filter, isActive, isEnded, isCreatedByUser) && matchesSearch
  }

  /** The ids whose items render, in the order the list lays them out. */
  function ShownIds(totalVotes: int, readOf: nat -> Read<VoteTuple>, filter: VoteFilter, searchTerm: string,
                    address: Option<string>, nowMs: int): (ids: seq<nat>)
    ensures forall i :: 0 <= i < |ids| ==> ids[i] < totalVotes
    ensures forall i, j :: 0 <= i < j < |ids| ==> ids[i] < ids[j]
    ensures forall id :: 0 <= id < totalVotes ==>
      (id in ids <==> ItemShown(readOf(id), filter, searchTerm, address, nowMs))
  {
    var all: seq<nat> := IdRange(totalVotes);
    var keep: nat -> bool := (id: nat) => ItemShown(readOf(id), filter, searchTerm, address, nowMs);
    var ids: seq<nat> := Filter<nat>(all, keep);
    FilterIsSubsequence<nat>(all, keep);
    SubsequenceIsAscending(ids, all);
    forall i | 0 <= i < |ids| ensures ids[i] < totalVotes {
      assert ids[i] in all;
      var k :| 0 <= k < |all| && all[k] == ids[i];
    }
    forall id | 0 <= id < totalVotes && keep(id) ensures id in ids {
      assert all[id] == id;
    }
    ids
  }

  /** A subsequence of the ascending id range is ascending and inside the range. */
  lemma {:induction false} SubsequenceIsAscending(r: seq<nat>, s: seq<nat>)
    requires SubsequenceOf(r, s)
    requires forall i, j :: 0 <= i < j < |s| ==> s[i] < s[j]
    ensures forall x :: x in r ==> x in s
    ensures forall i, j :: 0 <= i < j < |r| ==> r[i] < r[j]
    decreases |s|
  {
    if r != [] && s != [] {
      if r[0] == s[0] && SubsequenceOf(r[1..], s[1..]) {
        SubsequenceIsAscending(r[1..], s[1..]);
        forall j | 0 < j < |r| ensures r[0] < r[j] {
          assert r[j] == r[1..][j - 1] && r[j] in r[1..];
          var k :| 0 <= k < |s[1..]| && s[1..][k] == r[j];
          assert s[0] < s[k + 1];
        }
        forall x | x in r ensures x in s {
          if x != r[0] { assert x in r[1..]; }
        }
      } else {
        SubsequenceIsAscending(r, s[1..]);
      }
    }
  }

  /**
   * 'active' and 'ended' split the loaded records that match the search: each
   * shows under exactly one of the two.
   */
  lemma ActiveEndedComplementary(r: Read<VoteTuple>, searchTerm: string, address: Option<string>, nowMs: int)
    requires Settled(r)
    requires MatchesSearch(r.data.value.title, r.data.value.description, searchTerm)
    ensures ItemShown(r, ActiveOnly, searchTerm, address, nowMs) != ItemShown(r, EndedOnly, searchTerm, address, nowMs)
  {
  }

  /** 'my-votes' is not implemented: it shows exactly what 'all' shows. */
  lemma MyVotesShowsAll(r: Read<VoteTuple>, searchTerm: string, address: Option<string>, nowMs: int)
    ensures ItemShown(r, MyVotes, searchTerm, address, nowMs) == ItemShown(r, All, searchTerm, address, nowMs)
  {
  }

  /** 'my-created' keeps a loaded record iff it is the connected address's, case aside. */
  lemma MyCreatedIsOwnership(r: Read<VoteTuple>, address: Option<string>, nowMs: int)
    requires Settled(r)
    ensures ItemShown(r, MyCreated, "", address, nowMs) <==>
      address.Some? && LowerStr(r.data.value.creator) == LowerStr(address.value)
  {
  }

  /**
   * The list and the statistics hook agree: with no search, the loaded records
   * the 'active' tab shows are as many as the statistics count as active.
   */
  lemma ActiveTabMatchesCounter(totalVotes: int, readOf: nat -> Read<VoteTuple>, address: Option<string>, nowMs: int)
    ensures VoteStats.UseVoteStats(totalVotes, readOf, address, nowMs).active ==
      Count(IdRange(totalVotes), (id: nat) => Settled(readOf(id)) && ItemShown(readOf(id), ActiveOnly, "", address, nowMs))
  {
    var ids := IdRange(totalVotes);
    var f := (id: nat) => VoteStats.VoteStatOf(readOf(id), address, nowMs);
    CountMap(ids, f, VoteStats.CountsActive,
             (id: nat) => Settled(readOf(id)) && ItemShown(readOf(id), ActiveOnly, "", address, nowMs));
  }
}
