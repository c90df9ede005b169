/**
 * The mock vote list page (frontend/src/pages/VoteListPage.tsx): a fixed list
 * of four sample votes, filtered by the selected tab and the search box, and
 * one button per tab whose count is taken over the whole list.
 */
module VoteListPage {
  import opened Common
  import opened VoteList

  /** `status: 'active' | 'ended' | 'pending'`. */
  datatype ListStatus = StatusActive | StatusEnded | StatusPending

  /**
   * `VoteItem`. The two trailing fields are optional in the source; `None`
   * stands for a missing field, which the filters treat as false.
   */
  datatype VoteItem = VoteItem(
    id: nat,
    title: string,
    description: string,
    creator: string,
    status: ListStatus,
    timeRemaining: string,
    participants: nat,
    options: seq<string>,
    created: string,
    deadline: string,
    isCreatedByUser: Option<bool>,
    hasVoted: Option<bool>)

  /** JavaScript truthiness of an optional boolean field. */
  predicate Truthy(b: Option<bool>) {
    b == Some(true)
  }

  /** `mockVotes`. */
  const MockVotes: seq<VoteItem> := [
    VoteItem(1, "是否同意实施新的开发计划？", "该计划将引入新的技术栈和开发流程，预计需要6个月的过渡期。",
             "0x1234...5678", StatusActive, "23小时12分钟", 45,
             ["完全同意", "部分同意", "需要更多信息", "不同意"], "2025-09-08", "2025-09-09",
             Some(false), Some(false)),
    VoteItem(2, "团队工作模式投票", "决定下一阶段的工作模式，混合办公还是完全远程。",
             "0xabcd...efgh", StatusEnded, "已结束", 78,
             ["完全远程", "混合办公", "回到办公室", "弹性安排"], "2025-09-07", "2025-09-08",
             Some(false), Some(true)),
    VoteItem(3, "年会活动方案选择", "选择今年的年会活动形式和主题，让大家共同参与决定。",
             "您的地址", StatusActive, "5天14小时", 23,
             ["户外团建", "室内聚餐", "线上活动", "推迟举办"], "2025-09-08", "2025-09-13",
             Some(true), Some(false)),
    VoteItem(4, "技术栈升级决策", "讨论是否升级到最新的技术栈版本，包括框架和依赖库的更新。",
             "0x9999...1111", StatusActive, "2天8小时", 12,
             ["立即升级", "分阶段升级", "暂缓升级", "需要更多调研"], "2025-09-08", "2025-09-10",
             Some(false), Some(false))
  ]

  /** The tab a vote belongs to, as the button counts select it. */
  predicate InTab(vote: VoteItem, filter: VoteFilter) {
    match filter
    case All => true
    case ActiveOnly => vote.status == StatusActive
    case EndedOnly => vote.status == StatusEnded
    case MyVotes => Truthy(vote.hasVoted)
    case MyCreated => Truthy(vote.isCreatedByUser)
  }

  /**
   * The `filteredVotes` predicate: the search test first, then the early
   * returns per tab, with 'all' falling through to the search alone. It keeps
   * a vote exactly when the vote is in the tab the button counts and matches
   * the search.
   */
  function KeepVote(vote: VoteItem, filter: VoteFilter, searchTerm: string): (keep: bool)
    ensures keep <==> InTab(vote, filter) && MatchesSearch(vote.title, vote.description, searchTerm)
    ensures searchTerm == [] ==> (keep <==> InTab(vote, filter))
  {
    var matchesSearch := MatchesSearch(vote.title, vote.description, searchTerm);
    if filter == ActiveOnly then vote.status == StatusActive && matchesSearch
    else if filter == EndedOnly then vote.status == StatusEnded && matchesSearch
    else if filter == MyVotes then Truthy(vote.hasVoted) && matchesSearch
    else if filter == MyCreated then Truthy(vote.isCreatedByUser) && matchesSearch
    else matchesSearch
  }

  /** `mockVotes.filter(...)`: the kept votes, in the list's order. */
  function FilteredVotes(votes: seq<VoteItem>, filter: VoteFilter, searchTerm: string): (shown: seq<VoteItem>)
    ensures SubsequenceOf(shown, votes)
    ensures forall v :: v in shown ==> v in votes && KeepVote(v, filter, searchTerm)
    ensures forall i :: 0 <= i < |votes| && KeepVote(votes[i], filter, searchTerm) ==> votes[i] in shown
  {
    var keep := (v: VoteItem) => KeepVote(v, filter, searchTerm);
    FilterIsSubsequence(votes, keep);
    Filter(votes, keep)
  }

  /** The count on a tab's button: `mockVotes.length` or `mockVotes.filter(...).length`. */
  function ButtonCount(votes: seq<VoteItem>, filter: VoteFilter): (n: nat)
    ensures n <= |votes|
  {
    match filter
    case All => |votes|
    case ActiveOnly => Count(votes, (v: VoteItem) => v.status == StatusActive)
    case EndedOnly => Count(votes, (v: VoteItem) => v.status == StatusEnded)
    case MyVotes => Count(votes, (v: VoteItem) => Truthy(v.hasVoted))
    case MyCreated => Count(votes, (v: VoteItem) => Truthy(v.isCreatedByUser))
  }

  /** A button's count is the length of its tab's list with an empty search box. */
  lemma ButtonCountIsUnsearchedLength(votes: seq<VoteItem>, filter: VoteFilter)
    ensures ButtonCount(votes, filter) == |FilteredVotes(votes, filter, "")|
  {
    var keep := (v: VoteItem) => KeepVote(v, filter, "");
    FilterLength(votes, keep);
    match filter
    case All => CountAllTrue(votes, keep);
    case ActiveOnly => CountSame(votes, (v: VoteItem) => v.status == StatusActive, keep);
    case EndedOnly => CountSame(votes, (v: VoteItem) => v.status == StatusEnded, keep);
    case MyVotes => CountSame(votes, (v: VoteItem) => Truthy(v.hasVoted), keep);
    case MyCreated => CountSame(votes, (v: VoteItem) => Truthy(v.isCreatedByUser), keep);
  }

  /** The counts ignore the search box: typing a term can only shorten the list below the count. */
  lemma SearchNeverExceedsButtonCount(votes: seq<VoteItem>, filter: VoteFilter, searchTerm: string)
    ensures |FilteredVotes(votes, filter, searchTerm)| <= ButtonCount(votes, filter)
  {
    FilterLength(votes, (v: VoteItem) => KeepVote(v, filter, searchTerm));
    CountMonotone(votes, (v: VoteItem) => KeepVote(v, filter, searchTerm), (v: VoteItem) => KeepVote(v, filter, ""));
    FilterLength(votes, (v: VoteItem) => KeepVote(v, filter, ""));
    ButtonCountIsUnsearchedLength(votes, filter);
  }

  /** The buttons over the sample data read 全部 (4), 进行中 (3), 已结束 (1), 我的投票 (1), 我创建的 (1). */
  lemma MockButtonCounts()
    ensures ButtonCount(MockVotes, All) == 4
    ensures ButtonCount(MockVotes, ActiveOnly) == 3
    ensures ButtonCount(MockVotes, EndedOnly) == 1
    ensures ButtonCount(MockVotes, MyVotes) == 1
    ensures ButtonCount(MockVotes, MyCreated) == 1
  {
    var tail1, tail2, tail3 := MockVotes[1..], MockVotes[2..], MockVotes[3..];
    assert tail1[1..] == tail2 && tail2[1..] == tail3 && tail3[1..] == [];
  }
}
