/**
 * The results page (frontend/src/pages/ResultsPage.tsx): the route id, the
 * decoded vote, one row per option with its count, rounded percentage and
 * colour, the `reduce` that picks the winning row, and the in-place sort of
 * the rows by votes for the detailed list.
 */
module ResultsPage {
  import opened Common
  import opened ContractAbi
  import opened VoteData
  import VoteUtils

  // ---------------------------------------------------------------------------
  // The route id
  // ---------------------------------------------------------------------------

  predicate IsAsciiLetter(c: char) {
    'a' <= c <= 'z' || 'A' <= c <= 'Z'
  }

  /** The route parameters whose reading is modelled: absent, decimal digits, or a word. */
  predicate ModelledRouteId(id: Option<string>) {
    id.None? || (id.value != [] && (AllDigits(id.value) || IsAsciiLetter(id.value[0])))
  }

  /**
   * `Number.isFinite(Number(id)) ? parseInt(id, 10) : 0`: a missing parameter
   * and a word (which `Number` reads as `NaN` or `Infinity`) both give vote 0.
   */
  function ParseVoteId(id: Option<string>): (voteId: int)
    requires ModelledRouteId(id)
    ensures id.None? ==> voteId == 0
    ensures id.Some? && AllDigits(id.value) ==> voteId == ParseDecimal(id.value)
    ensures id.Some? && IsAsciiLetter(id.value[0]) ==> voteId == 0
  {
    if id.None? then 0
    else if AllDigits(id.value) then ParseDecimal(id.value)
    else 0
  }

  /** A link built as `/results/${id}` brings the page back to vote `id`. */
  lemma RouteRoundTrip(n: nat)
    ensures ModelledRouteId(Some(NatToString(n)))
    ensures ParseVoteId(Some(NatToString(n))) == n
  {
    ParseRendered(n);
  }

  // ---------------------------------------------------------------------------
  // voteData
  // ---------------------------------------------------------------------------

  datatype ResultsView = ResultsView(
    title: string,
    description: string,
    options: seq<string>,
    creator: string,
    deadline: nat,
    totalVotes: nat,
    isActive: bool,
    isRevealed: bool,
    endTime: nat)

  /** The `voteData` memo: nothing without a record, otherwise the positional fields. */
  function ResultsViewOf(voteInfo: Option<seq<AbiValue>>): (v: Option<ResultsView>)
    requires voteInfo.Some? ==> Matches(voteInfo.value, GetVoteInfoOutputs)
  {
    if voteInfo.None? then None
    else
      var t := DecodeVoteInfo(voteInfo.value);
      Some(ResultsView(t.title, t.description, t.options, ShortCreator(t.creator),
                       t.deadline, t.totalVoters, t.isActive, t.isRevealed, t.deadline * 1000))
  }

  /**
   * Reading what the contract returned for a vote gives back that vote's
   * fields, the deadline turned into milliseconds and the creator shortened.
   */
  lemma ResultsViewOfRecord(t: VoteTuple)
    ensures ResultsViewOf(Some(EncodeVoteInfo(t))).Some?
    ensures var v := ResultsViewOf(Some(EncodeVoteInfo(t))).value;
      && v.title == t.title && v.description == t.description && v.options == t.options
      && v.deadline == t.deadline && v.endTime == 1000 * t.deadline
      && v.totalVotes == t.totalVoters && v.isActive == t.isActive && v.isRevealed == t.isRevealed
      && (|t.creator| >= 10 ==> |v.creator| == 13)
  {
    DecodeEncode(t);
  }

  // ---------------------------------------------------------------------------
  // voteResults
  // ---------------------------------------------------------------------------

  datatype ResultRow = ResultRow(option: string, votes: nat, percentage: nat, color: string)

  const ResultPalette: seq<string> :=
    ["#10B981", "#3B82F6", "#F59E0B", "#EF4444", "#8B5CF6", "#F97316"]

  function RowVotes(r: ResultRow): int {
    r.votes
  }

  /** `Math.round(votes / total * 100)`, in whole numbers. */
  function RoundPercent(votes: nat, total: nat): nat
    requires total > 0
  {
    (200 * votes + total) / (2 * total)
  }

  /** The rounded percentage is the whole number nearest to the share, halves rounded up. */
  lemma RoundPercentNearest(votes: nat, total: nat)
    requires total > 0
    ensures var p := RoundPercent(votes, total);
      2 * total * p <= 200 * votes + total < 2 * total * p + 2 * total
  {
  }

  /** The rounded percentage is within half a point of the exact share. */
  lemma PercentWithinHalf(votes: nat, total: nat)
    requires total > 0
    ensures var p := RoundPercent(votes, total) as real;
      p - 0.5 <= votes as real * 100.0 / total as real < p + 0.5
  {
    var p := RoundPercent(votes, total);
    RoundPercentNearest(votes, total);
    var t, v := total as real, votes as real;
    CastMul(2 * total, p);
    assert (2.0 * t) * (p as real) <= 200.0 * v + t < (2.0 * t) * (p as real) + 2.0 * t;
    DivideBelow(p as real - 0.5, v * 100.0, t);
    DivideAbove(p as real + 0.5, v * 100.0, t);
  }

  /** No option is shown above 100%. */
  lemma PercentAtMostHundred(votes: nat, total: nat)
    requires 0 < total && votes <= total
    ensures RoundPercent(votes, total) <= 100
  {
    var p := RoundPercent(votes, total);
    RoundPercentNearest(votes, total);
    if p > 100 {
      MulAtLeast(2 * total, p - 100);
      assert false;
    }
  }

  /** `` option || `选项 ${index + 1}` ``: an empty option text gets a numbered label. */
  function OptionLabel(option: string, index: nat): (text: string)
    ensures text != []
    ensures option != [] ==> text == option
  {
    if option != [] then option else "选项 " + NatToString(index + 1)
  }

  /** The counts the rows show: `results[index] || 0` for each option. */
  function ShownCounts(counts: seq<nat>, n: nat): (r: seq<nat>)
    ensures |r| == n
    ensures forall i :: 0 <= i < n ==> r[i] == VoteUtils.CountAt(counts, i)
  {
    seq(n, i requires 0 <= i < n => VoteUtils.CountAt(counts, i))
  }

  /**
   * The `voteResults` memo: no rows without options; zeros and the raw option
   * texts while the results are missing or not revealed; otherwise the counts,
   * the rounded shares of their total, and numbered labels for empty options.
   * Colours cycle through six.
   */
  function VoteResults(view: Option<ResultsView>, results: Option<seq<nat>>): (rows: seq<ResultRow>)
    ensures view.None? || view.value.options == [] ==> rows == []
    ensures view.Some? ==> |rows| == |view.value.options|
    ensures forall i :: 0 <= i < |rows| ==> rows[i].color == ResultPalette[i % 6]
    ensures view.Some? && (results.None? || !view.value.isRevealed) ==>
      forall i :: 0 <= i < |rows| ==>
        rows[i].option == view.value.options[i] && rows[i].votes == 0 && rows[i].percentage == 0
    ensures view.Some? && results.Some? && view.value.isRevealed ==>
      forall i :: 0 <= i < |rows| ==>
        && rows[i].option == OptionLabel(view.value.options[i], i)
        && rows[i].votes == VoteUtils.CountAt(results.value, i)
        && rows[i].percentage == (if Sum(results.value) > 0
                                  then RoundPercent(rows[i].votes, Sum(results.value)) else 0)
  {
    if view.None? || view.value.options == [] then []
    else
      var options := view.value.options;
      if results.None? || !view.value.isRevealed then
        seq(|options|, i requires 0 <= i < |options| =>
          ResultRow(options[i], 0, 0, ResultPalette[i % 6]))
      else
        var counts := results.value;
        var total := Sum(counts);
        seq(|options|, i requires 0 <= i < |options| =>
          var votes := VoteUtils.CountAt(counts, i);
          ResultRow(OptionLabel(options[i], i), votes,
                    if total > 0 then RoundPercent(votes, total) else 0, ResultPalette[i % 6]))
  }

  function RowCounts(rows: seq<ResultRow>): (r: seq<nat>)
    ensures |r| == |rows|
    ensures forall i :: 0 <= i < |rows| ==> r[i] == rows[i].votes
  {
    seq(|rows|, i requires 0 <= i < |rows| => rows[i].votes)
  }

  /** The padded counts add up to at most the revealed total, and to all of it when no count is cut off. */
  lemma {:induction false} ShownCountsSum(counts: seq<nat>, n: nat)
    ensures Sum(ShownCounts(counts, n)) <= Sum(counts)
    ensures |counts| <= n ==> Sum(ShownCounts(counts, n)) == Sum(counts)
  {
    var r := ShownCounts(counts, n);
    if n == 0 {
    } else if counts == [] {
      SumAllZero(r);
    } else {
      ShownCountsSum(counts[1..], n - 1);
      assert r[1..] == ShownCounts(counts[1..], n - 1);
    }
  }

  /** Once revealed, the rows carry the counts `results[index] || 0`, option by option. */
  lemma RevealedRowCounts(view: ResultsView, counts: seq<nat>)
    requires view.isRevealed && view.options != []
    ensures RowCounts(VoteResults(Some(view), Some(counts))) == ShownCounts(counts, |view.options|)
  {
    var rows := VoteResults(Some(view), Some(counts));
    var n := |view.options|;
    assert |rows| == n;
    forall i | 0 <= i < n ensures RowCounts(rows)[i] == ShownCounts(counts, n)[i] {
      assert rows[i].votes == VoteUtils.CountAt(counts, i);
    }
  }

  /**
   * The total the page displays is the sum of the rows: it never exceeds the
   * revealed total, and equals it when there is no count beyond the options.
   */
  lemma DisplayedTotal(view: ResultsView, counts: seq<nat>)
    requires view.isRevealed && view.options != []
    ensures Sum(RowCounts(VoteResults(Some(view), Some(counts)))) <= Sum(counts)
    ensures |counts| <= |view.options| ==>
      Sum(RowCounts(VoteResults(Some(view), Some(counts)))) == Sum(counts)
  {
    RevealedRowCounts(view, counts);
    ShownCountsSum(counts, |view.options|);
  }

  /** Every shown percentage is between 0 and 100. */
  lemma RowPercentagesBounded(view: Option<ResultsView>, results: Option<seq<nat>>)
    ensures forall i :: 0 <= i < |VoteResults(view, results)| ==>
      VoteResults(view, results)[i].percentage <= 100
  {
    var rows := VoteResults(view, results);
    forall i | 0 <= i < |rows| ensures rows[i].percentage <= 100 {
      if view.Some? && results.Some? && view.value.isRevealed && Sum(results.value) > 0 {
        var counts := results.value;
        if i < |counts| { SumBoundsEach(counts, i); }
        PercentAtMostHundred(rows[i].votes, Sum(counts));
      }
    }
  }

  // ---------------------------------------------------------------------------
  // winningOption
  // ---------------------------------------------------------------------------

  /** The reducer `current.votes > max.votes ? current : max`. */
  function KeepLarger(max: ResultRow, current: ResultRow): (r: ResultRow)
    ensures r.votes >= max.votes && r.votes >= current.votes
    ensures r == max || r == current
  {
    if current.votes > max.votes then current else max
  }

  /** `s.reduce(KeepLarger, acc)`, a left fold. */
  function ReduceMax(acc: ResultRow, s: seq<ResultRow>): ResultRow
    decreases s
  {
    if s == [] then acc else ReduceMax(KeepLarger(acc, s[0]), s[1..])
  }

  /** `voteResults.reduce(KeepLarger, voteResults[0])`, and nothing for no rows. */
  function WinningOption(rows: seq<ResultRow>): (w: Option<ResultRow>)
    ensures w.None? <==> rows == []
  {
    if rows == [] then None else Some(ReduceMax(rows[0], rows))
  }

  lemma {:induction false} ReduceFromFirstMaximum(rows: seq<ResultRow>, k: nat, a: nat) returns (m: nat)
    requires a < k <= |rows| && IsFirstMaximum(rows[..k], RowVotes, a)
    ensures IsFirstMaximum(rows, RowVotes, m)
    ensures ReduceMax(rows[a], rows[k..]) == rows[m]
    decreases |rows| - k
  {
    if k == |rows| {
      assert rows[..k] == rows;
      m := a;
    } else {
      var next := if rows[k].votes > rows[a].votes then k else a;
      assert rows[k..][1..] == rows[k + 1..];
      assert KeepLarger(rows[a], rows[k]) == rows[next];
      assert IsFirstMaximum(rows[..k + 1], RowVotes, next) by {
        assert forall j :: 0 <= j < k ==> rows[..k + 1][j] == rows[..k][j];
      }
      m := ReduceFromFirstMaximum(rows, k + 1, next);
    }
  }

  /** The winning row is the first row, in option order, with the most votes. */
  lemma WinningIsFirstMaximum(rows: seq<ResultRow>) returns (m: nat)
    requires rows != []
    ensures IsFirstMaximum(rows, RowVotes, m)
    ensures WinningOption(rows) == Some(rows[m])
  {
    assert rows[1..] == rows[1..];
    m := ReduceFromFirstMaximum(rows, 1, 0);
  }

  /**
   * The winner the statistics show is the row the sorted list puts first,
   * next to the trophy.
   */
  lemma WinnerHeadsSortedList(rows: seq<ResultRow>)
    requires rows != []
    ensures |SortDesc(rows, RowVotes)| == |rows|
    ensures WinningOption(rows) == Some(SortDesc(rows, RowVotes)[0])
  {
    var m := WinningIsFirstMaximum(rows);
    FirstSortedIsFirstMaximum(rows, RowVotes, m);
  }

  /** With no votes anywhere the first option wins, at 0%. */
  lemma NoVotesFirstOptionWins(rows: seq<ResultRow>)
    requires rows != [] && forall i :: 0 <= i < |rows| ==> rows[i].votes == 0
    ensures WinningOption(rows) == Some(rows[0])
  {
    var m := WinningIsFirstMaximum(rows);
  }

  // ---------------------------------------------------------------------------
  // The detailed list: `voteResults.sort((a, b) => b.votes - a.votes)`
  // ---------------------------------------------------------------------------

  /**
   * Moves `a[i]` left past the rows with fewer votes: the first `i + 1` rows
   * become `a[..i]` with `a[i]` inserted after every row with at least its votes.
   */
  method SiftIntoPlace(a: array<ResultRow>, i: nat)
    requires i < a.Length
    modifies a
    ensures a[..i + 1] == Insert(old(a[..i]), old(a[i]), RowVotes)
    ensures a[i + 1..] == old(a[i + 1..])
  {
    var x := a[i];
    ghost var t := a[..i];
    var j := i;
    while j > 0 && a[j - 1].votes < x.votes
      invariant 0 <= j <= i
      invariant forall k :: 0 <= k < j ==> a[k] == t[k]
      invariant forall k {:trigger a[k]} :: j < k <= i ==> a[k] == t[k - 1]
      invariant forall k :: i < k < a.Length ==> a[k] == old(a[k])
      invariant forall k :: j <= k < i ==> t[k].votes < x.votes
    {
      a[j] := a[j - 1];
      j := j - 1;
    }
    a[j] := x;
    ShiftedIsInsert(t, x, a[..i + 1], j);
  }

  /** The rows after the shift: `t` with `x` placed at `j`, which is where `Insert` puts it. */
  lemma ShiftedIsInsert(t: seq<ResultRow>, x: ResultRow, s: seq<ResultRow>, j: nat)
    requires |s| == |t| + 1 && j <= |t|
    requires forall k :: 0 <= k < j ==> s[k] == t[k]
    requires s[j] == x
    requires forall k :: j < k < |s| ==> s[k] == t[k - 1]
    requires j == 0 || t[j - 1].votes >= x.votes
    requires forall k :: j <= k < |t| ==> t[k].votes < x.votes
    ensures s == Insert(t, x, RowVotes)
  {
    var r := t[..j] + [x] + t[j..];
    forall k | 0 <= k < |s| ensures s[k] == r[k] {
      if k < j {
        assert r[k] == t[k];
      } else if j < k {
        assert r[k] == t[k - 1];
      }
    }
    InsertAt(t, x, RowVotes, j);
  }

  /**
   * Sorts the rows in place by votes, descending, keeping rows with equal
   * votes in their order: the outcome of any stable sort with that comparator.
   */
  method SortByVotes(a: array<ResultRow>)
    modifies a
    ensures a[..] == SortDesc(old(a[..]), RowVotes)
  {
    ghost var s := a[..];
    var i := 0;
    while i < a.Length
      invariant 0 <= i <= a.Length
      invariant a[..i] == SortDesc(s[..i], RowVotes)
      invariant a[i..] == s[i..]
    {
      SiftIntoPlace(a, i);
      SortDescStep(s, i);
      i := i + 1;
    }
    assert s[..a.Length] == s;
  }

  /** Sorting one more row is inserting it into the sorted prefix. */
  lemma SortDescStep(s: seq<ResultRow>, i: nat)
    requires i < |s|
    ensures SortDesc(s[..i + 1], RowVotes) == Insert(SortDesc(s[..i], RowVotes), s[i], RowVotes)
  {
    assert s[..i + 1][..i] == s[..i];
  }

  /** The sorted list is ordered by votes, holds the same rows, and keeps ties in option order. */
  lemma SortedListProperties(rows: seq<ResultRow>)
    ensures SortedDesc(SortDesc(rows, RowVotes), RowVotes)
    ensures multiset(SortDesc(rows, RowVotes)) == multiset(rows)
    ensures forall k :: KeyRun(SortDesc(rows, RowVotes), RowVotes, k) == KeyRun(rows, RowVotes, k)
  {
    SortDescSorted(rows, RowVotes);
  }
}
