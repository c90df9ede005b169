/**
 * The vote-creation form (frontend/src/pages/CreateVotePage.tsx): the option
 * list the user edits, bounded by guards to between two and ten entries; the
 * form check that fills an error record key by key; and the arguments the
 * submit handler sends to `createVote`.
 */
module CreateVotePage {
  import opened Common
  import opened ContractAbi
  import VoteUtils

  // ---------------------------------------------------------------------------
  // The option list
  // ---------------------------------------------------------------------------

  datatype VoteOption = VoteOption(id: string, text: string)

  /** The two options the form starts with, 赞成 and 反对. */
  const InitialOptions: seq<VoteOption> := [VoteOption("1", "赞成"), VoteOption("2", "反对")]

  /** No two options share an id. */
  predicate DistinctIds(options: seq<VoteOption>) {
    forall i, j :: 0 <= i < j < |options| ==> options[i].id != options[j].id
  }

  /** The id `Date.now().toString()` gives at `nowMs` is not yet taken. */
  predicate IdIsFresh(options: seq<VoteOption>, nowMs: nat) {
    forall i :: 0 <= i < |options| ==> options[i].id != NatToString(nowMs)
  }

  function IdIsNot(id: string): VoteOption -> bool {
    (o: VoteOption) => o.id != id
  }

  /** `addOption`: nothing at ten options; otherwise one empty option, with the clock as id, at the end. */
  function AddOptionTo(options: seq<VoteOption>, nowMs: nat): (r: seq<VoteOption>)
    ensures |options| >= 10 ==> r == options
    ensures |options| < 10 ==>
      |r| == |options| + 1 && r[..|options|] == options && r[|options|] == VoteOption(NatToString(nowMs), "")
  {
    if |options| >= 10 then options else options + [VoteOption(NatToString(nowMs), "")]
  }

  /** `removeOption`: nothing at two options or fewer; otherwise every option with that id goes. */
  function RemoveOptionFrom(options: seq<VoteOption>, id: string): (r: seq<VoteOption>)
    ensures |options| <= 2 ==> r == options
    ensures |options| > 2 ==>
      && SubsequenceOf(r, options)
      && (forall o :: o in r ==> o.id != id)
      && (forall i :: 0 <= i < |options| && options[i].id != id ==> options[i] in r)
  {
    if |options| <= 2 then options
    else
      FilterIsSubsequence(options, IdIsNot(id));
      Filter(options, IdIsNot(id))
  }

  /** `updateOption`: the options with that id take the new text; ids, order and length stay. */
  function UpdateOptionIn(options: seq<VoteOption>, id: string, text: string): (r: seq<VoteOption>)
    ensures |r| == |options|
    ensures forall i :: 0 <= i < |r| ==> r[i].id == options[i].id
    ensures forall i :: 0 <= i < |r| ==> r[i].text == if options[i].id == id then text else options[i].text
  {
    seq(|options|, i requires 0 <= i < |options| =>
      if options[i].id == id then options[i].(text := text) else options[i])
  }

  /** The list the guards are meant to keep: two to ten options, no id twice. */
  predicate WellFormedOptions(options: seq<VoteOption>) {
    2 <= |options| <= 10 && DistinctIds(options)
  }

  lemma InitialOptionsWellFormed()
    ensures WellFormedOptions(InitialOptions)
  {
  }

  /** The tail of a list with distinct ids has distinct ids, none of them the head's. */
  lemma DistinctIdsTail(options: seq<VoteOption>)
    requires options != [] && DistinctIds(options)
    ensures DistinctIds(options[1..])
    ensures forall x :: x in options[1..] ==> x.id != options[0].id
  {
    var rest := options[1..];
    forall i, j | 0 <= i < j < |rest| ensures rest[i].id != rest[j].id {
      assert rest[i] == options[i + 1] && rest[j] == options[j + 1];
    }
    forall x | x in rest ensures x.id != options[0].id {
      var k :| 0 <= k < |rest| && rest[k] == x;
      assert options[k + 1] == x;
    }
  }

  /** Putting an option with a new id in front keeps the ids distinct. */
  lemma DistinctIdsCons(o: VoteOption, s: seq<VoteOption>)
    requires DistinctIds(s)
    requires forall x :: x in s ==> x.id != o.id
    ensures DistinctIds([o] + s)
  {
    var r := [o] + s;
    forall i, j | 0 <= i < j < |r| ensures r[i].id != r[j].id {
      assert r[j] == s[j - 1] && r[j] in s;
      if i > 0 {
        assert r[i] == s[i - 1];
      }
    }
  }

  /** With distinct ids, removing by id drops at most one option. */
  lemma {:induction false} RemoveDropsAtMostOne(options: seq<VoteOption>, id: string)
    requires DistinctIds(options)
    ensures |Filter(options, IdIsNot(id))| >= |options| - 1
    ensures DistinctIds(Filter(options, IdIsNot(id)))
  {
    if options != [] {
      var rest := options[1..];
      DistinctIdsTail(options);
      RemoveDropsAtMostOne(rest, id);
      var fr := Filter(rest, IdIsNot(id));
      if options[0].id == id {
        assert Filter(options, IdIsNot(id)) == fr;
        CountAllTrue(rest, IdIsNot(id));
        FilterLength(rest, IdIsNot(id));
      } else {
        assert Filter(options, IdIsNot(id)) == [options[0]] + fr;
        DistinctIdsCons(options[0], fr);
      }
    }
  }

  /**
   * Adding with a fresh clock id, removing and updating keep the list within
   * two to ten options with distinct ids.
   */
  lemma OptionEditsKeepShape(options: seq<VoteOption>, nowMs: nat, id: string, text: string)
    requires WellFormedOptions(options)
    ensures IdIsFresh(options, nowMs) ==> WellFormedOptions(AddOptionTo(options, nowMs))
    ensures WellFormedOptions(RemoveOptionFrom(options, id))
    ensures WellFormedOptions(UpdateOptionIn(options, id, text))
  {
    if |options| > 2 {
      RemoveDropsAtMostOne(options, id);
    }
    var u := UpdateOptionIn(options, id, text);
    assert forall i, j :: 0 <= i < j < |u| ==> u[i].id == options[i].id && u[j].id == options[j].id;
  }

  /** Clock readings above 2 never give the ids of the two initial options. */
  lemma ClockIdIsNotInitial(nowMs: nat)
    requires nowMs > 2
    ensures NatToString(nowMs) != "1" && NatToString(nowMs) != "2"
  {
    ParseRendered(nowMs);
    assert ParseDecimal("1") == 1 && ParseDecimal("2") == 2;
  }

  /**
   * The clock gives the same id to two additions in the same millisecond;
   * removing that id then takes both, and the list can end with one option.
   */
  lemma SameMillisecondAdditions(nowMs: nat)
    requires nowMs > 2
    ensures var twice := AddOptionTo(AddOptionTo(InitialOptions, nowMs), nowMs);
      var r := RemoveOptionFrom(RemoveOptionFrom(twice, "1"), NatToString(nowMs));
      |twice| == 4 && !DistinctIds(twice) && r == [VoteOption("2", "反对")]
  {
    var id := NatToString(nowMs);
    ClockIdIsNotInitial(nowMs);
    var o := VoteOption(id, "");
    var one, two := VoteOption("1", "赞成"), VoteOption("2", "反对");
    var twice := AddOptionTo(AddOptionTo(InitialOptions, nowMs), nowMs);
    assert twice == [one, two, o, o];
    RemoveFirstOfFour(one, two, o);
    RemoveRepeatedLast(two, o);
  }

  lemma RemoveFirstOfFour(a: VoteOption, b: VoteOption, o: VoteOption)
    requires b.id != a.id && o.id != a.id
    ensures Filter([a, b, o, o], IdIsNot(a.id)) == [b, o, o]
  {
    var keep := IdIsNot(a.id);
    assert [o, o][1..] == [o] && [b, o, o][1..] == [o, o] && [a, b, o, o][1..] == [b, o, o];
    assert Filter([o], keep) == [o];
    assert Filter([o, o], keep) == [o, o];
    assert Filter([b, o, o], keep) == [b, o, o];
  }

  lemma RemoveRepeatedLast(b: VoteOption, o: VoteOption)
    requires b.id != o.id
    ensures Filter([b, o, o], IdIsNot(o.id)) == [b]
  {
    var drop := IdIsNot(o.id);
    assert [o, o][1..] == [o] && [b, o, o][1..] == [o, o];
    assert Filter([o], drop) == [];
    assert Filter([o, o], drop) == [];
  }

  // ---------------------------------------------------------------------------
  // validateForm
  // ---------------------------------------------------------------------------

  /** The messages `validateForm` can assign. */
  datatype FormMessage =
    | TitleRequired
    | TitleTooShort
    | TitleTooLong
    | DescriptionRequired
    | DescriptionTooShort
    | DescriptionTooLong
    | DurationTooShort
    | DurationTooLong
    | TooFewOptions
    | DuplicateOptions

  /** The text shown for each message. */
  function MessageText(m: FormMessage): (text: string)
  {
    match m
    case TitleRequired => "请输入投票标题"
    case TitleTooShort => "标题至少需要3个字符"
    case TitleTooLong => "标题不能超过100个字符"
    case DescriptionRequired => "请输入投票描述"
    case DescriptionTooShort => "描述至少需要10个字符"
    case DescriptionTooLong => "描述不能超过500个字符"
    case DurationTooShort => "投票时长至少1小时"
    case DurationTooLong => "投票时长不能超过168小时（7天）"
    case TooFewOptions => "至少需要2个有效选项"
    case DuplicateOptions => "选项不能重复"
  }

  /** The title message: blank first, then the untrimmed length. */
  function TitleCheck(title: string): (e: Option<FormMessage>)
    ensures e.None? <==> !IsBlank(title) && 3 <= |title| <= 100
    ensures e == Some(TitleRequired) <==> IsBlank(title)
  {
    if IsBlank(title) then Some(TitleRequired)
    else if |title| < 3 then Some(TitleTooShort)
    else if |title| > 100 then Some(TitleTooLong)
    else None
  }

  function DescriptionCheck(description: string): (e: Option<FormMessage>)
    ensures e.None? <==> !IsBlank(description) && 10 <= |description| <= 500
    ensures e == Some(DescriptionRequired) <==> IsBlank(description)
  {
    if IsBlank(description) then Some(DescriptionRequired)
    else if |description| < 10 then Some(DescriptionTooShort)
    else if |description| > 500 then Some(DescriptionTooLong)
    else None
  }

  function DurationCheck(duration: int): (e: Option<FormMessage>)
    ensures e.None? <==> 1 <= duration <= 168
  {
    if duration < 1 then Some(DurationTooShort)
    else if duration > 168 then Some(DurationTooLong)
    else None
  }

  predicate HasText(o: VoteOption) {
    VoteUtils.NonBlank(o.text)
  }

  function NormalizedText(o: VoteOption): string {
    VoteUtils.NormalizeOption(o.text)
  }

  /** `validOptions`: the options whose trimmed text is not empty, in order. */
  function ValidOptions(options: seq<VoteOption>): seq<VoteOption> {
    Filter(options, HasText)
  }

  lemma ValidOptionsHaveText(options: seq<VoteOption>)
    ensures forall i :: 0 <= i < |ValidOptions(options)| ==> HasText(ValidOptions(options)[i])
  {
    var valid := ValidOptions(options);
    forall i | 0 <= i < |valid| ensures HasText(valid[i]) {
      assert valid[i] in valid;
    }
  }

  /** `duplicateOptions.length > 0`: some entry is not where `findIndex` first finds its key. */
  predicate HasRepeatedEntry(keys: seq<string>) {
    exists i {:trigger FindIndex(keys, keys[i])} :: 0 <= i < |keys| && FindIndex(keys, keys[i]) != i
  }

  /** The options message: the duplicate message replaces the count message when both apply. */
  function OptionsCheck(options: seq<VoteOption>): (e: Option<FormMessage>)
    ensures e.None? <==>
      |ValidOptions(options)| >= 2 && !HasDuplicates(Map(ValidOptions(options), NormalizedText))
  {
    var valid := ValidOptions(options);
    var keys := Map(valid, NormalizedText);
    FindIndexRevealsDuplicates(keys);
    if HasRepeatedEntry(keys) then Some(DuplicateOptions)
    else if |valid| < 2 then Some(TooFewOptions)
    else None
  }

  /** The options message is the count message unless a repeat overwrites it. */
  lemma OptionsCheckInSourceOrder(options: seq<VoteOption>)
    ensures var valid := ValidOptions(options);
      var afterCount := if |valid| < 2 then Some(TooFewOptions) else None;
      OptionsCheck(options) ==
        if HasRepeatedEntry(Map(valid, NormalizedText)) then Some(DuplicateOptions) else afterCount
  {
  }

  /**
   * The options part of `validateForm`: the count message first, then the
   * duplicate message over it.
   */
  method OptionsMessage(options: seq<VoteOption>) returns (e: Option<FormMessage>)
    ensures e == OptionsCheck(options)
  {
    e := None;
    var validOptions := ValidOptions(options);
    if |validOptions| < 2 {
      e := Some(TooFewOptions);
    }
    var keys := Map(validOptions, NormalizedText);
    if HasRepeatedEntry(keys) {
      e := Some(DuplicateOptions);
    }
    OptionsCheckInSourceOrder(options);
  }

  /** Fewer than two valid options never repeat one another, so both messages never compete. */
  lemma DuplicatesNeedTwoOptions(options: seq<VoteOption>)
    ensures HasRepeatedEntry(Map(ValidOptions(options), NormalizedText)) ==> |ValidOptions(options)| >= 2
  {
    var keys := Map(ValidOptions(options), NormalizedText);
    FindIndexRevealsDuplicates(keys);
  }

  /**
   * The error record `validateForm` fills: a field is present exactly when
   * its key has been assigned a message.
   */
  datatype FieldErrors = FieldErrors(
    title: Option<FormMessage>,
    description: Option<FormMessage>,
    duration: Option<FormMessage>,
    options: Option<FormMessage>)

  /** `{}`, the record `validateForm` starts from; `Object.keys(errors).length === 0` tests for it. */
  const NoFieldErrors := FieldErrors(None, None, None, None)

  /** The record `validateForm` ends with. */
  function FormErrors(title: string, description: string, duration: int, options: seq<VoteOption>)
    : FieldErrors
  {
    FieldErrors(TitleCheck(title), DescriptionCheck(description), DurationCheck(duration), OptionsCheck(options))
  }

  /** The form passes exactly when every field is within its bounds and the options are usable. */
  lemma FormAcceptedIff(title: string, description: string, duration: int, options: seq<VoteOption>)
    ensures FormErrors(title, description, duration, options) == NoFieldErrors <==>
      && !IsBlank(title) && 3 <= |title| <= 100
      && !IsBlank(description) && 10 <= |description| <= 500
      && 1 <= duration <= 168
      && |ValidOptions(options)| >= 2
      && !HasDuplicates(Map(ValidOptions(options), NormalizedText))
  {
  }

  /** `parseInt(value) || 1`: an unreadable or zero entry becomes one hour. */
  function DurationFromInput(parsed: Option<int>): (hours: int)
    ensures hours != 0
    ensures parsed.Some? && parsed.value != 0 ==> hours == parsed.value
  {
    if parsed.None? || parsed.value == 0 then 1 else parsed.value
  }

  // ---------------------------------------------------------------------------
  // handleSubmit
  // ---------------------------------------------------------------------------

  function TrimmedText(o: VoteOption): string {
    Trim(o.text)
  }

  /** The options sent: blanks dropped, the rest trimmed, in order. */
  function SubmittedOptions(options: seq<VoteOption>): (r: seq<string>)
    ensures |r| == |ValidOptions(options)|
    ensures forall i :: 0 <= i < |r| ==> r[i] == Trim(ValidOptions(options)[i].text) && r[i] != []
  {
    ValidOptionsHaveText(options);
    Map(ValidOptions(options), TrimmedText)
  }

  /** `Math.floor(Date.now() / 1000) + duration * 3600`. */
  function SubmittedDeadline(nowMs: nat, duration: int): (deadline: int)
    ensures 1 <= duration ==> deadline >= nowMs / 1000 + 3600
    ensures deadline - nowMs / 1000 == duration * 3600
  {
    nowMs / 1000 + duration * 3600
  }

  datatype SubmitOutcome =
    | NotConnected                           // 请先连接钱包
    | Rejected                               // 请检查表单输入
    | Submitted(args: CreateVoteArgs, sent: bool)

  // ---------------------------------------------------------------------------
  // The page state
  // ---------------------------------------------------------------------------

  class CreateVoteForm {
    var title: string
    var description: string
    var duration: int
    var options: seq<VoteOption>
    var errors: FieldErrors

    constructor ()
      ensures title == "" && description == "" && duration == 24
      ensures options == InitialOptions && errors == NoFieldErrors
      ensures WellFormedOptions(options)
    {
      title := "";
      description := "";
      duration := 24;
      options := InitialOptions;
      errors := NoFieldErrors;
    }

    /** `addOption`, at clock reading `nowMs`; `refused` is the 最多只能添加10个选项 toast. */
    method AddOption(nowMs: nat) returns (refused: bool)
      modifies this
      ensures refused <==> |old(options)| >= 10
      ensures options == AddOptionTo(old(options), nowMs)
      ensures old(WellFormedOptions(options)) && IdIsFresh(old(options), nowMs) ==> WellFormedOptions(options)
      ensures title == old(title) && description == old(description) && duration == old(duration)
      ensures errors == old(errors)
    {
      if |options| >= 10 {
        return true;
      }
      ghost var before := options;
      options := options + [VoteOption(NatToString(nowMs), "")];
      if WellFormedOptions(before) {
        OptionEditsKeepShape(before, nowMs, "", "");
      }
      return false;
    }

    /** `removeOption(id)`; `refused` is the 至少需要2个选项 toast. */
    method RemoveOption(id: string) returns (refused: bool)
      modifies this
      ensures refused <==> |old(options)| <= 2
      ensures options == RemoveOptionFrom(old(options), id)
      ensures old(WellFormedOptions(options)) ==> WellFormedOptions(options)
      ensures title == old(title) && description == old(description) && duration == old(duration)
      ensures errors == old(errors)
    {
      if |options| <= 2 {
        return true;
      }
      ghost var before := options;
      options := Filter(options, IdIsNot(id));
      if WellFormedOptions(before) {
        OptionEditsKeepShape(before, 0, id, "");
      }
      return false;
    }

    /** `updateOption(id, text)`. */
    method UpdateOption(id: string, text: string)
      modifies this
      ensures options == UpdateOptionIn(old(options), id, text)
      ensures old(WellFormedOptions(options)) ==> WellFormedOptions(options)
      ensures title == old(title) && description == old(description) && duration == old(duration)
      ensures errors == old(errors)
    {
      ghost var before := options;
      options := UpdateOptionIn(options, id, text);
      if WellFormedOptions(before) {
        OptionEditsKeepShape(before, 0, id, text);
      }
    }

    /** The duration field's change handler. */
    method SetDuration(parsed: Option<int>)
      modifies this
      ensures duration == DurationFromInput(parsed)
      ensures title == old(title) && description == old(description)
      ensures options == old(options) && errors == old(errors)
    {
      duration := DurationFromInput(parsed);
    }

    /**
     * `validateForm`: fills a fresh record field by field, a later options
     * message replacing an earlier one, stores it, and passes when it is empty.
     */
    method ValidateForm() returns (ok: bool)
      modifies this
      ensures errors == FormErrors(title, description, duration, options)
      ensures ok <==> errors == NoFieldErrors
      ensures title == old(title) && description == old(description) && duration == old(duration)
      ensures options == old(options)
    {
      var newErrors := NoFieldErrors;
      if IsBlank(title) {
        newErrors := newErrors.(title := Some(TitleRequired));
      } else if |title| < 3 {
        newErrors := newErrors.(title := Some(TitleTooShort));
      } else if |title| > 100 {
        newErrors := newErrors.(title := Some(TitleTooLong));
      }
      assert newErrors == FieldErrors(TitleCheck(title), None, None, None);
      if IsBlank(description) {
        newErrors := newErrors.(description := Some(DescriptionRequired));
      } else if |description| < 10 {
        newErrors := newErrors.(description := Some(DescriptionTooShort));
      } else if |description| > 500 {
        newErrors := newErrors.(description := Some(DescriptionTooLong));
      }
      assert newErrors == FieldErrors(TitleCheck(title), DescriptionCheck(description), None, None);
      if duration < 1 {
        newErrors := newErrors.(duration := Some(DurationTooShort));
      } else if duration > 168 {
        newErrors := newErrors.(duration := Some(DurationTooLong));
      }
      assert newErrors == FieldErrors(TitleCheck(title), DescriptionCheck(description), DurationCheck(duration), None);
      var optionsMessage := OptionsMessage(options);
      newErrors := newErrors.(options := optionsMessage);
      assert newErrors == FormErrors(title, description, duration, options);
      errors := newErrors;
      ok := newErrors == NoFieldErrors;
    }

    /**
     * `handleSubmit`: the wallet check, then the form check, then the call
     * with the trimmed fields and the deadline `duration` hours from now.
     * `createAvailable` says whether the hook handed out a `createVote`;
     * without one nothing is sent, yet the page reports success all the same.
     */
    method HandleSubmit(isConnected: bool, nowMs: nat, createAvailable: bool) returns (outcome: SubmitOutcome)
      modifies this
      ensures outcome == NotConnected <==> !isConnected
      ensures !isConnected ==> errors == old(errors)
      ensures isConnected ==> errors == FormErrors(title, description, duration, options)
      ensures outcome.Rejected? <==> isConnected && errors != NoFieldErrors
      ensures outcome.Submitted? <==> isConnected && errors == NoFieldErrors
      ensures outcome.Submitted? ==>
        && outcome.args == CreateVoteArgs(Trim(title), Trim(description), SubmittedOptions(options),
                                          SubmittedDeadline(nowMs, duration))
        && outcome.sent == createAvailable
      ensures title == old(title) && description == old(description) && duration == old(duration)
      ensures options == old(options)
    {
      if !isConnected {
        return NotConnected;
      }
      var ok := ValidateForm();
      if !ok {
        return Rejected;
      }
      FormAcceptedIff(title, description, duration, options);
      var validOptions := SubmittedOptions(options);
      var currentTime := nowMs / 1000;
      var deadline := currentTime + duration * 3600;
      outcome := Submitted(CreateVoteArgs(Trim(title), Trim(description), validOptions, deadline),
                           createAvailable);
    }
  }

  /**
   * What a passing form sends: at least two non-empty options that stay
   * distinct after lower-casing, and a deadline at least an hour ahead.
   */
  lemma SubmittedArgumentsUsable(title: string, description: string, duration: int,
                                 options: seq<VoteOption>, nowMs: nat)
    requires FormErrors(title, description, duration, options) == NoFieldErrors
    ensures |SubmittedOptions(options)| >= 2
    ensures forall i :: 0 <= i < |SubmittedOptions(options)| ==> SubmittedOptions(options)[i] != []
    ensures !HasDuplicates(Map(SubmittedOptions(options), LowerStr))
    ensures Trim(title) != [] && Trim(description) != []
    ensures SubmittedDeadline(nowMs, duration) >= nowMs / 1000 + 3600
  {
    FormAcceptedIff(title, description, duration, options);
    var valid := ValidOptions(options);
    var sent := SubmittedOptions(options);
    assert Map(sent, LowerStr) == Map(valid, NormalizedText);
  }
}
