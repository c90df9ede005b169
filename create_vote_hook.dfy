/**
 * The create-vote write hooks (frontend/src/hooks/useContract-fixed.ts).
 *
 * `useCreateVoteFixed` keeps the arguments of the last `createVote` call as
 * state. The library prepares a write for them, and an effect calls `write`
 * once the prepared write is ready and nothing is in flight, then clears
 * the arguments. `reset` clears them too. `useCreateVoteSimple` passes its
 * arguments straight to `write`. The library's prepare, write and wait
 * phases are state the hook reads; here they are fields that an
 * environment step sets.
 */
module CreateVoteHook {
  import opened Common
  import opened ContractAbi
  import VoteDetail

  /** The prepare phase; `config` holds the arguments `write` sends, and `write` exists iff it is present. */
  datatype PreparePhase = PreparePhase(loading: bool, error: Option<string>, config: Option<CreateVoteArgs>)

  /** The write phase: in flight, a transaction (`data`) returned, an error. */
  datatype WritePhase = WritePhase(loading: bool, hasData: bool, error: Option<string>)

  /** The confirmation phase of the returned transaction. */
  datatype WaitPhase = WaitPhase(confirming: bool, isSuccess: bool, error: Option<string>)

  const IdlePrepare := PreparePhase(false, None, None)
  const IdleWrite := WritePhase(false, false, None)
  const IdleWait := WaitPhase(false, false, None)

  /** `enabled: isConnected && !!args`: preparation runs only for a connected wallet with arguments set. */
  function PrepareEnabled(isConnected: bool, args: Option<CreateVoteArgs>): (enabled: bool)
    ensures enabled <==> isConnected && args.Some?
  {
    isConnected && args.Some?
  }

  /** `write && args && !isWriteLoading && !data`: the condition of the auto-write effect. */
  function AutoWriteFires(writeReady: bool, hasArgs: bool, writeLoading: bool, hasData: bool): (fires: bool)
    ensures fires <==> writeReady && hasArgs && !writeLoading && !hasData
    ensures fires ==> hasArgs
  {
    writeReady && hasArgs && !writeLoading && !hasData
  }

  /**
   * What the fixed hook returns: loading while any phase is busy, and the
   * first error among prepare, write and wait.
   */
  function FixedStatus(p: PreparePhase, w: WritePhase, t: WaitPhase): (s: VoteDetail.TxStatus)
    ensures s.isLoading <==> p.loading || w.loading || t.confirming
    ensures s.isSuccess == t.isSuccess
    ensures s.error.Some? <==> p.error.Some? || w.error.Some? || t.error.Some?
    ensures p.error.Some? ==> s.error == p.error
    ensures p.error.None? && w.error.Some? ==> s.error == w.error
    ensures p.error.None? && w.error.None? ==> s.error == t.error
  {
    VoteDetail.TxStatus(p.loading || w.loading || t.confirming, t.isSuccess,
                        FirstPresent(p.error, FirstPresent(w.error, t.error)))
  }

  /** What the simple hook returns: no prepare phase, write error before wait error. */
  function SimpleStatus(w: WritePhase, t: WaitPhase): (s: VoteDetail.TxStatus)
    ensures s.isLoading <==> w.loading || t.confirming
    ensures s.isSuccess == t.isSuccess
    ensures s.error.Some? <==> w.error.Some? || t.error.Some?
    ensures w.error.Some? ==> s.error == w.error
    ensures w.error.None? ==> s.error == t.error
  {
    VoteDetail.TxStatus(w.loading || t.confirming, t.isSuccess, FirstPresent(w.error, t.error))
  }

  /**
   * With the prepare phase idle and error-free the two create hooks report
   * the same status, and it is the status the vote-detail write hooks report.
   */
  lemma StatusesAgreeWithoutPrepare(config: Option<CreateVoteArgs>, w: WritePhase, t: WaitPhase)
    ensures FixedStatus(PreparePhase(false, None, config), w, t) == SimpleStatus(w, t)
    ensures SimpleStatus(w, t) ==
      VoteDetail.WriteStatus(VoteDetail.WritePhases(w.loading, t.confirming, t.isSuccess, w.error, t.error))
  {
  }

  /** A failed preparation hides any later error and keeps the hook loading while the write is. */
  lemma PrepareErrorTakesPrecedence(p: PreparePhase, w: WritePhase, t: WaitPhase)
    requires p.error.Some?
    ensures FixedStatus(p, w, t).error == p.error
    ensures SimpleStatus(w, t).error != p.error ==> FixedStatus(p, w, t) != SimpleStatus(w, t)
  {
  }

  /**
   * The simple hook's `createVote`: absent without a write function, otherwise
   * a write with `[title, description, options, deadline]` in this order.
   */
  function SimpleCreateVote(hasWrite: bool, title: string, description: string, options: seq<string>,
                            deadline: nat): (call: Option<seq<AbiValue>>)
    ensures call.None? <==> !hasWrite
    ensures call.Some? ==>
      && Matches(call.value, CreateVoteInputs)
      && call.value[0].text == title && call.value[1].text == description
      && call.value[2].texts == options && call.value[3].n == deadline
  {
    if hasWrite then Some(EncodeCreateVoteArgs(CreateVoteArgs(title, description, options, deadline)))
    else None
  }

  /** `useCreateVoteFixed`: pending arguments, the library phases, and the writes issued so far. */
  class CreateVoteFixed {
    var isConnected: bool
    var args: Option<CreateVoteArgs>
    var prepare: PreparePhase
    var write: WritePhase
    var wait: WaitPhase
    /** Every call of `write`, with the arguments the prepared write carried. */
    var sent: seq<CreateVoteArgs>

    constructor (isConnected: bool)
      ensures this.isConnected == isConnected && args.None? && sent == []
      ensures prepare == IdlePrepare && write == IdleWrite && wait == IdleWait
    {
      this.isConnected := isConnected;
      args := None;
      prepare := IdlePrepare;
      write := IdleWrite;
      wait := IdleWait;
      sent := [];
    }

    function Status(): (s: VoteDetail.TxStatus)
      reads this
      ensures s == FixedStatus(prepare, write, wait)
    {
      FixedStatus(prepare, write, wait)
    }

    /**
     * `createVote(title, description, options, deadline)`: stores the arguments
     * and, when a prepared write already exists, calls it at once. That write
     * carries the arguments it was prepared for, not the new ones.
     */
    method CreateVote(a: CreateVoteArgs) returns (wroteNow: bool)
      modifies this
      ensures args == Some(a)
      ensures wroteNow <==> old(prepare.config).Some?
      ensures wroteNow ==> sent == old(sent) + [old(prepare.config).value]
      ensures !wroteNow ==> sent == old(sent)
      ensures isConnected == old(isConnected) && prepare == old(prepare)
      ensures write == old(write) && wait == old(wait)
    {
      args := Some(a);
      wroteNow := prepare.config.Some?;
      if wroteNow {
        sent := sent + [prepare.config.value];
      }
    }

    /** The library reports new phases (a finished preparation, a write in flight, a confirmation). */
    method Observe(isConnected: bool, p: PreparePhase, w: WritePhase, t: WaitPhase)
      modifies this
      ensures this.isConnected == isConnected && prepare == p && write == w && wait == t
      ensures args == old(args) && sent == old(sent)
    {
      this.isConnected := isConnected;
      prepare := p;
      write := w;
      wait := t;
    }

    /** The auto-write effect: write and clear the arguments when the guard holds, else nothing. */
    method AutoWrite() returns (fired: bool)
      modifies this
      ensures fired <==> AutoWriteFires(old(prepare.config).Some?, old(args).Some?, old(write.loading), old(write.hasData))
      ensures fired ==> args.None? && sent == old(sent) + [old(prepare.config).value]
      ensures !fired ==> args == old(args) && sent == old(sent)
      ensures isConnected == old(isConnected) && prepare == old(prepare)
      ensures write == old(write) && wait == old(wait)
    {
      fired := AutoWriteFires(prepare.config.Some?, args.Some?, write.loading, write.hasData);
      if fired {
        sent := sent + [prepare.config.value];
        args := None;
      }
    }

    /** `reset`: drops pending arguments and returns the write phase to idle. */
    method Reset()
      modifies this
      ensures args.None? && write == IdleWrite
      ensures isConnected == old(isConnected) && prepare == old(prepare)
      ensures wait == old(wait) && sent == old(sent)
    {
      args := None;
      write := IdleWrite;
    }
  }

  /**
   * Once per arguments: however the library's phases change in between, two
   * runs of the effect with no `createVote` between them write at most once.
   */
  method AutoWriteOncePerArgs(h: CreateVoteFixed, isConnected: bool, p: PreparePhase, w: WritePhase, t: WaitPhase)
      returns (first: bool, second: bool)
    modifies h
    ensures !(first && second)
    ensures |h.sent| <= |old(h.sent)| + 1
    ensures old(h.args).None? ==> !first && !second && h.sent == old(h.sent)
  {
    first := h.AutoWrite();
    h.Observe(isConnected, p, w, t);
    second := h.AutoWrite();
  }

  /** After `reset` the effect does not fire until `createVote` supplies new arguments. */
  method NoWriteAfterReset(h: CreateVoteFixed) returns (fired: bool)
    modifies h
    ensures !fired
    ensures h.sent == old(h.sent) && h.write == IdleWrite
  {
    h.Reset();
    fired := h.AutoWrite();
  }
}
