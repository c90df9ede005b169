/**
 * The vote-detail hooks (frontend/src/hooks/useVoteDetail.ts): the `hasVoted`
 * read and its default, the `castVote` argument builder with its mock
 * "encrypted" choice, the `revealVoteResults` argument builder, and the way
 * each write hook folds the write and confirmation phases of the underlying
 * library into one loading flag and one error. The library's own phases are
 * inputs here.
 */
module VoteDetail {
  import opened Common
  import opened ContractAbi
  import VoteData

  // ---------------------------------------------------------------------------
  // useHasVoted / useVoteResults
  // ---------------------------------------------------------------------------

  /** The `hasAddressVoted` read runs only with a connected address and a non-negative id. */
  function HasVotedEnabled(address: Option<string>, voteId: int): (enabled: bool)
    ensures enabled <==> address.Some? && address.value != [] && voteId >= 0
  {
    address.Some? && address.value != [] && voteId >= 0
  }

  /** `data || false`: a read that yields nothing (disabled, loading, failed) reads as "not voted". */
  function HasVotedValue(data: Option<bool>): (hasVoted: bool)
    ensures hasVoted <==> data == Some(true)
    ensures data.None? ==> !hasVoted
  {
    if data.Some? then data.value else false
  }

  /** The `getVoteResults` read is enabled for exactly the ids the `getVoteInfo` read is. */
  function VoteResultsEnabled(voteId: int): (enabled: bool)
    ensures enabled <==> voteId >= 0
    ensures enabled == VoteData.VoteInfoEnabled(voteId)
  {
    voteId >= 0
  }

  // ---------------------------------------------------------------------------
  // The mock encrypted choice: `0x${optionIndex.toString(16).padStart(4, '0')}`
  // ---------------------------------------------------------------------------

  predicate IsLowerHexDigit(c: char) {
    ('0' <= c <= '9') || ('a' <= c <= 'f')
  }

  /** The digit `Number.prototype.toString(16)` writes for a value below 16. */
  function HexChar(d: nat): (c: char)
    requires d < 16
    ensures IsLowerHexDigit(c)
    ensures HexValue(c) == d
  {
    if d < 10 then ('0' as int + d) as char else ('a' as int + d - 10) as char
  }

  /** The value of one hexadecimal digit of either case; anything else counts as 0. */
  function HexValue(c: char): nat {
    if '0' <= c <= '9' then c as int - '0' as int
    else if 'a' <= c <= 'f' then c as int - 'a' as int + 10
    else if 'A' <= c <= 'F' then c as int - 'A' as int + 10
    else 0
  }

  /** `n.toString(16)`: lower-case hexadecimal without leading zeros ("0" for zero). */
  function ToHex(n: nat): (s: string)
    ensures |s| >= 1
    ensures forall i :: 0 <= i < |s| ==> IsLowerHexDigit(s[i])
    decreases n
  {
    if n < 16 then [HexChar(n)] else ToHex(n / 16) + [HexChar(n % 16)]
  }

  /** The number a string of hexadecimal digits denotes, most significant digit first. */
  function ParseHex(s: string): nat {
    if s == [] then 0 else ParseHex(s[..|s| - 1]) * 16 + HexValue(s[|s| - 1])
  }

  function Pow16(k: nat): nat {
    if k == 0 then 1 else 16 * Pow16(k - 1)
  }

  /** `s.padStart(width, fill)`: fill characters in front up to `width`, never truncating. */
  function PadStart(s: string, width: nat, fill: char): (r: string)
    ensures |s| >= width ==> r == s
    ensures |s| < width ==> |r| == width
    ensures |r| >= |s| && r[|r| - |s|..] == s
    ensures forall i :: 0 <= i < |r| - |s| ==> r[i] == fill
  {
    if |s| >= width then s else seq(width - |s|, _ => fill) + s
  }

  /** The choice sent with `castVote`: "0x" followed by at least four lower-case hex digits. */
  function EncodeChoice(optionIndex: nat): (encoded: string)
    ensures |encoded| >= 6 && encoded[..2] == "0x"
    ensures forall i :: 2 <= i < |encoded| ==> IsLowerHexDigit(encoded[i])
    ensures |encoded| == 6 <==> optionIndex < 65536
  {
    var digits := ToHex(optionIndex);
    ToHexLength(optionIndex, 4);
    "0x" + PadStart(digits, 4, '0')
  }

  /** The hex form has at most `k` digits exactly when the value is below 16^k. */
  lemma {:induction false} ToHexLength(n: nat, k: nat)
    requires k >= 1
    ensures |ToHex(n)| <= k <==> n < Pow16(k)
    decreases n
  {
    if n < 16 {
      PowAtLeastSixteen(k);
    } else if k == 1 {
      assert |ToHex(n)| == |ToHex(n / 16)| + 1;
    } else {
      ToHexLength(n / 16, k - 1);
      assert |ToHex(n)| == |ToHex(n / 16)| + 1;
      assert Pow16(k) == 16 * Pow16(k - 1);
    }
  }

  lemma {:induction false} PowAtLeastSixteen(k: nat)
    requires k >= 1
    ensures Pow16(k) >= 16
  {
    if k > 1 {
      PowAtLeastSixteen(k - 1);
    }
  }

  /** Reading back the hex form of `n` gives `n`. */
  lemma {:induction false} ParseToHex(n: nat)
    ensures ParseHex(ToHex(n)) == n
    decreases n
  {
    if n >= 16 {
      var s := ToHex(n);
      assert s[..|s| - 1] == ToHex(n / 16);
      ParseToHex(n / 16);
    }
  }

  /** Leading zeros do not change the value. */
  lemma {:induction false} ParseHexLeadingZeros(z: string, s: string)
    requires forall i :: 0 <= i < |z| ==> z[i] == '0'
    ensures ParseHex(z + s) == ParseHex(s)
    decreases |s|
  {
    if s == [] {
      assert z + s == z;
      ParseHexOfZeros(z);
    } else {
      var t := s[..|s| - 1];
      assert (z + s)[..|z + s| - 1] == z + t;
      ParseHexLeadingZeros(z, t);
    }
  }

  lemma {:induction false} ParseHexOfZeros(z: string)
    requires forall i :: 0 <= i < |z| ==> z[i] == '0'
    ensures ParseHex(z) == 0
    decreases |z|
  {
    if z != [] {
      ParseHexOfZeros(z[..|z| - 1]);
    }
  }

  /** Padding with zeros in front does not change the value read. */
  lemma PadStartKeepsValue(digits: string, width: nat)
    ensures ParseHex(PadStart(digits, width, '0')) == ParseHex(digits)
  {
    var padded := PadStart(digits, width, '0');
    var z := padded[..|padded| - |digits|];
    assert padded == z + digits;
    ParseHexLeadingZeros(z, digits);
  }

  /** The contract side can recover the option index from the encoded choice. */
  lemma EncodeChoiceRoundTrip(optionIndex: nat)
    ensures ParseHex(EncodeChoice(optionIndex)[2..]) == optionIndex
  {
    var padded := PadStart(ToHex(optionIndex), 4, '0');
    assert EncodeChoice(optionIndex)[2..] == padded by {
      assert EncodeChoice(optionIndex) == "0x" + padded;
    }
    PadStartKeepsValue(ToHex(optionIndex), 4);
    ParseToHex(optionIndex);
  }

  /** Different options never share an encoding. */
  lemma EncodeChoiceInjective(i: nat, j: nat)
    requires i != j
    ensures EncodeChoice(i) != EncodeChoice(j)
  {
    EncodeChoiceRoundTrip(i);
    EncodeChoiceRoundTrip(j);
  }

  // ---------------------------------------------------------------------------
  // useCastVote / useRevealVoteResults arguments
  // ---------------------------------------------------------------------------

  /** `[BigInt(voteId), mockEncryptedChoice]`, the inputs of `castVote`. */
  function CastVoteArgs(voteId: nat, optionIndex: nat): (args: seq<AbiValue>)
    ensures Matches(args, CastVoteInputs)
    ensures args[0] == UintValue(voteId) && args[1].BytesValue?
    ensures |args[1].hex| >= 2 && ParseHex(args[1].hex[2..]) == optionIndex
  {
    EncodeChoiceRoundTrip(optionIndex);
    EncodeCastVote(voteId, EncodeChoice(optionIndex))
  }

  function EncodeCastVote(voteId: nat, choice: string): (args: seq<AbiValue>)
    ensures Matches(args, CastVoteInputs)
    ensures args[0] == UintValue(voteId) && args[1] == BytesValue(choice)
  {
    [UintValue(voteId), BytesValue(choice)]
  }

  /** `castVote` exists only when the library hands back a write function. */
  function CastVoteRequest(hasWrite: bool, voteId: nat, optionIndex: nat): (r: Option<seq<AbiValue>>)
    ensures r.None? <==> !hasWrite
    ensures r.Some? ==> r.value == CastVoteArgs(voteId, optionIndex)
  {
    if hasWrite then Some(CastVoteArgs(voteId, optionIndex)) else None
  }

  /** `[BigInt(voteId), decryptedCounts.map(c => BigInt(c))]`, the inputs of `revealVoteResults`. */
  function RevealArgs(voteId: nat, counts: seq<nat>): (args: seq<AbiValue>)
    ensures Matches(args, RevealVoteResultsInputs)
    ensures args[0].n == voteId
    ensures |args[1].ns| == |counts| && forall i :: 0 <= i < |counts| ==> args[1].ns[i] == counts[i]
  {
    [UintValue(voteId), UintArrayValue(Map(counts, (c: nat) => c))]
  }

  /** `revealResults` exists only when the library hands back a write function. */
  function RevealRequest(hasWrite: bool, voteId: nat, counts: seq<nat>): (r: Option<seq<AbiValue>>)
    ensures r.None? <==> !hasWrite
    ensures r.Some? ==> r.value == RevealArgs(voteId, counts)
  {
    if hasWrite then Some(RevealArgs(voteId, counts)) else None
  }

  // ---------------------------------------------------------------------------
  // Flag and error combination of the two write hooks
  // ---------------------------------------------------------------------------

  /** The phases the write and wait hooks of the library report. */
  datatype WritePhases = WritePhases(
    writeLoading: bool,
    confirming: bool,
    isSuccess: bool,
    writeError: Option<string>,
    waitError: Option<string>)

  /** What a write hook returns to its page. */
  datatype TxStatus = TxStatus(isLoading: bool, isSuccess: bool, error: Option<string>)

  /**
   * `isLoading: isWriteLoading || isConfirming` and `error: writeError || waitError`,
   * identical in `useCastVote` and `useRevealVoteResults`.
   */
  function WriteStatus(p: WritePhases): (t: TxStatus)
    ensures t.isLoading <==> p.writeLoading || p.confirming
    ensures t.isSuccess == p.isSuccess
    ensures t.error.Some? <==> p.writeError.Some? || p.waitError.Some?
    ensures p.writeError.Some? ==> t.error == p.writeError
    ensures p.writeError.None? ==> t.error == p.waitError
  {
    TxStatus(p.writeLoading || p.confirming, p.isSuccess, FirstPresent(p.writeError, p.waitError))
  }
}
