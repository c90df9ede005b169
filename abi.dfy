/**
 * The slice of the voting contract's ABI that the front end reads and writes:
 * argument and result layouts as sequences of ABI types, and the values that
 * travel in them. Values are unbounded here; the 256-bit range of `uint256` is
 * not checked.
 */
module ContractAbi {

  datatype AbiType = TString | TStringArray | TUint256 | TUint256Array | TBool | TAddress | TBytes

  datatype AbiValue =
    | StringValue(text: string)
    | StringArrayValue(texts: seq<string>)
    | UintValue(n: nat)
    | UintArrayValue(ns: seq<nat>)
    | BoolValue(b: bool)
    | AddressValue(address: string)
    | BytesValue(hex: string)

  function TypeOf(v: AbiValue): AbiType {
    match v
    case StringValue(_) => TString
    case StringArrayValue(_) => TStringArray
    case UintValue(_) => TUint256
    case UintArrayValue(_) => TUint256Array
    case BoolValue(_) => TBool
    case AddressValue(_) => TAddress
    case BytesValue(_) => TBytes
  }

  /** `values` has the shape the layout describes, position by position. */
  predicate Matches(values: seq<AbiValue>, layout: seq<AbiType>) {
    |values| == |layout| && forall i :: 0 <= i < |values| ==> TypeOf(values[i]) == layout[i]
  }

  /** Outputs of `getVoteInfo(voteId)`. */
  const GetVoteInfoOutputs: seq<AbiType> :=
    [TString, TString, TStringArray, TUint256, TUint256, TBool, TBool, TAddress]

  /** Outputs of the public `votes(uint256)` getter: a different order, and no options. */
  const VotesGetterOutputs: seq<AbiType> :=
    [TString, TString, TAddress, TUint256, TUint256, TBool, TBool]

  /** Inputs of `createVote(title, description, options, deadline)`. */
  const CreateVoteInputs: seq<AbiType> := [TString, TString, TStringArray, TUint256]

  /** Inputs of `castVote(voteId, encryptedChoice)`. */
  const CastVoteInputs: seq<AbiType> := [TUint256, TBytes]

  /** Inputs of `revealVoteResults(voteId, decryptedCounts)`. */
  const RevealVoteResultsInputs: seq<AbiType> := [TUint256, TUint256Array]

  /** The arguments of `createVote`, in the order the contract takes them. */
  datatype CreateVoteArgs = CreateVoteArgs(title: string, description: string, options: seq<string>, deadline: nat)

  function EncodeCreateVoteArgs(args: CreateVoteArgs): (values: seq<AbiValue>)
    ensures Matches(values, CreateVoteInputs)
    ensures values[0] == StringValue(args.title) && values[1] == StringValue(args.description)
    ensures values[2] == StringArrayValue(args.options) && values[3] == UintValue(args.deadline)
  {
    [StringValue(args.title), StringValue(args.description), StringArrayValue(args.options), UintValue(args.deadline)]
  }
}
