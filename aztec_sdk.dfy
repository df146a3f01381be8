/**
 * The boundary to the Aztec SDK and the PXE (private execution environment)
 * service. What the SDK computes internally (address syntax, the client
 * handshake, contract resolution, transaction execution) is not modelled: the
 * address parser is a parameter, and each network step is answered by an
 * `Answers` record that a caller supplies per top-level operation.
 */
module AztecSdk {
  import opened Wrappers

  /** An AztecAddress: an opaque field value, never interpreted locally. */
  datatype Address = Address(value: nat)

  /** AztecAddress.fromString: an address, or the message of the Error it throws. */
  type AddressParser = string -> Result<Address, string>

  /** A PXE client handle; `serial` tells apart clients created by different createPXEClient calls. */
  datatype Pxe = Pxe(url: string, serial: nat)

  /** One entry of getRegisteredAccounts(): a complete address, of which only `address` is used. */
  datatype RegisteredAccount = RegisteredAccount(address: Address, publicKeysHash: nat)

  /** The account contract registerAccount would be given (unused by the client). */
  datatype AccountContract = AccountContract(artifact: nat)

  /** An XmasLetterboxContract handle bound by `at(address, pxe)`. */
  datatype ContractInstance = ContractInstance(address: Address, pxe: Pxe)

  /** A sent transaction, as returned by `.send(...)`; `hash` identifies it for `wait()`. */
  datatype SentTx = SentTx(hash: nat)

  /** What `tx.wait()` returns once the transaction is mined. */
  datatype Receipt = Receipt(status: string, blockNumber: nat)

  /** An entry of getIncomingNotes(): opaque to this client core. */
  datatype Note = Note(payload: seq<nat>)

  /** A request that reaches the PXE service, in the order the client issues them. */
  datatype Request =
    | WaitForPxe(pxe: Pxe)
    | GetRegisteredAccounts(pxe: Pxe)
    | ContractAt(address: Address, pxe: Pxe)
    | SendLetterTx(contract: ContractInstance, from: Address, recipient: Address, message: nat)
    | WaitForTx(tx: SentTx)
    | GetIncomingNotes(owner: Address, contractAddress: Address)

  /**
   * The network's answer to each kind of request during one top-level call.
   * Within such a call each kind is asked at most once (the PXE is cached
   * before its first wait), so one answer per kind suffices.
   */
  datatype Answers = Answers(
    pxeReady: Outcome<string>,
    registeredAccounts: Result<seq<RegisteredAccount>, string>,
    contractAt: Outcome<string>,
    sent: Result<SentTx, string>,
    receipt: Result<Receipt, string>,
    incomingNotes: Result<seq<Note>, string>)

  /** How many transactions a request log submits. */
  function Submissions(rs: seq<Request>): nat
  {
    if rs == [] then 0 else (if rs[|rs| - 1].SendLetterTx? then 1 else 0) + Submissions(rs[..|rs| - 1])
  }

  /** How many transaction waits a request log holds. */
  function Waits(rs: seq<Request>): nat
  {
    if rs == [] then 0 else (if rs[|rs| - 1].WaitForTx? then 1 else 0) + Waits(rs[..|rs| - 1])
  }

  lemma SubmissionsAppend(rs: seq<Request>, more: seq<Request>)
    ensures Submissions(rs + more) == Submissions(rs) + Submissions(more)
    ensures Waits(rs + more) == Waits(rs) + Waits(more)
    decreases |more|
  {
    if more != [] {
      assert (rs + more)[..|rs + more| - 1] == rs + more[..|more| - 1];
      SubmissionsAppend(rs, more[..|more| - 1]);
    } else {
      assert rs + more == rs;
    }
  }
}
