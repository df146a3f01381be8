/**
 * The letterbox contract client of app/lib/contract.ts: a lazily resolved,
 * memoised contract handle (`contractInstance`), sending a letter and
 * fetching letters.
 *
 * `Letterbox` holds the module's state; it shares the `Session` of
 * wallet.ts, whose request log also records the requests made here.
 */
module Contract {
  import opened Wrappers
  import opened AztecSdk
  import opened Aztec
  import opened Wallet

  const CONFIG_ERROR: string := "Contract address not configured. Set NEXT_PUBLIC_CONTRACT_ADDRESS in .env.local"
  const TX_FAILED_ERROR: string := "Transaction failed"
  const SUCCESS_STATUS: string := "success"

  /** A letter as fetchLetters reports it. */
  datatype Letter = Letter(message: string, blockNumber: nat)

  /** The receipt check of sendLetter: it fails with "Transaction failed" exactly when the status is not 'success'. */
  function CheckReceipt(receipt: Receipt): (r: Outcome<string>)
    ensures r.Pass? <==> receipt.status == SUCCESS_STATUS
    ensures r.Fail? ==> r.error == TX_FAILED_ERROR
  {
    if receipt.status != SUCCESS_STATUS then Fail(TX_FAILED_ERROR) else Pass
  }

  /**
   * The part of sendLetter after the contract is resolved (so the PXE is
   * cached): its outcome and the requests it sends. The recipient has already
   * gone through AztecAddress.fromString.
   */
  function SendAfterResolve(contract: ContractInstance, recipient: Result<Address, string>,
                            message: string, answers: Answers): (r: (Outcome<string>, seq<Request>))
    ensures 1 <= |r.1| <= 3 && r.1[0] == GetRegisteredAccounts(contract.pxe)
    ensures |r.1| == 1 <==> DefaultAccountFrom(answers.registeredAccounts).Failure? || recipient.Failure?
    ensures DefaultAccountFrom(answers.registeredAccounts).Failure? ==> r.0 == Fail(DefaultAccountFrom(answers.registeredAccounts).error)
    ensures DefaultAccountFrom(answers.registeredAccounts).Success? && recipient.Failure? ==> r.0 == Fail(recipient.error)
    ensures r.0.Pass? ==> |r.1| == 3
  {
    var lookup := [GetRegisteredAccounts(contract.pxe)];
    match DefaultAccountFrom(answers.registeredAccounts)
    case Failure(e) => (Fail(e), lookup)
    case Success(sender) =>
      match recipient
      case Failure(e) => (Fail(e), lookup)
      case Success(to) =>
        var (outcome, rs) := Transmission(contract, sender, to, message, answers);
        (outcome, lookup + rs)
  }

  /** Submitting the letter transaction, waiting for it and checking its receipt. */
  function Transmission(contract: ContractInstance, sender: Address, to: Address,
                        message: string, answers: Answers): (r: (Outcome<string>, seq<Request>))
    ensures 1 <= |r.1| <= 2 && r.1[0] == SendLetterTx(contract, sender, to, EncodeField(message))
    ensures |r.1| == 2 <==> answers.sent.Success?
    ensures |r.1| == 2 ==> r.1[1] == WaitForTx(answers.sent.value)
    ensures answers.sent.Failure? ==> r.0 == Fail(answers.sent.error)
    ensures r.0.Pass? <==> answers.sent.Success? && answers.receipt.Success? && answers.receipt.value.status == SUCCESS_STATUS
  {
    var submit := [SendLetterTx(contract, sender, to, EncodeField(message))];
    match answers.sent
    case Failure(e) => (Fail(e), submit)
    case Success(tx) =>
      var waited := submit + [WaitForTx(tx)];
      match answers.receipt
      case Failure(e) => (Fail(e), waited)
      case Success(receipt) => (CheckReceipt(receipt), waited)
  }

  /**
   * One sendLetter call submits at most one transaction and waits at most
   * once, only on a submitted one; when it succeeds it has submitted exactly
   * one, carrying stringToField(message) to the parsed recipient from the
   * default account, and waited on it once. Once the sender and the recipient
   * are resolved it submits exactly once, and waits exactly once when the
   * submission is accepted: there is no retry.
   */
  lemma SendSubmitsAtMostOnce(contract: ContractInstance, recipient: Result<Address, string>,
                              message: string, answers: Answers)
    ensures var (outcome, rs) := SendAfterResolve(contract, recipient, message, answers);
            Submissions(rs) <= 1 && Waits(rs) <= Submissions(rs) &&
            (DefaultAccountFrom(answers.registeredAccounts).Success? && recipient.Success? ==>
               Submissions(rs) == 1 && Waits(rs) == (if answers.sent.Success? then 1 else 0)) &&
            (outcome.Pass? ==>
               Submissions(rs) == 1 && Waits(rs) == 1 &&
               answers.registeredAccounts.Success? && answers.registeredAccounts.value != [] &&
               recipient.Success? && answers.sent.Success? &&
               rs == [GetRegisteredAccounts(contract.pxe),
                      SendLetterTx(contract, answers.registeredAccounts.value[0].address, recipient.value, EncodeField(message)),
                      WaitForTx(answers.sent.value)])
  {
    var (outcome, rs) := SendAfterResolve(contract, recipient, message, answers);
    var lookup := [GetRegisteredAccounts(contract.pxe)];
    assert Submissions(lookup) == 0 && Waits(lookup) == 0 by {
      assert lookup[..0] == [];
    }
    if |rs| >= 2 {
      assert rs[..2][..1] == lookup;
      assert Submissions(rs[..2]) == 1 && Waits(rs[..2]) == 0;
    }
    if |rs| == 3 {
      assert rs[..2] == rs[..|rs| - 1];
    }
  }

  /**
   * Once a receipt is in hand, sendLetter fails with "Transaction failed"
   * exactly when the receipt's status is not 'success'.
   */
  lemma ReceiptClassification(contract: ContractInstance, recipient: Address, message: string,
                              answers: Answers, receipt: Receipt)
    requires answers.registeredAccounts.Success? && answers.registeredAccounts.value != []
    requires answers.sent.Success? && answers.receipt == Success(receipt)
    ensures SendAfterResolve(contract, Success(recipient), message, answers).0 ==
            (if receipt.status == SUCCESS_STATUS then Pass else Fail(TX_FAILED_ERROR))
  {
  }

  class Letterbox {
    /** CONTRACT_ADDRESS: the configured address, or '' when it is not configured. */
    const contractAddress: string
    /** The session of wallet.ts that getPXE and getDefaultAccount use. */
    const session: Session
    /** AztecAddress.fromString. */
    const parse: AddressParser
    /** The memoised contract handle. */
    var contractInstance: Option<ContractInstance>

    /** A cached handle is bound to the configured address and the cached PXE client. */
    ghost predicate Valid()
      reads this, session
    {
      session.Valid() &&
      (contractInstance.Some? ==>
         contractAddress != "" &&
         parse(contractAddress) == Success(contractInstance.value.address) &&
         session.pxeInstance.Some? &&
         contractInstance.value.pxe == session.Client())
    }

    /** What getContract answers in the current state. */
    function ContractAnswer(answers: Answers): Result<ContractInstance, string>
      reads this, session
    {
      if contractInstance.Some? then Success(contractInstance.value)
      else if contractAddress == "" then Failure(CONFIG_ERROR)
      else match session.PxeAnswer(answers)
        case Failure(e) => Failure(e)
        case Success(pxe) =>
          match parse(contractAddress)
          case Failure(e) => Failure(e)
          case Success(address) =>
            if answers.contractAt.Fail? then Failure(answers.contractAt.error)
            else Success(ContractInstance(address, pxe))
    }

    /** The requests getContract sends in the current state. */
    function ContractRequests(answers: Answers): seq<Request>
      reads this, session
    {
      if contractInstance.Some? || contractAddress == "" then []
      else match session.PxeAnswer(answers)
        case Failure(_) => session.PxeRequests()
        case Success(pxe) =>
          match parse(contractAddress)
          case Failure(_) => session.PxeRequests()
          case Success(address) => session.PxeRequests() + [ContractAt(address, pxe)]
    }

    constructor (contractAddressEnv: Option<string>, session: Session, parse: AddressParser)
      requires session.Valid()
      requires session.pxeInstance.None?
      ensures Valid()
      ensures contractAddress == EnvOr(contractAddressEnv, "")
      ensures this.session == session && this.parse == parse
      ensures contractInstance == None
    {
      this.contractAddress := EnvOr(contractAddressEnv, "");
      this.session := session;
      this.parse := parse;
      contractInstance := None;
    }

    /**
     * getContract: the cached handle when there is one, with no request;
     * otherwise the configuration check first (an empty address fails before
     * any PXE call), then getPXE, the address parse and `at(...)`. The handle
     * is cached only when `at(...)` succeeds.
     */
    method GetContract(answers: Answers) returns (r: Result<ContractInstance, string>)
      requires Valid()
      modifies this, session
      ensures Valid()
      ensures r == old(ContractAnswer(answers))
      ensures session.requests == old(session.requests) + old(ContractRequests(answers))
      ensures contractInstance == if r.Success? then Some(r.value) else None
      ensures old(contractInstance).Some? || contractAddress == "" ==>
                session.pxeInstance == old(session.pxeInstance) && session.clientsCreated == old(session.clientsCreated)
      ensures old(contractInstance).None? && contractAddress != "" ==> session.pxeInstance == Some(session.Client())
    {
      if contractInstance.Some? {
        return Success(contractInstance.value);
      }
      if contractAddress == "" {
        return Failure(CONFIG_ERROR);
      }
      var pxe := session.GetPxe(answers);
      if pxe.Failure? {
        return Failure(pxe.error);
      }
      var address := parse(contractAddress);
      if address.Failure? {
        return Failure(address.error);
      }
      session.requests := session.requests + [ContractAt(address.value, pxe.value)];
      if answers.contractAt.Fail? {
        return Failure(answers.contractAt.error);
      }
      contractInstance := Some(ContractInstance(address.value, pxe.value));
      return Success(contractInstance.value);
    }

    /**
     * sendLetter: resolve the contract, pick the default account, encode the
     * message with stringToField, parse the recipient, submit one send_letter
     * transaction, wait for it once and check the receipt's status.
     */
    method SendLetter(answers: Answers, recipientAddress: string, message: string) returns (r: Outcome<string>)
      requires Valid()
      modifies this, session
      ensures Valid()
      ensures contractInstance == if old(ContractAnswer(answers)).Success? then Some(old(ContractAnswer(answers)).value) else None
      ensures old(contractInstance).None? && contractAddress == "" ==>
                session.pxeInstance == old(session.pxeInstance) && session.clientsCreated == old(session.clientsCreated)
      ensures old(contractInstance).Some? || contractAddress != "" ==>
                session.pxeInstance == Some(session.Client()) && session.clientsCreated == 1
      ensures old(ContractAnswer(answers)).Failure? ==>
                r == Fail(old(ContractAnswer(answers)).error) &&
                session.requests == old(session.requests) + old(ContractRequests(answers))
      ensures old(ContractAnswer(answers)).Success? ==>
                var (outcome, rs) := SendAfterResolve(old(ContractAnswer(answers)).value, parse(recipientAddress), message, answers);
                r == outcome && session.requests == old(session.requests) + old(ContractRequests(answers)) + rs
    {
      var contract := GetContract(answers);
      if contract.Failure? {
        return Fail(contract.error);
      }
      r := SubmitLetter(contract.value, answers, recipientAddress, message);
    }

    /** The steps of sendLetter after the contract is resolved. */
    method SubmitLetter(contract: ContractInstance, answers: Answers, recipientAddress: string, message: string)
      returns (r: Outcome<string>)
      requires Valid() && contractInstance == Some(contract)
      modifies session
      ensures Valid()
      ensures r == SendAfterResolve(contract, parse(recipientAddress), message, answers).0
      ensures session.requests == old(session.requests) + SendAfterResolve(contract, parse(recipientAddress), message, answers).1
      ensures session.pxeInstance == old(session.pxeInstance) && session.clientsCreated == old(session.clientsCreated)
    {
      ghost var before := session.requests;
      assert session.PxeAnswer(answers) == Success(contract.pxe) && session.PxeRequests() == [];
      var sender := session.GetDefaultAccount(answers);
      assert sender == DefaultAccountFrom(answers.registeredAccounts);
      assert session.requests == before + [GetRegisteredAccounts(contract.pxe)];
      if sender.Failure? {
        return Fail(sender.error);
      }
      var recipient := parse(recipientAddress);
      if recipient.Failure? {
        return Fail(recipient.error);
      }
      r := Transmit(contract, sender.value, recipient.value, message, answers);
    }

    /**
     * The transaction part of sendLetter: the message as a field, one
     * submission, one wait, the receipt check. (The source encodes the message
     * before parsing the recipient; both are pure, so the order is immaterial.)
     */
    method Transmit(contract: ContractInstance, sender: Address, to: Address, message: string,
                    answers: Answers) returns (r: Outcome<string>)
      modifies session
      ensures r == Transmission(contract, sender, to, message, answers).0
      ensures session.requests == old(session.requests) + Transmission(contract, sender, to, message, answers).1
      ensures session.pxeInstance == old(session.pxeInstance) && session.clientsCreated == old(session.clientsCreated)
    {
      var messageField := StringToField(message);
      session.requests := session.requests + [SendLetterTx(contract, sender, to, messageField)];
      if answers.sent.Failure? {
        return Fail(answers.sent.error);
      }
      var tx := answers.sent.value;
      session.requests := session.requests + [WaitForTx(tx)];
      if answers.receipt.Failure? {
        return Fail(answers.receipt.error);
      }
      r := CheckReceipt(answers.receipt.value);
    }

    /**
     * fetchLetters: resolve the contract, the PXE and the default account,
     * query the incoming notes for that account at the contract's address, and
     * return no letters whatever the notes are.
     */
    method FetchLetters(answers: Answers) returns (r: Result<seq<Letter>, string>)
      requires Valid()
      modifies this, session
      ensures Valid()
      ensures contractInstance == if old(ContractAnswer(answers)).Success? then Some(old(ContractAnswer(answers)).value) else None
      ensures old(contractInstance).None? && contractAddress == "" ==>
                session.pxeInstance == old(session.pxeInstance) && session.clientsCreated == old(session.clientsCreated)
      ensures old(contractInstance).Some? || contractAddress != "" ==>
                session.pxeInstance == Some(session.Client()) && session.clientsCreated == 1
      ensures r.Success? ==> r.value == []
      ensures old(ContractAnswer(answers)).Failure? ==>
                r == Failure(old(ContractAnswer(answers)).error) &&
                session.requests == old(session.requests) + old(ContractRequests(answers))
      ensures old(ContractAnswer(answers)).Success? ==>
                var contract := old(ContractAnswer(answers)).value;
                var lookup := old(session.requests) + old(ContractRequests(answers)) + [GetRegisteredAccounts(contract.pxe)];
                match DefaultAccountFrom(answers.registeredAccounts)
                case Failure(e) => r == Failure(e) && session.requests == lookup
                case Success(account) =>
                  session.requests == lookup + [GetIncomingNotes(account, contract.address)] &&
                  r == (if answers.incomingNotes.Success? then Success([]) else Failure(answers.incomingNotes.error))
    {
      var contract := GetContract(answers);
      if contract.Failure? {
        return Failure(contract.error);
      }
      var pxe := session.GetPxe(answers);
      match pxe
      case Failure(e) =>
        return Failure(e);
      case Success(_) =>
      var account := session.GetDefaultAccount(answers);
      if account.Failure? {
        return Failure(account.error);
      }
      session.requests := session.requests + [GetIncomingNotes(account.value, contract.value.address)];
      if answers.incomingNotes.Failure? {
        return Failure(answers.incomingNotes.error);
      }
      return Success([]);
    }
  }
}
