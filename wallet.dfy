/**
 * The PXE session of app/lib/wallet.ts: a lazily created, memoised PXE client
 * (`pxeInstance`) and the account queries made through it.
 *
 * The module-level variables become the fields of one `Session` object; the
 * network is answered by an `Answers` record per call, and every request that
 * reaches the PXE service is appended to `requests`.
 */
module Wallet {
  import opened Wrappers
  import opened AztecSdk

  const DEFAULT_PXE_URL: string := "https://api.aztec.network/aztec-pxe/3.0.0-devnet.5"
  const NO_ACCOUNTS_ERROR: string := "No accounts registered. Please register an account with the PXE first."
  const NOT_IMPLEMENTED_ERROR: string := "Account registration not yet implemented"

  /** `value || fallback` on an environment variable: unset or empty gives the fallback. */
  function EnvOr(env: Option<string>, fallback: string): (v: string)
    ensures env.Some? && env.value != "" ==> v == env.value
    ensures env.None? || env.value == "" ==> v == fallback
  {
    match env
    case Some(s) => if s != "" then s else fallback
    case None => fallback
  }

  /** `accounts.map(acc => acc.address)`: the addresses, in order, one per account. */
  function AddressesOf(accounts: seq<RegisteredAccount>): (addresses: seq<Address>)
    ensures |addresses| == |accounts|
    ensures forall i :: 0 <= i < |accounts| ==> addresses[i] == accounts[i].address
  {
    if accounts == [] then [] else [accounts[0].address] + AddressesOf(accounts[1..])
  }

  /** The default-account choice of getDefaultAccount: the first address, or the no-accounts error. */
  function FirstAccount(addresses: seq<Address>): (r: Result<Address, string>)
    ensures r.Failure? <==> addresses == []
    ensures r.Failure? ==> r.error == NO_ACCOUNTS_ERROR
    ensures r.Success? ==> r.value == addresses[0]
  {
    if |addresses| == 0 then Failure(NO_ACCOUNTS_ERROR) else Success(addresses[0])
  }

  /** What getAccounts returns once the PXE is at hand, given the answer to getRegisteredAccounts. */
  function AccountsFrom(registered: Result<seq<RegisteredAccount>, string>): Result<seq<Address>, string>
  {
    match registered
    case Failure(e) => Failure(e)
    case Success(accounts) => Success(AddressesOf(accounts))
  }

  /** What getDefaultAccount returns once the PXE is at hand. */
  function DefaultAccountFrom(registered: Result<seq<RegisteredAccount>, string>): (r: Result<Address, string>)
    ensures registered.Success? ==> (r == Failure(NO_ACCOUNTS_ERROR) <==> registered.value == [])
    ensures registered.Success? && registered.value != [] ==> r == Success(registered.value[0].address)
    ensures registered.Failure? ==> r == Failure(registered.error)
  {
    match AccountsFrom(registered)
    case Failure(e) => Failure(e)
    case Success(addresses) => FirstAccount(addresses)
  }

  class Session {
    /** PXE_URL. */
    const pxeUrl: string
    /** The memoised client; once set it is never cleared. */
    var pxeInstance: Option<Pxe>
    /** How many times createPXEClient has been called. */
    var clientsCreated: nat
    /** Every request this process has sent to the PXE service, oldest first. */
    var requests: seq<Request>

    /** At most one client is ever created, and it is the cached one. */
    ghost predicate Valid()
      reads this
    {
      clientsCreated <= 1 &&
      (pxeInstance.Some? <==> clientsCreated == 1) &&
      (pxeInstance.Some? ==> pxeInstance.value == Client())
    }

    /** The one client createPXEClient(PXE_URL) makes in this process. */
    function Client(): Pxe
    {
      Pxe(pxeUrl, 0)
    }

    /** What getPXE answers in the current state. */
    function PxeAnswer(answers: Answers): Result<Pxe, string>
      reads this
    {
      if pxeInstance.Some? || answers.pxeReady.Pass? then Success(Client()) else Failure(answers.pxeReady.error)
    }

    /** The requests getPXE sends in the current state: a wait only when no client is cached. */
    function PxeRequests(): seq<Request>
      reads this
    {
      if pxeInstance.Some? then [] else [WaitForPxe(Client())]
    }

    constructor (nodeUrl: Option<string>)
      ensures Valid()
      ensures pxeUrl == EnvOr(nodeUrl, DEFAULT_PXE_URL)
      ensures pxeInstance == None && clientsCreated == 0 && requests == []
    {
      pxeUrl := EnvOr(nodeUrl, DEFAULT_PXE_URL);
      pxeInstance := None;
      clientsCreated := 0;
      requests := [];
    }

    /**
     * getPXE: the cached client if there is one, with no request; otherwise a
     * new client, cached BEFORE waitForPXE is asked, so that a failed wait
     * still leaves it cached and later calls return it without waiting.
     */
    method GetPxe(answers: Answers) returns (r: Result<Pxe, string>)
      requires Valid()
      modifies this
      ensures Valid()
      ensures r == old(PxeAnswer(answers))
      ensures requests == old(requests) + old(PxeRequests())
      ensures pxeInstance == Some(Client()) && clientsCreated == 1
      ensures old(pxeInstance).Some? ==> clientsCreated == old(clientsCreated) && requests == old(requests)
    {
      if pxeInstance.Some? {
        return Success(pxeInstance.value);
      }
      var pxe := Pxe(pxeUrl, clientsCreated);
      clientsCreated := clientsCreated + 1;
      pxeInstance := Some(pxe);
      requests := requests + [WaitForPxe(pxe)];
      if answers.pxeReady.Fail? {
        return Failure(answers.pxeReady.error);
      }
      return Success(pxe);
    }

    /** getAccounts: the registered accounts' addresses, in the order the PXE lists them. */
    method GetAccounts(answers: Answers) returns (r: Result<seq<Address>, string>)
      requires Valid()
      modifies this
      ensures Valid()
      ensures pxeInstance == Some(Client()) && clientsCreated == 1
      ensures old(PxeAnswer(answers)).Failure? ==>
                r == Failure(old(PxeAnswer(answers)).error) && requests == old(requests) + old(PxeRequests())
      ensures old(PxeAnswer(answers)).Success? ==>
                r == AccountsFrom(answers.registeredAccounts) &&
                requests == old(requests) + old(PxeRequests()) + [GetRegisteredAccounts(Client())]
    {
      var pxe := GetPxe(answers);
      if pxe.Failure? {
        return Failure(pxe.error);
      }
      requests := requests + [GetRegisteredAccounts(pxe.value)];
      match answers.registeredAccounts
      case Failure(e) =>
        return Failure(e);
      case Success(accounts) =>
        return Success(AddressesOf(accounts));
    }

    /** getDefaultAccount: the first registered address, or the no-accounts error when there is none. */
    method GetDefaultAccount(answers: Answers) returns (r: Result<Address, string>)
      requires Valid()
      modifies this
      ensures Valid()
      ensures pxeInstance == Some(Client()) && clientsCreated == 1
      ensures old(PxeAnswer(answers)).Failure? ==>
                r == Failure(old(PxeAnswer(answers)).error) && requests == old(requests) + old(PxeRequests())
      ensures old(PxeAnswer(answers)).Success? ==>
                r == DefaultAccountFrom(answers.registeredAccounts) &&
                requests == old(requests) + old(PxeRequests()) + [GetRegisteredAccounts(Client())]
    {
      var accounts := GetAccounts(answers);
      if accounts.Failure? {
        return Failure(accounts.error);
      }
      if |accounts.value| == 0 {
        return Failure(NO_ACCOUNTS_ERROR);
      }
      return Success(accounts.value[0]);
    }

    /** registerAccount: always fails — with getPXE's error, or else with "not yet implemented". */
    method RegisterAccount(answers: Answers, secretKey: string, accountContract: AccountContract)
      returns (r: Result<Address, string>)
      requires Valid()
      modifies this
      ensures Valid()
      ensures r.Failure?
      ensures r.error == if old(PxeAnswer(answers)).Failure? then old(PxeAnswer(answers)).error else NOT_IMPLEMENTED_ERROR
      ensures requests == old(requests) + old(PxeRequests())
      ensures pxeInstance == Some(Client()) && clientsCreated == 1
    {
      var pxe := GetPxe(answers);
      if pxe.Failure? {
        return Failure(pxe.error);
      }
      return Failure(NOT_IMPLEMENTED_ERROR);
    }
  }

  /**
   * A failed first wait poisons the cache: the next getPXE succeeds with the
   * never-ready client, creating no client and sending no request.
   */
  method PoisonedCache(nodeUrl: Option<string>, failing: Answers, later: Answers)
    returns (session: Session, first: Result<Pxe, string>, second: Result<Pxe, string>)
    requires failing.pxeReady.Fail?
    ensures first.Failure? && second == Success(session.Client())
    ensures session.Client().url == EnvOr(nodeUrl, DEFAULT_PXE_URL)
    ensures session.pxeInstance == Some(session.Client()) && session.clientsCreated == 1
    ensures session.requests == [WaitForPxe(session.Client())]
  {
    session := new Session(nodeUrl);
    first := session.GetPxe(failing);
    second := session.GetPxe(later);
  }
}
