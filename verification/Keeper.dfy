/** The keeper and its message server: objects that change the params, the supply record and
    the bank step by step, with early returns. */
module Keeper {
  import opened Wire
  import opened Decimal
  import opened Bank
  import opened Messages
  import opened Ledger
  import Runs

  class MsgServer {
    const host: Host
    const bank: BankKeeper
    var params: Option<ParamsValue>
    var record: Option<Bytes>  // the entry under the total supply key

    constructor (host: Host, bank: BankKeeper)
      ensures this.host == host && this.bank == bank
      ensures Now() == State(None, None, bank.State())
    {
      this.host, this.bank := host, bank;
      params, record := None, None;
    }

    function Now(): State
      reads this, bank
    {
      State(params, record, bank.State())
    }

    method GetTotalSupply() returns (amount: int)
      ensures amount == Recorded(host, Now())
      ensures record.Some? && host.parseInt(record.value).Some? ==> Some(amount) == host.parseInt(record.value)
      ensures record.None? || host.parseInt(record.value).None? ==> amount == 0
    {
      if record.None? {
        return 0;
      }
      var parsed := host.parseInt(record.value);
      if parsed.None? {
        return 0;
      }
      return parsed.value;
    }

    method SetTotalSupply(amount: int)
      modifies this`record
      ensures record == Some(Print(amount))
    {
      record := Some(Print(amount));
    }

    method Mint(msg: MintValue) returns (verdict: Verdict)
      modifies this, bank
      ensures (Now(), verdict) == MintStep(host, old(Now()), msg)
    {
      hide Recorded, Print, BankState.Mint, BankState.Send;
      if params.None? { return ParamsNotFound; }
      var p := params.value;
      if p.paused { return Paused; }
      if msg.authority != p.issuer { return NotIssuer; }
      var amount := host.parseInt(msg.amount);
      if amount.None? || amount.value <= 0 { return InvalidAmount; }
      var maxSupply := host.parseInt(p.maxSupply);
      if maxSupply.None? { return UnreadableCap; }
      var current := GetTotalSupply();
      if current + amount.value >= INT_LIMIT { return Panic; }
      if current + amount.value > maxSupply.value { return ExceedsCap; }
      var to := host.accAddress(msg.toAddress);
      if to.None? { return BadAddress; }
      if !host.validDenom(p.denom) { return Panic; }
      var ok := bank.MintCoins(host.moduleAccount, p.denom, amount.value);
      if !ok { return Panic; }
      if to.value in host.blocked { return BankRefused; }
      ok := bank.SendCoins(host.moduleAccount, to.value, p.denom, amount.value, 0);
      if !ok { return BankRefused; }
      SetTotalSupply(current + amount.value);
      return Done;
    }

    method Burn(msg: BurnValue, locks: Locks) returns (verdict: Verdict)
      modifies this, bank
      ensures (Now(), verdict) == BurnStep(host, locks, old(Now()), msg)
    {
      hide Recorded, Print, Locked, BankState.Burn, BankState.Send;
      if params.None? { return ParamsNotFound; }
      var p := params.value;
      if p.paused { return Paused; }
      if msg.authority != p.issuer { return NotIssuer; }
      var from := host.accAddress(msg.fromAddress);
      if from.None? { return BadAddress; }
      var amount := host.parseInt(msg.amount);
      if amount.None? || amount.value <= 0 { return InvalidAmount; }
      if !host.validDenom(p.denom) { return Panic; }
      var ok := bank.SendCoins(from.value, host.moduleAccount, p.denom, amount.value,
          Locked(host, locks, from.value, p.denom));
      if !ok { return BankRefused; }
      ok := bank.BurnCoins(host.moduleAccount, p.denom, amount.value);
      if !ok { return Panic; }
      var current := GetTotalSupply();
      RecordedByRecord(host, Now(), old(Now()));
      if current < amount.value { return Underflow; }
      SetTotalSupply(current - amount.value);
      return Done;
    }

    method UpdateParams(msg: UpdateParamsValue) returns (verdict: Verdict)
      modifies this
      ensures (Now(), verdict) == UpdateStep(host, old(Now()), msg)
    {
      var authority := host.codecAddress(msg.authority);
      if authority.None? { return BadAddress; }
      if authority.value != host.authority { return InvalidSigner; }
      verdict := Validate(host, msg.params);
      if verdict != Done { return; }
      params := Some(msg.params);
    }

    /** Dispatch to the handlers, and to the bank for what is not the module's. */
    method Handle(tx: Runs.Tx, locks: Locks) returns (verdict: Verdict)
      modifies this, bank
      ensures (Now(), verdict) == Runs.Apply(host, locks, old(Now()), tx)
    {
      hide MintStep, BurnStep, UpdateStep;
      match tx
      case Mint(msg) => verdict := Mint(msg);
      case Burn(msg) => verdict := Burn(msg, locks);
      case Update(msg) => verdict := UpdateParams(msg);
      case Transfer(from, to, d, n) =>
        if to in host.blocked { return BankRefused; }
        var ok := bank.SendCoins(from, to, d, n, Locked(host, locks, from, d));
        verdict := if ok then Done else BankRefused;
      case ModuleTransfer(from, to, d, n) =>
        var ok := bank.SendCoins(from, to, d, n, Locked(host, locks, from, d));
        verdict := if ok then Done else BankRefused;
      case OtherMint(to, d, n) =>
        var ok := bank.MintCoins(to, d, n);
        verdict := if ok then Done else BankRefused;
      case OtherBurn(from, d, n) =>
        var ok := bank.BurnCoins(from, d, n);
        verdict := if ok then Done else BankRefused;
    }

    /** The transaction runner: the writes of a failed transaction are dropped. */
    method Deliver(dl: Runs.Delivery)
      modifies this, bank
      ensures Now() == Runs.Deliver(host, old(Now()), dl)
    {
      hide Runs.Apply;
      var before := Now();
      var verdict := Handle(dl.tx, dl.locks);
      if verdict != Done || dl.aborted {
        params, record := before.params, before.record;
        bank.Restore(before.bank);
      }
    }

    /** `ExportGenesis`: the params alone. */
    method ExportGenesis() returns (genesis: Option<ParamsValue>)
      ensures genesis == params
    {
      return params;
    }

    method InitGenesis(genesis: ParamsValue)
      modifies this`params
      ensures params == Some(genesis)
    {
      params := Some(genesis);
    }
  }

  /** Export and import of a chain's state: a new server starts from the exported params over a
      bank with the same coins. */
  method ExportAndImport(server: MsgServer, bank: BankKeeper) returns (imported: MsgServer)
    requires server.params.Some? && bank.State() == server.bank.State()
    ensures imported.Now() == State(server.params, None, server.bank.State())
    ensures imported.Now() == Runs.Reimport(server.Now())
  {
    var genesis := server.ExportGenesis();
    imported := new MsgServer(server.host, bank);
    imported.InitGenesis(genesis.value);
  }
}
