/** Runs of the ledger: any sequence of stablecoin messages, transfers and other modules'
    mints and burns, each rolled back as a whole when it fails. */
module Runs {
  import opened Wire
  import opened Decimal
  import opened Bank
  import opened Messages
  import opened Ledger

  /** `ModuleTransfer` is a transfer that a module makes, such as a fee on its way to the fee
      collector: blocked recipients do not stop it. A fee that a failed transaction still pays
      is such a step before it, and a transaction of several messages is a step for each. */
  datatype Tx =
    | Mint(mint: MintValue)
    | Burn(burn: BurnValue)
    | Update(update: UpdateParamsValue)
    | Transfer(from: Account, to: Account, denom: Denom, amount: nat)
    | ModuleTransfer(from: Account, to: Account, denom: Denom, amount: nat)
    | OtherMint(to: Account, denom: Denom, amount: nat)
    | OtherBurn(from: Account, denom: Denom, amount: nat)

  /** A transaction as it reaches the ledger: the locks in force, and whether something
      around it (gas, fees, signatures) makes it fail. */
  datatype Delivery = Delivery(tx: Tx, locks: Locks, aborted: bool)

  function Banked(st: State, b: Option<BankState>): (State, Verdict) {
    if b.None? then (st, BankRefused) else (st.(bank := b.value), Done)
  }

  function Apply(h: Host, locks: Locks, st: State, tx: Tx): (State, Verdict) {
    match tx
    case Mint(msg) => MintStep(h, st, msg)
    case Burn(msg) => BurnStep(h, locks, st, msg)
    case Update(msg) => UpdateStep(h, st, msg)
    case Transfer(from, to, d, n) =>
      if to in h.blocked then (st, BankRefused) else Banked(st, st.bank.Send(from, to, d, n, Locked(h, locks, from, d)))
    case ModuleTransfer(from, to, d, n) => Banked(st, st.bank.Send(from, to, d, n, Locked(h, locks, from, d)))
    case OtherMint(to, d, n) => Banked(st, st.bank.Mint(to, d, n))
    case OtherBurn(from, d, n) => Banked(st, st.bank.Burn(from, d, n))
  }

  /** The transaction runner keeps the writes of a success only. */
  function Deliver(h: Host, st: State, dl: Delivery): State {
    var (st', verdict) := Apply(h, dl.locks, st, dl.tx);
    if verdict == Done && !dl.aborted then st' else st
  }

  function Run(h: Host, st: State, dls: seq<Delivery>): State
    decreases |dls|
  {
    if dls == [] then st else Run(h, Deliver(h, st, dls[0]), dls[1..])
  }

  /** A delivery that fails or is aborted leaves everything as it was; any other leaves what its
      transaction does. */
  lemma FailureChangesNothing(h: Host, st: State, dl: Delivery)
    ensures dl.aborted || Apply(h, dl.locks, st, dl.tx).1 != Done ==> Deliver(h, st, dl) == st
    ensures !dl.aborted && Apply(h, dl.locks, st, dl.tx).1 == Done ==>
              Deliver(h, st, dl) == Apply(h, dl.locks, st, dl.tx).0
  {
  }

  /** A run is its deliveries in order. */
  lemma {:induction false} RunJoins(h: Host, st: State, first: seq<Delivery>, dl: Delivery)
    ensures Run(h, st, []) == st
    ensures Run(h, st, first + [dl]) == Deliver(h, Run(h, st, first), dl)
    decreases |first|
  {
    hide Deliver;
    if first == [] {
      assert (first + [dl])[1..] == [];
    } else {
      assert (first + [dl])[1..] == first[1..] + [dl];
      RunJoins(h, Deliver(h, st, first[0]), first[1..], dl);
    }
  }

  /** A transfer is carried out when the sender can spend the coins and the recipient has room; a
      blocked recipient stops users but not modules. It moves two balances and nothing else. */
  lemma TransferMoves(h: Host, locks: Locks, st: State, from: Account, to: Account, d: Denom, n: nat, user: bool)
    ensures var tx := if user then Transfer(from, to, d, n) else ModuleTransfer(from, to, d, n);
            var (st', v) := Apply(h, locks, st, tx);
            && (v == Done <==>
                  && (user ==> to !in h.blocked) && n <= st.bank.Balance(from, d)
                  && (from != h.moduleAccount && (from, d) in locks ==>
                        locks[(from, d)] + n <= st.bank.Balance(from, d))
                  && st.bank.Balance(to, d) + (if from == to then 0 else n) < INT_LIMIT)
            && st' == st.(bank := st'.bank) && st'.bank.supply == st.bank.supply
            && forall a, e :: st'.bank.Balance(a, e) == st.bank.Balance(a, e)
                 + (if v == Done && e == d && a == to then n else 0)
                 - (if v == Done && e == d && a == from then n else 0)
  {
    hide BankState.Send, BankState.Balance;
    var locked := Locked(h, locks, from, d);
    OperationsSucceed(st.bank, from, to, d, n, locked);
    if st.bank.Send(from, to, d, n, locked).Some? {
      SendMoves(st.bank, from, to, d, n, locked, from, d);
      forall a, e
        ensures st.bank.Send(from, to, d, n, locked).value.Balance(a, e) == st.bank.Balance(a, e)
                  + (if e == d && a == to then n else 0) - (if e == d && a == from then n else 0)
      {
        SendMoves(st.bank, from, to, d, n, locked, a, e);
      }
    }
  }

  /** Other modules mint and burn within 256 bits and their balance, away from params and record. */
  lemma OthersMove(h: Host, locks: Locks, st: State, a: Account, d: Denom, n: nat)
    ensures var (st', v) := Apply(h, locks, st, OtherMint(a, d, n));
            && (v == Done <==> st.bank.Balance(a, d) + n < INT_LIMIT && st.bank.Supply(d) + n < INT_LIMIT)
            && st' == st.(bank := st'.bank) && st'.bank.Supply(d) == st.bank.Supply(d) + if v == Done then n else 0
    ensures var (st', v) := Apply(h, locks, st, OtherBurn(a, d, n));
            && (v == Done <==> n <= st.bank.Balance(a, d) && n <= st.bank.Supply(d))
            && st' == st.(bank := st'.bank) && st'.bank.Supply(d) == st.bank.Supply(d) - if v == Done then n else 0
  {
  }

  // ---------------------------------------------------------------- who may change what

  /** Only the issuer in force, while the module is not paused, changes the record. */
  lemma RecordChangesAreIssued(h: Host, st: State, dl: Delivery)
    requires Deliver(h, st, dl).record != st.record
    ensures st.params.Some? && !st.params.value.paused && !dl.aborted
    ensures (dl.tx.Mint? && dl.tx.mint.authority == st.params.value.issuer)
            || (dl.tx.Burn? && dl.tx.burn.authority == st.params.value.issuer)
  {
    hide Recorded, MintStep, BurnStep;
    match dl.tx
    case Mint(msg) => MintRefuses(h, st, msg);
    case Burn(msg) => BurnRefuses(h, dl.locks, st, msg);
    case Update(msg) => UpdateAccepts(h, st, msg);
    case _ =>
  }

  /** Only the module's authority changes the params, to those it signed. */
  lemma ParamsChangesAreSigned(h: Host, st: State, dl: Delivery)
    requires Deliver(h, st, dl).params != st.params
    ensures !dl.aborted && dl.tx.Update? && h.codecAddress(dl.tx.update.authority) == Some(h.authority)
    ensures Deliver(h, st, dl).params == Some(dl.tx.update.params)
  {
    hide MintStep, BurnStep, UpdateStep;
    match dl.tx
    case Mint(msg) => MintKeepsParams(h, st, msg);
    case Burn(msg) => BurnKeepsParams(h, dl.locks, st, msg);
    case Update(msg) => UpdateAccepts(h, st, msg);
    case _ =>
  }

  lemma MintKeepsParams(h: Host, st: State, msg: MintValue)
    ensures MintStep(h, st, msg).0.params == st.params
  {
    hide Recorded;
  }

  lemma BurnKeepsParams(h: Host, locks: Locks, st: State, msg: BurnValue)
    ensures BurnStep(h, locks, st, msg).0.params == st.params
  {
    hide Recorded;
  }

  /** What neither the authority nor the issuer has signed. */
  predicate Outsider(h: Host, st: State, tx: Tx) {
    match tx
    case Mint(msg) => st.params.Some? ==> msg.authority != st.params.value.issuer
    case Burn(msg) => st.params.Some? ==> msg.authority != st.params.value.issuer
    case Update(msg) => h.codecAddress(msg.authority) != Some(h.authority)
    case _ => true
  }

  /** Runs of outsiders change neither params nor record. */
  lemma {:induction false} OutsidersChangeNothing(h: Host, st: State, dls: seq<Delivery>)
    requires forall i :: 0 <= i < |dls| ==> Outsider(h, st, dls[i].tx)
    ensures Run(h, st, dls).params == st.params && Run(h, st, dls).record == st.record
    decreases |dls|
  {
    hide Deliver;
    if dls != [] {
      var next := Deliver(h, st, dls[0]);
      assert Outsider(h, st, dls[0].tx);
      if next.params != st.params {
        ParamsChangesAreSigned(h, st, dls[0]);
      }
      if next.record != st.record {
        RecordChangesAreIssued(h, st, dls[0]);
      }
      forall i | 0 <= i < |dls[1..]|
        ensures Outsider(h, next, dls[1..][i].tx)
      {
        assert dls[1..][i] == dls[i + 1];
      }
      OutsidersChangeNothing(h, next, dls[1..]);
    }
  }

  // ---------------------------------------------------------------- solvency and the record

  lemma DeliverKeepsSolvent(h: Host, st: State, dl: Delivery)
    requires Solvent(st.bank)
    ensures Solvent(Deliver(h, st, dl).bank)
  {
    hide MintStep, BurnStep, Solvent;
    if Apply(h, dl.locks, st, dl.tx).1 == Done {
      match dl.tx
      case Mint(msg) => MintKeepsSolvency(h, st, msg);
      case Burn(msg) => BurnKeepsSolvency(h, dl.locks, st, msg);
      case Update(_) =>
      case Transfer(from, to, d, n) => SendKeepsSolvent(st.bank, from, to, d, n, Locked(h, dl.locks, from, d));
      case ModuleTransfer(from, to, d, n) => SendKeepsSolvent(st.bank, from, to, d, n, Locked(h, dl.locks, from, d));
      case OtherMint(to, d, n) => MintKeepsSolvent(st.bank, to, d, n);
      case OtherBurn(from, d, n) => BurnKeepsSolvent(st.bank, from, d, n);
    }
  }

  lemma MintMovesRecord(h: Host, st: State, msg: MintValue)
    requires Lawful(h) && RecordOk(st) && MintStep(h, st, msg).1 == Done
    ensures var st' := MintStep(h, st, msg).0;
            RecordOk(st') && Recorded(h, st') == Recorded(h, st) + h.parseInt(msg.amount).value
  {
    hide MintStep, RecordOk, Recorded, Print;
    MintEffect(h, st, msg);
    RecordedRange(h, st);
    RecordWritten(h, MintStep(h, st, msg).0, Recorded(h, st) + h.parseInt(msg.amount).value);
  }

  lemma BurnMovesRecord(h: Host, locks: Locks, st: State, msg: BurnValue)
    requires Lawful(h) && RecordOk(st) && BurnStep(h, locks, st, msg).1 == Done
    ensures var st' := BurnStep(h, locks, st, msg).0;
            RecordOk(st') && Recorded(h, st') == Recorded(h, st) - h.parseInt(msg.amount).value
  {
    hide BurnStep, RecordOk, Recorded, Print;
    BurnEffect(h, locks, st, msg);
    RecordedRange(h, st);
    RecordWritten(h, BurnStep(h, locks, st, msg).0, Recorded(h, st) - h.parseInt(msg.amount).value);
  }

  lemma OthersLeaveRecord(h: Host, locks: Locks, st: State, tx: Tx)
    requires !tx.Mint? && !tx.Burn?
    ensures Apply(h, locks, st, tx).0.record == st.record
    ensures Recorded(h, Apply(h, locks, st, tx).0) == Recorded(h, st)
    ensures tx.Update? || tx.Transfer? || tx.ModuleTransfer? ==> Apply(h, locks, st, tx).0.bank.supply == st.bank.supply
  {
  }

  /** How one delivery moves the record. */
  lemma DeliverMovesRecord(h: Host, st: State, dl: Delivery)
    requires Lawful(h) && RecordOk(st)
    ensures RecordOk(Deliver(h, st, dl))
    ensures var st' := Deliver(h, st, dl);
            if st' == st then true
            else if dl.tx.Mint? then Recorded(h, st') == Recorded(h, st) + h.parseInt(dl.tx.mint.amount).value
            else if dl.tx.Burn? then Recorded(h, st') == Recorded(h, st) - h.parseInt(dl.tx.burn.amount).value
            else Recorded(h, st') == Recorded(h, st)
  {
    hide MintStep, BurnStep, UpdateStep, Recorded;
    if Apply(h, dl.locks, st, dl.tx).1 == Done {
      match dl.tx
      case Mint(msg) => MintMovesRecord(h, st, msg);
      case Burn(msg) => BurnMovesRecord(h, dl.locks, st, msg);
      case _ => OthersLeaveRecord(h, dl.locks, st, dl.tx);
    }
  }

  /** Over any run: the balances of every denomination add up to its supply, and the record
      is a decimal below 2^256 that reads back as it was written. */
  lemma {:induction false} RunsStaySound(h: Host, st: State, dls: seq<Delivery>)
    requires Lawful(h) && Solvent(st.bank) && RecordOk(st)
    ensures var end := Run(h, st, dls);
            && Solvent(end.bank) && RecordOk(end)
            && (end.record.Some? ==>
                  && h.parseInt(end.record.value) == Some(Recorded(h, end))
                  && end.record.value == Print(Recorded(h, end)))
    decreases |dls|
  {
    if dls == [] {
      if st.record.Some? {
        RecordReads(h, st);
      }
    } else {
      DeliverKeepsSolvent(h, st, dls[0]);
      DeliverMovesRecord(h, st, dls[0]);
      RunsStaySound(h, Deliver(h, st, dls[0]), dls[1..]);
    }
  }

  // ---------------------------------------------------------------- supply agreement

  /** Supply of the denominations in `s` that the record does not account for. */
  ghost function Base(h: Host, s: set<Denom>, st: State): int {
    Total(s, st.bank.supply) - Recorded(h, st)
  }

  /** Other modules leave the denominations in `s` alone. */
  predicate KeepsOff(s: set<Denom>, tx: Tx) {
    (tx.OtherMint? || tx.OtherBurn?) ==> tx.denom !in s
  }

  /** Along the run every denomination in force is in `s`, and others keep off `s`. */
  predicate StaysWithin(h: Host, s: set<Denom>, st: State, dls: seq<Delivery>)
    decreases |dls|
  {
    && (st.params.Some? ==> st.params.value.denom in s)
    && (dls != [] ==> KeepsOff(s, dls[0].tx) && StaysWithin(h, s, Deliver(h, st, dls[0]), dls[1..]))
  }

  /** The same said of every point of the run. */
  lemma {:induction false} StaysWithinIff(h: Host, s: set<Denom>, st: State, dls: seq<Delivery>)
    ensures StaysWithin(h, s, st, dls) <==>
            && (forall i :: 0 <= i <= |dls| ==>
                  var p := Run(h, st, dls[..i]).params; p.Some? ==> p.value.denom in s)
            && (forall i :: 0 <= i < |dls| && dls[i].tx.OtherMint? ==> dls[i].tx.denom !in s)
            && (forall i :: 0 <= i < |dls| && dls[i].tx.OtherBurn? ==> dls[i].tx.denom !in s)
    decreases |dls|
  {
    hide Deliver;
    assert dls[..0] == [] && Run(h, st, dls[..0]) == st;
    if dls != [] {
      var next, rest := Deliver(h, st, dls[0]), dls[1..];
      StaysWithinIff(h, s, next, rest);
      forall i | 0 <= i <= |rest|
        ensures Run(h, st, dls[..i + 1]) == Run(h, next, rest[..i])
      {
        assert dls[..i + 1][0] == dls[0] && dls[..i + 1][1..] == rest[..i];
      }
      if StaysWithin(h, s, st, dls) {
        forall i | 0 <= i <= |dls|
          ensures var p := Run(h, st, dls[..i]).params; p.Some? ==> p.value.denom in s
        {
          if i > 0 {
            assert Run(h, st, dls[..i - 1 + 1]) == Run(h, next, rest[..i - 1]);
          }
        }
        forall i | 0 <= i < |dls|
          ensures (dls[i].tx.OtherMint? || dls[i].tx.OtherBurn?) ==> dls[i].tx.denom !in s
        {
          if i > 0 {
            assert dls[i] == rest[i - 1];
          }
        }
      } else if (forall i :: 0 <= i <= |dls| ==> var p := Run(h, st, dls[..i]).params; p.Some? ==> p.value.denom in s)
                && KeepsOff(s, dls[0].tx) {
        forall i | 0 <= i <= |rest|
          ensures var p := Run(h, next, rest[..i]).params; p.Some? ==> p.value.denom in s
        {
          assert Run(h, st, dls[..i + 1]) == Run(h, next, rest[..i]);
        }
        assert forall i :: 0 <= i < |rest| ==> rest[i] == dls[i + 1];
      }
    }
  }

  lemma MintKeepsBase(h: Host, s: set<Denom>, st: State, msg: MintValue)
    requires Lawful(h) && RecordOk(st) && MintStep(h, st, msg).1 == Done
    requires st.params.Some? ==> st.params.value.denom in s
    ensures Base(h, s, MintStep(h, st, msg).0) == Base(h, s, st)
  {
    hide MintStep, RecordOk, Recorded, Total, Print;
    MintEffect(h, st, msg);
    MintMovesRecord(h, st, msg);
    TotalWith(s, st.bank.supply, st.params.value.denom,
        st.bank.Supply(st.params.value.denom) + h.parseInt(msg.amount).value);
  }

  lemma BurnKeepsBase(h: Host, s: set<Denom>, locks: Locks, st: State, msg: BurnValue)
    requires Lawful(h) && RecordOk(st) && BurnStep(h, locks, st, msg).1 == Done
    requires st.params.Some? ==> st.params.value.denom in s
    ensures Base(h, s, BurnStep(h, locks, st, msg).0) == Base(h, s, st)
  {
    hide BurnStep, RecordOk, Recorded, Total, Print;
    BurnEffect(h, locks, st, msg);
    BurnMovesRecord(h, locks, st, msg);
    TotalWith(s, st.bank.supply, st.params.value.denom,
        st.bank.Supply(st.params.value.denom) - h.parseInt(msg.amount).value);
  }

  lemma OthersKeepBase(h: Host, s: set<Denom>, locks: Locks, st: State, tx: Tx)
    requires !tx.Mint? && !tx.Burn? && KeepsOff(s, tx)
    ensures Base(h, s, Apply(h, locks, st, tx).0) == Base(h, s, st)
  {
    hide Recorded, Total, UpdateStep;
    OthersLeaveRecord(h, locks, st, tx);
    match tx
    case OtherMint(_, d, n) => TotalWith(s, st.bank.supply, d, st.bank.Supply(d) + n);
    case OtherBurn(_, d, n) =>
      if n <= st.bank.Supply(d) {
        TotalWith(s, st.bank.supply, d, st.bank.Supply(d) - n);
      }
    case _ =>
  }

  lemma DeliverKeepsBase(h: Host, s: set<Denom>, st: State, dl: Delivery)
    requires Lawful(h) && RecordOk(st) && KeepsOff(s, dl.tx)
    requires st.params.Some? ==> st.params.value.denom in s
    ensures Base(h, s, Deliver(h, st, dl)) == Base(h, s, st)
  {
    hide MintStep, BurnStep, UpdateStep, Base;
    if Apply(h, dl.locks, st, dl.tx).1 == Done {
      match dl.tx
      case Mint(msg) => MintKeepsBase(h, s, st, msg);
      case Burn(msg) => BurnKeepsBase(h, s, dl.locks, st, msg);
      case _ => OthersKeepBase(h, s, dl.locks, st, dl.tx);
    }
  }

  /** Supply agreement with a changing denomination: over a run whose denominations in force
      all lie in `s`, the supply of `s` less the recorded total never moves. */
  lemma {:induction false} RunKeepsBase(h: Host, s: set<Denom>, st: State, dls: seq<Delivery>)
    requires Lawful(h) && RecordOk(st) && StaysWithin(h, s, st, dls)
    ensures Base(h, s, Run(h, st, dls)) == Base(h, s, st)
    decreases |dls|
  {
    if dls != [] {
      DeliverMovesRecord(h, st, dls[0]);
      DeliverKeepsBase(h, s, st, dls[0]);
      RunKeepsBase(h, s, Deliver(h, st, dls[0]), dls[1..]);
    }
  }

  lemma TotalOfOne(d: Denom, supply: Book)
    ensures Total({d}, supply) == Amount(supply, d)
  {
    TotalWithout({d}, supply, d);
    assert {d} - {d} == {};
  }

  /** With one denomination: bank supply = base + recorded total, and the balances add up. */
  lemma SupplyAgreement(h: Host, d: Denom, st: State, dls: seq<Delivery>)
    requires Lawful(h) && RecordOk(st) && Solvent(st.bank) && StaysWithin(h, {d}, st, dls)
    ensures var end, base := Run(h, st, dls), st.bank.Supply(d) - Recorded(h, st);
            end.bank.Supply(d) == base + Recorded(h, end) == Sum(end.bank.Accounts(d))
  {
    RunsStaySound(h, st, dls);
    RunKeepsBase(h, {d}, st, dls);
    TotalOfOne(d, st.bank.supply);
    TotalOfOne(d, Run(h, st, dls).bank.supply);
  }

  // ---------------------------------------------------------------- the underflow branch

  lemma {:induction false} LastDenomWithin(h: Host, s: set<Denom>, st: State, dls: seq<Delivery>)
    requires StaysWithin(h, s, st, dls)
    ensures var end := Run(h, st, dls); end.params.Some? ==> end.params.value.denom in s
    decreases |dls|
  {
    if dls != [] {
      LastDenomWithin(h, s, Deliver(h, st, dls[0]), dls[1..]);
    }
  }

  lemma NoUnderflowWithoutBase(h: Host, s: set<Denom>, locks: Locks, st: State, msg: BurnValue)
    requires Solvent(st.bank) && Base(h, s, st) <= 0
    requires st.params.Some? ==> st.params.value.denom in s
    ensures BurnStep(h, locks, st, msg).1 != Underflow
  {
    if BurnStep(h, locks, st, msg).1 == Underflow {
      var d, from := st.params.value.denom, h.accAddress(msg.fromAddress).value;
      BalanceAtMostSupply(st.bank, from, d);
      SupplyAtMostTotal(s, st.bank.supply, d);
    }
  }

  /** In a run that starts with no unrecorded supply, Burn's underflow branch is dead. */
  lemma UnderflowUnreachable(h: Host, s: set<Denom>, st: State, dls: seq<Delivery>, locks: Locks, msg: BurnValue)
    requires Lawful(h) && RecordOk(st) && Solvent(st.bank) && StaysWithin(h, s, st, dls)
    requires Base(h, s, st) <= 0
    ensures BurnStep(h, locks, Run(h, st, dls), msg).1 != Underflow
  {
    RunsStaySound(h, st, dls);
    RunKeepsBase(h, s, st, dls);
    LastDenomWithin(h, s, st, dls);
    NoUnderflowWithoutBase(h, s, locks, Run(h, st, dls), msg);
  }

  /** A run that keeps to the denomination `d` and a Burn after it that underflows. */
  ghost predicate UnderflowsAfter(h: Host, d: Denom, st: State, dls: seq<Delivery>, locks: Locks, msg: BurnValue) {
    StaysWithin(h, {d}, st, dls) && BurnStep(h, locks, Run(h, st, dls), msg).1 == Underflow
  }

  /** Every holder of `d` has an address. */
  ghost predicate Addressed(h: Host, d: Denom, b: BankState) {
    forall a :: b.Balance(a, d) > 0 ==> exists s :: h.accAddress(s) == Some(a)
  }

  ghost predicate OnlyBurns(dls: seq<Delivery>) {
    forall i :: 0 <= i < |dls| ==> dls[i].tx.Burn?
  }

  /** Where Burns alone can lead on to Burns: the module is active in `d`, and its holders can
      be named. */
  ghost predicate Burnable(h: Host, d: Denom, st: State) {
    && RecordOk(st) && Solvent(st.bank) && st.bank.Supply(d) < INT_LIMIT && Addressed(h, d, st.bank)
    && st.params.Some? && st.params.value.denom == d && !st.params.value.paused && h.validDenom(d)
  }

  lemma SomeHolder(b: BankState, d: Denom) returns (a: Account)
    requires Solvent(b) && b.Supply(d) > 0
    ensures b.Balance(a, d) > 0
  {
    assert Sum(b.Accounts(d)) == b.Supply(d);
    a := PositiveEntry(b.Accounts(d));
  }

  lemma {:induction false} PositiveEntry(b: Book) returns (k: Bytes)
    requires Sum(b) > 0
    ensures Amount(b, k) > 0
    decreases |b|
  {
    var j :| j in b;
    k := j;
    if b[j] == 0 {
      SumWithout(b, j);
      assert (b - {j}).Keys == b.Keys - {j};
      k := PositiveEntry(b - {j});
    }
  }

  /** The Burn of all that an address holds. */
  lemma HolderBurn(h: Host, d: Denom, st: State) returns (msg: BurnValue, n: nat)
    requires Lawful(h) && Burnable(h, d, st) && st.bank.Supply(d) > 0
    ensures 0 < n <= st.bank.Supply(d) && h.parseInt(msg.amount) == Some(n)
    ensures n <= Recorded(h, st) ==> BurnStep(h, map[], st, msg).1 == Done
    ensures n > Recorded(h, st) ==> BurnStep(h, map[], st, msg).1 == Underflow
  {
    hide Recorded, RecordOk, Solvent, BurnStep, Print;
    var a := SomeHolder(st.bank, d);
    n := st.bank.Balance(a, d);
    BalanceAtMostSupply(st.bank, a, d);
    var s :| h.accAddress(s) == Some(a);
    msg := BurnValue(st.params.value.issuer, s, Print(n));
    assert h.parseInt(Print(n)) == Some(n);
    BurnAccepts(h, map[], st, msg);
    if n > Recorded(h, st) {
      BurnUnderflows(h, d, st, msg, a, n);
    }
  }

  lemma BurnUnderflows(h: Host, d: Denom, st: State, msg: BurnValue, a: Account, n: nat)
    requires Solvent(st.bank) && st.bank.Supply(d) < INT_LIMIT && Gate(st, msg.authority) == Done &&
             st.params.value.denom == d
    requires h.accAddress(msg.fromAddress) == Some(a) && h.parseInt(msg.amount) == Some(n) && h.validDenom(d)
    requires 0 < n <= st.bank.Balance(a, d) && n > Recorded(h, st)
    ensures BurnStep(h, map[], st, msg).1 == Underflow
  {
    hide Recorded, Solvent, BankState.Send, BankState.Burn;
    SpentCoinsBurn(st.bank, a, h.moduleAccount, d, n, 0);
  }

  /** A successful Burn leaves Burns possible, with supply and record shorter by the amount. */
  lemma BurnedOn(h: Host, d: Denom, st: State, msg: BurnValue) returns (next: State)
    requires Lawful(h) && Burnable(h, d, st) && BurnStep(h, map[], st, msg).1 == Done
    ensures next == BurnStep(h, map[], st, msg).0 && next.params == st.params && Burnable(h, d, next)
    ensures h.parseInt(msg.amount).Some? && h.parseInt(msg.amount).value > 0
    ensures next.bank.Supply(d) == st.bank.Supply(d) - h.parseInt(msg.amount).value
    ensures Recorded(h, next) == Recorded(h, st) - h.parseInt(msg.amount).value
  {
    hide Recorded, RecordOk, Solvent, BurnStep, Print;
    next := BurnStep(h, map[], st, msg).0;
    BurnEffect(h, map[], st, msg);
    BurnMovesRecord(h, map[], st, msg);
    BurnKeepsSolvency(h, map[], st, msg);
    forall a | next.bank.Balance(a, d) > 0
      ensures exists s :: h.accAddress(s) == Some(a)
    {
      BurnBalances(h, map[], st, msg, a, d);
      assert st.bank.Balance(a, d) > 0;
    }
  }

  /** While some supply is not recorded, Burns of whole holdings come to one that the record does
      not cover. */
  lemma {:induction false} BurnsUnderflow(h: Host, d: Denom, st: State) returns (dls: seq<Delivery>, msg: BurnValue)
    requires Lawful(h) && Burnable(h, d, st) && st.bank.Supply(d) > Recorded(h, st)
    ensures OnlyBurns(dls) && UnderflowsAfter(h, d, st, dls, map[], msg)
    decreases st.bank.Supply(d)
  {
    hide Recorded, BurnStep, Burnable;
    NotNegative(h, d, st);
    var n;
    msg, n := HolderBurn(h, d, st);
    dls := [];
    if n > Recorded(h, st) {
      NoDelivery(h, d, st);
    } else {
      var next := BurnedOn(h, d, st, msg);
      var rest;
      var first := Delivery(Burn(msg), map[], false);
      rest, msg := BurnsUnderflow(h, d, next);
      dls := [first] + rest;
      OneMore(h, d, st, first, rest, msg);
    }
  }

  lemma NotNegative(h: Host, d: Denom, st: State)
    requires Lawful(h) && Burnable(h, d, st)
    ensures Recorded(h, st) >= 0 && st.params.Some? && st.params.value.denom == d
  {
    hide Recorded, RecordOk;
    RecordedRange(h, st);
  }

  lemma NoDelivery(h: Host, d: Denom, st: State)
    requires st.params.Some? && st.params.value.denom == d
    ensures Run(h, st, []) == st && StaysWithin(h, {d}, st, [])
  {
  }

  lemma OneMore(h: Host, d: Denom, st: State, first: Delivery, rest: seq<Delivery>, msg: BurnValue)
    requires st.params.Some? && st.params.value.denom == d && first.tx.Burn?
    requires UnderflowsAfter(h, d, Deliver(h, st, first), rest, map[], msg)
    ensures UnderflowsAfter(h, d, st, [first] + rest, map[], msg)
  {
    hide Deliver, BurnStep;
    var dls := [first] + rest;
    assert dls[0] == first && dls[1..] == rest;
  }

  /** With the denomination in use, an active issuer and holders that have addresses, the
      underflow branch can be reached exactly when some supply is not recorded; Burns alone
      lead there. */
  lemma UnderflowReachableIffBase(h: Host, d: Denom, st: State)
    requires Lawful(h) && Burnable(h, d, st)
    ensures st.bank.Supply(d) > Recorded(h, st) <==>
            exists dls, locks, msg :: UnderflowsAfter(h, d, st, dls, locks, msg)
    ensures st.bank.Supply(d) > Recorded(h, st) <==>
            exists dls, msg :: OnlyBurns(dls) && UnderflowsAfter(h, d, st, dls, map[], msg)
  {
    hide Recorded, UnderflowsAfter;
    TotalOfOne(d, st.bank.supply);
    if st.bank.Supply(d) > Recorded(h, st) {
      var dls, msg := BurnsUnderflow(h, d, st);
      assert UnderflowsAfter(h, d, st, dls, map[], msg);
    } else {
      forall dls, locks, msg
        ensures !UnderflowsAfter(h, d, st, dls, locks, msg)
      {
        NeverUnderflows(h, d, st, dls, locks, msg);
      }
    }
  }

  lemma NeverUnderflows(h: Host, d: Denom, st: State, dls: seq<Delivery>, locks: Locks, msg: BurnValue)
    requires Lawful(h) && RecordOk(st) && Solvent(st.bank) && st.bank.Supply(d) <= Recorded(h, st)
    ensures !UnderflowsAfter(h, d, st, dls, locks, msg)
  {
    TotalOfOne(d, st.bank.supply);
    if StaysWithin(h, {d}, st, dls) {
      UnderflowUnreachable(h, {d}, st, dls, locks, msg);
    }
  }

  /** Export and import of the genesis state: the params travel, the record does not, the
      bank carries its own balances over. */
  function Reimport(st: State): State {
    st.(record := None)
  }

  lemma {:induction false} NothingRecordedWithoutMint(h: Host, st: State, dls: seq<Delivery>)
    requires Lawful(h) && st.record.None? && forall i :: 0 <= i < |dls| ==> !dls[i].tx.Mint?
    ensures Run(h, st, dls).record.None?
    decreases |dls|
  {
    if dls != [] {
      if dls[0].tx.Burn? && BurnStep(h, dls[0].locks, st, dls[0].tx.burn).1 == Done {
        BurnEffect(h, dls[0].locks, st, dls[0].tx.burn);
      }
      NothingRecordedWithoutMint(h, Deliver(h, st, dls[0]), dls[1..]);
    }
  }

  /** After an import the whole supply is base: until the next Mint no Burn succeeds, and a
      Burn that would have succeeded before ends in the underflow branch. */
  lemma ReimportStopsBurning(h: Host, st: State, dls: seq<Delivery>, locks: Locks, msg: BurnValue)
    requires Lawful(h) && forall i :: 0 <= i < |dls| ==> !dls[i].tx.Mint?
    ensures BurnStep(h, locks, Run(h, Reimport(st), dls), msg).1 != Done
    ensures BurnStep(h, locks, st, msg).1 == Done ==> BurnStep(h, locks, Reimport(st), msg).1 == Underflow
  {
    NothingRecordedWithoutMint(h, Reimport(st), dls);
    var end := Run(h, Reimport(st), dls);
    if BurnStep(h, locks, end, msg).1 == Done {
      BurnEffect(h, locks, end, msg);
    }
  }

  // ---------------------------------------------------------------- the cap

  /** The cap in force; zero when there is none. */
  function Cap(h: Host, st: State): int {
    if st.params.None? || h.parseInt(st.params.value.maxSupply).None? then 0
    else h.parseInt(st.params.value.maxSupply).value
  }

  lemma CapIs(h: Host, st: State)
    ensures st.params.Some? && h.parseInt(st.params.value.maxSupply).Some? ==>
              Some(Cap(h, st)) == h.parseInt(st.params.value.maxSupply)
    ensures st.params.None? || h.parseInt(st.params.value.maxSupply).None? ==> Cap(h, st) == 0
  {
  }

  function Max(x: int, y: int): int {
    if x >= y then x else y
  }

  /** The highest cap in force at any point of the run. */
  function HighestCap(h: Host, st: State, dls: seq<Delivery>): int
    decreases |dls|
  {
    if dls == [] then Cap(h, st) else Max(Cap(h, st), HighestCap(h, Deliver(h, st, dls[0]), dls[1..]))
  }

  /** It is the cap at some point of the run, and at no point is the cap higher. */
  lemma {:induction false} HighestCapIs(h: Host, st: State, dls: seq<Delivery>) returns (at: nat)
    ensures at <= |dls| && HighestCap(h, st, dls) == Cap(h, Run(h, st, dls[..at]))
    ensures forall i :: 0 <= i <= |dls| ==> Cap(h, Run(h, st, dls[..i])) <= HighestCap(h, st, dls)
    decreases |dls|
  {
    hide Deliver, Cap;
    at := 0;
    assert dls[..0] == [] && Run(h, st, dls[..0]) == st;
    if dls != [] {
      var next, rest := Deliver(h, st, dls[0]), dls[1..];
      var k := HighestCapIs(h, next, rest);
      forall i | 0 <= i <= |rest|
        ensures Run(h, st, dls[..i + 1]) == Run(h, next, rest[..i])
      {
        assert dls[..i + 1][0] == dls[0] && dls[..i + 1][1..] == rest[..i];
      }
      if HighestCap(h, next, rest) > Cap(h, st) {
        at := k + 1;
      }
      forall i | 0 <= i <= |dls|
        ensures Cap(h, Run(h, st, dls[..i])) <= HighestCap(h, st, dls)
      {
        if i > 0 {
          assert Run(h, st, dls[..i - 1 + 1]) == Run(h, next, rest[..i - 1]);
        }
      }
    }
  }

  /** A step takes the record no higher than the cap, and while the record is above a
      lowered cap, no step raises it. */
  lemma DeliverRespectsCap(h: Host, st: State, dl: Delivery)
    requires Lawful(h) && RecordOk(st)
    ensures Recorded(h, Deliver(h, st, dl)) <= Max(Recorded(h, st), Cap(h, st))
    ensures Recorded(h, st) >= Cap(h, st) ==> Recorded(h, Deliver(h, st, dl)) <= Recorded(h, st)
  {
    DeliverMovesRecord(h, st, dl);
    if Deliver(h, st, dl) != st {
      if dl.tx.Mint? {
        MintEffect(h, st, dl.tx.mint);
      } else if dl.tx.Burn? {
        BurnEffect(h, dl.locks, st, dl.tx.burn);
      }
    }
  }

  /** Over any run the record stays within the highest cap ever in force, or where it began. */
  lemma {:induction false} RunRespectsCap(h: Host, st: State, dls: seq<Delivery>)
    requires Lawful(h) && RecordOk(st)
    ensures 0 <= Recorded(h, Run(h, st, dls)) <= Max(Recorded(h, st), HighestCap(h, st, dls))
    decreases |dls|
  {
    RecordedRange(h, st);
    if dls != [] {
      DeliverRespectsCap(h, st, dls[0]);
      DeliverMovesRecord(h, st, dls[0]);
      RunRespectsCap(h, Deliver(h, st, dls[0]), dls[1..]);
    }
  }

  /** The coins in existence: over a run with one denomination they stay within the supply that
      is not recorded plus the highest cap ever in force, or plus where the record began. */
  lemma RunLimitsSupply(h: Host, d: Denom, st: State, dls: seq<Delivery>)
    requires Lawful(h) && RecordOk(st) && Solvent(st.bank) && StaysWithin(h, {d}, st, dls)
    ensures Run(h, st, dls).bank.Supply(d) <= st.bank.Supply(d) - Recorded(h, st)
            + Max(Recorded(h, st), HighestCap(h, st, dls))
  {
    SupplyAgreement(h, d, st, dls);
    RunRespectsCap(h, st, dls);
  }

  lemma {:induction false} HighestCapFromStart(h: Host, st: State, dls: seq<Delivery>)
    ensures HighestCap(h, st, dls) >= Cap(h, st)
    decreases |dls|
  {
  }

  /** A run that keeps to the denomination `d` and makes more of it than any cap allowed. */
  ghost predicate PassesCap(h: Host, d: Denom, st: State, dls: seq<Delivery>) {
    StaysWithin(h, {d}, st, dls) && Run(h, st, dls).bank.Supply(d) > HighestCap(h, st, dls)
  }

  /** With the denomination in use, an open account and an active issuer, the coins in existence
      can pass the cap exactly when some supply is not recorded. */
  lemma SupplyPassesCapIffBase(h: Host, d: Denom, st: State, address: Bytes)
    requires Lawful(h) && RecordOk(st) && Solvent(st.bank) && Recorded(h, st) <= Cap(h, st) < INT_LIMIT - 1
    requires st.params.Some? && st.params.value.denom == d && !st.params.value.paused && h.validDenom(d)
    requires h.parseInt(st.params.value.maxSupply).Some?
    requires h.accAddress(address).Some? && h.accAddress(address).value !in h.blocked
    ensures st.bank.Supply(d) > Recorded(h, st) <==> exists dls :: PassesCap(h, d, st, dls)
  {
    if st.bank.Supply(d) > Recorded(h, st) {
      var dls := MintPastCap(h, d, st, address);
      assert PassesCap(h, d, st, dls);
    } else {
      forall dls | StaysWithin(h, {d}, st, dls)
        ensures !PassesCap(h, d, st, dls)
      {
        RunLimitsSupply(h, d, st, dls);
        HighestCapFromStart(h, st, dls);
      }
    }
  }

  /** One Mint of what is missing to the cap and one coin more, if anything is missing. */
  lemma MintPastCap(h: Host, d: Denom, st: State, address: Bytes) returns (dls: seq<Delivery>)
    requires Lawful(h) && RecordOk(st) && Solvent(st.bank) && Recorded(h, st) <= Cap(h, st) < INT_LIMIT - 1
    requires st.params.Some? && st.params.value.denom == d && !st.params.value.paused && h.validDenom(d)
    requires h.parseInt(st.params.value.maxSupply).Some?
    requires h.accAddress(address).Some? && h.accAddress(address).value !in h.blocked
    requires st.bank.Supply(d) > Recorded(h, st)
    ensures PassesCap(h, d, st, dls)
  {
    hide Recorded, MintStep, RecordOk, Print;
    RecordedRange(h, st);
    dls := [];
    assert Run(h, st, dls) == st && HighestCap(h, st, dls) == Cap(h, st) && StaysWithin(h, {d}, st, dls);
    if st.bank.Supply(d) <= Cap(h, st) {
      var n := Cap(h, st) + 1 - st.bank.Supply(d);
      var msg := MintValue(st.params.value.issuer, address, Print(n));
      assert h.parseInt(Print(n)) == Some(n);
      MintAccepts(h, st, msg);
      MintEffect(h, st, msg);
      var dl := Delivery(Mint(msg), map[], false);
      dls := [dl];
      assert Deliver(h, st, dl) == MintStep(h, st, msg).0;
      OneDelivery(h, d, st, dl);
    }
  }

  lemma OneDelivery(h: Host, d: Denom, st: State, dl: Delivery)
    requires dl.tx.Mint? && st.params.Some? && st.params.value.denom == d && Deliver(h, st, dl).params == st.params
    ensures Run(h, st, [dl]) == Deliver(h, st, dl)
    ensures StaysWithin(h, {d}, st, [dl])
    ensures HighestCap(h, st, [dl]) == Cap(h, st)
  {
    hide Deliver;
    var dls := [dl];
    assert dls[1..] == [];
    assert StaysWithin(h, {d}, Deliver(h, st, dl), []);
    assert HighestCap(h, Deliver(h, st, dl), []) == Cap(h, st);
  }

  // ---------------------------------------------------------------- params

  /** Params that passed validation stay valid over every run, so the cap stays readable
      and positive. */
  lemma {:induction false} ParamsStayValid(h: Host, st: State, dls: seq<Delivery>)
    requires st.params.Some? && Validate(h, st.params.value) == Done
    ensures var end := Run(h, st, dls);
            end.params.Some? && Validate(h, end.params.value) == Done && Cap(h, end) > 0
    decreases |dls|
  {
    if dls != [] {
      ParamsStayValid(h, Deliver(h, st, dls[0]), dls[1..]);
    }
  }
}
