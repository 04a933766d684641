/** The stablecoin module's ledger: what one message does to the params, the recorded total
    supply and the bank. */
module Ledger {
  import opened Wire
  import opened Decimal
  import opened Bank
  import opened Messages

  /** The libraries and the configuration the keeper relies on. */
  datatype Host = Host(
    parseInt: Bytes -> Option<int>,             // sdkmath.NewIntFromString
    accAddress: Bytes -> Option<Account>,       // sdk.AccAddressFromBech32
    codecAddress: Bytes -> Option<Account>,     // the keeper's address codec
    blank: Bytes -> bool,                       // strings.TrimSpace(s) == ""
    validDenom: Denom -> bool,                  // sdk.NewCoin panics otherwise
    moduleAccount: Account,
    authority: Account,
    blocked: set<Account>)

  /** What is assumed of the integer parser: it reads the decimals that integers print as,
      up to 256 bits, and returns nothing larger. Other spellings are left open. */
  ghost predicate Lawful(h: Host) {
    && (forall n :: h.parseInt(Print(n)) == if -INT_LIMIT < n < INT_LIMIT then Some(n) else None)
    && (forall s :: h.parseInt(s).Some? ==> -INT_LIMIT < h.parseInt(s).value < INT_LIMIT)
  }

  /** The decimal parser, cut at 256 bits, is a lawful one. */
  function ParseInt256(s: Bytes): Option<int> {
    var r := ReadDecimal(s);
    if r.Some? && -INT_LIMIT < r.value < INT_LIMIT then r else None
  }

  lemma DecimalHostIsLawful(h: Host)
    requires h.parseInt == ParseInt256
    ensures Lawful(h)
  {
    forall n
      ensures h.parseInt(Print(n)) == if -INT_LIMIT < n < INT_LIMIT then Some(n) else None
    {
      ReadIsInverse(Print(n), n);
    }
  }

  datatype State = State(params: Option<ParamsValue>, record: Option<Bytes>, bank: BankState)

  datatype Verdict =
    | Done
    | ParamsNotFound
    | Paused
    | NotIssuer
    | InvalidAmount
    | UnreadableCap
    | ExceedsCap
    | BadAddress
    | BankRefused
    | Underflow
    | InvalidSigner
    | InvalidDenom
    | InvalidIssuer
    | InvalidMaxSupply
    | Panic

  /** `GetTotalSupply`: an absent or unreadable record counts as zero. */
  function Recorded(h: Host, st: State): int {
    if st.record.None? then 0
    else match h.parseInt(st.record.value)
      case None => 0
      case Some(n) => n
  }

  /** What is recorded: the number that the record reads as, zero without one or if it does not. */
  lemma RecordedIs(h: Host, st: State)
    ensures st.record.None? ==> Recorded(h, st) == 0
    ensures st.record.Some? && h.parseInt(st.record.value).None? ==> Recorded(h, st) == 0
    ensures st.record.Some? && h.parseInt(st.record.value).Some? ==>
              Some(Recorded(h, st)) == h.parseInt(st.record.value)
  {
  }

  /** The recorded total depends on the record alone. */
  lemma RecordedByRecord(h: Host, st: State, st': State)
    requires st.record == st'.record
    ensures Recorded(h, st) == Recorded(h, st')
  {
  }

  /** Coins of accounts other than the module's that are not spendable at the moment. */
  type Locks = map<(Account, Denom), nat>

  function Locked(h: Host, locks: Locks, a: Account, d: Denom): nat {
    if a != h.moduleAccount && (a, d) in locks then locks[(a, d)] else 0
  }

  // ---------------------------------------------------------------- messages

  /** What Mint and Burn check first. */
  function Gate(st: State, authority: Bytes): Verdict {
    if st.params.None? then ParamsNotFound
    else if st.params.value.paused then Paused
    else if authority != st.params.value.issuer then NotIssuer
    else Done
  }

  function MintStep(h: Host, st: State, msg: MintValue): (State, Verdict) {
    if Gate(st, msg.authority) != Done then (st, Gate(st, msg.authority)) else
    var p := st.params.value;
    var amount := h.parseInt(msg.amount);
    if amount.None? || amount.value <= 0 then (st, InvalidAmount) else
    var cap := h.parseInt(p.maxSupply);
    if cap.None? then (st, UnreadableCap) else
    var total := Recorded(h, st) + amount.value;
    if total >= INT_LIMIT then (st, Panic) else
    if total > cap.value then (st, ExceedsCap) else
    var to := h.accAddress(msg.toAddress);
    if to.None? then (st, BadAddress) else
    if !h.validDenom(p.denom) then (st, Panic) else
    var minted := st.bank.Mint(h.moduleAccount, p.denom, amount.value);
    if minted.None? then (st, Panic) else
    var sent := minted.value.Send(h.moduleAccount, to.value, p.denom, amount.value, 0);
    if to.value in h.blocked || sent.None? then (st.(bank := minted.value), BankRefused) else
    (st.(bank := sent.value, record := Some(Print(total))), Done)
  }

  function BurnStep(h: Host, locks: Locks, st: State, msg: BurnValue): (State, Verdict) {
    if Gate(st, msg.authority) != Done then (st, Gate(st, msg.authority)) else
    var p := st.params.value;
    var from := h.accAddress(msg.fromAddress);
    if from.None? then (st, BadAddress) else
    var amount := h.parseInt(msg.amount);
    if amount.None? || amount.value <= 0 then (st, InvalidAmount) else
    if !h.validDenom(p.denom) then (st, Panic) else
    var sent := st.bank.Send(from.value, h.moduleAccount, p.denom, amount.value, Locked(h, locks, from.value, p.denom));
    if sent.None? then (st, BankRefused) else
    var burnt := sent.value.Burn(h.moduleAccount, p.denom, amount.value);
    if burnt.None? then (st.(bank := sent.value), Panic) else
    if Recorded(h, st) < amount.value then (st.(bank := burnt.value), Underflow) else
    (st.(bank := burnt.value, record := Some(Print(Recorded(h, st) - amount.value))), Done)
  }

  /** `Params.Validate`. */
  function Validate(h: Host, p: ParamsValue): Verdict {
    if h.blank(p.denom) then InvalidDenom
    else if h.blank(p.issuer) || h.accAddress(p.issuer).None? then InvalidIssuer
    else if h.blank(p.maxSupply) || h.parseInt(p.maxSupply).None? || h.parseInt(p.maxSupply).value <= 0
    then InvalidMaxSupply
    else Done
  }

  function UpdateStep(h: Host, st: State, msg: UpdateParamsValue): (State, Verdict) {
    var authority := h.codecAddress(msg.authority);
    if authority.None? then (st, BadAddress)
    else if authority.value != h.authority then (st, InvalidSigner)
    else if Validate(h, msg.params) != Done then (st, Validate(h, msg.params))
    else (st.(params := Some(msg.params)), Done)
  }

  /** `UpdateParams` is carried out exactly when the module's authority signs for params with a
      denomination, an issuer that has an account and a positive cap; then they are the params,
      and nothing else changes. */
  lemma UpdateAccepts(h: Host, st: State, msg: UpdateParamsValue)
    ensures UpdateStep(h, st, msg).1 == Done <==>
            && h.codecAddress(msg.authority) == Some(h.authority)
            && !h.blank(msg.params.denom) && !h.blank(msg.params.issuer) && !h.blank(msg.params.maxSupply)
            && h.accAddress(msg.params.issuer).Some?
            && h.parseInt(msg.params.maxSupply).Some? && h.parseInt(msg.params.maxSupply).value > 0
    ensures UpdateStep(h, st, msg).1 == Done ==> UpdateStep(h, st, msg).0 == State(Some(msg.params), st.record, st.bank)
    ensures UpdateStep(h, st, msg).1 != Done ==> UpdateStep(h, st, msg).0 == st
  {
  }

  /** Why `UpdateParams` is refused, the earlier reason first. */
  lemma UpdateRefuses(h: Host, st: State, msg: UpdateParamsValue)
    ensures var v, a, p := UpdateStep(h, st, msg).1, h.codecAddress(msg.authority), msg.params;
            && (v == BadAddress <==> a.None?)
            && (v == InvalidSigner <==> a.Some? && a.value != h.authority)
            && (v == InvalidDenom <==> a == Some(h.authority) && h.blank(p.denom))
            && (v == InvalidIssuer <==> a == Some(h.authority) && !h.blank(p.denom)
                                        && (h.blank(p.issuer) || h.accAddress(p.issuer).None?))
            && v in {Done, BadAddress, InvalidSigner, InvalidDenom, InvalidIssuer, InvalidMaxSupply}
  {
  }

  function Ascii(s: string): Bytes {
    seq(|s|, i requires 0 <= i < |s| => if s[i] < 128 as char then s[i] as int else 0)
  }

  /** `DefaultParams`. */
  const DEFAULT_PARAMS :=
    ParamsValue(Ascii("cosmos19jvll7zgcj6fafavwa8e5gns77shtt8dr430g8"), Ascii("ustb"), false, Ascii("1000000000000000"))

  /** The default params are valid wherever their issuer's address is, with a cap of 10^15. */
  lemma DefaultParamsAreValid(h: Host)
    requires Lawful(h) && h.accAddress(DEFAULT_PARAMS.issuer).Some?
    requires !h.blank(DEFAULT_PARAMS.denom) && !h.blank(DEFAULT_PARAMS.issuer) && !h.blank(DEFAULT_PARAMS.maxSupply)
    ensures Validate(h, DEFAULT_PARAMS) == Done
    ensures h.parseInt(DEFAULT_PARAMS.maxSupply) == Some(1_000_000_000_000_000)
  {
    hide Ascii, Print;
    DefaultCapReads();
    assert h.parseInt(Print(1_000_000_000_000_000)) == Some(1_000_000_000_000_000);
  }

  lemma DefaultCapReads()
    ensures Ascii("1000000000000000") == Print(1_000_000_000_000_000)
  {
    hide Val, Pow10, Digits;
    var one: Bytes, zeros: Bytes := [ZERO + 1], seq(15, _ => ZERO);
    assert Ascii("1000000000000000") == one + zeros;
    hide Ascii;
    ValZeros(zeros);
    ValConcat(one, zeros);
    ValOne();
    Pow10Fifteen();
    CanonicalIsDigits(one + zeros, 1_000_000_000_000_000);
  }

  lemma ValOne()
    ensures Val([ZERO + 1]) == 1
  {
    assert [ZERO + 1][..0] == [];
  }

  lemma Pow10Fifteen()
    ensures Pow10(15) == 1_000_000_000_000_000
  {
    assert Pow10(5) == 100_000 by {
      assert Pow10(3) == 1000;
    }
    assert Pow10(10) == 100_000 * Pow10(5) by {
      assert Pow10(8) == 1000 * Pow10(5);
    }
    assert Pow10(13) == 1000 * Pow10(10);
  }

  /** The default params, letter by letter; the issuer is the one of the source. */
  lemma DefaultParamsAre()
    ensures DEFAULT_PARAMS.denom == [0x75, 0x73, 0x74, 0x62] && !DEFAULT_PARAMS.paused
    ensures DEFAULT_PARAMS.maxSupply == [0x31] + seq(15, _ => 0x30)
    ensures DEFAULT_PARAMS.issuer ==
              [99, 111, 115, 109, 111, 115, 49, 57, 106]
              + [118, 108, 108, 55, 122, 103, 99, 106, 54]
              + [102, 97, 102, 97, 118, 119, 97, 56, 101]
              + [53, 103, 110, 115, 55, 55, 115, 104, 116]
              + [116, 56, 100, 114, 52, 51, 48, 103, 56]
  {
    IssuerParts();
    IssuerLetters();
    OtherDefaults();
    hide Ascii;
    var a, b, c, d, e := "cosmos19j", "vll7zgcj6", "fafavwa8e", "5gns77sht", "t8dr430g8";
    AsciiJoin(a, b);
    AsciiJoin(a + b, c);
    AsciiJoin(a + b + c, d);
    AsciiJoin(a + b + c + d, e);
  }

  lemma IssuerParts()
    ensures "cosmos19jvll7zgcj6fafavwa8e5gns77shtt8dr430g8"
            == "cosmos19j" + "vll7zgcj6" + "fafavwa8e" + "5gns77sht" + "t8dr430g8"
  {
  }

  lemma OtherDefaults()
    ensures DEFAULT_PARAMS.denom == [0x75, 0x73, 0x74, 0x62]
    ensures DEFAULT_PARAMS.maxSupply == [0x31] + seq(15, _ => 0x30)
  {
    assert DEFAULT_PARAMS.denom == Ascii("ustb") && DEFAULT_PARAMS.maxSupply == Ascii("1000000000000000");
  }

  lemma IssuerLetters()
    ensures Ascii("cosmos19j") == [99, 111, 115, 109, 111, 115, 49, 57, 106]
    ensures Ascii("vll7zgcj6") == [118, 108, 108, 55, 122, 103, 99, 106, 54]
    ensures Ascii("fafavwa8e") == [102, 97, 102, 97, 118, 119, 97, 56, 101]
    ensures Ascii("5gns77sht") == [53, 103, 110, 115, 55, 55, 115, 104, 116]
    ensures Ascii("t8dr430g8") == [116, 56, 100, 114, 52, 51, 48, 103, 56]
  {
  }

  lemma AsciiJoin(s: string, t: string)
    ensures Ascii(s + t) == Ascii(s) + Ascii(t)
  {
  }

  // ---------------------------------------------------------------- what a success means

  /** A successful Mint: the supply and the record grow by the amount, within the cap. */
  lemma MintEffect(h: Host, st: State, msg: MintValue)
    requires MintStep(h, st, msg).1 == Done
    ensures st.params.Some? && h.parseInt(msg.amount).Some? && h.accAddress(msg.toAddress).Some?
    ensures h.parseInt(st.params.value.maxSupply).Some?
    ensures var p, amount := st.params.value, h.parseInt(msg.amount).value;
            var st' := MintStep(h, st, msg).0;
            && !p.paused && msg.authority == p.issuer && amount > 0 && h.accAddress(msg.toAddress).value !in h.blocked
            && Recorded(h, st) + amount <= h.parseInt(p.maxSupply).value
            && Recorded(h, st) + amount < INT_LIMIT
            && st' == st.(bank := st'.bank, record := Some(Print(Recorded(h, st) + amount)))
            && st'.bank.supply == With(st.bank.supply, p.denom, st.bank.Supply(p.denom) + amount)
  {
    hide Recorded;
  }

  /** ... the recipient gains the amount, and no other balance moves. */
  lemma MintBalances(h: Host, st: State, msg: MintValue, a: Account, e: Denom)
    requires MintStep(h, st, msg).1 == Done
    ensures st.params.Some? && h.parseInt(msg.amount).Some? && h.accAddress(msg.toAddress).Some?
    ensures var d, amount, to := st.params.value.denom, h.parseInt(msg.amount).value, h.accAddress(msg.toAddress).value;
            MintStep(h, st, msg).0.bank.Balance(a, e) == st.bank.Balance(a, e) + if a == to && e == d then amount else 0
  {
    hide Recorded, Print, BankState.Mint, BankState.Send, BankState.Balance;
    var d, amount, to := st.params.value.denom, h.parseInt(msg.amount).value, h.accAddress(msg.toAddress).value;
    MintMoves(st.bank, h.moduleAccount, d, amount, a, e);
    SendMoves(st.bank.Mint(h.moduleAccount, d, amount).value, h.moduleAccount, to, d, amount, 0, a, e);
  }

  /** A successful Burn: the supply and the record shrink by the amount. */
  lemma BurnEffect(h: Host, locks: Locks, st: State, msg: BurnValue)
    requires BurnStep(h, locks, st, msg).1 == Done
    ensures st.params.Some? && h.parseInt(msg.amount).Some? && h.accAddress(msg.fromAddress).Some?
    ensures var p, amount, from := st.params.value, h.parseInt(msg.amount).value, h.accAddress(msg.fromAddress).value;
            var st' := BurnStep(h, locks, st, msg).0;
            && !p.paused && msg.authority == p.issuer && 0 < amount <= Recorded(h, st)
            && amount <= st.bank.Balance(from, p.denom)
            && (from != h.moduleAccount && (from, p.denom) in locks ==>
                  locks[(from, p.denom)] + amount <= st.bank.Balance(from, p.denom))
            && st' == st.(bank := st'.bank, record := Some(Print(Recorded(h, st) - amount)))
            && amount <= st.bank.Supply(p.denom)
            && st'.bank.supply == With(st.bank.supply, p.denom, st.bank.Supply(p.denom) - amount)
  {
    hide Recorded;
  }

  /** ... the holder loses the amount, and no other balance moves. */
  lemma BurnBalances(h: Host, locks: Locks, st: State, msg: BurnValue, a: Account, e: Denom)
    requires BurnStep(h, locks, st, msg).1 == Done
    ensures st.params.Some? && h.parseInt(msg.amount).Some? && h.accAddress(msg.fromAddress).Some?
    ensures var d, amount, from := st.params.value.denom, h.parseInt(msg.amount).value,
            h.accAddress(msg.fromAddress).value;
            BurnStep(h, locks, st, msg).0.bank.Balance(a, e)
            == st.bank.Balance(a, e) - if a == from && e == d then amount else 0
  {
    hide Recorded, Print, Locked, BankState.Burn, BankState.Send, BankState.Balance;
    var d, amount, from := st.params.value.denom, h.parseInt(msg.amount).value, h.accAddress(msg.fromAddress).value;
    var locked := Locked(h, locks, from, d);
    SendMoves(st.bank, from, h.moduleAccount, d, amount, locked, a, e);
    BurnMoves(st.bank.Send(from, h.moduleAccount, d, amount, locked).value, h.moduleAccount, d, amount, a, e);
  }

  /** In a solvent bank a Mint succeeds exactly under these conditions: once the coins are
      created, only a blocked recipient can stop them. */
  lemma MintAccepts(h: Host, st: State, msg: MintValue)
    requires Solvent(st.bank)
    ensures MintStep(h, st, msg).1 == Done <==>
            && st.params.Some? && !st.params.value.paused && msg.authority == st.params.value.issuer
            && h.parseInt(msg.amount).Some? && h.parseInt(st.params.value.maxSupply).Some?
            && var d, amount := st.params.value.denom, h.parseInt(msg.amount).value;
               && 0 < amount && Recorded(h, st) + amount <= h.parseInt(st.params.value.maxSupply).value
               && Recorded(h, st) + amount < INT_LIMIT && st.bank.Supply(d) + amount < INT_LIMIT
               && h.accAddress(msg.toAddress).Some? && h.accAddress(msg.toAddress).value !in h.blocked
               && h.validDenom(d)
  {
    hide Recorded;
    if Gate(st, msg.authority) == Done && h.parseInt(msg.amount).Some? && h.accAddress(msg.toAddress).Some?
       && h.parseInt(msg.amount).value > 0 {
      MintedCoinsMove(st.bank, h.moduleAccount, h.accAddress(msg.toAddress).value, st.params.value.denom,
          h.parseInt(msg.amount).value);
    }
  }

  lemma MintedCoinsMove(b: BankState, m: Account, to: Account, d: Denom, n: nat)
    requires Solvent(b)
    ensures b.Mint(m, d, n).Some? <==> b.Supply(d) + n < INT_LIMIT
    ensures b.Mint(m, d, n).Some? ==> b.Mint(m, d, n).value.Send(m, to, d, n, 0).Some?
  {
    BalanceAtMostSupply(b, m, d);
    if b.Mint(m, d, n).Some? {
      BalanceAtMostSupply(b, to, d);
      SendFits(b.Mint(m, d, n).value, m, to, d, n, 0);
    }
  }

  /** In a solvent bank whose supply fits 256 bits a Burn succeeds exactly when the holder can
      spend the amount and the record covers it. */
  lemma BurnAccepts(h: Host, locks: Locks, st: State, msg: BurnValue)
    requires Solvent(st.bank) && (st.params.Some? ==> st.bank.Supply(st.params.value.denom) < INT_LIMIT)
    ensures BurnStep(h, locks, st, msg).1 == Done <==>
            && st.params.Some? && !st.params.value.paused && msg.authority == st.params.value.issuer
            && h.accAddress(msg.fromAddress).Some? && h.parseInt(msg.amount).Some?
            && var d, from, amount := st.params.value.denom, h.accAddress(msg.fromAddress).value,
                 h.parseInt(msg.amount).value;
               && h.validDenom(d) && 0 < amount <= Recorded(h, st)
               && amount <= st.bank.Balance(from, d)
               && (from != h.moduleAccount && (from, d) in locks ==>
                     locks[(from, d)] + amount <= st.bank.Balance(from, d))
  {
    hide Recorded;
    if Gate(st, msg.authority) == Done && h.parseInt(msg.amount).Some? && h.accAddress(msg.fromAddress).Some?
       && h.parseInt(msg.amount).value > 0 {
      var d, from, amount := st.params.value.denom, h.accAddress(msg.fromAddress).value, h.parseInt(msg.amount).value;
      SpentCoinsBurn(st.bank, from, h.moduleAccount, d, amount, Locked(h, locks, from, d));
    }
  }

  lemma SpentCoinsBurn(b: BankState, from: Account, m: Account, d: Denom, n: nat, locked: nat)
    requires Solvent(b) && b.Supply(d) < INT_LIMIT
    ensures b.Send(from, m, d, n, locked).Some? <==> locked + n <= b.Balance(from, d)
    ensures b.Send(from, m, d, n, locked).Some? ==> b.Send(from, m, d, n, locked).value.Burn(m, d, n).Some?
  {
    if locked + n <= b.Balance(from, d) {
      BalanceAtMostSupply(b, from, d);
      if from != m {
        TwoBalances(b, from, m, d);
      }
      SendFits(b, from, m, d, n, locked);
    }
  }

  lemma TwoBalances(b: BankState, x: Account, y: Account, d: Denom)
    requires Solvent(b) && x != y
    ensures b.Balance(x, d) + b.Balance(y, d) <= b.Supply(d)
  {
    var book := b.Accounts(d);
    assert Sum(book) == b.Supply(d);
    if x in book {
      SumWithout(book, x);
      AmountAtMostSum(book - {x}, y);
    } else {
      AmountAtMostSum(book, y);
    }
  }

  lemma MintKeepsSolvency(h: Host, st: State, msg: MintValue)
    requires Solvent(st.bank) && MintStep(h, st, msg).1 == Done
    ensures Solvent(MintStep(h, st, msg).0.bank)
  {
    hide Recorded, Solvent;
    var d, amount, to := st.params.value.denom, h.parseInt(msg.amount).value, h.accAddress(msg.toAddress).value;
    MintKeepsSolvent(st.bank, h.moduleAccount, d, amount);
    SendKeepsSolvent(st.bank.Mint(h.moduleAccount, d, amount).value, h.moduleAccount, to, d, amount, 0);
  }

  lemma BurnKeepsSolvency(h: Host, locks: Locks, st: State, msg: BurnValue)
    requires Solvent(st.bank) && BurnStep(h, locks, st, msg).1 == Done
    ensures Solvent(BurnStep(h, locks, st, msg).0.bank)
  {
    hide Recorded, Solvent;
    var d, amount, from := st.params.value.denom, h.parseInt(msg.amount).value, h.accAddress(msg.fromAddress).value;
    var locked := Locked(h, locks, from, d);
    SendKeepsSolvent(st.bank, from, h.moduleAccount, d, amount, locked);
    BurnKeepsSolvent(st.bank.Send(from, h.moduleAccount, d, amount, locked).value, h.moduleAccount, d, amount);
  }

  /** Why a Mint is refused, the earlier reason first. A refused Mint leaves params and record, and
      before the bank is asked the bank too; what was minted stays with the module until the runner
      drops it. */
  lemma MintRefuses(h: Host, st: State, msg: MintValue)
    ensures var v, p := MintStep(h, st, msg).1, st.params;
            var issued := p.Some? && !p.value.paused && msg.authority == p.value.issuer;
            var amount := h.parseInt(msg.amount);
            var positive := issued && amount.Some? && amount.value > 0;
            && (v == ParamsNotFound <==> p.None?)
            && (v == Paused <==> p.Some? && p.value.paused)
            && (v == NotIssuer <==> p.Some? && !p.value.paused && msg.authority != p.value.issuer)
            && (v == InvalidAmount <==> issued && !positive)
            && (v == UnreadableCap <==> positive && h.parseInt(p.value.maxSupply).None?)
            && (positive && h.parseInt(p.value.maxSupply).Some? ==>
                  var total, cap := Recorded(h, st) + amount.value, h.parseInt(p.value.maxSupply).value;
                  && (v == ExceedsCap <==> cap < total < INT_LIMIT)
                  && (v == BadAddress <==> total <= cap && total < INT_LIMIT && h.accAddress(msg.toAddress).None?)
                  && (v == BankRefused && Solvent(st.bank) ==> h.accAddress(msg.toAddress).value in h.blocked))
    ensures MintStep(h, st, msg).1 != Done ==>
              && MintStep(h, st, msg).0.params == st.params && MintStep(h, st, msg).0.record == st.record
              && (MintStep(h, st, msg).1 != BankRefused ==> MintStep(h, st, msg).0 == st)
              && (MintStep(h, st, msg).1 == BankRefused ==>
                    Some(MintStep(h, st, msg).0.bank)
                    == st.bank.Mint(h.moduleAccount, st.params.value.denom, h.parseInt(msg.amount).value))
  {
    hide Recorded, Solvent, BankState.Mint, BankState.Send;
    if Gate(st, msg.authority) == Done && h.parseInt(msg.amount).Some? && h.accAddress(msg.toAddress).Some?
       && h.parseInt(msg.amount).value > 0 && Solvent(st.bank) {
      MintedCoinsMove(st.bank, h.moduleAccount, h.accAddress(msg.toAddress).value, st.params.value.denom,
                      h.parseInt(msg.amount).value);
    }
  }

  /** Why a Burn is refused, the earlier reason first. A refused Burn leaves params and record; one that
      underflows has burnt already. */
  lemma BurnRefuses(h: Host, locks: Locks, st: State, msg: BurnValue)
    ensures var v, p := BurnStep(h, locks, st, msg).1, st.params;
            var issued := p.Some? && !p.value.paused && msg.authority == p.value.issuer;
            var from, amount := h.accAddress(msg.fromAddress), h.parseInt(msg.amount);
            var positive := issued && from.Some? && amount.Some? && amount.value > 0;
            && (v == ParamsNotFound <==> p.None?)
            && (v == Paused <==> p.Some? && p.value.paused)
            && (v == NotIssuer <==> p.Some? && !p.value.paused && msg.authority != p.value.issuer)
            && (v == BadAddress <==> issued && from.None?)
            && (v == InvalidAmount <==> issued && from.Some? && !positive)
            && (v == Underflow ==> positive && Recorded(h, st) < amount.value)
            && (v in {BankRefused, Underflow} ==> positive && h.validDenom(p.value.denom))
    ensures BurnStep(h, locks, st, msg).1 != Done ==>
              && BurnStep(h, locks, st, msg).0.params == st.params && BurnStep(h, locks, st, msg).0.record == st.record
              && (BurnStep(h, locks, st, msg).1 !in {Panic, Underflow} ==> BurnStep(h, locks, st, msg).0 == st)
              && (BurnStep(h, locks, st, msg).1 == Underflow ==>
                    BurnStep(h, locks, st, msg).0.bank.Supply(st.params.value.denom)
                    == st.bank.Supply(st.params.value.denom) - h.parseInt(msg.amount).value)
  {
    hide Recorded, BankState.Send, BankState.Burn, BankState.Supply;
    if BurnStep(h, locks, st, msg).1 == Underflow {
      var d, from, amount := st.params.value.denom, h.accAddress(msg.fromAddress).value, h.parseInt(msg.amount).value;
      var sent := st.bank.Send(from, h.moduleAccount, d, amount, Locked(h, locks, from, d));
      SendMoves(st.bank, from, h.moduleAccount, d, amount, Locked(h, locks, from, d), from, d);
      SupplyMoves(sent.value, h.moduleAccount, d, amount, d);
      SameSupply(st.bank, sent.value, d);
    }
  }

  lemma SameSupply(b: BankState, b': BankState, d: Denom)
    requires b.supply == b'.supply
    ensures b.Supply(d) == b'.Supply(d)
  {
  }

  // ---------------------------------------------------------------- the record

  /** The record is absent or the decimal of a natural number of at most 256 bits. */
  predicate RecordOk(st: State) {
    st.record.None? || (ReadDecimal(st.record.value).Some? && 0 <= ReadDecimal(st.record.value).value < INT_LIMIT)
  }

  /** Such a record is read back as what was written: the fallback to zero is not taken. */
  lemma RecordReads(h: Host, st: State)
    requires Lawful(h) && RecordOk(st) && st.record.Some?
    ensures h.parseInt(st.record.value) == Some(Recorded(h, st))
    ensures ReadDecimal(st.record.value) == Some(Recorded(h, st)) && st.record.value == Print(Recorded(h, st))
  {
    ReadIsInverse(st.record.value, ReadDecimal(st.record.value).value);
  }

  lemma RecordedRange(h: Host, st: State)
    requires Lawful(h) && RecordOk(st)
    ensures 0 <= Recorded(h, st) < INT_LIMIT
  {
    if st.record.Some? {
      RecordReads(h, st);
    }
  }

  /** Writing a total keeps the record well formed and readable. */
  lemma RecordWritten(h: Host, st: State, total: int)
    requires Lawful(h) && 0 <= total < INT_LIMIT && st.record == Some(Print(total))
    ensures RecordOk(st) && Recorded(h, st) == total
  {
    ReadIsInverse(Print(total), total);
  }

  // ---------------------------------------------------------------- Mint and Burn undo each other

  /** After a successful Mint to an account none of whose earlier balance was overdrawn by
      locks, burning the same amount from it succeeds and restores what can be observed. */
  lemma MintThenBurn(h: Host, locks: Locks, st: State, mint: MintValue, burn: BurnValue)
    requires Lawful(h) && RecordOk(st) && Solvent(st.bank)
    requires MintStep(h, st, mint).1 == Done
    requires burn == BurnValue(mint.authority, mint.toAddress, mint.amount)
    requires var d, x := st.params.value.denom, h.accAddress(mint.toAddress).value;
             x != h.moduleAccount && (x, d) in locks ==> locks[(x, d)] <= st.bank.Balance(x, d)
    ensures var (st1, v1) := BurnStep(h, locks, MintStep(h, st, mint).0, burn);
            && v1 == Done
            && st1.params == st.params
            && Recorded(h, st1) == Recorded(h, st)
            && (forall a, e :: st1.bank.Balance(a, e) == st.bank.Balance(a, e))
            && (forall e :: st1.bank.Supply(e) == st.bank.Supply(e))
  {
    hide MintStep, BurnStep, Recorded, RecordOk;
    MintEffect(h, st, mint);
    RecordedRange(h, st);
    var mid := MintStep(h, st, mint).0;
    var amount := h.parseInt(mint.amount).value;
    RecordWritten(h, mid, Recorded(h, st) + amount);
    BurnAfterMintPasses(h, locks, st, mint, burn);
    BurnEffect(h, locks, mid, burn);
    RecordWritten(h, BurnStep(h, locks, mid, burn).0, Recorded(h, st));
    forall a, e
      ensures BurnStep(h, locks, mid, burn).0.bank.Balance(a, e) == st.bank.Balance(a, e)
    {
      MintBalances(h, st, mint, a, e);
      BurnBalances(h, locks, mid, burn, a, e);
    }
  }

  lemma BurnAfterMintPasses(h: Host, locks: Locks, st: State, mint: MintValue, burn: BurnValue)
    requires Lawful(h) && RecordOk(st) && Solvent(st.bank)
    requires MintStep(h, st, mint).1 == Done
    requires burn == BurnValue(mint.authority, mint.toAddress, mint.amount)
    requires var d, x := st.params.value.denom, h.accAddress(mint.toAddress).value;
             x != h.moduleAccount && (x, d) in locks ==> locks[(x, d)] <= st.bank.Balance(x, d)
    ensures BurnStep(h, locks, MintStep(h, st, mint).0, burn).1 == Done
  {
    hide MintStep, BurnStep, RecordOk, Recorded, Solvent;
    var mid := MintStep(h, st, mint).0;
    MintAccepts(h, st, mint);
    MintEffect(h, st, mint);
    MintKeepsSolvency(h, st, mint);
    MintBalances(h, st, mint, h.accAddress(mint.toAddress).value, st.params.value.denom);
    RecordedRange(h, st);
    RecordWritten(h, mid, Recorded(h, st) + h.parseInt(mint.amount).value);
    BurnAccepts(h, locks, mid, burn);
  }

  /** A transfer of spendable coins into an account with room for them is carried out. */
  lemma SendFits(b: BankState, from: Account, to: Account, d: Denom, n: nat, locked: nat)
    requires locked + n <= b.Balance(from, d)
    requires b.Balance(to, d) + (if from == to then 0 else n) < INT_LIMIT
    ensures b.Send(from, to, d, n, locked).Some?
    ensures b.Send(from, to, d, n, locked).value.Balance(to, d) >= n
    ensures b.Send(from, to, d, n, locked).value.supply == b.supply
  {
  }
}
