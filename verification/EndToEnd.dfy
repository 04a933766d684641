/** From the amount a user types in the wallet to the ledger of the chain. */
module EndToEnd {
  import opened Wire
  import opened Decoding
  import opened Messages
  import opened Bank
  import opened Ledger
  import opened Decimal
  import Amounts
  import History
  import WalletCodec

  /** The record and the balance of `to` have grown by `amount`, and no other balance has moved. */
  ghost predicate Credited(h: Host, st: State, st': State, to: Account, amount: nat) {
    && amount > 0 && Recorded(h, st') == Recorded(h, st) + amount && st.params.Some?
    && forall a, e :: st'.bank.Balance(a, e)
                      == st.bank.Balance(a, e) + if a == to && e == st.params.value.denom then amount else 0
  }

  lemma MintCredits(h: Host, st: State, msg: MintValue)
    requires Lawful(h) && RecordOk(st) && MintStep(h, st, msg).1 == Done
    ensures h.accAddress(msg.toAddress).Some? && h.parseInt(msg.amount).Some? && h.parseInt(msg.amount).value > 0
    ensures Credited(h, st, MintStep(h, st, msg).0, h.accAddress(msg.toAddress).value, h.parseInt(msg.amount).value)
  {
    hide Recorded, RecordOk, MintStep;
    MintEffect(h, st, msg);
    RecordedRange(h, st);
    RecordWritten(h, MintStep(h, st, msg).0, Recorded(h, st) + h.parseInt(msg.amount).value);
    forall a, e
      ensures MintStep(h, st, msg).0.bank.Balance(a, e) == st.bank.Balance(a, e)
                + if a == h.accAddress(msg.toAddress).value && e == st.params.value.denom
                  then h.parseInt(msg.amount).value else 0
    {
      MintBalances(h, st, msg, a, e);
    }
  }

  /** If the chain accepts the mint message that the wallet wrote for a typed literal, the
      record and the recipient's balance grow by exactly the literal's value in millionths. */
  lemma TypedAmountIsMinted(h: Host, st: State, typed: Amounts.Text, w: Bytes, separator: Byte, f: Bytes,
      authority: Bytes, to: Bytes)
    requires Lawful(h) && RecordOk(st) && Amounts.IsLiteral(typed, w, separator, f)
    requires |EncodeMint(MintValue(authority, to, Amounts.ParseStbToUstb(typed)))| < TWO_32
    ensures var wire := WalletCodec.WalletMint(MintValue(authority, to, Amounts.ParseStbToUstb(typed)));
            var out := Decode(MINT, wire, NO_MINT);
            && out.err == NoError
            && (MintStep(h, st, out.msg).1 == Done ==>
                  && h.accAddress(to).Some?
                  && Credited(h, st, MintStep(h, st, out.msg).0, h.accAddress(to).value, Amounts.Micros(w, f)))
  {
    hide Recorded, RecordOk, MintStep, Credited, EncodeMint, WalletCodec.WalletMint, Amounts.ParseStbToUstb,
        Amounts.IsLiteral, Amounts.Micros;
    var msg := MintValue(authority, to, Amounts.ParseStbToUstb(typed));
    NothingToBurn();
    WalletCodec.ChainReadsWallet(msg, NO_BURN);
    Amounts.ParseLiteral(h, typed, w, separator, f);
    if MintStep(h, st, msg).1 == Done {
      MintCredits(h, st, msg);
    }
  }

  /** The wallet finds the coins of the default denomination among those of a transfer, in the form
      the chain prints them, and ranks the transfer by their number. */
  lemma PrintedCoinIsFound(bigInt: History.Parser, t: History.Transfer, n: nat)
    requires t.amount == Print(n) + DEFAULT_PARAMS.denom && bigInt(Print(n)) == Some(n as int)
    ensures History.UstbPart(t.amount) == Some(Print(n)) && History.AmountOf(bigInt, t) == n
  {
    var coin := Print(n) + DEFAULT_PARAMS.denom;
    DefaultParamsAre();
    hide DEFAULT_PARAMS, Print, History.UstbPart;
    PrintedIsDigits(n);
    assert coin == [] + (coin + []) && Amounts.Blank([]);
    assert History.Padded(coin, coin);
    assert History.Join([coin]) == coin && coin[..|coin| - 4] == Print(n);
    History.UstbPartOfCoins([coin], [coin], 0);
  }

  lemma PrintedIsDigits(n: nat)
    ensures Print(n) != [] && AllDigits(Print(n))
  {
  }

  lemma NothingToBurn()
    ensures |EncodeBurn(NO_BURN)| == 0
  {
  }
}
