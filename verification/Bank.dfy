/** An explicit model of the bank: balances for each denomination and account, the supply
    of each denomination, and the operations the stablecoin keeper expects of it. */
module Bank {
  import opened Wire
  import opened Decimal

  type Denom = Bytes
  type Account = Bytes

  /** Amounts by key; what is absent is zero, and zero is absent. */
  type Book = map<Bytes, nat>

  const INT_LIMIT: int := 0x1_0000000000000000_0000000000000000_0000000000000000_0000000000000000  // 2^256

  function Amount(b: Book, k: Bytes): nat {
    if k in b then b[k] else 0
  }

  function With(b: Book, k: Bytes, n: nat): Book {
    if n == 0 then b - {k} else b[k := n]
  }

  ghost function Sum(b: Book): nat {
    if b == map[] then 0 else
      var k :| k in b;
      b[k] + Sum(b - {k})
  }

  lemma {:induction false} SumWithout(b: Book, k: Bytes)
    requires k in b
    ensures Sum(b) == b[k] + Sum(b - {k})
    decreases |b|
  {
    var j :| j in b && Sum(b) == b[j] + Sum(b - {j});
    if j != k {
      assert |b - {j}| < |b| && |b - {k}| < |b| by {
        assert (b - {j}).Keys == b.Keys - {j} && (b - {k}).Keys == b.Keys - {k};
      }
      SumWithout(b - {j}, k);
      SumWithout(b - {k}, j);
      assert b - {j} - {k} == b - {k} - {j};
    }
  }

  lemma SumWith(b: Book, k: Bytes, n: nat)
    ensures Sum(With(b, k, n)) == Sum(b) - Amount(b, k) + n
  {
    var rest := b - {k};
    if k in b {
      SumWithout(b, k);
    } else {
      assert rest == b;
    }
    if n > 0 {
      var c := b[k := n];
      SumWithout(c, k);
      assert c - {k} == rest;
    }
  }

  lemma AmountAtMostSum(b: Book, k: Bytes)
    ensures Amount(b, k) <= Sum(b)
  {
    if k in b {
      SumWithout(b, k);
    }
  }

  // ---------------------------------------------------------------- operations

  datatype BankState = BankState(balances: map<Denom, Book>, supply: Book)
  {
    function Accounts(d: Denom): Book {
      if d in balances then balances[d] else map[]
    }

    function Balance(a: Account, d: Denom): nat {
      Amount(Accounts(d), a)
    }

    function Supply(d: Denom): nat {
      Amount(supply, d)
    }

    function Set(a: Account, d: Denom, n: nat): BankState {
      this.(balances := balances[d := With(Accounts(d), a, n)])
    }

    /** Creates coins in the account `a`; sums beyond 256 bits panic. */
    function Mint(a: Account, d: Denom, n: nat): Option<BankState> {
      if Balance(a, d) + n >= INT_LIMIT || Supply(d) + n >= INT_LIMIT then None
      else Some(Set(a, d, Balance(a, d) + n).(supply := With(supply, d, Supply(d) + n)))
    }

    /** Destroys coins in the account `a`; a negative supply panics. */
    function Burn(a: Account, d: Denom, n: nat): Option<BankState> {
      if Balance(a, d) < n || Supply(d) < n then None
      else Some(Set(a, d, Balance(a, d) - n).(supply := With(supply, d, Supply(d) - n)))
    }

    /** Moves coins of which `locked` are not spendable: out of one account, then into the
        other, which may be the same. */
    function Send(from: Account, to: Account, d: Denom, n: nat, locked: nat): Option<BankState> {
      if Balance(from, d) < locked + n then None
      else
        var out := Set(from, d, Balance(from, d) - n);
        if out.Balance(to, d) + n >= INT_LIMIT then None
        else Some(out.Set(to, d, out.Balance(to, d) + n))
    }
  }

  /** For every denomination the balances add up to the supply. */
  ghost predicate Solvent(b: BankState) {
    forall d :: Sum(b.Accounts(d)) == b.Supply(d)
  }

  lemma SetSum(b: BankState, a: Account, d: Denom, n: nat, e: Denom)
    ensures Sum(b.Set(a, d, n).Accounts(e)) == Sum(b.Accounts(e)) + if e == d then n - b.Balance(a, d) else 0
  {
    SumWith(b.Accounts(d), a, n);
  }

  /** One balance never exceeds the supply. */
  lemma BalanceAtMostSupply(b: BankState, a: Account, d: Denom)
    requires Solvent(b)
    ensures b.Balance(a, d) <= b.Supply(d)
  {
    AmountAtMostSum(b.Accounts(d), a);
    assert Sum(b.Accounts(d)) == b.Supply(d);
  }

  lemma MintKeepsSolvent(b: BankState, a: Account, d: Denom, n: nat)
    requires Solvent(b) && b.Mint(a, d, n).Some?
    ensures Solvent(b.Mint(a, d, n).value)
  {
    var b' := b.Mint(a, d, n).value;
    forall e ensures Sum(b'.Accounts(e)) == b'.Supply(e) {
      SetSum(b, a, d, b.Balance(a, d) + n, e);
      assert Sum(b.Accounts(e)) == b.Supply(e);
    }
  }

  lemma BurnKeepsSolvent(b: BankState, a: Account, d: Denom, n: nat)
    requires Solvent(b) && b.Burn(a, d, n).Some?
    ensures Solvent(b.Burn(a, d, n).value)
  {
    var b' := b.Burn(a, d, n).value;
    forall e ensures Sum(b'.Accounts(e)) == b'.Supply(e) {
      SetSum(b, a, d, b.Balance(a, d) - n, e);
      assert Sum(b.Accounts(e)) == b.Supply(e);
    }
  }

  lemma SendKeepsSolvent(b: BankState, from: Account, to: Account, d: Denom, n: nat, locked: nat)
    requires Solvent(b) && b.Send(from, to, d, n, locked).Some?
    ensures Solvent(b.Send(from, to, d, n, locked).value)
  {
    hide Sum, With;
    var out := b.Set(from, d, b.Balance(from, d) - n);
    var b' := b.Send(from, to, d, n, locked).value;
    forall e ensures Sum(b'.Accounts(e)) == b'.Supply(e) {
      SetSum(b, from, d, b.Balance(from, d) - n, e);
      SetSum(out, to, d, out.Balance(to, d) + n, e);
      assert Sum(b.Accounts(e)) == b.Supply(e);
    }
  }

  /** When the operations are carried out. A transfer to oneself needs no room. */
  lemma OperationsSucceed(b: BankState, from: Account, to: Account, d: Denom, n: nat, locked: nat)
    ensures b.Mint(to, d, n).Some? <==> b.Balance(to, d) + n < INT_LIMIT && b.Supply(d) + n < INT_LIMIT
    ensures b.Burn(from, d, n).Some? <==> n <= b.Balance(from, d) && n <= b.Supply(d)
    ensures b.Send(from, to, d, n, locked).Some? <==>
            locked + n <= b.Balance(from, d) && b.Balance(to, d) + (if from == to then 0 else n) < INT_LIMIT
    ensures INT_LIMIT == TWO_64 * TWO_64 * TWO_64 * TWO_64
  {
  }

  /** What minting and burning do to the supply of every denomination. */
  lemma SupplyMoves(b: BankState, a: Account, d: Denom, n: nat, e: Denom)
    ensures b.Mint(a, d, n).Some? ==>
              b.Mint(a, d, n).value.Supply(e) == b.Supply(e) + if e == d then n else 0
    ensures b.Burn(a, d, n).Some? ==>
              b.Burn(a, d, n).value.Supply(e) == b.Supply(e) - if e == d then n else 0
  {
  }

  /** Where every balance moves to, said without the steps. */
  lemma SendMoves(b: BankState, from: Account, to: Account, d: Denom, n: nat, locked: nat, a: Account, e: Denom)
    requires b.Send(from, to, d, n, locked).Some?
    ensures var b' := b.Send(from, to, d, n, locked).value;
            && b'.supply == b.supply
            && b'.Balance(a, e) == b.Balance(a, e) - (if a == from && e == d then n else 0)
                 + (if a == to && e == d then n else 0)
  {
  }

  lemma MintMoves(b: BankState, k: Account, d: Denom, n: nat, a: Account, e: Denom)
    requires b.Mint(k, d, n).Some?
    ensures b.Mint(k, d, n).value.Balance(a, e) == b.Balance(a, e) + if a == k && e == d then n else 0
  {
  }

  lemma BurnMoves(b: BankState, k: Account, d: Denom, n: nat, a: Account, e: Denom)
    requires b.Burn(k, d, n).Some?
    ensures b.Burn(k, d, n).value.Balance(a, e) == b.Balance(a, e) - if a == k && e == d then n else 0
  {
  }

  // ---------------------------------------------------------------- supply over several denominations

  ghost function Total(s: set<Denom>, supply: Book): nat {
    if s == {} then 0 else
      var d :| d in s;
      Amount(supply, d) + Total(s - {d}, supply)
  }

  lemma {:induction false} TotalWithout(s: set<Denom>, supply: Book, d: Denom)
    requires d in s
    ensures Total(s, supply) == Amount(supply, d) + Total(s - {d}, supply)
    decreases |s|
  {
    var j :| j in s && Total(s, supply) == Amount(supply, j) + Total(s - {j}, supply);
    if j != d {
      TotalWithout(s - {j}, supply, d);
      TotalWithout(s - {d}, supply, j);
      assert s - {j} - {d} == s - {d} - {j};
    }
  }

  lemma {:induction false} TotalApart(s: set<Denom>, supply: Book, d: Denom, n: nat)
    requires d !in s
    ensures Total(s, With(supply, d, n)) == Total(s, supply)
    decreases |s|
  {
    if s != {} {
      var e :| e in s && Total(s, supply) == Amount(supply, e) + Total(s - {e}, supply);
      TotalApart(s - {e}, supply, d, n);
      TotalWithout(s, With(supply, d, n), e);
      assert e != d && Amount(With(supply, d, n), e) == Amount(supply, e);
    }
  }

  lemma TotalWith(s: set<Denom>, supply: Book, d: Denom, n: nat)
    ensures Total(s, With(supply, d, n)) == Total(s, supply) + if d in s then n - Amount(supply, d) else 0
  {
    if d in s {
      TotalWithout(s, supply, d);
      TotalWithout(s, With(supply, d, n), d);
      TotalApart(s - {d}, supply, d, n);
    } else {
      TotalApart(s, supply, d, n);
    }
  }

  lemma SupplyAtMostTotal(s: set<Denom>, supply: Book, d: Denom)
    requires d in s
    ensures Amount(supply, d) <= Total(s, supply)
  {
    TotalWithout(s, supply, d);
  }

  // ---------------------------------------------------------------- the keeper

  /** The bank keeper as the stablecoin module calls it. A refused call changes nothing. */
  class BankKeeper {
    var balances: map<Denom, Book>
    var supply: Book

    constructor (b: BankState)
      ensures State() == b
    {
      balances, supply := b.balances, b.supply;
    }

    function State(): BankState
      reads this
    {
      BankState(balances, supply)
    }

    method Restore(b: BankState)
      modifies this
      ensures State() == b
    {
      balances, supply := b.balances, b.supply;
    }

    method MintCoins(a: Account, d: Denom, n: nat) returns (ok: bool)
      modifies this
      ensures ok <==> old(State()).Mint(a, d, n).Some?
      ensures State() == if ok then old(State()).Mint(a, d, n).value else old(State())
    {
      var b := State();
      if b.Balance(a, d) + n >= INT_LIMIT || b.Supply(d) + n >= INT_LIMIT {
        return false;
      }
      balances := balances[d := With(b.Accounts(d), a, b.Balance(a, d) + n)];
      supply := With(supply, d, b.Supply(d) + n);
      return true;
    }

    method BurnCoins(a: Account, d: Denom, n: nat) returns (ok: bool)
      modifies this
      ensures ok <==> old(State()).Burn(a, d, n).Some?
      ensures State() == if ok then old(State()).Burn(a, d, n).value else old(State())
    {
      var b := State();
      if b.Balance(a, d) < n || b.Supply(d) < n {
        return false;
      }
      balances := balances[d := With(b.Accounts(d), a, b.Balance(a, d) - n)];
      supply := With(supply, d, b.Supply(d) - n);
      return true;
    }

    method SendCoins(from: Account, to: Account, d: Denom, n: nat, locked: nat) returns (ok: bool)
      modifies this
      ensures ok <==> old(State()).Send(from, to, d, n, locked).Some?
      ensures State() == if ok then old(State()).Send(from, to, d, n, locked).value else old(State())
    {
      var before := State();
      if before.Balance(from, d) < locked + n {
        return false;
      }
      balances := balances[d := With(before.Accounts(d), from, before.Balance(from, d) - n)];
      var out := State();
      if out.Balance(to, d) + n >= INT_LIMIT {
        Restore(before);
        return false;
      }
      balances := balances[d := With(out.Accounts(d), to, out.Balance(to, d) + n)];
      return true;
    }
  }
}
