/** The wallet's transaction history: which transfer stands for a transaction, and the
    merge of two queried pages into the most recent transactions. */
module History {
  import opened Amounts
  import opened Decimal
  import opened Wire

  // ---------------------------------------------------------------- a stable sort

  /** `before(x, y)`: x may stand in front of y. */
  ghost predicate IsOrder<T(!new)>(before: (T, T) -> bool) {
    && (forall x, y :: before(x, y) || before(y, x))
    && (forall x, y, z :: before(x, y) && before(y, z) ==> before(x, z))
  }

  function Insert<T>(before: (T, T) -> bool, x: T, s: seq<T>): seq<T> {
    if s == [] || before(x, s[0]) then [x] + s else [s[0]] + Insert(before, x, s[1..])
  }

  /** The library's sort: stable, by a comparison. */
  function Sort<T>(before: (T, T) -> bool, s: seq<T>): (r: seq<T>)
    ensures |r| == 0 <==> |s| == 0
  {
    if s == [] then [] else Insert(before, s[0], Sort(before, s[1..]))
  }

  ghost predicate Sorted<T>(before: (T, T) -> bool, s: seq<T>) {
    forall i, j :: 0 <= i < j < |s| ==> before(s[i], s[j])
  }

  lemma {:induction false} InsertAdds<T(!new)>(before: (T, T) -> bool, x: T, s: seq<T>)
    ensures multiset(Insert(before, x, s)) == multiset([x]) + multiset(s)
    decreases |s|
  {
    if s != [] && !before(x, s[0]) {
      InsertAdds(before, x, s[1..]);
      assert s == [s[0]] + s[1..];
    }
  }

  lemma {:induction false} InsertKeeps<T(!new)>(before: (T, T) -> bool, x: T, s: seq<T>)
    requires IsOrder(before) && Sorted(before, s)
    ensures Sorted(before, Insert(before, x, s))
    decreases |s|
  {
    if s == [] || before(x, s[0]) {
      forall j | 0 <= j < |s| ensures before(x, s[j]) {
        assert before(s[0], s[j]) || j == 0;
      }
    } else {
      var t := Insert(before, x, s[1..]);
      InsertKeeps(before, x, s[1..]);
      InsertAdds(before, x, s[1..]);
      forall j | 0 <= j < |t| ensures before(s[0], t[j]) {
        assert t[j] in multiset(t);
        assert t[j] == x || t[j] in s[1..];
      }
    }
  }

  lemma {:induction false} SortKeeps<T(!new)>(before: (T, T) -> bool, s: seq<T>)
    requires IsOrder(before)
    ensures Sorted(before, Sort(before, s)) && multiset(Sort(before, s)) == multiset(s)
    decreases |s|
  {
    if s != [] {
      SortKeeps(before, s[1..]);
      InsertKeeps(before, s[0], Sort(before, s[1..]));
      InsertAdds(before, s[0], Sort(before, s[1..]));
      assert s == [s[0]] + s[1..];
    }
  }

  /** The head of a sorted list is the first element that may stand before all others. */
  lemma {:induction false} HeadIsFirstBest<T(!new)>(before: (T, T) -> bool, s: seq<T>) returns (k: nat)
    requires IsOrder(before) && s != []
    ensures k < |s| && Sort(before, s)[0] == s[k]
    ensures forall j :: 0 <= j < |s| ==> before(s[k], s[j])
    ensures forall j :: 0 <= j < k ==> !before(s[j], s[k])
    decreases |s|
  {
    k := 0;
    if |s| > 1 {
      var t := s[1..];
      var k' := HeadIsFirstBest(before, t);
      forall j | 0 <= j < |s| ensures j > 0 ==> s[j] == t[j - 1] {}
      if !before(s[0], t[k']) {
        k := k' + 1;
        forall j | 0 <= j < k ensures !before(s[j], s[k]) {
          if j > 0 { assert !before(t[j - 1], t[k']); }
        }
        forall j | 0 <= j < |s| ensures before(s[k], s[j]) {
          if j > 0 { assert before(t[k'], t[j - 1]); }
        }
      } else {
        forall j | 0 <= j < |s| ensures before(s[0], s[j]) {
          if j > 0 { assert before(t[k'], t[j - 1]); }
        }
      }
    } else {
      assert s[1..] == [];
    }
  }

  // ---------------------------------------------------------------- coins in an amount attribute

  /** "ustb" */
  const USTB: Text := [0x75, 0x73, 0x74, 0x62]

  function Trim(s: Text): Text {
    TrimEnd(TrimStart(s))
  }

  /** The parts of `s` between separators, in order. */
  function Split(s: Text, separator: CodeUnit): (parts: seq<Text>)
    ensures parts != []
  {
    var i := IndexOf(s, separator);
    if i == |s| then [s] else [s[..i]] + Split(s[i + 1..], separator)
  }

  /** `map(trim)` and `filter(Boolean)`. */
  function Coins(parts: seq<Text>): seq<Text> {
    if parts == [] then [] else (if Trim(parts[0]) == [] then [] else [Trim(parts[0])]) + Coins(parts[1..])
  }

  predicate EndsWith(s: Text, suffix: Text) {
    |suffix| <= |s| && s[|s| - |suffix|..] == suffix
  }

  /** `find`: the first coin that ends in "ustb", without these letters. */
  function FindUstb(coins: seq<Text>): Option<Text> {
    if coins == [] then None
    else if EndsWith(coins[0], USTB) then Some(coins[0][..|coins[0]| - |USTB|])
    else FindUstb(coins[1..])
  }

  function UstbPart(amount: Text): Option<Text> {
    FindUstb(Coins(Split(amount, COMMA)))
  }

  /** Coins as an event lists them: joined by commas. */
  function Join(coins: seq<Text>): Text {
    if coins == [] then [] else if |coins| == 1 then coins[0] else coins[0] + [',' as int] + Join(coins[1..])
  }

  /** A part of the list without commas: the coin, or nothing, with white space around it. */
  ghost predicate Padded(part: Text, coin: Text) {
    && ',' as int !in part && (coin != [] ==> !Space(coin[0]) && !Space(coin[|coin| - 1]))
    && exists pre: Text, post: Text :: Blank(pre) && Blank(post) && part == pre + (coin + post)
  }

  ghost predicate AllPadded(parts: seq<Text>, coins: seq<Text>) {
    |parts| == |coins| > 0 && forall i :: 0 <= i < |parts| ==> Padded(parts[i], coins[i])
  }

  lemma PaddedTrims(part: Text, coin: Text)
    requires Padded(part, coin)
    ensures Trim(part) == coin
  {
    hide TrimEnd, TrimStart;
    var pre: Text, post: Text :| Blank(pre) && Blank(post) && part == pre + (coin + post);
    if coin == [] {
      TrimmedAway(part);
    } else {
      TrimsStart(pre, coin + post);
      TrimsEnd(coin, post);
    }
  }

  lemma SplitFirst(coin: Text, rest: Text)
    requires COMMA !in coin
    ensures Split(coin, COMMA) == [coin]
    ensures Split(coin + [COMMA] + rest, COMMA) == [coin] + Split(rest, COMMA)
  {
    FindsFirst(coin, COMMA, rest);
    var s := coin + [COMMA] + rest;
    assert s[..|coin|] == coin && s[|coin| + 1..] == rest;
  }

  lemma {:induction false} SplitJoin(parts: seq<Text>)
    requires parts != [] && forall i :: 0 <= i < |parts| ==> COMMA !in parts[i]
    ensures Split(Join(parts), COMMA) == parts
    decreases |parts|
  {
    SplitFirst(parts[0], Join(parts[1..]));
    if |parts| > 1 {
      SplitJoin(parts[1..]);
    } else {
      assert parts == [parts[0]];
    }
  }

  /** What `map(trim)` and `filter(Boolean)` leave: the coins, but for empty ones. */
  function NonEmpty(coins: seq<Text>): seq<Text> {
    if coins == [] then [] else (if coins[0] == [] then [] else [coins[0]]) + NonEmpty(coins[1..])
  }

  lemma {:induction false} CoinsOfPadded(parts: seq<Text>, coins: seq<Text>)
    requires |parts| == |coins| && forall i :: 0 <= i < |parts| ==> Padded(parts[i], coins[i])
    ensures Coins(parts) == NonEmpty(coins)
    decreases |parts|
  {
    hide Padded, Trim;
    if parts != [] {
      PaddedTrims(parts[0], coins[0]);
      CoinsOfPadded(parts[1..], coins[1..]);
    }
  }

  lemma NonEmptyStep(coins: seq<Text>)
    requires coins != []
    ensures FindUstb(NonEmpty(coins)) ==
            if EndsWith(coins[0], USTB) then Some(coins[0][..|coins[0]| - |USTB|]) else FindUstb(NonEmpty(coins[1..]))
  {
    if coins[0] == [] {
      assert NonEmpty(coins) == NonEmpty(coins[1..]);
    } else {
      FindUstbStep(coins[0], NonEmpty(coins[1..]));
    }
  }

  lemma FindUstbStep(coin: Text, rest: seq<Text>)
    ensures FindUstb([coin] + rest) ==
            if EndsWith(coin, USTB) then Some(coin[..|coin| - |USTB|]) else FindUstb(rest)
  {
    hide EndsWith;
    assert ([coin] + rest)[1..] == rest;
  }

  lemma {:induction false} FindsAt(coins: seq<Text>, k: nat)
    requires k < |coins| && EndsWith(coins[k], USTB) && forall i :: 0 <= i < k ==> !EndsWith(coins[i], USTB)
    ensures FindUstb(NonEmpty(coins)) == Some(coins[k][..|coins[k]| - |USTB|])
    decreases |coins|
  {
    if k > 0 {
      FindsAt(coins[1..], k - 1);
    }
    NonEmptyStep(coins);
  }

  lemma {:induction false} FindsNone(coins: seq<Text>)
    ensures FindUstb(NonEmpty(coins)) == None <==> forall i :: 0 <= i < |coins| ==> !EndsWith(coins[i], USTB)
    decreases |coins|
  {
    if coins != [] {
      FindsNone(coins[1..]);
      NonEmptyStep(coins);
    }
  }

  /** From a list of coins the amount of the first whose denomination ends in "ustb" is read,
      whatever white space and empty parts stand between them; a list has none exactly when no
      coin ends so. */
  lemma UstbPartOfCoins(parts: seq<Text>, coins: seq<Text>, k: nat)
    requires AllPadded(parts, coins)
    ensures k < |coins| && EndsWith(coins[k], USTB) && (forall i :: 0 <= i < k ==> !EndsWith(coins[i], USTB)) ==>
              UstbPart(Join(parts)) == Some(coins[k][..|coins[k]| - |USTB|])
    ensures UstbPart(Join(parts)) == None <==> forall i :: 0 <= i < |coins| ==> !EndsWith(coins[i], USTB)
  {
    forall i | 0 <= i < |parts| ensures COMMA !in parts[i] {
      assert Padded(parts[i], coins[i]);
    }
    hide Split, Coins, Join, FindUstb, EndsWith, Padded, NonEmpty;
    SplitJoin(parts);
    CoinsOfPadded(parts, coins);
    FindsNone(coins);
    if k < |coins| && EndsWith(coins[k], USTB) && forall i :: 0 <= i < k ==> !EndsWith(coins[i], USTB) {
      FindsAt(coins, k);
    }
  }

  // ---------------------------------------------------------------- the transfer of a transaction

  /** A transfer event: its attributes, an absent one as the empty string. */
  datatype Transfer = Transfer(sender: Text, recipient: Text, amount: Text, msgIndex: Text)

  /** What is shown for a transaction. */
  datatype Entry = Other | Sent(to: Text, amountUstb: Text) | Received(from: Text, amountUstb: Text)

  /** `BigInt(s)`, for which only failure is caught. */
  type Parser = Text -> Option<int>

  predicate IsCandidate(address: Text, t: Transfer) {
    && t.sender != [] && t.recipient != [] && t.amount != [] && UstbPart(t.amount).Some?
    && (t.sender == address || t.recipient == address)
  }

  /** The number that a transfer is ranked by: zero if its text does not read as an integer. */
  function AmountOf(bigInt: Parser, t: Transfer): int {
    match UstbPart(t.amount)
    case None => 0
    case Some(text) => (match bigInt(text) case None => 0 case Some(n) => n)
  }

  /** Read from the coins of a transfer: it is a candidate if it names both accounts, one of them
      the wallet's, and lists a coin that ends in "ustb"; its number is the one the first such
      coin spells. */
  lemma CandidateCoins(bigInt: Parser, address: Text, t: Transfer, parts: seq<Text>, coins: seq<Text>, k: nat)
    requires AllPadded(parts, coins) && t.amount == Join(parts)
    ensures IsCandidate(address, t) <==>
            && |t.sender| > 0 && |t.recipient| > 0 && address in {t.sender, t.recipient}
            && exists i :: 0 <= i < |coins| && EndsWith(coins[i], USTB)
    ensures (k < |coins| && EndsWith(coins[k], USTB) && forall i :: 0 <= i < k ==> !EndsWith(coins[i], USTB)) ==>
              var n := bigInt(coins[k][..|coins[k]| - 4]); AmountOf(bigInt, t) == if n.Some? then n.value else 0
  {
    hide EndsWith, UstbPart, Padded, Join;
    UstbPartOfCoins(parts, coins, k);
    EmptyHasNone();
  }

  lemma EmptyHasNone()
    ensures UstbPart([]) == None
  {
    assert Coins([[]]) == [];
  }

  predicate Indexed(t: Transfer) {
    t.msgIndex != []
  }

  function Score(bigInt: Parser, t: Transfer): int {
    (if Indexed(t) then 1000 else 0)
    + if AmountOf(bigInt, t) > 0 then if AmountOf(bigInt, t) > 10000 then 10 else 1 else 0
  }

  /** The comparison of the sort: higher score first, then larger amount. */
  function Ranks(bigInt: Parser): (Transfer, Transfer) -> bool {
    (t: Transfer, u: Transfer) =>
      || Score(bigInt, t) > Score(bigInt, u)
      || (Score(bigInt, t) == Score(bigInt, u) && AmountOf(bigInt, t) >= AmountOf(bigInt, u))
  }

  /** The score adds nothing to the amount but the index: the order is lexicographic. */
  lemma RanksIsLexicographic(bigInt: Parser, t: Transfer, u: Transfer)
    ensures Ranks(bigInt)(t, u) <==>
            || (t.msgIndex != [] && u.msgIndex == [])
            || ((t.msgIndex == [] <==> u.msgIndex == []) && AmountOf(bigInt, t) >= AmountOf(bigInt, u))
  {
    hide AmountOf;
  }

  lemma RanksIsOrder(bigInt: Parser)
    ensures IsOrder(Ranks(bigInt))
  {
    hide AmountOf;
  }

  /** An indexed transfer first, then the larger amount, then the earlier one. */
  predicate Outranks(bigInt: Parser, t: Transfer, u: Transfer, k: nat, j: nat) {
    || (Indexed(t) && !Indexed(u))
    || (Indexed(t) == Indexed(u) && AmountOf(bigInt, t) > AmountOf(bigInt, u))
    || (Indexed(t) == Indexed(u) && AmountOf(bigInt, t) == AmountOf(bigInt, u) && k <= j)
  }

  /** The transfer at `k` is the candidate that outranks all others. */
  ghost predicate Chosen(bigInt: Parser, address: Text, transfers: seq<Transfer>, k: nat) {
    && k < |transfers| && IsCandidate(address, transfers[k])
    && forall j :: 0 <= j < |transfers| && IsCandidate(address, transfers[j]) ==>
         Outranks(bigInt, transfers[k], transfers[j], k, j)
  }

  /** `candidates` are the candidates among the first `i` transfers, in order; `origin`
      tells where each comes from. */
  ghost predicate Tracks(address: Text, transfers: seq<Transfer>, i: nat, candidates: seq<Transfer>, origin: seq<nat>) {
    && i <= |transfers| && |origin| == |candidates|
    && (forall c :: 0 <= c < |origin| ==>
          origin[c] < i && IsCandidate(address, transfers[origin[c]]) && candidates[c] == transfers[origin[c]])
    && (forall b, c :: 0 <= b < c < |origin| ==> origin[b] < origin[c])
    && (forall j :: 0 <= j < i && IsCandidate(address, transfers[j]) ==> j in origin)
  }

  lemma TracksNext(address: Text, transfers: seq<Transfer>, i: nat, candidates: seq<Transfer>, origin: seq<nat>)
    requires i < |transfers| && Tracks(address, transfers, i, candidates, origin)
    ensures if IsCandidate(address, transfers[i])
            then Tracks(address, transfers, i + 1, candidates + [transfers[i]], origin + [i])
            else Tracks(address, transfers, i + 1, candidates, origin)
  {
    hide IsCandidate;
  }

  lemma BestIsChosen(bigInt: Parser, address: Text, transfers: seq<Transfer>, candidates: seq<Transfer>,
      origin: seq<nat>, c: nat)
    requires Tracks(address, transfers, |transfers|, candidates, origin) && c < |candidates|
    requires forall b :: 0 <= b < |candidates| ==> Ranks(bigInt)(candidates[c], candidates[b])
    requires forall b :: 0 <= b < c ==> !Ranks(bigInt)(candidates[b], candidates[c])
    ensures Chosen(bigInt, address, transfers, origin[c])
  {
    hide IsCandidate, AmountOf, Ranks;
    var k := origin[c];
    forall j | 0 <= j < |transfers| && IsCandidate(address, transfers[j])
      ensures Outranks(bigInt, transfers[k], transfers[j], k, j)
    {
      var b :| 0 <= b < |origin| && origin[b] == j;
      RanksIsLexicographic(bigInt, candidates[c], candidates[b]);
      RanksIsLexicographic(bigInt, candidates[b], candidates[c]);
    }
  }

  /** The part of `parseTxResult` that picks a transfer and shows it: candidates are collected
      and sorted, and the first one is taken. That is the indexed candidate before others, then
      the one of the largest amount, then the earliest; the text of its amount stays as it is. */
  method ParseTransfers(bigInt: Parser, address: Text, transfers: seq<Transfer>) returns (entry: Entry, ghost k: nat)
    ensures (forall j :: 0 <= j < |transfers| ==> !IsCandidate(address, transfers[j])) <==> entry == Other
    ensures entry != Other ==> k < |transfers| && IsCandidate(address, transfers[k])
    ensures entry != Other ==>
              forall j :: 0 <= j < |transfers| && IsCandidate(address, transfers[j]) ==>
                || (transfers[k].msgIndex != [] && transfers[j].msgIndex == [])
                || ((transfers[k].msgIndex == [] <==> transfers[j].msgIndex == [])
                    && (|| AmountOf(bigInt, transfers[k]) > AmountOf(bigInt, transfers[j])
                        || (AmountOf(bigInt, transfers[k]) == AmountOf(bigInt, transfers[j]) && k <= j)))
    ensures entry != Other ==> (entry.Sent? <==> transfers[k].sender == address)
    ensures entry.Sent? ==> entry.to == transfers[k].recipient
    ensures entry.Received? ==> entry.from == transfers[k].sender && transfers[k].recipient == address
    ensures entry != Other ==> Some(entry.amountUstb) == UstbPart(transfers[k].amount)
  {
    hide AmountOf, Ranks, UstbPart;
    var candidates: seq<Transfer> := [];
    ghost var origin: seq<nat> := [];
    for i := 0 to |transfers|
      invariant Tracks(address, transfers, i, candidates, origin)
    {
      TracksNext(address, transfers, i, candidates, origin);
      var t := transfers[i];
      if t.sender == [] || t.recipient == [] || t.amount == [] { continue; }
      if UstbPart(t.amount).None? { continue; }
      if t.sender != address && t.recipient != address { continue; }
      candidates, origin := candidates + [t], origin + [i];
    }
    var sorted := Sort(Ranks(bigInt), candidates);
    if sorted == [] {
      return Other, 0;
    }
    var pick := sorted[0];
    RanksIsOrder(bigInt);
    ghost var c := HeadIsFirstBest(Ranks(bigInt), candidates);
    BestIsChosen(bigInt, address, transfers, candidates, origin, c);
    k := origin[c];
    if pick.sender == address {
      entry := Sent(pick.recipient, UstbPart(pick.amount).value);
    } else {
      entry := Received(pick.sender, UstbPart(pick.amount).value);
    }
  }

  // ---------------------------------------------------------------- merging two pages

  datatype Tx = Tx(hash: Bytes, height: int)

  /** Newest first, then the larger hash; `le` is the collation of hashes. */
  function Newer(le: (Bytes, Bytes) -> bool): (Tx, Tx) -> bool {
    (x: Tx, y: Tx) => x.height > y.height || (x.height == y.height && le(y.hash, x.hash))
  }

  ghost predicate IsCollation(le: (Bytes, Bytes) -> bool) {
    && (forall a, b :: le(a, b) || le(b, a))
    && (forall a, b, c :: le(a, b) && le(b, c) ==> le(a, c))
  }

  lemma NewerIsOrder(le: (Bytes, Bytes) -> bool)
    requires IsCollation(le)
    ensures IsOrder(Newer(le))
  {
    var newer := Newer(le);
    forall x, y ensures newer(x, y) || newer(y, x) {
      assert le(x.hash, y.hash) || le(y.hash, x.hash);
    }
    forall x, y, z | newer(x, y) && newer(y, z) ensures newer(x, z) {
      assert le(z.hash, y.hash) && le(y.hash, x.hash) ==> le(z.hash, x.hash);
    }
  }

  /** First occurrences by hash; transactions without a hash are dropped. */
  function Dedup(txs: seq<Tx>, seen: set<Bytes>): seq<Tx> {
    if txs == [] then []
    else if txs[0].hash == [] || txs[0].hash in seen then Dedup(txs[1..], seen)
    else [txs[0]] + Dedup(txs[1..], seen + {txs[0].hash})
  }

  function Take<T>(s: seq<T>, n: nat): seq<T> {
    if |s| <= n then s else s[..n]
  }

  function Merge(le: (Bytes, Bytes) -> bool, ins: seq<Tx>, outs: seq<Tx>, limit: nat): seq<Tx> {
    Take(Sort(Newer(le), Dedup(ins + outs, {})), limit)
  }

  /** The end of `fetchTxHistory`, once both pages are there. */
  method MergePages(le: (Bytes, Bytes) -> bool, ins: seq<Tx>, outs: seq<Tx>, limit: nat) returns (items: seq<Tx>)
    ensures items == Merge(le, ins, outs, limit)
  {
    var txs := ins + outs;
    var seen: set<Bytes> := {};
    items := [];
    for i := 0 to |txs|
      invariant Dedup(txs, {}) == items + Dedup(txs[i..], seen)
    {
      var h := txs[i].hash;
      assert txs[i..][1..] == txs[i + 1..];
      if h == [] || h in seen { continue; }
      seen := seen + {h};
      items := items + [txs[i]];
    }
    assert txs[|txs|..] == [];
    assert items + [] == items;
    items := Take(Sort(Newer(le), items), limit);
  }

  ghost predicate DistinctHashes(s: seq<Tx>) {
    forall i, j :: 0 <= i < j < |s| ==> s[i].hash != s[j].hash
  }

  lemma {:induction false} DedupDistinct(txs: seq<Tx>, seen: set<Bytes>)
    ensures DistinctHashes(Dedup(txs, seen))
    ensures forall x :: x in Dedup(txs, seen) ==> x in txs && x.hash != [] && x.hash !in seen
    decreases |txs|
  {
    if txs != [] {
      DedupDistinct(txs[1..], seen);
      DedupDistinct(txs[1..], seen + {txs[0].hash});
    }
  }

  /** A transaction is kept exactly if it has a hash and none before it has the same. */
  lemma {:induction false} DedupKeepsFirst(txs: seq<Tx>, seen: set<Bytes>, t: Tx)
    ensures t in Dedup(txs, seen) <==>
            && t.hash != [] && t.hash !in seen
            && exists i :: 0 <= i < |txs| && txs[i] == t && forall j :: 0 <= j < i ==> txs[j].hash != t.hash
    decreases |txs|
  {
    if txs != [] {
      DedupKeepsFirst(txs[1..], seen, t);
      DedupKeepsFirst(txs[1..], seen + {txs[0].hash}, t);
      if i :| 0 <= i < |txs| && txs[i] == t && forall j :: 0 <= j < i ==> txs[j].hash != t.hash {
        if i > 0 {
          assert txs[1..][i - 1] == t && txs[0].hash != t.hash;
        }
      }
      if i :| 0 <= i < |txs[1..]| && txs[1..][i] == t && forall j :: 0 <= j < i ==> txs[1..][j].hash != t.hash {
        if txs[0].hash != t.hash {
          assert txs[i + 1] == t;
          forall j | 0 <= j < i + 1 ensures txs[j].hash != t.hash {
            assert j > 0 ==> txs[j] == txs[1..][j - 1];
          }
        }
      }
    }
  }

  /** With hashes that identify transactions, dedup keeps every transaction with a hash. */
  lemma DedupComplete(txs: seq<Tx>, t: Tx)
    requires t in txs && t.hash != []
    requires forall x :: x in txs && x.hash == t.hash ==> x == t
    ensures t in Dedup(txs, {})
  {
    DedupKeepsFirst(txs, {}, t);
    var i := FirstAt(txs, t);
  }

  lemma {:induction false} FirstAt(txs: seq<Tx>, t: Tx) returns (i: nat)
    requires t in txs
    ensures i < |txs| && txs[i] == t && t !in txs[..i]
    decreases |txs|
  {
    i := 0;
    if txs[0] != t {
      var i' := FirstAt(txs[1..], t);
      i := i' + 1;
      assert txs[..i] == [txs[0]] + txs[1..][..i'];
    }
  }

  // ---------------------------------------------------------------- the result is a top-k

  /** One page of a query ordered by height: transactions of the source, each once, at most
      `limit`, and what it leaves out is no higher than what it holds. */
  ghost predicate IsPage(page: seq<Tx>, source: set<Tx>, limit: nat) {
    && |page| <= limit && DistinctHashes(page)
    && (forall x :: x in page ==> x in source)
    && (forall s :: s in source && s !in page ==> |page| == limit && forall x :: x in page ==> x.height >= s.height)
  }

  /** Every transaction has a hash, and the hash identifies it. */
  ghost predicate Identified(txs: set<Tx>) {
    (forall x :: x in txs ==> x.hash != []) && (forall x, y :: x in txs && y in txs && x.hash == y.hash ==> x == y)
  }

  ghost function Elements(s: seq<Tx>): set<Tx> {
    set x | x in s
  }

  lemma {:induction false} DistinctCount(s: seq<Tx>)
    requires DistinctHashes(s)
    ensures |Elements(s)| == |s|
    decreases |s|
  {
    if s != [] {
      DistinctCount(s[1..]);
      assert s[0] !in s[1..];
      assert Elements(s) == {s[0]} + Elements(s[1..]);
    }
  }

  lemma SubsetCount(a: set<Tx>, b: set<Tx>)
    requires a <= b
    ensures |a| <= |b|
  {
    if a != b {
      assert |b - a| == |b| - |a|;
    }
  }

  /** Others at the height of `t` or above. */
  ghost function Rivals(all: set<Tx>, t: Tx): set<Tx> {
    set u | u in all && u != t && u.height >= t.height
  }

  /** Those above `t`. */
  ghost function Above(all: set<Tx>, t: Tx): set<Tx> {
    set u | u in all && u.height > t.height
  }

  /** A transaction left out of its page has at least `limit` rivals. */
  lemma LeftOut(page: seq<Tx>, source: set<Tx>, limit: nat, t: Tx, all: set<Tx>)
    requires IsPage(page, source, limit) && source <= all && t in source && t !in page
    ensures |Rivals(all, t)| >= limit
  {
    DistinctCount(page);
    SubsetCount(Elements(page), Rivals(all, t));
  }

  /** The sorted, deduplicated pages: all of them, each once, newest first. */
  lemma MergedList(le: (Bytes, Bytes) -> bool, ins: seq<Tx>, outs: seq<Tx>) returns (s: seq<Tx>)
    requires IsCollation(le) && Identified(Elements(ins + outs))
    ensures s == Sort(Newer(le), Dedup(ins + outs, {}))
    ensures Sorted(Newer(le), s) && DistinctHashes(s)
    ensures forall x :: x in s <==> x in ins + outs
  {
    var d := Dedup(ins + outs, {});
    s := Sort(Newer(le), d);
    NewerIsOrder(le);
    SortKeeps(Newer(le), d);
    DedupDistinct(ins + outs, {});
    forall x ensures x in s <==> x in ins + outs {
      assert x in s <==> x in multiset(s);
      assert x in d <==> x in multiset(d);
      if x in ins + outs {
        assert x in Elements(ins + outs);
        forall y | y in ins + outs && y.hash == x.hash ensures y == x {
          assert y in Elements(ins + outs);
        }
        DedupComplete(ins + outs, x);
      }
    }
    PermutationDistinct(d, s);
  }

  lemma PermutationDistinct(d: seq<Tx>, s: seq<Tx>)
    requires DistinctHashes(d) && multiset(s) == multiset(d)
    ensures DistinctHashes(s)
  {
    forall i, j | 0 <= i < j < |s|
      ensures s[i].hash != s[j].hash
    {
      if s[i].hash == s[j].hash {
        assert s[i] in multiset(d) && s[j] in multiset(d);
        assert s == s[..i] + [s[i]] + s[i + 1..j] + [s[j]] + s[j + 1..];
        assert multiset(d)[s[i]] >= 2;
        OccursOnce(d, s[i]);
      }
    }
  }

  lemma {:induction false} OccursOnce(d: seq<Tx>, x: Tx)
    requires DistinctHashes(d)
    ensures multiset(d)[x] <= 1
    decreases |d|
  {
    if d != [] {
      OccursOnce(d[1..], x);
      assert d == [d[0]] + d[1..];
      assert d[0] !in d[1..];
    }
  }

  /** The history: at most `limit` transactions of the two sources, each once, newest first;
      whatever has fewer than `limit` rivals is in it, and nothing is in it that `limit`
      transactions are above. */
  lemma HistoryIsTopK(le: (Bytes, Bytes) -> bool, pageIn: seq<Tx>, pageOut: seq<Tx>, ins: set<Tx>, outs: set<Tx>,
      limit: nat)
    requires IsCollation(le) && Identified(ins + outs)
    requires IsPage(pageIn, ins, limit) && IsPage(pageOut, outs, limit)
    ensures var r := Merge(le, pageIn, pageOut, limit);
            && |r| <= limit && DistinctHashes(r)
            && (forall i, j :: 0 <= i < j < |r| ==>
                  r[i].height > r[j].height || (r[i].height == r[j].height && le(r[j].hash, r[i].hash)))
            && (forall x :: x in r ==> x in ins + outs)
            && (forall t :: t in ins + outs && |Rivals(ins + outs, t)| < limit ==> t in r)
            && (forall t :: t in r ==> |Above(ins + outs, t)| < limit)
  {
    var all := ins + outs;
    assert Elements(pageIn + pageOut) <= all;
    var s := MergedList(le, pageIn, pageOut);
    var r := Merge(le, pageIn, pageOut, limit);
    assert r == Take(s, limit);
    forall t | t in all && |Rivals(all, t)| < limit ensures t in r {
      FewRivalsStay(le, pageIn, pageOut, ins, outs, limit, s, t);
    }
    forall t | t in r ensures |Above(all, t)| < limit {
      ManyAboveDrop(le, pageIn, pageOut, ins, outs, limit, s, t);
    }
  }

  lemma FewRivalsStay(le: (Bytes, Bytes) -> bool, pageIn: seq<Tx>, pageOut: seq<Tx>, ins: set<Tx>, outs: set<Tx>,
                      limit: nat, s: seq<Tx>, t: Tx)
    requires IsPage(pageIn, ins, limit) && IsPage(pageOut, outs, limit)
    requires Sorted(Newer(le), s) && DistinctHashes(s) && forall x :: x in s <==> x in pageIn + pageOut
    requires t in ins + outs && |Rivals(ins + outs, t)| < limit
    ensures t in Take(s, limit)
  {
    var all := ins + outs;
    if t in ins && t !in pageIn {
      LeftOut(pageIn, ins, limit, t, all);
    } else if t in outs && t !in pageOut {
      LeftOut(pageOut, outs, limit, t, all);
    }
    assert t in s;
    var k :| 0 <= k < |s| && s[k] == t;
    if k >= limit {
      forall x | x in Elements(s[..limit]) ensures x in Rivals(all, t) {
        var i :| 0 <= i < limit && s[i] == x;
        assert Newer(le)(s[i], s[k]) && x in pageIn + pageOut;
      }
      DistinctCount(s[..limit]);
      SubsetCount(Elements(s[..limit]), Rivals(all, t));
    }
  }

  /** Those above `t` that the pages hold. */
  ghost function Held(pages: seq<Tx>, t: Tx): set<Tx> {
    set u | u in pages && u.height > t.height
  }

  /** They stand in front of it. */
  lemma HeldStandsBefore(le: (Bytes, Bytes) -> bool, pages: seq<Tx>, s: seq<Tx>, k: nat)
    requires Sorted(Newer(le), s) && DistinctHashes(s) && forall x :: x in s <==> x in pages
    requires k < |s|
    ensures |Held(pages, s[k])| <= k
  {
    forall u | u in Held(pages, s[k]) ensures u in Elements(s[..k]) {
      var i :| 0 <= i < |s| && s[i] == u;
      assert i < k;
    }
    DistinctCount(s[..k]);
    SubsetCount(Held(pages, s[k]), Elements(s[..k]));
  }

  /** A page that leaves out something above `t` holds `limit` transactions above `t`. */
  lemma FullPage(page: seq<Tx>, source: set<Tx>, limit: nat, pages: seq<Tx>, t: Tx, u: Tx)
    requires IsPage(page, source, limit) && u in source && u !in page && u.height > t.height
    requires forall x :: x in page ==> x in pages
    ensures |Held(pages, t)| >= limit
  {
    DistinctCount(page);
    SubsetCount(Elements(page), Held(pages, t));
  }

  lemma ManyAboveDrop(le: (Bytes, Bytes) -> bool, pageIn: seq<Tx>, pageOut: seq<Tx>, ins: set<Tx>, outs: set<Tx>,
                      limit: nat, s: seq<Tx>, t: Tx)
    requires IsPage(pageIn, ins, limit) && IsPage(pageOut, outs, limit)
    requires Sorted(Newer(le), s) && DistinctHashes(s) && forall x :: x in s <==> x in pageIn + pageOut
    requires t in Take(s, limit)
    ensures |Above(ins + outs, t)| < limit
  {
    var k :| 0 <= k < |s| && k < limit && s[k] == t;
    HeldStandsBefore(le, pageIn + pageOut, s, k);
    forall u | u in Above(ins + outs, t) ensures u in Held(pageIn + pageOut, t) {
      if u in ins && u !in pageIn {
        FullPage(pageIn, ins, limit, pageIn + pageOut, t, u);
      } else if u in outs && u !in pageOut {
        FullPage(pageOut, outs, limit, pageIn + pageOut, t, u);
      }
    }
    SubsetCount(Above(ins + outs, t), Held(pageIn + pageOut, t));
  }
}
