/** The balance view: the signed net value of every owner named by a set
    of transactions. The source updates a hash map key by key; the methods
    here do the same and are proved equal to the specification functions,
    whose algebra (identity, commutativity, associativity, sums) is proved
    by the lemmas. */
module Balances {
  import opened Bytes
  import opened Transactions

  type Balance = map<Name, int>

  /** `get(key).unwrap_or(0)`: an absent owner counts as zero. */
  function Get(b: Balance, k: Name): int
  {
    if k in b then b[k] else 0
  }

  /** The owners named by some packets. */
  function Owners(ps: seq<Packet>): set<Name>
  {
    set p | p in ps :: p.to
  }

  /** The total value of the packets that belong to owner `k`. */
  function OwnedValue(ps: seq<Packet>, k: Name): nat
  {
    if ps == [] then 0
    else OwnedValue(ps[..|ps| - 1], k) + (if ps[|ps| - 1].to == k then ps[|ps| - 1].value else 0)
  }

  /** The specification of `combine`: the union of the owners, each with
      the sum of its two values. */
  function Combined(a: Balance, b: Balance): Balance
  {
    map k | k in a.Keys + b.Keys :: Get(a, k) + Get(b, k)
  }

  /** One `get_mut`/`insert` step: add `v` to owner `k`. */
  function Credit(b: Balance, k: Name, v: int): Balance
  {
    b[k := Get(b, k) + v]
  }

  /** Credit (or, with `debit`, debit) every packet's value to its owner,
      in order. */
  function CreditAll(b: Balance, ps: seq<Packet>, debit: bool): Balance
  {
    if ps == [] then b
    else
      var p := ps[|ps| - 1];
      Credit(CreditAll(b, ps[..|ps| - 1], debit), p.to, if debit then -(p.value as int) else p.value)
  }

  /** The specification of `from_transaction`: outputs credited, then
      inputs debited, starting from the empty balance. */
  function OfTransaction(t: Transaction): Balance
  {
    CreditAll(CreditAll(map[], t.outputs, false), t.inputs, true)
  }

  /** The specification of `from_transactions`: the per-transaction
      balances combined in order, starting from the empty balance. */
  function OfTransactions(txs: seq<Transaction>): Balance
  {
    if txs == [] then map[]
    else Combined(OfTransactions(txs[..|txs| - 1]), OfTransaction(txs[|txs| - 1]))
  }

  /** The sum of all values of a balance. */
  ghost function Total(b: Balance): int
    decreases |b|
  {
    if b == map[] then 0
    else
      var k :| k in b;
      assert (b - {k}).Keys == b.Keys - {k};
      b[k] + Total(b - {k})
  }

  /** A balance with the owners of `a` and `b`, each holding the sum of its
      two values, is their combination. */
  lemma CombinedByValues(r: Balance, a: Balance, b: Balance)
    requires r.Keys == a.Keys + b.Keys
    requires forall k :: k in r ==> r[k] == Get(a, k) + Get(b, k)
    ensures r == Combined(a, b)
  {
  }

  /** Combining with `b` is combining with `b` less owner `k`, then
      crediting `k` with its value in `b`. */
  lemma CombinedCredit(a: Balance, b: Balance, k: Name)
    requires k in b
    ensures Combined(a, b) == Credit(Combined(a, b - {k}), k, b[k])
  {
    var c := Credit(Combined(a, b - {k}), k, b[k]);
    assert forall j :: j in c ==> c[j] == Get(a, j) + Get(b, j);
    CombinedByValues(c, a, b);
  }

  lemma CombinedIdentity(a: Balance)
    ensures Combined(a, map[]) == a && Combined(map[], a) == a
  {
  }

  lemma CombinedCommutes(a: Balance, b: Balance)
    ensures Combined(a, b) == Combined(b, a)
  {
  }

  lemma CombinedAssociates(a: Balance, b: Balance, c: Balance)
    ensures Combined(Combined(a, b), c) == Combined(a, Combined(b, c))
  {
    var l := Combined(Combined(a, b), c);
    assert l.Keys == a.Keys + Combined(b, c).Keys;
    assert forall k :: k in l ==> l[k] == Get(a, k) + Get(Combined(b, c), k);
    CombinedByValues(l, a, Combined(b, c));
  }

  /** The owners a sequence of credits touches, and what each ends with. */
  lemma {:induction false} CreditAllAt(b: Balance, ps: seq<Packet>, debit: bool, k: Name)
    ensures k in CreditAll(b, ps, debit) <==> k in b || k in Owners(ps)
    ensures Get(CreditAll(b, ps, debit), k)
         == Get(b, k) + (if debit then -(OwnedValue(ps, k) as int) else OwnedValue(ps, k))
  {
    if ps != [] {
      var init, p := ps[..|ps| - 1], ps[|ps| - 1];
      assert ps == init + [p];
      assert Owners(ps) == Owners(init) + {p.to};
      CreditAllAt(b, init, debit, k);
    }
  }

  /** `from_transaction`: an owner appears exactly when some input or
      output names it, with the value it receives minus the value it
      spends. */
  lemma OfTransactionAt(t: Transaction, k: Name)
    ensures k in OfTransaction(t) <==> k in Owners(t.outputs) || k in Owners(t.inputs)
    ensures Get(OfTransaction(t), k) == OwnedValue(t.outputs, k) - OwnedValue(t.inputs, k)
  {
    CreditAllAt(map[], t.outputs, false, k);
    CreditAllAt(CreditAll(map[], t.outputs, false), t.inputs, true, k);
  }

  /** Transaction `t` names owner `k`, as a receiver or as a spender. */
  predicate Names(t: Transaction, k: Name)
  {
    k in Owners(t.outputs) || k in Owners(t.inputs)
  }

  /** What owner `k` receives in `t` minus what it spends there. */
  function Net(t: Transaction, k: Name): int
  {
    OwnedValue(t.outputs, k) - OwnedValue(t.inputs, k)
  }

  /** The sum of owner `k`'s nets over a transaction list. */
  function NetOf(txs: seq<Transaction>, k: Name): int
  {
    if txs == [] then 0 else NetOf(txs[..|txs| - 1], k) + Net(txs[|txs| - 1], k)
  }

  /** `from_transactions`: an owner appears exactly when some transaction
      names it, with the sum over the transactions of what it receives
      minus what it spends. */
  lemma {:induction false} OfTransactionsAt(txs: seq<Transaction>, k: Name)
    ensures k in OfTransactions(txs) <==> exists i :: 0 <= i < |txs| && Names(txs[i], k)
    ensures Get(OfTransactions(txs), k) == NetOf(txs, k)
  {
    if txs != [] {
      var init, last := txs[..|txs| - 1], txs[|txs| - 1];
      OfTransactionsAt(init, k);
      OfTransactionAt(last, k);
      assert forall i :: 0 <= i < |init| ==> init[i] == txs[i];
      if exists i :: 0 <= i < |txs| && Names(txs[i], k) {
        var i :| 0 <= i < |txs| && Names(txs[i], k);
        if i < |init| {
          assert Names(init[i], k);
        }
      }
    }
  }

  lemma {:induction false} TotalRemove(b: Balance, k: Name)
    requires k in b
    ensures Total(b) == b[k] + Total(b - {k})
    decreases |b|
  {
    var j :| j in b && Total(b) == b[j] + Total(b - {j});
    if j != k {
      assert (b - {j}).Keys == b.Keys - {j};
      assert (b - {k}).Keys == b.Keys - {k};
      TotalRemove(b - {j}, k);
      TotalRemove(b - {k}, j);
      assert b - {j} - {k} == b - {k} - {j};
    }
  }

  lemma TotalCredit(b: Balance, k: Name, v: int)
    ensures Total(Credit(b, k, v)) == Total(b) + v
  {
    var c := Credit(b, k, v);
    TotalRemove(c, k);
    if k in b {
      TotalRemove(b, k);
      assert c - {k} == b - {k};
    } else {
      assert c - {k} == b;
    }
  }

  lemma {:induction false} TotalCreditAll(b: Balance, ps: seq<Packet>, debit: bool)
    ensures Total(CreditAll(b, ps, debit)) == Total(b) + (if debit then -(Value(ps) as int) else Value(ps))
  {
    if ps != [] {
      var p := ps[|ps| - 1];
      TotalCreditAll(b, ps[..|ps| - 1], debit);
      TotalCredit(CreditAll(b, ps[..|ps| - 1], debit), p.to, if debit then -(p.value as int) else p.value);
    }
  }

  /** Summed over all owners, a transaction's balance is its output value
      minus its input value. */
  lemma TotalOfTransaction(t: Transaction)
    ensures Total(OfTransaction(t)) == OutputValue(t) - InputValue(t)
  {
    TotalCreditAll(map[], t.outputs, false);
    TotalCreditAll(CreditAll(map[], t.outputs, false), t.inputs, true);
  }

  /** Combining adds the totals. */
  lemma {:induction false} TotalCombined(a: Balance, b: Balance)
    ensures Total(Combined(a, b)) == Total(a) + Total(b)
    decreases |b|
  {
    if b == map[] {
      CombinedIdentity(a);
    } else {
      var k :| k in b;
      var b' := b - {k};
      assert b'.Keys == b.Keys - {k};
      TotalCombined(a, b');
      TotalRemove(b, k);
      CombinedCredit(a, b, k);
      TotalCredit(Combined(a, b'), k, b[k]);
    }
  }

  /** Summed over all owners, the balance of a transaction list is its
      total output value minus its total input value. */
  lemma {:induction false} TotalOfTransactions(txs: seq<Transaction>)
    ensures Total(OfTransactions(txs)) == TotalOutput(txs) - TotalInput(txs)
  {
    if txs != [] {
      TotalOfTransactions(txs[..|txs| - 1]);
      TotalOfTransaction(txs[|txs| - 1]);
      TotalCombined(OfTransactions(txs[..|txs| - 1]), OfTransaction(txs[|txs| - 1]));
    }
  }

  /** `Balance::combine`: insert every key of both balances with the sum of
      its two values, absent keys counting as zero. */
  method Combine(a: Balance, b: Balance) returns (r: Balance)
    ensures r == Combined(a, b)
  {
    r := map[];
    var keys := a.Keys;
    while keys != {}
      invariant keys <= a.Keys
      invariant r.Keys == a.Keys - keys
      invariant forall k :: k in r ==> r[k] == Get(a, k) + Get(b, k)
      decreases keys
    {
      var k :| k in keys;
      r := r[k := Get(a, k) + Get(b, k)];
      keys := keys - {k};
    }
    keys := b.Keys;
    while keys != {}
      invariant keys <= b.Keys
      invariant r.Keys == a.Keys + (b.Keys - keys)
      invariant forall k :: k in r ==> r[k] == Get(a, k) + Get(b, k)
      decreases keys
    {
      var k :| k in keys;
      r := r[k := Get(a, k) + Get(b, k)];
      keys := keys - {k};
    }
    CombinedByValues(r, a, b);
  }

  /** `Balance::from_transaction`: credit each output to its owner, then
      debit each input from its owner, inserting owners not seen yet. */
  method FromTransaction(t: Transaction) returns (b: Balance)
    ensures b == OfTransaction(t)
  {
    b := map[];
    for i := 0 to |t.outputs|
      invariant b == CreditAll(map[], t.outputs[..i], false)
    {
      var p := t.outputs[i];
      CreditAllStep(map[], t.outputs, false, i);
      ghost var before := b;
      if p.to in b {
        b := b[p.to := b[p.to] + p.value];
      } else {
        b := b[p.to := p.value];
      }
      assert b == Credit(before, p.to, p.value);
    }
    assert t.outputs[..|t.outputs|] == t.outputs;
    ghost var outs := b;
    for i := 0 to |t.inputs|
      invariant b == CreditAll(outs, t.inputs[..i], true)
    {
      var p := t.inputs[i];
      CreditAllStep(outs, t.inputs, true, i);
      ghost var before := b;
      if p.to in b {
        b := b[p.to := b[p.to] - p.value];
      } else {
        b := b[p.to := -(p.value as int)];
      }
      assert b == Credit(before, p.to, -(p.value as int));
    }
    assert t.inputs[..|t.inputs|] == t.inputs;
  }

  /** Crediting one more packet of a list. */
  lemma CreditAllStep(b: Balance, ps: seq<Packet>, debit: bool, i: nat)
    requires i < |ps|
    ensures CreditAll(b, ps[..i + 1], debit)
         == Credit(CreditAll(b, ps[..i], debit), ps[i].to, if debit then -(ps[i].value as int) else ps[i].value)
  {
    assert ps[..i + 1][..i] == ps[..i];
  }

  /** `Balance::from_transactions`: fold `combine` over the transactions. */
  method FromTransactions(txs: seq<Transaction>) returns (b: Balance)
    ensures b == OfTransactions(txs)
  {
    b := map[];
    for i := 0 to |txs|
      invariant b == OfTransactions(txs[..i])
    {
      assert txs[..i + 1][..i] == txs[..i];
      var tb := FromTransaction(txs[i]);
      b := Combine(b, tb);
    }
    assert txs[..|txs|] == txs;
  }
}
