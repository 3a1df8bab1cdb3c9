/** The balance ledger of the chain: a map from participant name to a Java
    `int` balance. This module holds the value-level meaning of the two
    ledger updates of `Blockchain` (a block reward and a transfer) and of
    the balance check; the class in module Chain applies them in place. */
module Ledger {
  import opened JavaLang

  type Balances = map<string, Int32>

  /** `ledger.getOrDefault(name, 0)`: an absent participant holds 0. */
  function Balance(m: Balances, name: string): Int32
  {
    if name in m then m[name] else 0
  }

  /** `ledger.put(name, ledger.getOrDefault(name, 0) + amount)` with Java's
      32-bit wrap-around. */
  function Credit(m: Balances, name: string, amount: Int32): Balances
  {
    m[name := Wrap32(Balance(m, name) + amount)]
  }

  /** The two puts of `addTransactionToLedger`: the sender is debited, then
      the receiver is credited, reading the map as the debit left it. */
  function Transfer(m: Balances, sender: string, amount: Int32, receiver: string): Balances
    requires sender in m
  {
    var debited := m[sender := Wrap32(m[sender] - amount)];
    Credit(debited, receiver, amount)
  }

  /** `isTransactionValid`: the sender's balance (absent counts as 0) covers
      the amount. No signature is consulted. */
  predicate CanAfford(m: Balances, sender: string, amount: Int32)
  {
    Balance(m, sender) >= amount
  }

  /** A credit touches exactly one entry: `name` gains `amount` (modulo
      2^32) and now has an entry, and every other participant is as before. */
  lemma CreditEffect(m: Balances, name: string, amount: Int32)
    ensures var after := Credit(m, name, amount);
      && after.Keys == m.Keys + {name}
      && (after[name] - Balance(m, name) - amount) % TWO_32 == 0
      && (forall other :: other != name ==> Balance(after, other) == Balance(m, other))
  {
  }

  /** A transfer between two different participants debits the sender and
      credits the receiver (each modulo 2^32) and leaves everybody else
      alone; a transfer to oneself leaves the ledger as it was. */
  lemma TransferEffect(m: Balances, sender: string, amount: Int32, receiver: string)
    requires sender in m
    ensures var after := Transfer(m, sender, amount, receiver);
      && after.Keys == m.Keys + {receiver}
      && (sender != receiver ==>
            && after[sender] == Wrap32(m[sender] - amount)
            && after[receiver] == Wrap32(Balance(m, receiver) + amount))
      && (sender == receiver ==> after == m)
      && (forall other :: other != sender && other != receiver ==>
            Balance(after, other) == Balance(m, other))
  {
    var after := Transfer(m, sender, amount, receiver);
    if sender == receiver {
      var x := m[sender];
      var y := Wrap32(x - amount);
      // y = x - amount + c * 2^32, so y + amount = x + c * 2^32 wraps back to x
      assert after[sender] == Wrap32(y + amount);
      WrapCongruent(y + amount, x);
      assert after == m;
    }
  }

  /** Two integers that differ by a multiple of 2^32 wrap to the same `int`. */
  lemma WrapCongruent(x: int, y: int)
    requires (x - y) % TWO_32 == 0
    ensures Wrap32(x) == Wrap32(y)
  {
  }

  /** An affordable transfer with a non-negative amount never overdraws the
      sender: the sender ends with a balance between 0 and its old one. */
  lemma AffordableTransferKeepsSenderSolvent(m: Balances, sender: string, amount: Int32, receiver: string)
    requires sender in m && sender != receiver
    requires CanAfford(m, sender, amount) && amount >= 0
    ensures 0 <= Transfer(m, sender, amount, receiver)[sender] <= m[sender]
  {
    TransferEffect(m, sender, amount, receiver);
  }

  // ---------------------------------------------------------------------
  // The sum of all balances
  // ---------------------------------------------------------------------

  ghost function Pick(keys: set<string>): (k: string)
    requires keys != {}
    ensures k in keys
  {
    var k :| k in keys; k
  }

  /** The sum of the balances of the participants in `keys`. */
  ghost function TotalOver(m: Balances, keys: set<string>): int
    requires keys <= m.Keys
    decreases keys
  {
    if keys == {} then 0 else
      var k := Pick(keys);
      m[k] + TotalOver(m, keys - {k})
  }

  /** The sum of all balances in the ledger. */
  ghost function Total(m: Balances): int
  {
    TotalOver(m, m.Keys)
  }

  /** Any key may be taken out of the sum first. */
  lemma {:induction false} TotalOverRemove(m: Balances, keys: set<string>, k: string)
    requires keys <= m.Keys && k in keys
    ensures TotalOver(m, keys) == m[k] + TotalOver(m, keys - {k})
    decreases keys
  {
    var j := Pick(keys);
    if j != k {
      TotalOverRemove(m, keys - {j}, k);
      TotalOverRemove(m, keys - {k}, j);
      assert keys - {j} - {k} == keys - {k} - {j};
    }
  }

  /** The sum over `keys` depends only on the balances of `keys`. */
  lemma {:induction false} TotalOverAgree(m1: Balances, m2: Balances, keys: set<string>)
    requires keys <= m1.Keys && keys <= m2.Keys
    requires forall k :: k in keys ==> m1[k] == m2[k]
    ensures TotalOver(m1, keys) == TotalOver(m2, keys)
    decreases keys
  {
    if keys != {} {
      TotalOverAgree(m1, m2, keys - {Pick(keys)});
    }
  }

  /** Setting one balance changes the total by the difference. */
  lemma TotalUpdate(m: Balances, name: string, v: Int32)
    ensures Total(m[name := v]) == Total(m) - Balance(m, name) + v
  {
    var m' := m[name := v];
    if name in m {
      assert m'.Keys == m.Keys;
      TotalOverRemove(m', m'.Keys, name);
      TotalOverRemove(m, m.Keys, name);
      TotalOverAgree(m', m, m.Keys - {name});
    } else {
      TotalOverRemove(m', m'.Keys, name);
      assert m'.Keys - {name} == m.Keys;
      TotalOverAgree(m', m, m.Keys);
    }
  }

  /** A block reward adds `amount` to the total, modulo 2^32; exactly
      `amount` when the credited balance does not overflow. */
  lemma CreditTotal(m: Balances, name: string, amount: Int32)
    ensures (Total(Credit(m, name, amount)) - Total(m) - amount) % TWO_32 == 0
    ensures -0x8000_0000 <= Balance(m, name) + amount < 0x8000_0000 ==>
      Total(Credit(m, name, amount)) == Total(m) + amount
  {
    TotalUpdate(m, name, Wrap32(Balance(m, name) + amount));
  }

  /** A transfer moves coins without creating or destroying any: the total
      is preserved modulo 2^32, and exactly when neither update overflows. */
  lemma TransferTotal(m: Balances, sender: string, amount: Int32, receiver: string)
    requires sender in m
    ensures (Total(Transfer(m, sender, amount, receiver)) - Total(m)) % TWO_32 == 0
    ensures (&& -0x8000_0000 <= m[sender] - amount < 0x8000_0000
             && -0x8000_0000 <= Balance(m[sender := Wrap32(m[sender] - amount)], receiver) + amount < 0x8000_0000)
      ==> Total(Transfer(m, sender, amount, receiver)) == Total(m)
  {
    var debited := m[sender := Wrap32(m[sender] - amount)];
    TotalUpdate(m, sender, Wrap32(m[sender] - amount));
    CreditTotal(debited, receiver, amount);
  }
}
