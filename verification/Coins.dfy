/** Change in coins: what a greedy payout gives for an amount of money. */
module Coins {

  const WORD32: nat := 0x1_0000_0000

  /** A number of coins of one worth. */
  datatype Payment = Payment(unit: nat, count: nat)

  function Paid(ps: seq<Payment>): nat {
    if ps == [] then 0 else Paid(ps[..|ps| - 1]) + ps[|ps| - 1].unit * ps[|ps| - 1].count
  }

  /** The currency table: worths from the highest to the lowest, none zero. */
  predicate Descending(currency: seq<nat>) {
    && (forall i | 0 <= i < |currency| :: currency[i] > 0)
    && (forall i, j | 0 <= i < j < |currency| :: currency[i] > currency[j])
  }

  /** How many coins of a worth are paid out; the number is kept in 32 bits. */
  function CoinsFor(money: nat, worth: nat): nat
    requires worth > 0
  {
    (money / worth) % WORD32
  }

  /** The money that a greedy payout leaves unpaid. */
  function Unpaid(money: nat, currency: seq<nat>): nat
    requires Descending(currency)
  {
    if currency == [] then money
    else
      CoinsFit(money, currency[0]);
      Unpaid(money - CoinsFor(money, currency[0]) * currency[0], currency[1..])
  }

  lemma CoinsFit(money: nat, worth: nat)
    requires worth > 0
    ensures CoinsFor(money, worth) * worth <= money
  {
    var q := money / worth;
    assert CoinsFor(money, worth) <= q;
    assert CoinsFor(money, worth) * worth <= q * worth;
  }

  lemma RestIsSmall(money: nat, worth: nat)
    requires worth > 0 && money / worth < WORD32
    ensures money - CoinsFor(money, worth) * worth < worth
  {
    assert CoinsFor(money, worth) == money / worth;
    assert money == (money / worth) * worth + money % worth;
  }

  /** Too many coins for 32 bits: at least 2^32 of them stay unpaid. */
  lemma RestIsLarge(money: nat, worth: nat)
    requires worth > 0 && money / worth >= WORD32
    ensures money - CoinsFor(money, worth) * worth >= WORD32 * worth
  {
    var q := money / worth;
    var k := q / WORD32;
    assert q == k * WORD32 + CoinsFor(money, worth) && k >= 1;
    assert money >= q * worth;
    assert q * worth - CoinsFor(money, worth) * worth == (k * WORD32) * worth;
    assert (k * WORD32) * worth >= WORD32 * worth by {
      assert (k - 1) * WORD32 * worth >= 0;
    }
  }

  lemma {:induction false} LargeStaysUnpaid(money: nat, currency: seq<nat>, bound: nat)
    requires Descending(currency) && bound > 0 && money >= WORD32 * bound
    requires forall i | 0 <= i < |currency| :: currency[i] <= bound
    ensures Unpaid(money, currency) > 0
    decreases currency
  {
    if currency != [] {
      var w := currency[0];
      assert money / w >= WORD32 by {
        QuotientAtLeast(money, w, bound);
      }
      RestIsLarge(money, w);
      LargeStaysUnpaid(money - CoinsFor(money, w) * w, currency[1..], w);
    }
  }

  lemma QuotientAtLeast(money: nat, w: nat, bound: nat)
    requires 0 < w <= bound && money >= WORD32 * bound
    ensures money / w >= WORD32
  {
    var q := money / w;
    assert money == q * w + money % w;
    CancelFactor(WORD32, q + 1, w);
  }

  lemma CancelFactor(a: nat, b: nat, w: nat)
    requires w > 0
    ensures a * w < b * w ==> a < b
  {
    if a >= b {
      assert (a - b) * w >= 0;
    }
  }

  lemma QuotientFits(money: nat, w: nat)
    requires 0 < w && money < WORD32
    ensures money / w < WORD32
  {
  }

  lemma {:induction false} SmallIsPaid(money: nat, currency: seq<nat>)
    requires Descending(currency) && currency != [] && currency[|currency| - 1] == 1 && money / currency[0] < WORD32
    requires currency[0] <= WORD32
    ensures Unpaid(money, currency) == 0
    decreases currency
  {
    var w := currency[0];
    RestIsSmall(money, w);
    CoinsFit(money, w);
    var rest := money - CoinsFor(money, w) * w;
    assert Unpaid(money, currency) == Unpaid(rest, currency[1..]);
    if |currency| > 1 {
      QuotientFits(rest, currency[1]);
      SmallIsPaid(rest, currency[1..]);
    } else {
      NothingToPayWith(rest, currency[1..]);
    }
  }

  lemma NothingToPayWith(money: nat, currency: seq<nat>)
    requires currency == []
    ensures Unpaid(money, currency) == money
  {
  }

  /** A payout with a coin of worth one is complete exactly when the largest coins fit their 32-bit number. */
  lemma PaysExactlyIff(money: nat, currency: seq<nat>)
    requires Descending(currency) && currency != [] && currency[|currency| - 1] == 1 && currency[0] <= WORD32
    ensures Unpaid(money, currency) == 0 <==> money / currency[0] < WORD32
  {
    if money / currency[0] < WORD32 {
      SmallIsPaid(money, currency);
    } else {
      RestIsLarge(money, currency[0]);
      LargeStaysUnpaid(money - CoinsFor(money, currency[0]) * currency[0], currency[1..], currency[0]);
    }
  }

}
