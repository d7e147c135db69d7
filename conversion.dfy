/**
 * The conversion engine: the rate table, `convert_currency` and the
 * "popular conversions" fan-out. Rates and amounts are mathematical reals.
 */
module Conversion {
  import opened Wrappers

  /** Currency code -> units of that currency per one US dollar. */
  type Rates = map<string, real>

  /** The shipped table `CURRENCY_RATES`. */
  const CurrencyRates: Rates := map[
    "USD" := 1.00, "EUR" := 0.91, "GBP" := 0.79, "JPY" := 148.42, "AUD" := 1.52,
    "CAD" := 1.35, "CHF" := 0.87, "CNY" := 7.19, "INR" := 83.12, "NZD" := 1.64
  ]

  /** The targets of the "Popular conversions" list, in display order. */
  const PopularCurrencies: seq<string> := ["USD", "EUR", "GBP"]

  /** The two-step formula: `amount` to dollars at `fromRate`, then to the target at `toRate`. */
  function ViaDollar(amount: real, fromRate: real, toRate: real): real
    requires fromRate != 0.0
  {
    var usd := amount / fromRate;
    usd * toRate
  }

  /**
   * `convert_currency`: to dollars, then to the target. A missing code
   * (KeyError) or a zero source rate (ZeroDivisionError) gives None.
   */
  function Convert(rates: Rates, amount: real, from: string, to: string): (r: Option<real>)
    ensures r.None? <==> from !in rates || to !in rates || rates[from] == 0.0
  {
    if from !in rates then None
    else if rates[from] == 0.0 then None
    else if to !in rates then None
    else Some(ViaDollar(amount, rates[from], rates[to]))
  }

  /** The result stands to the amount as the target rate to the source rate. */
  lemma ConvertKeepsValue(rates: Rates, amount: real, from: string, to: string)
    requires Convert(rates, amount, from, to).Some?
    ensures Convert(rates, amount, from, to).value * rates[from] == amount * rates[to]
  {
    var usd := amount / rates[from];
    assert usd * rates[from] == amount;
    assert ViaDollar(amount, rates[from], rates[to]) == usd * rates[to];
    MulAssoc(usd, rates[to], rates[from]);
    MulAssoc(usd, rates[from], rates[to]);
  }

  /** Every rate in the shipped table is positive, so only unknown codes fail there. */
  lemma ShippedRatesPositive()
    ensures CurrencyRates.Keys == {"USD", "EUR", "GBP", "JPY", "AUD", "CAD", "CHF", "CNY", "INR", "NZD"}
    ensures forall code | code in CurrencyRates :: CurrencyRates[code] > 0.0
    ensures forall code | code in PopularCurrencies :: code in CurrencyRates
  {
  }

  /** Cancelling a non-zero factor. */
  lemma CancelFactor(x: real, c: real)
    requires c != 0.0 && x * c == 0.0
    ensures x == 0.0
  {
  }

  lemma MulAssoc(x: real, y: real, z: real)
    ensures (x * y) * z == x * (y * z)
  {
  }

  /** Converting a currency to itself gives the amount back. */
  lemma ConvertIdentity(rates: Rates, amount: real, code: string)
    requires code in rates && rates[code] != 0.0
    ensures Convert(rates, amount, code, code) == Some(amount)
  {
  }

  /** Converting there and back again gives the amount back (exactly, over the reals). */
  lemma ConvertRoundTrip(rates: Rates, amount: real, a: string, b: string)
    requires a in rates && b in rates && rates[a] != 0.0 && rates[b] != 0.0
    ensures Convert(rates, Convert(rates, amount, a, b).value, b, a) == Some(amount)
  {
    var there := Convert(rates, amount, a, b).value;
    var back := Convert(rates, there, b, a).value;
    ConvertKeepsValue(rates, amount, a, b);
    ConvertKeepsValue(rates, there, b, a);
    assert back * rates[b] == amount * rates[b];
    CancelFactor(back - amount, rates[b]);
  }

  /** Conversion is linear in the amount. */
  lemma ConvertLinear(rates: Rates, k: real, amount: real, a: string, b: string)
    requires Convert(rates, amount, a, b).Some?
    ensures Convert(rates, k * amount, a, b).Some?
    ensures Convert(rates, k * amount, a, b).value == k * Convert(rates, amount, a, b).value
  {
    var ra, rb := rates[a], rates[b];
    assert (k * amount) / ra == k * (amount / ra);
    assert Convert(rates, k * amount, a, b).value == (k * amount) / ra * rb;
    assert Convert(rates, amount, a, b).value == (amount / ra) * rb;
  }

  /** 100 USD is 91 EUR, 100 EUR is 10000/91 USD, and an unknown code converts to nothing. */
  lemma ShippedExamples()
    ensures Convert(CurrencyRates, 100.0, "USD", "EUR") == Some(91.0)
    ensures Convert(CurrencyRates, 100.0, "EUR", "USD") == Some(10000.0 / 91.0)
    ensures forall amount: real :: Convert(CurrencyRates, amount, "XXX", "USD") == None
    ensures forall amount: real :: Convert(CurrencyRates, amount, "USD", "XXX") == None
  {
  }

  /**
   * The fan-out over `targets`, as a list built one target at a time:
   * a target equal to the source is skipped, and so is one that does not
   * convert.
   */
  function FanOut(rates: Rates, amount: real, from: string, targets: seq<string>): seq<(string, real)>
    decreases |targets|
  {
    if targets == [] then []
    else
      var last := targets[|targets| - 1];
      var earlier := FanOut(rates, amount, from, targets[..|targets| - 1]);
      if last != from && Convert(rates, amount, from, last).Some? then
        earlier + [(last, Convert(rates, amount, from, last).value)]
      else earlier
  }

  /** The `for curr in popular_currencies` loop, with the source's two tests. */
  method PopularConversions(rates: Rates, amount: real, from: string, targets: seq<string>)
    returns (shown: seq<(string, real)>)
    ensures shown == FanOut(rates, amount, from, targets)
  {
    shown := [];
    for k := 0 to |targets|
      invariant shown == FanOut(rates, amount, from, targets[..k])
    {
      assert targets[..k + 1][..k] == targets[..k];
      var curr := targets[k];
      if curr != from {
        var converted := Convert(rates, amount, from, curr);
        if converted.Some? {
          shown := shown + [(curr, converted.value)];
        }
      }
    }
    assert targets[..|targets|] == targets;
  }

  /** Every line shown is a target other than the source, with its conversion. */
  lemma {:induction false} FanOutSound(rates: Rates, amount: real, from: string, targets: seq<string>)
    ensures forall entry | entry in FanOut(rates, amount, from, targets) ::
      entry.0 in targets && entry.0 != from && Convert(rates, amount, from, entry.0) == Some(entry.1)
  {
    if targets != [] {
      var init := targets[..|targets| - 1];
      FanOutSound(rates, amount, from, init);
      assert targets == init + [targets[|targets| - 1]];
    }
  }

  /** Every target other than the source that converts is shown. */
  lemma {:induction false} FanOutComplete(rates: Rates, amount: real, from: string, targets: seq<string>, code: string)
    requires code in targets && code != from && Convert(rates, amount, from, code).Some?
    ensures (code, Convert(rates, amount, from, code).value) in FanOut(rates, amount, from, targets)
  {
    var init := targets[..|targets| - 1];
    if targets[|targets| - 1] != code {
      assert code in init by {
        var j :| 0 <= j < |targets| && targets[j] == code;
        assert init[j] == code;
      }
      FanOutComplete(rates, amount, from, init, code);
    }
  }

  /** `targets` with every occurrence of `from` removed, in order. */
  function Skip(targets: seq<string>, from: string): (r: seq<string>)
    ensures forall k | 0 <= k < |r| :: r[k] != from && r[k] in targets
  {
    if targets == [] then []
    else if targets[0] == from then Skip(targets[1..], from)
    else [targets[0]] + Skip(targets[1..], from)
  }

  /** The reference answer: each code in `codes`, priced with the two-step formula. */
  function Priced(rates: Rates, amount: real, from: string, codes: seq<string>): (r: seq<(string, real)>)
    requires from in rates && rates[from] != 0.0
    requires forall code | code in codes :: code in rates
    ensures |r| == |codes|
  {
    seq(|codes|, k requires 0 <= k < |codes| => (codes[k], ViaDollar(amount, rates[from], rates[codes[k]])))
  }

  /**
   * When the source and every target are in the table with non-zero source
   * rate, the fan-out shows exactly the targets other than the source, in
   * their order, each with the two-step formula.
   */
  lemma {:induction false} FanOutAllKnown(rates: Rates, amount: real, from: string, targets: seq<string>)
    requires from in rates && rates[from] != 0.0
    requires forall code | code in targets :: code in rates
    ensures FanOut(rates, amount, from, targets) == Priced(rates, amount, from, Skip(targets, from))
  {
    if targets != [] {
      var init := targets[..|targets| - 1];
      var last := targets[|targets| - 1];
      assert init + [last] == targets;
      FanOutAllKnown(rates, amount, from, init);
      SkipSnoc(init, last, from);
      var codes := Skip(init, from);
      if last != from {
        var p := Priced(rates, amount, from, codes + [last]);
        assert p == Priced(rates, amount, from, codes) + [(last, ViaDollar(amount, rates[from], rates[last]))];
      } else {
        assert codes + [] == codes;
      }
    }
  }

  lemma {:induction false} SkipSnoc(init: seq<string>, last: string, from: string)
    ensures Skip(init + [last], from) == Skip(init, from) + (if last == from then [] else [last])
  {
    if init == [] {
      assert [] + [last] == [last];
    } else {
      assert (init + [last])[1..] == init[1..] + [last];
      SkipSnoc(init[1..], last, from);
    }
  }

  /**
   * With the shipped table and a source code from it, the popular list shows
   * the other two or three of USD, EUR, GBP, in that order, each priced.
   */
  lemma PopularShipped(amount: real, from: string)
    requires from in CurrencyRates
    ensures FanOut(CurrencyRates, amount, from, PopularCurrencies)
         == Priced(CurrencyRates, amount, from, Skip(PopularCurrencies, from))
    ensures |FanOut(CurrencyRates, amount, from, PopularCurrencies)| == if from in PopularCurrencies then 2 else 3
  {
    ShippedRatesPositive();
    FanOutAllKnown(CurrencyRates, amount, from, PopularCurrencies);
  }
}
