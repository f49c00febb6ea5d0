/**
 Validated provider money, as integers scaled to four decimals and printed as decimal text.

 `Parse` is the partner of the printer: amounts in canonical text and natural numbers correspond
 one to one, so every statement about printed money is a statement about exact integers.
 */
module Money {
  import opened Wrappers

  const MAX_SAFE_INTEGER: nat := 0x1f_ffff_ffff_ffff

  /** A provider field. Integer is any number without a fraction, however large. */
  datatype Field = Integer(n: int) | Fraction | Text(s: string) | Nullish | Other

  datatype Provider = Polar | Razorpay

  datatype Currency = USD | INR

  /** The raw event types that carry money; every other string is OtherEvent. */
  datatype EventType =
    | RefundCreated | OrderRefunded
    | ChargebackCreated
    | OrderPaid | SubscriptionPaid | PaymentCaptured | PaymentLinkPaid | SubscriptionCharged
    | OtherEvent

  datatype Amounts = Amounts(currency: Currency, gross: string, discount: string, tax: string, commissionable: string)

  /** The provider fields that `canonicalMoney` reads. */
  datatype Facts = Facts(
    entityCurrency: Field, paymentCurrency: Field, refundCurrency: Field,
    totalAmount: Field, discountAmount: Field, taxAmount: Field, netAmount: Field,
    paymentAmount: Field, refundAmount: Field)

  // ---------- decimal text ----------

  predicate IsDigits(s: string) {
    s != "" && forall i | 0 <= i < |s| :: '0' <= s[i] <= '9'
  }

  function Digits(n: nat): string {
    if n < 10 then ['0' + n as char] else Digits(n / 10) + ['0' + (n % 10) as char]
  }

  function ParseDigits(s: string): nat
    requires IsDigits(s) || s == ""
  {
    if s == "" then 0 else 10 * ParseDigits(s[..|s| - 1]) + (s[|s| - 1] as int - '0' as int)
  }

  /** Digits without a leading zero, except for zero itself. */
  predicate IsCanonical(s: string) {
    IsDigits(s) && (|s| == 1 || s[0] != '0')
  }

  lemma {:induction false} DigitsReadBack(n: nat)
    ensures IsCanonical(Digits(n)) && ParseDigits(Digits(n)) == n
    ensures n > 0 ==> Digits(n)[0] != '0'
  {
    var s := Digits(n);
    if n >= 10 {
      DigitsReadBack(n / 10);
      assert s[..|s| - 1] == Digits(n / 10);
    } else {
      assert s[..0] == "";
    }
  }

  lemma {:induction false} CanonicalReadsBack(s: string)
    requires IsCanonical(s)
    ensures Digits(ParseDigits(s)) == s
    ensures s[0] != '0' ==> ParseDigits(s) > 0
  {
    var front := s[..|s| - 1];
    if |s| == 1 {
      assert front == "";
    } else {
      CanonicalReadsBack(front);
      assert s == front + [s[|s| - 1]];
    }
  }

  /** The four digits of a number below ten thousand: `toString().padStart(4, "0")`. */
  function Pad4(s: string): string
    decreases 4 - |s|
  {
    if |s| < 4 then Pad4("0" + s) else s
  }

  lemma {:induction false} LeadingZero(s: string)
    requires IsDigits(s) || s == ""
    ensures IsDigits("0" + s) && ParseDigits("0" + s) == ParseDigits(s)
  {
    var z := "0" + s;
    if s == "" {
      assert z[..0] == "";
    } else {
      assert z[..|z| - 1] == "0" + s[..|s| - 1];
      LeadingZero(s[..|s| - 1]);
    }
  }

  lemma {:induction false} Pad4KeepsValue(s: string)
    requires IsDigits(s) && |s| <= 4
    ensures |Pad4(s)| == 4 && IsDigits(Pad4(s)) && ParseDigits(Pad4(s)) == ParseDigits(s)
    decreases 4 - |s|
  {
    if |s| < 4 {
      LeadingZero(s);
      Pad4KeepsValue("0" + s);
    }
  }

  function Pow10(k: nat): nat {
    if k == 0 then 1 else 10 * Pow10(k - 1)
  }

  lemma {:induction false} DigitCount(n: nat, k: nat)
    requires k > 0 && n < Pow10(k)
    ensures |Digits(n)| <= k
  {
    if n >= 10 { DigitCount(n / 10, k - 1); }
  }

  lemma {:induction false} DigitsBound(s: string)
    requires IsDigits(s) || s == ""
    ensures ParseDigits(s) < Pow10(|s|)
  {
    if s != "" { DigitsBound(s[..|s| - 1]); }
  }

  lemma {:induction false} SameLengthSameDigits(s: string, t: string)
    requires |s| == |t| && (IsDigits(s) || s == "") && (IsDigits(t) || t == "")
    requires ParseDigits(s) == ParseDigits(t)
    ensures s == t
  {
    if s != "" {
      var a, b := s[..|s| - 1], t[..|t| - 1];
      var c, d := s[|s| - 1] as int - '0' as int, t[|t| - 1] as int - '0' as int;
      assert 10 * ParseDigits(a) + c == 10 * ParseDigits(b) + d;
      assert ParseDigits(a) == ParseDigits(b) && c == d;
      SameLengthSameDigits(a, b);
      assert s == a + [s[|s| - 1]] && t == b + [t[|t| - 1]];
    }
  }

  // ---------- amounts with four decimals ----------

  function FormatScaled4(value: nat): string {
    Digits(value / 10_000) + "." + Pad4(Digits(value % 10_000))
  }

  predicate IsAmount(s: string) {
    |s| >= 6 && s[|s| - 5] == '.' && IsCanonical(s[..|s| - 5]) && IsDigits(s[|s| - 4..])
  }

  function Parse(s: string): nat
    requires IsAmount(s)
  {
    10_000 * ParseDigits(s[..|s| - 5]) + ParseDigits(s[|s| - 4..])
  }

  lemma FormatReadsBack(value: nat)
    ensures IsAmount(FormatScaled4(value)) && Parse(FormatScaled4(value)) == value
  {
    var s, u, d := FormatScaled4(value), Digits(value / 10_000), Digits(value % 10_000);
    DigitsReadBack(value / 10_000);
    DigitsReadBack(value % 10_000);
    assert Pow10(4) == 10_000;
    DigitCount(value % 10_000, 4);
    Pad4KeepsValue(d);
    assert s[..|s| - 5] == u && s[|s| - 4..] == Pad4(d);
  }

  lemma AmountReadsBack(s: string)
    requires IsAmount(s)
    ensures FormatScaled4(Parse(s)) == s
  {
    var u, d := s[..|s| - 5], s[|s| - 4..];
    CanonicalReadsBack(u);
    DigitsBound(d);
    assert Pow10(4) == 10_000;
    var r := ParseDigits(d);
    assert Parse(s) / 10_000 == ParseDigits(u) && Parse(s) % 10_000 == r;
    DigitsReadBack(r);
    DigitCount(r, 4);
    Pad4KeepsValue(Digits(r));
    SameLengthSameDigits(Pad4(Digits(r)), d);
    assert s == u + "." + d;
  }

  // ---------- provider numbers ----------

  function MinorInteger(value: Field): Option<nat> {
    match value
    case Integer(n) => if 0 <= n <= MAX_SAFE_INTEGER then Some(n) else None
    case Text(s) => if IsDigits(s) then Some(ParseDigits(s)) else None
    case _ => None
  }

  /** The only characters whose upper case is a single letter of USD or INR. */
  function Upper(c: char): char {
    if 'a' <= c <= 'z' then c - 'a' + 'A'
    else if c == '\U{131}' then 'I'
    else if c == '\U{17F}' then 'S'
    else c
  }

  function UpperText(s: string): string {
    seq(|s|, i requires 0 <= i < |s| => Upper(s[i]))
  }

  function CurrencyCode(value: Field): Option<Currency> {
    if !value.Text? then None
    else if UpperText(value.s) == "USD" then Some(USD)
    else if UpperText(value.s) == "INR" then Some(INR)
    else None
  }

  /** `a ?? b` */
  function Coalesce(a: Field, b: Field): Field {
    if a.Nullish? then b else a
  }

  function MinorToScaled4(value: nat): nat { value * 100 }

  function RoundDivide(value: nat, divisor: nat): nat
    requires divisor > 0
  {
    (value + divisor / 2) / divisor
  }

  predicate IsRefund(e: EventType) { e.RefundCreated? || e.OrderRefunded? }

  predicate IsPaid(e: EventType) {
    e.OrderPaid? || e.SubscriptionPaid? || e.PaymentCaptured? || e.PaymentLinkPaid? || e.SubscriptionCharged?
  }

  function EventOf(raw: string): EventType {
    if raw == "refund.created" then RefundCreated
    else if raw == "order.refunded" then OrderRefunded
    else if raw == "chargeback.created" then ChargebackCreated
    else if raw == "order.paid" then OrderPaid
    else if raw == "subscription.paid" then SubscriptionPaid
    else if raw == "payment.captured" then PaymentCaptured
    else if raw == "payment_link.paid" then PaymentLinkPaid
    else if raw == "subscription.charged" then SubscriptionCharged
    else OtherEvent
  }

  /** The raw types that move money, each in one direction. */
  lemma EventKinds(raw: string)
    ensures IsRefund(EventOf(raw)) <==> raw in {"refund.created", "order.refunded"}
    ensures EventOf(raw).ChargebackCreated? <==> raw == "chargeback.created"
    ensures IsPaid(EventOf(raw)) <==>
      raw in {"order.paid", "subscription.paid", "payment.captured", "payment_link.paid", "subscription.charged"}
  {
  }

  /** A refund or chargeback: everything is commissionable. */
  function Reversal(currency: Currency, minor: Option<nat>): Option<Amounts> {
    if minor.None? then None
    else
      var amount := FormatScaled4(MinorToScaled4(minor.value));
      Some(Amounts(currency, amount, "0.0000", "0.0000", amount))
  }

  function CanonicalMoney(provider: Provider, facts: Facts, eventType: EventType, fullRefundAmountMinor: Option<nat>)
    : Option<Amounts>
  {
    var currency :=
      CurrencyCode(Coalesce(Coalesce(facts.entityCurrency, facts.paymentCurrency), facts.refundCurrency));
    if currency.None? then None
    else if IsRefund(eventType) then Reversal(currency.value, fullRefundAmountMinor)
    else if eventType.ChargebackCreated? then Reversal(currency.value, MinorInteger(facts.refundAmount))
    else if !IsPaid(eventType) then None
    else if provider == Polar then
      var gross, discount := MinorInteger(facts.totalAmount), MinorInteger(facts.discountAmount);
      var tax, commissionable := MinorInteger(facts.taxAmount), MinorInteger(facts.netAmount);
      if gross.None? || discount.None? || tax.None? || commissionable.None? then None
      else if commissionable.value + tax.value != gross.value || discount.value > gross.value then None
      else Some(Amounts(currency.value,
                        FormatScaled4(MinorToScaled4(gross.value)), FormatScaled4(MinorToScaled4(discount.value)),
                        FormatScaled4(MinorToScaled4(tax.value)), FormatScaled4(MinorToScaled4(commissionable.value))))
    else
      var minor := MinorInteger(facts.paymentAmount);
      if minor.None? || currency.value != INR then None
      else
        var gross := MinorToScaled4(minor.value);
        var tax := RoundDivide(minor.value * 18 * 100, 118);
        InclusiveTaxFits(minor.value);
        Some(Amounts(currency.value, FormatScaled4(gross), "0.0000", FormatScaled4(tax), FormatScaled4(gross - tax)))
  }

  // ---------- what the printed money means ----------

  /** The rounded tax is the nearest four-decimal amount to 18/118 of the price, ties upward. */
  lemma InclusiveTaxFits(minor: nat)
    ensures var tax := RoundDivide(minor * 18 * 100, 118);
      tax <= MinorToScaled4(minor) && -59 < 118 * tax - 18 * MinorToScaled4(minor) <= 59
  {
    var n := minor * 1800 + 59;
    assert n == 118 * (n / 118) + n % 118;
  }

  lemma PrintedZero()
    ensures IsAmount("0.0000") && Parse("0.0000") == 0
  {
    FormatReadsBack(0);
    assert "0" + "0" == "00" && "0" + "00" == "000" && "0" + "000" == "0000";
    assert Pad4("0") == Pad4("00");
    assert Pad4("00") == Pad4("000");
    assert Pad4("000") == "0000";
    assert FormatScaled4(0) == "0" + "." + "0000";
  }

  /** Conservation: what is paid is exactly what is commissionable plus tax, for every provider event. */
  lemma MoneyIsConserved(provider: Provider, facts: Facts, eventType: EventType, refund: Option<nat>)
    requires CanonicalMoney(provider, facts, eventType, refund).Some?
    ensures var m := CanonicalMoney(provider, facts, eventType, refund).value;
      && IsAmount(m.gross) && IsAmount(m.discount) && IsAmount(m.tax) && IsAmount(m.commissionable)
      && Parse(m.gross) == Parse(m.commissionable) + Parse(m.tax)
      && Parse(m.discount) <= Parse(m.gross)
  {
    PrintedZero();
    forall v: nat ensures IsAmount(FormatScaled4(v)) && Parse(FormatScaled4(v)) == v { FormatReadsBack(v); }
  }

  /** A captured payment with inclusive tax: the printed parts, pinned to the provider's integer. */
  lemma InclusiveTaxIsNearest(facts: Facts, eventType: EventType, refund: Option<nat>)
    requires IsPaid(eventType)
    ensures var r, minor := CanonicalMoney(Razorpay, facts, eventType, refund), MinorInteger(facts.paymentAmount);
      && (r.Some? <==> minor.Some? && CurrencyCode(Coalesce(Coalesce(facts.entityCurrency, facts.paymentCurrency), facts.refundCurrency)) == Some(INR))
      && (r.Some? ==>
        && r.value.currency == INR
        && IsAmount(r.value.gross) && IsAmount(r.value.tax) && IsAmount(r.value.commissionable)
        && Parse(r.value.gross) == 100 * minor.value
        && -59 < 118 * Parse(r.value.tax) - 18 * Parse(r.value.gross) <= 59
        && Parse(r.value.commissionable) == Parse(r.value.gross) - Parse(r.value.tax)
        && PrintsMinor(r.value.discount, 0))
  {
    PrintedZero();
    hide FormatScaled4, IsAmount, Parse, MinorInteger, CurrencyCode, Coalesce, RoundDivide;
    var minor := MinorInteger(facts.paymentAmount);
    if minor.Some? {
      var tax := RoundDivide(minor.value * 18 * 100, 118);
      InclusiveTaxFits(minor.value);
      FormatReadsBack(MinorToScaled4(minor.value));
      FormatReadsBack(tax);
      FormatReadsBack(MinorToScaled4(minor.value) - tax);
    }
  }

  predicate Consistent(gross: Option<nat>, discount: Option<nat>, tax: Option<nat>, net: Option<nat>) {
    && gross.Some? && discount.Some? && tax.Some? && net.Some?
    && gross.value == net.value + tax.value && discount.value <= gross.value
  }

  /** An itemised order yields money exactly when its own numbers agree, and then prints just those. */
  lemma ItemisedOrderExactly(facts: Facts, eventType: EventType, refund: Option<nat>, currency: Currency)
    requires IsPaid(eventType)
    requires CurrencyCode(Coalesce(Coalesce(facts.entityCurrency, facts.paymentCurrency), facts.refundCurrency))
          == Some(currency)
    ensures
      var g, d := MinorInteger(facts.totalAmount), MinorInteger(facts.discountAmount);
      var t, n := MinorInteger(facts.taxAmount), MinorInteger(facts.netAmount);
      var r := CanonicalMoney(Polar, facts, eventType, refund);
      && (r.Some? <==> Consistent(g, d, t, n))
      && (r.Some? ==> (&& PrintsMinor(r.value.gross, g.value) && PrintsMinor(r.value.discount, d.value)
                       && PrintsMinor(r.value.tax, t.value) && PrintsMinor(r.value.commissionable, n.value)))
  {
    hide CurrencyCode, Coalesce, MinorInteger, FormatScaled4, PrintsMinor, RoundDivide;
    forall v: nat ensures PrintsMinor(FormatScaled4(MinorToScaled4(v)), v) { MinorIsPrinted(v); }
  }

  /** The text is the amount in major units with four decimals, two of them zero. */
  predicate PrintsMinor(s: string, minor: nat) {
    IsAmount(s) && Parse(s) == 100 * minor
  }

  lemma MinorIsPrinted(minor: nat)
    ensures PrintsMinor(FormatScaled4(MinorToScaled4(minor)), minor)
  {
    FormatReadsBack(MinorToScaled4(minor));
  }

  // ---------- currencies and refunds ----------

  /** The text is the code in any case; upper-casing also takes the dotless i and the long s there. */
  predicate Spells(s: string, currency: Currency) {
    match currency
    case USD => |s| == 3 && s[0] in {'U', 'u'} && s[1] in {'S', 's', '\U{17F}'} && s[2] in {'D', 'd'}
    case INR => |s| == 3 && s[0] in {'I', 'i', '\U{131}'} && s[1] in {'N', 'n'} && s[2] in {'R', 'r'}
  }

  lemma CurrencyExactly(value: Field, currency: Currency)
    ensures CurrencyCode(value) == Some(currency) <==> value.Text? && Spells(value.s, currency)
  {
    if value.Text? {
      var u := UpperText(value.s);
      assert |value.s| == 3 ==> (u == "USD" <==> u[0] == 'U' && u[1] == 'S' && u[2] == 'D');
      assert |value.s| == 3 ==> (u == "INR" <==> u[0] == 'I' && u[1] == 'N' && u[2] == 'R');
    }
  }

  /** The first of the three currency fields that is given. */
  predicate IsGiven(facts: Facts, value: Field) {
    if !facts.entityCurrency.Nullish? then value == facts.entityCurrency
    else if !facts.paymentCurrency.Nullish? then value == facts.paymentCurrency
    else value == facts.refundCurrency
  }

  lemma GivenCurrency(facts: Facts, value: Field)
    requires IsGiven(facts, value)
    ensures Coalesce(Coalesce(facts.entityCurrency, facts.paymentCurrency), facts.refundCurrency) == value
  {
  }

  /** Only payments, refunds and chargebacks give money, and it is in the currency that the first given field spells. */
  lemma MoneyIsInGivenCurrency(provider: Provider, facts: Facts, eventType: EventType, refund: Option<nat>, value: Field)
    requires IsGiven(facts, value) && CanonicalMoney(provider, facts, eventType, refund).Some?
    ensures IsRefund(eventType) || eventType.ChargebackCreated? || IsPaid(eventType)
    ensures value.Text? && Spells(value.s, CanonicalMoney(provider, facts, eventType, refund).value.currency)
  {
    GivenCurrency(facts, value);
    hide FormatScaled4, MinorInteger, CurrencyCode, RoundDivide, Spells;
    CurrencyExactly(value, CanonicalMoney(provider, facts, eventType, refund).value.currency);
  }

  /** The minor units that a refund or a chargeback is about. */
  function ReversedMinor(facts: Facts, eventType: EventType, refund: Option<nat>): Option<nat> {
    if IsRefund(eventType) then refund else MinorInteger(facts.refundAmount)
  }

  /** A refund or chargeback yields money exactly when its currency and minor units are known, and all of it is commissionable. */
  lemma ReversalExactly(provider: Provider, facts: Facts, eventType: EventType, refund: Option<nat>, value: Field)
    requires (IsRefund(eventType) || eventType.ChargebackCreated?) && IsGiven(facts, value)
    ensures
      var r, minor := CanonicalMoney(provider, facts, eventType, refund), ReversedMinor(facts, eventType, refund);
      && (r.Some? <==> minor.Some? && value.Text? && exists c :: Spells(value.s, c))
      && (r.Some? ==>
            && PrintsMinor(r.value.gross, minor.value) && PrintsMinor(r.value.commissionable, minor.value)
            && PrintsMinor(r.value.tax, 0) && PrintsMinor(r.value.discount, 0))
  {
    GivenCurrency(facts, value);
    PrintedZero();
    CurrencyExactly(value, USD);
    CurrencyExactly(value, INR);
    hide FormatScaled4, MinorInteger, CurrencyCode, RoundDivide, Spells, IsAmount, Parse;
    var minor := ReversedMinor(facts, eventType, refund);
    if minor.Some? { MinorIsPrinted(minor.value); }
    if CurrencyCode(value).Some? { assert Spells(value.s, CurrencyCode(value).value); }
  }

  /** Numbers are minor units up to the largest safe integer, texts whatever their length; both are read as printed. */
  lemma MinorIsRead(n: int)
    ensures MinorInteger(Integer(n)) == if 0 <= n < 0x20_0000_0000_0000 then Some(n) else None
    ensures n >= 0 ==> MinorInteger(Text(Digits(n))) == Some(n)
    ensures MinorInteger(Fraction) == MinorInteger(Nullish) == MinorInteger(Other) == None
    ensures forall s | !IsDigits(s) :: MinorInteger(Text(s)) == None
  {
    if n >= 0 { DigitsReadBack(n); }
  }
}
