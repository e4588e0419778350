/** The analytics event record built by `trackEvent`, the payload it hands to
    the analytics sink, and the decimal rendering used in event labels. */
module Events {

  /** A value in an event's data mapping. `Undefined` is JavaScript's
      `undefined`, which the spread operator copies like any other value. */
  datatype Value = Text(s: string) | Number(n: int) | Undefined

  /** One call of `trackEvent(action, category, label, data)`. */
  datatype Event = Event(action: string, category: string, eventLabel: string, data: map<string, Value>)

  /** An event without a data mapping (`data` left `undefined`). */
  function Plain(action: string, category: string, eventLabel: string): Event {
    Event(action, category, eventLabel, map[])
  }

  /** The properties object passed to the sink: `event_category` and
      `event_label` first, then `...data`, so a data key of the same name
      overrides them. */
  function Payload(e: Event): (p: map<string, Value>)
    ensures p.Keys == {"event_category", "event_label"} + e.data.Keys
    ensures forall k :: k in e.data ==> p[k] == e.data[k]
    ensures "event_category" !in e.data ==> p["event_category"] == Text(e.category)
    ensures "event_label" !in e.data ==> p["event_label"] == Text(e.eventLabel)
  {
    map["event_category" := Text(e.category), "event_label" := Text(e.eventLabel)] + e.data
  }

  function DigitChar(d: nat): (c: char)
    requires d < 10
    ensures '0' <= c <= '9'
  {
    "0123456789"[d]
  }

  function DigitValue(c: char): nat {
    if '0' <= c <= '9' then (c - '0') as nat else 0
  }

  /** JavaScript's rendering of a non-negative integer in a template literal. */
  function Decimal(n: nat): string
    decreases n
  {
    if n < 10 then [DigitChar(n)] else Decimal(n / 10) + [DigitChar(n % 10)]
  }

  /** The rendering is a non-empty run of digits without a leading zero
      (except for 0 itself). */
  lemma {:induction false} DecimalDigits(n: nat)
    ensures |Decimal(n)| >= 1
    ensures forall i :: 0 <= i < |Decimal(n)| ==> '0' <= Decimal(n)[i] <= '9'
    ensures n >= 10 ==> Decimal(n)[0] != '0'
    decreases n
  {
    if n >= 10 {
      DecimalDigits(n / 10);
      if n / 10 < 10 {
        assert n / 10 != 0;
      }
    }
  }

  /** Reads a string of decimal digits back as a number. */
  function ParseDecimal(s: string): nat
    decreases |s|
  {
    if |s| == 0 then 0 else ParseDecimal(s[..|s| - 1]) * 10 + DigitValue(s[|s| - 1])
  }

  lemma DigitRoundTrip(d: nat)
    requires d < 10
    ensures DigitValue(DigitChar(d)) == d
  {
    assert "0123456789"[d] as int == '0' as int + d;
  }

  /** Decimal loses nothing: parsing the rendering gives the number back, so
      distinct numbers get distinct labels. */
  lemma {:induction false} DecimalRoundTrip(n: nat)
    ensures ParseDecimal(Decimal(n)) == n
    decreases n
  {
    if n < 10 {
      DigitRoundTrip(n);
      assert Decimal(n)[..0] == [];
    } else {
      var s := Decimal(n);
      assert s[..|s| - 1] == Decimal(n / 10);
      DecimalRoundTrip(n / 10);
      DigitRoundTrip(n % 10);
    }
  }
}
