/**
  The pure parts of inc/notifications.php: the field-change detector of
  `homebio_compare_and_notify`, `homebio_format_price` and the relative
  time buckets of `homebio_format_notification_date`.  Prices are whole
  euros (an unset price reads as 0, which `empty` treats as missing); the
  other property fields are compared as strings; translated labels are the
  English source strings.
*/
module NotificationFormat {
  import opened Wrappers

  /** The property data captured before an edit and read again after it. */
  datatype Snapshot = Snapshot(title: string, price: int, area: string, bedrooms: string,
                               bathrooms: string, address: string, status: string)

  /** The `type` of a change entry. */
  datatype Field = Price | Area | Bedrooms | Bathrooms | Address

  /** One `$changes[]` entry: `type`, `label`, `old`, `new`. */
  datatype Change = Change(field: Field, caption: string, before: string, after: string)

  /** The fixed order in which the fields are compared. */
  function Rank(f: Field): nat
  {
    match f
    case Price => 0
    case Area => 1
    case Bedrooms => 2
    case Bathrooms => 3
    case Address => 4
  }

  /** Whether the field differs between the two snapshots. */
  predicate Differs(f: Field, a: Snapshot, b: Snapshot)
  {
    match f
    case Price => a.price != b.price
    case Area => a.area != b.area
    case Bedrooms => a.bedrooms != b.bedrooms
    case Bathrooms => a.bathrooms != b.bathrooms
    case Address => a.address != b.address
  }

  /** The entry `homebio_compare_and_notify` builds for a field that differs. */
  function ChangeOf(f: Field, a: Snapshot, b: Snapshot): (c: Change)
    ensures c.field == f
  {
    match f
    case Price => Change(Price, "Price", FormatPrice(a.price), FormatPrice(b.price))
    case Area => Change(Area, "Area", a.area + " m²", b.area + " m²")
    case Bedrooms => Change(Bedrooms, "Bedrooms", a.bedrooms, b.bedrooms)
    case Bathrooms => Change(Bathrooms, "Bathrooms", a.bathrooms, b.bathrooms)
    case Address => Change(Address, "Address", a.address, b.address)
  }

  /** The field compared in position `k` of the fixed order. */
  function FieldAt(k: nat): (f: Field)
    requires k < 5
    ensures Rank(f) == k
  {
    if k == 0 then Price else if k == 1 then Area else if k == 2 then Bedrooms else if k == 3 then Bathrooms else Address
  }

  /** The changes among the first `k` fields of the order, as a reference definition. */
  function ChangesUpTo(k: nat, a: Snapshot, b: Snapshot): seq<Change>
    requires k <= 5
  {
    if k == 0 then []
    else
      var f := FieldAt(k - 1);
      ChangesUpTo(k - 1, a, b) + (if Differs(f, a, b) then [ChangeOf(f, a, b)] else [])
  }

  /**
    The reference changes are exactly the differing fields among the first
    `k`, each once, in the fixed order, each built from its own values.
  */
  lemma {:induction false} ChangesUpToSpec(k: nat, a: Snapshot, b: Snapshot)
    requires k <= 5
    ensures var cs := ChangesUpTo(k, a, b);
      (forall f | Rank(f) < k :: Differs(f, a, b) <==> ChangeOf(f, a, b) in cs)
      && (forall c | c in cs :: Rank(c.field) < k && Differs(c.field, a, b) && c == ChangeOf(c.field, a, b))
      && (forall i, j | 0 <= i < j < |cs| :: Rank(cs[i].field) < Rank(cs[j].field))
  {
    if k > 0 {
      ChangesUpToSpec(k - 1, a, b);
      var f := FieldAt(k - 1);
      var cs := ChangesUpTo(k, a, b);
      var front := ChangesUpTo(k - 1, a, b);
      assert forall c | c in front :: Rank(c.field) < k - 1;
      forall g | Rank(g) < k ensures Differs(g, a, b) <==> ChangeOf(g, a, b) in cs {
        if Rank(g) == k - 1 {
          assert g == f;
          assert ChangeOf(g, a, b) !in front;
        }
      }
    }
  }

  /** Nothing is reported when only the title or the status changed. */
  lemma TitleAndStatusIgnored(a: Snapshot, b: Snapshot)
    requires a.(title := b.title, status := b.status) == b
    ensures ChangesUpTo(5, a, b) == []
  {
    assert a.price == b.price && a.area == b.area && a.bedrooms == b.bedrooms
      && a.bathrooms == b.bathrooms && a.address == b.address;
    assert ChangesUpTo(1, a, b) == [];
    assert ChangesUpTo(2, a, b) == [];
    assert ChangesUpTo(3, a, b) == [];
    assert ChangesUpTo(4, a, b) == [];
  }

  /**
    The `$changes[]` accumulation: nothing without a captured snapshot,
    otherwise the reference changes over all five fields.  Title and status
    are captured but never compared.
  */
  method DetectChanges(original: Option<Snapshot>, current: Snapshot) returns (changes: seq<Change>)
    ensures original.None? ==> changes == []
    ensures original.Some? ==> changes == ChangesUpTo(5, original.value, current)
  {
    changes := [];
    if original.None? {
      return;
    }
    var a := original.value;
    if a.price != current.price {
      changes := changes + [ChangeOf(Price, a, current)];
    }
    assert changes == ChangesUpTo(1, a, current);
    if a.area != current.area {
      changes := changes + [ChangeOf(Area, a, current)];
    }
    assert changes == ChangesUpTo(2, a, current);
    if a.bedrooms != current.bedrooms {
      changes := changes + [ChangeOf(Bedrooms, a, current)];
    }
    assert changes == ChangesUpTo(3, a, current);
    if a.bathrooms != current.bathrooms {
      changes := changes + [ChangeOf(Bathrooms, a, current)];
    }
    assert changes == ChangesUpTo(4, a, current);
    if a.address != current.address {
      changes := changes + [ChangeOf(Address, a, current)];
    }
  }

  // ---------------------------------------------------------------------------
  // homebio_format_price

  /** `'€' . number_format($price, 0, ',', ' ')`, or "-" for an empty price. */
  function FormatPrice(price: int): (s: string)
    ensures price == 0 <==> s == "-"
    ensures price != 0 ==> |s| >= 2 && s[0] == '€'
  {
    if price == 0 then "-"
    else if price < 0 then "€-" + Grouped(-price)
    else "€" + Grouped(price)
  }

  /** The price text reads back as the price: its sign, then its digits once the group spaces are skipped. */
  lemma FormatPriceValue(price: int)
    requires price != 0
    ensures var s := FormatPrice(price);
      (price > 0 ==> GroupedValue(s[1..]) == price)
      && (price < 0 ==> |s| >= 3 && s[1] == '-' && GroupedValue(s[2..]) == -price)
  {
    if price > 0 {
      PriceDigits(price, Grouped(price), ['€']);
      GroupedRoundTrip(price);
    } else {
      PriceDigits(price, Grouped(-price), ['€', '-']);
      GroupedRoundTrip(-price);
    }
  }

  /** The price text is its sign prefix followed by the grouped digits. */
  lemma PriceDigits(price: int, g: string, sign: string)
    requires price != 0 && g == Grouped(if price > 0 then price else -price)
    requires sign == if price > 0 then ['€'] else ['€', '-']
    ensures FormatPrice(price) == sign + g && FormatPrice(price)[|sign|..] == g
  {
    assert (sign + g)[|sign|..] == g;
  }

  function DigitChar(d: nat): char
    requires d < 10
  {
    ['0', '1', '2', '3', '4', '5', '6', '7', '8', '9'][d]
  }

  /** A number below 1000 as exactly three digits, for every group after the first. */
  function ThreeDigits(n: nat): (s: string)
    requires n < 1000
    ensures |s| == 3
  {
    [DigitChar(n / 100), DigitChar(n % 100 / 10), DigitChar(n % 10)]
  }

  /** The first group, without leading zeros. */
  function Leading(n: nat): (s: string)
    requires n < 1000
    ensures 1 <= |s| <= 3
  {
    if n < 10 then [DigitChar(n)]
    else if n < 100 then [DigitChar(n / 10), DigitChar(n % 10)]
    else ThreeDigits(n)
  }

  /** The digits of `n` in groups of three, separated by spaces. */
  function Grouped(n: nat): (s: string)
    ensures |s| >= 1
  {
    if n < 1000 then Leading(n) else Grouped(n / 1000) + " " + ThreeDigits(n % 1000)
  }

  function CharDigit(c: char): nat
  {
    if '0' <= c <= '9' then (c as int - '0' as int) as nat else 0
  }

  /** Reading the digits back, spaces skipped: the inverse of `Grouped`. */
  function GroupedValue(s: string): nat
  {
    if s == [] then 0
    else if s[|s| - 1] == ' ' then GroupedValue(s[..|s| - 1])
    else GroupedValue(s[..|s| - 1]) * 10 + CharDigit(s[|s| - 1])
  }

  lemma GroupedValueSnoc(s: string, c: char)
    ensures GroupedValue(s + [c]) == if c == ' ' then GroupedValue(s) else GroupedValue(s) * 10 + CharDigit(c)
  {
    assert (s + [c])[..|s|] == s;
  }

  lemma DigitCharValue(d: nat)
    requires d < 10
    ensures CharDigit(DigitChar(d)) == d && '0' <= DigitChar(d) <= '9'
  {
  }

  /** Three digits appended to any text add their value in the units. */
  lemma GroupedValueThree(s: string, n: nat)
    requires n < 1000
    ensures GroupedValue(s + ThreeDigits(n)) == GroupedValue(s) * 1000 + n
  {
    var h, t, u := n / 100, n % 100 / 10, n % 10;
    assert n == 100 * h + 10 * t + u;
    DigitCharValue(h);
    DigitCharValue(t);
    DigitCharValue(u);
    var d := ThreeDigits(n);
    assert s + d == s + [d[0]] + [d[1]] + [d[2]];
    GroupedValueSnoc(s, d[0]);
    GroupedValueSnoc(s + [d[0]], d[1]);
    GroupedValueSnoc(s + [d[0]] + [d[1]], d[2]);
  }

  lemma LeadingValue(n: nat)
    requires n < 1000
    ensures GroupedValue(Leading(n)) == n
  {
    if n >= 100 {
      GroupedValueThree([], n);
      assert [] + ThreeDigits(n) == ThreeDigits(n);
    } else if n >= 10 {
      var s := Leading(n);
      DigitCharValue(n / 10);
      DigitCharValue(n % 10);
      GroupedValueSnoc([], s[0]);
      GroupedValueSnoc([s[0]], s[1]);
      assert s == [] + [s[0]] + [s[1]];
    } else {
      DigitCharValue(n);
      GroupedValueSnoc([], DigitChar(n));
      assert Leading(n) == [] + [DigitChar(n)];
    }
  }

  /** `number_format` loses nothing: skipping the separators gives the number back. */
  lemma {:induction false} GroupedRoundTrip(n: nat)
    ensures GroupedValue(Grouped(n)) == n
    decreases n
  {
    if n < 1000 {
      LeadingValue(n);
    } else {
      var q, r := n / 1000, n % 1000;
      assert n == q * 1000 + r;
      GroupedRoundTrip(q);
      GroupedValueSnoc(Grouped(q), ' ');
      GroupedValueThree(Grouped(q) + " ", r);
    }
  }

  /** Every group after the first has exactly three digits: each space is followed by three digits. */
  lemma {:induction false} GroupedShape(n: nat)
    ensures forall k | 0 <= k < |Grouped(n)| && Grouped(n)[k] == ' ' ::
      k + 3 < |Grouped(n)| && forall j | k < j <= k + 3 :: '0' <= Grouped(n)[j] <= '9'
    decreases n
  {
    if n >= 1000 {
      GroupedShape(n / 1000);
      var head := Grouped(n / 1000);
      var tail := ThreeDigits(n % 1000);
      ThreeDigitsAreDigits(n % 1000);
      var s := head + " " + tail;
      forall k | 0 <= k < |s| && s[k] == ' '
        ensures k + 3 < |s| && forall j | k < j <= k + 3 :: '0' <= s[j] <= '9'
      {
        if k < |head| {
          assert s[k] == head[k];
          forall j | k < j <= k + 3 ensures '0' <= s[j] <= '9' {
            if j < |head| { assert s[j] == head[j]; }
          }
        }
      }
    } else {
      assert ' ' !in Grouped(n) by {
        DigitCharValue(n % 10);
        if n >= 100 { ThreeDigitsAreDigits(n); } else if n >= 10 { DigitCharValue(n / 10); }
      }
    }
  }

  lemma ThreeDigitsAreDigits(n: nat)
    requires n < 1000
    ensures forall k | 0 <= k < 3 :: '0' <= ThreeDigits(n)[k] <= '9'
  {
    DigitCharValue(n / 100);
    DigitCharValue(n % 100 / 10);
    DigitCharValue(n % 10);
  }

  // ---------------------------------------------------------------------------
  // homebio_format_notification_date

  /** What the date is shown as: a relative count, or the absolute date. */
  datatype Shown = JustNow | MinutesAgo(minutes: int) | HoursAgo(hours: int) | DaysAgo(days: int) | OnDate(timestamp: int)

  const Minute: int := 60
  const Hour: int := 3600
  const Day: int := 86400
  const Week: int := 604800

  /** `homebio_format_notification_date`, with the stored date and the clock as timestamps. */
  function FormatDate(timestamp: int, now: int): (shown: Shown)
    ensures var diff := now - timestamp;
      (diff < Minute <==> shown == JustNow)
      && (shown.MinutesAgo? ==> 1 <= shown.minutes < 60 && shown.minutes * Minute <= diff < (shown.minutes + 1) * Minute)
      && (shown.HoursAgo? ==> 1 <= shown.hours < 24 && shown.hours * Hour <= diff < (shown.hours + 1) * Hour)
      && (shown.DaysAgo? ==> 1 <= shown.days < 7 && shown.days * Day <= diff < (shown.days + 1) * Day)
      && (shown.OnDate? <==> diff >= Week)
      && (shown.OnDate? ==> shown.timestamp == timestamp)
  {
    var diff := now - timestamp;
    if diff < Minute then JustNow
    else if diff < Hour then MinutesAgo(diff / Minute)
    else if diff < Day then HoursAgo(diff / Hour)
    else if diff < Week then DaysAgo(diff / Day)
    else OnDate(timestamp)
  }

  /** The buckets follow one another: an older date is never shown in a finer unit. */
  lemma FormatDateMonotone(timestamp: int, now: int, later: int)
    requires now <= later
    ensures Unit(FormatDate(timestamp, now)) <= Unit(FormatDate(timestamp, later))
  {
  }

  /** The unit of a shown date: 0 just now, 1 minutes, 2 hours, 3 days, 4 absolute. */
  function Unit(shown: Shown): nat
  {
    match shown
    case JustNow => 0
    case MinutesAgo(_) => 1
    case HoursAgo(_) => 2
    case DaysAgo(_) => 3
    case OnDate(_) => 4
  }
}
