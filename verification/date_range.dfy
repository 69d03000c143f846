/** `syncDateRange`: the date text filled in from the start and end date pickers. The
    pickers hold `YYYY-MM-DD` strings, or the empty string when unset; the program compares
    them as strings and writes them with dots. */
module DateRange {
  import opened Numeric

  /** JavaScript's `<=` on strings: code units compared from the left, a prefix first. */
  predicate LexLe(a: string, b: string)
  {
    if a == [] then true
    else if b == [] then false
    else if a[0] != b[0] then a[0] < b[0]
    else LexLe(a[1..], b[1..])
  }

  /** `str.slice(from, to)`, which clamps both ends to the string. */
  function Slice(s: string, from: nat, to: nat): (r: string)
    ensures |r| <= |s|
  {
    var a := if from <= |s| then from else |s|;
    var b := if to <= |s| then to else |s|;
    if a <= b then s[a..b] else []
  }

  /** `d.replace(/-/g, '.')`. */
  function Dotted(d: string): (r: string)
    ensures |r| == |d|
    ensures forall i | 0 <= i < |d| :: r[i] == (if d[i] == '-' then '.' else d[i])
  {
    if d == [] then [] else [if d[0] == '-' then '.' else d[0]] + Dotted(d[1..])
  }

  /** The text written into the date field, or `None` when the start is unset and the field
      is left alone. An end that is unset or not after the start gives the start alone; an
      end in the same year is written without its year. */
  function SyncDateRange(s: string, e: string): (r: Option<string>)
    ensures r == None <==> s == []
    ensures r.Some? ==> |r.value| >= |s| && r.value[..|s|] == Dotted(s)
    ensures r.Some? && (e == [] || LexLe(e, s)) ==> r.value == Dotted(s)
  {
    if s == [] then None
    else
      var startStr := Dotted(s);
      if e == [] || LexLe(e, s) then Some(startStr)
      else
        var endStr := if Slice(s, 0, 4) == Slice(e, 0, 4) then Slice(Dotted(e), 5, |Dotted(e)|) else Dotted(e);
        assert (startStr + " - " + endStr)[..|s|] == startStr;
        Some(startStr + " - " + endStr)
  }

  function Pow10(k: nat): (p: nat)
    ensures p >= 1
  {
    if k == 0 then 1 else 10 * Pow10(k - 1)
  }

  /** `n` written with exactly `k` decimal digits, zero-padded on the left. */
  function Digits(n: nat, k: nat): (r: string)
    ensures |r| == k
    ensures forall i | 0 <= i < k :: '0' <= r[i] <= '9'
  {
    if k == 0 then [] else Digits(n / 10, k - 1) + [DigitOf(n % 10)]
  }

  /** Comparing two equally long strings followed by anything: the first difference decides,
      and only equal heads pass the comparison on to the tails. */
  lemma {:induction false} LexConcat(p1: string, q1: string, p2: string, q2: string)
    requires |p1| == |p2|
    ensures LexLe(p1 + q1, p2 + q2) == if p1 == p2 then LexLe(q1, q2) else LexLe(p1, p2)
  {
    if p1 != [] {
      assert (p1 + q1)[0] == p1[0] && (p2 + q2)[0] == p2[0];
      assert (p1 + q1)[1..] == p1[1..] + q1 && (p2 + q2)[1..] == p2[1..] + q2;
      LexConcat(p1[1..], q1, p2[1..], q2);
      if p1[0] == p2[0] && p1[1..] == p2[1..] {
        assert p1 == [p1[0]] + p1[1..] && p2 == [p2[0]] + p2[1..];
      }
      if p1[0] == p2[0] && p1[1..] != p2[1..] {
        assert p1 != p2 by { assert p1[1..] != p2[1..]; }
      }
    } else {
      assert p1 + q1 == q1 && p2 + q2 == q2;
    }
  }

  /** Zero-padded numbers of the same width compare as strings as they do as numbers. */
  lemma {:induction false} DigitsOrder(n: nat, m: nat, k: nat)
    requires n < Pow10(k) && m < Pow10(k)
    ensures LexLe(Digits(n, k), Digits(m, k)) <==> n <= m
    ensures Digits(n, k) == Digits(m, k) <==> n == m
  {
    if k > 0 {
      DecimalSplit(n, m, Pow10(k - 1));
      DigitsOrder(n / 10, m / 10, k - 1);
      var hn, hm := Digits(n / 10, k - 1), Digits(m / 10, k - 1);
      var cn, cm := DigitOf(n % 10), DigitOf(m % 10);
      LexConcat(hn, [cn], hm, [cm]);
      assert Digits(n, k) == hn + [cn] && Digits(m, k) == hm + [cm];
      if Digits(n, k) == Digits(m, k) {
        assert Digits(n, k)[..k - 1] == hn && Digits(m, k)[..k - 1] == hm;
        assert Digits(n, k)[k - 1] == cn && Digits(m, k)[k - 1] == cm;
      }
    } else {
      assert n == 0 && m == 0;
    }
  }

  /** The character of a decimal digit; characters of digits compare as the digits do. */
  function DigitOf(v: int): (c: char)
    requires 0 <= v < 10
    ensures c as int - '0' as int == v
  {
    "0123456789"[v]
  }

  /** Numbers compare by their leading digits first and their last digit next, and both
      leading parts fit one digit fewer. */
  lemma DecimalSplit(n: nat, m: nat, p: nat)
    requires n < 10 * p && m < 10 * p
    ensures n / 10 < p && m / 10 < p
    ensures n <= m <==> n / 10 < m / 10 || (n / 10 == m / 10 && n % 10 <= m % 10)
    ensures n == m <==> n / 10 == m / 10 && n % 10 == m % 10
  {
  }

  /** A calendar date as the picker holds it; any year the four-digit form can show. */
  datatype Date = Date(y: nat, m: nat, d: nat)

  predicate ValidDate(a: Date)
  {
    a.y <= 9999 && 1 <= a.m <= 12 && 1 <= a.d <= 31
  }

  /** `a` is the same day as `b` or earlier. */
  predicate NotAfter(a: Date, b: Date)
  {
    a.y < b.y || (a.y == b.y && (a.m < b.m || (a.m == b.m && a.d <= b.d)))
  }

  /** The picker's value for a date. */
  function PickerValue(a: Date): string
  {
    Digits(a.y, 4) + ("-" + (Digits(a.m, 2) + ("-" + Digits(a.d, 2))))
  }

  /** The dotted text for a date. */
  function DottedDate(a: Date): string
  {
    Digits(a.y, 4) + "." + Digits(a.m, 2) + "." + Digits(a.d, 2)
  }

  /** The month and day part of the dotted text. */
  function DottedMonthDay(a: Date): string
  {
    Digits(a.m, 2) + "." + Digits(a.d, 2)
  }

  /** Comparing picker values as strings is comparing the dates on the calendar. */
  lemma PickerOrder(a: Date, b: Date)
    requires ValidDate(a) && ValidDate(b)
    ensures LexLe(PickerValue(a), PickerValue(b)) <==> NotAfter(a, b)
  {
    assert Pow10(2) == 100 && Pow10(4) == 10000;
    DigitsOrder(a.y, b.y, 4);
    DigitsOrder(a.m, b.m, 2);
    DigitsOrder(a.d, b.d, 2);
    var ra := "-" + (Digits(a.m, 2) + ("-" + Digits(a.d, 2)));
    var rb := "-" + (Digits(b.m, 2) + ("-" + Digits(b.d, 2)));
    LexConcat(Digits(a.y, 4), ra, Digits(b.y, 4), rb);
    LexConcat("-", Digits(a.m, 2) + ("-" + Digits(a.d, 2)), "-", Digits(b.m, 2) + ("-" + Digits(b.d, 2)));
    LexConcat(Digits(a.m, 2), "-" + Digits(a.d, 2), Digits(b.m, 2), "-" + Digits(b.d, 2));
    LexConcat("-", Digits(a.d, 2), "-", Digits(b.d, 2));
  }

  lemma DottedPicker(a: Date)
    ensures |PickerValue(a)| == 10
    ensures Dotted(PickerValue(a)) == DottedDate(a)
    ensures PickerValue(a)[..4] == Digits(a.y, 4)
    ensures Dotted(PickerValue(a))[5..] == DottedMonthDay(a)
  {
    var y, m, d := Digits(a.y, 4), Digits(a.m, 2), Digits(a.d, 2);
    DottedDigits(y);
    DottedDigits(m);
    DottedDigits(d);
    DottedConcat("-", d);
    DottedConcat(m, "-" + d);
    DottedConcat("-", m + ("-" + d));
    DottedConcat(y, "-" + (m + ("-" + d)));
    assert Dotted("-") == ".";
    assert Dotted(PickerValue(a)) == y + ("." + (m + ("." + d)));
    assert DottedDate(a) == y + ("." + (m + ("." + d)));
  }

  /** Dotting works character by character. */
  lemma DottedConcat(p: string, q: string)
    ensures Dotted(p + q) == Dotted(p) + Dotted(q)
  {
    var l, r := Dotted(p + q), Dotted(p) + Dotted(q);
    forall i | 0 <= i < |l| ensures l[i] == r[i] {
      if i < |p| {
        assert (p + q)[i] == p[i];
      } else {
        assert (p + q)[i] == q[i - |p|];
      }
    }
  }

  /** Digits contain no dash and are left as they are. */
  lemma DottedDigits(s: string)
    requires forall i | 0 <= i < |s| :: '0' <= s[i] <= '9'
    ensures Dotted(s) == s
  {
  }

  /** The date text for two picked dates: the start alone when the end is not later, the
      end without its year when both fall in the same year, both in full otherwise. */
  lemma SyncDates(a: Date, b: Date)
    requires ValidDate(a) && ValidDate(b)
    ensures SyncDateRange(PickerValue(a), PickerValue(b)) == Some(
      if NotAfter(b, a) then DottedDate(a)
      else if a.y == b.y then DottedDate(a) + " - " + DottedMonthDay(b)
      else DottedDate(a) + " - " + DottedDate(b))
  {
    PickerOrder(b, a);
    DottedPicker(a);
    DottedPicker(b);
    assert Pow10(4) == 10000;
    DigitsOrder(a.y, b.y, 4);
    var s, e := PickerValue(a), PickerValue(b);
    assert s != [] && e != [];
    assert Slice(s, 0, 4) == Digits(a.y, 4);
    assert Slice(e, 0, 4) == Digits(b.y, 4);
    assert Slice(Dotted(e), 5, |Dotted(e)|) == DottedMonthDay(b);
  }
}
