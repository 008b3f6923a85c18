/**
 * The search query main builds: fixed filter keywords and `after:` with the
 * run's time boundary in whole epoch seconds (main.py, main). The seconds are
 * an input; the wall clock and the rounding of the timestamp are not modelled.
 */
module Query {
  import opened Wrappers
  import opened Text

  const Unread: string := "is:unread"
  const Starred: string := "is:starred"
  const Inbox: string := "in:inbox"
  const After: string := "after:"

  /** `f"is:unread is:starred " + f"in:inbox after:"`, everything before the seconds. */
  const Filters: string := Unread + " " + Starred + " " + Inbox + " " + After

  function DigitChar(d: nat): char
    requires d < 10
  {
    ('0' as int + d) as char
  }

  /** Python's `str(n)` for `n >= 0`: decimal, no leading zeros. */
  function NatToString(n: nat): (s: string)
    decreases n
  {
    if n < 10 then [DigitChar(n)] else NatToString(n / 10) + [DigitChar(n % 10)]
  }

  /** Python's `str(n)` on an int: a minus sign before negative values. */
  function IntToString(n: int): string {
    if n < 0 then "-" + NatToString(-n) else NatToString(n)
  }

  /** The `gmail_query` string main passes to fetch_emails. */
  function GmailQuery(afterSeconds: int): string {
    Filters + IntToString(afterSeconds)
  }

  predicate IsDigit(c: char) {
    '0' <= c <= '9'
  }

  predicate AllDigits(s: string) {
    forall i :: 0 <= i < |s| ==> IsDigit(s[i])
  }

  /** The value of a string of decimal digits, most significant first. */
  function DigitsValue(s: string): nat
    requires AllDigits(s)
    decreases |s|
  {
    if s == [] then 0
    else DigitsValue(s[..|s| - 1]) * 10 + (s[|s| - 1] as int - '0' as int)
  }

  /** Reads an optionally negative decimal integer: the inverse of `IntToString`. */
  function ParseInt(s: string): Option<int> {
    if |s| > 1 && s[0] == '-' && AllDigits(s[1..]) then Some(0 - DigitsValue(s[1..]) as int)
    else if |s| > 0 && AllDigits(s) then Some(DigitsValue(s))
    else None
  }

  /** `str(n)` is a nonempty digit string whose value is `n`. */
  lemma {:induction false} NatToStringValue(n: nat)
    ensures |NatToString(n)| > 0 && AllDigits(NatToString(n))
    ensures DigitsValue(NatToString(n)) == n
    decreases n
  {
    if n >= 10 {
      NatToStringValue(n / 10);
      var s := NatToString(n);
      var front := NatToString(n / 10);
      assert s[..|s| - 1] == front;
    }
  }

  /** Reading back `str(n)` gives `n`. */
  lemma IntRoundTrip(n: int)
    ensures ParseInt(IntToString(n)) == Some(n)
  {
    if n < 0 {
      NatToStringValue(-n);
      assert IntToString(n)[1..] == NatToString(-n);
    } else {
      NatToStringValue(n);
    }
  }

  /** The query is the filter keywords followed by `after:` and the seconds, which read back exactly. */
  lemma QueryEncodesTime(afterSeconds: int)
    ensures |GmailQuery(afterSeconds)| > |Filters|
    ensures GmailQuery(afterSeconds)[..|Filters|] == Filters
    ensures ParseInt(GmailQuery(afterSeconds)[|Filters|..]) == Some(afterSeconds)
  {
    var q := GmailQuery(afterSeconds);
    assert q[|Filters|..] == IntToString(afterSeconds);
    IntRoundTrip(afterSeconds);
  }

  /** Different time boundaries give different queries. */
  lemma QueryInjective(a: int, b: int)
    requires GmailQuery(a) == GmailQuery(b)
    ensures a == b
  {
    QueryEncodesTime(a);
    QueryEncodesTime(b);
  }

  /** The query asks for unread, starred inbox mail after the boundary. */
  lemma QueryFilters(afterSeconds: int)
    ensures Contains(GmailQuery(afterSeconds), Unread)
    ensures Contains(GmailQuery(afterSeconds), Starred)
    ensures Contains(GmailQuery(afterSeconds), Inbox)
    ensures Contains(GmailQuery(afterSeconds), After)
  {
    FiltersKeywords(IntToString(afterSeconds));
  }

  /** Whatever follows the filters, each keyword occurs in the result. */
  lemma FiltersKeywords(rest: string)
    ensures OccursAt(Filters + rest, Unread, 0)
    ensures OccursAt(Filters + rest, Starred, 10)
    ensures OccursAt(Filters + rest, Inbox, 21)
    ensures OccursAt(Filters + rest, After, 30)
  {
    var q := Filters + rest;
    assert q[0..9] == Unread;
    assert q[10..20] == Starred;
    assert q[21..29] == Inbox;
    assert q[30..36] == After;
  }
}
