/**
 The textual date of a schedule record, `day + '/' + month + '/' + year`
 with JavaScript's number-to-string conversion (decimal, no padding, a
 leading minus for a negative number), and a reference parser that reads
 such a text back.
 */
module DateText {
  import opened Civil
  import opened Wrappers

  predicate IsDigit(c: char) {
    '0' <= c <= '9'
  }

  function DigitChar(v: int): (c: char)
    requires 0 <= v < 10
    ensures IsDigit(c) && c as int - '0' as int == v
  {
    "0123456789"[v]
  }

  /** Decimal text of a natural number, most significant digit first. */
  function NatText(n: nat): (s: string)
    ensures |s| >= 1
    ensures forall k :: 0 <= k < |s| ==> IsDigit(s[k])
  {
    if n < 10 then [DigitChar(n)] else NatText(n / 10) + [DigitChar(n % 10)]
  }

  /** What `String(i)` gives for an integer. */
  function IntText(i: int): string {
    if i < 0 then "-" + NatText(-i) else NatText(i)
  }

  /** The `date` field of a record in a doctor's schedule. */
  function Text(d: Date): string {
    IntText(d.day) + "/" + IntText(d.month) + "/" + IntText(d.year)
  }

  /** Reads a non-empty string of decimal digits. */
  function ParseNat(s: string): (r: Option<nat>)
    ensures r.Some? ==> |s| >= 1 && forall k :: 0 <= k < |s| ==> IsDigit(s[k])
  {
    if |s| == 0 || !IsDigit(s[|s| - 1]) then None
    else
      var v := s[|s| - 1] as int - '0' as int;
      if |s| == 1 then Some(v)
      else match ParseNat(s[..|s| - 1])
        case None => None
        case Some(p) => Some(10 * p + v)
  }

  /** Reads an optionally negative decimal numeral. */
  function ParseInt(s: string): Option<int> {
    if |s| >= 1 && s[0] == '-' then
      match ParseNat(s[1..])
      case None => None
      case Some(v) => Some(-(v as int))
    else
      match ParseNat(s)
      case None => None
      case Some(v) => Some(v as int)
  }

  /** The pieces of `s` between occurrences of `sep`, as `String.split` cuts them. */
  function Split(s: string, sep: char): (parts: seq<string>)
    ensures |parts| >= 1
  {
    if |s| == 0 then [""]
    else if s[0] == sep then [""] + Split(s[1..], sep)
    else
      var rest := Split(s[1..], sep);
      [[s[0]] + rest[0]] + rest[1..]
  }

  /** Reads a text of the form day/month/year back into a date. */
  function ParseText(s: string): Option<Date> {
    var parts := Split(s, '/');
    if |parts| != 3 then None
    else match (ParseInt(parts[0]), ParseInt(parts[1]), ParseInt(parts[2]))
      case (Some(d), Some(m), Some(y)) => Some(Date(y, m, d))
      case _ => None
  }

  lemma {:induction false} ParseNatText(n: nat)
    ensures ParseNat(NatText(n)) == Some(n)
  {
    if n >= 10 {
      var s := NatText(n);
      assert s[..|s| - 1] == NatText(n / 10);
      ParseNatText(n / 10);
    }
  }

  lemma ParseIntText(i: int)
    ensures ParseInt(IntText(i)) == Some(i)
  {
    var n: nat := if i < 0 then -i else i;
    ParseNatText(n);
    assert IsDigit(NatText(n)[0]);
    ParseSigned(NatText(n), n);
  }

  /** A sign-free numeral reads as its value, and with a leading minus as its negation. */
  lemma ParseSigned(u: string, v: nat)
    requires ParseNat(u) == Some(v)
    requires |u| >= 1 && u[0] != '-'
    ensures ParseInt(u) == Some(v)
    ensures ParseInt("-" + u) == Some(-(v as int))
  {
    var t := "-" + u;
    assert |t| >= 1 && t[0] == '-';
    assert t[1..] == u;
  }

  lemma {:induction false} SplitNoSep(a: string, sep: char)
    requires forall k :: 0 <= k < |a| ==> a[k] != sep
    ensures Split(a, sep) == [a]
  {
    if |a| > 0 {
      SplitNoSep(a[1..], sep);
      assert [a[0]] + a[1..] == a;
    }
  }

  lemma {:induction false} SplitAtSep(a: string, sep: char, b: string)
    requires forall k :: 0 <= k < |a| ==> a[k] != sep
    ensures Split(a + [sep] + b, sep) == [a] + Split(b, sep)
  {
    var s := a + [sep] + b;
    if |a| == 0 {
      assert s[1..] == b;
    } else {
      assert s[1..] == a[1..] + [sep] + b;
      SplitAtSep(a[1..], sep, b);
      assert [a[0]] + a[1..] == a;
    }
  }

  lemma IntTextHasNoSlash(i: int)
    ensures forall k :: 0 <= k < |IntText(i)| ==> IntText(i)[k] != '/'
  {
    if i < 0 {
      var t := NatText(-i);
      assert forall k :: 1 <= k < |IntText(i)| ==> IntText(i)[k] == t[k - 1];
    }
  }

  /** The record text names its date unambiguously: reading it back gives the date. */
  lemma TextRoundTrip(d: Date)
    ensures ParseText(Text(d)) == Some(d)
  {
    var dt, mt, yt := IntText(d.day), IntText(d.month), IntText(d.year);
    IntTextHasNoSlash(d.day);
    IntTextHasNoSlash(d.month);
    IntTextHasNoSlash(d.year);
    assert Text(d) == dt + ['/'] + (mt + ['/'] + yt);
    SplitAtSep(dt, '/', mt + ['/'] + yt);
    SplitAtSep(mt, '/', yt);
    SplitNoSep(yt, '/');
    assert Split(Text(d), '/') == [dt, mt, yt];
    ParseIntText(d.day);
    ParseIntText(d.month);
    ParseIntText(d.year);
  }

  /** Numbers are written without zero padding: a positive number's text does not start with '0'. */
  lemma {:induction false} NatTextUnpadded(n: nat)
    requires n > 0
    ensures NatText(n)[0] != '0'
  {
    if n >= 10 {
      NatTextUnpadded(n / 10);
    }
  }

  lemma NatTextExamples()
    ensures NatText(2026) == "2026" && NatText(2027) == "2027"
  {
    assert NatText(20) == "20";
    assert NatText(202) == "202";
  }

  /** Concrete record texts: day first, no zero padding. */
  lemma TextExamples()
    ensures Text(Date(2026, 3, 5)) == "5/3/2026"
    ensures Text(Date(2027, 12, 31)) == "31/12/2027"
  {
    NatTextExamples();
  }
}
