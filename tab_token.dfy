/**
 * The tab token: a tab's identity is its position, written as the string
 * `tab-${i}` (tabs.tsx:152, 155) and read back with `Number(id.split('-')[1])`
 * (tabs.tsx:114, 126).
 */
module TabToken {
  import opened Wrappers

  const Separator: char := '-'
  const Prefix: string := "tab-"

  predicate IsDigit(c: char) {
    '0' <= c <= '9'
  }

  predicate AllDigits(s: string) {
    forall k :: 0 <= k < |s| ==> IsDigit(s[k])
  }

  function DigitChar(d: nat): (c: char)
    requires d < 10
    ensures IsDigit(c) && c as int - '0' as int == d
  {
    ('0' as int + d) as char
  }

  function DigitValue(c: char): (d: nat)
    requires IsDigit(c)
    ensures d < 10 && DigitChar(d) == c
  {
    c as int - '0' as int
  }

  /** The decimal text JavaScript produces for a non-negative integer, as in `${i}`. */
  function Decimal(n: nat): (r: string)
    ensures |r| >= 1 && AllDigits(r)
    ensures r[0] == '0' <==> n == 0
    ensures n == 0 ==> r == "0"
  {
    if n < 10 then [DigitChar(n)] else Decimal(n / 10) + [DigitChar(n % 10)]
  }

  /** The value of a string of decimal digits, most significant first; the empty string is 0. */
  function DigitsValue(s: string): nat
    requires AllDigits(s)
  {
    if |s| == 0 then 0 else DigitsValue(s[..|s| - 1]) * 10 + DigitValue(s[|s| - 1])
  }

  /**
   * `Number(s)` where the result is used as an array index. `Number("")` is 0 and
   * a string of decimal digits (leading zeros allowed) is its value; every other
   * string this model knows of gives NaN or a non-index value, written here as None.
   */
  function ToIndex(s: string): (r: Option<nat>)
    ensures r.Some? <==> AllDigits(s)
    ensures s == "" ==> r == Some(0)
  {
    if AllDigits(s) then Some(DigitsValue(s)) else None
  }

  /** Glues parts back together with the separator between them (the inverse of Split). */
  function Join(parts: seq<string>, sep: char): string
    requires |parts| >= 1
  {
    if |parts| == 1 then parts[0] else parts[0] + [sep] + Join(parts[1..], sep)
  }

  /**
   * `s.split(sep)` for a one-character separator: the pieces of `s` between
   * separators, in order (see SplitJoin).
   */
  function Split(s: string, sep: char): (parts: seq<string>)
    ensures |parts| >= 1
  {
    if |s| == 0 then [""]
    else
      var rest := Split(s[1..], sep);
      if s[0] == sep then [""] + rest else [[s[0]] + rest[0]] + rest[1..]
  }

  /** The parts of a split are free of the separator and re-joined give the string back. */
  lemma {:induction false} SplitJoin(s: string, sep: char)
    ensures Join(Split(s, sep), sep) == s
    ensures forall k :: 0 <= k < |Split(s, sep)| ==> sep !in Split(s, sep)[k]
  {
    if |s| > 0 {
      SplitJoin(s[1..], sep);
      var rest := Split(s[1..], sep);
      assert s == [s[0]] + s[1..];
      if s[0] != sep {
        var parts := [[s[0]] + rest[0]] + rest[1..];
        assert parts[1..] == rest[1..];
        assert |rest| > 1 ==> Join(rest, sep) == rest[0] + [sep] + Join(rest[1..], sep);
      }
    }
  }

  /** The token the tab strip gives to the tab at index i (tabs.tsx:152, 155). */
  function Token(i: nat): string {
    Prefix + Decimal(i)
  }

  /**
   * The index an active token stands for: the second `-`-separated field, through
   * `Number`. A token with no `-` has no second field (`undefined`, so NaN).
   */
  function DecodeIndex(id: string): (r: Option<nat>)
    ensures r.Some? ==> Separator in id
  {
    var parts := Split(id, Separator);
    if |parts| < 2 then None
    else
      SplitOfSepFree(id, Separator);
      ToIndex(parts[1])
  }

  /** A string without the separator does not split. */
  lemma {:induction false} SplitSepFree(s: string, sep: char)
    requires sep !in s
    ensures Split(s, sep) == [s]
  {
    if |s| > 0 {
      SplitSepFree(s[1..], sep);
      assert s == [s[0]] + s[1..];
    }
  }

  /** If a string splits into two or more parts it contains the separator. */
  lemma SplitOfSepFree(s: string, sep: char)
    requires |Split(s, sep)| >= 2
    ensures sep in s
  {
    if sep !in s {
      SplitSepFree(s, sep);
    }
  }

  /** Splitting at the first separator peels off the separator-free head. */
  lemma {:induction false} SplitAtFirst(a: string, b: string, sep: char)
    requires sep !in a
    ensures Split(a + [sep] + b, sep) == [a] + Split(b, sep)
  {
    var s := a + [sep] + b;
    if |a| == 0 {
      assert s == [sep] + b && s[1..] == b;
    } else {
      assert s[0] == a[0] && s[0] != sep;
      assert s[1..] == a[1..] + [sep] + b;
      SplitAtFirst(a[1..], b, sep);
      var rest := Split(s[1..], sep);
      assert rest[0] == a[1..] && rest[1..] == Split(b, sep);
      assert Split(s, sep) == [[s[0]] + rest[0]] + rest[1..];
      assert [a[0]] + a[1..] == a;
    }
  }

  /** Every integer's decimal text is read back by `Number` as that integer. */
  lemma {:induction false} DecimalValue(n: nat)
    ensures DigitsValue(Decimal(n)) == n
  {
    if n >= 10 {
      DecimalValue(n / 10);
      var s := Decimal(n);
      assert s[..|s| - 1] == Decimal(n / 10);
    }
  }

  /** Round trip: the token built for index i decodes back to i. */
  lemma TokenRoundTrip(i: nat)
    ensures DecodeIndex(Token(i)) == Some(i)
  {
    var digits := Decimal(i);
    assert Separator !in digits by {
      forall k | 0 <= k < |digits| ensures digits[k] != Separator {
        assert IsDigit(digits[k]);
      }
    }
    assert Token(i) == "tab" + [Separator] + digits;
    DecodeSecondField("tab", digits);
    DecimalValue(i);
  }

  /** Distinct positions get distinct tokens, and equal tokens mean equal positions. */
  lemma TokenInjective(i: nat, j: nat)
    ensures Token(i) == Token(j) <==> i == j
  {
    if Token(i) == Token(j) {
      TokenRoundTrip(i);
      TokenRoundTrip(j);
    }
  }

  /** An empty second field reads as 0, since `Number("")` is 0. */
  lemma DecodeEmptyField()
    ensures DecodeIndex("tab-") == Some(0)
  {
    SplitAtFirst("tab", "", Separator);
    assert "tab-" == "tab" + [Separator] + "";
  }

  /** Leading zeros are dropped, so two different tokens can name one position. */
  lemma DecodeLeadingZero()
    ensures DecodeIndex("tab-07") == Some(7)
    ensures Token(7) != "tab-07"
  {
    SplitAtFirst("tab", "07", Separator);
    SplitSepFree("07", Separator);
    assert "tab-07" == "tab" + [Separator] + "07";
    assert "07"[..1] == "0" && "0"[..0] == "";
    assert AllDigits("07") && DigitsValue("0") == 0;
    assert DigitsValue("07") == 7;
    assert Decimal(7) == "7";
  }

  /** Only the second field counts: the first field is ignored. */
  lemma DecodeSecondField(first: string, second: string)
    requires Separator !in first && Separator !in second
    ensures DecodeIndex(first + [Separator] + second) == ToIndex(second)
  {
    SplitAtFirst(first, second, Separator);
    SplitSepFree(second, Separator);
    assert Split(first + [Separator] + second, Separator) == [first, second];
  }

  /** Fields after the second are ignored too. */
  lemma DecodeIgnoresLaterFields(first: string, second: string, rest: string)
    requires Separator !in first && Separator !in second
    ensures DecodeIndex(first + [Separator] + second + [Separator] + rest) == ToIndex(second)
  {
    var tail := second + [Separator] + rest;
    SplitAtFirst(second, rest, Separator);
    SplitAtFirst(first, tail, Separator);
    var parts := Split(first + [Separator] + tail, Separator);
    assert parts == [first] + ([second] + Split(rest, Separator));
    assert |parts| >= 2 && parts[1] == second;
    assert first + [Separator] + second + [Separator] + rest == first + [Separator] + tail;
  }

  /** No separator means no second field, so `Number(undefined)` is NaN: no index. */
  lemma NoSeparatorNoIndex(id: string)
    requires Separator !in id
    ensures DecodeIndex(id) == None
  {
    SplitSepFree(id, Separator);
  }

  /** A second field that is not all digits is NaN: no index. */
  lemma NonDigitFieldNoIndex(first: string, second: string)
    requires Separator !in first && Separator !in second && !AllDigits(second)
    ensures DecodeIndex(first + [Separator] + second) == None
  {
    DecodeSecondField(first, second);
  }
}
