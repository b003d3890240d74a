/** The two formatting steps of a statistics row: Python's `str.capitalize()`
    for the split name and the `,` format specifier (decimal digits with a comma
    between thousands) for the counts. Case mapping is modelled for ASCII
    letters only. */
module Format {

  function Upper(c: char): char
  {
    if 'a' <= c <= 'z' then (c as int - 32) as char else c
  }

  function Lower(c: char): char
  {
    if 'A' <= c <= 'Z' then (c as int + 32) as char else c
  }

  function LowerAll(s: string): (r: string)
    ensures |r| == |s|
    ensures forall i :: 0 <= i < |s| ==> r[i] == Lower(s[i])
    decreases |s|
  {
    if s == [] then [] else [Lower(s[0])] + LowerAll(s[1..])
  }

  /** Python's `s.capitalize()`: the first character upper-cased, every other
      character lower-cased. */
  function Capitalize(s: string): string
  {
    if s == [] then [] else [Upper(s[0])] + LowerAll(s[1..])
  }

  /** Capitalize keeps the length, upper-cases the first character and
      lower-cases all the others. */
  lemma CapitalizeChars(s: string)
    ensures |Capitalize(s)| == |s|
    ensures |s| > 0 ==> Capitalize(s)[0] == Upper(s[0])
    ensures forall i :: 0 < i < |s| ==> Capitalize(s)[i] == Lower(s[i])
  {
    if s != [] {
      var rest := LowerAll(s[1..]);
      assert Capitalize(s) == [Upper(s[0])] + rest;
      forall i | 0 < i < |s| ensures Capitalize(s)[i] == Lower(s[i]) {
        assert Capitalize(s)[i] == rest[i - 1] && s[1..][i - 1] == s[i];
      }
    }
  }

  lemma UpperLower(c: char)
    ensures Upper(Upper(c)) == Upper(c) && Lower(Lower(c)) == Lower(c)
    ensures Upper(Lower(c)) == Upper(c)
  {
  }

  /** Capitalizing twice is the same as capitalizing once, and the case of
      the input does not matter. */
  lemma CapitalizeIdempotent(s: string)
    ensures Capitalize(Capitalize(s)) == Capitalize(s)
    ensures Capitalize(LowerAll(s)) == Capitalize(s)
  {
    CapitalizeChars(s);
    CapitalizeChars(Capitalize(s));
    CapitalizeChars(LowerAll(s));
    forall i | 0 <= i < |s| { UpperLower(s[i]); }
  }

  function DigitChar(d: nat): char
    requires d < 10
  {
    ('0' as int + d) as char
  }

  predicate IsDigit(c: char) { '0' <= c <= '9' }

  /** Python's `str(n)` for a natural number: its decimal digits. */
  function Digits(n: nat): (r: string)
    decreases n
  {
    if n < 10 then [DigitChar(n)] else Digits(n / 10) + [DigitChar(n % 10)]
  }

  /** Python's `str(n)` for any integer. */
  function Decimal(n: int): string
  {
    if n < 0 then "-" + Digits(-n) else Digits(n)
  }

  /** The value a string of decimal digits denotes. */
  function ValueOf(s: string): int
    decreases |s|
  {
    if s == [] then 0 else 10 * ValueOf(s[..|s| - 1]) + (s[|s| - 1] as int - '0' as int)
  }

  /** Digits gives only digits, with no leading zero, and denotes its input. */
  lemma {:induction false} DigitsCorrect(n: nat)
    ensures |Digits(n)| >= 1
    ensures forall i :: 0 <= i < |Digits(n)| ==> IsDigit(Digits(n)[i])
    ensures Digits(n)[0] == '0' ==> n == 0
    ensures ValueOf(Digits(n)) == n
    decreases n
  {
    if n >= 10 {
      DigitsCorrect(n / 10);
      var s := Digits(n);
      assert s[..|s| - 1] == Digits(n / 10);
    }
  }

  /** The three digits of a group below a thousand, zero-padded. */
  function Pad3(k: nat): string
    requires k < 1000
  {
    [DigitChar(k / 100), DigitChar(k / 10 % 10), DigitChar(k % 10)]
  }

  function GroupedNat(n: nat): string
    decreases n
  {
    if n < 1000 then Digits(n) else GroupedNat(n / 1000) + "," + Pad3(n % 1000)
  }

  /** Python's `f"{n:,}"` for an integer. */
  function Grouped(n: int): string
  {
    if n < 0 then "-" + GroupedNat(-n) else GroupedNat(n)
  }

  function RemoveCommas(s: string): string
    decreases |s|
  {
    if s == [] then [] else (if s[0] == ',' then [] else [s[0]]) + RemoveCommas(s[1..])
  }

  lemma {:induction false} RemoveCommasAppend(a: string, b: string)
    ensures RemoveCommas(a + b) == RemoveCommas(a) + RemoveCommas(b)
    decreases |a|
  {
    if a != [] {
      assert (a + b)[1..] == a[1..] + b;
      RemoveCommasAppend(a[1..], b);
    } else {
      assert a + b == b;
    }
  }

  lemma {:induction false} RemoveCommasDigits(s: string)
    requires forall i :: 0 <= i < |s| ==> IsDigit(s[i])
    ensures RemoveCommas(s) == s
    decreases |s|
  {
    if s != [] { RemoveCommasDigits(s[1..]); }
  }

  lemma DigitsShort(n: nat)
    requires n < 1000
    ensures |Digits(n)| <= 3
  {
    if n >= 10 {
      assert Digits(n) == Digits(n / 10) + [DigitChar(n % 10)];
      if n / 10 >= 10 {
        assert Digits(n / 10) == Digits(n / 100) + [DigitChar(n / 10 % 10)];
        assert n / 10 / 10 < 10;
      }
    }
  }

  /** For n of four digits or more, taking off the last three digits. */
  lemma DigitsThousands(n: nat)
    requires n >= 1000
    ensures Digits(n) == Digits(n / 1000) + Pad3(n % 1000)
  {
    var q, r := n / 1000, n % 1000;
    assert n == 1000 * q + r;
    assert n / 10 == 100 * q + r / 10;
    assert n / 100 == 10 * q + r / 100;
    assert (n / 10) / 10 == n / 100;
    assert (n / 100) / 10 == q;
    assert n % 10 == r % 10;
    assert (n / 10) % 10 == r / 10 % 10;
    assert (n / 100) % 10 == r / 100;
    assert Digits(n / 10) == Digits(n / 100) + [DigitChar(r / 10 % 10)];
    assert Digits(n / 100) == Digits(q) + [DigitChar(r / 100)];
  }

  /** Deleting the commas of the comma-grouped form gives back the decimal form. */
  lemma {:induction false} GroupedDropCommas(n: int)
    ensures RemoveCommas(Grouped(n)) == Decimal(n)
  {
    if n < 0 {
      GroupedNatDropCommas(-n);
      RemoveCommasAppend("-", GroupedNat(-n));
    } else {
      GroupedNatDropCommas(n);
    }
  }

  lemma {:induction false} GroupedNatDropCommas(n: nat)
    ensures RemoveCommas(GroupedNat(n)) == Digits(n)
    decreases n
  {
    if n < 1000 {
      DigitsCorrect(n);
      RemoveCommasDigits(Digits(n));
    } else {
      GroupedNatDropCommas(n / 1000);
      RemoveCommasAppend(GroupedNat(n / 1000) + ",", Pad3(n % 1000));
      RemoveCommasAppend(GroupedNat(n / 1000), ",");
      RemoveCommasDigits(Pad3(n % 1000));
      DigitsThousands(n);
    }
  }

  /** Counting from the end, every fourth character is a comma and no other
      one is. */
  predicate CommaSpaced(g: string)
  {
    forall i :: 0 <= i < |g| ==> (g[i] == ',' <==> (|g| - i) % 4 == 0)
  }

  lemma CommaSpacedShort(s: string)
    requires |s| <= 3 && ',' !in s
    ensures CommaSpaced(s)
  {
    forall i | 0 <= i < |s| ensures s[i] != ',' && (|s| - i) % 4 != 0 {
      assert s[i] in s;
      assert 1 <= |s| - i <= 3;
    }
  }

  /** A comma and a group of three characters other than commas, appended
      to comma-spaced text, keep it comma-spaced. */
  lemma CommaSpacedGroup(p: string, d: string)
    requires CommaSpaced(p)
    requires |d| == 3 && ',' !in d
    ensures CommaSpaced(p + [','] + d)
  {
    var g := p + [','] + d;
    forall i | 0 <= i < |g| ensures g[i] == ',' <==> (|g| - i) % 4 == 0 {
      if i < |p| {
        assert g[i] == p[i];
        var k := |p| - i;
        assert |g| - i == k + 4;
        assert (k + 4) % 4 == k % 4;
      } else if i == |p| {
        assert g[i] == ',' && |g| - i == 4;
      } else {
        assert g[i] == d[i - |p| - 1];
        assert g[i] in d;
        assert 1 <= |g| - i <= 3;
      }
    }
  }

  /** In the comma-grouped form of a natural number, counting from the end, every
      fourth character is a comma and no other one is: the digits fall in
      groups of three, with one to three digits leading. */
  lemma {:induction false} GroupedNatCommas(n: nat)
    ensures forall i :: 0 <= i < |GroupedNat(n)| ==>
              (GroupedNat(n)[i] == ',' <==> (|GroupedNat(n)| - i) % 4 == 0)
    decreases n
  {
    if n < 1000 {
      var s := Digits(n);
      DigitsCorrect(n);
      DigitsShort(n);
      assert ',' !in s by {
        forall i | 0 <= i < |s| ensures s[i] != ',' { assert IsDigit(s[i]); }
      }
      CommaSpacedShort(s);
    } else {
      var p := GroupedNat(n / 1000);
      var d := Pad3(n % 1000);
      GroupedNatCommas(n / 1000);
      assert CommaSpaced(p);
      assert ',' !in d;
      CommaSpacedGroup(p, d);
      assert GroupedNat(n) == p + [','] + d;
      assert CommaSpaced(GroupedNat(n));
    }
  }

  /** Neither formatting step introduces a newline. */
  lemma CapitalizeNoNewline(s: string)
    requires '\n' !in s
    ensures '\n' !in Capitalize(s)
  {
    CapitalizeChars(s);
    forall i | 0 <= i < |s| ensures Capitalize(s)[i] != '\n' {
      assert s[i] in s;
    }
  }

  lemma {:induction false} GroupedNatNoNewline(n: nat)
    ensures '\n' !in GroupedNat(n)
    decreases n
  {
    if n < 1000 {
      DigitsCorrect(n);
    } else {
      GroupedNatNoNewline(n / 1000);
    }
  }

  lemma GroupedNoNewline(n: int)
    ensures '\n' !in Grouped(n)
  {
    if n < 0 { GroupedNatNoNewline(-n); } else { GroupedNatNoNewline(n); }
  }

  /** A worked instance of the comma-grouped format. */
  lemma GroupedExample()
    ensures Grouped(1234567) == "1,234,567"
  {
    assert Digits(1) == "1";
    assert Pad3(234) == "234";
    assert Pad3(567) == "567";
    assert GroupedNat(1234) == "1,234";
  }
}
