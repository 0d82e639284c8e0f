/** Small text functions shared by the models, each tied to what it means: decimal numerals and
    their values, splitting at a separator and joining again, trimming white space; and the option
    type that all the models use for what may be absent. */
module Texts {

  datatype Option<+T> = None | Some(value: T)

  predicate IsDigit(c: char) { '0' <= c <= '9' }

  predicate AllDigits(s: string) { forall i | 0 <= i < |s| :: IsDigit(s[i]) }

  function Digit(d: nat): char
    requires d < 10
  {
    ['0', '1', '2', '3', '4', '5', '6', '7', '8', '9'][d]
  }

  function Decimal(n: nat): string {
    if n < 10 then [Digit(n)] else Decimal(n / 10) + [Digit(n % 10)]
  }

  function DecimalInt(n: int): string {
    if n < 0 then "-" + Decimal(-n) else Decimal(n)
  }

  function DigitsValue(s: string): nat
    requires AllDigits(s)
  {
    if s == [] then 0 else 10 * DigitsValue(s[..|s| - 1]) + (s[|s| - 1] as int - '0' as int)
  }

  lemma {:induction false} DecimalRoundTrip(n: nat)
    ensures Decimal(n) != [] && AllDigits(Decimal(n)) && DigitsValue(Decimal(n)) == n
  {
    if n < 10 {
      ValueSnoc([], Digit(n));
      assert [] + [Digit(n)] == [Digit(n)];
    } else {
      DecimalRoundTrip(n / 10);
      ValueSnoc(Decimal(n / 10), Digit(n % 10));
    }
  }

  lemma ValueSnoc(s: string, c: char)
    requires AllDigits(s) && IsDigit(c)
    ensures AllDigits(s + [c]) && DigitsValue(s + [c]) == 10 * DigitsValue(s) + (c as int - '0' as int)
  {
    assert (s + [c])[..|s|] == s;
  }

  /** Distinct integers have distinct numerals. */
  lemma DecimalIntInjective(m: int, n: int)
    ensures DecimalInt(m) == DecimalInt(n) <==> m == n
  {
    ReadDecimalInt(m);
    ReadDecimalInt(n);
  }

  /** Reads a numeral with an optional minus sign. */
  function IntValue(s: string): int
    requires AllDigits(s) || (s != [] && AllDigits(s[1..]))
  {
    if AllDigits(s) then DigitsValue(s) else if s[0] == '-' then 0 - DigitsValue(s[1..]) else 0
  }

  lemma ReadDecimalInt(n: int)
    ensures var s := DecimalInt(n); (AllDigits(s) || (s != [] && AllDigits(s[1..]))) && IntValue(s) == n
  {
    DecimalRoundTrip(if n < 0 then -n else n);
    if n < 0 {
      assert DecimalInt(n)[1..] == Decimal(-n);
    } else {
      assert IsDigit(Decimal(n)[0]);
    }
  }

  /** `s.split(sep)` for a one-character separator. */
  function Split(s: string, sep: char): (parts: seq<string>)
    ensures parts != []
  {
    if s == [] then [[]]
    else
      var rest := Split(s[1..], sep);
      if s[0] == sep then [[]] + rest else [[s[0]] + rest[0]] + rest[1..]
  }

  lemma {:induction false} SplitNone(s: string, sep: char)
    requires sep !in s
    ensures Split(s, sep) == [s]
  {
    if s != [] {
      assert s[0] in s;
      SplitNone(s[1..], sep);
      assert s == [s[0]] + s[1..];
    }
  }

  lemma {:induction false} SplitFirst(s: string, sep: char, rest: string)
    requires sep !in s
    ensures Split(s + [sep] + rest, sep) == [s] + Split(rest, sep)
  {
    if s == [] {
      assert s + [sep] + rest == [sep] + rest;
      assert ([sep] + rest)[1..] == rest;
    } else {
      assert s[0] in s;
      SplitFirst(s[1..], sep, rest);
      assert (s + [sep] + rest)[1..] == s[1..] + [sep] + rest;
      assert s == [s[0]] + s[1..];
    }
  }

  /** Three separator-free parts joined by the separator split back into themselves. */
  lemma SplitThree(a: string, b: string, c: string, sep: char)
    requires sep !in a && sep !in b && sep !in c
    ensures Split(a + [sep] + b + [sep] + c, sep) == [a, b, c]
  {
    assert a + [sep] + b + [sep] + c == a + [sep] + (b + [sep] + c);
    SplitFirst(a, sep, b + [sep] + c);
    SplitFirst(b, sep, c);
    SplitNone(c, sep);
  }

  function Join(parts: seq<string>, sep: char): string
    requires parts != []
  {
    if |parts| == 1 then parts[0] else parts[0] + [sep] + Join(parts[1..], sep)
  }

  /** Splitting loses nothing. */
  lemma {:induction false} SplitJoins(s: string, sep: char)
    ensures Join(Split(s, sep), sep) == s
  {
    if s != [] {
      SplitJoins(s[1..], sep);
      var rest := Split(s[1..], sep);
      assert s == [s[0]] + s[1..];
      if s[0] == sep {
        assert Split(s, sep)[1..] == rest;
      } else {
        assert Split(s, sep)[1..] == rest[1..];
        if |rest| > 1 { assert Join(rest, sep) == rest[0] + [sep] + Join(rest[1..], sep); }
      }
    }
  }

  /** And it cuts at every separator. */
  lemma {:induction false} SplitCuts(s: string, sep: char)
    ensures forall i | 0 <= i < |Split(s, sep)| :: sep !in Split(s, sep)[i]
  {
    if s != [] {
      SplitCuts(s[1..], sep);
      var rest := Split(s[1..], sep);
      assert sep !in rest[0];
      if s[0] == sep { assert Split(s, sep) == [[]] + rest; }
    }
  }

  lemma JoinThree(a: string, b: string, c: string, sep: char)
    ensures Join([a, b, c], sep) == a + [sep] + b + [sep] + c
  {
    assert [a, b, c][1..] == [b, c] && [b, c][1..] == [c];
    assert Join([b, c], sep) == b + [sep] + c;
    assert a + [sep] + b + [sep] + c == a + [sep] + (b + [sep] + c);
  }

  /** The three parts of a text with two separators. */
  lemma SplitThreeExact(s: string, sep: char, a: string, b: string, c: string)
    ensures Split(s, sep) == [a, b, c] <==> sep !in a && sep !in b && sep !in c && s == a + [sep] + b + [sep] + c
  {
    if Split(s, sep) == [a, b, c] {
      SplitJoins(s, sep);
      SplitCuts(s, sep);
      JoinThree(a, b, c, sep);
      assert Split(s, sep)[0] == a && Split(s, sep)[1] == b && Split(s, sep)[2] == c;
    }
    if sep !in a && sep !in b && sep !in c { SplitThree(a, b, c, sep); }
  }

  predicate IsSpace(c: char) { c == ' ' || 9 <= c as int <= 13 }

  function TrimLeft(s: string): string {
    if s != [] && IsSpace(s[0]) then TrimLeft(s[1..]) else s
  }

  function TrimRight(s: string): string {
    if s != [] && IsSpace(s[|s| - 1]) then TrimRight(s[..|s| - 1]) else s
  }

  function Trim(s: string): string { TrimRight(TrimLeft(s)) }

  /** The ASCII white space: tab, line feed, vertical tab, form feed, carriage return, space. */
  ghost predicate Blank(s: string) { forall i | 0 <= i < |s| :: s[i] in {'\t', '\n', '\U{0b}', '\U{0c}', '\r', ' '} }

  /** Trimming takes off the white space at both ends and nothing else. */
  lemma TrimExact(s: string) returns (left: string, right: string)
    ensures s == left + Trim(s) + right && Blank(left) && Blank(right)
    ensures Trim(s) != [] ==> !Blank(Trim(s)[..1]) && !Blank(Trim(s)[|Trim(s)| - 1..])
  {
    left := TrimLeftCuts(s);
    right := TrimRightCuts(TrimLeft(s));
    assert left + (Trim(s) + right) == left + Trim(s) + right;
  }

  lemma {:induction false} TrimLeftCuts(s: string) returns (left: string)
    ensures s == left + TrimLeft(s) && Blank(left)
    ensures TrimLeft(s) != [] ==> !Blank(TrimLeft(s)[..1])
  {
    left := [];
    if s != [] && IsSpace(s[0]) {
      left := TrimLeftCuts(s[1..]);
      left := [s[0]] + left;
      assert s == [s[0]] + s[1..];
    } else if s != [] {
      assert s[..1][0] == s[0];
    }
  }

  lemma {:induction false} TrimRightCuts(s: string) returns (right: string)
    ensures s == TrimRight(s) + right && Blank(right)
    ensures TrimRight(s) != [] ==> !Blank(TrimRight(s)[|TrimRight(s)| - 1..]) && TrimRight(s)[0] == s[0]
  {
    right := [];
    if s != [] && IsSpace(s[|s| - 1]) {
      right := TrimRightCuts(s[..|s| - 1]);
      right := right + [s[|s| - 1]];
      assert s == s[..|s| - 1] + [s[|s| - 1]];
    } else if s != [] {
      assert s[|s| - 1..][0] == s[|s| - 1];
    }
  }
}
