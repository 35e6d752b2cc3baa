/** The text layer of the serialized format: how JavaScript turns an integer
    node value into base-10 text (the number-to-string conversion `join`
    applies), how `parseInt(text, 10)` reads it back, and `join(',')` /
    `split(',')` on the list of token texts. */
module DecimalText {
  import opened Options

  predicate IsDigit(c: char)
  {
    '0' <= c <= '9'
  }

  predicate AllDigits(s: string)
  {
    forall i :: 0 <= i < |s| ==> IsDigit(s[i])
  }

  function DigitChar(d: nat): (c: char)
    requires d < 10
    ensures IsDigit(c)
  {
    ('0' as int + d) as char
  }

  function DigitValue(c: char): (d: nat)
    requires IsDigit(c)
    ensures d < 10 && DigitChar(d) == c
  {
    c as int - '0' as int
  }

  /** The decimal digits of `n`, most significant first, without leading zeros. */
  function NatToString(n: nat): (s: string)
    ensures s != [] && AllDigits(s)
  {
    if n < 10 then [DigitChar(n)] else NatToString(n / 10) + [DigitChar(n % 10)]
  }

  /** The text JavaScript gives an integer: its digits, after a `-` when it is
      negative. */
  function IntToString(i: int): (s: string)
    ensures s != []
    ensures i >= 0 ==> AllDigits(s) && s[0] != '-'
    ensures i < 0 ==> s[0] == '-' && s[1..] != [] && AllDigits(s[1..])
  {
    if i < 0 then
      assert ("-" + NatToString(-i))[1..] == NatToString(-i);
      "-" + NatToString(-i)
    else NatToString(i)
  }

  /** The number a string of decimal digits denotes. */
  function DigitsValue(s: string): nat
    requires AllDigits(s)
  {
    if s == [] then 0 else DigitsValue(s[..|s| - 1]) * 10 + DigitValue(s[|s| - 1])
  }

  /** The white space and line terminators `parseInt` skips before a number:
      tab, vertical tab, form feed, the byte order mark, the Unicode space
      separators, line feed, carriage return, and the line and paragraph
      separators. */
  predicate IsWhiteSpace(c: char)
  {
    var k := c as int;
    k == 0x09 || k == 0x0B || k == 0x0C || k == 0xFEFF
    || k == 0x20 || k == 0xA0 || k == 0x1680 || (0x2000 <= k <= 0x200A)
    || k == 0x202F || k == 0x205F || k == 0x3000
    || k == 0x0A || k == 0x0D || k == 0x2028 || k == 0x2029
  }

  /** `s` without its leading white space. */
  function TrimStart(s: string): (u: string)
    ensures |u| <= |s| && u == s[|s| - |u|..]
    ensures u != [] ==> !IsWhiteSpace(u[0])
  {
    if s != [] && IsWhiteSpace(s[0]) then TrimStart(s[1..]) else s
  }

  /** The longest prefix of `s` made of decimal digits. */
  function LeadingDigits(s: string): (d: string)
    ensures d <= s && AllDigits(d)
    ensures |d| < |s| ==> !IsDigit(s[|d|])
    ensures AllDigits(s) ==> d == s
  {
    if s != [] && IsDigit(s[0]) then [s[0]] + LeadingDigits(s[1..]) else []
  }

  /** `parseInt(s, 10)`: skip leading white space, take an optional sign and
      then the longest run of decimal digits; `None` stands for `NaN`, the
      result when there is no digit. A negative zero is the integer 0. */
  function ParseInt(s: string): (r: Option<int>)
    ensures (forall k :: 0 <= k < |s| ==> !IsDigit(s[k])) ==> r.None?
    ensures s != [] && AllDigits(s) ==> r == Some(DigitsValue(s))
  {
    var u := TrimStart(s);
    var negative := u != [] && u[0] == '-';
    var unsigned := if u != [] && (u[0] == '-' || u[0] == '+') then u[1..] else u;
    var digits := LeadingDigits(unsigned);
    if digits == [] then None
    else
      var magnitude: int := DigitsValue(digits);
      Some(if negative then -magnitude else magnitude)
  }

  lemma {:induction false} DigitsValueOfNatToString(n: nat)
    ensures DigitsValue(NatToString(n)) == n
  {
    var s := NatToString(n);
    if n >= 10 {
      DigitsValueOfNatToString(n / 10);
      assert s[..|s| - 1] == NatToString(n / 10);
    }
  }

  /** `parseInt` reads back every integer's text. */
  lemma ParseIntOfIntToString(i: int)
    ensures ParseInt(IntToString(i)) == Some(i)
  {
    var s := IntToString(i);
    var n: nat := if i < 0 then -i else i;
    var digits := NatToString(n);
    assert TrimStart(s) == s;
    if i < 0 {
      assert s[1..] == digits;
    }
    DigitsValueOfNatToString(n);
  }

  /** The digits of a natural number have no leading zero. */
  lemma {:induction false} NatToStringCanonical(n: nat)
    ensures |NatToString(n)| > 1 ==> NatToString(n)[0] != '0'
  {
    if n >= 10 {
      NatToStringCanonical(n / 10);
      assert NatToString(n)[0] == NatToString(n / 10)[0];
      if n / 10 < 10 {
        assert NatToString(n / 10) == [DigitChar(n / 10)];
        assert DigitValue(NatToString(n)[0]) == n / 10;
      }
    }
  }

  /** An integer's text is its magnitude's own digits, without a leading zero,
      after a `-` exactly when it is negative. */
  lemma IntToStringIsCanonical(i: int)
    ensures var s := IntToString(i);
            var digits := if i < 0 then s[1..] else s;
            && (s[0] == '-' <==> i < 0)
            && AllDigits(digits) && DigitsValue(digits) == (if i < 0 then -i else i)
            && (|digits| > 1 ==> digits[0] != '0')
  {
    var n: nat := if i < 0 then -i else i;
    if i < 0 {
      assert IntToString(i)[1..] == NatToString(n);
    }
    DigitsValueOfNatToString(n);
    NatToStringCanonical(n);
  }

  /** An integer's text is not empty, holds no comma and is not `null`. */
  lemma IntToStringIsPlainToken(i: int)
    ensures IntToString(i) != [] && ',' !in IntToString(i) && IntToString(i) != "null"
  {
    var s := IntToString(i);
    var digits := NatToString(if i < 0 then -i else i);
    assert s[0] == '-' || IsDigit(s[0]);
    assert forall k :: 0 <= k < |digits| ==> digits[k] != ',';
    if i < 0 {
      assert forall k :: 1 <= k < |s| ==> s[k] == digits[k - 1];
    }
  }

  /** The number of commas in `s`. */
  function Commas(s: string): (n: nat)
    ensures n == 0 <==> ',' !in s
    ensures n <= |s|
  {
    if s == [] then 0 else (if s[0] == ',' then 1 else 0) + Commas(s[1..])
  }

  lemma {:induction false} CommasAppend(x: string, y: string)
    ensures Commas(x + y) == Commas(x) + Commas(y)
  {
    if x != [] {
      assert (x + y)[0] == x[0] && (x + y)[1..] == x[1..] + y;
      CommasAppend(x[1..], y);
    } else {
      assert x + y == y;
    }
  }

  /** `strings.join(',')`: when no piece holds a comma, the result holds one
      comma fewer than there are pieces. */
  function Join(parts: seq<string>): (s: string)
    ensures parts != [] && (forall k :: 0 <= k < |parts| ==> ',' !in parts[k]) ==>
              Commas(s) == |parts| - 1
  {
    if parts == [] then ""
    else if |parts| == 1 then parts[0]
    else
      var rest := Join(parts[1..]);
      CommasAppend(parts[0], ",");
      CommasAppend(parts[0] + ",", rest);
      parts[0] + "," + rest
  }

  /** `s.split(',')`: the pieces between the commas, empty pieces included;
      the empty string gives one empty piece. */
  function Split(s: string): (parts: seq<string>)
    ensures |parts| == Commas(s) + 1
    ensures forall k :: 0 <= k < |parts| ==> ',' !in parts[k]
  {
    if s == [] then [""]
    else
      var rest := Split(s[1..]);
      if s[0] == ',' then [""] + rest else [[s[0]] + rest[0]] + rest[1..]
  }

  /** A character other than a comma joins the first piece. */
  lemma SplitAfterChar(c: char, s: string)
    requires c != ','
    ensures Split([c] + s) == [[c] + Split(s)[0]] + Split(s)[1..]
  {
    assert ([c] + s)[1..] == s;
  }

  /** Text without a comma stays in the first piece. */
  lemma {:induction false} SplitAfterPiece(p: string, s: string)
    requires ',' !in p
    ensures Split(p + s) == [p + Split(s)[0]] + Split(s)[1..]
  {
    if p != [] {
      assert p + s == [p[0]] + (p[1..] + s);
      SplitAfterPiece(p[1..], s);
      SplitAfterChar(p[0], p[1..] + s);
      var tail := Split(p[1..] + s);
      assert tail[0] == p[1..] + Split(s)[0] && tail[1..] == Split(s)[1..];
      assert [p[0]] + (p[1..] + Split(s)[0]) == p + Split(s)[0];
    } else {
      assert p + s == s;
      assert p + Split(s)[0] == Split(s)[0];
      assert Split(s) == [Split(s)[0]] + Split(s)[1..];
    }
  }

  /** A leading comma closes an empty first piece. */
  lemma SplitAfterComma(s: string)
    ensures Split("," + s) == [""] + Split(s)
  {
    assert ("," + s)[1..] == s;
  }

  /** Splitting a join gives back the pieces, as long as none holds a comma. */
  lemma {:induction false} SplitJoin(parts: seq<string>)
    requires parts != []
    requires forall k :: 0 <= k < |parts| ==> ',' !in parts[k]
    ensures Split(Join(parts)) == parts
  {
    if |parts| == 1 {
      SplitAfterPiece(parts[0], "");
      assert parts[0] + "" == parts[0];
    } else {
      var rest := Join(parts[1..]);
      assert Join(parts) == parts[0] + ("," + rest);
      SplitJoin(parts[1..]);
      SplitAfterComma(rest);
      SplitAfterPiece(parts[0], "," + rest);
      assert parts[0] + "" == parts[0];
      assert [parts[0]] + parts[1..] == parts;
    }
  }

  /** A character added to the front of the first piece comes first in the join. */
  lemma JoinAfterChar(c: char, parts: seq<string>)
    requires parts != []
    ensures Join([[c] + parts[0]] + parts[1..]) == [c] + Join(parts)
  {
    var q := [[c] + parts[0]] + parts[1..];
    assert q[0] == [c] + parts[0] && q[1..] == parts[1..];
  }

  /** An empty first piece leaves a leading comma in the join. */
  lemma JoinAfterEmpty(parts: seq<string>)
    requires parts != []
    ensures Join([""] + parts) == "," + Join(parts)
  {
    assert ([""] + parts)[1..] == parts;
  }

  /** Joining the pieces of a split gives back the string: `split` cuts `s` at
      its commas and loses nothing between them. */
  lemma {:induction false} JoinSplit(s: string)
    ensures Join(Split(s)) == s
  {
    if s != [] {
      var rest := Split(s[1..]);
      JoinSplit(s[1..]);
      if s[0] == ',' {
        JoinAfterEmpty(rest);
      } else {
        JoinAfterChar(s[0], rest);
      }
      assert s == [s[0]] + s[1..];
    }
  }

  /** The join of pieces that are not all empty is not empty. */
  lemma {:induction false} JoinIsNotEmpty(parts: seq<string>)
    requires parts != [] && parts[0] != []
    ensures Join(parts) != []
  {
  }
}
