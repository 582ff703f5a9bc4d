/** String helpers of the grid: right-trimming of the input line and the
    decimal rendering of a cell value. */
module Text {

  /** The string without its maximal run of trailing `c`. */
  function TrimRight(s: string, c: char): (t: string)
    ensures t <= s
    ensures t == [] || t[|t| - 1] != c
    ensures forall k :: |t| <= k < |s| ==> s[k] == c
  {
    if s != [] && s[|s| - 1] == c then TrimRight(s[..|s| - 1], c) else s
  }

  /** The three properties of TrimRight determine its result: it removes
      exactly the maximal trailing run of `c`. */
  lemma TrimRightUnique(s: string, c: char, t: string)
    requires t <= s
    requires t == [] || t[|t| - 1] != c
    requires forall k :: |t| <= k < |s| ==> s[k] == c
    ensures TrimRight(s, c) == t
  {
  }

  /** Trimming twice is trimming once, and a string that does not end in `c`
      (the empty string included) is left as it is. */
  lemma TrimRightIdempotent(s: string, c: char)
    ensures TrimRight(TrimRight(s, c), c) == TrimRight(s, c)
    ensures s == [] || s[|s| - 1] != c ==> TrimRight(s, c) == s
  {
    var t := TrimRight(s, c);
    TrimRightUnique(t, c, t);
  }

  /** `rtrim`: walks back from the end over characters equal to `c`, then cuts
      the string just after the last character that differs from `c`. The
      original erases in place through a reference; here the trimmed string is
      returned. */
  method Rtrim(s: string, c: char) returns (t: string)
    ensures t == TrimRight(s, c)
  {
    if |s| == 0 {
      return s;
    }
    var p := |s|;
    while p != 0
      invariant 0 <= p <= |s|
      invariant forall k :: p <= k < |s| ==> s[k] == c
    {
      p := p - 1;
      if s[p] != c {
        break;
      }
    }
    if s[p] != c {
      p := p + 1;
    }
    t := s[..p];
    TrimRightUnique(s, c, t);
  }

  lemma ConcatAssoc(a: string, b: string, c: string)
    ensures (a + b) + c == a + (b + c)
  {
  }

  /** The character of the decimal digit d. */
  function DigitChar(d: nat): (ch: char)
    requires d < 10
    ensures '0' <= ch <= '9' && ch as int - '0' as int == d
  {
    (48 + d) as char
  }

  /** Decimal digits of a natural number, most significant first. */
  function NatText(n: nat): (s: string)
    ensures |s| >= 1
    ensures |s| == 1 <==> n < 10
    ensures forall i :: 0 <= i < |s| ==> '0' <= s[i] <= '9'
  {
    if n < 10 then [DigitChar(n)] else NatText(n / 10) + [DigitChar(n % 10)]
  }

  /** `std::to_string` of an int: decimal digits, led by '-' when negative. A
      value from 10 to 19 takes two characters, the first of them '1'. */
  function IntText(v: int): (s: string)
    ensures 0 <= v < 10 ==> s == [DigitChar(v)]
    ensures 10 <= v < 20 ==> s == ['1', DigitChar(v - 10)]
    ensures v < 0 ==> |s| >= 2 && s[0] == '-'
    ensures |s| >= 1 && (|s| == 1 <==> 0 <= v < 10)
    ensures forall i :: 0 <= i < |s| ==> s[i] == '-' || '0' <= s[i] <= '9'
  {
    if v < 0 then "-" + NatText(-v) else NatText(v)
  }
}
