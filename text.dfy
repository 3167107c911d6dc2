/**
 * The Python string operations the configuration parsers rely on:
 * `str.split(",")`, `str.strip()` and `int(str)`.
 */
module Text {
  import opened Wrappers

  /** Python's `str.isspace()` for one character. */
  predicate IsSpace(c: char)
  {
    var n := c as int;
    n == 0x20 || 0x09 <= n <= 0x0D || 0x1C <= n <= 0x1F || n == 0x85 || n == 0xA0
    || n == 0x1680 || 0x2000 <= n <= 0x200A || n == 0x2028 || n == 0x2029
    || n == 0x202F || n == 0x205F || n == 0x3000
  }

  predicate IsDigit(c: char)
  {
    '0' <= c <= '9'
  }

  predicate AllDigits(s: string)
  {
    forall i :: 0 <= i < |s| ==> IsDigit(s[i])
  }

  /** An optional sign followed by at least one ASCII digit: what `int` accepts once stripped. */
  predicate IntegerText(t: string)
  {
    |t| >= 1 && IsDigit(t[|t| - 1])
    && (IsDigit(t[0]) || t[0] == '-' || t[0] == '+')
    && forall i :: 0 < i < |t| ==> IsDigit(t[i])
  }

  /** Integer text is a digit run, or a sign followed by a digit run. */
  lemma IntegerTextForms(t: string)
    ensures IntegerText(t) <==>
      (|t| >= 1 && AllDigits(t)) || (|t| >= 2 && (t[0] == '-' || t[0] == '+') && AllDigits(t[1..]))
  {
    if |t| >= 2 && (t[0] == '-' || t[0] == '+') && AllDigits(t[1..]) {
      assert forall i :: 0 < i < |t| ==> t[i] == t[1..][i - 1];
    }
    if IntegerText(t) && !AllDigits(t) {
      assert forall i :: 0 <= i < |t| - 1 ==> t[1..][i] == t[i + 1];
    }
  }

  /** Number of occurrences of `c` in `s`. */
  function Count(s: string, c: char): nat
  {
    if s == [] then 0 else (if s[0] == c then 1 else 0) + Count(s[1..], c)
  }

  /** `sep.join(pieces)` for a one-character separator. */
  function Join(pieces: seq<string>, sep: char): string
    requires |pieces| >= 1
  {
    if |pieces| == 1 then pieces[0] else pieces[0] + [sep] + Join(pieces[1..], sep)
  }

  /**
   * `s.split(sep)` with an explicit separator: every occurrence of `sep`
   * cuts, empty pieces are kept, and the empty string gives `[""]`.
   */
  function Split(s: string, sep: char): (pieces: seq<string>)
    ensures |pieces| == Count(s, sep) + 1
    ensures forall i :: 0 <= i < |pieces| ==> sep !in pieces[i]
    ensures Join(pieces, sep) == s
  {
    if s == [] then [""]
    else
      var rest := Split(s[1..], sep);
      if s[0] == sep then
        assert ([""] + rest)[1..] == rest;
        [""] + rest
      else
        assert s == [s[0]] + s[1..];
        assert |rest| > 1 ==> Join(rest, sep) == rest[0] + [sep] + Join(rest[1..], sep);
        [[s[0]] + rest[0]] + rest[1..]
  }

  /** Splitting a piece free of `sep` that is followed by more text. */
  lemma {:induction false} SplitAfterPiece(p: string, x: string, sep: char)
    requires sep !in p
    ensures Split(p + x, sep) == [p + Split(x, sep)[0]] + Split(x, sep)[1..]
  {
    if p == [] {
      var xs := Split(x, sep);
      assert p + x == x;
      assert p + xs[0] == xs[0];
      assert xs == [xs[0]] + xs[1..];
    } else {
      var xs := Split(x, sep);
      var s := p + x;
      assert s != [] && s[0] == p[0] && s[0] != sep;
      assert s[1..] == p[1..] + x;
      SplitAfterPiece(p[1..], x, sep);
      var rest := Split(s[1..], sep);
      assert rest == [p[1..] + xs[0]] + xs[1..];
      assert Split(s, sep) == [[s[0]] + rest[0]] + rest[1..];
      assert [p[0]] + (p[1..] + xs[0]) == p + xs[0];
    }
  }

  /** `split` undoes `join` when no piece holds the separator. */
  lemma {:induction false} SplitJoin(pieces: seq<string>, sep: char)
    requires |pieces| >= 1
    requires forall i :: 0 <= i < |pieces| ==> sep !in pieces[i]
    ensures Split(Join(pieces, sep), sep) == pieces
  {
    if |pieces| == 1 {
      SplitAfterPiece(pieces[0], [], sep);
      assert pieces[0] + [] == pieces[0];
    } else {
      var x := Join(pieces[1..], sep);
      SplitJoin(pieces[1..], sep);
      var y := [sep] + x;
      SplitAfterPiece(pieces[0], y, sep);
      assert Join(pieces, sep) == pieces[0] + y;
      assert y[1..] == x;
      assert Split(y, sep) == [""] + Split(x, sep);
      assert Split(y, sep)[0] == "" && Split(y, sep)[1..] == pieces[1..];
      assert pieces[0] + "" == pieces[0];
      assert pieces == [pieces[0]] + pieces[1..];
    }
  }

  /** Length of the whitespace run at the start of `s`. */
  function LeadingSpaces(s: string): (k: nat)
    ensures k <= |s|
    ensures forall i :: 0 <= i < k ==> IsSpace(s[i])
    ensures k < |s| ==> !IsSpace(s[k])
  {
    if s == [] || !IsSpace(s[0]) then 0 else 1 + LeadingSpaces(s[1..])
  }

  /** Length of the whitespace run at the end of `s`. */
  function TrailingSpaces(s: string): (k: nat)
    ensures k <= |s|
    ensures forall i :: |s| - k <= i < |s| ==> IsSpace(s[i])
    ensures k < |s| ==> !IsSpace(s[|s| - 1 - k])
  {
    if s == [] || !IsSpace(s[|s| - 1]) then 0 else 1 + TrailingSpaces(s[..|s| - 1])
  }

  /**
   * `s.strip()`: the slice of `s` left once every whitespace character at
   * either end is removed.
   */
  function Strip(s: string): (t: string)
    ensures LeadingSpaces(s) + |t| <= |s|
    ensures t == s[LeadingSpaces(s)..LeadingSpaces(s) + |t|]
    ensures forall i :: LeadingSpaces(s) + |t| <= i < |s| ==> IsSpace(s[i])
    ensures t != [] ==> !IsSpace(t[0]) && !IsSpace(t[|t| - 1])
  {
    var a := LeadingSpaces(s);
    var rest := s[a..];
    var b := TrailingSpaces(rest);
    var t := rest[..|rest| - b];
    assert t == s[a..a + |t|];
    t
  }

  /** The value of a run of ASCII digits, most significant first. */
  function DigitsValue(s: string): nat
    requires AllDigits(s)
  {
    if s == [] then 0 else 10 * DigitsValue(s[..|s| - 1]) + (s[|s| - 1] as int - '0' as int)
  }

  /**
   * Python's `int(s)` on a string: surrounding whitespace is ignored, then an
   * optional sign and at least one ASCII digit. `None` is the `ValueError`.
   */
  function ParseInt(s: string): (r: Option<int>)
    ensures r.Some? ==> IntegerText(Strip(s))
    ensures var t := Strip(s);
      && (|t| >= 1 && AllDigits(t) ==> r == Some(DigitsValue(t) as int))
      && (|t| >= 2 && t[0] == '+' && AllDigits(t[1..]) ==> r == Some(DigitsValue(t[1..]) as int))
      && (|t| >= 2 && t[0] == '-' && AllDigits(t[1..]) ==> r == Some(-(DigitsValue(t[1..]) as int)))
  {
    var t := Strip(s);
    if |t| >= 2 && t[0] == '-' && AllDigits(t[1..]) then Some(-(DigitsValue(t[1..]) as int))
    else if |t| >= 2 && t[0] == '+' && AllDigits(t[1..]) then Some(DigitsValue(t[1..]))
    else if |t| >= 1 && AllDigits(t) then Some(DigitsValue(t))
    else None
  }

  function DigitChar(d: nat): (c: char)
    requires d < 10
    ensures IsDigit(c) && c as int - '0' as int == d
  {
    ('0' as int + d) as char
  }

  /** Decimal rendering of a natural number, without leading zeros. */
  function RenderNat(n: nat): (s: string)
    ensures |s| >= 1 && AllDigits(s)
  {
    if n < 10 then [DigitChar(n)] else RenderNat(n / 10) + [DigitChar(n % 10)]
  }

  /** Python's `str(n)` for an integer. */
  function Render(n: int): string
  {
    if n < 0 then "-" + RenderNat(-n) else RenderNat(n)
  }

  lemma {:induction false} RenderNatValue(n: nat)
    ensures DigitsValue(RenderNat(n)) == n
  {
    if n >= 10 {
      RenderNatValue(n / 10);
      var s := RenderNat(n);
      assert s[..|s| - 1] == RenderNat(n / 10);
    }
  }

  /** A string that is not blank at either end is its own strip. */
  lemma StripUnpadded(s: string)
    requires s != [] && !IsSpace(s[0]) && !IsSpace(s[|s| - 1])
    ensures Strip(s) == s
  {
    assert LeadingSpaces(s) == 0;
    assert s[0..] == s;
    assert TrailingSpaces(s) == 0;
  }

  /** Leading zeros are accepted, as Python's `int` accepts them. */
  lemma ParseLeadingZeros()
    ensures ParseInt("007") == Some(7)
  {
    StripUnpadded("007");
    assert AllDigits("007");
    assert "007"[..2] == "00" && "00"[..1] == "0" && "0"[..0] == "";
  }

  /** A plus sign and surrounding blanks are accepted. */
  lemma ParsePlusPadded()
    ensures ParseInt(" +5 ") == Some(5)
  {
    assert LeadingSpaces(" +5 ") == 1;
    assert " +5 "[1..] == "+5 ";
    assert TrailingSpaces("+5 ") == 1;
    assert "+5 "[..2] == "+5";
    assert Strip(" +5 ") == "+5";
    assert "+5"[1..] == "5" && "5"[..0] == "";
  }

  /** Text that is not a signed run of digits is refused. */
  lemma ParseRejects()
    ensures ParseInt("") == None
    ensures ParseInt("1a") == None
    ensures ParseInt("-") == None
  {
    StripUnpadded("1a");
    StripUnpadded("-");
    assert "1a"[1] == 'a';
  }

  /** `int(str(n)) == n`: parsing inverts rendering. */
  lemma ParseRender(n: int)
    ensures ParseInt(Render(n)) == Some(n)
  {
    var s := Render(n);
    RenderNatValue(if n < 0 then -n else n);
    StripUnpadded(s);
    if n < 0 {
      assert s[1..] == RenderNat(-n);
    }
  }
}
