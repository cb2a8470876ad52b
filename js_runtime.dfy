/**
 * The few JavaScript built-ins that the search route and the docs sidebar
 * rely on, stated with the semantics ECMAScript gives them on the values the
 * two components pass: `String.prototype.length` (UTF-16 code units),
 * `split` and `join` with a one-character separator, and `Number.prototype.toString`
 * on integral numbers, together with the decimal parser that inverts it.
 */
module JsRuntime {
  import opened Wrappers

  // ---------------------------------------------------------------------------
  // String length
  // ---------------------------------------------------------------------------

  /** A character outside the Basic Multilingual Plane; UTF-16 stores it as a surrogate pair. */
  predicate IsAstral(c: char) {
    c as int >= 0x1_0000
  }

  /** The number of UTF-16 code units of one character. */
  function CodeUnits(c: char): nat {
    if IsAstral(c) then 2 else 1
  }

  /** `s.length` in JavaScript: the number of UTF-16 code units of `s`. */
  function Utf16Length(s: string): (n: nat)
    ensures |s| <= n <= 2 * |s|
    ensures n == |s| <==> forall i :: 0 <= i < |s| ==> !IsAstral(s[i])
  {
    if s == [] then 0
    else
      var rest := Utf16Length(s[1..]);
      assert forall i :: 1 <= i < |s| ==> s[i] == s[1..][i - 1];
      CodeUnits(s[0]) + rest
  }

  // ---------------------------------------------------------------------------
  // split and join with a one-character separator
  // ---------------------------------------------------------------------------

  /**
   * `s.split(sep)`: the maximal separator-free pieces of `s`, left to right.
   * As in JavaScript, the empty string splits into one empty word and a
   * leading, trailing or doubled separator yields empty words.
   */
  function Split(s: string, sep: char): (words: seq<string>)
    ensures |words| >= 1
    ensures forall w :: w in words ==> sep !in w
  {
    if s == [] then [[]]
    else
      var rest := Split(s[1..], sep);
      if s[0] == sep then [[]] + rest
      else [[s[0]] + rest[0]] + rest[1..]
  }

  /** `words.join(sep)`: the words with one separator between neighbours. */
  function Join(words: seq<string>, sep: char): string {
    if |words| == 0 then []
    else if |words| == 1 then words[0]
    else words[0] + [sep] + Join(words[1..], sep)
  }

  /** Joining what was split gives the string back. */
  lemma {:induction false} JoinSplit(s: string, sep: char)
    ensures Join(Split(s, sep), sep) == s
  {
    if s != [] {
      JoinSplit(s[1..], sep);
      var rest := Split(s[1..], sep);
      if s[0] != sep {
        JoinPrefixFirst([s[0]], rest[0], rest[1..], sep);
        assert [rest[0]] + rest[1..] == rest;
      }
    }
  }

  /** Splitting what was joined gives the words back, when no word holds the separator. */
  lemma {:induction false} SplitJoin(words: seq<string>, sep: char)
    requires |words| >= 1
    requires forall w :: w in words ==> sep !in w
    ensures Split(Join(words, sep), sep) == words
  {
    if |words| == 1 {
      SplitWord(words[0], [], sep);
      assert words[0] + [] == words[0];
      assert Split([], sep) == [[]];
      assert [words[0]] == words;
    } else {
      SplitJoin(words[1..], sep);
      var tail := Join(words[1..], sep);
      assert Split([sep] + tail, sep) == [[]] + words[1..] by {
        assert ([sep] + tail)[1..] == tail;
      }
      SplitWord(words[0], [sep] + tail, sep);
      assert Join(words, sep) == words[0] + ([sep] + tail);
      var pieces := Split([sep] + tail, sep);
      assert pieces[0] == [] && pieces[1..] == words[1..];
      assert words[0] + pieces[0] == words[0];
      assert [words[0]] + words[1..] == words;
    }
  }

  /** Prefixing a separator-free word to a string only extends its first piece. */
  lemma {:induction false} SplitWord(w: string, t: string, sep: char)
    requires sep !in w
    ensures Split(w + t, sep) == [w + Split(t, sep)[0]] + Split(t, sep)[1..]
  {
    if w == [] {
      assert w + t == t;
      assert w + Split(t, sep)[0] == Split(t, sep)[0];
      assert [Split(t, sep)[0]] + Split(t, sep)[1..] == Split(t, sep);
    } else {
      SplitWord(w[1..], t, sep);
      assert (w + t)[0] == w[0];
      assert (w + t)[1..] == w[1..] + t;
      assert [w[0]] + (w[1..] + Split(t, sep)[0]) == w + Split(t, sep)[0];
    }
  }

  /** Two words joined have the separator between them. */
  lemma JoinPair(v: string, w: string, sep: char)
    ensures Join([v, w], sep) == v + [sep] + w
  {
    assert [v, w][1..] == [w];
  }

  /** Text put in front of the first word of a join stays in front of the whole. */
  lemma JoinPrefixFirst(p: string, w: string, rest: seq<string>, sep: char)
    ensures Join([p + w] + rest, sep) == p + Join([w] + rest, sep)
  {
    assert ([p + w] + rest)[1..] == rest;
    assert ([w] + rest)[1..] == rest;
  }

  // ---------------------------------------------------------------------------
  // Integer to decimal string, and back
  // ---------------------------------------------------------------------------

  predicate IsDigit(c: char) {
    '0' <= c <= '9'
  }

  function DigitChar(d: nat): (c: char)
    requires d < 10
    ensures IsDigit(c) && c as int - '0' as int == d
  {
    ('0' as int + d) as char
  }

  /** The decimal digits of `n`, most significant first, without leading zeros. */
  function NatToString(n: nat): (s: string)
    ensures |s| >= 1
    ensures forall i :: 0 <= i < |s| ==> IsDigit(s[i])
    ensures |s| > 1 ==> s[0] != '0'
  {
    if n < 10 then [DigitChar(n)]
    else NatToString(n / 10) + [DigitChar(n % 10)]
  }

  /**
   * `n.toString()` for an integral JavaScript number `n`: an optional minus
   * sign and the decimal digits. Negative zero prints as "0", which an
   * unbounded integer cannot even express.
   */
  function IntToString(n: int): (s: string)
    ensures n >= 0 ==> AllDigits(s)
    ensures n < 0 ==> |s| >= 2 && s[0] == '-' && AllDigits(s[1..])
  {
    if n < 0 then "-" + NatToString(-n) else NatToString(n)
  }

  function DigitValue(c: char): (d: nat)
    requires IsDigit(c)
    ensures d < 10
  {
    c as int - '0' as int
  }

  /** The value of a string of decimal digits. */
  function DigitsValue(s: string): nat
    requires forall i :: 0 <= i < |s| ==> IsDigit(s[i])
  {
    if s == [] then 0
    else DigitsValue(s[..|s| - 1]) * 10 + DigitValue(s[|s| - 1])
  }

  predicate AllDigits(s: string) {
    |s| >= 1 && forall i :: 0 <= i < |s| ==> IsDigit(s[i])
  }

  /** How a client reads a decimal integer: an optional minus sign, then one or more digits. */
  function ParseInt(s: string): Option<int> {
    if |s| >= 1 && s[0] == '-' then
      if AllDigits(s[1..]) then Some(0 - DigitsValue(s[1..]) as int) else None
    else if AllDigits(s) then Some(DigitsValue(s))
    else None
  }

  lemma {:induction false} DigitsOfNat(n: nat)
    ensures DigitsValue(NatToString(n)) == n
  {
    if n >= 10 {
      DigitsOfNat(n / 10);
      var s := NatToString(n);
      assert s[..|s| - 1] == NatToString(n / 10);
    }
  }

  /** Reading back what `toString` printed gives the same integer. */
  lemma IntToStringRoundTrip(n: int)
    ensures ParseInt(IntToString(n)) == Some(n)
  {
    if n < 0 {
      var digits := NatToString(-n);
      var s := "-" + digits;
      assert s[0] == '-' && s[1..] == digits;
      assert AllDigits(digits);
      assert DigitsValue(digits) == -n by {
        DigitsOfNat(-n);
      }
    } else {
      var s := NatToString(n);
      assert |s| >= 1 ==> s[0] != '-';
      assert AllDigits(s);
      DigitsOfNat(n);
    }
  }
}
