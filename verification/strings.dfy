/**
  Python string primitives used throughout the model: `str.split()` with no
  separator, `" ".join`, `str.split(sep)`, `str.replace`, `str.startswith`,
  `str.strip()` truthiness, ASCII `str.lower` and `str(n)` for integers.
 */
module Strings {

  /** The characters Python's `str.split()` and `str.strip()` treat as whitespace. */
  predicate IsSpace(c: char) {
    || c == ' '
    || ('\t' <= c <= '\r')
    || ('\U{1c}' <= c <= '\U{1f}')
    || c == '\U{85}' || c == '\U{a0}' || c == '\U{1680}'
    || ('\U{2000}' <= c <= '\U{200a}')
    || c == '\U{2028}' || c == '\U{2029}' || c == '\U{202f}' || c == '\U{205f}' || c == '\U{3000}'
  }

  predicate NoSpace(s: string) {
    forall i :: 0 <= i < |s| ==> !IsSpace(s[i])
  }

  /** A word as `str.split()` produces it: non-empty, without whitespace. */
  predicate IsWord(w: string) {
    |w| > 0 && NoSpace(w)
  }

  predicate AllWords(ws: seq<string>) {
    forall i :: 0 <= i < |ws| ==> IsWord(ws[i])
  }

  /** `s.strip() != ""`: the string holds a character that is not whitespace. */
  predicate IsBlank(s: string) {
    forall i :: 0 <= i < |s| ==> IsSpace(s[i])
  }

  /** Length of the run of non-whitespace characters at the start of `s`. */
  function LeadingRun(s: string): (k: nat)
    ensures k <= |s|
    ensures NoSpace(s[..k])
    ensures k < |s| ==> IsSpace(s[k])
  {
    if |s| == 0 || IsSpace(s[0]) then 0
    else
      var k := LeadingRun(s[1..]);
      assert s[..k + 1] == [s[0]] + s[1..][..k];
      1 + k
  }

  /** `s.split()`: the maximal runs of non-whitespace characters, in order. */
  function Words(s: string): (ws: seq<string>)
    decreases |s|
  {
    if |s| == 0 then []
    else if IsSpace(s[0]) then Words(s[1..])
    else
      var k := LeadingRun(s);
      [s[..k]] + Words(s[k..])
  }

  /** `" ".join(ws)`. */
  function JoinSpace(ws: seq<string>): string
  {
    if |ws| == 0 then ""
    else if |ws| == 1 then ws[0]
    else ws[0] + " " + JoinSpace(ws[1..])
  }

  lemma {:induction false} WordsAreWords(s: string)
    ensures AllWords(Words(s))
    decreases |s|
  {
    if |s| == 0 {
    } else if IsSpace(s[0]) {
      WordsAreWords(s[1..]);
    } else {
      var k := LeadingRun(s);
      WordsAreWords(s[k..]);
    }
  }

  lemma {:induction false} WordsOfBlank(s: string)
    requires IsBlank(s)
    ensures Words(s) == []
    decreases |s|
  {
    if |s| > 0 {
      WordsOfBlank(s[1..]);
    }
  }

  lemma {:induction false} WordsOfLeadingSpaces(s: string, t: string)
    requires IsBlank(s)
    ensures Words(s + t) == Words(t)
    decreases |s|
  {
    if |s| > 0 {
      assert (s + t)[0] == s[0];
      assert (s + t)[1..] == s[1..] + t;
      WordsOfLeadingSpaces(s[1..], t);
    } else {
      assert s + t == t;
    }
  }

  /** The run-length of a word followed by a space is the word's length. */
  lemma LeadingRunOfWord(w: string, t: string)
    requires NoSpace(w)
    requires |t| > 0 && IsSpace(t[0])
    ensures LeadingRun(w + t) == |w|
    decreases |w|
  {
    if |w| > 0 {
      assert (w + t)[1..] == w[1..] + t;
      LeadingRunOfWord(w[1..], t);
    } else {
      assert w + t == t;
    }
  }

  lemma LeadingRunOfWhole(w: string)
    requires NoSpace(w)
    ensures LeadingRun(w) == |w|
    decreases |w|
  {
    if |w| > 0 {
      LeadingRunOfWhole(w[1..]);
    }
  }

  /** Splitting a space-joined list of words gives back the words. */
  lemma {:induction false} WordsOfJoin(ws: seq<string>)
    requires AllWords(ws)
    ensures Words(JoinSpace(ws)) == ws
    decreases |ws|
  {
    if |ws| == 0 {
    } else if |ws| == 1 {
      var w := ws[0];
      LeadingRunOfWhole(w);
      assert w[..|w|] == w;
      assert w[|w|..] == [];
    } else {
      var w, rest := ws[0], JoinSpace(ws[1..]);
      var s := w + " " + rest;
      assert s == w + (" " + rest);
      LeadingRunOfWord(w, " " + rest);
      assert s[..|w|] == w;
      assert s[|w|..] == " " + rest;
      assert (" " + rest)[1..] == rest;
      WordsOfJoin(ws[1..]);
    }
  }

  /** A space-joined list of words neither starts nor ends with whitespace. */
  lemma {:induction false} JoinTrimmed(ws: seq<string>)
    requires AllWords(ws)
    ensures |ws| == 0 <==> JoinSpace(ws) == ""
    ensures |ws| > 0 ==> !IsSpace(JoinSpace(ws)[0]) && !IsSpace(JoinSpace(ws)[|JoinSpace(ws)| - 1])
    decreases |ws|
  {
    if |ws| > 1 {
      JoinTrimmed(ws[1..]);
      var s := JoinSpace(ws);
      assert s == ws[0] + " " + JoinSpace(ws[1..]);
      assert s[0] == ws[0][0];
      assert s[|s| - 1] == JoinSpace(ws[1..])[|JoinSpace(ws[1..])| - 1];
    }
  }

  /** ASCII lower-casing of one character. */
  function LowerChar(c: char): char
  {
    if 'A' <= c <= 'Z' then (c as int - 'A' as int + 'a' as int) as char else c
  }

  /** `s.lower()`, restricted to ASCII letters. */
  function Lower(s: string): (r: string)
    ensures |r| == |s|
    ensures forall i :: 0 <= i < |s| ==> r[i] == LowerChar(s[i])
  {
    seq(|s|, i requires 0 <= i < |s| => LowerChar(s[i]))
  }

  predicate StartsWith(s: string, prefix: string) {
    |prefix| <= |s| && s[..|prefix|] == prefix
  }

  /** `s.replace(target, repl)`: every non-overlapping occurrence, scanned left to right. */
  function Replace(s: string, target: string, repl: string): string
    requires |target| > 0
    decreases |s|
  {
    if |s| < |target| then s
    else if s[..|target|] == target then repl + Replace(s[|target|..], target, repl)
    else [s[0]] + Replace(s[1..], target, repl)
  }

  /** `s.split(sep)` for a one-character separator: always at least one piece. */
  function SplitOn(s: string, sep: char): (pieces: seq<string>)
    ensures |pieces| >= 1
    ensures forall i, j :: 0 <= i < |pieces| && 0 <= j < |pieces[i]| ==> pieces[i][j] != sep
  {
    if |s| == 0 then [""]
    else if s[0] == sep then [""] + SplitOn(s[1..], sep)
    else
      var r := SplitOn(s[1..], sep);
      [[s[0]] + r[0]] + r[1..]
  }

  /** `sep.join(pieces)` for a one-character separator. */
  function JoinOn(pieces: seq<string>, sep: char): string
  {
    if |pieces| == 0 then ""
    else if |pieces| == 1 then pieces[0]
    else pieces[0] + [sep] + JoinOn(pieces[1..], sep)
  }

  /** Splitting loses nothing: joining the pieces back gives the original text. */
  lemma {:induction false} JoinSplitOn(s: string, sep: char)
    ensures JoinOn(SplitOn(s, sep), sep) == s
    decreases |s|
  {
    if |s| == 0 {
    } else if s[0] == sep {
      JoinSplitOn(s[1..], sep);
      assert s == [] + [sep] + s[1..];
    } else {
      var r := SplitOn(s[1..], sep);
      JoinSplitOn(s[1..], sep);
      if |r| == 1 {
        assert s == [s[0]] + s[1..];
      } else {
        assert JoinOn(r, sep) == r[0] + [sep] + JoinOn(r[1..], sep);
        assert s == [s[0]] + s[1..];
      }
    }
  }

  /** A text without the separator is a single piece. */
  lemma {:induction false} SplitOnWithout(s: string, sep: char)
    requires forall i :: 0 <= i < |s| ==> s[i] != sep
    ensures SplitOn(s, sep) == [s]
    decreases |s|
  {
    if |s| > 0 {
      SplitOnWithout(s[1..], sep);
      assert [s[0]] + s[1..] == s;
    }
  }

  /** The first separator ends the first piece. */
  lemma {:induction false} SplitOnFirst(a: string, sep: char, b: string)
    requires forall i :: 0 <= i < |a| ==> a[i] != sep
    ensures SplitOn(a + [sep] + b, sep) == [a] + SplitOn(b, sep)
    decreases |a|
  {
    var s := a + [sep] + b;
    if |a| == 0 {
      assert s[1..] == b;
    } else {
      assert s[1..] == a[1..] + [sep] + b;
      SplitOnFirst(a[1..], sep, b);
      assert [a[0]] + a[1..] == a;
    }
  }

  /** The first piece of a split begins with the text's first character, unless that is the separator. */
  lemma FirstPieceStartsWith(s: string, sep: char)
    requires |s| > 0 && s[0] != sep
    ensures |SplitOn(s, sep)[0]| > 0 && SplitOn(s, sep)[0][0] == s[0]
  {
  }

  // Decimal text of natural numbers, as `str(n)` prints it.

  predicate IsDigit(c: char) {
    '0' <= c <= '9'
  }

  predicate AllDigits(s: string) {
    forall i :: 0 <= i < |s| ==> IsDigit(s[i])
  }

  function DigitChar(d: nat): (c: char)
    requires d < 10
    ensures IsDigit(c)
  {
    ('0' as int + d) as char
  }

  function DigitValue(c: char): nat
    requires IsDigit(c)
  {
    c as int - '0' as int
  }

  /** `str(n)` for a natural number: no sign, no leading zero. */
  function NatToDecimal(n: nat): (s: string)
    decreases n
  {
    if n < 10 then [DigitChar(n)] else NatToDecimal(n / 10) + [DigitChar(n % 10)]
  }

  /** `int(s)` for a non-empty string of ASCII digits. */
  function DecimalToNat(s: string): nat
    requires AllDigits(s)
  {
    if |s| == 0 then 0 else 10 * DecimalToNat(s[..|s| - 1]) + DigitValue(s[|s| - 1])
  }

  lemma {:induction false} NatToDecimalShape(n: nat)
    ensures |NatToDecimal(n)| > 0 && AllDigits(NatToDecimal(n))
    ensures NatToDecimal(n)[0] == '0' ==> n == 0
    decreases n
  {
    if n >= 10 {
      NatToDecimalShape(n / 10);
    }
  }

  lemma {:induction false} DecimalRoundTrip(n: nat)
    ensures AllDigits(NatToDecimal(n))
    ensures DecimalToNat(NatToDecimal(n)) == n
    decreases n
  {
    NatToDecimalShape(n);
    if n >= 10 {
      var s := NatToDecimal(n);
      DecimalRoundTrip(n / 10);
      assert s[..|s| - 1] == NatToDecimal(n / 10);
    }
  }

  /** `str(i)` for a Python int. */
  function IntToString(i: int): string
  {
    if i < 0 then "-" + NatToDecimal(-i) else NatToDecimal(i)
  }
}
