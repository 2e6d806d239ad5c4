/**
  The spreadsheet address codec: column numbers as bijective base-26 letters
  (1 -> "A", 26 -> "Z", 27 -> "AA") and addresses such as "B3", built from
  0-based (row, column) pairs the way `encode` and `write_areas` build them.
 */
module ColumnLetters {
  import opened Wrappers
  import opened Strings

  predicate IsUpper(c: char) {
    'A' <= c <= 'Z'
  }

  predicate AllUpper(s: string) {
    forall i :: 0 <= i < |s| ==> IsUpper(s[i])
  }

  function LetterOf(d: nat): (c: char)
    requires d < 26
    ensures IsUpper(c)
  {
    ('A' as int + d) as char
  }

  /** `IndexColumnConverter.parse_colindex(n)`: the column letters of column number `n >= 1`. */
  function ColLetters(n: nat): (s: string)
    requires n >= 1
    ensures |s| > 0 && AllUpper(s)
    decreases n
  {
    var q := (n - 1) / 26;
    if q == 0 then [LetterOf((n - 1) % 26)] else ColLetters(q) + [LetterOf((n - 1) % 26)]
  }

  /** The inverse: the column number spelled by a string of capital letters. */
  function ColNumber(s: string): nat
    requires AllUpper(s)
  {
    if |s| == 0 then 0 else 26 * ColNumber(s[..|s| - 1]) + (s[|s| - 1] as int - 'A' as int + 1)
  }

  /** Letters then number: every column number survives the round trip. */
  lemma {:induction false} ColNumberOfLetters(n: nat)
    requires n >= 1
    ensures ColNumber(ColLetters(n)) == n
    decreases n
  {
    var q := (n - 1) / 26;
    var s := ColLetters(n);
    if q > 0 {
      ColNumberOfLetters(q);
      assert s[..|s| - 1] == ColLetters(q);
    }
  }

  /** Number then letters: every non-empty string of capitals survives the round trip. */
  lemma {:induction false} ColLettersOfNumber(s: string)
    requires AllUpper(s) && |s| > 0
    ensures ColNumber(s) >= 1 && ColLetters(ColNumber(s)) == s
    decreases |s|
  {
    var p := s[..|s| - 1];
    var d := s[|s| - 1] as int - 'A' as int;
    var n := ColNumber(s);
    assert n - 1 == 26 * ColNumber(p) + d;
    assert (n - 1) / 26 == ColNumber(p) && (n - 1) % 26 == d;
    assert LetterOf(d) == s[|s| - 1];
    if |p| > 0 {
      ColLettersOfNumber(p);
      assert s == p + [s[|s| - 1]];
    } else {
      assert s == [s[|s| - 1]];
    }
  }

  /** The address text of 0-based cell (row, col): column letters, then the 1-based row number. */
  function Address(row: nat, col: nat): string
  {
    ColLetters(col + 1) + NatToDecimal(row + 1)
  }

  /** Length of the run of capitals at the start of `s`. */
  function LetterRun(s: string): (k: nat)
    ensures k <= |s| && AllUpper(s[..k])
    ensures k < |s| ==> !IsUpper(s[k])
  {
    if |s| == 0 || !IsUpper(s[0]) then 0
    else
      var k := LetterRun(s[1..]);
      assert s[..k + 1] == [s[0]] + s[1..][..k];
      1 + k
  }

  /** Reads an address such as "AB12" back into a 0-based (row, col) pair. */
  function ParseAddress(s: string): Option<(nat, nat)>
  {
    var k := LetterRun(s);
    var digits := s[k..];
    if k == 0 || |digits| == 0 || !AllDigits(digits) then None
    else if DecimalToNat(digits) == 0 then None
    else Some((DecimalToNat(digits) - 1, ColNumber(s[..k]) - 1))
  }

  lemma LetterRunOfLetters(letters: string, rest: string)
    requires AllUpper(letters)
    requires |rest| > 0 && !IsUpper(rest[0])
    ensures LetterRun(letters + rest) == |letters|
    decreases |letters|
  {
    if |letters| > 0 {
      assert (letters + rest)[1..] == letters[1..] + rest;
      LetterRunOfLetters(letters[1..], rest);
    } else {
      assert letters + rest == rest;
    }
  }

  /** Every address reads back as the cell it was built from. */
  lemma AddressRoundTrip(row: nat, col: nat)
    ensures ParseAddress(Address(row, col)) == Some((row, col))
  {
    var letters, digits := ColLetters(col + 1), NatToDecimal(row + 1);
    NatToDecimalShape(row + 1);
    DecimalRoundTrip(row + 1);
    ColNumberOfLetters(col + 1);
    LetterRunOfLetters(letters, digits);
    var s := Address(row, col);
    assert s[..|letters|] == letters;
    assert s[|letters|..] == digits;
  }
}
