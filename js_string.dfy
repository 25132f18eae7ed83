/**
 * The JavaScript string built-ins that lib/supabase.ts relies on, restricted to
 * what the module needs: ASCII `toLowerCase`, `split` on a one-character
 * separator, `pop` on the resulting array, and the decimal rendering of a
 * non-negative integer inside a template literal.
 */
module JsString {

  // ---------------------------------------------------------------------------
  // toLowerCase (ASCII only)
  // ---------------------------------------------------------------------------

  predicate IsUpper(c: char) {
    'A' <= c <= 'Z'
  }

  function LowerChar(c: char): (l: char) {
    if IsUpper(c) then (c as int - 'A' as int + 'a' as int) as char else c
  }

  /**
   * `s.toLowerCase()`, restricted to the ASCII letters: every upper-case letter
   * becomes the letter 32 code points above it, everything else is kept, and
   * no upper-case letter is left.
   */
  function Lower(s: string): (r: string)
    ensures |r| == |s|
    ensures forall i :: 0 <= i < |s| && !IsUpper(s[i]) ==> r[i] == s[i]
    ensures forall i :: 0 <= i < |s| && IsUpper(s[i]) ==> r[i] as int == s[i] as int + 32 && 'a' <= r[i] <= 'z'
    ensures forall i :: 0 <= i < |r| ==> !IsUpper(r[i])
  {
    seq(|s|, i requires 0 <= i < |s| => LowerChar(s[i]))
  }

  /** Lower-casing twice is lower-casing once. */
  lemma LowerIdempotent(s: string)
    ensures Lower(Lower(s)) == Lower(s)
  {
  }

  /** Lower-casing works character by character, so it distributes over concatenation. */
  lemma LowerConcat(a: string, b: string)
    ensures Lower(a + b) == Lower(a) + Lower(b)
  {
  }

  /** Only letters are changed, so a character that is no letter occurs after lower-casing iff before. */
  lemma LowerKeepsNonLetter(s: string, c: char)
    requires !IsUpper(c) && !('a' <= c <= 'z')
    ensures c in s <==> c in Lower(s)
  {
    if c in s {
      var i :| 0 <= i < |s| && s[i] == c;
      assert Lower(s)[i] == c;
    }
    if c in Lower(s) {
      var i :| 0 <= i < |Lower(s)| && Lower(s)[i] == c;
      assert s[i] == c;
    }
  }

  // ---------------------------------------------------------------------------
  // split on a one-character separator, and its inverse join
  // ---------------------------------------------------------------------------

  /** How many times c occurs in s. */
  function Occurrences(s: string, c: char): (n: nat)
    ensures n == 0 <==> c !in s
  {
    if s == [] then 0 else (if s[0] == c then 1 else 0) + Occurrences(s[1..], c)
  }

  /**
   * `s.split(sep)` for a one-character separator: the maximal separator-free
   * pieces, in order. There is always one piece more than there are separators,
   * so the result is never empty (`"".split(sep)` is `[""]`).
   */
  function Split(s: string, sep: char): (parts: seq<string>)
    ensures |parts| > 0
  {
    if s == [] then [""] else Prepend(s[0], sep, Split(s[1..], sep))
  }

  /**
   * The pieces of [c] + t from the pieces of t: a separator opens a new empty
   * first piece, any other character joins the first piece.
   */
  function Prepend(c: char, sep: char, parts: seq<string>): (r: seq<string>)
    requires |parts| > 0
    ensures |r| > 0
  {
    if c == sep then [""] + parts else [[c] + parts[0]] + parts[1..]
  }

  /** Prepend only touches the first piece, so it commutes with appending pieces. */
  lemma PrependAppend(c: char, sep: char, front: seq<string>, back: seq<string>)
    requires |front| > 0
    ensures Prepend(c, sep, front + back) == Prepend(c, sep, front) + back
  {
    if c != sep {
      assert (front + back)[1..] == front[1..] + back;
    }
  }

  /** There is one piece more than there are separators. */
  lemma {:induction false} SplitCount(s: string, sep: char)
    ensures |Split(s, sep)| == Occurrences(s, sep) + 1
  {
    if s != [] {
      SplitCount(s[1..], sep);
    }
  }

  /** No piece holds the separator. */
  lemma {:induction false} SplitPiecesSepFree(s: string, sep: char)
    ensures forall i :: 0 <= i < |Split(s, sep)| ==> sep !in Split(s, sep)[i]
  {
    if s != [] {
      SplitPiecesSepFree(s[1..], sep);
      var rest := Split(s[1..], sep);
      if s[0] != sep {
        assert Split(s, sep)[0] == [s[0]] + rest[0];
      }
    }
  }

  /** `parts.join(sep)`: the inverse of Split. */
  function Join(parts: seq<string>, sep: char): (s: string) {
    if |parts| == 0 then ""
    else if |parts| == 1 then parts[0]
    else parts[0] + [sep] + Join(parts[1..], sep)
  }

  /** The last element of a non-empty array, as `pop()` returns it: the array is the rest followed by it. */
  function Last<T>(xs: seq<T>): (x: T)
    requires |xs| > 0
    ensures x in xs
    ensures xs == xs[..|xs| - 1] + [x]
  {
    xs[|xs| - 1]
  }

  /** A string without the separator is a single piece. */
  lemma {:induction false} SplitNoSep(s: string, sep: char)
    requires sep !in s
    ensures Split(s, sep) == [s]
  {
    if s != [] {
      assert s[0] != sep && s == [s[0]] + s[1..];
      SplitNoSep(s[1..], sep);
    }
  }

  /** Splitting at one occurrence of the separator splits the two sides independently. */
  lemma {:induction false} SplitConcat(a: string, sep: char, b: string)
    ensures Split(a + [sep] + b, sep) == Split(a, sep) + Split(b, sep)
  {
    if a == [] {
      assert (a + [sep] + b)[1..] == b;
    } else {
      var t := a[1..] + [sep] + b;
      assert (a + [sep] + b)[1..] == t;
      SplitConcat(a[1..], sep, b);
      PrependAppend(a[0], sep, Split(a[1..], sep), Split(b, sep));
    }
  }

  /** Joining the pieces of a split gives back the original string. */
  lemma {:induction false} JoinSplit(s: string, sep: char)
    ensures Join(Split(s, sep), sep) == s
  {
    if s != [] {
      var rest := Split(s[1..], sep);
      JoinSplit(s[1..], sep);
      if s[0] == sep {
        assert Split(s, sep) == [""] + rest;
        assert ([""] + rest)[1..] == rest;
        assert s == [sep] + s[1..];
      } else {
        assert Split(s, sep) == [[s[0]] + rest[0]] + rest[1..];
        assert s == [s[0]] + s[1..];
        if |rest| == 1 {
          assert Join(rest, sep) == rest[0];
        } else {
          assert Join(rest, sep) == rest[0] + [sep] + Join(rest[1..], sep);
        }
      }
    }
  }

  /** Splitting a join of separator-free pieces gives back the pieces. */
  lemma {:induction false} SplitJoin(parts: seq<string>, sep: char)
    requires |parts| > 0
    requires forall p :: p in parts ==> sep !in p
    ensures Split(Join(parts, sep), sep) == parts
  {
    if |parts| == 1 {
      SplitNoSep(parts[0], sep);
    } else {
      var tail := Join(parts[1..], sep);
      assert Join(parts, sep) == parts[0] + [sep] + tail;
      SplitJoin(parts[1..], sep);
      SplitConcat(parts[0], sep, tail);
      SplitNoSep(parts[0], sep);
      assert parts == [parts[0]] + parts[1..];
    }
  }

  /** The first piece of a split is the text before the first separator. */
  lemma SplitFirst(a: string, sep: char, b: string)
    requires sep !in a
    ensures Split(a + [sep] + b, sep)[0] == a
    ensures Split(a + [sep] + b, sep)[1..] == Split(b, sep)
  {
    SplitConcat(a, sep, b);
    SplitNoSep(a, sep);
  }

  /** The last piece of a split is the text after the last separator. */
  lemma SplitLast(a: string, sep: char, b: string)
    requires sep !in b
    ensures Last(Split(a + [sep] + b, sep)) == b
  {
    SplitConcat(a, sep, b);
    SplitNoSep(b, sep);
  }

  // ---------------------------------------------------------------------------
  // Decimal rendering of a non-negative integer (`${n}` in a template literal)
  // ---------------------------------------------------------------------------

  predicate IsDigit(c: char) {
    '0' <= c <= '9'
  }

  function DigitChar(d: nat): (c: char)
    requires d < 10
    ensures IsDigit(c) && c as int - '0' as int == d
  {
    ('0' as int + d) as char
  }

  /**
   * The decimal numeral of n, most significant digit first, with no sign, no
   * leading zero and no exponent.
   */
  function Decimal(n: nat): (r: string)
    ensures |r| > 0
    ensures forall i :: 0 <= i < |r| ==> IsDigit(r[i])
    ensures r[0] != '0' || n == 0
  {
    if n < 10 then [DigitChar(n)] else Decimal(n / 10) + [DigitChar(n % 10)]
  }

  /** The value a string of decimal digits denotes. */
  function DecimalValue(s: string): (n: nat)
    requires forall i :: 0 <= i < |s| ==> IsDigit(s[i])
  {
    if s == [] then 0
    else
      var d := s[|s| - 1] as int - '0' as int;
      assert IsDigit(s[|s| - 1]);
      DecimalValue(s[..|s| - 1]) * 10 + d
  }

  /** Reading the numeral back gives the number: Decimal loses nothing. */
  lemma {:induction false} DecimalRoundTrip(n: nat)
    ensures DecimalValue(Decimal(n)) == n
  {
    if n >= 10 {
      DecimalRoundTrip(n / 10);
      var s := Decimal(n);
      assert s[..|s| - 1] == Decimal(n / 10);
    }
  }

  /** Distinct numbers have distinct numerals. */
  lemma DecimalInjective(m: nat, n: nat)
    requires Decimal(m) == Decimal(n)
    ensures m == n
  {
    DecimalRoundTrip(m);
    DecimalRoundTrip(n);
  }

  /** A numeral holds neither a '.' nor a '/' nor an '@'. */
  lemma DecimalHasNoPunctuation(n: nat)
    ensures '.' !in Decimal(n) && '/' !in Decimal(n) && '@' !in Decimal(n)
  {
  }
}
