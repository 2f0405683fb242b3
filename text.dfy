/** Character and string helpers standing in for the Kotlin standard library calls the
    core uses: `String.split`, `joinToString`, `toInt`, `toUpperCase` and `Int.toString`. */
module Text {

  predicate IsDigit(c: char) { '0' <= c <= '9' }

  predicate AllDigits(s: string) { forall i :: 0 <= i < |s| ==> IsDigit(s[i]) }

  function DigitValue(c: char): (d: nat)
    requires IsDigit(c)
    ensures d <= 9
  {
    c as int - '0' as int
  }

  /** `String.toInt()` on a string of decimal digits. */
  function DecValue(s: string): nat
    requires AllDigits(s)
    decreases |s|
  {
    if s == [] then 0 else DecValue(s[..|s| - 1]) * 10 + DigitValue(s[|s| - 1])
  }

  function Pow10(k: nat): (p: nat)
    ensures p >= 1
  {
    if k == 0 then 1 else 10 * Pow10(k - 1)
  }

  /** A string of k digits denotes a number below 10^k. */
  lemma {:induction false} DecValueBound(s: string)
    requires AllDigits(s)
    ensures DecValue(s) < Pow10(|s|)
  {
    if s != [] {
      DecValueBound(s[..|s| - 1]);
    }
  }

  /** Positional expansion of a five-digit string. */
  lemma DecValueFive(s: string)
    requires AllDigits(s) && |s| == 5
    ensures DecValue(s) == 10000 * DigitValue(s[0]) + 1000 * DigitValue(s[1])
                           + 100 * DigitValue(s[2]) + 10 * DigitValue(s[3]) + DigitValue(s[4])
  {
    var s4, s3, s2, s1 := s[..4], s[..3], s[..2], s[..1];
    assert s4[..3] == s3 && s3[..2] == s2 && s2[..1] == s1 && s1[..0] == [];
    assert DecValue(s1) == DigitValue(s[0]);
    assert DecValue(s2) == DecValue(s1) * 10 + DigitValue(s[1]);
    assert DecValue(s3) == DecValue(s2) * 10 + DigitValue(s[2]);
    assert DecValue(s4) == DecValue(s3) * 10 + DigitValue(s[3]);
    assert DecValue(s) == DecValue(s4) * 10 + DigitValue(s[4]);
  }

  /** Positional expansion of a four-digit string. */
  lemma DecValueFour(s: string)
    requires AllDigits(s) && |s| == 4
    ensures DecValue(s) == 1000 * DigitValue(s[0]) + 100 * DigitValue(s[1])
                           + 10 * DigitValue(s[2]) + DigitValue(s[3])
  {
    var s3, s2, s1 := s[..3], s[..2], s[..1];
    assert s3[..2] == s2 && s2[..1] == s1 && s1[..0] == [];
    assert DecValue(s1) == DigitValue(s[0]);
    assert DecValue(s2) == DecValue(s1) * 10 + DigitValue(s[1]);
    assert DecValue(s3) == DecValue(s2) * 10 + DigitValue(s[2]);
    assert DecValue(s) == DecValue(s3) * 10 + DigitValue(s[3]);
  }

  /** Positional expansion of a string of at most three digits. */
  lemma DecValueShort(s: string)
    requires AllDigits(s) && 1 <= |s| <= 3
    ensures |s| == 1 ==> DecValue(s) == DigitValue(s[0])
    ensures |s| == 2 ==> DecValue(s) == 10 * DigitValue(s[0]) + DigitValue(s[1])
    ensures |s| == 3 ==> DecValue(s) == 100 * DigitValue(s[0]) + 10 * DigitValue(s[1]) + DigitValue(s[2])
  {
    assert s[..0] == [];
    if |s| >= 2 {
      assert s[..|s| - 1][..1] == s[..1];
      assert s[..1][..0] == [];
    }
    if |s| == 3 {
      assert s[..2][..1] == s[..1];
    }
  }

  /** Kotlin `String.split(d)` with a one-character delimiter: every piece between
      delimiters, empty pieces included, so there is always at least one piece. */
  function Split(s: string, d: char): (r: seq<string>)
    ensures |r| >= 1
    decreases |s|
  {
    if s == [] then [""]
    else
      var rest := Split(s[1..], d);
      if s[0] == d then [""] + rest else [[s[0]] + rest[0]] + rest[1..]
  }

  /** The inverse of `Split`: the pieces glued back with the delimiter. */
  function Join(pieces: seq<string>, d: char): string
    requires |pieces| >= 1
    decreases |pieces|
  {
    if |pieces| == 1 then pieces[0] else pieces[0] + [d] + Join(pieces[1..], d)
  }

  lemma JoinTwo(a: string, b: string, d: char)
    ensures Join([a, b], d) == a + [d] + b
  {
    assert [a, b][1..] == [b];
  }

  lemma JoinFour(a: string, b: string, c: string, e: string, d: char)
    ensures Join([a, b, c, e], d) == a + [d] + b + [d] + c + [d] + e
  {
    JoinTwo(c, e, d);
    assert [a, b, c, e][1..] == [b, c, e];
    assert [b, c, e][1..] == [c, e];
    assert Join([b, c, e], d) == b + [d] + Join([c, e], d);
  }

  /** No piece of a split contains the delimiter, and joining the pieces gives the input back. */
  lemma {:induction false} SplitJoin(s: string, d: char)
    ensures forall k :: 0 <= k < |Split(s, d)| ==> d !in Split(s, d)[k]
    ensures Join(Split(s, d), d) == s
  {
    if s != [] {
      SplitJoin(s[1..], d);
      var rest := Split(s[1..], d);
      if s[0] != d {
        var r := Split(s, d);
        assert r[1..] == rest[1..];
        if |rest| > 1 {
          assert Join(r, d) == [s[0]] + rest[0] + [d] + Join(rest[1..], d);
        }
      }
    }
  }

  /** Splitting a string free of the delimiter gives that string alone. */
  lemma {:induction false} SplitNoDelimiter(a: string, d: char)
    requires d !in a
    ensures Split(a, d) == [a]
  {
    if a != [] {
      SplitNoDelimiter(a[1..], d);
      assert [a[0]] + a[1..] == a;
    }
  }

  /** Splitting `a + [d] + b` where `a` is free of the delimiter peels `a` off as the first piece. */
  lemma {:induction false} SplitCons(a: string, d: char, b: string)
    requires d !in a
    ensures Split(a + [d] + b, d) == [a] + Split(b, d)
    decreases |a|
  {
    if a == [] {
      assert a + [d] + b == [d] + b;
      assert ([d] + b)[1..] == b;
    } else {
      assert (a + [d] + b)[1..] == a[1..] + [d] + b;
      SplitCons(a[1..], d, b);
      assert [a[0]] + a[1..] == a;
    }
  }

  /** Splitting the join of delimiter-free pieces gives the pieces back. */
  lemma {:induction false} JoinSplit(pieces: seq<string>, d: char)
    requires |pieces| >= 1
    requires forall k :: 0 <= k < |pieces| ==> d !in pieces[k]
    ensures Split(Join(pieces, d), d) == pieces
    decreases |pieces|
  {
    if |pieces| == 1 {
      SplitNoDelimiter(pieces[0], d);
    } else {
      JoinSplit(pieces[1..], d);
      SplitCons(pieces[0], d, Join(pieces[1..], d));
      assert [pieces[0]] + pieces[1..] == pieces;
    }
  }

  /** ASCII upper-casing of one character. */
  function UpperChar(c: char): char
  {
    if 'a' <= c <= 'z' then (c as int - 32) as char else c
  }

  /** `String.toUpperCase()` restricted to ASCII letters. */
  function ToUpper(s: string): (r: string)
    ensures |r| == |s|
    ensures forall i :: 0 <= i < |s| ==> r[i] == UpperChar(s[i])
  {
    seq(|s|, i requires 0 <= i < |s| => UpperChar(s[i]))
  }

  /** Comparing the upper-cased string with an upper-case word ignores case: each character
      equals the word's letter or is its lower-case form. */
  lemma {:induction false} ToUpperIsCaseInsensitive(s: string, w: string)
    requires forall i :: 0 <= i < |w| ==> 'A' <= w[i] <= 'Z'
    ensures ToUpper(s) == w <==>
      |s| == |w| && forall i :: 0 <= i < |w| ==> s[i] == w[i] || s[i] as int == w[i] as int + 32
  {
    if ToUpper(s) == w {
      forall i | 0 <= i < |w| ensures s[i] == w[i] || s[i] as int == w[i] as int + 32 {
        assert UpperChar(s[i]) == w[i];
      }
    }
    if |s| == |w| && forall i :: 0 <= i < |w| ==> s[i] == w[i] || s[i] as int == w[i] as int + 32 {
      forall i | 0 <= i < |w| ensures ToUpper(s)[i] == w[i] {
        assert UpperChar(s[i]) == w[i];
      }
    }
  }

  /** Decimal rendering of a natural number, as `String + Int` produces it. */
  function NatToString(n: nat): (r: string)
    ensures |r| >= 1
    decreases n
  {
    if n < 10 then [('0' as int + n) as char]
    else NatToString(n / 10) + [('0' as int + n % 10) as char]
  }

  /** Concatenation of a list of strings: `joinToString("")`, or appending each piece to a file. */
  function Concat(pieces: seq<string>): string
    decreases |pieces|
  {
    if pieces == [] then "" else pieces[0] + Concat(pieces[1..])
  }

  lemma {:induction false} ConcatAppend(a: seq<string>, b: seq<string>)
    ensures Concat(a + b) == Concat(a) + Concat(b)
    decreases |a|
  {
    if a == [] {
      assert a + b == b;
    } else {
      assert (a + b)[0] == a[0];
      assert (a + b)[1..] == a[1..] + b;
      ConcatAppend(a[1..], b);
    }
  }

  /** One list element rendered as `"item"`. */
  function Quote(s: string): string { "\"" + s + "\"" }

  /** `joinToString { "\"$it\"" }`: quoted items separated by ", ". */
  function JoinQuoted(items: seq<string>): string
    decreases |items|
  {
    if items == [] then ""
    else if |items| == 1 then Quote(items[0])
    else Quote(items[0]) + ", " + JoinQuoted(items[1..])
  }

  /** A quoted list in brackets, as both Terraform emitters and `toString` write lists. */
  function Bracketed(items: seq<string>): string { "[" + JoinQuoted(items) + "]" }
  /** The text of `appendln` applied to each line in turn. */
  function Unlines(lines: seq<string>): string
    decreases |lines|
  {
    if lines == [] then "" else lines[0] + "\n" + Unlines(lines[1..])
  }

  lemma {:induction false} UnlinesAppend(a: seq<string>, b: seq<string>)
    ensures Unlines(a + b) == Unlines(a) + Unlines(b)
    decreases |a|
  {
    if a == [] {
      assert a + b == b;
    } else {
      assert (a + b)[0] == a[0];
      assert (a + b)[1..] == a[1..] + b;
      UnlinesAppend(a[1..], b);
    }
  }

  /** Text written line by line splits back into its lines, followed by the empty
      remainder after the final line break, when no line holds a line break itself. */
  lemma {:induction false} SplitUnlines(lines: seq<string>)
    requires forall i :: 0 <= i < |lines| ==> '\n' !in lines[i]
    ensures Split(Unlines(lines), '\n') == lines + [""]
    decreases |lines|
  {
    if lines != [] {
      SplitUnlines(lines[1..]);
      assert Unlines(lines) == lines[0] + ['\n'] + Unlines(lines[1..]);
      SplitCons(lines[0], '\n', Unlines(lines[1..]));
      assert lines == [lines[0]] + lines[1..];
    }
  }

  /** A character that is neither in the pieces nor the delimiter is not in their join. */
  lemma {:induction false} JoinAvoids(pieces: seq<string>, d: char, c: char)
    requires |pieces| >= 1 && c != d
    requires forall k :: 0 <= k < |pieces| ==> c !in pieces[k]
    ensures c !in Join(pieces, d)
    decreases |pieces|
  {
    if |pieces| > 1 {
      JoinAvoids(pieces[1..], d, c);
    }
  }

  /** A character other than the quote, comma, space and brackets appears in a bracketed
      list only if it appears in an item. */
  lemma {:induction false} JoinQuotedAvoids(items: seq<string>, c: char)
    requires c != '"' && c != ',' && c != ' '
    requires forall i :: 0 <= i < |items| ==> c !in items[i]
    ensures c !in JoinQuoted(items)
    decreases |items|
  {
    if |items| > 1 {
      JoinQuotedAvoids(items[1..], c);
    }
  }

  lemma BracketedAvoids(items: seq<string>, c: char)
    requires c != '"' && c != ',' && c != ' ' && c != '[' && c != ']'
    requires forall i :: 0 <= i < |items| ==> c !in items[i]
    ensures c !in Bracketed(items)
  {
    JoinQuotedAvoids(items, c);
  }
}
