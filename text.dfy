/** The string operations the solvers and the front-end rely on: Python's
    `str.split`, `str.strip`, `in` and `int()`, C's `%d`, and the text a run of
    `printf("...\n")` calls leaves on a stream. */
module Text {
  import opened Wrappers

  // ---------------------------------------------------------------- split / join

  /** `s.split(sep)` for a one-character separator: never empty, and no piece
      holds the separator. */
  function Split(s: string, sep: char): (parts: seq<string>)
    ensures |parts| >= 1
  {
    if |s| == 0 then [""]
    else
      var rest := Split(s[1..], sep);
      if s[0] == sep then [""] + rest else [[s[0]] + rest[0]] + rest[1..]
  }

  /** No piece of a split holds the separator, and there is more than one piece
      exactly when the separator occurs. */
  lemma {:induction false} SplitPieces(s: string, sep: char)
    ensures forall k | 0 <= k < |Split(s, sep)| :: sep !in Split(s, sep)[k]
    ensures |Split(s, sep)| == 1 <==> sep !in s
  {
    if |s| > 0 {
      SplitPieces(s[1..], sep);
      var rest := Split(s[1..], sep);
      if s[0] != sep {
        assert forall k | 1 <= k < |Split(s, sep)| :: Split(s, sep)[k] == rest[k];
        assert Split(s, sep)[0] == [s[0]] + rest[0];
      } else {
        assert forall k | 1 <= k < |Split(s, sep)| :: Split(s, sep)[k] == rest[k - 1];
      }
      assert sep in s <==> s[0] == sep || sep in s[1..];
    }
  }

  /** `sep.join(parts)`. */
  function Join(parts: seq<string>, sep: char): string
  {
    if |parts| == 0 then ""
    else if |parts| == 1 then parts[0]
    else Join(parts[..|parts| - 1], sep) + [sep] + parts[|parts| - 1]
  }

  /** A character other than the separator that no part holds is not in the join. */
  lemma {:induction false} JoinAvoids(parts: seq<string>, sep: char, c: char)
    requires c != sep && forall k | 0 <= k < |parts| :: c !in parts[k]
    ensures c !in Join(parts, sep)
  {
    if |parts| > 1 {
      JoinAvoids(parts[..|parts| - 1], sep, c);
    }
  }

  /** Splitting at one separator splits the two sides independently. */
  lemma {:induction false} SplitConcat(x: string, y: string, sep: char)
    ensures Split(x + [sep] + y, sep) == Split(x, sep) + Split(y, sep)
  {
    if |x| == 0 {
      assert x + [sep] + y == [sep] + y;
      assert ([sep] + y)[1..] == y;
    } else {
      var s := x + [sep] + y;
      assert s[0] == x[0];
      assert s[1..] == x[1..] + [sep] + y;
      SplitConcat(x[1..], y, sep);
    }
  }

  /** Joining pieces free of the separator and splitting again gives the pieces back. */
  lemma {:induction false} SplitJoin(parts: seq<string>, sep: char)
    requires |parts| >= 1
    requires forall k | 0 <= k < |parts| :: sep !in parts[k]
    ensures Split(Join(parts, sep), sep) == parts
  {
    if |parts| > 1 {
      var init := parts[..|parts| - 1];
      SplitJoin(init, sep);
      SplitConcat(Join(init, sep), parts[|parts| - 1], sep);
      SplitWhole(parts[|parts| - 1], sep);
      assert init + [parts[|parts| - 1]] == parts;
    } else {
      SplitWhole(parts[0], sep);
    }
  }

  lemma {:induction false} JoinPrepend(a: string, ps: seq<string>, sep: char)
    requires |ps| >= 1
    ensures Join([a] + ps, sep) == a + [sep] + Join(ps, sep)
    decreases |ps|
  {
    var qs := [a] + ps;
    if |ps| > 1 {
      assert qs[..|qs| - 1] == [a] + ps[..|ps| - 1];
      JoinPrepend(a, ps[..|ps| - 1], sep);
    } else {
      assert qs[..|qs| - 1] == [a];
    }
  }

  /** Joining one more part: the first part stands alone, each later one
      follows a separator. */
  lemma JoinStep(parts: seq<string>, j: int, sep: char)
    requires 0 <= j < |parts|
    ensures Join(parts[..j + 1], sep) == if j == 0 then parts[0] else Join(parts[..j], sep) + [sep] + parts[j]
  {
    var ps := parts[..j + 1];
    assert ps[..|ps| - 1] == parts[..j];
  }

  /** Splitting and joining again gives the original text back. */
  lemma {:induction false} JoinSplit(s: string, sep: char)
    ensures Join(Split(s, sep), sep) == s
    decreases |s|
  {
    if |s| > 0 {
      JoinSplit(s[1..], sep);
      if s[0] == sep {
        JoinSplitAtSep(s, sep);
      } else {
        JoinSplitAtChar(s, sep);
      }
    }
  }

  /** The step of `JoinSplit` for a text that starts with the separator. */
  lemma JoinSplitAtSep(s: string, sep: char)
    requires |s| > 0 && s[0] == sep && Join(Split(s[1..], sep), sep) == s[1..]
    ensures Join(Split(s, sep), sep) == s
  {
    var rest := Split(s[1..], sep);
    assert Split(s, sep) == [""] + rest;
    JoinPrepend("", rest, sep);
    assert "" + [sep] + s[1..] == s;
  }

  /** The step of `JoinSplit` for a text that starts with another character. */
  lemma JoinSplitAtChar(s: string, sep: char)
    requires |s| > 0 && s[0] != sep && Join(Split(s[1..], sep), sep) == s[1..]
    ensures Join(Split(s, sep), sep) == s
  {
    var tail, rest := s[1..], Split(s[1..], sep);
    FirstAndRest(s);
    if |rest| == 1 {
      assert Split(s, sep) == [[s[0]] + rest[0]];
    } else {
      var first, more := [s[0]] + rest[0], rest[1..];
      assert Join(Split(s, sep), sep) == first + [sep] + Join(more, sep) by {
        assert Split(s, sep) == [first] + more;
        JoinPrepend(first, more, sep);
      }
      assert tail == rest[0] + [sep] + Join(more, sep) by {
        assert [rest[0]] + more == rest;
        JoinPrepend(rest[0], more, sep);
      }
      ConsAssoc(s[0], rest[0], sep, Join(more, sep));
    }
  }

  lemma FirstAndRest(s: string)
    requires |s| > 0
    ensures [s[0]] + s[1..] == s
  {
  }

  lemma ConsAssoc(c: char, x: string, sep: char, y: string)
    ensures [c] + x + [sep] + y == [c] + (x + [sep] + y)
  {
  }

  /** A text without the separator is a single piece. */
  lemma {:induction false} SplitWhole(s: string, sep: char)
    requires sep !in s
    ensures Split(s, sep) == [s]
    decreases |s|
  {
    if |s| > 0 {
      SplitWhole(s[1..], sep);
      assert [s[0]] + s[1..] == s;
    }
  }

  /** Counts the occurrences of `c` in `s`. */
  function Count(s: string, c: char): nat
  {
    if |s| == 0 then 0 else Count(s[..|s| - 1], c) + (if s[|s| - 1] == c then 1 else 0)
  }

  lemma {:induction false} CountConcat(a: string, b: string, c: char)
    ensures Count(a + b, c) == Count(a, c) + Count(b, c)
    decreases |b|
  {
    if |b| > 0 {
      assert (a + b)[..|a + b| - 1] == a + b[..|b| - 1];
      CountConcat(a, b[..|b| - 1], c);
    } else {
      assert a + b == a;
    }
  }

  lemma {:induction false} CountAbsent(s: string, c: char)
    requires c !in s
    ensures Count(s, c) == 0
    decreases |s|
  {
    if |s| > 0 {
      CountAbsent(s[..|s| - 1], c);
    }
  }

  /** Joining n pieces free of the separator writes exactly n - 1 separators. */
  lemma {:induction false} JoinCount(parts: seq<string>, sep: char)
    requires |parts| >= 1
    requires forall k | 0 <= k < |parts| :: sep !in parts[k]
    ensures Count(Join(parts, sep), sep) == |parts| - 1
  {
    var last := parts[|parts| - 1];
    CountAbsent(last, sep);
    if |parts| > 1 {
      var init := parts[..|parts| - 1];
      JoinCount(init, sep);
      CountConcat(Join(init, sep) + [sep], last, sep);
      CountConcat(Join(init, sep), [sep], sep);
      assert Count([sep], sep) == 1 by {
        assert [sep][..0] == [];
      }
    }
  }

  // ---------------------------------------------------------------- a stream of lines

  /** What a run of `printf("<line>\n")` calls writes: every line followed by a newline. */
  function Emit(lines: seq<string>): string
  {
    if |lines| == 0 then "" else Emit(lines[..|lines| - 1]) + lines[|lines| - 1] + "\n"
  }

  lemma EmitAppend(lines: seq<string>, line: string)
    ensures Emit(lines + [line]) == Emit(lines) + line + "\n"
  {
    assert (lines + [line])[..|lines|] == lines;
  }

  /** Reading back newline-free lines with `split('\n')`: the lines, then whatever
      follows the last newline. */
  lemma {:induction false} SplitEmit(lines: seq<string>, tail: string)
    requires forall k | 0 <= k < |lines| :: '\n' !in lines[k]
    requires '\n' !in tail
    ensures Split(Emit(lines) + tail, '\n') == lines + [tail]
  {
    if |lines| == 0 {
      assert Emit(lines) + tail == tail;
      SplitWhole(tail, '\n');
    } else {
      var init, last := lines[..|lines| - 1], lines[|lines| - 1];
      assert Emit(lines) + tail == (Emit(init) + last) + ['\n'] + tail;
      SplitConcat(Emit(init) + last, tail, '\n');
      SplitEmit(init, last);
      SplitWhole(tail, '\n');
      assert init + [last] == lines;
    }
  }

  // ---------------------------------------------------------------- substring test

  /** `t` occurs in `s` starting at index `k`. */
  predicate OccursAt(s: string, t: string, k: int)
  {
    0 <= k <= |s| - |t| && s[k..k + |t|] == t
  }

  /** Python's `t in s` for strings: `t` occurs somewhere in `s`. */
  predicate Contains(s: string, t: string)
  {
    exists k | 0 <= k <= |s| - |t| :: OccursAt(s, t, k)
  }

  predicate IsSuffix(t: string, s: string)
  {
    |t| <= |s| && s[|s| - |t|..] == t
  }

  /** In a line `a:b` whose only colon is the one shown, `key:` occurs exactly
      when `key` ends the text before the colon. */
  lemma KeyBeforeColon(a: string, b: string, key: string)
    requires ':' !in a && ':' !in b && ':' !in key
    ensures Contains(a + ":" + b, key + ":") <==> IsSuffix(key, a)
  {
    var s, t := a + ":" + b, key + ":";
    if Contains(s, t) {
      var k :| 0 <= k <= |s| - |t| && OccursAt(s, t, k);
      KeyOccurrence(a, b, key, k);
    }
    if IsSuffix(key, a) {
      var k := |a| - |key|;
      assert s[k..k + |t|] == a[k..] + ":";
      assert OccursAt(s, t, k);
    }
  }

  lemma KeyOccurrence(a: string, b: string, key: string, k: int)
    requires ':' !in a && ':' !in b && ':' !in key
    requires OccursAt(a + ":" + b, key + ":", k)
    ensures IsSuffix(key, a)
  {
    var s, t := a + ":" + b, key + ":";
    var p := k + |key|;
    assert s[p] == t[|key|];
    assert p == |a|;
    forall q | 0 <= q < |key| ensures a[|a| - |key| + q] == key[q] {
      assert s[k + q] == t[q];
    }
  }

  lemma ContainsChar(s: string, t: string, c: char)
    requires Contains(s, t) && c in t
    ensures c in s
  {
    var k :| 0 <= k <= |s| - |t| && OccursAt(s, t, k);
    var q :| 0 <= q < |t| && t[q] == c;
    assert s[k + q] == s[k..k + |t|][q];
  }

  // ---------------------------------------------------------------- strip

  /** The characters Python's `str.isspace()` accepts, which `strip()` removes. */
  predicate IsSpace(c: char)
  {
    c in {' ', '\t', '\n', '\r', '\U{000B}', '\U{000C}', '\U{001C}', '\U{001D}', '\U{001E}', '\U{001F}',
          '\U{0085}', '\U{00A0}', '\U{1680}', '\U{2000}', '\U{2001}', '\U{2002}', '\U{2003}', '\U{2004}',
          '\U{2005}', '\U{2006}', '\U{2007}', '\U{2008}', '\U{2009}', '\U{200A}', '\U{2028}', '\U{2029}',
          '\U{202F}', '\U{205F}', '\U{3000}'}
  }

  /** Neither end of `s` is white space. */
  predicate Trimmed(s: string)
  {
    |s| == 0 || (!IsSpace(s[0]) && !IsSpace(s[|s| - 1]))
  }

  /** How many white-space characters open `s`. */
  function LeadingSpaces(s: string): (n: nat)
    ensures n <= |s|
  {
    if |s| > 0 && IsSpace(s[0]) then 1 + LeadingSpaces(s[1..]) else 0
  }

  /** How many white-space characters close `s`. */
  function TrailingSpaces(s: string): (n: nat)
    ensures n <= |s|
  {
    if |s| > 0 && IsSpace(s[|s| - 1]) then 1 + TrailingSpaces(s[..|s| - 1]) else 0
  }

  /** `s.strip()`: what is left once white space is cut from both ends. */
  function Strip(s: string): (r: string)
    ensures |r| <= |s|
  {
    var t := s[LeadingSpaces(s)..];
    t[..|t| - TrailingSpaces(t)]
  }

  lemma {:induction false} LeadingSpacesCut(s: string)
    ensures forall k | 0 <= k < LeadingSpaces(s) :: IsSpace(s[k])
    ensures LeadingSpaces(s) == |s| || !IsSpace(s[LeadingSpaces(s)])
  {
    if |s| > 0 && IsSpace(s[0]) {
      LeadingSpacesCut(s[1..]);
      assert forall k | 1 <= k < LeadingSpaces(s) :: s[k] == s[1..][k - 1];
    }
  }

  lemma {:induction false} TrailingSpacesCut(s: string)
    ensures forall k | |s| - TrailingSpaces(s) <= k < |s| :: IsSpace(s[k])
    ensures TrailingSpaces(s) == |s| || !IsSpace(s[|s| - 1 - TrailingSpaces(s)])
  {
    if |s| > 0 && IsSpace(s[|s| - 1]) {
      var init := s[..|s| - 1];
      TrailingSpacesCut(init);
      assert forall k | 0 <= k < |init| :: init[k] == s[k];
    }
  }

  /** What `strip()` keeps has no white space at either end, is a slice of its
      input, and everything it cut is white space. */
  lemma StripCutsSpaces(s: string)
    ensures Trimmed(Strip(s))
    ensures exists lo, hi :: 0 <= lo <= hi <= |s| && Strip(s) == s[lo..hi]
              && (forall k | 0 <= k < lo :: IsSpace(s[k]))
              && (forall k | hi <= k < |s| :: IsSpace(s[k]))
  {
    var lo := LeadingSpaces(s);
    var t := s[lo..];
    var hi := lo + |t| - TrailingSpaces(t);
    LeadingSpacesCut(s);
    TrailingSpacesCut(t);
    assert Strip(s) == s[lo..hi];
    assert forall k | hi <= k < |s| :: s[k] == t[k - lo];
    if lo < hi {
      assert Strip(s)[0] == s[lo];
      assert Strip(s)[hi - lo - 1] == t[|t| - 1 - TrailingSpaces(t)];
    }
  }

  /** Text with no space at its ends survives `strip()` behind any run of spaces. */
  lemma {:induction false} StripPadded(pad: string, v: string)
    requires forall k | 0 <= k < |pad| :: IsSpace(pad[k])
    requires Trimmed(v)
    ensures Strip(pad + v) == v
  {
    PaddedLeading(pad, v);
    assert (pad + v)[|pad|..] == v;
    assert |v| > 0 ==> !IsSpace(v[|v| - 1]);
    assert v[..|v|] == v;
  }

  lemma {:induction false} PaddedLeading(pad: string, v: string)
    requires forall k | 0 <= k < |pad| :: IsSpace(pad[k])
    requires |v| == 0 || !IsSpace(v[0])
    ensures LeadingSpaces(pad + v) == |pad|
    decreases |pad|
  {
    if |pad| > 0 {
      assert (pad + v)[1..] == pad[1..] + v;
      PaddedLeading(pad[1..], v);
    } else {
      assert pad + v == v;
    }
  }

  // ---------------------------------------------------------------- integers as text

  predicate IsDigit(c: char)
  {
    '0' <= c <= '9'
  }

  function DigitChar(d: int): (c: char)
    requires 0 <= d < 10
    ensures IsDigit(c)
  {
    ('0' as int + d) as char
  }

  /** The decimal digits of `n`, without sign or leading zeros. */
  function NatToString(n: nat): (s: string)
    ensures |s| >= 1
    ensures forall k | 0 <= k < |s| :: IsDigit(s[k])
  {
    if n < 10 then [DigitChar(n)] else NatToString(n / 10) + [DigitChar(n % 10)]
  }

  /** C's `%d` and Python's `str(int)`. */
  function IntToString(n: int): (s: string)
    ensures |s| >= 1
    ensures forall k | 0 <= k < |s| :: IsDigit(s[k]) || (k == 0 && s[k] == '-')
  {
    if n < 0 then "-" + NatToString(-n) else NatToString(n)
  }

  /** The value of a string of decimal digits. */
  function DigitsValue(s: string): nat
    requires forall k | 0 <= k < |s| :: IsDigit(s[k])
  {
    if |s| == 0 then 0
    else
      assert IsDigit(s[|s| - 1]);
      10 * DigitsValue(s[..|s| - 1]) + (s[|s| - 1] as int - '0' as int)
  }

  lemma {:induction false} DigitsOfNat(n: nat)
    ensures DigitsValue(NatToString(n)) == n
  {
    if n >= 10 {
      DigitsOfNat(n / 10);
      var s := NatToString(n);
      assert s[..|s| - 1] == NatToString(n / 10);
    }
  }

  /** The information separators U+001C..U+001F. `isspace()` accepts them, but
      `int()` strips only the other white space, and they are not digits. */
  predicate IsSeparator(c: char)
  {
    '\U{001C}' <= c <= '\U{001F}'
  }

  /** Python's `int(s)` restricted to ASCII decimal text: one sign and ASCII
      digits, with white space other than the information separators around
      them. Everything else is `None` here, the error `int()` raises. Text
      holding a separator is rejected outright: a separator `strip()` would cut
      is one `int()` leaves in place, and one `strip()` keeps is not a digit.
      Python's `int()` also accepts underscores between digits and non-ASCII
      decimal digits, which this does not model. */
  function PyInt(s: string): Option<int>
  {
    var t := Strip(s);
    var signed := |t| > 0 && (t[0] == '-' || t[0] == '+');
    var digits := if signed then t[1..] else t;
    if exists k | 0 <= k < |s| :: IsSeparator(s[k]) then None
    else if |digits| == 0 || exists k | 0 <= k < |digits| :: !IsDigit(digits[k]) then None
    else
      var magnitude: int := DigitsValue(digits);
      if signed && t[0] == '-' then Some(-magnitude) else Some(magnitude)
  }

  lemma StripTrimmed(s: string)
    requires Trimmed(s)
    ensures Strip(s) == s
  {
    StripPadded("", s);
    assert "" + s == s;
  }

  /** `int()` reads back what `%d` / `str()` printed. */
  lemma {:induction false} IntRoundTrip(n: int)
    ensures PyInt(IntToString(n)) == Some(n)
  {
    if n < 0 {
      NegativeRoundTrip(n);
    } else {
      NaturalRoundTrip(n);
    }
  }

  /** `int()` skips white space other than the separators in front of a printed
      integer, and rejects a separator there. */
  lemma IntAfterSpace(pad: string, n: int)
    requires forall k | 0 <= k < |pad| :: IsSpace(pad[k])
    ensures PyInt(pad + IntToString(n)) == if exists k | 0 <= k < |pad| :: IsSeparator(pad[k]) then None else Some(n)
  {
    var s := IntToString(n);
    IntRoundTrip(n);
    IntTextPlain(n);
    assert Trimmed(s);
    StripPadded(pad, s);
    StripTrimmed(s);
    if exists k | 0 <= k < |pad| :: IsSeparator(pad[k]) {
      var k :| 0 <= k < |pad| && IsSeparator(pad[k]);
      assert (pad + s)[k] == pad[k];
    } else {
      forall k | 0 <= k < |pad + s| ensures !IsSeparator((pad + s)[k]) {
        if k >= |pad| {
          assert (pad + s)[k] == s[k - |pad|];
        }
      }
    }
  }

  lemma NaturalRoundTrip(n: nat)
    ensures PyInt(IntToString(n)) == Some(n)
  {
    var s := NatToString(n);
    assert IntToString(n) == s;
    assert Trimmed(s);
    StripTrimmed(s);
    assert s[0] != '-' && s[0] != '+';
    DigitsOfNat(n);
  }

  lemma NegativeRoundTrip(n: int)
    requires n < 0
    ensures PyInt(IntToString(n)) == Some(n)
  {
    var s := "-" + NatToString(-n);
    assert IntToString(n) == s;
    assert Trimmed(s);
    StripTrimmed(s);
    var digits := s[1..];
    assert digits == NatToString(-n);
    assert forall k | 0 <= k < |digits| :: IsDigit(digits[k]);
    DigitsOfNat(-n);
  }

  /** Printed integers hold neither a colon, a comma, a newline nor white space. */
  lemma IntTextPlain(n: int)
    ensures ':' !in IntToString(n) && ',' !in IntToString(n) && 'x' !in IntToString(n)
    ensures forall k | 0 <= k < |IntToString(n)| :: !IsSpace(IntToString(n)[k])
  {
    var s := IntToString(n);
    forall k | 0 <= k < |s| ensures s[k] != ':' && s[k] != ',' && s[k] != 'x' && !IsSpace(s[k]) {
    }
  }
}
