/**
 * The Python string operations the document helpers are built from:
 * `str.split` and `str.join` on a one-character separator, `str.replace`,
 * `str * int`, `str(n)` for a natural number, and the lexicographic order
 * `sorted` uses on strings.
 */
module PyStrings {

  /** The position of the last `c` in `s`. */
  function LastIndex(s: string, c: char): (i: nat)
    requires c in s
    ensures i < |s| && s[i] == c
    ensures c !in s[i + 1..]
  {
    if s[|s| - 1] == c then |s| - 1
    else
      assert s == s[..|s| - 1] + [s[|s| - 1]];
      var i := LastIndex(s[..|s| - 1], c);
      assert s[i + 1..] == s[..|s| - 1][i + 1..] + [s[|s| - 1]];
      i
  }

  /** `s.split(sep)`: the pieces between the separators, from left to right. */
  function Split(s: string, sep: char): (parts: seq<string>)
    ensures |parts| >= 1
    ensures forall k :: 0 <= k < |parts| ==> sep !in parts[k]
  {
    if sep !in s then [s]
    else
      var i := LastIndex(s, sep);
      Split(s[..i], sep) + [s[i + 1..]]
  }

  /** `sep.join(parts)` */
  function Join(parts: seq<string>, sep: char): string {
    if parts == [] then ""
    else if |parts| == 1 then parts[0]
    else Join(parts[..|parts| - 1], sep) + [sep] + parts[|parts| - 1]
  }

  /** Joining the pieces of a split gives the string back. */
  lemma {:induction false} JoinSplit(s: string, sep: char)
    ensures Join(Split(s, sep), sep) == s
  {
    if sep in s {
      var i := LastIndex(s, sep);
      var front := Split(s[..i], sep);
      JoinSplit(s[..i], sep);
      var parts := front + [s[i + 1..]];
      assert parts[..|parts| - 1] == front;
      assert s == s[..i] + [sep] + s[i + 1..];
    }
  }

  /** Splitting a join of separator-free pieces gives the pieces back. */
  lemma {:induction false} SplitJoin(parts: seq<string>, sep: char)
    requires |parts| >= 1
    requires forall k :: 0 <= k < |parts| ==> sep !in parts[k]
    ensures Split(Join(parts, sep), sep) == parts
  {
    if |parts| > 1 {
      var front := parts[..|parts| - 1];
      var last := parts[|parts| - 1];
      var s := Join(parts, sep);
      var j := |Join(front, sep)|;
      assert s == Join(front, sep) + [sep] + last;
      assert s[j] == sep;
      assert s[j + 1..] == last;
      assert LastIndex(s, sep) == j;
      assert s[..j] == Join(front, sep);
      SplitJoin(front, sep);
    }
  }

  /** The last piece of a split: everything after the last separator, or all of `s`. */
  lemma LastPiece(s: string, sep: char)
    ensures sep !in s ==> Split(s, sep)[|Split(s, sep)| - 1] == s
    ensures sep in s ==> Split(s, sep)[|Split(s, sep)| - 1] == s[LastIndex(s, sep) + 1..]
  {
  }

  /** All pieces but the last, joined: everything before the last separator. */
  lemma FrontPieces(s: string, sep: char)
    ensures sep !in s ==> Join(Split(s, sep)[..|Split(s, sep)| - 1], sep) == ""
    ensures sep in s ==> Join(Split(s, sep)[..|Split(s, sep)| - 1], sep) == s[..LastIndex(s, sep)]
  {
    if sep in s {
      var i := LastIndex(s, sep);
      var parts := Split(s, sep);
      assert parts[..|parts| - 1] == Split(s[..i], sep);
      JoinSplit(s[..i], sep);
    }
  }

  /**
   * `s.replace(pat, rep)` for a non-empty pattern: occurrences are found
   * left to right and do not overlap.
   */
  function Replace(s: string, pat: string, rep: string): string
    requires |pat| > 0
  {
    if |s| < |pat| then s
    else if s[..|pat|] == pat then rep + Replace(s[|pat|..], pat, rep)
    else [s[0]] + Replace(s[1..], pat, rep)
  }

  /** A prefix without the pattern's first character is copied unchanged. */
  lemma {:induction false} ReplaceSkips(s: string, t: string, pat: string, rep: string)
    requires |pat| > 0 && pat[0] !in s
    ensures Replace(s + t, pat, rep) == s + Replace(t, pat, rep)
  {
    if s == [] {
      assert s + t == t;
    } else {
      var u := s + t;
      if |u| < |pat| {
        assert Replace(t, pat, rep) == t;
      } else {
        assert u[..|pat|][0] == s[0];
        assert u[1..] == s[1..] + t;
        ReplaceSkips(s[1..], t, pat, rep);
        calc {
          Replace(u, pat, rep);
          [u[0]] + Replace(u[1..], pat, rep);
          [s[0]] + (s[1..] + Replace(t, pat, rep));
          { assert [s[0]] + s[1..] == s; }
          s + Replace(t, pat, rep);
        }
      }
    }
  }

  /** A string without the pattern's first character is left as it is. */
  lemma ReplaceNothing(s: string, pat: string, rep: string)
    requires |pat| > 0 && pat[0] !in s
    ensures Replace(s, pat, rep) == s
  {
    ReplaceSkips(s, [], pat, rep);
    assert s + [] == s;
  }

  /** `c * n` (Python string repetition): empty for n <= 0. */
  function Repeat(c: char, n: int): (r: string)
    ensures |r| == if n <= 0 then 0 else n
    ensures forall k :: 0 <= k < |r| ==> r[k] == c
  {
    if n <= 0 then "" else Repeat(c, n - 1) + [c]
  }

  /** Python's `<` on strings: lexicographic, a proper prefix first. */
  predicate Less(a: string, b: string) {
    if b == [] then false
    else if a == [] then true
    else if a[0] != b[0] then a[0] < b[0]
    else Less(a[1..], b[1..])
  }

  predicate IsDigits(s: string) {
    forall k :: 0 <= k < |s| ==> '0' <= s[k] <= '9'
  }

  function DigitChar(d: nat): char
    requires d < 10
  {
    (d + '0' as int) as char
  }

  /** `str(n)` */
  function NatToString(n: nat): (s: string)
    ensures |s| >= 1 && IsDigits(s)
  {
    if n < 10 then [DigitChar(n)] else NatToString(n / 10) + [DigitChar(n % 10)]
  }

  /** The number a digit string denotes. */
  function Value(s: string): nat
    requires IsDigits(s)
  {
    if s == [] then 0 else Value(s[..|s| - 1]) * 10 + (s[|s| - 1] as int - '0' as int)
  }

  function Pow10(k: nat): (p: nat)
    ensures p >= 1
  {
    if k == 0 then 1 else 10 * Pow10(k - 1)
  }

  /** A string of k digits denotes less than 10^k. */
  lemma {:induction false} ValueBound(s: string)
    requires IsDigits(s)
    ensures Value(s) < Pow10(|s|)
  {
    if s != [] {
      ValueBound(s[..|s| - 1]);
    }
  }

  /** The leading digit weighs 10^(number of digits after it). */
  lemma {:induction false} ValueFront(d: char, s: string)
    requires '0' <= d <= '9' && IsDigits(s)
    ensures IsDigits([d] + s)
    ensures Value([d] + s) == (d as int - '0' as int) * Pow10(|s|) + Value(s)
  {
    var u := [d] + s;
    if s != [] {
      var front := s[..|s| - 1];
      assert u[..|u| - 1] == [d] + front;
      ValueFront(d, front);
      var x, p, last := d as int - '0' as int, Pow10(|front|), s[|s| - 1] as int - '0' as int;
      assert Value(u) == (x * p + Value(front)) * 10 + last;
      assert Value(s) == Value(front) * 10 + last;
      ShiftDigit(x, p, Value(front), last);
    } else {
      assert u[..0] == [];
    }
  }

  /** Appending a digit multiplies the leading digit's weight by ten. */
  lemma ShiftDigit(x: int, p: int, v: int, last: int)
    ensures (x * p + v) * 10 + last == x * (10 * p) + (v * 10 + last)
  {
  }

  /** `str(n)` denotes n. */
  lemma {:induction false} ValueOfString(n: nat)
    ensures Value(NatToString(n)) == n
  {
    if n >= 10 {
      var s := NatToString(n);
      assert s[..|s| - 1] == NatToString(n / 10);
      ValueOfString(n / 10);
    } else {
      assert NatToString(n)[..0] == [];
    }
  }

  /** Leading zeros do not change the value. */
  lemma {:induction false} LeadingZeros(k: int, s: string)
    requires IsDigits(s)
    ensures IsDigits(Repeat('0', k) + s)
    ensures Value(Repeat('0', k) + s) == Value(s)
  {
    if k > 0 {
      assert Repeat('0', k) + s == ['0'] + (Repeat('0', k - 1) + s) by {
        RepeatFront('0', k);
      }
      LeadingZeros(k - 1, s);
      ValueFront('0', Repeat('0', k - 1) + s);
      calc {
        Value(Repeat('0', k) + s);
        Value(['0'] + (Repeat('0', k - 1) + s));
        0 * Pow10(|Repeat('0', k - 1) + s|) + Value(Repeat('0', k - 1) + s);
        Value(s);
      }
    } else {
      assert Repeat('0', k) + s == s;
    }
  }

  /** Repeat builds from the front as well as from the back. */
  lemma RepeatFront(c: char, n: int)
    requires n > 0
    ensures Repeat(c, n) == [c] + Repeat(c, n - 1)
  {
    assert forall k :: 0 <= k < n ==> Repeat(c, n)[k] == c;
  }

  /** On digit strings of equal length, string order is numeric order. */
  lemma {:induction false} LessIsNumeric(a: string, b: string)
    requires IsDigits(a) && IsDigits(b) && |a| == |b|
    ensures Less(a, b) <==> Value(a) < Value(b)
  {
    if a != [] {
      var ra, rb := a[1..], b[1..];
      assert a == [a[0]] + ra && b == [b[0]] + rb;
      ValueFront(a[0], ra);
      ValueFront(b[0], rb);
      ValueBound(ra);
      ValueBound(rb);
      var p := Pow10(|ra|);
      var x, y := a[0] as int - '0' as int, b[0] as int - '0' as int;
      if x < y {
        WeightedLess(x, y, p, Value(ra), Value(rb));
      } else if y < x {
        WeightedLess(y, x, p, Value(rb), Value(ra));
      } else {
        LessIsNumeric(ra, rb);
      }
    }
  }

  /** A smaller leading digit wins whatever follows it. */
  lemma WeightedLess(x: int, y: int, p: int, u: int, v: int)
    requires 0 <= x < y && 0 <= u < p && 0 <= v
    ensures x * p + u < y * p + v
  {
    assert (y - x) * p >= p by {
      assert (y - x) * p == p + (y - x - 1) * p;
    }
    assert y * p - x * p == (y - x) * p;
  }

  /** A smaller number never has more digits. */
  lemma {:induction false} DigitsMonotone(p: nat, n: nat)
    requires p <= n
    ensures |NatToString(p)| <= |NatToString(n)|
  {
    if p >= 10 {
      DigitsMonotone(p / 10, n / 10);
    }
  }
}
