/** Strings with the meaning of the Python built-ins the add-on relies on:
    `str(int)`, `sep.join(...)`, `str.split(sep)`, `str.replace(old, new)`
    and `re.findall(r"\d+", s)` followed by `int(...)`. */
module Text {

  predicate IsDigit(c: char) { '0' <= c <= '9' }

  predicate AllDigits(s: string) { forall i :: 0 <= i < |s| ==> IsDigit(s[i]) }

  function DigitChar(d: nat): (c: char)
    requires d < 10
    ensures IsDigit(c) && c as int - '0' as int == d
  {
    (d + '0' as int) as char
  }

  function DigitValue(c: char): (d: nat)
    requires IsDigit(c)
    ensures d < 10 && DigitChar(d) == c
  {
    c as int - '0' as int
  }

  /** `str(n)` for a non-negative int: decimal digits, no leading zero. */
  function NatToString(n: nat): (s: string)
    ensures |s| > 0 && AllDigits(s)
    ensures (s[0] == '0') == (n == 0)
    decreases n
  {
    if n < 10 then [DigitChar(n)] else NatToString(n / 10) + [DigitChar(n % 10)]
  }

  /** `int(s)` for a string of ASCII digits. */
  function DecimalValue(s: string): nat
    requires AllDigits(s)
    decreases |s|
  {
    if s == [] then 0 else 10 * DecimalValue(s[..|s| - 1]) + DigitValue(s[|s| - 1])
  }

  /** `int(str(n)) == n`. */
  lemma {:induction false} DecimalValueOfNatToString(n: nat)
    ensures DecimalValue(NatToString(n)) == n
    decreases n
  {
    if n >= 10 {
      var s := NatToString(n);
      DecimalValueOfNatToString(n / 10);
      assert s[..|s| - 1] == NatToString(n / 10);
    }
  }

  lemma NatToStringInjective(m: nat, n: nat)
    ensures NatToString(m) == NatToString(n) ==> m == n
  {
    DecimalValueOfNatToString(m);
    DecimalValueOfNatToString(n);
  }

  /** `str(n)` for any int. */
  function IntToString(n: int): (s: string)
    ensures |s| > 0
    ensures (s[0] == '-') == (n < 0)
  {
    if n < 0 then "-" + NatToString(-n) else NatToString(n)
  }

  lemma IntToStringInjective(m: int, n: int)
    ensures IntToString(m) == IntToString(n) ==> m == n
  {
    if IntToString(m) == IntToString(n) {
      if m < 0 {
        assert IntToString(m)[1..] == NatToString(-m);
        assert IntToString(n)[1..] == NatToString(-n);
        NatToStringInjective(-m, -n);
      } else {
        NatToStringInjective(m, n);
      }
    }
  }

  /** `sep.join(str(x) for x in v)`. */
  function Render(v: seq<nat>, sep: char): (s: string)
    ensures forall i :: 0 <= i < |s| ==> IsDigit(s[i]) || s[i] == sep
    decreases |v|
  {
    if v == [] then ""
    else if |v| == 1 then NatToString(v[0])
    else NatToString(v[0]) + [sep] + Render(v[1..], sep)
  }

  /** The length of the run of digits that starts s (maximal: it stops at a non-digit). */
  function LeadingDigits(s: string): (k: nat)
    ensures k <= |s|
    ensures forall i :: 0 <= i < k ==> IsDigit(s[i])
    ensures k == |s| || !IsDigit(s[k])
    decreases |s|
  {
    if s == [] || !IsDigit(s[0]) then 0 else 1 + LeadingDigits(s[1..])
  }

  /** `[int(x) for x in re.findall(r"\d+", s)]`: the value of every maximal
      run of decimal digits of s, left to right. */
  function DigitRuns(s: string): (r: seq<nat>)
    ensures r == [] <==> forall i :: 0 <= i < |s| ==> !IsDigit(s[i])
    decreases |s|
  {
    if s == [] then []
    else if !IsDigit(s[0]) then
      assert forall i :: 1 <= i < |s| ==> s[i] == s[1..][i - 1];
      DigitRuns(s[1..])
    else
      var k := LeadingDigits(s);
      [DecimalValue(s[..k])] + DigitRuns(s[k..])
  }

  /** A digit run is exactly as long as its digits reach. */
  lemma {:induction false} LeadingDigitsExact(s: string, k: nat)
    requires k <= |s|
    requires forall i :: 0 <= i < k ==> IsDigit(s[i])
    requires k == |s| || !IsDigit(s[k])
    ensures LeadingDigits(s) == k
    decreases k
  {
    if k > 0 {
      LeadingDigitsExact(s[1..], k - 1);
    }
  }

  lemma DigitRunsSkip(c: char, t: string)
    requires !IsDigit(c)
    ensures DigitRuns([c] + t) == DigitRuns(t)
  {
    assert ([c] + t)[1..] == t;
  }

  /** A maximal run of digits at the front of s, leading zeros and all, is
      read as its decimal value. */
  lemma DigitRunsLeading(d: string, t: string)
    requires d != [] && AllDigits(d)
    requires t == [] || !IsDigit(t[0])
    ensures DigitRuns(d + t) == [DecimalValue(d)] + DigitRuns(t)
  {
    var s := d + t;
    LeadingDigitsExact(s, |d|);
    assert s[..|d|] == d;
    assert s[|d|..] == t;
  }

  /** A number written out and followed by a non-digit is read back as one run. */
  lemma DigitRunsNumber(n: nat, t: string)
    requires t == [] || !IsDigit(t[0])
    ensures DigitRuns(NatToString(n) + t) == [n] + DigitRuns(t)
  {
    var d := NatToString(n);
    var s := d + t;
    LeadingDigitsExact(s, |d|);
    var k := LeadingDigits(s);
    assert s[..k] == d;
    assert s[k..] == t;
    DecimalValueOfNatToString(n);
  }

  /** Reading the digit runs of `sep.join(map(str, v))` gives back v. */
  lemma {:induction false} DigitRunsOfRender(v: seq<nat>, sep: char)
    requires !IsDigit(sep)
    ensures DigitRuns(Render(v, sep)) == v
    decreases |v|
  {
    if v == [] {
    } else if |v| == 1 {
      DigitRunsNumber(v[0], "");
      assert NatToString(v[0]) + "" == NatToString(v[0]);
    } else {
      var rest := Render(v[1..], sep);
      DigitRunsOfRender(v[1..], sep);
      assert NatToString(v[0]) + [sep] + rest == NatToString(v[0]) + ([sep] + rest);
      DigitRunsNumber(v[0], [sep] + rest);
      DigitRunsSkip(sep, rest);
      assert v == [v[0]] + v[1..];
    }
  }

  /** The number of occurrences of c in s. */
  function Count(s: string, c: char): nat
    decreases |s|
  {
    if s == [] then 0 else (if s[0] == c then 1 else 0) + Count(s[1..], c)
  }

  /** `s.split(sep)` for a one-character separator. */
  function Split(s: string, sep: char): (parts: seq<string>)
    ensures |parts| == Count(s, sep) + 1
    ensures forall i :: 0 <= i < |parts| ==> sep !in parts[i]
    ensures sep !in s ==> parts == [s]
    decreases |s|
  {
    if s == [] then [""]
    else
      var rest := Split(s[1..], sep);
      if s[0] == sep then [""] + rest
      else
        assert s == [s[0]] + s[1..];
        [[s[0]] + rest[0]] + rest[1..]
  }

  /** `sep.join(parts)`. */
  function Join(parts: seq<string>, sep: char): string
    decreases |parts|
  {
    if parts == [] then ""
    else if |parts| == 1 then parts[0]
    else parts[0] + [sep] + Join(parts[1..], sep)
  }

  /** `sep.join(s.split(sep)) == s`. */
  lemma {:induction false} JoinSplit(s: string, sep: char)
    ensures Join(Split(s, sep), sep) == s
    decreases |s|
  {
    if s != [] {
      var rest := Split(s[1..], sep);
      JoinSplit(s[1..], sep);
      if s[0] == sep {
        assert ([""] + rest)[1..] == rest;
      } else {
        var parts := [[s[0]] + rest[0]] + rest[1..];
        if |rest| > 1 {
          assert parts[1..] == rest[1..];
          assert Join(rest, sep) == rest[0] + [sep] + Join(rest[1..], sep);
        }
      }
    }
  }

  /** Splitting at a first separator: the piece before it, then the split of the rest. */
  lemma {:induction false} SplitAround(a: string, b: string, sep: char)
    requires sep !in a
    ensures Split(a + [sep] + b, sep) == [a] + Split(b, sep)
    decreases |a|
  {
    var s := a + [sep] + b;
    if a == [] {
      assert s[1..] == b;
    } else {
      assert s[1..] == a[1..] + [sep] + b;
      SplitAround(a[1..], b, sep);
      assert [a[0]] + a[1..] == a;
    }
  }

  /** `s.split(sep)` of `sep.join(parts)` gives back the parts, when no part
      holds the separator. */
  lemma {:induction false} SplitJoin(parts: seq<string>, sep: char)
    requires parts != []
    requires forall i :: 0 <= i < |parts| ==> sep !in parts[i]
    ensures Split(Join(parts, sep), sep) == parts
    decreases |parts|
  {
    if |parts| > 1 {
      SplitJoin(parts[1..], sep);
      SplitAround(parts[0], Join(parts[1..], sep), sep);
      assert parts == [parts[0]] + parts[1..];
    }
  }

  /** In `sep.join(parts)`, with no separator inside a part, the character
      after each separator, and the first one, opens a part (or is another
      separator): none is c when no part opens with c. */
  lemma {:induction false} JoinOpeners(parts: seq<string>, sep: char, c: char)
    requires c != sep
    requires forall i :: 0 <= i < |parts| ==> sep !in parts[i]
    requires forall i :: 0 <= i < |parts| ==> parts[i] == [] || parts[i][0] != c
    ensures var s := Join(parts, sep);
      (|s| > 0 ==> s[0] != c) &&
      forall j :: 0 < j < |s| && s[j - 1] == sep ==> s[j] != c
    decreases |parts|
  {
    if |parts| > 1 {
      var a, rest := parts[0], Join(parts[1..], sep);
      JoinOpeners(parts[1..], sep, c);
      var s := Join(parts, sep);
      assert s == a + [sep] + rest;
      forall j | 0 < j < |s| && s[j - 1] == sep ensures s[j] != c {
        if j - 1 > |a| {
          assert s[j - 1] == rest[j - 1 - |a| - 1];
          assert s[j] == rest[j - |a| - 1];
        }
      }
    } else if |parts| == 1 {
      assert Join(parts, sep) == parts[0];
    }
  }

  /** pat occurs in s at index i. */
  predicate OccursAt(s: string, i: nat, pat: string) {
    i + |pat| <= |s| && s[i..i + |pat|] == pat
  }

  /** `s.replace(pat, rep)`: occurrences of pat found left to right, without overlap. */
  function Replace(s: string, pat: string, rep: string): string
    requires pat != []
    decreases |s|
  {
    if |s| < |pat| then s
    else if s[..|pat|] == pat then rep + Replace(s[|pat|..], pat, rep)
    else [s[0]] + Replace(s[1..], pat, rep)
  }

  /** Without an occurrence of pat, replace changes nothing. */
  lemma {:induction false} ReplaceAbsent(s: string, pat: string, rep: string)
    requires pat != []
    requires forall i: nat :: !OccursAt(s, i, pat)
    ensures Replace(s, pat, rep) == s
    decreases |s|
  {
    if |s| >= |pat| {
      assert !OccursAt(s, 0, pat);
      forall i: nat ensures !OccursAt(s[1..], i, pat) {
        assert !OccursAt(s, i + 1, pat);
        if i + |pat| <= |s[1..]| {
          assert s[1..][i..i + |pat|] == s[i + 1..i + 1 + |pat|];
        }
      }
      ReplaceAbsent(s[1..], pat, rep);
    }
  }

  /** When the first occurrence of pat in x + pat + y is the one after x,
      replace keeps x, substitutes that occurrence and goes on with y. */
  lemma {:induction false} ReplaceFirst(x: string, y: string, pat: string, rep: string)
    requires pat != []
    requires forall i: nat :: i < |x| ==> !OccursAt(x + pat + y, i, pat)
    ensures Replace(x + pat + y, pat, rep) == x + rep + Replace(y, pat, rep)
    decreases |x|
  {
    var s := x + pat + y;
    if x == [] {
      assert s == pat + y;
      ReplaceAtStart(pat, y, rep);
    } else {
      assert !OccursAt(s, 0, pat);
      ReplaceSkipOne(s, pat, rep);
      assert s[1..] == x[1..] + pat + y;
      FirstAbsentAfterDrop(x, y, pat);
      ReplaceFirst(x[1..], y, pat, rep);
      assert [x[0]] + x[1..] == x;
    }
  }

  /** An occurrence at the start is replaced first. */
  lemma ReplaceAtStart(pat: string, y: string, rep: string)
    requires pat != []
    ensures Replace(pat + y, pat, rep) == rep + Replace(y, pat, rep)
  {
    var s := pat + y;
    assert s[..|pat|] == pat;
    assert s[|pat|..] == y;
  }

  /** Without an occurrence at the start, the first character is kept. */
  lemma ReplaceSkipOne(s: string, pat: string, rep: string)
    requires pat != [] && |pat| <= |s| && !OccursAt(s, 0, pat)
    ensures Replace(s, pat, rep) == [s[0]] + Replace(s[1..], pat, rep)
  {
  }

  /** Dropping the first character of x keeps pat out of the positions before it. */
  lemma FirstAbsentAfterDrop(x: string, y: string, pat: string)
    requires x != []
    requires forall i: nat :: i < |x| ==> !OccursAt(x + pat + y, i, pat)
    ensures forall i: nat :: i < |x| - 1 ==> !OccursAt(x[1..] + pat + y, i, pat)
  {
    var s := x + pat + y;
    assert s[1..] == x[1..] + pat + y;
    forall i: nat | i < |x| - 1 ensures !OccursAt(x[1..] + pat + y, i, pat) {
      assert !OccursAt(s, i + 1, pat);
      assert s[1..][i..i + |pat|] == s[i + 1..i + 1 + |pat|];
    }
  }
}
