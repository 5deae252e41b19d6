/** `re.match(r".+\d+.\d+.\d+.+", name)` of `_update_check`
    (mod_update/updatelib.py): the test that picks the installation file
    among a release's assets.  The pattern is a sequence of tokens, each a
    character class with or without `+`; `re.match` anchors the match at the
    start of the name and does not require it to reach the end. */
module Pattern {
  import Text

  /** `.` (any character but a newline) and `\d` (an ASCII digit). */
  datatype Class = AnyButNewline | Digit

  /** One character of the class, or with `repeat` one or more (`+`). */
  datatype Token = Token(cls: Class, repeat: bool)

  predicate Accepts(c: Class, ch: char) {
    match c
    case AnyButNewline => ch != '\n'
    case Digit => Text.IsDigit(ch)
  }

  /** Some way of matching the tokens starts at index i of s: the
      backtracking search of a regular-expression engine, which tries every
      length of a `+` run. */
  predicate MatchAt(ts: seq<Token>, s: string, i: nat)
    decreases |ts|, |s| - i
  {
    ts == [] ||
    (i < |s| && Accepts(ts[0].cls, s[i]) &&
      (MatchAt(ts[1..], s, i + 1) || (ts[0].repeat && MatchAt(ts, s, i + 1))))
  }

  /** The pattern's tails, last token first. */
  const Tail6: seq<Token> := [Token(AnyButNewline, true)]
  const Tail5: seq<Token> := [Token(Digit, true)] + Tail6
  const Tail4: seq<Token> := [Token(AnyButNewline, false)] + Tail5
  const Tail3: seq<Token> := [Token(Digit, true)] + Tail4
  const Tail2: seq<Token> := [Token(AnyButNewline, false)] + Tail3
  const Tail1: seq<Token> := [Token(Digit, true)] + Tail2

  /** `.+\d+.\d+.\d+.+` */
  const AssetPattern: seq<Token> := [Token(AnyButNewline, true)] + Tail1

  /** The asset's name is taken as the installation file. */
  predicate IsInstallFile(name: string) {
    MatchAt(AssetPattern, name, 0)
  }

  /** The same test read off the name directly: a digit at p after at least
      one character, any character, a run of digits up to m, any character,
      a digit, and one more character, all on the name's first line. */
  predicate Shape(s: string, p: nat, m: nat) {
    1 <= p && p + 2 < m && m + 3 <= |s| &&
    Text.IsDigit(s[p]) &&
    (forall i :: p + 2 <= i < m ==> Text.IsDigit(s[i])) &&
    Text.IsDigit(s[m + 1]) &&
    (forall i :: 0 <= i < m + 3 ==> s[i] != '\n')
  }

  predicate HasShape(s: string) {
    exists p: nat, m: nat | p < |s| && m < |s| :: Shape(s, p, m)
  }

  /** A `+` token matches a non-empty run of accepted characters, then the rest. */
  lemma {:induction false} RunMatches(t: Token, rest: seq<Token>, s: string, i: nat, j: nat)
    requires t.repeat && i < j <= |s|
    requires forall k :: i <= k < j ==> Accepts(t.cls, s[k])
    requires MatchAt(rest, s, j)
    ensures MatchAt([t] + rest, s, i)
    decreases j - i
  {
    assert ([t] + rest)[1..] == rest;
    if i + 1 < j {
      RunMatches(t, rest, s, i + 1, j);
    }
  }

  /** A single-character token matches one accepted character, then the rest. */
  lemma OneMatches(t: Token, rest: seq<Token>, s: string, i: nat)
    requires i < |s| && Accepts(t.cls, s[i]) && MatchAt(rest, s, i + 1)
    ensures MatchAt([t] + rest, s, i)
  {
    assert ([t] + rest)[1..] == rest;
  }

  /** Every match of a `+` token consumes a non-empty run, after which the
      rest matches. */
  lemma {:induction false} RunSplit(t: Token, rest: seq<Token>, s: string, i: nat) returns (j: nat)
    requires t.repeat && MatchAt([t] + rest, s, i)
    ensures i < j <= |s|
    ensures forall k :: i <= k < j ==> Accepts(t.cls, s[k])
    ensures MatchAt(rest, s, j)
    decreases |s| - i
  {
    assert ([t] + rest)[1..] == rest;
    if MatchAt(rest, s, i + 1) {
      j := i + 1;
    } else {
      j := RunSplit(t, rest, s, i + 1);
    }
  }

  /** Every match of a single-character token consumes one accepted character. */
  lemma OneSplit(t: Token, rest: seq<Token>, s: string, i: nat)
    requires !t.repeat && MatchAt([t] + rest, s, i)
    ensures i < |s| && Accepts(t.cls, s[i]) && MatchAt(rest, s, i + 1)
  {
    assert ([t] + rest)[1..] == rest;
  }

  /** The regular-expression test and the direct description agree. */
  lemma IsInstallFileShape(s: string)
    ensures IsInstallFile(s) <==> HasShape(s)
  {
    if HasShape(s) {
      var p: nat, m: nat :| Shape(s, p, m);
      ShapeMatches(s, p, m);
    }
    if IsInstallFile(s) {
      MatchShape(s);
    }
  }

  lemma ShapeMatches(s: string, p: nat, m: nat)
    requires Shape(s, p, m)
    ensures IsInstallFile(s)
  {
    assert MatchAt([], s, m + 3);
    assert Tail6 == [Token(AnyButNewline, true)] + [];
    RunMatches(Token(AnyButNewline, true), [], s, m + 2, m + 3);
    RunMatches(Token(Digit, true), Tail6, s, m + 1, m + 2);
    OneMatches(Token(AnyButNewline, false), Tail5, s, m);
    RunMatches(Token(Digit, true), Tail4, s, p + 2, m);
    OneMatches(Token(AnyButNewline, false), Tail3, s, p + 1);
    RunMatches(Token(Digit, true), Tail2, s, p, p + 1);
    RunMatches(Token(AnyButNewline, true), Tail1, s, 0, p);
  }

  lemma MatchShape(s: string)
    requires IsInstallFile(s)
    ensures HasShape(s)
  {
    var j1 := RunSplit(Token(AnyButNewline, true), Tail1, s, 0);
    var j2 := RunSplit(Token(Digit, true), Tail2, s, j1);
    OneSplit(Token(AnyButNewline, false), Tail3, s, j2);
    var j3 := RunSplit(Token(Digit, true), Tail4, s, j2 + 1);
    OneSplit(Token(AnyButNewline, false), Tail5, s, j3);
    var j4 := RunSplit(Token(Digit, true), Tail6, s, j3 + 1);
    assert Tail6 == [Token(AnyButNewline, true)] + [];
    var j5 := RunSplit(Token(AnyButNewline, true), [], s, j4);
    var p: nat, m: nat := j2 - 1, j3;
    forall i | 0 <= i < m + 3 ensures s[i] != '\n' {
      if i < j1 {
        assert Accepts(AnyButNewline, s[i]);
      } else if i < j2 {
        assert Accepts(Digit, s[i]);
      } else if i == j2 {
      } else if i < j3 {
        assert Accepts(Digit, s[i]);
      } else if i == j3 {
      } else if i < j4 {
        assert Accepts(Digit, s[i]);
      } else {
        assert Accepts(AnyButNewline, s[i]);
      }
    }
    assert Accepts(Digit, s[p]);
    assert Accepts(Digit, s[m + 1]);
    forall i | p + 2 <= i < m ensures Text.IsDigit(s[i]) {
      assert Accepts(Digit, s[i]);
    }
    assert Shape(s, p, m);
  }
}
