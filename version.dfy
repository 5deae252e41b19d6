/** Release tags and Python's ordering of version tuples (mod_update/updatelib.py). */
module Version {
  import Text

  /** `_parse_tag`: the tag split at every '-', each part read as the tuple of
      its digit runs; a tag with no '-' is paired with (0, 0, 0).  The caller
      unpacks the result into (update version, Blender version), which only
      succeeds when there are exactly two parts. */
  function ParseTag(tag: string): (vers: seq<seq<nat>>)
    ensures |vers| >= 2
    ensures '-' !in tag ==> vers == [Text.DigitRuns(tag), [0, 0, 0]]
    ensures |vers| == 2 <==> Text.Count(tag, '-') <= 1
  {
    var vs := RunsOf(Text.Split(tag, '-'));
    if |vs| == 1 then [vs[0], [0, 0, 0]] else vs
  }

  /** Each part read as the tuple of its digit runs. */
  function RunsOf(parts: seq<string>): (vs: seq<seq<nat>>)
    ensures |vs| == |parts|
    ensures forall i :: 0 <= i < |parts| ==> vs[i] == Text.DigitRuns(parts[i])
  {
    if parts == [] then [] else [Text.DigitRuns(parts[0])] + RunsOf(parts[1..])
  }

  /** A tag with exactly one '-' gives the digit runs left and right of it. */
  lemma ParseTagOneDash(a: string, b: string)
    requires '-' !in a && '-' !in b
    ensures ParseTag(a + "-" + b) == [Text.DigitRuns(a), Text.DigitRuns(b)]
  {
    Text.SplitAround(a, b, '-');
  }

  /** Writing two versions as "X<sep>Y<sep>Z-A<sep>B<sep>C" and parsing gives them back. */
  lemma ParseTagOfRender(update: seq<nat>, blender: seq<nat>, sep: char)
    requires !Text.IsDigit(sep) && sep != '-'
    ensures ParseTag(Text.Render(update, sep) + "-" + Text.Render(blender, sep)) == [update, blender]
  {
    var u, b := Text.Render(update, sep), Text.Render(blender, sep);
    assert '-' !in u && '-' !in b;
    ParseTagOneDash(u, b);
    Text.DigitRunsOfRender(update, sep);
    Text.DigitRunsOfRender(blender, sep);
  }

  /** Writing one version without '-' and parsing gives it back with (0, 0, 0). */
  lemma ParseTagOfRenderAlone(update: seq<nat>, sep: char)
    requires !Text.IsDigit(sep) && sep != '-'
    ensures ParseTag(Text.Render(update, sep)) == [update, [0, 0, 0]]
  {
    var u := Text.Render(update, sep);
    assert '-' !in u;
    Text.DigitRunsOfRender(update, sep);
  }

  /** Python's `a < b` on tuples of ints: the first difference decides, and a
      proper prefix is smaller. */
  predicate Less(a: seq<nat>, b: seq<nat>)
    decreases |a|
  {
    b != [] && (a == [] || a[0] < b[0] || (a[0] == b[0] && Less(a[1..], b[1..])))
  }

  /** Python's `a <= b` on tuples of ints. */
  predicate LessEq(a: seq<nat>, b: seq<nat>) {
    a == b || Less(a, b)
  }

  lemma {:induction false} LessIrreflexive(a: seq<nat>)
    ensures !Less(a, a)
    decreases |a|
  {
    if a != [] {
      LessIrreflexive(a[1..]);
    }
  }

  lemma {:induction false} LessTransitive(a: seq<nat>, b: seq<nat>, c: seq<nat>)
    requires Less(a, b) && Less(b, c)
    ensures Less(a, c)
    decreases |a|
  {
    if a != [] && a[0] == b[0] && b[0] == c[0] {
      LessTransitive(a[1..], b[1..], c[1..]);
    }
  }

  /** Any two version tuples are ordered one way, or equal. */
  lemma {:induction false} LessTotal(a: seq<nat>, b: seq<nat>)
    ensures Less(a, b) || a == b || Less(b, a)
    decreases |a|
  {
    if a != [] && b != [] && a[0] == b[0] {
      LessTotal(a[1..], b[1..]);
      if a[1..] == b[1..] {
        assert a == [a[0]] + a[1..] && b == [b[0]] + b[1..];
      }
    }
  }

  lemma LessAsymmetric(a: seq<nat>, b: seq<nat>)
    ensures Less(a, b) ==> !Less(b, a)
  {
    if Less(a, b) && Less(b, a) {
      LessTransitive(a, b, a);
      LessIrreflexive(a);
    }
  }

  /** A proper prefix is smaller: (1, 2) < (1, 2, 0). */
  lemma {:induction false} PrefixLess(a: seq<nat>, b: seq<nat>)
    requires |a| < |b| && a == b[..|a|]
    ensures Less(a, b)
    decreases |a|
  {
    if a != [] {
      assert a[1..] == b[1..][..|a| - 1];
      PrefixLess(a[1..], b[1..]);
    }
  }
}
