/**
  Slug normalisation of a link target: `toLowerCase()`, then
  `.replace(/[_ ]+/g, '-')`, which turns every maximal run of spaces and
  underscores into a single hyphen.
 */
module Slug {
  import opened Strings

  /** The characters of the class `[_ ]`. */
  predicate IsSep(c: char) {
    c == ' ' || c == '_'
  }

  predicate NoSep(s: string) {
    forall i :: 0 <= i < |s| ==> !IsSep(s[i])
  }

  /** The length of the run of separators `s` starts with. */
  function SepRun(s: string): (n: nat)
    ensures n <= |s|
    ensures forall i :: 0 <= i < n ==> IsSep(s[i])
    ensures n == |s| || !IsSep(s[n])
    decreases |s|
  {
    if |s| > 0 && IsSep(s[0]) then 1 + SepRun(s[1..]) else 0
  }

  /** The global replacement of `[_ ]+` by `-`, scanning left to right. */
  function Collapse(s: string): (r: string)
    ensures |r| <= |s|
    decreases |s|
  {
    if |s| == 0 then ""
    else if IsSep(s[0]) then "-" + Collapse(s[SepRun(s)..])
    else [s[0]] + Collapse(s[1..])
  }

  /** `linkTarget.toLowerCase().replace(/[_ ]+/g, '-')` */
  function Slugify(target: string): (r: string)
    ensures NoSep(r)
    ensures |r| <= |target|
    ensures NoSep(target) ==> r == Lower(target)
  {
    CollapseNoSep(Lower(target));
    CollapseFixed(Lower(target));
    Collapse(Lower(target))
  }

  // ---------------------------------------------------------------------------
  // Properties
  // ---------------------------------------------------------------------------

  /** No space or underscore survives the replacement. */
  lemma {:induction false} CollapseNoSep(s: string)
    ensures NoSep(Collapse(s))
    decreases |s|
  {
    if |s| > 0 {
      if IsSep(s[0]) {
        CollapseNoSep(s[SepRun(s)..]);
      } else {
        CollapseNoSep(s[1..]);
      }
    }
  }

  /** The replacement changes a string exactly when it holds a space or an underscore. */
  lemma {:induction false} CollapseFixed(s: string)
    ensures Collapse(s) == s <==> NoSep(s)
    decreases |s|
  {
    CollapseNoSep(s);
    if |s| > 0 && NoSep(s) {
      CollapseFixed(s[1..]);
      assert s == [s[0]] + s[1..];
    }
  }

  /** The replacement only ever writes hyphens and characters of its input. */
  lemma {:induction false} CollapseChars(s: string)
    ensures forall i :: 0 <= i < |Collapse(s)| ==> Collapse(s)[i] == '-' || Collapse(s)[i] in s
    decreases |s|
  {
    if |s| > 0 {
      var k := if IsSep(s[0]) then SepRun(s) else 1;
      CollapseChars(s[k..]);
      assert forall c :: c in s[k..] ==> c in s;
    }
  }

  /** A leading run is not lengthened by what follows the first non-separator. */
  lemma {:induction false} SepRunAppend(x: string, y: string)
    requires SepRun(x) < |x|
    ensures SepRun(x + y) == SepRun(x)
    decreases |x|
  {
    if IsSep(x[0]) {
      SepRunAppend(x[1..], y);
      assert (x + y)[1..] == x[1..] + y;
    }
  }

  /** A run of separators in front of a string that does not start with one. */
  lemma {:induction false} SepRunOf(run: string, b: string)
    requires forall i :: 0 <= i < |run| ==> IsSep(run[i])
    requires |b| == 0 || !IsSep(b[0])
    ensures SepRun(run + b) == |run|
    decreases |run|
  {
    if |run| > 0 {
      SepRunOf(run[1..], b);
      assert (run + b)[1..] == run[1..] + b;
    } else {
      assert run + b == b;
    }
  }

  /**
    Each maximal run of separators, however long, becomes exactly one hyphen,
    and the text on either side of it is normalised on its own.
   */
  lemma {:induction false} CollapseRun(a: string, run: string, b: string)
    requires |a| == 0 || !IsSep(a[|a| - 1])
    requires |run| > 0 && forall i :: 0 <= i < |run| ==> IsSep(run[i])
    requires |b| == 0 || !IsSep(b[0])
    ensures Collapse(a + run + b) == Collapse(a) + "-" + Collapse(b)
    decreases |a|
  {
    Assoc(a, run, b);
    if |a| == 0 {
      RunFirst(run, b);
      assert a + (run + b) == run + b;
    } else if !IsSep(a[0]) {
      CollapseRun(a[1..], run, b);
      Assoc(a[1..], run, b);
      CharFirst(a, run + b, Collapse(b));
    } else {
      SepRunBefore(a);
      CollapseRun(a[SepRun(a)..], run, b);
      Assoc(a[SepRun(a)..], run, b);
      SepFirst(a, run + b, Collapse(b));
    }
  }

  lemma SepRunBefore(a: string)
    requires |a| > 0 && !IsSep(a[|a| - 1])
    ensures SepRun(a) < |a|
  {
  }

  lemma RunFirst(run: string, b: string)
    requires |run| > 0 && forall i :: 0 <= i < |run| ==> IsSep(run[i])
    requires |b| == 0 || !IsSep(b[0])
    ensures Collapse(run + b) == "-" + Collapse(b)
  {
    var s := run + b;
    SepRunOf(run, b);
    assert s[0] == run[0];
    assert s[|run|..] == b;
  }

  lemma CharFirst(a: string, y: string, cb: string)
    requires |a| > 0 && !IsSep(a[0])
    requires Collapse(a[1..] + y) == Collapse(a[1..]) + "-" + cb
    ensures Collapse(a + y) == Collapse(a) + "-" + cb
  {
    assert (a + y)[1..] == a[1..] + y;
  }

  lemma SepFirst(a: string, y: string, cb: string)
    requires |a| > 0 && IsSep(a[0]) && SepRun(a) < |a|
    requires Collapse(a[SepRun(a)..] + y) == Collapse(a[SepRun(a)..]) + "-" + cb
    ensures Collapse(a + y) == Collapse(a) + "-" + cb
  {
    SepRunAppend(a, y);
    assert (a + y)[SepRun(a)..] == a[SepRun(a)..] + y;
  }

  /**
    The slug of a target is made piecewise: a maximal run of spaces and
    underscores becomes one hyphen between the slugs of the text on either side.
   */
  lemma SlugifyRun(a: string, run: string, b: string)
    requires |a| == 0 || !IsSep(a[|a| - 1])
    requires |run| > 0 && forall i :: 0 <= i < |run| ==> IsSep(run[i])
    requires |b| == 0 || !IsSep(b[0])
    ensures Slugify(a + run + b) == Slugify(a) + "-" + Slugify(b)
  {
    LowerAppend(a + run, b);
    LowerAppend(a, run);
    assert Lower(run) == run;
    CollapseRun(Lower(a), run, Lower(b));
  }

  /** A slug is its own slug: it has no upper-case letter and no separator left. */
  lemma SlugIdempotent(target: string)
    ensures Slugify(Slugify(target)) == Slugify(target)
  {
    var l := Lower(target);
    var r := Collapse(l);
    CollapseChars(l);
    forall i | 0 <= i < |r| ensures LowerChar(r[i]) == r[i] {
      if r[i] != '-' {
        var k :| 0 <= k < |l| && l[k] == r[i];
      }
    }
    assert Lower(r) == r;
    CollapseFixed(r);
  }

  /** Without a pipe the target is not trimmed, so a leading space or underscore becomes a leading hyphen. */
  lemma LeadingSeparator(target: string)
    requires |target| > 0 && IsSep(target[0])
    ensures |Slugify(target)| > 0 && Slugify(target)[0] == '-'
  {
    assert Lower(target)[0] == target[0];
  }
}
