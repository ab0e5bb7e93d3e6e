/** `SlugUtil.slugify`: turns a category name into a URL-friendly slug.

    The Java chain is: null gives ""; NFD-normalise and drop combining
    marks; lower-case; trim; replace every run of characters outside
    [a-z0-9] with one '-'; strip the leading and trailing dashes.  On ASCII
    input the normalisation step is the identity, and the model leaves it
    out. */
module SlugUtil {
  import opened Common
  import opened Text

  /** The characters `[a-z0-9]` that survive the replacement. */
  predicate IsSlugChar(c: char) {
    'a' <= c <= 'z' || '0' <= c <= '9'
  }

  /** The ASCII letters and digits, before lower-casing. */
  predicate IsAsciiAlnum(c: char) {
    'a' <= c <= 'z' || 'A' <= c <= 'Z' || '0' <= c <= '9'
  }

  /** The slug characters of `s`, in order: what the transformation keeps. */
  function Kept(s: string): (r: string)
    ensures |r| <= |s|
    ensures forall i :: 0 <= i < |r| ==> IsSlugChar(r[i])
  {
    if s == [] then []
    else (if IsSlugChar(s[0]) then [s[0]] else []) + Kept(s[1..])
  }

  /** A well-formed slug: alphabet `[a-z0-9-]`, no "--", no dash at either end. */
  predicate IsSlug(s: string) {
    && (forall i :: 0 <= i < |s| ==> IsSlugChar(s[i]) || s[i] == '-')
    && NoDoubleDash(s)
    && (s != [] ==> s[0] != '-' && s[|s| - 1] != '-')
  }

  predicate NoDoubleDash(s: string) {
    forall i :: 0 <= i < |s| - 1 ==> s[i] != '-' || s[i + 1] != '-'
  }

  /** Drops the run of characters outside `[a-z0-9]` at the front of `s`. */
  function SkipRun(s: string): (r: string)
    ensures |r| <= |s|
    ensures r == [] || IsSlugChar(r[0])
  {
    if s != [] && !IsSlugChar(s[0]) then SkipRun(s[1..]) else s
  }

  /** What `SkipRun` drops is a prefix with no slug character. */
  lemma {:induction false} SkipRunSuffix(s: string)
    ensures SkipRun(s) == s[|s| - |SkipRun(s)|..]
    ensures forall i :: 0 <= i < |s| - |SkipRun(s)| ==> !IsSlugChar(s[i])
  {
    if s != [] && !IsSlugChar(s[0]) {
      var r := SkipRun(s[1..]);
      assert SkipRun(s) == r;
      SkipRunSuffix(s[1..]);
      assert s[1..][|s| - 1 - |r|..] == s[|s| - |r|..];
      forall i | 1 <= i < |s| - |r|
        ensures !IsSlugChar(s[i])
      {
        assert s[i] == s[1..][i - 1];
      }
    } else {
      assert SkipRun(s) == s && s[0..] == s;
    }
  }

  /** `replaceAll("[^a-z0-9]+", "-")`: each maximal run of other characters
      becomes a single dash. */
  function Dashed(s: string): string
    decreases |s|
  {
    if s == [] then []
    else if IsSlugChar(s[0]) then [s[0]] + Dashed(s[1..])
    else "-" + Dashed(SkipRun(s[1..]))
  }

  /** The dash replacement gives only slug characters and single dashes,
      and starts with the input's first character when that is kept. */
  lemma {:induction false} DashedShape(s: string)
    ensures forall i :: 0 <= i < |Dashed(s)| ==> IsSlugChar(Dashed(s)[i]) || Dashed(s)[i] == '-'
    ensures NoDoubleDash(Dashed(s))
    ensures s != [] && IsSlugChar(s[0]) ==> Dashed(s) != [] && Dashed(s)[0] == s[0]
    decreases |s|
  {
    if s != [] {
      var r := Dashed(s);
      var rest := if IsSlugChar(s[0]) then s[1..] else SkipRun(s[1..]);
      var d := Dashed(rest);
      DashedShape(rest);
      if IsSlugChar(s[0]) {
        assert r == [s[0]] + d;
      } else {
        assert d != [] ==> d[0] == rest[0];
        assert r == "-" + d;
      }
      assert forall i :: 1 <= i < |r| ==> r[i] == d[i - 1];
    }
  }

  /** Removes the leading dashes: the `^-+` half of the final `replaceAll`. */
  function StripLeading(s: string): (r: string)
    ensures |r| <= |s| && r == s[|s| - |r|..]
    ensures forall i :: 0 <= i < |s| - |r| ==> s[i] == '-'
    ensures r == [] || r[0] != '-'
  {
    if s != [] && s[0] == '-' then
      var r := StripLeading(s[1..]);
      assert s[1..][|s| - 1 - |r|..] == s[|s| - |r|..];
      assert forall i :: 1 <= i < |s| - |r| ==> s[i] == s[1..][i - 1];
      r
    else s
  }

  /** Removes the trailing dashes: the `-+$` half of the final `replaceAll`. */
  function StripTrailing(s: string): (r: string)
    ensures |r| <= |s| && r == s[..|r|]
    ensures forall i :: |r| <= i < |s| ==> s[i] == '-'
    ensures r == [] || r[|r| - 1] != '-'
  {
    if s != [] && s[|s| - 1] == '-' then StripTrailing(s[..|s| - 1]) else s
  }

  /** `SlugUtil.slugify`; `None` is a null argument.  Every result is a
      well-formed slug, and a null input gives "". */
  function Slugify(input: Option<string>): (r: string)
    ensures IsSlug(r)
    ensures input.None? ==> r == []
  {
    match input
    case None => []
    case Some(s) =>
      var dashed := Dashed(Trim(Lower(s)));
      var t := StripTrailing(dashed);
      var r := StripLeading(t);
      DashedShape(Trim(Lower(s)));
      SliceKeepsSlugShape(dashed, |t| - |r|, |t|);
      assert r == dashed[|t| - |r|..|t|];
      r
  }

  /** The letters and digits of the lower-cased input survive, in order, and
      nothing else but single dashes between them. */
  lemma SlugifyKeepsAlnums(s: string)
    ensures Kept(Slugify(Some(s))) == Kept(Lower(s))
  {
    var dashed := Dashed(Trim(Lower(s)));
    KeptTrim(Lower(s));
    KeptDashed(Trim(Lower(s)));
    KeptStrip(dashed);
  }

  /** A well-formed slug is its own slug. */
  lemma SlugFixpoint(t: string)
    requires IsSlug(t)
    ensures Slugify(Some(t)) == t
  {
    LowerOfLower(t);
    TrimOfTrimmed(t);
    DashedFixpoint(t);
  }

  /** `slugify` is idempotent. */
  lemma SlugifyIdempotent(s: Option<string>)
    ensures Slugify(Some(Slugify(s))) == Slugify(s)
  {
    SlugFixpoint(Slugify(s));
  }

  /** The slug is empty exactly when the input has no ASCII letter or digit. */
  lemma SlugifyEmpty(s: string)
    ensures Slugify(Some(s)) == [] <==> forall i :: 0 <= i < |s| ==> !IsAsciiAlnum(s[i])
  {
    var r := Slugify(Some(s));
    SlugifyKeepsAlnums(s);
    if forall i :: 0 <= i < |s| ==> !IsAsciiAlnum(s[i]) {
      NoAlnumNothingKept(s);
      SlugWithoutKeptIsEmpty(r);
    } else {
      var i :| 0 <= i < |s| && IsAsciiAlnum(s[i]);
      AlnumIsKept(s, i);
    }
  }

  lemma NoAlnumNothingKept(s: string)
    requires forall i :: 0 <= i < |s| ==> !IsAsciiAlnum(s[i])
    ensures Kept(Lower(s)) == []
  {
    var l := Lower(s);
    assert forall i :: 0 <= i < |l| ==> !IsSlugChar(l[i]) by {
      forall i | 0 <= i < |l| ensures !IsSlugChar(l[i]) {
        assert l[i] == LowerChar(s[i]);
      }
    }
    NothingKept(l);
  }

  lemma AlnumIsKept(s: string, i: nat)
    requires i < |s| && IsAsciiAlnum(s[i])
    ensures Kept(Lower(s)) != []
  {
    var l := Lower(s);
    assert IsSlugChar(l[i]);
    if Kept(l) == [] {
      KeptEmptyNoSlugChar(l);
    }
  }

  lemma SlugWithoutKeptIsEmpty(r: string)
    requires IsSlug(r) && Kept(r) == []
    ensures r == []
  {
    KeptEmptyNoSlugChar(r);
  }

  /**
   * Two alphanumeric words joined by any run of other characters
   * (spaces, punctuation) slugify to the lower-cased words joined by a
   * single dash, as in "Winter Jacket" becoming "winter-jacket".
   */
  lemma SlugifyTwoWords(a: string, sep: string, b: string)
    requires a != [] && forall i :: 0 <= i < |a| ==> IsAsciiAlnum(a[i])
    requires sep != [] && forall i :: 0 <= i < |sep| ==> !IsAsciiAlnum(sep[i])
    requires b != [] && forall i :: 0 <= i < |b| ==> IsAsciiAlnum(b[i])
    ensures Slugify(Some(a + sep + b)) == Lower(a) + "-" + Lower(b)
  {
    LowerJoin(a, sep, b);
    AlnumWordLowers(a);
    AlnumWordLowers(b);
    SlugOfLoweredWords(Lower(a), sep, Lower(b));
  }

  /** The second copy's unit test: "Winter Jacket" becomes "winter-jacket". */
  lemma WinterJacketExample(s: string)
    requires s == "Winter Jacket"
    ensures Slugify(Some(s)) == "winter-jacket"
  {
    WinterJacketSplit(s);
    WinterJacketWords(s);
    WinterLower();
  }

  lemma WinterJacketSplit(s: string)
    requires s == "Winter Jacket"
    ensures s == "Winter" + " " + "Jacket"
  {
  }

  /**
   * Three alphanumeric words joined by runs of other characters slugify to
   * the lower-cased words joined by single dashes, as in
   * "Hello, World! @2026" becoming "hello-world-2026".
   */
  lemma SlugifyThreeWords(a: string, sep1: string, b: string, sep2: string, c: string)
    requires a != [] && forall i :: 0 <= i < |a| ==> IsAsciiAlnum(a[i])
    requires sep1 != [] && forall i :: 0 <= i < |sep1| ==> !IsAsciiAlnum(sep1[i])
    requires b != [] && forall i :: 0 <= i < |b| ==> IsAsciiAlnum(b[i])
    requires sep2 != [] && forall i :: 0 <= i < |sep2| ==> !IsAsciiAlnum(sep2[i])
    requires c != [] && forall i :: 0 <= i < |c| ==> IsAsciiAlnum(c[i])
    ensures Slugify(Some(a + sep1 + b + sep2 + c)) == Lower(a) + "-" + Lower(b) + "-" + Lower(c)
  {
    AlnumWordLowers(a);
    AlnumWordLowers(b);
    AlnumWordLowers(c);
    LowerJoinThree(a, sep1, b, sep2, c);
    SlugOfThreeLoweredWords(Lower(a), sep1, Lower(b), sep2, Lower(c));
  }

  lemma LowerJoinThree(a: string, sep1: string, b: string, sep2: string, c: string)
    requires forall i :: 0 <= i < |sep1| ==> !IsAsciiAlnum(sep1[i])
    requires forall i :: 0 <= i < |sep2| ==> !IsAsciiAlnum(sep2[i])
    ensures Lower(a + sep1 + b + sep2 + c) == Lower(a) + sep1 + (Lower(b) + sep2 + Lower(c))
  {
    assert a + sep1 + b + sep2 + c == a + sep1 + (b + sep2 + c);
    LowerJoin(a, sep1, b + sep2 + c);
    LowerJoin(b, sep2, c);
  }

  lemma SlugOfThreeLoweredWords(la: string, sep1: string, lb: string, sep2: string, lc: string)
    requires la != [] && forall i :: 0 <= i < |la| ==> IsSlugChar(la[i])
    requires sep1 != [] && forall i :: 0 <= i < |sep1| ==> !IsAsciiAlnum(sep1[i])
    requires lb != [] && forall i :: 0 <= i < |lb| ==> IsSlugChar(lb[i])
    requires sep2 != [] && forall i :: 0 <= i < |sep2| ==> !IsAsciiAlnum(sep2[i])
    requires lc != [] && forall i :: 0 <= i < |lc| ==> IsSlugChar(lc[i])
    ensures StripLeading(StripTrailing(Dashed(Trim(la + sep1 + (lb + sep2 + lc))))) == la + "-" + lb + "-" + lc
  {
    var l := la + sep1 + (lb + sep2 + lc);
    var d := la + "-" + (lb + "-" + lc);
    assert l[0] == la[0] && l[|l| - 1] == lc[|lc| - 1];
    assert d[0] == la[0] && d[|d| - 1] == lc[|lc| - 1];
    calc {
      StripLeading(StripTrailing(Dashed(Trim(l))));
      { TrimOfTrimmed(l); }
      StripLeading(StripTrailing(Dashed(l)));
      { DashedOfThreeWords(la, sep1, lb, sep2, lc); }
      StripLeading(StripTrailing(d));
      { assert StripTrailing(d) == d; }
      d;
      la + "-" + lb + "-" + lc;
    }
  }

  /** The first copy's unit test: "Hello, World! @2026" becomes
      "hello-world-2026". */
  lemma HelloWorldExample(s: string)
    requires s == "Hello, World! @2026"
    ensures Slugify(Some(s)) == "hello-world-2026"
  {
    HelloWorldSplit(s);
    HelloWorldWords(s);
    HelloWorldLower();
  }

  lemma HelloWorldSplit(s: string)
    requires s == "Hello, World! @2026"
    ensures s == "Hello" + ", " + "World" + "! @" + "2026"
  {
  }

  lemma HelloWorldWords(s: string)
    requires s == "Hello" + ", " + "World" + "! @" + "2026"
    ensures Slugify(Some(s)) == Lower("Hello") + "-" + Lower("World") + "-" + Lower("2026")
  {
    SlugifyThreeWords("Hello", ", ", "World", "! @", "2026");
  }

  lemma HelloWorldLower()
    ensures Lower("Hello") + "-" + Lower("World") + "-" + Lower("2026") == "hello-world-2026"
  {
    LowerHello();
    LowerWorld();
    Lower2026();
  }

  lemma LowerHello() ensures Lower("Hello") == "hello" { }
  lemma LowerWorld() ensures Lower("World") == "world" { }
  lemma Lower2026() ensures Lower("2026") == "2026" { }

  lemma WinterJacketWords(s: string)
    requires s == "Winter" + " " + "Jacket"
    ensures Slugify(Some(s)) == Lower("Winter") + "-" + Lower("Jacket")
  {
    SlugifyTwoWords("Winter", " ", "Jacket");
  }

  lemma WinterLower()
    ensures Lower("Winter") + "-" + Lower("Jacket") == "winter-jacket"
  {
    LowerWinter();
    LowerJacket();
  }

  lemma LowerWinter() ensures Lower("Winter") == "winter" { }
  lemma LowerJacket() ensures Lower("Jacket") == "jacket" { }

  // ---------------------------------------------------------------------
  // Helper lemmas about `Kept`

  lemma {:induction false} KeptAppend(a: string, b: string)
    ensures Kept(a + b) == Kept(a) + Kept(b)
  {
    if a == [] {
      assert a + b == b;
    } else {
      var h := if IsSlugChar(a[0]) then [a[0]] else [];
      calc {
        Kept(a + b);
        { assert (a + b)[0] == a[0]; }
        h + Kept((a + b)[1..]);
        { assert (a + b)[1..] == a[1..] + b; }
        h + Kept(a[1..] + b);
        { KeptAppend(a[1..], b); }
        h + (Kept(a[1..]) + Kept(b));
        (h + Kept(a[1..])) + Kept(b);
      }
    }
  }

  /** A string without slug characters keeps nothing. */
  lemma {:induction false} NothingKept(s: string)
    requires forall i :: 0 <= i < |s| ==> !IsSlugChar(s[i])
    ensures Kept(s) == []
  {
    if s != [] {
      NothingKept(s[1..]);
    }
  }

  /** A string that keeps nothing has no slug characters. */
  lemma {:induction false} KeptEmptyNoSlugChar(s: string)
    requires Kept(s) == []
    ensures forall i :: 0 <= i < |s| ==> !IsSlugChar(s[i])
  {
    if s != [] {
      KeptEmptyNoSlugChar(s[1..]);
      assert forall i :: 1 <= i < |s| ==> s[i] == s[1..][i - 1];
    }
  }

  /** Dropping a prefix without slug characters does not change what is kept. */
  lemma {:induction false} KeptDropPrefix(s: string, lo: nat)
    requires lo <= |s|
    requires forall i :: 0 <= i < lo ==> !IsSlugChar(s[i])
    ensures Kept(s[lo..]) == Kept(s)
  {
    if lo > 0 {
      assert s[1..][lo - 1..] == s[lo..];
      KeptDropPrefix(s[1..], lo - 1);
    }
  }

  /** Dropping a suffix without slug characters does not change what is kept. */
  lemma {:induction false} KeptDropSuffix(s: string, hi: nat)
    requires hi <= |s|
    requires forall i :: hi <= i < |s| ==> !IsSlugChar(s[i])
    ensures Kept(s[..hi]) == Kept(s)
  {
    if hi == 0 {
      NothingKept(s);
    } else {
      assert forall i :: hi - 1 <= i < |s| - 1 ==> s[1..][i] == s[i + 1];
      KeptDropSuffix(s[1..], hi - 1);
      assert s[..hi][0] == s[0];
      assert s[..hi][1..] == s[1..][..hi - 1];
    }
  }

  /** Removing characters that are not slug characters from either end of
      `s` does not change what is kept. */
  lemma KeptSlice(s: string, lo: nat, hi: nat)
    requires lo <= hi <= |s|
    requires forall i :: 0 <= i < lo ==> !IsSlugChar(s[i])
    requires forall i :: hi <= i < |s| ==> !IsSlugChar(s[i])
    ensures Kept(s[lo..hi]) == Kept(s)
  {
    var t := s[..hi];
    KeptDropSuffix(s, hi);
    forall i | 0 <= i < lo
      ensures !IsSlugChar(t[i])
    {
      assert t[i] == s[i];
    }
    KeptDropPrefix(t, lo);
    assert s[lo..hi] == t[lo..];
  }

  /** The dash replacement keeps every slug character, in order. */
  lemma {:induction false} KeptDashed(s: string)
    ensures Kept(Dashed(s)) == Kept(s)
    decreases |s|
  {
    if s != [] {
      if IsSlugChar(s[0]) {
        KeptDashed(s[1..]);
        assert ([s[0]] + Dashed(s[1..]))[1..] == Dashed(s[1..]);
      } else {
        var rest := SkipRun(s[1..]);
        SkipRunSuffix(s[1..]);
        KeptDashed(rest);
        KeptDropPrefix(s[1..], |s[1..]| - |rest|);
        assert ("-" + Dashed(rest))[1..] == Dashed(rest);
      }
    }
  }

  /** Trimming removes only characters at or below U+0020, none of which is kept. */
  lemma KeptTrim(s: string)
    ensures Kept(Trim(s)) == Kept(s)
  {
    var t := TrimStart(s);
    var u := TrimEnd(t);
    TrimStartSuffix(s);
    TrimEndPrefix(t);
    var lo := |s| - |t|;
    assert u == s[lo..lo + |u|];
    KeptSlice(s, lo, lo + |u|);
  }

  /** Stripping removes only dashes, none of which is kept. */
  lemma KeptStrip(s: string)
    ensures Kept(StripLeading(StripTrailing(s))) == Kept(s)
  {
    var t := StripTrailing(s);
    var u := StripLeading(t);
    var lo := |t| - |u|;
    assert u == s[lo..|t|];
    assert forall i :: 0 <= i < lo ==> s[i] == t[i] == '-';
    KeptSlice(s, lo, |t|);
  }

  /** A slice of a string over `[a-z0-9-]` without "--" keeps both properties. */
  lemma SliceKeepsSlugShape(s: string, lo: nat, hi: nat)
    requires lo <= hi <= |s|
    requires forall i :: 0 <= i < |s| ==> IsSlugChar(s[i]) || s[i] == '-'
    requires NoDoubleDash(s)
    ensures forall i :: 0 <= i < hi - lo ==> IsSlugChar(s[lo..hi][i]) || s[lo..hi][i] == '-'
    ensures NoDoubleDash(s[lo..hi])
  {
    var t := s[lo..hi];
    forall i | 0 <= i < |t| - 1 ensures t[i] != '-' || t[i + 1] != '-' {
      assert t[i] == s[lo + i] && t[i + 1] == s[lo + i + 1];
    }
  }

  /** A string over `[a-z0-9-]` without "--" that does not end in a dash is
      left alone by the dash replacement. */
  lemma {:induction false} DashedFixpoint(t: string)
    requires forall i :: 0 <= i < |t| ==> IsSlugChar(t[i]) || t[i] == '-'
    requires NoDoubleDash(t)
    requires t != [] ==> t[|t| - 1] != '-'
    ensures Dashed(t) == t
  {
    if t != [] {
      var rest := t[1..];
      SliceKeepsSlugShape(t, 1, |t|);
      DashedFixpoint(rest);
      assert t == [t[0]] + rest;
      if !IsSlugChar(t[0]) {
        assert t[1] == rest[0];
        assert SkipRun(rest) == rest;
        assert Dashed(t) == "-" + Dashed(rest);
      } else {
        assert Dashed(t) == [t[0]] + Dashed(rest);
      }
    }
  }

  /** A run of separators is skipped inside its own string when a slug
      character ends that string. */
  lemma {:induction false} SkipRunAppend(a: string, b: string)
    requires a != [] && IsSlugChar(a[|a| - 1])
    ensures SkipRun(a + b) == SkipRun(a) + b
  {
    if !IsSlugChar(a[0]) {
      assert (a + b)[1..] == a[1..] + b;
      SkipRunAppend(a[1..], b);
    }
  }

  /** `SkipRun` never drops a final slug character. */
  lemma {:induction false} SkipRunKeepsLast(s: string)
    requires s != [] && IsSlugChar(s[|s| - 1])
    ensures SkipRun(s) != [] && SkipRun(s)[|SkipRun(s)| - 1] == s[|s| - 1]
    decreases |s|
  {
    if !IsSlugChar(s[0]) {
      assert s[1..][|s| - 2] == s[|s| - 1];
      SkipRunKeepsLast(s[1..]);
    }
  }

  /** When the first string ends in a slug character, no separator run
      crosses the join, so the dash replacement splits over it. */
  lemma {:induction false} DashedAppend(a: string, b: string)
    requires a == [] || IsSlugChar(a[|a| - 1])
    ensures Dashed(a + b) == Dashed(a) + Dashed(b)
    decreases |a|
  {
    if a == [] {
      assert a + b == b;
    } else if IsSlugChar(a[0]) {
      DashedAppend(a[1..], b);
      DashedAppendWordStep(a, b);
    } else {
      SkipRunKeepsLast(a[1..]);
      SkipRunAppend(a[1..], b);
      DashedAppend(SkipRun(a[1..]), b);
      DashedAppendRunStep(a, b);
    }
  }

  /** The step of `DashedAppend` past a leading slug character. */
  lemma DashedAppendWordStep(a: string, b: string)
    requires a != [] && IsSlugChar(a[0])
    requires Dashed(a[1..] + b) == Dashed(a[1..]) + Dashed(b)
    ensures Dashed(a + b) == Dashed(a) + Dashed(b)
  {
    HeadTailConcat(a, b);
    ConcatAssoc([a[0]], Dashed(a[1..]), Dashed(b));
  }

  /** The step of `DashedAppend` past a leading separator run that ends
      before the join. */
  lemma DashedAppendRunStep(a: string, b: string)
    requires a != [] && !IsSlugChar(a[0])
    requires SkipRun(a[1..] + b) == SkipRun(a[1..]) + b
    requires Dashed(SkipRun(a[1..]) + b) == Dashed(SkipRun(a[1..])) + Dashed(b)
    ensures Dashed(a + b) == Dashed(a) + Dashed(b)
  {
    HeadTailConcat(a, b);
    ConcatAssoc("-", Dashed(SkipRun(a[1..])), Dashed(b));
  }

  /** The head and tail of `a + b` when `a` is not empty. */
  lemma HeadTailConcat(a: string, b: string)
    requires a != []
    ensures a + b != [] && (a + b)[0] == a[0] && (a + b)[1..] == a[1..] + b
  {
  }

  lemma ConcatAssoc(x: string, y: string, z: string)
    ensures x + (y + z) == (x + y) + z
  {
  }

  /** A word of slug characters is left alone by the dash replacement. */
  lemma {:induction false} WordFixpoint(w: string)
    requires forall i :: 0 <= i < |w| ==> IsSlugChar(w[i])
    ensures Dashed(w) == w
  {
    if w != [] {
      WordFixpoint(w[1..]);
    }
  }

  /** Lower-casing an alphanumeric word gives slug characters only. */
  lemma AlnumWordLowers(w: string)
    requires forall i :: 0 <= i < |w| ==> IsAsciiAlnum(w[i])
    ensures forall i :: 0 <= i < |Lower(w)| ==> IsSlugChar(Lower(w)[i])
  {
  }

  /** A separator run followed by a word becomes a dash followed by the word. */
  lemma SeparatorThenWord(sep: string, w: string)
    requires sep != [] && forall i :: 0 <= i < |sep| ==> !IsAsciiAlnum(sep[i])
    requires w != [] && forall i :: 0 <= i < |w| ==> IsSlugChar(w[i])
    ensures Dashed(sep + w) == "-" + w
  {
    DashedSeparatorThen(sep, w);
    WordFixpoint(w);
  }

  /** A word, a separator run, then anything that starts with a slug
      character: the word, one dash, and the dash replacement of the rest. */
  lemma DashedWordThen(w: string, sep: string, t: string)
    requires forall i :: 0 <= i < |w| ==> IsSlugChar(w[i])
    requires sep != [] && forall i :: 0 <= i < |sep| ==> !IsAsciiAlnum(sep[i])
    requires t != [] && IsSlugChar(t[0])
    ensures Dashed(w + sep + t) == w + "-" + Dashed(t)
  {
    assert w + sep + t == w + (sep + t);
    DashedWordPrefix(w, sep + t);
    DashedSeparatorThen(sep, t);
  }

  /** A word of slug characters in front of anything passes through the
      dash replacement unchanged. */
  lemma {:induction false} DashedWordPrefix(w: string, u: string)
    requires forall i :: 0 <= i < |w| ==> IsSlugChar(w[i])
    ensures Dashed(w + u) == w + Dashed(u)
    decreases |w|
  {
    if w == [] {
      assert w + u == u;
    } else {
      var x := w + u;
      assert x[0] == w[0] && x[1..] == w[1..] + u;
      DashedWordPrefix(w[1..], u);
      assert [w[0]] + (w[1..] + Dashed(u)) == w + Dashed(u);
    }
  }

  /** A separator run before a slug character becomes one dash. */
  lemma DashedSeparatorThen(sep: string, t: string)
    requires sep != [] && forall i :: 0 <= i < |sep| ==> !IsAsciiAlnum(sep[i])
    requires t != [] && IsSlugChar(t[0])
    ensures Dashed(sep + t) == "-" + Dashed(t)
  {
    var u := sep + t;
    assert u[0] == sep[0];
    assert u[1..] == sep[1..] + t;
    SkipRunSeparator(sep[1..], t);
    assert Dashed(u) == "-" + Dashed(SkipRun(u[1..]));
  }

  lemma {:induction false} SkipRunSeparator(sep: string, w: string)
    requires forall i :: 0 <= i < |sep| ==> !IsAsciiAlnum(sep[i])
    requires w != [] && IsSlugChar(w[0])
    ensures SkipRun(sep + w) == w
  {
    if sep == [] {
      assert sep + w == w;
    } else {
      assert (sep + w)[0] == sep[0];
      assert (sep + w)[1..] == sep[1..] + w;
      SkipRunSeparator(sep[1..], w);
    }
  }

  lemma LowerJoin(a: string, sep: string, b: string)
    requires forall i :: 0 <= i < |sep| ==> !IsAsciiAlnum(sep[i])
    ensures Lower(a + sep + b) == Lower(a) + sep + Lower(b)
  {
    LowerAppend(a + sep, b);
    LowerAppend(a, sep);
    LowerOfLower(sep);
  }

  lemma {:induction false} LowerAppend(x: string, y: string)
    ensures Lower(x + y) == Lower(x) + Lower(y)
  {
    if x == [] {
      assert x + y == y;
    } else {
      assert (x + y)[0] == x[0];
      assert (x + y)[1..] == x[1..] + y;
      LowerAppend(x[1..], y);
    }
  }

  lemma SlugOfLoweredWords(la: string, sep: string, lb: string)
    requires la != [] && forall i :: 0 <= i < |la| ==> IsSlugChar(la[i])
    requires sep != [] && forall i :: 0 <= i < |sep| ==> !IsAsciiAlnum(sep[i])
    requires lb != [] && forall i :: 0 <= i < |lb| ==> IsSlugChar(lb[i])
    ensures StripLeading(StripTrailing(Dashed(Trim(la + sep + lb)))) == la + "-" + lb
  {
    var s := la + sep + lb;
    assert s[0] == la[0] && s[|s| - 1] == lb[|lb| - 1];
    calc {
      StripLeading(StripTrailing(Dashed(Trim(s))));
      { TrimOfTrimmed(s); }
      StripLeading(StripTrailing(Dashed(s)));
      { DashedOfWords(la, sep, lb); }
      StripLeading(StripTrailing(la + "-" + lb));
      { StripJoinedWords(la, lb); }
      la + "-" + lb;
    }
  }

  lemma DashedOfThreeWords(la: string, sep1: string, lb: string, sep2: string, lc: string)
    requires forall i :: 0 <= i < |la| ==> IsSlugChar(la[i])
    requires sep1 != [] && forall i :: 0 <= i < |sep1| ==> !IsAsciiAlnum(sep1[i])
    requires lb != [] && forall i :: 0 <= i < |lb| ==> IsSlugChar(lb[i])
    requires sep2 != [] && forall i :: 0 <= i < |sep2| ==> !IsAsciiAlnum(sep2[i])
    requires lc != [] && forall i :: 0 <= i < |lc| ==> IsSlugChar(lc[i])
    ensures Dashed(la + sep1 + (lb + sep2 + lc)) == la + "-" + (lb + "-" + lc)
  {
    var rest := lb + sep2 + lc;
    assert rest[0] == lb[0];
    DashedWordThen(la, sep1, rest);
    DashedOfWords(lb, sep2, lc);
  }

  lemma StripJoinedWords(la: string, lb: string)
    requires la != [] && IsSlugChar(la[0])
    requires lb != [] && IsSlugChar(lb[|lb| - 1])
    ensures StripLeading(StripTrailing(la + "-" + lb)) == la + "-" + lb
  {
    var d := la + "-" + lb;
    assert d[0] == la[0] && d[|d| - 1] == lb[|lb| - 1];
    assert StripTrailing(d) == d;
  }

  lemma DashedOfWords(la: string, sep: string, lb: string)
    requires la != [] && forall i :: 0 <= i < |la| ==> IsSlugChar(la[i])
    requires sep != [] && forall i :: 0 <= i < |sep| ==> !IsAsciiAlnum(sep[i])
    requires lb != [] && forall i :: 0 <= i < |lb| ==> IsSlugChar(lb[i])
    ensures Dashed(la + sep + lb) == la + "-" + lb
  {
    assert la + sep + lb == la + (sep + lb);
    DashedWordPrefix(la, sep + lb);
    SeparatorThenWord(sep, lb);
  }

  // ---------------------------------------------------------------------
  // Separators at either end

  /**
   * Characters other than ASCII letters and digits before and after a text
   * that starts and ends with one change nothing: leading and trailing
   * separator runs leave no dash behind, as in "  Hello   World  " or
   * "--Hello--World--".
   */
  lemma SlugifyPadded(pre: string, m: string, post: string)
    requires forall i :: 0 <= i < |pre| ==> !IsAsciiAlnum(pre[i])
    requires m != [] && IsAsciiAlnum(m[0]) && IsAsciiAlnum(m[|m| - 1])
    requires forall i :: 0 <= i < |post| ==> !IsAsciiAlnum(post[i])
    ensures Slugify(Some(pre + m + post)) == Slugify(Some(m))
  {
    SlugifySteps(pre + m + post);
    SlugifySteps(m);
    PaddedChain(pre, m, post);
  }

  lemma PaddedChain(pre: string, m: string, post: string)
    requires forall i :: 0 <= i < |pre| ==> !IsAsciiAlnum(pre[i])
    requires m != [] && IsAsciiAlnum(m[0]) && IsAsciiAlnum(m[|m| - 1])
    requires forall i :: 0 <= i < |post| ==> !IsAsciiAlnum(post[i])
    ensures StripLeading(StripTrailing(Dashed(Trim(Lower(pre + m + post)))))
         == StripLeading(StripTrailing(Dashed(Trim(Lower(m)))))
  {
    var lm := Lower(m);
    assert IsSlugChar(lm[0]) && IsSlugChar(lm[|lm| - 1]);
    var p, q := TrimStart(pre), TrimEnd(post);
    calc {
      StripLeading(StripTrailing(Dashed(Trim(Lower(pre + m + post)))));
      { LowerPadded(pre, m, post); }
      StripLeading(StripTrailing(Dashed(Trim(pre + lm + post))));
      { TrimAroundWord(pre, lm, post); }
      StripLeading(StripTrailing(Dashed(p + lm + q)));
      { TrimmedSeparators(pre, post);
        StripPadded(p, lm, q); }
      Dashed(lm);
      { StripWord(lm); }
      StripLeading(StripTrailing(Dashed(lm)));
      { TrimOfTrimmed(lm); }
      StripLeading(StripTrailing(Dashed(Trim(lm))));
    }
  }

  /** Stripping leaves the dash replacement of such a word alone. */
  lemma StripWord(w: string)
    requires w != [] && IsSlugChar(w[0]) && IsSlugChar(w[|w| - 1])
    ensures StripLeading(StripTrailing(Dashed(w))) == Dashed(w)
  {
    DashedEnds(w);
    var d := Dashed(w);
    StripAround([], d, []);
    assert [] + d + [] == d;
  }

  /** `slugify` as the chain of its steps. */
  lemma SlugifySteps(s: string)
    ensures Slugify(Some(s)) == StripLeading(StripTrailing(Dashed(Trim(Lower(s)))))
  {
  }

  /** Between two separator runs, a word that starts and ends with a slug
      character comes out of the dash replacement and the stripping as its
      own dash replacement. */
  lemma StripPadded(p: string, w: string, q: string)
    requires forall i :: 0 <= i < |p| ==> !IsAsciiAlnum(p[i])
    requires w != [] && IsSlugChar(w[0]) && IsSlugChar(w[|w| - 1])
    requires forall i :: 0 <= i < |q| ==> !IsAsciiAlnum(q[i])
    ensures StripLeading(StripTrailing(Dashed(p + w + q))) == Dashed(w)
  {
    var d0: string := if p == [] then [] else "-";
    var d1: string := if q == [] then [] else "-";
    DashedPadded(p, w, q);
    DashedEnds(w);
    StripAround(d0, Dashed(w), d1);
  }

  /** The dash replacement of a word that starts and ends with a slug
      character neither starts nor ends with a dash. */
  lemma DashedEnds(w: string)
    requires w != [] && IsSlugChar(w[0]) && IsSlugChar(w[|w| - 1])
    ensures Dashed(w) != [] && Dashed(w)[0] != '-' && Dashed(w)[|Dashed(w)| - 1] != '-'
  {
    DashedShape(w);
    DashedLast(w);
  }

  lemma LowerPadded(pre: string, m: string, post: string)
    requires forall i :: 0 <= i < |pre| ==> !IsAsciiAlnum(pre[i])
    requires forall i :: 0 <= i < |post| ==> !IsAsciiAlnum(post[i])
    ensures Lower(pre + m + post) == pre + Lower(m) + post
  {
    LowerAppend(pre + m, post);
    LowerAppend(pre, m);
    LowerOfLower(pre);
    LowerOfLower(post);
  }

  /** `trim` around a word that starts and ends with a slug character only
      trims the text outside it. */
  lemma TrimAroundWord(pre: string, w: string, post: string)
    requires w != [] && IsSlugChar(w[0]) && IsSlugChar(w[|w| - 1])
    ensures Trim(pre + w + post) == TrimStart(pre) + w + TrimEnd(post)
  {
    var p := TrimStart(pre);
    assert pre + w + post == pre + (w + post);
    TrimStartBefore(pre, w + post);
    assert p + (w + post) == (p + w) + post;
    TrimEndAfter(p + w, post);
  }

  /** Trimming a separator run leaves a separator run. */
  lemma TrimmedSeparators(pre: string, post: string)
    requires forall i :: 0 <= i < |pre| ==> !IsAsciiAlnum(pre[i])
    requires forall i :: 0 <= i < |post| ==> !IsAsciiAlnum(post[i])
    ensures forall i :: 0 <= i < |TrimStart(pre)| ==> !IsAsciiAlnum(TrimStart(pre)[i])
    ensures forall i :: 0 <= i < |TrimEnd(post)| ==> !IsAsciiAlnum(TrimEnd(post)[i])
  {
    TrimStartSuffix(pre);
    TrimEndPrefix(post);
  }

  /** The dash replacement of a word between two separator runs: one dash
      for each run that is not empty, around the word's own replacement. */
  lemma DashedPadded(p: string, w: string, q: string)
    requires forall i :: 0 <= i < |p| ==> !IsAsciiAlnum(p[i])
    requires w != [] && IsSlugChar(w[0]) && IsSlugChar(w[|w| - 1])
    requires forall i :: 0 <= i < |q| ==> !IsAsciiAlnum(q[i])
    ensures Dashed(p + w + q) == (if p == [] then [] else "-") + Dashed(w) + (if q == [] then [] else "-")
  {
    var t := w + q;
    assert p + w + q == p + t;
    assert t[0] == w[0];
    DashedAppend(w, q);
    DashedOfSeparator(q);
    if p == [] {
      assert p + t == t;
    } else {
      DashedSeparatorThen(p, t);
    }
  }

  /** A run without letters or digits becomes one dash, or nothing when it
      is empty. */
  lemma DashedOfSeparator(q: string)
    requires forall i :: 0 <= i < |q| ==> !IsAsciiAlnum(q[i])
    ensures Dashed(q) == if q == [] then [] else "-"
  {
    if q != [] {
      SkipRunSuffix(q[1..]);
    }
  }

  /** The dash replacement keeps a final slug character. */
  lemma {:induction false} DashedLast(s: string)
    requires s != [] && IsSlugChar(s[|s| - 1])
    ensures Dashed(s) != [] && Dashed(s)[|Dashed(s)| - 1] == s[|s| - 1]
    decreases |s|
  {
    var rest := s[1..];
    if IsSlugChar(s[0]) {
      if rest != [] {
        assert rest[|rest| - 1] == s[|s| - 1];
        DashedLast(rest);
      }
    } else {
      assert rest != [] && rest[|rest| - 1] == s[|s| - 1];
      SkipRunKeepsLast(rest);
      DashedLast(SkipRun(rest));
    }
  }

  /** Stripping dashes removes at most one added dash at each end of a text
      that neither starts nor ends with one. */
  lemma StripAround(d0: string, x: string, d1: string)
    requires d0 == [] || d0 == "-"
    requires d1 == [] || d1 == "-"
    requires x != [] && x[0] != '-' && x[|x| - 1] != '-'
    ensures StripLeading(StripTrailing(d0 + x + d1)) == x
  {
    var y := d0 + x;
    assert y != [] && y[|y| - 1] == x[|x| - 1];
    StripTrailingDash(y, d1);
    StripLeadingDash(d0, x);
  }

  lemma StripTrailingDash(y: string, d: string)
    requires d == [] || d == "-"
    requires y != [] && y[|y| - 1] != '-'
    ensures StripTrailing(y + d) == y
  {
    if d == [] {
      assert y + d == y;
    } else {
      var z := y + d;
      assert z[|z| - 1] == '-' && z[..|z| - 1] == y;
    }
  }

  lemma StripLeadingDash(d: string, x: string)
    requires d == [] || d == "-"
    requires x != [] && x[0] != '-'
    ensures StripLeading(d + x) == x
  {
    if d == [] {
      assert d + x == x;
    } else {
      var z := d + x;
      assert z[0] == '-' && z[1..] == x;
    }
  }

  /** Two words with separator runs before, between and after them: the
      lower-cased words joined by one dash, with no dash at either end. */
  lemma SlugifyPaddedTwoWords(pre: string, a: string, sep: string, b: string, post: string)
    requires forall i :: 0 <= i < |pre| ==> !IsAsciiAlnum(pre[i])
    requires a != [] && forall i :: 0 <= i < |a| ==> IsAsciiAlnum(a[i])
    requires sep != [] && forall i :: 0 <= i < |sep| ==> !IsAsciiAlnum(sep[i])
    requires b != [] && forall i :: 0 <= i < |b| ==> IsAsciiAlnum(b[i])
    requires forall i :: 0 <= i < |post| ==> !IsAsciiAlnum(post[i])
    ensures Slugify(Some(pre + (a + sep + b) + post)) == Lower(a) + "-" + Lower(b)
  {
    var m := a + sep + b;
    assert m[0] == a[0] && m[|m| - 1] == b[|b| - 1];
    SlugifyPadded(pre, m, post);
    SlugifyTwoWords(a, sep, b);
  }

  /** The unit test's padded case: "  Hello   World  " gives "hello-world". */
  lemma PaddedHelloWorldExample(s: string)
    requires s == "  Hello   World  "
    ensures Slugify(Some(s)) == "hello-world"
  {
    PaddedHelloWorldSplit(s);
    PaddedHelloWorldWords(s);
    HelloWorldLowerPair();
  }

  lemma PaddedHelloWorldSplit(s: string)
    requires s == "  Hello   World  "
    ensures s == "  " + ("Hello" + "   " + "World") + "  "
  {
  }

  /** The unit test's dashed case: "--Hello--World--" gives "hello-world". */
  lemma DashedHelloWorldExample(s: string)
    requires s == "--Hello--World--"
    ensures Slugify(Some(s)) == "hello-world"
  {
    DashedHelloWorldSplit(s);
    DashedHelloWorldWords(s);
    HelloWorldLowerPair();
  }

  lemma DashedHelloWorldSplit(s: string)
    requires s == "--Hello--World--"
    ensures s == "--" + ("Hello" + "--" + "World") + "--"
  {
  }

  lemma PaddedHelloWorldWords(s: string)
    requires s == "  " + ("Hello" + "   " + "World") + "  "
    ensures Slugify(Some(s)) == Lower("Hello") + "-" + Lower("World")
  {
    SlugifyPaddedTwoWords("  ", "Hello", "   ", "World", "  ");
  }

  lemma DashedHelloWorldWords(s: string)
    requires s == "--" + ("Hello" + "--" + "World") + "--"
    ensures Slugify(Some(s)) == Lower("Hello") + "-" + Lower("World")
  {
    SlugifyPaddedTwoWords("--", "Hello", "--", "World", "--");
  }

  lemma HelloWorldLowerPair()
    ensures Lower("Hello") + "-" + Lower("World") == "hello-world"
  {
    LowerHello();
    LowerWorld();
  }
}
