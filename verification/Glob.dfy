/** The glob matcher of search folders, measured against wildcard semantics. */
module Glob {

  const STAR: char := '*'

  predicate StartsWith(s: string, prefix: string) {
    prefix <= s
  }

  predicate EndsWith(s: string, suffix: string) {
    |suffix| <= |s| && s[|s| - |suffix|..] == suffix
  }

  predicate Contains(s: string, part: string) {
    exists i :: 0 <= i <= |s| && StartsWith(s[i..], part)
  }

  /** The cases of the source, on a pattern and a name that are already lower-cased. */
  predicate GlobMatch(pat: string, hay: string) {
    if pat == [STAR] then true
    else if pat != [] && pat[0] == STAR then
      var suffix := pat[1..];
      if suffix != [] && suffix[|suffix| - 1] == STAR then Contains(hay, suffix[..|suffix| - 1])
      else EndsWith(hay, suffix)
    else if pat != [] && pat[|pat| - 1] == STAR then StartsWith(hay, pat[..|pat| - 1])
    else hay == pat
  }

  /** Lower-casing one character at a time; a character may turn into several. */
  function Lowered(s: string, fold: char -> string): string {
    if s == [] then [] else fold(s[0]) + Lowered(s[1..], fold)
  }

  /** What lower-casing makes is lower case. */
  ghost predicate Folds(fold: char -> string) {
    forall c, d :: d in fold(c) ==> fold(d) == [d]
  }

  /** The matcher of the source, which lower-cases pattern and name first. */
  predicate Matches(pattern: string, name: string, fold: char -> string) {
    GlobMatch(Lowered(pattern, fold), Lowered(name, fold))
  }

  /** What a glob means: a star stands for any string, every other character for itself. */
  ghost predicate Wild(pat: string, hay: string)
    decreases |pat| + |hay|
  {
    if pat == [] then hay == []
    else if pat[0] == STAR then Wild(pat[1..], hay) || (hay != [] && Wild(pat, hay[1..]))
    else hay != [] && hay[0] == pat[0] && Wild(pat[1..], hay[1..])
  }

  ghost predicate NoStar(s: string) {
    forall k :: 0 <= k < |s| ==> s[k] != STAR
  }

  /** Stars stand at most at the two ends of the pattern. */
  ghost predicate OuterStars(pat: string) {
    forall k :: 0 < k < |pat| - 1 ==> pat[k] != STAR
  }

  lemma {:induction false} WildLiteral(pat: string, hay: string)
    requires NoStar(pat)
    ensures Wild(pat, hay) <==> pat == hay
    decreases |pat|
  {
    if pat != [] && hay != [] {
      WildLiteral(pat[1..], hay[1..]);
      assert pat == [pat[0]] + pat[1..] && hay == [hay[0]] + hay[1..];
    }
  }

  lemma {:induction false} WildAfterStar(pat: string, hay: string)
    requires pat != [] && pat[0] == STAR
    ensures Wild(pat, hay) <==> exists i :: 0 <= i <= |hay| && Wild(pat[1..], hay[i..])
    decreases |hay|
  {
    assert hay[0..] == hay;
    if hay != [] {
      WildAfterStar(pat, hay[1..]);
      forall i | 1 <= i <= |hay|
        ensures hay[i..] == hay[1..][i - 1..]
      {
      }
      if exists i :: 0 <= i <= |hay[1..]| && Wild(pat[1..], hay[1..][i..]) {
        var i :| 0 <= i <= |hay[1..]| && Wild(pat[1..], hay[1..][i..]);
        assert Wild(pat[1..], hay[i + 1..]);
      }
    }
  }

  lemma WildStarAlone(hay: string)
    ensures Wild([STAR], hay)
  {
    WildAfterStar([STAR], hay);
    assert [STAR][1..] == [] && hay[|hay|..] == [];
    assert Wild([STAR][1..], hay[|hay|..]);
  }

  lemma {:induction false} WildPrefix(prefix: string, hay: string)
    requires NoStar(prefix)
    ensures Wild(prefix + [STAR], hay) <==> StartsWith(hay, prefix)
    decreases |prefix|
  {
    var pat := prefix + [STAR];
    if prefix == [] {
      assert pat == [STAR];
      WildStarAlone(hay);
    } else if hay != [] {
      WildPrefix(prefix[1..], hay[1..]);
      assert pat[1..] == prefix[1..] + [STAR];
      assert prefix == [prefix[0]] + prefix[1..] && hay == [hay[0]] + hay[1..];
    }
  }

  lemma WildSuffix(suffix: string, hay: string)
    requires NoStar(suffix)
    ensures Wild([STAR] + suffix, hay) <==> EndsWith(hay, suffix)
  {
    var pat := [STAR] + suffix;
    WildAfterStar(pat, hay);
    assert pat[1..] == suffix;
    forall i | 0 <= i <= |hay|
      ensures Wild(suffix, hay[i..]) <==> suffix == hay[i..]
    {
      WildLiteral(suffix, hay[i..]);
    }
    if EndsWith(hay, suffix) {
      assert Wild(pat[1..], hay[|hay| - |suffix|..]);
    }
  }

  lemma WildPart(part: string, hay: string)
    requires NoStar(part)
    ensures Wild([STAR] + part + [STAR], hay) <==> Contains(hay, part)
  {
    var pat := [STAR] + part + [STAR];
    WildAfterStar(pat, hay);
    assert pat[1..] == part + [STAR];
    forall i | 0 <= i <= |hay|
      ensures Wild(pat[1..], hay[i..]) <==> StartsWith(hay[i..], part)
    {
      WildPrefix(part, hay[i..]);
    }
    if Contains(hay, part) {
      var i :| 0 <= i <= |hay| && StartsWith(hay[i..], part);
      assert Wild(pat[1..], hay[i..]);
    }
  }

  lemma OuterStarsMatch(pat: string, hay: string)
    requires OuterStars(pat)
    ensures GlobMatch(pat, hay) <==> Wild(pat, hay)
  {
    if pat == [STAR] {
      WildStarAlone(hay);
    } else if pat != [] && pat[0] == STAR {
      var suffix := pat[1..];
      if suffix != [] && suffix[|suffix| - 1] == STAR {
        var part := suffix[..|suffix| - 1];
        assert pat == [STAR] + part + [STAR];
        WildPart(part, hay);
      } else {
        assert pat == [STAR] + suffix;
        WildSuffix(suffix, hay);
      }
    } else if pat != [] && pat[|pat| - 1] == STAR {
      assert pat == pat[..|pat| - 1] + [STAR];
      WildPrefix(pat[..|pat| - 1], hay);
    } else {
      WildLiteral(pat, hay);
    }
  }

  /** The pattern with every star standing for the empty string. */
  function Starless(s: string): string {
    if s == [] then [] else (if s[0] == STAR then [] else [s[0]]) + Starless(s[1..])
  }

  lemma {:induction false} StarlessMatches(pat: string)
    ensures Wild(pat, Starless(pat))
  {
    if pat != [] {
      StarlessMatches(pat[1..]);
      if pat[0] == STAR {
        assert Starless(pat) == Starless(pat[1..]);
      } else {
        assert Starless(pat)[1..] == Starless(pat[1..]);
      }
    }
  }

  lemma {:induction false} StarlessConcat(a: string, b: string)
    ensures Starless(a + b) == Starless(a) + Starless(b)
  {
    if a == [] {
      assert a + b == b;
    } else {
      assert (a + b)[1..] == a[1..] + b;
      StarlessConcat(a[1..], b);
    }
  }

  lemma {:induction false} StarlessIsShorter(s: string, k: nat)
    requires k < |s| && s[k] == STAR
    ensures |Starless(s)| < |s|
  {
    StarlessNoLonger(s[1..]);
    if k > 0 {
      StarlessIsShorter(s[1..], k - 1);
    }
  }

  lemma {:induction false} StarlessNoLonger(s: string)
    ensures |Starless(s)| <= |s|
  {
    if s != [] {
      StarlessNoLonger(s[1..]);
    }
  }

  lemma StarlessInside(pat: string, k: nat)
    requires 0 < k < |pat| - 1 && pat[k] == STAR
    ensures var mid := pat[1..|pat| - 1];
            Starless(pat) == Starless(pat[..1]) + Starless(mid) + Starless(pat[|pat| - 1..]) && |Starless(mid)| < |mid|
  {
    var first, mid, last := pat[..1], pat[1..|pat| - 1], pat[|pat| - 1..];
    assert pat == first + (mid + last);
    StarlessConcat(first, mid + last);
    StarlessConcat(mid, last);
    StarlessIsShorter(mid, k - 1);
  }

  lemma StarlessOne(c: char)
    ensures Starless([c]) == if c == STAR then [] else [c]
  {
    assert [c][1..] == [];
  }

  function Star(c: char): nat {
    if c == STAR then 1 else 0
  }

  /** A name that the matcher accepts is at least as long as the pattern without the stars at its ends. */
  lemma MatchIsLongEnough(pat: string, hay: string)
    requires 2 < |pat| && GlobMatch(pat, hay)
    ensures |pat| <= |hay| + Star(pat[0]) + Star(pat[|pat| - 1])
  {
    var suffix := pat[1..];
    assert suffix[|suffix| - 1] == pat[|pat| - 1];
  }

  lemma StarlessIsTooShort(pat: string, k: nat)
    requires 0 < k < |pat| - 1 && pat[k] == STAR
    ensures |Starless(pat)| + Star(pat[0]) + Star(pat[|pat| - 1]) < |pat|
  {
    StarlessInside(pat, k);
    StarlessOne(pat[0]);
    StarlessOne(pat[|pat| - 1]);
    assert pat[..1] == [pat[0]] && pat[|pat| - 1..] == [pat[|pat| - 1]];
  }

  /** With a star inside, the matcher takes it literally and misses the name that leaves all stars empty. */
  lemma InnerStarMisses(pat: string, k: nat)
    requires 0 < k < |pat| - 1 && pat[k] == STAR
    ensures !GlobMatch(pat, Starless(pat)) && Wild(pat, Starless(pat))
  {
    StarlessMatches(pat);
    StarlessIsTooShort(pat, k);
    if GlobMatch(pat, Starless(pat)) {
      MatchIsLongEnough(pat, Starless(pat));
      assert false;
    }
  }

  /** The matcher agrees with the meaning on every name exactly for patterns with stars at the ends only. */
  lemma GlobMatchIff(pat: string)
    ensures (forall hay :: GlobMatch(pat, hay) <==> Wild(pat, hay)) <==> OuterStars(pat)
  {
    if OuterStars(pat) {
      forall hay
        ensures GlobMatch(pat, hay) <==> Wild(pat, hay)
      {
        OuterStarsMatch(pat, hay);
      }
    } else {
      var k :| 0 < k < |pat| - 1 && pat[k] == STAR;
      InnerStarMisses(pat, k);
      assert !(GlobMatch(pat, Starless(pat)) <==> Wild(pat, Starless(pat)));
    }
  }

  // ---- With lower-casing ---------------------------------------------------

  ghost predicate LowerCase(s: string, fold: char -> string) {
    forall k :: 0 <= k < |s| ==> fold(s[k]) == [s[k]]
  }

  lemma {:induction false} LoweredIsLowerCase(s: string, fold: char -> string)
    requires Folds(fold)
    ensures LowerCase(Lowered(s, fold), fold)
  {
    if s != [] {
      LoweredIsLowerCase(s[1..], fold);
      var first, rest := fold(s[0]), Lowered(s[1..], fold);
      forall k | 0 <= k < |first + rest|
        ensures fold((first + rest)[k]) == [(first + rest)[k]]
      {
        if k < |first| {
          assert first[k] in fold(s[0]);
        } else {
          assert (first + rest)[k] == rest[k - |first|];
        }
      }
    }
  }

  lemma {:induction false} LowerCaseStays(s: string, fold: char -> string)
    requires LowerCase(s, fold)
    ensures Lowered(s, fold) == s
  {
    if s != [] {
      LowerCaseStays(s[1..], fold);
    }
  }

  lemma {:induction false} StarlessIsLowerCase(s: string, fold: char -> string)
    requires LowerCase(s, fold)
    ensures LowerCase(Starless(s), fold)
  {
    if s != [] {
      StarlessIsLowerCase(s[1..], fold);
    }
  }

  /** With lower-casing, too, the names that the matcher judges right are all names exactly for outer stars. */
  lemma MatchesIff(pattern: string, fold: char -> string)
    requires Folds(fold)
    ensures (forall name :: Matches(pattern, name, fold) <==> Wild(Lowered(pattern, fold), Lowered(name, fold))) <==>
              OuterStars(Lowered(pattern, fold))
  {
    var pat := Lowered(pattern, fold);
    if OuterStars(pat) {
      forall name
        ensures Matches(pattern, name, fold) <==> Wild(pat, Lowered(name, fold))
      {
        OuterStarsMatch(pat, Lowered(name, fold));
      }
    } else {
      var k :| 0 < k < |pat| - 1 && pat[k] == STAR;
      InnerStarMisses(pat, k);
      LoweredIsLowerCase(pattern, fold);
      StarlessIsLowerCase(pat, fold);
      LowerCaseStays(Starless(pat), fold);
      assert !(Matches(pattern, Starless(pat), fold) <==> Wild(pat, Lowered(Starless(pat), fold)));
    }
  }
}
