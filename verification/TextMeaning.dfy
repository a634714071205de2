/**
 What the string operations return, in characters and positions. Of case folding only
 the ASCII part is fixed; the rest is whatever the tables of `Text` hold.
 */
module TextMeaning {
  import opened Text

  /** The characters Unicode calls white space. */
  ghost predicate IsWhite(c: char) {
    var n := c as int;
    || 9 <= n <= 13 || n == 32 || n == 133 || n == 160 || n == 5760 || 8192 <= n <= 8202
    || n == 8232 || n == 8233 || n == 8239 || n == 8287 || n == 12288
  }

  lemma SpaceMeaning(c: char)
    ensures IsSpace(c) <==> IsWhite(c)
  {
  }

  /** Between white space on both sides, `s[a..b]` has none at its ends. */
  ghost predicate IsCore(s: string, a: nat, b: nat)
    requires a <= b <= |s|
  {
    && (forall i | 0 <= i < |s| && (i < a || b <= i) :: IsWhite(s[i]))
    && (a < b ==> !IsWhite(s[a]) && !IsWhite(s[b - 1]))
  }

  lemma {:induction false} TrimLeftCuts(s: string) returns (a: nat)
    ensures a <= |s| && TrimLeft(s) == s[a..]
    ensures forall i | 0 <= i < a :: IsSpace(s[i])
  {
    if s != [] && IsSpace(s[0]) {
      a := TrimLeftCuts(s[1..]);
      a := a + 1;
      forall i | 0 <= i < a ensures IsSpace(s[i]) {
        assert i > 0 ==> s[i] == s[1..][i - 1];
      }
    } else {
      a := 0;
    }
  }

  lemma {:induction false} TrimRightCuts(s: string) returns (b: nat)
    ensures b <= |s| && TrimRight(s) == s[..b]
    ensures forall i | b <= i < |s| :: IsSpace(s[i])
  {
    if s != [] && IsSpace(s[|s| - 1]) {
      b := TrimRightCuts(s[..|s| - 1]);
      forall i | b <= i < |s| ensures IsSpace(s[i]) {
        assert i < |s| - 1 ==> s[i] == s[..|s| - 1][i];
      }
    } else {
      b := |s|;
    }
  }

  lemma TrimSpaceCuts(s: string) returns (a: nat, b: nat)
    ensures a <= b <= |s| && TrimSpace(s) == s[a..b]
    ensures forall i | 0 <= i < |s| && (i < a || b <= i) :: IsSpace(s[i])
  {
    a := TrimLeftCuts(s);
    var n := TrimRightCuts(s[a..]);
    b := a + n;
    assert s[a..][..n] == s[a..b];
    forall i | b <= i < |s| ensures IsSpace(s[i]) {
      assert s[i] == s[a..][i - a];
    }
  }

  /** `TrimSpace` returns the string without the white space at its ends. */
  lemma TrimSpaceMeaning(s: string)
    ensures exists a: nat, b: nat | a <= b <= |s| :: TrimSpace(s) == s[a..b] && IsCore(s, a, b)
  {
    var a, b := TrimSpaceCuts(s);
    forall i | 0 <= i < |s| ensures IsSpace(s[i]) <==> IsWhite(s[i]) {
      SpaceMeaning(s[i]);
    }
    TrimSpaceTrims(s);
    assert IsCore(s, a, b);
  }

  ghost predicate IsAscii(s: string) {
    forall c | c in s :: c as int < 128
  }

  /** The same character, or the same letter in the other case. */
  ghost predicate SameLetter(a: char, b: char) {
    || a == b
    || ('a' <= a <= 'z' && a as int - b as int == 32)
    || ('a' <= b <= 'z' && b as int - a as int == 32)
  }

  lemma FoldRuneMeaning(a: char, b: char)
    requires a as int < 128 && b as int < 128
    ensures FoldRune(a) == FoldRune(b) <==> SameLetter(a, b)
  {
  }

  /** ASCII strings are equal under folding when they differ in the case of letters only. */
  lemma EqualFoldMeaning(s: string, t: string)
    requires IsAscii(s) && IsAscii(t)
    ensures EqualFold(s, t) <==> |s| == |t| && forall i | 0 <= i < |s| :: SameLetter(s[i], t[i])
  {
    if |s| == |t| {
      forall i | 0 <= i < |s| ensures Fold(s)[i] == Fold(t)[i] <==> SameLetter(s[i], t[i]) {
        assert s[i] in s && t[i] in t;
        FoldRuneMeaning(s[i], t[i]);
      }
    } else {
      assert |Fold(s)| != |Fold(t)|;
    }
  }

  /** Lower-casing an ASCII string replaces each upper-case letter and leaves the rest. */
  lemma ToLowerMeaning(s: string, i: nat)
    requires i < |s| && s[i] as int < 128
    ensures |ToLower(s)| == |s| && !('A' <= ToLower(s)[i] <= 'Z')
    ensures ToLower(s)[i] as int == if 'A' <= s[i] <= 'Z' then s[i] as int + 32 else s[i] as int
  {
  }

  /** The part stands somewhere in the string. */
  ghost predicate Occurs(s: string, part: string) {
    exists before, after :: s == before + part + after
  }

  lemma {:induction false} ContainsMeaning(s: string, part: string)
    ensures Contains(s, part) <==> Occurs(s, part)
  {
    if part <= s {
      assert s == [] + part + s[|part|..];
    }
    if s != [] {
      ContainsMeaning(s[1..], part);
      if Occurs(s[1..], part) {
        var before, after :| s[1..] == before + part + after;
        assert s == ([s[0]] + before) + part + after;
      }
    }
    if before, after :| s == before + part + after {
      if before == [] {
        assert s[..|part|] == part;
      } else {
        assert s[1..] == before[1..] + part + after;
      }
    }
  }
}
