/**
 The string operations the program takes from Go's standard library, on strings
 as sequences of characters.
 */
module Text {

  /** The part of Unicode's simple case folding outside ASCII, and the same for
      lower-casing. The contents of both tables are left open: every result of
      this project holds whatever they map. */
  const FOLD_TABLE: map<char, char>
  const LOWER_TABLE: map<char, char>

  /** `unicode.IsSpace`. */
  predicate IsSpace(c: char) {
    || c == ' ' || '\t' <= c <= '\r' || c == '\U{85}' || c == '\U{A0}'
    || c == '\U{1680}' || '\U{2000}' <= c <= '\U{200A}' || c == '\U{2028}'
    || c == '\U{2029}' || c == '\U{202F}' || c == '\U{205F}' || c == '\U{3000}'
  }

  function TrimLeft(s: string): string {
    if s != [] && IsSpace(s[0]) then TrimLeft(s[1..]) else s
  }

  function TrimRight(s: string): string {
    if s != [] && IsSpace(s[|s| - 1]) then TrimRight(s[..|s| - 1]) else s
  }

  /** `strings.TrimSpace`. */
  function TrimSpace(s: string): string {
    TrimRight(TrimLeft(s))
  }

  predicate Trimmed(s: string) {
    s == [] || (!IsSpace(s[0]) && !IsSpace(s[|s| - 1]))
  }

  lemma {:induction false} TrimLeftStart(s: string)
    ensures var r := TrimLeft(s); r == [] || !IsSpace(r[0])
  {
    if s != [] && IsSpace(s[0]) {
      TrimLeftStart(s[1..]);
    }
  }

  lemma {:induction false} TrimRightEnds(s: string)
    ensures var r := TrimRight(s); r <= s && (r == [] || !IsSpace(r[|r| - 1]))
  {
    if s != [] && IsSpace(s[|s| - 1]) {
      TrimRightEnds(s[..|s| - 1]);
    }
  }

  /** What `TrimSpace` returns has no space at its ends. */
  lemma TrimSpaceTrims(s: string)
    ensures Trimmed(TrimSpace(s))
  {
    TrimLeftStart(s);
    TrimRightEnds(TrimLeft(s));
  }

  lemma TrimSpaceFixed(s: string)
    requires Trimmed(s)
    ensures TrimSpace(s) == s
  {
  }

  /** `TrimSpace` is idempotent. */
  lemma TrimSpaceTwice(s: string)
    ensures TrimSpace(TrimSpace(s)) == TrimSpace(s)
  {
    TrimSpaceTrims(s);
    TrimSpaceFixed(TrimSpace(s));
  }

  lemma {:induction false} TrimLeftBlank(s: string)
    ensures TrimLeft(s) == "" <==> forall c | c in s :: IsSpace(c)
  {
    if s != [] {
      TrimLeftBlank(s[1..]);
      assert s == [s[0]] + s[1..];
    }
  }

  /** Trimming leaves nothing exactly of the blank strings. */
  lemma TrimSpaceBlank(s: string)
    ensures TrimSpace(s) == "" <==> forall c | c in s :: IsSpace(c)
  {
    TrimLeftBlank(s);
    TrimLeftStart(s);
    TrimRightStart(TrimLeft(s));
  }

  lemma {:induction false} TrimRightStart(s: string)
    requires s == "" || !IsSpace(s[0])
    ensures TrimRight(s) == "" <==> s == ""
  {
    if s != "" && IsSpace(s[|s| - 1]) {
      TrimRightStart(s[..|s| - 1]);
    }
  }

  function FoldRune(c: char): char {
    if 'A' <= c <= 'Z' then ((c as int) + 32) as char
    else if c < '\U{80}' then c
    else if c in FOLD_TABLE then FOLD_TABLE[c]
    else c
  }

  function Fold(s: string): (r: string)
    ensures |r| == |s|
  {
    seq(|s|, i requires 0 <= i < |s| => FoldRune(s[i]))
  }

  /** `strings.EqualFold`: equality after folding every character. */
  predicate EqualFold(s: string, t: string) {
    Fold(s) == Fold(t)
  }

  function LowerRune(c: char): char {
    if 'A' <= c <= 'Z' then ((c as int) + 32) as char
    else if c < '\U{80}' then c
    else if c in LOWER_TABLE then LOWER_TABLE[c]
    else c
  }

  /** `strings.ToLower`. */
  function ToLower(s: string): (r: string) {
    seq(|s|, i requires 0 <= i < |s| => LowerRune(s[i]))
  }

  /** `strings.HasPrefix`. */
  predicate HasPrefix(s: string, prefix: string) {
    prefix <= s
  }

  /** `strings.Contains`. */
  predicate Contains(s: string, part: string) {
    part <= s || (s != [] && Contains(s[1..], part))
  }
}
