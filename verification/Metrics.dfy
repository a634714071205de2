/** `prometheusLabelValue`: the escape of a label value in the metrics output. */
module Metrics {
  import opened Domain

  /** `strings.ReplaceAll` of a one-character string. */
  function ReplaceAll(s: string, c: char, with: string): string {
    if s == "" then "" else (if s[0] == c then with else [s[0]]) + ReplaceAll(s[1..], c, with)
  }

  /** The three passes, in the order of the code. */
  function LabelValue(s: string): string {
    ReplaceAll(ReplaceAll(ReplaceAll(s, '\\', "\\\\"), '\n', "\\n"), '\"', "\\\"")
  }

  function EscapeChar(c: char): string {
    if c == '\\' then "\\\\" else if c == '\n' then "\\n" else if c == '\"' then "\\\"" else [c]
  }

  /** Each character escaped by itself. */
  function Escape(s: string): string {
    if s == "" then "" else EscapeChar(s[0]) + Escape(s[1..])
  }

  lemma {:induction false} ReplaceConcat(a: string, b: string, c: char, with: string)
    ensures ReplaceAll(a + b, c, with) == ReplaceAll(a, c, with) + ReplaceAll(b, c, with)
  {
    if a == "" {
      assert a + b == b;
    } else {
      var first := if a[0] == c then with else [a[0]];
      ReplaceConcat(a[1..], b, c, with);
      assert (a + b)[1..] == a[1..] + b;
      assert ReplaceAll(a + b, c, with) == first + (ReplaceAll(a[1..], c, with) + ReplaceAll(b, c, with));
    }
  }

  lemma ReplaceNone(s: string, c: char, with: string)
    requires |s| <= 2 && c !in s
    ensures ReplaceAll(s, c, with) == s
  {
    if s != "" {
      assert ReplaceAll(s[1..], c, with) == s[1..];
    }
  }

  lemma ReplaceChar(x: char, c: char, with: string)
    ensures ReplaceAll([x], c, with) == if x == c then with else [x]
  {
    assert [x][1..] == "" && with + "" == with;
  }

  lemma LabelOfChar(c: char)
    ensures LabelValue([c]) == EscapeChar(c)
  {
    ReplaceChar(c, '\\', "\\\\");
    ReplaceChar(c, '\n', "\\n");
    ReplaceChar(c, '\"', "\\\"");
    ReplaceNone("\\\\", '\n', "\\n");
    ReplaceNone("\\\\", '\"', "\\\"");
    ReplaceNone("\\n", '\"', "\\\"");
  }

  lemma LabelConcat(a: string, b: string)
    ensures LabelValue(a + b) == LabelValue(a) + LabelValue(b)
  {
    ReplaceConcat(a, b, '\\', "\\\\");
    var a1, b1 := ReplaceAll(a, '\\', "\\\\"), ReplaceAll(b, '\\', "\\\\");
    ReplaceConcat(a1, b1, '\n', "\\n");
    ReplaceConcat(ReplaceAll(a1, '\n', "\\n"), ReplaceAll(b1, '\n', "\\n"), '\"', "\\\"");
  }

  /** The three passes over the whole string escape each character by itself: no pass touches
      what an earlier one wrote. */
  lemma {:induction false} PassesAreOneEscape(s: string)
    ensures LabelValue(s) == Escape(s)
  {
    if s != "" {
      PassesAreOneEscape(s[1..]);
      LabelOfChar(s[0]);
      LabelConcat([s[0]], s[1..]);
      assert s == [s[0]] + s[1..];
    }
  }

  /** Backslash, newline and quote get a backslash before them, the newline as the letter n;
      every other character stays. */
  lemma LabelInPieces(a: string, c: char, b: string)
    ensures LabelValue(a + [c] + b) == LabelValue(a) + LabelValue([c]) + LabelValue(b)
    ensures LabelValue([c]) ==
      if c as int == 10 then ['\\', 'n'] else if c == '\\' || c as int == 34 then ['\\', c] else [c]
  {
    LabelConcat(a + [c], b);
    LabelConcat(a, [c]);
    LabelOfChar(c);
  }

  /** What a reader of the metrics does with a label value; `None` for a value with a raw
      newline, a bare quote or an unknown escape. */
  function Unescape(s: string): Option<string> {
    if s == "" then Some("")
    else if s[0] == '\n' || s[0] == '\"' then None
    else if s[0] != '\\' then
      var rest := Unescape(s[1..]);
      if rest.None? then None else Some([s[0]] + rest.value)
    else if |s| < 2 then None
    else
      var rest := Unescape(s[2..]);
      if rest.None? then None
      else if s[1] == '\\' then Some("\\" + rest.value)
      else if s[1] == 'n' then Some("\n" + rest.value)
      else if s[1] == '\"' then Some("\"" + rest.value)
      else None
  }

  /** Every label value reads back as the string it was made from; in particular it holds no
      raw newline and no bare quote. */
  lemma {:induction false} LabelReadsBack(s: string)
    ensures Unescape(LabelValue(s)) == Some(s)
  {
    PassesAreOneEscape(s);
    if s != "" {
      LabelReadsBack(s[1..]);
      PassesAreOneEscape(s[1..]);
      var e := EscapeChar(s[0]);
      assert (e + Escape(s[1..]))[|e|..] == Escape(s[1..]);
      assert [s[0]] + s[1..] == s;
    }
  }
}
