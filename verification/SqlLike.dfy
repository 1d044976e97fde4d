/**
 The LIKE patterns of the log search (dashboard.py, `_like_escape`): with
 `ESCAPE '\'`, an escaped needle matches itself and nothing else.
 */
module SqlLike {

  const ESCAPE: char := '\\'

  /** `text LIKE pattern ESCAPE '\'`. */
  predicate Like(text: string, pattern: string)
    decreases |pattern|, |text|
  {
    if pattern == "" then text == ""
    else if pattern[0] == ESCAPE then
      |pattern| >= 2 && text != "" && text[0] == pattern[1] && Like(text[1..], pattern[2..])
    else if pattern[0] == '%' then
      Like(text, pattern[1..]) || (text != "" && Like(text[1..], pattern))
    else
      text != "" && (pattern[0] == '_' || text[0] == pattern[0]) && Like(text[1..], pattern[1..])
  }

  /** `s.replace(c, to)` for a single character. */
  function Replace(s: string, c: char, to: string): string {
    if s == "" then "" else (if s[0] == c then to else [s[0]]) + Replace(s[1..], c, to)
  }

  function LikeEscape(s: string): string {
    Replace(Replace(Replace(s, '\\', "\\\\"), '%', "\\%"), '_', "\\_")
  }

  function PrefixPattern(needle: string): string { LikeEscape(needle) + "%" }

  function ContainsPattern(needle: string): string { "%" + LikeEscape(needle) + "%" }

  /** The needle occurs somewhere in the text. */
  predicate Occurs(needle: string, text: string) {
    exists i :: 0 <= i <= |text| && needle <= text[i..]
  }

  // ---- The three replacements are one escape per character -----------------

  function Escaped(c: char): string {
    if c == '\\' || c == '%' || c == '_' then [ESCAPE, c] else [c]
  }

  function EscapeEach(s: string): string {
    if s == "" then "" else Escaped(s[0]) + EscapeEach(s[1..])
  }

  lemma {:induction false} ReplaceAppend(a: string, b: string, c: char, to: string)
    ensures Replace(a + b, c, to) == Replace(a, c, to) + Replace(b, c, to)
    decreases |a|
  {
    if a == "" {
      assert a + b == b;
    } else {
      assert (a + b)[1..] == a[1..] + b;
      ReplaceAppend(a[1..], b, c, to);
    }
  }

  lemma ReplaceOne(x: char, c: char, to: string)
    ensures Replace([x], c, to) == if x == c then to else [x]
  {
    assert [x][1..] == "";
  }

  lemma ReplaceTwo(x: char, y: char, c: char, to: string)
    requires x != c
    ensures Replace([x, y], c, to) == if y == c then [x] + to else [x, y]
  {
    assert [x, y] == [x] + [y];
    ReplaceAppend([x], [y], c, to);
    ReplaceOne(x, c, to);
    ReplaceOne(y, c, to);
  }

  /** One character through all three replacements. */
  lemma EscapeOne(c: char)
    ensures LikeEscape([c]) == Escaped(c)
  {
    hide Replace;
    ReplaceOne(c, '\\', "\\\\");
    if c == '\\' {
      assert "\\\\" == ['\\', '\\'];
      ReplaceTwo('\\', '\\', '%', "\\%");
      ReplaceTwo('\\', '\\', '_', "\\_");
    } else {
      ReplaceOne(c, '%', "\\%");
      if c == '%' {
        assert "\\%" == ['\\', '%'];
        ReplaceTwo('\\', '%', '_', "\\_");
      } else {
        ReplaceOne(c, '_', "\\_");
      }
    }
  }

  lemma LikeEscapeAppend(a: string, b: string)
    ensures LikeEscape(a + b) == LikeEscape(a) + LikeEscape(b)
  {
    hide Replace;
    ReplaceAppend(a, b, '\\', "\\\\");
    var a', b' := Replace(a, '\\', "\\\\"), Replace(b, '\\', "\\\\");
    ReplaceAppend(a', b', '%', "\\%");
    ReplaceAppend(Replace(a', '%', "\\%"), Replace(b', '%', "\\%"), '_', "\\_");
  }

  lemma {:induction false} EscapesEach(s: string)
    ensures LikeEscape(s) == EscapeEach(s)
    decreases |s|
  {
    if s != "" {
      EscapesEach(s[1..]);
      EscapeOne(s[0]);
      LikeEscapeAppend([s[0]], s[1..]);
      assert s == [s[0]] + s[1..];
      hide LikeEscape;
    }
  }

  // ---- What the patterns match --------------------------------------------

  lemma TrailingPercent(text: string)
    ensures Like(text, "%")
  {
    if text != "" {
      TrailingPercent(text[1..]);
    }
  }

  lemma LikeEscapedChar(text: string, c: char, rest: string)
    ensures Like(text, Escaped(c) + rest) <==> text != "" && text[0] == c && Like(text[1..], rest)
  {
    if c == '\\' || c == '%' || c == '_' {
      assert ([ESCAPE, c] + rest)[2..] == rest;
    } else {
      assert ([c] + rest)[1..] == rest;
    }
  }

  lemma {:induction false} PrefixMatches(text: string, needle: string)
    ensures Like(text, EscapeEach(needle) + "%") <==> needle <= text
    decreases |needle|
  {
    if needle == "" {
      assert "" + "%" == "%";
      TrailingPercent(text);
    } else {
      var rest := EscapeEach(needle[1..]) + "%";
      assert EscapeEach(needle) + "%" == Escaped(needle[0]) + rest;
      LikeEscapedChar(text, needle[0], rest);
      if text != "" {
        PrefixMatches(text[1..], needle[1..]);
        assert needle <= text <==> needle[0] == text[0] && needle[1..] <= text[1..];
      }
    }
  }

  /** A prefix filter matches exactly the texts that start with the needle. */
  lemma PrefixPatternExact(text: string, needle: string)
    ensures Like(text, PrefixPattern(needle)) <==> needle <= text
  {
    EscapesEach(needle);
    PrefixMatches(text, needle);
  }

  lemma {:induction false} PercentSkips(text: string, pattern: string)
    ensures Like(text, "%" + pattern) <==> exists i :: 0 <= i <= |text| && Like(text[i..], pattern)
    decreases |text|
  {
    assert ("%" + pattern)[1..] == pattern;
    if Like(text, pattern) {
      assert text[0..] == text;
    } else if text != "" {
      PercentSkips(text[1..], pattern);
      assert forall i | 0 <= i <= |text| - 1 :: text[1..][i..] == text[i + 1..];
      if Like(text[1..], "%" + pattern) {
        var i :| 0 <= i <= |text[1..]| && Like(text[1..][i..], pattern);
        assert text[i + 1..] == text[1..][i..];
      } else {
        forall i | 0 <= i <= |text|
          ensures !Like(text[i..], pattern)
        {
          assert text[i..] == if i == 0 then text else text[1..][i - 1..];
        }
      }
    } else {
      assert text[0..] == text;
    }
  }

  /** A contains filter matches exactly the texts in which the needle occurs. */
  lemma ContainsPatternExact(text: string, needle: string)
    ensures Like(text, ContainsPattern(needle)) <==> Occurs(needle, text)
  {
    EscapesEach(needle);
    var p := EscapeEach(needle) + "%";
    assert ContainsPattern(needle) == "%" + p;
    PercentSkips(text, p);
    forall i | 0 <= i <= |text|
      ensures Like(text[i..], p) <==> needle <= text[i..]
    {
      PrefixMatches(text[i..], needle);
    }
  }
}
