/** String helpers with the meaning JavaScript gives them: `toLowerCase`,
    `trim`, `includes`, and the six-digit hex colour pattern. */
module Text {

  /** `s` occurs in `text` starting at position `i`. */
  predicate OccursAt(text: string, s: string, i: nat)
  {
    i + |s| <= |text| && text[i..i + |s|] == s
  }

  /** Occurrences in `text[1..]` are the occurrences in `text` shifted by one. */
  lemma OccursShift(text: string, s: string, i: nat)
    requires text != []
    ensures OccursAt(text, s, i + 1) <==> OccursAt(text[1..], s, i)
  {
    if i + 1 + |s| <= |text| {
      assert text[i + 1..i + 1 + |s|] == text[1..][i..i + |s|];
    }
  }

  /** `text.includes(s)`: `s` is a substring of `text`. */
  function Contains(text: string, s: string): (b: bool)
    ensures b <==> exists i: nat :: OccursAt(text, s, i)
    decreases |text|
  {
    if |s| > |text| then
      false
    else if text[..|s|] == s then
      assert OccursAt(text, s, 0);
      true
    else
      var rest := Contains(text[1..], s);
      assert !OccursAt(text, s, 0);
      assert rest ==> exists i: nat :: OccursAt(text, s, i) by {
        if rest {
          var i: nat :| OccursAt(text[1..], s, i);
          OccursShift(text, s, i);
        }
      }
      assert (exists i: nat :: OccursAt(text, s, i)) ==> rest by {
        if exists i: nat :: OccursAt(text, s, i) {
          var i: nat :| OccursAt(text, s, i);
          OccursShift(text, s, i - 1);
        }
      }
      rest
  }

  /** ASCII upper-case letters map to lower case; every other character is kept. */
  function LowerChar(c: char): (d: char)
  {
    if 'A' <= c <= 'Z' then (c as int - 'A' as int + 'a' as int) as char else c
  }

  /** `s.toLowerCase()` restricted to the ASCII letters. */
  function Lower(s: string): (t: string)
    ensures |t| == |s|
    ensures forall i :: 0 <= i < |s| ==> t[i] == LowerChar(s[i])
  {
    if s == [] then [] else [LowerChar(s[0])] + Lower(s[1..])
  }

  lemma LowerIdempotent(s: string)
    ensures Lower(Lower(s)) == Lower(s)
  {
    assert forall i :: 0 <= i < |s| ==> LowerChar(LowerChar(s[i])) == LowerChar(s[i]);
  }

  /** The characters `String.prototype.trim` removes: ECMAScript WhiteSpace
      and LineTerminator code points. */
  predicate IsWhitespace(c: char)
  {
    var n := c as int;
    n == 0x09 || n == 0x0A || n == 0x0B || n == 0x0C || n == 0x0D || n == 0x20
    || n == 0xA0 || n == 0x1680 || (0x2000 <= n <= 0x200A) || n == 0x2028
    || n == 0x2029 || n == 0x202F || n == 0x205F || n == 0x3000 || n == 0xFEFF
  }

  predicate AllWhitespace(s: string)
  {
    forall i :: 0 <= i < |s| ==> IsWhitespace(s[i])
  }

  /** `t` is what is left of `s` once whitespace before position `i` and
      after position `i + |t|` is cut away. */
  predicate TrimmedAt(s: string, t: string, i: nat)
  {
    i + |t| <= |s| && s[i..i + |t|] == t && AllWhitespace(s[..i]) && AllWhitespace(s[i + |t|..])
  }

  /** `s` without its leading whitespace. */
  function TrimStart(s: string): (t: string)
    ensures |t| <= |s|
  {
    if s != [] && IsWhitespace(s[0]) then TrimStart(s[1..]) else s
  }

  /** `s` without its trailing whitespace. */
  function TrimEnd(s: string): (t: string)
    ensures |t| <= |s|
  {
    if s != [] && IsWhitespace(s[|s| - 1]) then TrimEnd(s[..|s| - 1]) else s
  }

  /** `s.trim()`: the input with leading and trailing whitespace removed. */
  function Trim(s: string): (t: string)
    ensures |t| <= |s|
  {
    TrimEnd(TrimStart(s))
  }

  /** `TrimStart` cuts a whitespace prefix and stops at the first other character. */
  lemma {:induction false} TrimStartCutsPrefix(s: string)
    ensures var t := TrimStart(s); t == s[|s| - |t|..] && AllWhitespace(s[..|s| - |t|])
    ensures TrimStart(s) == [] || !IsWhitespace(TrimStart(s)[0])
  {
    if s != [] && IsWhitespace(s[0]) {
      var tail := s[1..];
      TrimStartCutsPrefix(tail);
      var t := TrimStart(tail);
      var i := |tail| - |t|;
      assert tail[i..] == s[i + 1..];
      WhitespaceCons(s[0], tail[..i]);
      assert [s[0]] + tail[..i] == s[..i + 1];
    } else {
      assert AllWhitespace(s[..0]);
    }
  }

  lemma WhitespaceCons(c: char, s: string)
    requires IsWhitespace(c) && AllWhitespace(s)
    ensures AllWhitespace([c] + s)
  {
    assert forall j :: 1 <= j < |s| + 1 ==> ([c] + s)[j] == s[j - 1];
  }

  /** `TrimEnd` cuts a whitespace suffix and stops at the last other character. */
  lemma {:induction false} TrimEndCutsSuffix(s: string)
    ensures var t := TrimEnd(s); t == s[..|t|] && AllWhitespace(s[|t|..])
    ensures TrimEnd(s) == [] || !IsWhitespace(TrimEnd(s)[|TrimEnd(s)| - 1])
  {
    if s != [] && IsWhitespace(s[|s| - 1]) {
      TrimEndCutsSuffix(s[..|s| - 1]);
      var t := TrimEnd(s[..|s| - 1]);
      assert s[..|s| - 1][..|t|] == s[..|t|];
      assert s[|t|..] == s[..|s| - 1][|t|..] + [s[|s| - 1]];
    }
  }

  lemma TrimParts(s: string, front: string, t: string)
    requires |front| <= |s| && front == s[|s| - |front|..] && AllWhitespace(s[..|s| - |front|])
    requires |t| <= |front| && t == front[..|t|] && AllWhitespace(front[|t|..])
    ensures exists i: nat :: TrimmedAt(s, t, i)
  {
    var i: nat := |s| - |front|;
    assert s[i..i + |t|] == front[..|t|];
    assert s[i + |t|..] == front[|t|..];
    assert TrimmedAt(s, t, i);
  }

  /** `Trim` removes exactly the surrounding whitespace: what is left sits in
      `s` between two all-whitespace stretches and neither starts nor ends
      with whitespace. */
  lemma TrimRemovesSurroundingWhitespace(s: string)
    ensures exists i: nat :: TrimmedAt(s, Trim(s), i)
    ensures Trim(s) == [] || (!IsWhitespace(Trim(s)[0]) && !IsWhitespace(Trim(s)[|Trim(s)| - 1]))
  {
    var front := TrimStart(s);
    var t := TrimEnd(front);
    TrimStartCutsPrefix(s);
    TrimEndCutsSuffix(front);
    TrimParts(s, front, t);
    assert t == Trim(s);
    if t != [] {
      assert t[0] == front[0];
    }
  }

  /** A string with no whitespace at either end is its own trim. */
  lemma TrimKeepsTrimmed(s: string)
    requires s == [] || (!IsWhitespace(s[0]) && !IsWhitespace(s[|s| - 1]))
    ensures Trim(s) == s
  {
  }

  /** Trimming twice is trimming once. */
  lemma TrimIdempotent(s: string)
    ensures Trim(Trim(s)) == Trim(s)
  {
    TrimRemovesSurroundingWhitespace(s);
    TrimKeepsTrimmed(Trim(s));
  }

  predicate IsHexDigit(c: char)
  {
    ('0' <= c <= '9') || ('a' <= c <= 'f') || ('A' <= c <= 'F')
  }

  /** The colour format `#` followed by exactly six hex digits: the regular
      expression `^#[0-9A-Fa-f]{6}$` of the validators and the GLOB pattern of
      the `goals.color` CHECK constraint describe the same strings. */
  predicate IsHexColor(s: string)
  {
    |s| == 7 && s[0] == '#' && forall i :: 1 <= i < 7 ==> IsHexDigit(s[i])
  }
}
