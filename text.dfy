/**
 * Character classes and the Python string operations that both scripts use:
 * `str.strip()`, `str.find`, `str.rfind`, `startswith` and the literal
 * `^...` / `...$` substitutions of the review sanitizer.
 */
module Text {

  /**
   * Python's whitespace: the code points for which `str.isspace()` holds. Both
   * `str.strip()` with no argument and the regular-expression class `\s` (for
   * `str` patterns) use this one set.
   */
  predicate IsSpace(c: char) {
    var n := c as int;
    (9 <= n <= 13) || (28 <= n <= 32) || n == 0x85 || n == 0xA0 || n == 0x1680
    || (0x2000 <= n <= 0x200A) || n == 0x2028 || n == 0x2029 || n == 0x202F
    || n == 0x205F || n == 0x3000
  }

  /** The ASCII part of the regular-expression class `\w`: letters, digits and `_`. */
  predicate IsWordChar(c: char) {
    ('a' <= c <= 'z') || ('A' <= c <= 'Z') || ('0' <= c <= '9') || c == '_'
  }

  /** A markdown code fence: three backticks. */
  const Fence: string := "```"

  predicate AllSpace(s: string) {
    forall k :: 0 <= k < |s| ==> IsSpace(s[k])
  }

  predicate StartsWith(s: string, prefix: string) {
    |prefix| <= |s| && s[..|prefix|] == prefix
  }

  predicate EndsWith(s: string, suffix: string) {
    |suffix| <= |s| && s[|s| - |suffix|..] == suffix
  }

  /** Drops the leading whitespace run: what remains is a suffix that starts with a non-space. */
  function TrimLeft(s: string): (r: string)
    ensures |r| <= |s| && r == s[|s| - |r|..]
    ensures r == [] || !IsSpace(r[0])
    decreases |s|
  {
    if s != [] && IsSpace(s[0]) then TrimLeft(s[1..]) else s
  }

  /** What TrimLeft drops is whitespace only. */
  lemma {:induction false} TrimLeftDropsSpaces(s: string)
    ensures AllSpace(s[..|s| - |TrimLeft(s)|])
    decreases |s|
  {
    if s != [] && IsSpace(s[0]) {
      TrimLeftDropsSpaces(s[1..]);
      var r := TrimLeft(s[1..]);
      assert s[..|s| - |r|] == [s[0]] + s[1..][..|s[1..]| - |r|];
    }
  }

  /** Drops the trailing whitespace run: what remains is a prefix that ends with a non-space. */
  function TrimRight(s: string): (r: string)
    ensures |r| <= |s| && r == s[..|r|]
    ensures r == [] || !IsSpace(r[|r| - 1])
    decreases |s|
  {
    if s != [] && IsSpace(s[|s| - 1]) then TrimRight(s[..|s| - 1]) else s
  }

  /** What TrimRight drops is whitespace only. */
  lemma {:induction false} TrimRightDropsSpaces(s: string)
    ensures AllSpace(s[|TrimRight(s)|..])
    decreases |s|
  {
    if s != [] && IsSpace(s[|s| - 1]) {
      TrimRightDropsSpaces(s[..|s| - 1]);
      var r := TrimRight(s[..|s| - 1]);
      assert s[|r|..] == s[..|s| - 1][|r|..] + [s[|s| - 1]];
    }
  }

  /**
   * `str.strip()`: the text between the leading and the trailing whitespace
   * runs. The result has no whitespace at either of its ends; StripParts
   * shows that only whitespace is cut off around it.
   */
  function Strip(s: string): (r: string)
    ensures |r| <= |s|
    ensures r == [] || (!IsSpace(r[0]) && !IsSpace(r[|r| - 1]))
  {
    var t := TrimLeft(s);
    var r := TrimRight(t);
    assert r != [] ==> r[0] == t[0];
    r
  }

  /** Leading spaces in front of a text that starts with a non-space are exactly what TrimLeft drops. */
  lemma {:induction false} TrimLeftAfterSpaces(spaces: string, t: string)
    requires AllSpace(spaces)
    requires t == [] || !IsSpace(t[0])
    ensures TrimLeft(spaces + t) == t
    decreases |spaces|
  {
    if spaces == [] {
      assert spaces + t == t;
    } else {
      assert (spaces + t)[1..] == spaces[1..] + t;
      TrimLeftAfterSpaces(spaces[1..], t);
    }
  }

  /** Trailing spaces behind a text that ends with a non-space are exactly what TrimRight drops. */
  lemma {:induction false} TrimRightBeforeSpaces(t: string, spaces: string)
    requires AllSpace(spaces)
    requires t == [] || !IsSpace(t[|t| - 1])
    ensures TrimRight(t + spaces) == t
    decreases |spaces|
  {
    if spaces == [] {
      assert t + spaces == t;
    } else {
      var n := |spaces| - 1;
      assert (t + spaces)[..|t + spaces| - 1] == t + spaces[..n];
      TrimRightBeforeSpaces(t, spaces[..n]);
    }
  }

  /**
   * Strip is determined by its contract: a text with whitespace runs around a
   * core that begins and ends with a non-space strips to that core.
   */
  lemma StripAround(before: string, core: string, after: string)
    requires AllSpace(before) && AllSpace(after)
    requires core == [] || (!IsSpace(core[0]) && !IsSpace(core[|core| - 1]))
    ensures Strip(before + core + after) == core
  {
    var s := before + core + after;
    if core == [] {
      assert s == (before + after) + [];
      TrimLeftAfterSpaces(before + after, []);
      assert TrimLeft(s) == [];
    } else {
      assert s == before + (core + after);
      TrimLeftAfterSpaces(before, core + after);
      TrimRightBeforeSpaces(core, after);
    }
  }

  /** Leading whitespace alone in front of a core with non-space ends strips to the core. */
  lemma StripLeadingSpaces(before: string, core: string)
    requires AllSpace(before)
    requires core == [] || (!IsSpace(core[0]) && !IsSpace(core[|core| - 1]))
    ensures Strip(before + core) == core
  {
    assert before + core + [] == before + core;
    StripAround(before, core, []);
  }

  /** Trailing whitespace alone behind a core with non-space ends strips to the core. */
  lemma StripTrailingSpaces(core: string, after: string)
    requires AllSpace(after)
    requires core == [] || (!IsSpace(core[0]) && !IsSpace(core[|core| - 1]))
    ensures Strip(core + after) == core
  {
    assert [] + core + after == core + after;
    StripAround([], core, after);
  }

  /** Concatenation is associative. */
  lemma Associative<T>(a: seq<T>, b: seq<T>, c: seq<T>)
    ensures a + b + c == a + (b + c)
  {
  }

  /** A sequence is the part in front of a suffix, a prefix of that suffix, and the rest of the suffix. */
  lemma Recompose<T>(s: seq<T>, t: seq<T>, r: seq<T>)
    requires |t| <= |s| && t == s[|s| - |t|..]
    requires |r| <= |t| && r == t[..|r|]
    ensures s == s[..|s| - |t|] + r + t[|r|..]
  {
    assert t == r + t[|r|..];
    assert s == s[..|s| - |t|] + t;
  }

  /** What Strip cuts off: a whitespace run in front and a whitespace run behind, nothing else. */
  lemma StripParts(s: string) returns (before: string, after: string)
    ensures s == before + Strip(s) + after
    ensures AllSpace(before) && AllSpace(after)
  {
    var t := TrimLeft(s);
    var r := TrimRight(t);
    TrimLeftDropsSpaces(s);
    TrimRightDropsSpaces(t);
    before, after := s[..|s| - |t|], t[|r|..];
    Recompose(s, t, r);
  }

  /** Stripping twice is stripping once. */
  lemma StripIdempotent(s: string)
    ensures Strip(Strip(s)) == Strip(s)
  {
    StripUnchanged(Strip(s));
  }

  /** A text with no whitespace at either end is left alone by Strip. */
  lemma StripUnchanged(s: string)
    requires s == [] || (!IsSpace(s[0]) && !IsSpace(s[|s| - 1]))
    ensures Strip(s) == s
  {
    assert [] + s + [] == s;
    StripAround([], s, []);
  }

  /** `s.find(c)`: the first index of `c`, or -1 when `c` does not occur. */
  function Find(s: string, c: char): (r: int)
    ensures -1 <= r < |s|
    ensures r == -1 <==> c !in s
    ensures 0 <= r ==> s[r] == c && c !in s[..r]
    decreases |s|
  {
    if s == [] then -1
    else if s[0] == c then 0
    else
      var k := Find(s[1..], c);
      assert c in s[1..] ==> c in s;
      assert c in s ==> c in s[1..];
      if k == -1 then -1
      else
        assert s[..k + 1] == [s[0]] + s[1..][..k];
        k + 1
  }

  /** `s.rfind(c)`: the last index of `c`, or -1 when `c` does not occur. */
  function RFind(s: string, c: char): (r: int)
    ensures -1 <= r < |s|
    ensures r == -1 <==> c !in s
    ensures 0 <= r ==> s[r] == c && c !in s[r + 1..]
    decreases |s|
  {
    if s == [] then -1
    else if s[|s| - 1] == c then |s| - 1
    else
      var init := s[..|s| - 1];
      var k := RFind(init, c);
      assert s == init + [s[|s| - 1]];
      if k == -1 then -1
      else
        assert s[k + 1..] == init[k + 1..] + [s[|s| - 1]];
        k
  }

  /** `re.sub("^" + prefix, "", s)` for a literal prefix: removes it once, only at the very start. */
  function RemoveLeading(s: string, prefix: string): (r: string)
    ensures StartsWith(s, prefix) ==> s == prefix + r
    ensures !StartsWith(s, prefix) ==> r == s
  {
    if StartsWith(s, prefix) then
      assert s == s[..|prefix|] + s[|prefix|..];
      s[|prefix|..]
    else
      s
  }

  /**
   * `re.sub(suffix + "$", "", s)` for a literal suffix, on a text that does not
   * end in whitespace, as the precondition demands (so `$` matches only at the
   * very end, never before a final newline): removes it once, only at the very
   * end.
   */
  function RemoveTrailing(s: string, suffix: string): (r: string)
    requires s == [] || !IsSpace(s[|s| - 1])
    ensures EndsWith(s, suffix) ==> s == r + suffix
    ensures !EndsWith(s, suffix) ==> r == s
  {
    if EndsWith(s, suffix) then
      assert s == s[..|s| - |suffix|] + s[|s| - |suffix|..];
      s[..|s| - |suffix|]
    else
      s
  }
}
