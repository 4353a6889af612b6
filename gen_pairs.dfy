/**
 * The lenient batch parser of scripts/gen_pairs.py (`safe_load_json`): trim,
 * strip a leading and a trailing markdown fence, narrow to the outermost
 * `[...]`, repair trailing commas to a fixed point, then parse; when parsing
 * fails, hand back the original text.
 */
module GenPairs {
  import opened Wrappers
  import opened Text
  import opened JsonValues

  // ---------------------------------------------------------------------------
  // Fences: re.sub(r"^```[\w-]*\s*", "", s) and re.sub(r"\s*```$", "", s)
  // ---------------------------------------------------------------------------

  /** The characters of a fence's language tag, `[\w-]`. */
  predicate IsTagChar(c: char) {
    IsWordChar(c) || c == '-'
  }

  predicate AllTag(s: string) {
    forall k :: 0 <= k < |s| ==> IsTagChar(s[k])
  }

  /** Drops the leading run of tag characters (how far `[\w-]*` reaches). */
  function SkipTag(s: string): (r: string)
    ensures |r| <= |s| && r == s[|s| - |r|..]
    ensures AllTag(s[..|s| - |r|])
    ensures r == [] || !IsTagChar(r[0])
    decreases |s|
  {
    if s != [] && IsTagChar(s[0]) then
      var r := SkipTag(s[1..]);
      assert s[..|s| - |r|] == [s[0]] + s[1..][..|s[1..]| - |r|];
      r
    else
      s
  }

  /**
   * The opening-fence substitution. `^` anchors it at position 0 and both
   * repetitions are greedy, so it removes the fence, the longest tag after it
   * and the longest whitespace run after that, or nothing when the text does
   * not start with a fence. Only a prefix is ever removed.
   */
  function StripOpenFence(s: string): (r: string)
    ensures |r| <= |s| && r == s[|s| - |r|..]
    ensures StartsWith(s, Fence) <==> r != s
    ensures StartsWith(s, Fence) ==> |r| <= |s| - |Fence| && (r == [] || !IsSpace(r[0]))
  {
    if StartsWith(s, Fence) then TrimLeft(SkipTag(s[|Fence|..])) else s
  }

  /**
   * The closing-fence substitution on a text that does not end in a newline
   * (see InputToCloseFenceEndsInNonSpace): it removes a final fence together
   * with the whitespace run in front of it, or nothing when the text does not
   * end with a fence. Only a suffix is ever removed.
   */
  function StripCloseFence(s: string): (r: string)
    ensures |r| <= |s| && r == s[..|r|]
    ensures EndsWith(s, Fence) <==> r != s
    ensures EndsWith(s, Fence) ==> |r| <= |s| - |Fence| && AllSpace(s[|r|..|s| - |Fence|]) && (r == [] || !IsSpace(r[|r| - 1]))
  {
    if EndsWith(s, Fence) then
      TrimRightDropsSpaces(s[..|s| - |Fence|]);
      TrimRight(s[..|s| - |Fence|])
    else
      s
  }

  /** The two fence substitutions, in the order the source applies them. */
  function Unfence(s: string): string {
    StripCloseFence(StripOpenFence(s))
  }

  /** A whitespace character is never part of a language tag. */
  lemma SpaceIsNotTag(c: char)
    requires IsSpace(c)
    ensures !IsTagChar(c)
  {
  }

  /** Tag characters in front of a text that starts with a non-tag character are exactly what SkipTag drops. */
  lemma {:induction false} SkipTagAfterTag(tag: string, t: string)
    requires AllTag(tag)
    requires t == [] || !IsTagChar(t[0])
    ensures SkipTag(tag + t) == t
    decreases |tag|
  {
    if tag == [] {
      assert tag + t == t;
    } else {
      assert (tag + t)[1..] == tag[1..] + t;
      SkipTagAfterTag(tag[1..], t);
    }
  }

  /**
   * The opening substitution removes exactly the fence, a maximal tag and a
   * maximal whitespace run, and leaves the rest of the text untouched.
   */
  lemma OpenFenceRemovesExactly(tag: string, spaces: string, rest: string)
    requires AllTag(tag) && AllSpace(spaces)
    requires rest == [] || !IsSpace(rest[0])
    requires spaces == [] ==> rest == [] || !IsTagChar(rest[0])
    ensures StripOpenFence(Fence + tag + spaces + rest) == rest
  {
    var s := Fence + tag + spaces + rest;
    assert StartsWith(s, Fence) by { assert s[..|Fence|] == Fence; }
    assert s[|Fence|..] == tag + (spaces + rest);
    if spaces != [] {
      SpaceIsNotTag(spaces[0]);
      assert (spaces + rest)[0] == spaces[0];
    } else {
      assert spaces + rest == rest;
    }
    SkipTagAfterTag(tag, spaces + rest);
    TrimLeftAfterSpaces(spaces, rest);
  }

  /**
   * The closing substitution removes exactly a final fence and the whitespace
   * in front of it, and leaves the rest of the text untouched.
   */
  lemma CloseFenceRemovesExactly(body: string, spaces: string)
    requires AllSpace(spaces)
    requires body == [] || !IsSpace(body[|body| - 1])
    ensures StripCloseFence(body + spaces + Fence) == body
  {
    var s := body + spaces + Fence;
    assert EndsWith(s, Fence) by { assert s[|s| - |Fence|..] == Fence; }
    assert s[..|s| - |Fence|] == body + spaces;
    TrimRightBeforeSpaces(body, spaces);
  }

  /** A fenced block starts and ends with a backtick, so the trim leaves it alone, whatever is inside. */
  lemma StripKeepsFenced(tag: string, spaces1: string, body: string, spaces2: string)
    ensures var s := Fence + tag + spaces1 + body + spaces2 + Fence; Strip(s) == s
  {
    var s := Fence + tag + spaces1 + body + spaces2 + Fence;
    assert s[0] == '`' && s[|s| - 1] == '`';
    StripUnchanged(s);
  }

  /** A fenced block with nothing but a tag and whitespace inside unwraps to the empty text. */
  lemma EmptyFencedPayload(tag: string, spaces1: string, spaces2: string)
    requires AllTag(tag) && AllSpace(spaces1) && AllSpace(spaces2)
    ensures Unfence(Fence + tag + spaces1 + [] + spaces2 + Fence) == []
  {
    var spaces := spaces1 + spaces2;
    assert AllSpace(spaces) by {
      forall k | 0 <= k < |spaces| ensures IsSpace(spaces[k]) {
        if k < |spaces1| { assert spaces[k] == spaces1[k]; } else { assert spaces[k] == spaces2[k - |spaces1|]; }
      }
    }
    assert Fence + tag + spaces1 + [] + spaces2 + Fence == Fence + tag + spaces + Fence;
    OpenFenceRemovesExactly(tag, spaces, Fence);
    assert Fence == [] + [] + Fence;
    CloseFenceRemovesExactly([], []);
  }

  /** A fenced block around a non-empty payload unwraps to exactly that payload. */
  lemma NonEmptyFencedPayload(tag: string, spaces1: string, body: string, spaces2: string)
    requires AllTag(tag) && AllSpace(spaces1) && AllSpace(spaces2)
    requires body != [] && !IsSpace(body[0]) && !IsSpace(body[|body| - 1])
    requires spaces1 == [] ==> !IsTagChar(body[0])
    ensures Unfence(Fence + tag + spaces1 + body + spaces2 + Fence) == body
  {
    var rest := body + spaces2 + Fence;
    assert Fence + tag + spaces1 + body + spaces2 + Fence == Fence + tag + spaces1 + rest;
    assert rest[0] == body[0];
    OpenFenceRemovesExactly(tag, spaces1, rest);
    CloseFenceRemovesExactly(body, spaces2);
  }

  /** Both fence substitutions together remove exactly the fence tokens around a payload. */
  lemma FencedPayloadUnfenced(tag: string, spaces1: string, body: string, spaces2: string)
    requires AllTag(tag) && AllSpace(spaces1) && AllSpace(spaces2)
    requires body == [] || (!IsSpace(body[0]) && !IsSpace(body[|body| - 1]))
    requires spaces1 == [] ==> body == [] || !IsTagChar(body[0])
    ensures Unfence(Fence + tag + spaces1 + body + spaces2 + Fence) == body
  {
    if body == [] {
      EmptyFencedPayload(tag, spaces1, spaces2);
    } else {
      NonEmptyFencedPayload(tag, spaces1, body, spaces2);
    }
  }

  /**
   * A payload wrapped in an opening fence with an optional language tag and a
   * closing fence comes out of the trim and both fence substitutions with
   * exactly the fence tokens removed and its interior untouched.
   */
  lemma FencedPayloadUnwrapped(tag: string, spaces1: string, body: string, spaces2: string)
    requires AllTag(tag) && AllSpace(spaces1) && AllSpace(spaces2)
    requires body == [] || (!IsSpace(body[0]) && !IsSpace(body[|body| - 1]))
    requires spaces1 == [] ==> body == [] || !IsTagChar(body[0])
    ensures Unfence(Strip(Fence + tag + spaces1 + body + spaces2 + Fence)) == body
  {
    FencedPayloadUnfenced(tag, spaces1, body, spaces2);
    StripKeepsFenced(tag, spaces1, body, spaces2);
  }

  /**
   * The closing fence pattern ends in `$`, which in Python also matches in
   * front of a final newline. The text it is applied to never ends in
   * whitespace, so there `$` only matches at the very end of the text.
   */
  lemma InputToCloseFenceEndsInNonSpace(content: string)
    ensures var s := StripOpenFence(Strip(content)); s == [] || !IsSpace(s[|s| - 1])
  {
  }

  // ---------------------------------------------------------------------------
  // Narrowing to the outermost array (lines 30-34)
  // ---------------------------------------------------------------------------

  /** Some `[` occurs before some `]`. */
  predicate HasArraySpan(s: string) {
    exists i, j :: 0 <= i < j < |s| && s[i] == '[' && s[j] == ']'
  }

  /**
   * Keeps only the text from the first `[` to the last `]` when a `]` follows
   * a `[`; otherwise the text is unchanged.
   */
  function NarrowToArray(s: string): (r: string)
    ensures HasArraySpan(s) ==>
      2 <= |r| && r[0] == '[' && r[|r| - 1] == ']' &&
      exists i :: 0 <= i <= |s| - |r| && r == s[i..i + |r|] && '[' !in s[..i] && ']' !in s[i + |r|..]
    ensures !HasArraySpan(s) ==> r == s
  {
    if '[' in s && ']' in s then
      var start := Find(s, '[');
      var end := RFind(s, ']');
      if start != -1 && end != -1 && end > start then
        NarrowedSpan(s, start, end);
        s[start..end + 1]
      else
        NoSpanWhenUnordered(s, start, end);
        s
    else
      s
  }

  /** The slice from the first `[` to a later last `]` is the outermost array span. */
  lemma NarrowedSpan(s: string, start: int, end: int)
    requires 0 <= start < end < |s| && s[start] == '[' && s[end] == ']'
    requires '[' !in s[..start] && ']' !in s[end + 1..]
    ensures HasArraySpan(s)
    ensures var r := s[start..end + 1];
      2 <= |r| && r[0] == '[' && r[|r| - 1] == ']' &&
      exists i :: 0 <= i <= |s| - |r| && r == s[i..i + |r|] && '[' !in s[..i] && ']' !in s[i + |r|..]
  {
    var r := s[start..end + 1];
    assert r == s[start..start + |r|];
    assert s[start + |r|..] == s[end + 1..];
  }

  /** When the last `]` does not come after the first `[`, no `]` follows any `[`. */
  lemma NoSpanWhenUnordered(s: string, start: int, end: int)
    requires -1 <= start < |s| && -1 <= end < |s|
    requires start == -1 <==> '[' !in s
    requires 0 <= start ==> '[' !in s[..start]
    requires end == -1 <==> ']' !in s
    requires 0 <= end ==> ']' !in s[end + 1..]
    requires !(start != -1 && end != -1 && end > start)
    ensures !HasArraySpan(s)
  {
    forall i | 0 <= i < start ensures s[i] != '[' {
      assert s[..start][i] == s[i];
    }
    forall j | end < j < |s| ensures s[j] != ']' {
      assert s[end + 1..][j - end - 1] == s[j];
    }
    forall i, j | 0 <= i < j < |s| && s[i] == '[' ensures s[j] != ']' {
      assert '[' in s by { assert s[i] == '['; }
      assert start <= i;
      if end != -1 {
        assert end < j;
      } else {
        assert ']' !in s;
      }
    }
  }

  // ---------------------------------------------------------------------------
  // Trailing commas: re.sub(r",\s*([}\]])", r"\1", text), and its fixed point
  // ---------------------------------------------------------------------------

  predicate IsCloser(c: char) {
    c == '}' || c == ']'
  }

  /** The length of the leading whitespace run of `t` (how far `\s*` reaches). */
  function SpaceRun(t: string): (k: nat)
    ensures k <= |t| && AllSpace(t[..k]) && (k == |t| || !IsSpace(t[k]))
  {
    TrimLeftDropsSpaces(t);
    |t| - |TrimLeft(t)|
  }

  /** Where, in a text that starts with a comma, the first character after its whitespace run lies. */
  function AfterSpaces(t: string): (j: nat)
    requires t != []
    ensures 1 <= j <= |t|
  {
    1 + SpaceRun(t[1..])
  }

  /** The pattern matches at the start of `t`: a comma whose first following non-space is `}` or `]`. */
  predicate MatchesAtStart(t: string) {
    t != [] && t[0] == ',' && AfterSpaces(t) < |t| && IsCloser(t[AfterSpaces(t)])
  }

  /**
   * One `re.sub` pass, scanning left to right. Where the pattern matches, the
   * comma and its whitespace are replaced by the bracket and the scan goes on
   * after the bracket; elsewhere one character is kept and the scan moves on
   * by one.
   */
  function Pass(t: string): (r: string)
    ensures |r| <= |t|
    decreases |t|
  {
    if t == [] then []
    else if MatchesAtStart(t) then
      var j := AfterSpaces(t);
      [t[j]] + Pass(t[j + 1..])
    else
      [t[0]] + Pass(t[1..])
  }

  /** No comma is followed by zero or more whitespace characters and then `}` or `]`. */
  predicate NoTrailingComma(t: string) {
    forall i, j :: 0 <= i < j < |t| && t[i] == ',' && IsCloser(t[j]) ==> !AllSpace(t[i + 1..j])
  }

  /** A match at the start is a trailing comma: a comma, then only whitespace, then the bracket. */
  lemma MatchIsTrailingComma(t: string)
    requires t != []
    ensures MatchesAtStart(t) ==> t[0] == ',' && AfterSpaces(t) < |t| && IsCloser(t[AfterSpaces(t)]) && AllSpace(t[1..AfterSpaces(t)])
  {
    assert t[1..][..AfterSpaces(t) - 1] == t[1..AfterSpaces(t)];
  }

  /** Conversely, a trailing comma at the start of the text is where the pattern matches. */
  lemma TrailingCommaIsMatch(t: string, j: nat)
    requires 0 < j < |t| && t[0] == ',' && IsCloser(t[j]) && AllSpace(t[1..j])
    ensures MatchesAtStart(t) && AfterSpaces(t) == j
  {
    assert t[1..][j - 1] == t[j];
    assert forall m :: 0 <= m < j - 1 ==> IsSpace(t[1..][m]) by {
      forall m | 0 <= m < j - 1 ensures IsSpace(t[1..][m]) { assert t[1..][m] == t[1..j][m]; }
    }
  }

  /** Dropping the first character keeps a text free of trailing commas. */
  lemma TailHasNoTrailingComma(t: string)
    requires t != [] && NoTrailingComma(t)
    ensures NoTrailingComma(t[1..])
  {
    var u := t[1..];
    forall i, j | 0 <= i < j < |u| && u[i] == ',' && IsCloser(u[j]) ensures !AllSpace(u[i + 1..j]) {
      assert t[i + 1] == ',' && IsCloser(t[j + 1]);
      assert u[i + 1..j] == t[i + 2..j + 1];
    }
  }

  /** A pass over a text with no trailing comma changes nothing. */
  lemma {:induction false} PassKeepsCleanText(t: string)
    requires NoTrailingComma(t)
    ensures Pass(t) == t
    decreases |t|
  {
    if t != [] {
      MatchIsTrailingComma(t);
      assert !MatchesAtStart(t);
      TailHasNoTrailingComma(t);
      PassKeepsCleanText(t[1..]);
      assert t == [t[0]] + t[1..];
    }
  }

  /** A pass over a text with a trailing comma at position i deletes something. */
  lemma {:induction false} PassShrinksAt(t: string, i: nat, j: nat)
    requires i < j < |t| && t[i] == ',' && IsCloser(t[j]) && AllSpace(t[i + 1..j])
    ensures |Pass(t)| < |t|
    decreases i
  {
    if i == 0 {
      TrailingCommaIsMatch(t, j);
    } else if !MatchesAtStart(t) {
      var u := t[1..];
      assert u[i - 1] == ',' && IsCloser(u[j - 1]);
      assert u[i..j - 1] == t[i + 1..j];
      PassShrinksAt(u, i - 1, j - 1);
    }
  }

  /** Every pass either changes nothing or makes the text strictly shorter. */
  lemma PassProgress(t: string)
    ensures Pass(t) == t || |Pass(t)| < |t|
  {
    if !NoTrailingComma(t) {
      var i, j :| 0 <= i < j < |t| && t[i] == ',' && IsCloser(t[j]) && AllSpace(t[i + 1..j]);
      PassShrinksAt(t, i, j);
    }
  }

  /** A pass is the identity exactly on the texts with no trailing comma. */
  lemma PassFixedExactlyWhenClean(t: string)
    ensures Pass(t) == t <==> NoTrailingComma(t)
  {
    if NoTrailingComma(t) {
      PassKeepsCleanText(t);
    } else {
      var i, j :| 0 <= i < j < |t| && t[i] == ',' && IsCloser(t[j]) && AllSpace(t[i + 1..j]);
      PassShrinksAt(t, i, j);
    }
  }

  /**
   * The text the `while prev != text` loop ends with: passes repeated until one
   * changes nothing. Each changing pass shortens the text, so this terminates,
   * and what it ends with is a fixed point of the pass no longer than its input.
   */
  function Repaired(t: string): (r: string)
    ensures Pass(r) == r
    ensures |r| <= |t|
    decreases |t|
  {
    var p := Pass(t);
    if p == t then t
    else
      PassProgress(t);
      Repaired(p)
  }

  /** The repaired text has no comma followed by whitespace and then `}` or `]`. */
  lemma RepairedHasNoTrailingComma(t: string)
    ensures NoTrailingComma(Repaired(t))
  {
    PassFixedExactlyWhenClean(Repaired(t));
  }

  /** Repairing is idempotent: the repair of a repaired text is that text. */
  lemma RepairedIdempotent(t: string)
    ensures Repaired(Repaired(t)) == Repaired(t)
  {
  }

  /** A text with no trailing comma survives the first pass unchanged, so the loop stops at once. */
  lemma CleanTextUnchanged(t: string)
    requires NoTrailingComma(t)
    ensures Pass(t) == t && Repaired(t) == t
  {
    PassKeepsCleanText(t);
  }

  /** One pass is not enough for `,,]`: the first comma only becomes trailing once the second is gone. */
  lemma OnePassIsNotEnough()
    ensures Pass(",,]") == ",]" && Repaired(",,]") == "]"
  {
    var t := ",,]";
    var u := t[1..];
    assert SpaceRun(u) == 0 by { assert !IsSpace(u[0]); }
    assert !MatchesAtStart(t);
    assert u == [',', ']'] + [];
    PassCollapsesCommaBracket(']', []);
    assert Pass(u) == "]";
    assert Pass(t) == ",]";
    assert Repaired(t) == Repaired(",]");
    assert Repaired(",]") == Repaired("]");
    assert Pass("]") == "]";
  }

  /**
   * The rule is purely textual: it also fires inside a JSON string literal, so
   * the repaired text can differ from the input inside a string.
   */
  lemma RuleFiresInsideStrings()
    ensures Pass("[\"a,]\"]") == "[\"a]\"]"
  {
    var head, tail := "[\"a", "\"]";
    assert "[\"a,]\"]" == head + [',', ']'] + tail;
    assert "[\"a]\"]" == head + [']'] + tail;
    LoneTrailingCommaDropped(head, ']', tail);
  }

  /** Between comma-free texts, a comma directly in front of a bracket is the only thing a pass removes. */
  lemma LoneTrailingCommaDropped(head: string, b: char, tail: string)
    requires ',' !in head && ',' !in tail && IsCloser(b)
    ensures Pass(head + [',', b] + tail) == head + [b] + tail
  {
    var mid := [',', b] + tail;
    Associative(head, [',', b], tail);
    PassKeepsCommaFreePrefix(head, mid);
    PassCollapsesCommaBracket(b, tail);
    PassKeepsCommaFree(tail);
    Associative(head, [b], tail);
  }

  /** A pass leaves a text without commas as it is. */
  lemma PassKeepsCommaFree(p: string)
    requires ',' !in p
    ensures Pass(p) == p
  {
    assert p + [] == p;
    PassKeepsCommaFreePrefix(p, []);
  }

  /** A pass copies a comma-free prefix unchanged and goes on after it. */
  lemma {:induction false} PassKeepsCommaFreePrefix(p: string, rest: string)
    requires ',' !in p
    ensures Pass(p + rest) == p + Pass(rest)
    decreases |p|
  {
    if p == [] {
      assert p + rest == rest;
    } else {
      var t := p + rest;
      assert t[0] == p[0] && t[1..] == p[1..] + rest;
      assert !MatchesAtStart(t);
      PassKeepsCommaFreePrefix(p[1..], rest);
      assert p == [p[0]] + p[1..];
    }
  }

  /** A comma directly in front of a closing bracket is dropped. */
  lemma PassCollapsesCommaBracket(b: char, rest: string)
    requires IsCloser(b)
    ensures Pass([',', b] + rest) == [b] + Pass(rest)
  {
    var t := [',', b] + rest;
    assert t[0] == ',' && t[1] == b && t[2..] == rest;
    assert AllSpace(t[1..1]);
    TrailingCommaIsMatch(t, 1);
  }

  // ---------------------------------------------------------------------------
  // The repair only deletes commas and whitespace
  // ---------------------------------------------------------------------------

  /** The characters the repair may delete. */
  predicate Deletable(c: char) {
    c == ',' || IsSpace(c)
  }

  /** `r` is `t` with some commas and whitespace characters deleted, the rest kept in order. */
  predicate DeletesOnly(r: string, t: string)
    decreases |t|
  {
    if t == [] then r == []
    else
      (r != [] && r[0] == t[0] && DeletesOnly(r[1..], t[1..]))
      || (Deletable(t[0]) && DeletesOnly(r, t[1..]))
  }

  lemma {:induction false} DeletesNothing(t: string)
    ensures DeletesOnly(t, t)
    decreases |t|
  {
    if t != [] {
      DeletesNothing(t[1..]);
    }
  }

  lemma {:induction false} DeletesOnlyTransitive(a: string, b: string, c: string)
    requires DeletesOnly(a, b) && DeletesOnly(b, c)
    ensures DeletesOnly(a, c)
    decreases |c|
  {
    if c != [] {
      if b != [] && b[0] == c[0] && DeletesOnly(b[1..], c[1..]) {
        if a != [] && a[0] == b[0] && DeletesOnly(a[1..], b[1..]) {
          DeletesOnlyTransitive(a[1..], b[1..], c[1..]);
        } else {
          DeletesOnlyTransitive(a, b[1..], c[1..]);
        }
      } else {
        DeletesOnlyTransitive(a, b, c[1..]);
      }
    }
  }

  /** Deleting a whitespace run in front of `u` is allowed. */
  lemma {:induction false} DeletesSpacesInFront(r: string, spaces: string, u: string)
    requires AllSpace(spaces) && DeletesOnly(r, u)
    ensures DeletesOnly(r, spaces + u)
    decreases |spaces|
  {
    if spaces != [] {
      DeletesSpacesInFront(r, spaces[1..], u);
      assert (spaces + u)[1..] == spaces[1..] + u;
    } else {
      assert spaces + u == u;
    }
  }

  /** Keeping the first character of `t` is allowed. */
  lemma KeepFirst(x: string, t: string)
    requires t != [] && DeletesOnly(x, t[1..])
    ensures DeletesOnly([t[0]] + x, t)
  {
    assert ([t[0]] + x)[1..] == x;
  }

  /** Replacing a trailing comma and its whitespace by the bracket after them is allowed. */
  lemma CollapseTrailingComma(x: string, t: string, j: nat)
    requires 0 < j < |t| && t[0] == ',' && AllSpace(t[1..j])
    requires DeletesOnly(x, t[j + 1..])
    ensures DeletesOnly([t[j]] + x, t)
  {
    var u := t[j..];
    assert u[1..] == t[j + 1..];
    KeepFirst(x, u);
    assert t[1..] == t[1..j] + u;
    DeletesSpacesInFront([t[j]] + x, t[1..j], u);
  }

  /** One pass deletes only commas and whitespace. */
  lemma {:induction false} PassDeletesOnly(t: string)
    ensures DeletesOnly(Pass(t), t)
    decreases |t|
  {
    if t != [] {
      if MatchesAtStart(t) {
        var j := AfterSpaces(t);
        MatchIsTrailingComma(t);
        PassDeletesOnly(t[j + 1..]);
        CollapseTrailingComma(Pass(t[j + 1..]), t, j);
      } else {
        PassDeletesOnly(t[1..]);
        KeepFirst(Pass(t[1..]), t);
      }
    }
  }

  /** The whole repair deletes only commas and whitespace. */
  lemma {:induction false} RepairedDeletesOnly(t: string)
    ensures DeletesOnly(Repaired(t), t)
    decreases |t|
  {
    if Pass(t) == t {
      DeletesNothing(t);
    } else {
      PassProgress(t);
      RepairedDeletesOnly(Pass(t));
      PassDeletesOnly(t);
      DeletesOnlyTransitive(Repaired(t), Pass(t), t);
    }
  }

  /** Deleting only commas and whitespace keeps the count of every other character and never lengthens. */
  lemma {:induction false} DeletesOnlyKeepsCounts(r: string, t: string, c: char)
    requires DeletesOnly(r, t) && !Deletable(c)
    ensures |r| <= |t| && multiset(r)[c] == multiset(t)[c]
    decreases |t|
  {
    if t != [] {
      assert t == [t[0]] + t[1..];
      if r != [] && r[0] == t[0] && DeletesOnly(r[1..], t[1..]) {
        DeletesOnlyKeepsCounts(r[1..], t[1..], c);
        assert r == [r[0]] + r[1..];
      } else {
        DeletesOnlyKeepsCounts(r, t[1..], c);
      }
    }
  }

  /** A first character that may not be deleted stays first. */
  lemma DeletesOnlyKeepsFirst(r: string, t: string)
    requires DeletesOnly(r, t) && t != [] && !Deletable(t[0])
    ensures r != [] && r[0] == t[0]
  {
  }

  /** A last character that may not be deleted stays last. */
  lemma {:induction false} DeletesOnlyKeepsLast(r: string, t: string)
    requires DeletesOnly(r, t) && t != [] && !Deletable(t[|t| - 1])
    ensures r != [] && r[|r| - 1] == t[|t| - 1]
    decreases |t|
  {
    if |t| == 1 {
      assert r != [] && r[0] == t[0] && DeletesOnly(r[1..], t[1..]);
    } else if r != [] && r[0] == t[0] && DeletesOnly(r[1..], t[1..]) {
      DeletesOnlyKeepsLast(r[1..], t[1..]);
    } else {
      DeletesOnlyKeepsLast(r, t[1..]);
    }
  }

  /** The repair keeps every `}` and `]` (and every other character that is not a comma or whitespace) and never lengthens the text. */
  lemma RepairedKeepsBrackets(t: string)
    ensures |Repaired(t)| <= |t|
    ensures multiset(Repaired(t))['}'] == multiset(t)['}']
    ensures multiset(Repaired(t))[']'] == multiset(t)[']']
    ensures forall c :: !Deletable(c) ==> multiset(Repaired(t))[c] == multiset(t)[c]
  {
    RepairedDeletesOnly(t);
    forall c | !Deletable(c) ensures multiset(Repaired(t))[c] == multiset(t)[c] {
      DeletesOnlyKeepsCounts(Repaired(t), t, c);
    }
    DeletesOnlyKeepsCounts(Repaired(t), t, '}');
  }

  /**
   * `remove_trailing_commas`: `prev` starts as Python's `None` and the loop
   * re-runs the substitution until a pass leaves the text as it was.
   */
  method RemoveTrailingCommas(text: string) returns (r: string)
    ensures r == Repaired(text)
    ensures NoTrailingComma(r) && DeletesOnly(r, text)
  {
    var prev: Option<string> := None;
    var current := text;
    while prev != Some(current)
      invariant prev.None? ==> current == text
      invariant prev.Some? ==> current == Pass(prev.value) && Repaired(prev.value) == Repaired(text)
      decreases if prev.None? then |current| + 1 else |prev.value|
    {
      if prev.Some? {
        PassProgress(prev.value);
      }
      prev := Some(current);
      current := Pass(current);
    }
    r := current;
    RepairedHasNoTrailingComma(text);
    RepairedDeletesOnly(text);
  }

  // ---------------------------------------------------------------------------
  // safe_load_json
  // ---------------------------------------------------------------------------

  /** What `safe_load_json` returns: the parsed value, or the raw text it was given. */
  datatype Loaded = Parsed(value: Json) | RawText(text: string)

  /** The text `safe_load_json` hands to the parser. */
  function Cleaned(content: string): string {
    Repaired(NarrowToArray(Unfence(Strip(content))))
  }

  /**
   * The cleaned text never has a trailing comma, and when the unfenced text
   * holds a `[` before a `]` it is an array-shaped span: it starts with `[` and
   * ends with `]`.
   */
  lemma CleanedShape(content: string)
    ensures NoTrailingComma(Cleaned(content))
    ensures HasArraySpan(Unfence(Strip(content))) ==>
      var c := Cleaned(content); c != [] && c[0] == '[' && c[|c| - 1] == ']'
  {
    var u := Unfence(Strip(content));
    NarrowedAndRepairedShape(u);
    ShapeCarries(Repaired(NarrowToArray(u)), Cleaned(content), HasArraySpan(u));
  }

  /** Equal texts have the same shape; spelled out so that the step above needs no unfolding. */
  lemma ShapeCarries(r: string, c: string, spanned: bool)
    requires c == r && NoTrailingComma(r)
    requires spanned ==> r != [] && r[0] == '[' && r[|r| - 1] == ']'
    ensures NoTrailingComma(c)
    ensures spanned ==> c != [] && c[0] == '[' && c[|c| - 1] == ']'
  {
  }

  lemma NarrowedAndRepairedShape(u: string)
    ensures NoTrailingComma(Repaired(NarrowToArray(u)))
    ensures HasArraySpan(u) ==>
      var c := Repaired(NarrowToArray(u)); c != [] && c[0] == '[' && c[|c| - 1] == ']'
  {
    var n := NarrowToArray(u);
    RepairedHasNoTrailingComma(n);
    if HasArraySpan(u) {
      RepairKeepsArrayShape(n);
    }
  }

  /** The repair never deletes a bracket, so an array-shaped text stays array-shaped. */
  lemma RepairKeepsArrayShape(n: string)
    requires n != [] && n[0] == '[' && n[|n| - 1] == ']'
    ensures var r := Repaired(n); r != [] && r[0] == '[' && r[|r| - 1] == ']'
  {
    RepairedDeletesOnly(n);
    DeletesOnlyKeepsFirst(Repaired(n), n);
    DeletesOnlyKeepsLast(Repaired(n), n);
  }

  /**
   * `safe_load_json(content)`, with `json.loads` as the parameter `parse`
   * (None where it raises JSONDecodeError, the only error the source catches).
   * No JSONDecodeError escapes: a successful parse of the cleaned text is
   * returned as it is, and otherwise the ORIGINAL argument comes back, neither
   * trimmed nor cleaned.
   */
  method SafeLoadJson(parse: string -> Option<Json>, content: string) returns (r: Loaded)
    ensures parse(Cleaned(content)).Some? ==> r == Parsed(parse(Cleaned(content)).value)
    ensures parse(Cleaned(content)).None? ==> r == RawText(content)
  {
    var s := Strip(content);
    s := StripOpenFence(s);
    s := StripCloseFence(s);
    s := NarrowToArray(s);
    s := RemoveTrailingCommas(s);
    match parse(s) {
      case Some(v) => r := Parsed(v);
      case None => r := RawText(content);
    }
  }
}
