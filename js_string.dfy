/** The JavaScript string primitives the renderers rely on: the `\s` character
    class, ASCII case mapping, `includes`/`indexOf`, `replace` with a string
    pattern, `trim`, and the `replace(/\s+/g, ' ')` whitespace collapse. */
module JsString {
  import opened Wrappers

  /** JavaScript's `\s` (and `String.prototype.trim`) character set: the
      WhiteSpace and LineTerminator code points of ECMAScript. */
  predicate IsSpace(c: char) {
    c == ' ' || c == '\t' || c == '\n' || c == '\U{000B}' || c == '\U{000C}' || c == '\r'
    || c == '\U{00A0}' || c == '\U{1680}' || ('\U{2000}' <= c <= '\U{200A}')
    || c == '\U{2028}' || c == '\U{2029}' || c == '\U{202F}' || c == '\U{205F}'
    || c == '\U{3000}' || c == '\U{FEFF}'
  }

  /** `\d`: an ASCII decimal digit. */
  predicate IsDigit(c: char) {
    '0' <= c <= '9'
  }

  /** The number of leading ASCII digits of `s`. */
  function DigitRun(s: string): (n: nat)
    ensures n <= |s|
    ensures forall i | 0 <= i < n :: IsDigit(s[i])
    ensures n < |s| ==> !IsDigit(s[n])
  {
    if s != [] && IsDigit(s[0]) then 1 + DigitRun(s[1..]) else 0
  }

  /** `[A-Z]`. */
  predicate IsUpper(c: char) {
    'A' <= c <= 'Z'
  }

  predicate IsLower(c: char) {
    'a' <= c <= 'z'
  }

  function ToLower(c: char): char {
    if IsUpper(c) then c - 'A' + 'a' else c
  }

  function ToUpper(c: char): char {
    if IsLower(c) then c - 'a' + 'A' else c
  }

  /** `toLowerCase()` restricted to ASCII letters. */
  function Lower(s: string): (r: string)
    ensures |r| == |s|
    ensures forall i | 0 <= i < |s| :: r[i] == ToLower(s[i])
  {
    if s == [] then [] else [ToLower(s[0])] + Lower(s[1..])
  }

  /** `toUpperCase()` restricted to ASCII letters. */
  function Upper(s: string): (r: string)
    ensures |r| == |s|
    ensures forall i | 0 <= i < |s| :: r[i] == ToUpper(s[i])
  {
    if s == [] then [] else [ToUpper(s[0])] + Upper(s[1..])
  }

  /** `p` occurs in `s` starting at index `j`. */
  predicate MatchesAt(s: string, p: string, j: int) {
    0 <= j && j + |p| <= |s| && s[j..j + |p|] == p
  }

  /** `s.indexOf(p)`: the first index at which `p` occurs, or None for -1. */
  function IndexOf(s: string, p: string): (r: Option<nat>)
    ensures r.Some? ==> MatchesAt(s, p, r.value)
    ensures r.Some? ==> forall j | 0 <= j < r.value :: !MatchesAt(s, p, j)
    ensures r.None? ==> forall j :: !MatchesAt(s, p, j)
    decreases |s|
  {
    if |p| > |s| then None
    else if s[..|p|] == p then Some(0)
    else
      var r := IndexOf(s[1..], p);
      if r.None? then
        assert forall j | 1 <= j :: MatchesAt(s, p, j) ==> MatchesAt(s[1..], p, j - 1);
        None
      else
        assert forall j | 1 <= j <= r.value :: MatchesAt(s, p, j) ==> MatchesAt(s[1..], p, j - 1);
        Some(r.value + 1)
  }

  /** `s.includes(p)`. */
  predicate Contains(s: string, p: string) {
    IndexOf(s, p).Some?
  }

  /** `s.replace(p, r)` with a string pattern: only the first occurrence is
      replaced. */
  function ReplaceFirst(s: string, p: string, rep: string): (r: string)
    ensures !Contains(s, p) ==> r == s
    ensures Contains(s, p) ==>
      var i := IndexOf(s, p).value;
      r == s[..i] + rep + s[i + |p|..]
  {
    match IndexOf(s, p)
    case None => s
    case Some(i) => s[..i] + rep + s[i + |p|..]
  }

  /** `trimStart()`: the suffix left after removing leading whitespace. */
  function TrimStart(s: string): (r: string)
    ensures |r| <= |s| && r == s[|s| - |r|..]
    ensures r == [] || !IsSpace(r[0])
    ensures forall i | 0 <= i < |s| - |r| :: IsSpace(s[i])
  {
    if s != [] && IsSpace(s[0]) then TrimStart(s[1..]) else s
  }

  /** `trimEnd()`: the prefix left after removing trailing whitespace. */
  function TrimEnd(s: string): (r: string)
    ensures |r| <= |s| && r == s[..|r|]
    ensures r == [] || !IsSpace(r[|r| - 1])
    ensures forall i | |r| <= i < |s| :: IsSpace(s[i])
  {
    if s != [] && IsSpace(s[|s| - 1]) then TrimEnd(s[..|s| - 1]) else s
  }

  /** `trim()`. */
  function Trim(s: string): (r: string)
    ensures r == [] || (!IsSpace(r[0]) && !IsSpace(r[|r| - 1]))
  {
    TrimEnd(TrimStart(s))
  }

  /** Removes the leading whitespace run (the `\s+` a collapse replaces). */
  function DropSpaces(s: string): (r: string)
    ensures |r| <= |s| && r == s[|s| - |r|..]
    ensures r == [] || !IsSpace(r[0])
  {
    if s != [] && IsSpace(s[0]) then DropSpaces(s[1..]) else s
  }

  /** The characters of `s` that are not whitespace, in order. */
  function NonSpace(s: string): string {
    if s == [] then [] else (if IsSpace(s[0]) then [] else [s[0]]) + NonSpace(s[1..])
  }

  lemma {:induction false} NonSpaceDrop(s: string)
    ensures NonSpace(DropSpaces(s)) == NonSpace(s)
  {
    if s != [] && IsSpace(s[0]) {
      NonSpaceDrop(s[1..]);
    }
  }

  /** The non-whitespace characters of a concatenation. */
  lemma {:induction false} NonSpaceConcat(a: string, b: string)
    ensures NonSpace(a + b) == NonSpace(a) + NonSpace(b)
  {
    if a == [] {
      assert a + b == b;
    } else {
      assert (a + b)[0] == a[0] && (a + b)[1..] == a[1..] + b;
      NonSpaceConcat(a[1..], b);
    }
  }

  /** `s.replace(/\s+/g, ' ')`: every maximal whitespace run becomes one space. */
  function CollapseSpaces(s: string): (r: string)
    ensures (r == []) == (s == [])
    decreases |s|
  {
    if s == [] then []
    else if IsSpace(s[0]) then " " + CollapseSpaces(DropSpaces(s))
    else [s[0]] + CollapseSpaces(s[1..])
  }

  /** A collapsed string keeps the non-whitespace characters in order, has
      only plain spaces for whitespace and never two in a row, and starts
      with a space exactly when the input starts with whitespace. */
  lemma {:induction false} CollapseSpacesForm(s: string)
    ensures var r := CollapseSpaces(s);
      && (forall i | 0 <= i < |r| :: IsSpace(r[i]) ==> r[i] == ' ')
      && (forall i | 0 <= i < |r| - 1 :: !(r[i] == ' ' && r[i + 1] == ' '))
      && NonSpace(r) == NonSpace(s)
      && (r != [] ==> (r[0] == ' ') == IsSpace(s[0]))
    decreases |s|
  {
    if s != [] {
      var r := CollapseSpaces(s);
      if IsSpace(s[0]) {
        var rest := DropSpaces(s);
        NonSpaceDrop(s);
        CollapseSpacesForm(rest);
        var t := CollapseSpaces(rest);
        assert r == [' '] + t;
        assert NonSpace(r) == NonSpace(t) by {
          assert r[1..] == t;
        }
        assert t != [] ==> t[0] != ' ' by {
          if t != [] {
            assert !IsSpace(rest[0]);
          }
        }
        assert forall i | 1 <= i < |r| :: r[i] == t[i - 1];
      } else {
        var rest := s[1..];
        CollapseSpacesForm(rest);
        var t := CollapseSpaces(rest);
        assert r == [s[0]] + t;
        assert NonSpace(r) == [s[0]] + NonSpace(t) by {
          assert r[1..] == t;
        }
        assert forall i | 1 <= i < |r| :: r[i] == t[i - 1];
      }
    }
  }

  /** A whitespace run before a non-space start is dropped whole. */
  lemma {:induction false} DropRun(w: string, b: string)
    requires forall i | 0 <= i < |w| :: IsSpace(w[i])
    requires b == [] || !IsSpace(b[0])
    ensures DropSpaces(w + b) == b
    decreases |w|
  {
    if w == [] {
      assert w + b == b;
    } else {
      assert (w + b)[0] == w[0] && (w + b)[1..] == w[1..] + b;
      DropRun(w[1..], b);
    }
  }

  /** Dropping the leading whitespace of a string that ends in a non-space
      character never reaches what follows it. */
  lemma {:induction false} DropWithin(a: string, t: string)
    requires a != [] && !IsSpace(a[|a| - 1])
    ensures DropSpaces(a + t) == DropSpaces(a) + t
    decreases |a|
  {
    var at := a + t;
    assert at[0] == a[0];
    if IsSpace(a[0]) {
      assert at[1..] == a[1..] + t;
      DropWithin(a[1..], t);
    }
  }

  /** What is left once the leading whitespace is dropped still ends in the
      same non-space character. */
  lemma {:induction false} DropKeepsLast(a: string)
    requires a != [] && !IsSpace(a[|a| - 1])
    ensures DropSpaces(a) != [] && DropSpaces(a)[|DropSpaces(a)| - 1] == a[|a| - 1]
    decreases |a|
  {
    if IsSpace(a[0]) {
      DropKeepsLast(a[1..]);
    }
  }

  /** Collapsing a string that opens with whitespace, up to a non-space
      character, and goes on with `t`. */
  lemma CollapseLeadingRun(a: string, t: string)
    requires a != [] && IsSpace(a[0]) && !IsSpace(a[|a| - 1])
    ensures CollapseSpaces(a + t) == " " + CollapseSpaces(DropSpaces(a) + t)
  {
    assert (a + t)[0] == a[0];
    DropWithin(a, t);
  }

  /** `replace(/\s+/g, ' ')` on one whitespace run between two words: the
      run becomes exactly one space, and each side collapses on its own. */
  lemma {:induction false} CollapseRun(a: string, w: string, b: string)
    requires a == [] || !IsSpace(a[|a| - 1])
    requires w != [] && forall i | 0 <= i < |w| :: IsSpace(w[i])
    requires b == [] || !IsSpace(b[0])
    ensures CollapseSpaces(a + w + b) == CollapseSpaces(a) + " " + CollapseSpaces(b)
    decreases |a|
  {
    if a == [] {
      assert a + w + b == w + b;
      assert (w + b)[0] == w[0];
      DropRun(w, b);
    } else if IsSpace(a[0]) {
      CollapseRunSpace(a, w, b);
    } else {
      CollapseRunWord(a, w, b);
    }
  }

  /** `CollapseRun` when `a` starts with whitespace. */
  lemma {:induction false} CollapseRunSpace(a: string, w: string, b: string)
    requires a != [] && IsSpace(a[0]) && !IsSpace(a[|a| - 1])
    requires w != [] && forall i | 0 <= i < |w| :: IsSpace(w[i])
    requires b == [] || !IsSpace(b[0])
    ensures CollapseSpaces(a + w + b) == CollapseSpaces(a) + " " + CollapseSpaces(b)
    decreases |a|, 0
  {
    var d := DropSpaces(a);
    DropKeepsLast(a);
    Associative(a, w, b);
    CollapseLeadingRun(a, w + b);
    Associative(d, w, b);
    CollapseRun(d, w, b);
    var x, y := CollapseSpaces(d), CollapseSpaces(b);
    calc {
      CollapseSpaces(a + w + b);
      " " + CollapseSpaces(d + w + b);
      " " + (x + " " + y);
      { Associative(" ", x + " ", y); Associative(" ", x, " "); }
      (" " + x) + " " + y;
    }
  }

  /** `CollapseRun` when `a` starts with a non-space character. */
  lemma {:induction false} CollapseRunWord(a: string, w: string, b: string)
    requires a != [] && !IsSpace(a[0]) && !IsSpace(a[|a| - 1])
    requires w != [] && forall i | 0 <= i < |w| :: IsSpace(w[i])
    requires b == [] || !IsSpace(b[0])
    ensures CollapseSpaces(a + w + b) == CollapseSpaces(a) + " " + CollapseSpaces(b)
    decreases |a|, 0
  {
    var t := a[1..];
    assert a == [a[0]] + t;
    Associative(a, w, b);
    Associative([a[0]], t, w + b);
    Associative(t, w, b);
    CollapseRun(t, w, b);
    var x, y := CollapseSpaces(t), CollapseSpaces(b);
    calc {
      CollapseSpaces(a + w + b);
      [a[0]] + CollapseSpaces(t + w + b);
      [a[0]] + (x + " " + y);
      { Associative([a[0]], x + " ", y); Associative([a[0]], x, " "); }
      ([a[0]] + x) + " " + y;
    }
  }

  /** Concatenation is associative. */
  lemma Associative<T>(a: seq<T>, b: seq<T>, c: seq<T>)
    ensures (a + b) + c == a + (b + c)
  {
  }

  /** `parts.join(sep)`. */
  function Join(parts: seq<string>, sep: string): string {
    if parts == [] then []
    else if |parts| == 1 then parts[0]
    else parts[0] + sep + Join(parts[1..], sep)
  }
}
