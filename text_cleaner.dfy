/** `cleanTextForComparison`: rendered witness text reduced to what two
    witnesses are compared on -- markup removed, page markers removed,
    whitespace normalised. */
module TextCleaner {
  import opened Wrappers
  import opened JsString

  // ---------------------------------------------------------------------
  // replace(/<[^>]+>/g, '')

  /** The length of the `<[^>]+>` match at the start of `s`, if any: a `<`,
      at least one character other than `>`, then the first `>`. */
  function TagLength(s: string): (r: Option<nat>)
    ensures r.Some? ==> 3 <= r.value <= |s| && s[0] == '<' && s[r.value - 1] == '>'
    ensures r.Some? ==> forall i | 1 <= i < r.value - 1 :: s[i] != '>'
    ensures r.None? ==> s == [] || s[0] != '<' || (|s| > 1 && s[1] == '>') || '>' !in s[1..]
  {
    if s == [] || s[0] != '<' then None
    else match IndexOf(s[1..], ">")
      case None =>
        assert forall j | 0 <= j < |s[1..]| :: s[1..][j] == '>' ==> MatchesAt(s[1..], ">", j) by {
          forall j | 0 <= j < |s[1..]| && s[1..][j] == '>' ensures MatchesAt(s[1..], ">", j) {
            assert s[1..][j..j + 1] == [s[1..][j]];
          }
        }
        None
      case Some(k) =>
        assert s[1..][k..k + 1] == ">";
        assert forall j | 0 <= j < k :: s[1..][j] != '>' by {
          forall j | 0 <= j < k ensures s[1..][j] != '>' {
            assert !MatchesAt(s[1..], ">", j);
            assert s[1..][j..j + 1] == [s[1..][j]];
          }
        }
        if k >= 1 then Some(k + 2) else None
  }

  /** Global removal of `<[^>]+>`: scanning left to right, each match is
      deleted and the scan resumes after it. */
  function StripTags(s: string): string
    decreases |s|
  {
    if s == [] then []
    else match TagLength(s)
      case Some(n) => StripTags(s[n..])
      case None => [s[0]] + StripTags(s[1..])
  }

  /** No position of `s` starts a tag match. */
  predicate TagFree(s: string) {
    forall i | 0 <= i < |s| :: TagLength(s[i..]).None?
  }

  /** Tag removal only deletes characters. */
  lemma {:induction false} StripTagsChars(s: string, c: char)
    requires c in StripTags(s)
    ensures c in s
    decreases |s|
  {
    if s != [] {
      match TagLength(s)
      case Some(n) =>
        StripTagsChars(s[n..], c);
      case None =>
        if c != s[0] {
          StripTagsChars(s[1..], c);
        }
    }
  }

  /** The deletion is complete: no tag is left in the result. */
  lemma {:induction false} StripTagsLeavesNoTag(s: string)
    ensures TagFree(StripTags(s))
    decreases |s|
  {
    if s != [] {
      match TagLength(s)
      case Some(n) =>
        StripTagsLeavesNoTag(s[n..]);
      case None =>
        StripTagsLeavesNoTag(s[1..]);
        var rest := StripTags(s[1..]);
        var r := [s[0]] + rest;
        forall i | 0 <= i < |r|
          ensures TagLength(r[i..]).None?
        {
          if i == 0 {
            if s[0] == '<' && |s| > 1 {
              if s[1] == '>' {
                assert TagLength(s[1..]).None?;
                assert rest == [s[1]] + StripTags(s[2..]) by {
                  assert s[1..][1..] == s[2..];
                }
                assert r[0..][1] == '>';
              } else {
                assert '>' !in s[1..];
                if '>' in r[0..][1..] {
                  assert r[0..][1..] == rest;
                  StripTagsChars(s[1..], '>');
                }
              }
            }
          } else {
            assert r[i..] == rest[i - 1..];
          }
        }
    }
  }

  /** Text without tags is left alone. */
  lemma {:induction false} StripTagsFixed(s: string)
    requires TagFree(s)
    ensures StripTags(s) == s
    decreases |s|
  {
    if s != [] {
      assert TagLength(s[0..]).None? && s[0..] == s;
      assert TagFree(s[1..]) by {
        forall i | 0 <= i < |s[1..]| ensures TagLength(s[1..][i..]).None? {
          assert s[1..][i..] == s[i + 1..];
        }
      }
      StripTagsFixed(s[1..]);
    }
  }

  /** Removing tags twice removes nothing more. */
  lemma StripTagsIdempotent(s: string)
    ensures StripTags(StripTags(s)) == StripTags(s)
  {
    StripTagsLeavesNoTag(s);
    StripTagsFixed(StripTags(s));
  }

  // ---------------------------------------------------------------------
  // replace(/\[Page \d+\]/g, '')

  /** The length of the `[Page <digits>]` match at the start of `s`, if any. */
  function MarkerLength(s: string): (r: Option<nat>)
    ensures r.Some? <==> (|s| >= 6 && s[..6] == "[Page " && 0 < DigitRun(s[6..]) && 6 + DigitRun(s[6..]) < |s|
                          && s[6 + DigitRun(s[6..])] == ']')
    ensures r.Some? ==> r.value == 7 + DigitRun(s[6..]) && s[0] == '['
  {
    if |s| >= 6 && s[..6] == "[Page " then
      var d := DigitRun(s[6..]);
      if 0 < d && 6 + d < |s| && s[6 + d] == ']' then Some(7 + d) else None
    else None
  }

  /** Global removal of `[Page <digits>]`. */
  function StripPageMarkers(s: string): string
    decreases |s|
  {
    if s == [] then []
    else match MarkerLength(s)
      case Some(n) => StripPageMarkers(s[n..])
      case None => [s[0]] + StripPageMarkers(s[1..])
  }

  /** No position of `s` starts a page marker. */
  predicate MarkerFree(s: string) {
    forall i | 0 <= i < |s| :: MarkerLength(s[i..]).None?
  }

  /** Text without page markers is left alone. */
  lemma {:induction false} StripPageMarkersFixed(s: string)
    requires MarkerFree(s)
    ensures StripPageMarkers(s) == s
    decreases |s|
  {
    if s != [] {
      assert MarkerLength(s[0..]).None? && s[0..] == s;
      assert MarkerFree(s[1..]) by {
        forall i | 0 <= i < |s[1..]| ensures MarkerLength(s[1..][i..]).None? {
          assert s[1..][i..] == s[i + 1..];
        }
      }
      StripPageMarkersFixed(s[1..]);
    }
  }

  /** A stretch without `[` starts no page marker, so it passes through
      unchanged, whatever follows it. */
  lemma {:induction false} NoBracketPrefix(u: string, t: string)
    requires '[' !in u
    ensures StripPageMarkers(u + t) == u + StripPageMarkers(t)
    decreases |u|
  {
    if u != [] {
      var s := u + t;
      assert s[0] == u[0] && u[0] in u;
      assert MarkerLength(s).None?;
      assert s[1..] == u[1..] + t;
      NoBracketPrefix(u[1..], t);
      var rest := StripPageMarkers(t);
      assert u == [u[0]] + u[1..];
      Associative([u[0]], u[1..], rest);
    } else {
      assert u + t == t;
    }
  }

  /** A page marker is removed whole, with nothing put in its place. */
  lemma MarkerRemoved(digits: string, t: string)
    requires digits != [] && forall i | 0 <= i < |digits| :: IsDigit(digits[i])
    ensures StripPageMarkers("[Page " + digits + "]" + t) == StripPageMarkers(t)
  {
    var s := "[Page " + digits + "]" + t;
    assert s[..6] == "[Page ";
    assert s[6..] == digits + "]" + t;
    DigitRunOf(digits, "]" + t);
    assert s[6 + |digits|] == ']';
    assert s[7 + |digits|..] == t;
  }

  lemma {:induction false} DigitRunOf(digits: string, t: string)
    requires forall i | 0 <= i < |digits| :: IsDigit(digits[i])
    requires t != [] && !IsDigit(t[0])
    ensures DigitRun(digits + t) == |digits|
  {
    if digits != [] {
      assert (digits + t)[1..] == digits[1..] + t;
      DigitRunOf(digits[1..], t);
    } else {
      assert digits + t == t;
    }
  }

  /** `[Page Break]`, the marker the renderers emit for an unnumbered page
      break, is not a page-number marker and survives, whatever text
      follows it. */
  lemma PageBreakKept(t: string)
    ensures StripPageMarkers("[Page Break]" + t) == "[Page Break]" + StripPageMarkers(t)
  {
    var s := "[Page Break]" + t;
    assert s[6..][0] == 'B';
    assert MarkerLength(s).None?;
    assert s[1..] == "Page Break]" + t;
    NoBracketPrefix("Page Break]", t);
  }

  // ---------------------------------------------------------------------
  // replace(/\s+/g, ' ').trim()

  /** `cleanTextForComparison`. */
  function CleanTextForComparison(content: string): string {
    Trim(CollapseSpaces(StripPageMarkers(StripTags(content))))
  }

  /** Whitespace is single spaces between words, none at either end. */
  predicate Normalized(s: string) {
    && (s == [] || (!IsSpace(s[0]) && !IsSpace(s[|s| - 1])))
    && (forall i | 0 <= i < |s| :: IsSpace(s[i]) ==> s[i] == ' ')
    && (forall i | 0 <= i < |s| - 1 :: !(s[i] == ' ' && s[i + 1] == ' '))
  }

  /** `trim()` cuts a contiguous slice. */
  lemma TrimSlice(s: string) returns (k: nat)
    ensures k + |Trim(s)| <= |s| && Trim(s) == s[k..k + |Trim(s)|]
  {
    var a := TrimStart(s);
    k := |s| - |a|;
    assert Trim(s) == a[..|Trim(s)|];
    assert a[..|Trim(s)|] == s[k..k + |Trim(s)|];
  }

  /** A slice keeps single-space whitespace. */
  lemma SliceSpaces(c: string, k: nat, n: nat)
    requires k + n <= |c|
    requires forall i | 0 <= i < |c| :: IsSpace(c[i]) ==> c[i] == ' '
    requires forall i | 0 <= i < |c| - 1 :: !(c[i] == ' ' && c[i + 1] == ' ')
    ensures var r := c[k..k + n];
      && (forall i | 0 <= i < |r| :: IsSpace(r[i]) ==> r[i] == ' ')
      && (forall i | 0 <= i < |r| - 1 :: !(r[i] == ' ' && r[i + 1] == ' '))
  {
    var r := c[k..k + n];
    forall i | 0 <= i < |r| ensures IsSpace(r[i]) ==> r[i] == ' ' {
      assert r[i] == c[k + i];
    }
    forall i | 0 <= i < |r| - 1 ensures !(r[i] == ' ' && r[i + 1] == ' ') {
      assert r[i] == c[k + i] && r[i + 1] == c[k + i + 1];
    }
  }

  /** The result has no leading, trailing, doubled or non-space whitespace. */
  lemma CleanIsNormalized(content: string)
    ensures Normalized(CleanTextForComparison(content))
  {
    var raw := StripPageMarkers(StripTags(content));
    CollapseSpacesForm(raw);
    TrimNormalized(CollapseSpaces(raw));
  }

  /** Trimming text whose whitespace is single spaces normalises it. */
  lemma TrimNormalized(c: string)
    requires forall i | 0 <= i < |c| :: IsSpace(c[i]) ==> c[i] == ' '
    requires forall i | 0 <= i < |c| - 1 :: !(c[i] == ' ' && c[i + 1] == ' ')
    ensures Normalized(Trim(c))
  {
    var k := TrimSlice(c);
    SliceSpaces(c, k, |Trim(c)|);
  }

  /** Cleaning keeps every non-whitespace character of the text that is
      left once tags and page markers are gone, in order. */
  lemma CleanKeepsWords(content: string)
    ensures NonSpace(CleanTextForComparison(content)) == NonSpace(StripPageMarkers(StripTags(content)))
  {
    var c := CollapseSpaces(StripPageMarkers(StripTags(content)));
    CollapseSpacesForm(StripPageMarkers(StripTags(content)));
    NonSpaceTrimStart(c);
    NonSpaceTrimEnd(TrimStart(c));
  }

  lemma {:induction false} NonSpaceTrimStart(s: string)
    ensures NonSpace(TrimStart(s)) == NonSpace(s)
  {
    if s != [] && IsSpace(s[0]) {
      NonSpaceTrimStart(s[1..]);
    }
  }

  lemma {:induction false} NonSpaceTrimEnd(s: string)
    ensures NonSpace(TrimEnd(s)) == NonSpace(s)
    decreases |s|
  {
    if s != [] && IsSpace(s[|s| - 1]) {
      var init := s[..|s| - 1];
      NonSpaceTrimEnd(init);
      assert s == init + [s[|s| - 1]];
      NonSpaceConcat(init, [s[|s| - 1]]);
      assert NonSpace([s[|s| - 1]]) == [] by {
        assert [s[|s| - 1]][1..] == [];
      }
    }
  }

  /** Collapsing changes nothing when whitespace is already single spaces. */
  lemma {:induction false} CollapseFixed(s: string)
    requires forall i | 0 <= i < |s| :: IsSpace(s[i]) ==> s[i] == ' '
    requires forall i | 0 <= i < |s| - 1 :: !(s[i] == ' ' && s[i + 1] == ' ')
    ensures CollapseSpaces(s) == s
    decreases |s|
  {
    if s != [] {
      CollapseFixed(s[1..]);
      if IsSpace(s[0]) {
        assert DropSpaces(s) == s[1..] by {
          assert DropSpaces(s) == DropSpaces(s[1..]);
          assert s[1..] == [] || !IsSpace(s[1]);
        }
        assert [s[0]] == " ";
      }
    }
  }

  /** Empty input gives `''`, and text that is already normalised and has
      no tag and no page marker comes back unchanged -- deletions in
      brackets and `[Page Break]` included. */
  lemma CleanFixed(content: string)
    requires Normalized(content) && TagFree(content) && MarkerFree(content)
    ensures CleanTextForComparison(content) == content
  {
    StripTagsFixed(content);
    StripPageMarkersFixed(content);
    CollapseFixed(content);
    if content != [] {
      assert TrimStart(content) == content;
      assert TrimEnd(content) == content;
    }
  }
}
