/** `formatTagName` and `getDirectTextContent`: how a header element's tag
    name and own text are shown. */
module TagNames {
  import opened JsString
  import opened Dom

  /** `replace(/([A-Z])/g, ' $1')`: a space before every capital. */
  function SpaceCapitals(s: string): (r: string)
    ensures |r| >= |s|
  {
    if s == [] then []
    else (if IsUpper(s[0]) then [' ', s[0]] else [s[0]]) + SpaceCapitals(s[1..])
  }

  /** `split(/(?=[A-Z])/)`: cut before every capital except at the very
      start; the empty string gives one empty piece. */
  function SplitBeforeCapitals(s: string): (r: seq<string>)
    ensures |r| >= 1
  {
    if s == [] then [""] else SplitFrom(s[1..], [s[0]])
  }

  /** The pieces of `cur + rest`, the piece under construction being `cur`. */
  function SplitFrom(rest: string, cur: string): (r: seq<string>)
    ensures |r| >= 1
    decreases rest
  {
    if rest == [] then [cur]
    else if IsUpper(rest[0]) then [cur] + SplitFrom(rest[1..], [rest[0]])
    else SplitFrom(rest[1..], cur + [rest[0]])
  }

  /** `word.charAt(0).toUpperCase() + word.slice(1).toLowerCase()`. */
  function Capitalize(w: string): (r: string)
    ensures |r| == |w|
  {
    if w == [] then [] else [ToUpper(w[0])] + Lower(w[1..])
  }

  function CapitalizeAll(ws: seq<string>): (r: seq<string>)
    ensures |r| == |ws| && forall i | 0 <= i < |ws| :: r[i] == Capitalize(ws[i])
  {
    if ws == [] then [] else [Capitalize(ws[0])] + CapitalizeAll(ws[1..])
  }

  /** `formatTagName`. */
  function FormatTagName(tagName: string): string {
    Trim(Join(CapitalizeAll(SplitBeforeCapitals(SpaceCapitals(tagName))), " "))
  }

  /** Two spaces before every capital. */
  function Spaced(s: string): string {
    if s == [] then [] else (if IsUpper(s[0]) then "  " else "") + [s[0]] + Spaced(s[1..])
  }

  /** The readable form of a tag name: first character upper-cased, two
      spaces before every later capital. */
  function Readable(tagName: string): (r: string)
    requires tagName != []
  {
    [ToUpper(tagName[0])] + Spaced(tagName[1..])
  }

  lemma {:induction false} SpacedLast(s: string)
    requires s != []
    ensures Spaced(s) != [] && Spaced(s)[|Spaced(s)| - 1] == s[|s| - 1]
  {
    if |s| > 1 {
      SpacedLast(s[1..]);
    }
  }

  /** Without capitals there is nothing to space out. */
  lemma {:induction false} SpacedNoCapitals(s: string)
    requires forall i | 0 <= i < |s| :: !IsUpper(s[i])
    ensures Spaced(s) == s
  {
    if s != [] {
      SpacedNoCapitals(s[1..]);
    }
  }

  lemma {:induction false} LowerAppend(a: string, c: char)
    requires !IsUpper(c)
    ensures Lower(a + [c]) == Lower(a) + [c]
  {
  }

  lemma {:induction false} JoinCons(w: string, ws: seq<string>, sep: string)
    requires ws != []
    ensures Join([w] + ws, sep) == w + sep + Join(ws, sep)
  {
    assert ([w] + ws)[1..] == ws;
  }

  /** The split, capitalise and join steps on the text after the first
      character give the current piece followed by the spaced-out rest. */
  lemma {:induction false} PiecesJoin(rest: string, cur: string)
    requires cur != []
    ensures Join(CapitalizeAll(SplitFrom(SpaceCapitals(rest), cur)), " ") == Capitalize(cur) + Spaced(rest)
    decreases rest
  {
    if rest != [] {
      if IsUpper(rest[0]) {
        PiecesJoin(rest[1..], [rest[0]]);
        PiecesJoinUpper(rest, cur);
      } else {
        PiecesJoin(rest[1..], cur + [rest[0]]);
        PiecesJoinOther(rest, cur);
      }
    }
  }

  /** A capital closes the current piece, which keeps the space put before it. */
  lemma PiecesJoinUpper(rest: string, cur: string)
    requires cur != [] && rest != [] && IsUpper(rest[0])
    requires Join(CapitalizeAll(SplitFrom(SpaceCapitals(rest[1..]), [rest[0]])), " ")
             == Capitalize([rest[0]]) + Spaced(rest[1..])
    ensures Join(CapitalizeAll(SplitFrom(SpaceCapitals(rest), cur)), " ") == Capitalize(cur) + Spaced(rest)
  {
    var pieces := SplitFrom(SpaceCapitals(rest[1..]), [rest[0]]);
    SplitUpper(rest, cur);
    JoinCapitalizedCons(cur + [' '], pieces);
    SpacedUpperStep(rest, cur);
  }

  /** Any other character extends the current piece, lower-cased. */
  lemma PiecesJoinOther(rest: string, cur: string)
    requires cur != [] && rest != [] && !IsUpper(rest[0])
    requires Join(CapitalizeAll(SplitFrom(SpaceCapitals(rest[1..]), cur + [rest[0]])), " ")
             == Capitalize(cur + [rest[0]]) + Spaced(rest[1..])
    ensures Join(CapitalizeAll(SplitFrom(SpaceCapitals(rest), cur)), " ") == Capitalize(cur) + Spaced(rest)
  {
    SplitOther(rest, cur);
    SpacedOtherStep(rest, cur);
  }

  lemma JoinCapitalizedCons(w: string, ws: seq<string>)
    requires ws != []
    ensures Join(CapitalizeAll([w] + ws), " ") == Capitalize(w) + " " + Join(CapitalizeAll(ws), " ")
  {
    CapitalizeAllCons(w, ws);
    JoinCons(Capitalize(w), CapitalizeAll(ws), " ");
  }

  lemma SpacedUpperStep(rest: string, cur: string)
    requires cur != [] && rest != [] && IsUpper(rest[0])
    ensures Capitalize(cur + [' ']) + " " + (Capitalize([rest[0]]) + Spaced(rest[1..])) == Capitalize(cur) + Spaced(rest)
  {
    var c, w, tail := rest[0], Capitalize(cur), Spaced(rest[1..]);
    CapitalizeAppend(cur, ' ');
    assert Capitalize([c]) == [c];
    assert Spaced(rest) == "  " + [c] + tail;
    assert w + [' '] + " " == w + "  ";
    Associative(w + "  ", [c], tail);
    Associative(w, "  ", [c]);
    Associative(w, "  " + [c], tail);
  }

  lemma SpacedOtherStep(rest: string, cur: string)
    requires cur != [] && rest != [] && !IsUpper(rest[0])
    ensures Capitalize(cur + [rest[0]]) + Spaced(rest[1..]) == Capitalize(cur) + Spaced(rest)
  {
    CapitalizeAppend(cur, rest[0]);
    SpacedOther(rest);
    Associative(Capitalize(cur), [rest[0]], Spaced(rest[1..]));
  }

  lemma SpacedOther(rest: string)
    requires rest != [] && !IsUpper(rest[0])
    ensures Spaced(rest) == [rest[0]] + Spaced(rest[1..])
  {
  }

  lemma SplitUpper(rest: string, cur: string)
    requires rest != [] && IsUpper(rest[0])
    ensures SplitFrom(SpaceCapitals(rest), cur) == [cur + [' ']] + SplitFrom(SpaceCapitals(rest[1..]), [rest[0]])
  {
    var c := rest[0];
    var x := SpaceCapitals(rest[1..]);
    assert SpaceCapitals(rest) == [' ', c] + x;
    assert ([' ', c] + x)[1..] == [c] + x;
    assert ([c] + x)[1..] == x;
  }

  lemma SplitOther(rest: string, cur: string)
    requires rest != [] && !IsUpper(rest[0])
    ensures SplitFrom(SpaceCapitals(rest), cur) == SplitFrom(SpaceCapitals(rest[1..]), cur + [rest[0]])
  {
    var x := SpaceCapitals(rest[1..]);
    assert SpaceCapitals(rest) == [rest[0]] + x;
    assert ([rest[0]] + x)[1..] == x;
  }

  lemma CapitalizeAllCons(w: string, ws: seq<string>)
    ensures CapitalizeAll([w] + ws) == [Capitalize(w)] + CapitalizeAll(ws)
  {
    assert ([w] + ws)[1..] == ws;
  }

  lemma CapitalizeAppend(w: string, c: char)
    requires w != [] && !IsUpper(c)
    ensures Capitalize(w + [c]) == Capitalize(w) + [c]
  {
    assert (w + [c])[1..] == w[1..] + [c];
    LowerAppend(w[1..], c);
  }

  lemma TrimKeeps(s: string)
    requires s == [] || (!IsSpace(s[0]) && !IsSpace(s[|s| - 1]))
    ensures Trim(s) == s
  {
  }

  lemma {:induction false} TrimSkipsLeading(s: string, t: string)
    requires forall i | 0 <= i < |s| :: IsSpace(s[i])
    ensures Trim(s + t) == Trim(t)
    decreases |s|
  {
    if s != [] {
      assert (s + t)[1..] == s[1..] + t;
      TrimSkipsLeading(s[1..], t);
    } else {
      assert s + t == t;
    }
  }

  /** A tag name starting with a capital: the space put before it is trimmed. */
  lemma FormatUpperStart(tagName: string)
    requires tagName != [] && IsUpper(tagName[0])
    requires forall i | 0 <= i < |tagName| :: !IsSpace(tagName[i])
    ensures FormatTagName(tagName) == Readable(tagName)
  {
    UpperStartJoined(tagName);
    TrimSkipsLeading("  ", Readable(tagName));
    ReadableEnds(tagName);
    TrimKeeps(Readable(tagName));
  }

  /** Before trimming, a leading capital leaves a lone space as the first
      piece, which the join turns into two leading spaces. */
  lemma UpperStartJoined(tagName: string)
    requires tagName != [] && IsUpper(tagName[0])
    ensures Join(CapitalizeAll(SplitBeforeCapitals(SpaceCapitals(tagName))), " ") == "  " + Readable(tagName)
  {
    var tail := CapitalizeAll(SplitFrom(SpaceCapitals(tagName[1..]), [tagName[0]]));
    UpperStartPieces(tagName);
    JoinCons(" ", tail, " ");
    PiecesJoin(tagName[1..], [tagName[0]]);
    assert Capitalize([tagName[0]]) == [ToUpper(tagName[0])];
  }

  /** A leading capital gets a space before it, which becomes a piece of
      its own. */
  lemma UpperStartPieces(tagName: string)
    requires tagName != [] && IsUpper(tagName[0])
    ensures CapitalizeAll(SplitBeforeCapitals(SpaceCapitals(tagName))) ==
      [" "] + CapitalizeAll(SplitFrom(SpaceCapitals(tagName[1..]), [tagName[0]]))
  {
    var t0 := tagName[0];
    var x := SpaceCapitals(tagName[1..]);
    assert SpaceCapitals(tagName) == [' ', t0] + x;
    assert SplitBeforeCapitals(SpaceCapitals(tagName)) == [" "] + SplitFrom(x, [t0]) by {
      assert ([' ', t0] + x)[1..] == [t0] + x;
      assert ([t0] + x)[1..] == x;
    }
    assert Capitalize(" ") == " ";
    CapitalizeAllCons(" ", SplitFrom(x, [t0]));
  }

  /** A tag name not starting with a capital: nothing to trim. */
  lemma FormatOtherStart(tagName: string)
    requires tagName != [] && !IsUpper(tagName[0])
    requires forall i | 0 <= i < |tagName| :: !IsSpace(tagName[i])
    ensures FormatTagName(tagName) == Readable(tagName)
  {
    var t0 := tagName[0];
    var x := SpaceCapitals(tagName[1..]);
    assert SpaceCapitals(tagName) == [t0] + x;
    assert SplitBeforeCapitals(SpaceCapitals(tagName)) == SplitFrom(x, [t0]) by {
      assert ([t0] + x)[1..] == x;
    }
    PiecesJoin(tagName[1..], [t0]);
    assert Capitalize([t0]) == [ToUpper(t0)];
    ReadableEnds(tagName);
    TrimKeeps(Readable(tagName));
  }

  lemma ReadableEnds(tagName: string)
    requires tagName != []
    requires forall i | 0 <= i < |tagName| :: !IsSpace(tagName[i])
    ensures var r := Readable(tagName); !IsSpace(r[0]) && !IsSpace(r[|r| - 1])
  {
    var r := Readable(tagName);
    if |tagName| > 1 {
      SpacedLast(tagName[1..]);
      assert r[|r| - 1] == tagName[|tagName| - 1];
    }
  }

  /** For a tag name without whitespace (every XML name), `formatTagName`
      upper-cases the first character and puts two spaces before every later
      capital: `fileDesc` reads `File  Desc`, `TEI` reads `T  E  I`. */
  lemma FormatTagNameReadable(tagName: string)
    requires tagName != []
    requires forall i | 0 <= i < |tagName| :: !IsSpace(tagName[i])
    ensures FormatTagName(tagName) == Readable(tagName)
  {
    if IsUpper(tagName[0]) {
      FormatUpperStart(tagName);
    } else {
      FormatOtherStart(tagName);
    }
  }

  /** A tag name without capitals or whitespace only has its first letter
      upper-cased: `title` reads `Title`. */
  lemma FormatTagNameLowerCase(tagName: string)
    requires tagName != []
    requires forall i | 0 <= i < |tagName| :: !IsSpace(tagName[i]) && !IsUpper(tagName[i])
    ensures FormatTagName(tagName) == [ToUpper(tagName[0])] + tagName[1..]
  {
    FormatTagNameReadable(tagName);
    SpacedNoCapitals(tagName[1..]);
  }

  // ---------------------------------------------------------------------
  // getDirectTextContent

  /** The element's own text nodes, each trimmed, the empty ones dropped. */
  function OwnTexts(cs: seq<Node>): seq<string> {
    if cs == [] then [] else OwnText(cs[0]) + OwnTexts(cs[1..])
  }

  /** A text child contributes its trimmed text unless that is empty. */
  function OwnText(c: Node): seq<string> {
    if c.Text? && Trim(c.text) != [] then [Trim(c.text)] else []
  }

  /** Every piece of own text is trimmed and non-empty. */
  lemma {:induction false} OwnTextsTrimmed(cs: seq<Node>)
    ensures forall w | w in OwnTexts(cs) :: Trimmed(w)
  {
    if cs != [] {
      OwnTextsTrimmed(cs[1..]);
    }
  }

  /** Non-empty, with no whitespace at either end. */
  predicate Trimmed(w: string) {
    w != [] && !IsSpace(w[0]) && !IsSpace(w[|w| - 1])
  }

  /** `getDirectTextContent`. */
  function DirectTextContent(e: Node): string
    requires e.Element?
  {
    Trim(Join(OwnTexts(e.children), " "))
  }

  lemma {:induction false} JoinEnds(parts: seq<string>)
    requires forall w | w in parts :: Trimmed(w)
    ensures var j := Join(parts, " "); j == [] || (!IsSpace(j[0]) && !IsSpace(j[|j| - 1]))
    ensures parts != [] ==> Join(parts, " ") != []
  {
    if |parts| == 1 {
      assert Trimmed(parts[0]);
    } else if |parts| > 1 {
      assert Trimmed(parts[0]);
      assert forall w | w in parts[1..] :: w in parts;
      JoinEnds(parts[1..]);
      var rest := Join(parts[1..], " ");
      var j := Join(parts, " ");
      assert j == parts[0] + " " + rest;
      assert j[0] == parts[0][0];
      assert j[|j| - 1] == rest[|rest| - 1];
    }
  }

  /** The content is the element's own trimmed, non-empty text nodes joined
      by single spaces; the final trim changes nothing. */
  lemma DirectTextIsJoin(e: Node)
    requires e.Element?
    ensures DirectTextContent(e) == Join(OwnTexts(e.children), " ")
  {
    var parts := OwnTexts(e.children);
    OwnTextsTrimmed(e.children);
    JoinEnds(parts);
    TrimKeeps(Join(parts, " "));
  }

  /** The text of child elements never reaches the content: replacing a child
      element by any other element leaves it unchanged. */
  lemma {:induction false} ContentIgnoresChildElements(cs: seq<Node>, i: nat, other: Node)
    requires i < |cs| && cs[i].Element? && other.Element?
    ensures OwnTexts(cs[i := other]) == OwnTexts(cs)
    decreases cs
  {
    if i > 0 {
      ContentIgnoresChildElements(cs[1..], i - 1, other);
      assert cs[i := other][1..] == cs[1..][i - 1 := other];
    }
  }

}
