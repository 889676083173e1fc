/** `parseTEIXML`: parse a TEI transcription, resolve its revisions for the
    requested witness type, and print the `body`.  Whenever the document
    cannot be handled the input comes back unchanged. */
module XmlParser {
  import opened Wrappers
  import opened Dom
  import opened EditMarkers
  import opened EditResolution
  import opened SubstUnwrap
  import opened Serializer
  import opened JsString

  /** The pass a witness type selects; a type other than "1a", "1b" and "1c"
      selects none, and no revision is touched. */
  function PassOf(witnessType: string): (r: Option<Pass>)
    ensures r == Some(Revert) <==> witnessType == "1a"
    ensures r == Some(TopLevel) <==> witnessType == "1b"
    ensures r == Some(Apply) <==> witnessType == "1c"
  {
    if witnessType == "1a" then Some(Revert)
    else if witnessType == "1b" then Some(TopLevel)
    else if witnessType == "1c" then Some(Apply)
    else None
  }

  /** The document once the selected pass has run. */
  function Resolve(witnessType: string, doc: seq<Node>): seq<Node>
  {
    match PassOf(witnessType)
    case None => doc
    case Some(TopLevel) => ResolveTopLevel(doc)
    case Some(p) => Resolved(p, doc)
  }

  /** The document element itself is a `subst`, or an edit the selected pass
      removes or splices.  Its content would have to move next to it, into
      the document node, which the DOM refuses (the renderer catches the
      error); with no content, the document is left without an element and
      so without a `body`.  Either way the input comes back unchanged. */
  predicate RootConsumed(root: Node, witnessType: string) {
    root.Element? &&
    (root.tag == "subst" ||
     (IsEdit(root) && PassOf(witnessType).Some? && !(PassOf(witnessType) == Some(Revert) && IsInstant(root))))
  }

  /** The printed `body` of a loaded document, None when it has no `body`. */
  function PrintedBody(doc: seq<Node>, witnessType: string): (r: Option<string>)
  {
    match FindFirst(Resolve(witnessType, Unwrapped(doc)), "body")
    case None => None
    case Some(body) => Some(Render(body.children, 0))
  }

  /** What `parseTEIXML(xml, witnessType)` returns. */
  function RenderWitness(xml: string, witnessType: string, parse: Parser): string
  {
    if xml == "" then ""
    else match parse(xml)
      case None => xml
      case Some(root) =>
        var doc := NumberF([root], 0);
        if FindFirst(doc, "parsererror").Some? || RootConsumed(root, witnessType) then xml
        else match PrintedBody(doc, witnessType)
          case None => xml
          case Some(text) => text
  }

  /** `processEdits`: collect the edits and the top-level edits, unwrap every
      `subst`, then run the pass of the witness type over the collected
      edits. */
  method ProcessEdits(doc: seq<Node>, witnessType: string) returns (out: seq<Node>)
    requires Unique(doc)
    ensures out == Resolve(witnessType, Unwrapped(doc))
  {
    var allEdits := AllEdits(doc);
    var topLevelEdits := FilterChildEdits(allEdits);
    out := UnwrapSubstitutions(doc);
    UnwrappedKeepsEdits(doc);
    if witnessType == "1a" {
      AllEditsIds(doc);
      PendingAreEdits(Revert, out);
      out := ResolveEach(out, Ids(allEdits), Revert);
    } else if witnessType == "1b" {
      FilterKeepsTopLevel(doc);
      out := ApplyTopLevelEdits(out, Ids(topLevelEdits));
    } else if witnessType == "1c" {
      AllEditsIds(doc);
      PendingAreEdits(Apply, out);
      out := ResolveEach(out, Ids(allEdits), Apply);
    }
  }

  /** `parseTEIXML`, the parser passed in. */
  method ParseTEIXML(xml: string, witnessType: string, parse: Parser) returns (r: string)
    ensures r == RenderWitness(xml, witnessType, parse)
  {
    if xml == "" {
      return "";
    }
    var parsed := parse(xml);
    if parsed.None? {
      return xml;
    }
    var doc := NumberF([parsed.value], 0);
    NumberUnique([parsed.value], 0);
    if FindFirst(doc, "parsererror").Some? || RootConsumed(parsed.value, witnessType) {
      return xml;
    }
    var processed := ProcessEdits(doc, witnessType);
    var body := FindFirst(processed, "body");
    if body.None? {
      return xml;
    }
    r := ProcessNode(body.value);
  }

  // ---------------------------------------------------------------------
  // Properties

  lemma {:induction false} NumberKeepsEdits(f: seq<Node>, k: nat)
    requires EditIds(f) == {}
    ensures EditIds(NumberF(f, k)) == {}
    decreases f
  {
    if f != [] {
      EditFreeParts(f);
      if f[0].Text? {
        NumberKeepsEdits(f[1..], k);
      } else {
        NumberKeepsEdits(f[0].children, k + 1);
        NumberKeepsEdits(f[1..], k + 1 + SizeF(f[0].children));
      }
      NumberStep(f, k);
    }
  }

  /** A forest without edits has none in its first tree or in the rest. */
  lemma EditFreeParts(f: seq<Node>)
    requires f != [] && EditIds(f) == {}
    ensures EditIds(f[1..]) == {}
    ensures f[0].Element? ==> !IsEdit(f[0]) && EditIds(f[0].children) == {}
  {
  }

  /** Numbering a forest whose first tree and rest number without edits
      gives no edits. */
  lemma NumberStep(f: seq<Node>, k: nat)
    requires f != []
    requires f[0].Text? ==> EditIds(NumberF(f[1..], k)) == {}
    requires f[0].Element? ==>
      && !IsEdit(f[0])
      && EditIds(NumberF(f[0].children, k + 1)) == {}
      && EditIds(NumberF(f[1..], k + 1 + SizeF(f[0].children))) == {}
    ensures EditIds(NumberF(f, k)) == {}
  {
    var r := NumberF(f, k);
    assert r[0].Element? ==> !IsEdit(r[0]);
  }

  /** A document without revisions reads the same in every witness. */
  lemma SameWitnessWithoutEdits(doc: seq<Node>, witnessType: string)
    requires EditIds(doc) == {}
    ensures PrintedBody(doc, witnessType) == PrintedBody(doc, "1c")
  {
    var u := Unwrapped(doc);
    UnwrappedKeepsEdits(doc);
    PendingAreEdits(Revert, u);
    PendingAreEdits(Apply, u);
    SettledFixed(Revert, u);
    SettledFixed(Apply, u);
    EditIdsSplit(u);
    TopLevelIsIntermediate(u, {});
    IntermediateUntouched(u, {});
  }

  /** When no revision lies inside another and each is instant or at most
      two levels deep, the intermediate witness 1b and the final witness 1c
      read the same. */
  lemma SameWitnessForShallowEdits(doc: seq<Node>)
    requires ShallowEdits(Unwrapped(doc))
    ensures PrintedBody(doc, "1b") == PrintedBody(doc, "1c")
  {
    ShallowTopLevelIsApply(Unwrapped(doc));
  }

  /** From the input text: a transcription whose parsed tree has no `add` or
      `del` gives the same output for every witness type. */
  lemma RenderWitnessWithoutEdits(xml: string, witnessType: string, parse: Parser)
    requires parse(xml).Some? && EditIds([parse(xml).value]) == {}
    ensures RenderWitness(xml, witnessType, parse) == RenderWitness(xml, "1c", parse)
  {
    NumberKeepsEdits([parse(xml).value], 0);
    SameWitnessWithoutEdits(NumberF([parse(xml).value], 0), witnessType);
  }

  /** The input comes back unchanged whenever the document cannot be
      printed: an empty input gives `''`; a parser that throws, a
      `parsererror` element, a document element the passes would consume,
      or a resolved document without `body` give the input itself. */
  lemma RenderWitnessFallbacks(xml: string, witnessType: string, parse: Parser)
    ensures xml == "" ==> RenderWitness(xml, witnessType, parse) == ""
    ensures xml != "" && parse(xml).None? ==> RenderWitness(xml, witnessType, parse) == xml
    ensures xml != "" && parse(xml).Some? && FindFirst(NumberF([parse(xml).value], 0), "parsererror").Some?
      ==> RenderWitness(xml, witnessType, parse) == xml
    ensures xml != "" && parse(xml).Some? && RootConsumed(parse(xml).value, witnessType)
      ==> RenderWitness(xml, witnessType, parse) == xml
    ensures xml != "" && parse(xml).Some? && PrintedBody(NumberF([parse(xml).value], 0), witnessType).None?
      ==> RenderWitness(xml, witnessType, parse) == xml
  {
  }

  /** A witness type other than "1a", "1b" and "1c" resolves no revision:
      the `body` is printed with every `subst` unwrapped and every `add` and
      `del` still in place. */
  lemma UnknownTypeResolvesNothing(doc: seq<Node>, witnessType: string)
    requires witnessType != "1a" && witnessType != "1b" && witnessType != "1c"
    ensures Resolve(witnessType, Unwrapped(doc)) == Unwrapped(doc)
    ensures EditIds(Resolve(witnessType, Unwrapped(doc))) == EditIds(doc)
  {
    UnwrappedKeepsEdits(doc);
  }

  /** In witness 1a an instant revision stays where it is, its content
      resolved, and prints between `<add-instant>` / `<del-instant>` tags
      instead of its usual brackets. */
  lemma InstantKeptInOriginal(id: nat, tag: string, attrs: map<string, string>, cs: seq<Node>, prev: Option<Node>)
    requires tag == "add" || tag == "del"
    requires "instant" in attrs && attrs["instant"] == "true"
    ensures var r := Resolved(Revert, [Element(id, tag, attrs, cs)]);
      && |r| == 1 && r[0].Element? && r[0].id == id && r[0].tag == tag
      && r[0].children == Resolved(Revert, cs) && IsMarked(r[0])
    ensures var r := Resolved(Revert, [Element(id, tag, attrs, cs)]);
      RenderNode(r[0], prev) ==
        if tag == "add" then "<add-instant>" + Render(Resolved(Revert, cs), 0) + "</add-instant>"
        else "<del-instant>" + Render(Resolved(Revert, cs), 0) + "</del-instant>"
  {
    var e := Element(id, tag, attrs, Resolved(Revert, cs));
    InstantResolvesToMarked(id, tag, attrs, cs);
    assert JsString.Lower("add") == "add" && JsString.Lower("del") == "del";
    ElementForms(Mark(e), prev);
  }

  lemma InstantResolvesToMarked(id: nat, tag: string, attrs: map<string, string>, cs: seq<Node>)
    requires tag == "add" || tag == "del"
    requires "instant" in attrs && attrs["instant"] == "true"
    ensures Resolved(Revert, [Element(id, tag, attrs, cs)]) == [Mark(Element(id, tag, attrs, Resolved(Revert, cs)))]
  {
    assert [Element(id, tag, attrs, cs)][1..] == [];
  }

  /** `<p>a<add>b<del>n</del>c</add>d</p>`: an addition holding a
      deletion, neither instant. */
  function NestedParagraph(a: string, b: string, n: string, c: string, d: string): Node {
    Element(1, "p", map[], [Text(a), NestedAdd(b, n, c), Text(d)])
  }

  function NestedAdd(b: string, n: string, c: string): Node {
    Element(2, "add", map[], [Text(b), NestedDel(n), Text(c)])
  }

  function NestedDel(n: string): Node {
    Element(3, "del", map[], [Text(n)])
  }

  lemma NestedAddDepth(b: string, n: string, c: string)
    ensures NestingDepth(NestedAdd(b, n, c)) == 2
  {
    var del := NestedDel(n);
    var add := NestedAdd(b, n, c);
    assert NestingDepth(del) == 1 by {
      assert forall x | x in del.children :: x.Text?;
    }
    assert [del, Text(c)][1..] == [Text(c)];
    assert DeepestChild([Text(c)]) == 0 by {
      assert [Text(c)][1..] == [];
    }
    assert DeepestChild([del, Text(c)]) == 2;
    assert add.children[1..] == [del, Text(c)];
    assert DeepestChild(add.children) == 2;
    assert del in add.children && !del.Text?;
  }

  lemma NestedResolved(a: string, b: string, n: string, c: string, d: string)
    ensures ResolveTopLevel(NestedParagraph(a, b, n, c, d).children) == [Text(a), Text(b), NestedDel(n), Text(c), Text(d)]
  {
    var add := NestedAdd(b, n, c);
    var cs := NestedParagraph(a, b, n, c, d).children;
    NestedAddDepth(b, n, c);
    assert Decide(TopLevel, add) == Splice;
    assert ResolveTopLevel(cs[2..]) == [Text(d)] by {
      assert cs[2..] == [Text(d)] && [Text(d)][1..] == [];
    }
    assert ResolveTopLevel(cs[1..]) == add.children + [Text(d)] by {
      assert cs[1..][1..] == cs[2..];
    }
  }

  /** A text child prints as its collapsed text, whatever its siblings. */
  lemma RenderTextChild(cs: seq<Node>, i: nat)
    requires i < |cs| && cs[i].Text?
    ensures Render(cs, i) == CollapseSpaces(cs[i].text) + Render(cs, i + 1)
  {
  }

  lemma NestedDelPrints(n: string, cs: seq<Node>)
    requires |cs| == 5 && cs[2] == NestedDel(n)
    ensures RenderNode(cs[2], LastElement(cs[..2])) == "[" + CollapseSpaces(n) + "]"
  {
    RenderTextChild([Text(n)], 0);
    assert Render([Text(n)], 1) == [];
    assert Render([Text(n)], 0) == CollapseSpaces(n);
    assert JsString.Lower("del") == "del";
    ElementForms(NestedDel(n), LastElement(cs[..2]));
  }

  lemma NestedTailPrints(a: string, b: string, n: string, c: string, d: string, cs: seq<Node>)
    requires cs == [Text(a), Text(b), NestedDel(n), Text(c), Text(d)]
    ensures Render(cs, 2) == ("[" + CollapseSpaces(n) + "]") + (CollapseSpaces(c) + CollapseSpaces(d))
  {
    RenderTextChild(cs, 4);
    assert Render(cs, 5) == [];
    assert Render(cs, 4) == CollapseSpaces(d);
    RenderTextChild(cs, 3);
    assert Render(cs, 3) == CollapseSpaces(c) + CollapseSpaces(d);
    NestedDelPrints(n, cs);
  }

  lemma NestedPrints(a: string, b: string, n: string, c: string, d: string, cs: seq<Node>)
    requires cs == [Text(a), Text(b), NestedDel(n), Text(c), Text(d)]
    ensures Render(cs, 0)
      == CollapseSpaces(a) + (CollapseSpaces(b) + (("[" + CollapseSpaces(n) + "]") + (CollapseSpaces(c) + CollapseSpaces(d))))
  {
    NestedTailPrints(a, b, n, c, d, cs);
    LeadingTexts(cs, a, b);
  }

  /** Two leading text children print as their collapsed texts. */
  lemma LeadingTexts(cs: seq<Node>, a: string, b: string)
    requires |cs| >= 2 && cs[0] == Text(a) && cs[1] == Text(b)
    ensures Render(cs, 0) == CollapseSpaces(a) + (CollapseSpaces(b) + Render(cs, 2))
  {
    RenderTextChild(cs, 1);
    RenderTextChild(cs, 0);
  }

  /** The paragraph 1b leaves: the addition's content spliced in, the
      deletion still there. */
  function NestedParagraphAfter(a: string, b: string, n: string, c: string, d: string): Node {
    Element(1, "p", map[], [Text(a), Text(b), NestedDel(n), Text(c), Text(d)])
  }

  lemma NestedNoSubst(a: string, b: string, n: string, c: string, d: string)
    ensures CountTag([Element(0, "body", map[], [NestedParagraph(a, b, n, c, d)])], "subst") == 0
  {
    var del := NestedDel(n);
    assert CountTag([Text(n)], "subst") == 0 by { assert [Text(n)][1..] == []; }
    assert CountTag([del], "subst") == 0 by { assert [del][1..] == []; }
    var ac := NestedAdd(b, n, c).children;
    assert CountTag(ac[2..], "subst") == 0 by { assert ac[2..] == [Text(c)] && ac[2..][1..] == []; }
    assert CountTag(ac[1..], "subst") == 0 by { assert ac[1..][1..] == ac[2..]; }
    assert CountTag(ac, "subst") == 0;
    var pc := NestedParagraph(a, b, n, c, d).children;
    assert CountTag(pc[2..], "subst") == 0 by { assert pc[2..] == [Text(d)] && pc[2..][1..] == []; }
    assert CountTag(pc[1..], "subst") == 0 by { assert pc[1..][1..] == pc[2..]; }
    assert CountTag(pc, "subst") == 0;
    var p := NestedParagraph(a, b, n, c, d);
    assert CountTag([p], "subst") == 0 by { assert [p][1..] == []; }
  }

  lemma NestedBodyResolved(a: string, b: string, n: string, c: string, d: string)
    ensures var body := Element(0, "body", map[], [NestedParagraphAfter(a, b, n, c, d)]);
      FindFirst(Resolve("1b", Unwrapped([Element(0, "body", map[], [NestedParagraph(a, b, n, c, d)])])), "body") == Some(body)
  {
    var p := NestedParagraph(a, b, n, c, d);
    var f := [Element(0, "body", map[], [p])];
    NestedNoSubst(a, b, n, c, d);
    NoSubstFixed(f);
    NestedResolved(a, b, n, c, d);
    var p2 := NestedParagraphAfter(a, b, n, c, d);
    assert ResolveTopLevel([p]) == [p2];
    var body := Element(0, "body", map[], [p2]);
    assert ResolveTopLevel(f) == [body];
  }

  lemma NestedBodyPrints(a: string, b: string, n: string, c: string, d: string)
    ensures Render([NestedParagraphAfter(a, b, n, c, d)], 0)
        == "<p>" + (CollapseSpaces(a) + (CollapseSpaces(b) + (("[" + CollapseSpaces(n) + "]") + (CollapseSpaces(c) + CollapseSpaces(d))))) + "</p>"
  {
    var p2 := NestedParagraphAfter(a, b, n, c, d);
    NestedPrints(a, b, n, c, d, p2.children);
    assert JsString.Lower("p") == "p";
    ElementForms(p2, None);
    RenderOnly(p2);
  }

  /** A lone element prints as its own form. */
  lemma RenderOnly(e: Node)
    ensures Render([e], 0) == RenderNode(e, None)
  {
    assert [e][..0] == [];
    assert Render([e], 1) == [];
  }

  /** In witness 1b an addition holding a deletion has depth 2 and is
      applied, but the deletion inside it is not top-level, is never
      resolved, and still prints in square brackets:
      `<p>This is <add>outer <del>nested</del> addition</add> text.</p>`
      prints `<p>This is outer [nested] addition text.</p>`. */
  lemma NestedDeletionSurvivesIntermediate(a: string, b: string, n: string, c: string, d: string)
    ensures NestingDepth(NestedAdd(b, n, c)) == 2
    ensures PrintedBody([Element(0, "body", map[], [NestedParagraph(a, b, n, c, d)])], "1b")
        == Some("<p>" + (CollapseSpaces(a) + (CollapseSpaces(b) + (("[" + CollapseSpaces(n) + "]") + (CollapseSpaces(c) + CollapseSpaces(d))))) + "</p>")
  {
    NestedAddDepth(b, n, c);
    NestedBodyResolved(a, b, n, c, d);
    NestedBodyPrints(a, b, n, c, d);
  }
}
