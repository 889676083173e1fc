/** Printing a resolved witness (`processNode`): text with its whitespace
    runs collapsed, and editorial elements as bracketed markers. */
module Serializer {
  import opened Wrappers
  import opened JsString
  import opened Dom

  /** The page heading for page `n`: `[Page n]` on its own line, preceded by
      a blank line except for page "1". */
  function PageHeading(n: string): (r: string)
    ensures n == "1" ==> r == "[Page 1]\n"
    ensures n != "1" ==> r == "\n\n[Page " + n + "]\n"
  {
    (if n == "1" then "" else "\n\n") + "[Page " + n + "]\n"
  }

  /** The last element of `s`: for the child after `s`, its
      `previousElementSibling`. */
  function LastElement(s: seq<Node>): (r: Option<Node>)
    ensures r.None? <==> forall i | 0 <= i < |s| :: s[i].Text?
    ensures r.Some? ==> r.value.Element? && r.value in s
  {
    if s == [] then None
    else if s[|s| - 1].Element? then Some(s[|s| - 1])
    else
      var front := s[..|s| - 1];
      assert forall i | 0 <= i < |front| :: front[i] == s[i];
      LastElement(front)
  }

  /** The element `LastElement` finds has only text nodes after it. */
  lemma {:induction false} LastElementIsLast(s: seq<Node>)
    requires LastElement(s).Some?
    ensures exists i | 0 <= i < |s| :: s[i] == LastElement(s).value && forall j | i < j < |s| :: s[j].Text?
    decreases |s|
  {
    if !s[|s| - 1].Element? {
      var front := s[..|s| - 1];
      LastElementIsLast(front);
      var i :| 0 <= i < |front| && front[i] == LastElement(front).value && forall j | i < j < |front| :: front[j].Text?;
      assert s[i] == LastElement(s).value && forall j | i < j < |s| :: s[j].Text?;
    }
  }

  /** A note follows a `metamark` element whose text contains the pilcrow
      sign ₰ (text nodes in between do not count). */
  predicate FollowsMetamark(prev: Option<Node>) {
    prev.Some? && prev.value.Element? && Lower(prev.value.tag) == "metamark"
    && Contains(TextContent(prev.value.children), "₰")
  }

  /** The page number of a `pb` or page `div`, when present and not empty. */
  function PageNumber(e: Node): (r: Option<string>)
    requires e.Element?
    ensures r.Some? <==> "n" in e.attrs && e.attrs["n"] != ""
    ensures r.Some? ==> r.value == e.attrs["n"]
  {
    match GetAttribute(e, "n")
    case None => None
    case Some(n) => if n == "" then None else Some(n)
  }

  /** How one child node prints, given its previous element sibling.  Element
      names are compared in lower case. */
  function RenderNode(c: Node, prev: Option<Node>): string
    decreases c, 1
  {
    match c
    case Text(s) => CollapseSpaces(s)
    case Element(_, tag, _, cs) =>
      var inner := Render(cs, 0);
      var name := Lower(tag);
      if name == "div" then
        (if AttrIs(c, "type", "page") && PageNumber(c).Some? then PageHeading(PageNumber(c).value) else "")
        + inner
      else if name == "del" then
        if AttrIs(c, "data-instant", "true") then "<del-instant>" + inner + "</del-instant>"
        else "[" + inner + "]"
      else if name == "add" then
        if AttrIs(c, "data-instant", "true") then "<add-instant>" + inner + "</add-instant>"
        else "{" + inner + "}"
      else if name == "unclear" then "⟨" + inner + "⟩"
      else if name == "supplied" then "<" + inner + ">"
      else if name == "note" then "((" + (if FollowsMetamark(prev) then "₰ " else "") + inner + "))"
      else if name == "lb" then "\n"
      else if name == "pb" then
        if PageNumber(c).Some? then PageHeading(PageNumber(c).value) else "\n[Page Break]\n"
      else if name == "p" then "<p>" + inner + "</p>"
      else inner
  }

  /** The printed form of the children `cs[i..]`; `Render(cs, 0)` is what
      `processNode` returns for an element with children `cs`. */
  function Render(cs: seq<Node>, i: nat): string
    requires i <= |cs|
    decreases cs, |cs| - i
  {
    if i == |cs| then "" else RenderNode(cs[i], LastElement(cs[..i])) + Render(cs, i + 1)
  }

  /** `processNode(node)`: appends the printed form of each child in turn. */
  method ProcessNode(node: Node) returns (result: string)
    requires node.Element?
    ensures result == Render(node.children, 0)
    decreases node, 0
  {
    result := "";
    var cs := node.children;
    for k := 0 to |cs|
      invariant result + Render(cs, k) == Render(cs, 0)
    {
      var piece := ProcessChild(cs[k], LastElement(cs[..k]));
      result := result + piece;
    }
  }

  /** One step of `processNode`'s loop: the text a child adds, given its
      previous element sibling. */
  method ProcessChild(child: Node, prev: Option<Node>) returns (piece: string)
    ensures piece == RenderNode(child, prev)
    decreases child, 2
  {
    match child {
      case Text(s) =>
        piece := CollapseSpaces(s);
      case Element(_, tag, _, _) =>
        var name := Lower(tag);
        ElementForms(child, prev);
        if name == "lb" {
          piece := "\n";
        } else if name == "pb" {
          var n := PageNumber(child);
          piece := if n.Some? then PageHeading(n.value) else "\n[Page Break]\n";
        } else if name == "div" {
          var inner := ProcessNode(child);
          DivForm(child, prev);
          var n := PageNumber(child);
          piece := (if AttrIs(child, "type", "page") && n.Some? then PageHeading(n.value) else "") + inner;
        } else if name == "note" {
          var inner := ProcessNode(child);
          NoteForm(child, prev);
          piece := "((" + (if FollowsMetamark(prev) then "₰ " else "") + inner + "))";
        } else {
          piece := ProcessMarkup(child, prev);
        }
    }
  }

  /** The elements whose content is printed inside a fixed pair of markers,
      and those printed as their bare content. */
  method ProcessMarkup(child: Node, prev: Option<Node>) returns (piece: string)
    requires child.Element? && Lower(child.tag) !in {"lb", "pb", "div", "note"}
    ensures piece == RenderNode(child, prev)
    decreases child, 1
  {
    var name := Lower(child.tag);
    ElementForms(child, prev);
    var inner := ProcessNode(child);
    if name == "del" {
      piece := if AttrIs(child, "data-instant", "true") then "<del-instant>" + inner + "</del-instant>"
               else "[" + inner + "]";
    } else if name == "add" {
      piece := if AttrIs(child, "data-instant", "true") then "<add-instant>" + inner + "</add-instant>"
               else "{" + inner + "}";
    } else if name == "unclear" {
      piece := "⟨" + inner + "⟩";
    } else if name == "supplied" {
      piece := "<" + inner + ">";
    } else if name == "p" {
      piece := "<p>" + inner + "</p>";
    } else {
      piece := inner;
    }
  }

  // ---------------------------------------------------------------------
  // Properties

  /** Elements the printer passes through without adding anything. */
  predicate Plain(f: seq<Node>)
    decreases f
  {
    forall i | 0 <= i < |f| ::
      match f[i]
      case Text(_) => true
      case Element(_, tag, _, cs) =>
        Lower(tag) !in {"div", "del", "add", "unclear", "supplied", "note", "lb", "pb", "p"} && Plain(cs)
  }

  /** Without editorial markup, the printed text holds exactly the
      non-whitespace characters of the transcription, in order. */
  lemma {:induction false} PlainKeepsText(f: seq<Node>, i: nat)
    requires i <= |f| && Plain(f)
    ensures NonSpace(Render(f, i)) == NonSpace(TextContent(f[i..]))
    decreases f, |f| - i
  {
    if i < |f| {
      PlainKeepsText(f, i + 1);
      assert f[i..][0] == f[i] && f[i..][1..] == f[i + 1..];
      var piece := RenderNode(f[i], LastElement(f[..i]));
      NonSpaceConcat(piece, Render(f, i + 1));
      var own := match f[i] case Text(s) => s case Element(_, _, _, cs) => TextContent(cs);
      NonSpaceConcat(own, TextContent(f[i + 1..]));
      if f[i].Text? {
        CollapseSpacesForm(f[i].text);
      } else {
        PlainKeepsText(f[i].children, 0);
        assert f[i].children[0..] == f[i].children;
      }
    } else {
      assert f[i..] == [];
    }
  }

  /** A `pb` with `n="1"` prints `[Page 1]` and a line break, with no blank
      line before it; other numbers get a blank line first; without a number
      it prints `[Page Break]` on its own line. */
  lemma PageBreakForms()
    ensures Render([Element(0, "pb", map["n" := "1"], [])], 0) == "[Page 1]\n"
    ensures Render([Element(0, "pb", map["n" := "2"], [])], 0) == "\n\n[Page 2]\n"
    ensures Render([Element(0, "pb", map[], [])], 0) == "\n[Page Break]\n"
  {
    assert Lower("pb") == "pb";
  }

  /** The previous element sibling skips text nodes. */
  lemma {:induction false} LastElementSkipsText(s: seq<Node>, j: nat)
    requires j < |s| && s[j].Element?
    requires forall k | j < k < |s| :: s[k].Text?
    ensures LastElement(s) == Some(s[j])
    decreases |s|
  {
    if j < |s| - 1 {
      LastElementSkipsText(s[..|s| - 1], j);
    }
  }

  /** A note whose previous element sibling is a `metamark` holding ₰ prints
      the sign inside its double parentheses, whatever text lies between the
      two; the metamark prints its own content where it stands. */
  lemma NoteAfterMetamark(s: seq<Node>, j: nat, i: nat)
    requires j < i < |s|
    requires s[j].Element? && Lower(s[j].tag) == "metamark" && Contains(TextContent(s[j].children), "₰")
    requires forall k | j < k < i :: s[k].Text?
    requires s[i].Element? && Lower(s[i].tag) == "note"
    ensures RenderNode(s[i], LastElement(s[..i])) == "((₰ " + Render(s[i].children, 0) + "))"
    ensures RenderNode(s[j], LastElement(s[..j])) == Render(s[j].children, 0)
  {
    LastElementSkipsText(s[..i], j);
  }

  /** The bracket each editorial element prints its content in (element
      names compared in lower case): `[…]` and `{…}` for deletions and
      additions not marked instant, `<del-instant>…</del-instant>` and
      `<add-instant>…</add-instant>` for marked ones, `⟨…⟩` for unclear,
      `<…>` for supplied, `<p>…</p>` for paragraphs, a line break for `lb`,
      the page heading (or `[Page Break]` without a number) for `pb`;
      any other element but `div` and `note` prints just its content. */
  lemma ElementForms(c: Node, prev: Option<Node>)
    requires c.Element?
    ensures var name, inner, marked := Lower(c.tag), Render(c.children, 0), AttrIs(c, "data-instant", "true");
      && (name == "del" && !marked ==> RenderNode(c, prev) == "[" + inner + "]")
      && (name == "del" && marked ==> RenderNode(c, prev) == "<del-instant>" + inner + "</del-instant>")
      && (name == "add" && !marked ==> RenderNode(c, prev) == "{" + inner + "}")
      && (name == "add" && marked ==> RenderNode(c, prev) == "<add-instant>" + inner + "</add-instant>")
      && (name == "unclear" ==> RenderNode(c, prev) == "⟨" + inner + "⟩")
      && (name == "supplied" ==> RenderNode(c, prev) == "<" + inner + ">")
      && (name == "p" ==> RenderNode(c, prev) == "<p>" + inner + "</p>")
      && (name == "lb" ==> RenderNode(c, prev) == "\n")
      && (name == "pb" && "n" in c.attrs && c.attrs["n"] != "" ==> RenderNode(c, prev) == PageHeading(c.attrs["n"]))
      && (name == "pb" && !("n" in c.attrs && c.attrs["n"] != "") ==> RenderNode(c, prev) == "\n[Page Break]\n")
      && (name !in {"div", "del", "add", "unclear", "supplied", "note", "lb", "pb", "p"} ==> RenderNode(c, prev) == inner)
  {
  }

  /** A note prints its content in double parentheses, with `₰ ` in front
      exactly when its previous element sibling is a `metamark` holding ₰. */
  lemma NoteForm(c: Node, prev: Option<Node>)
    requires c.Element? && Lower(c.tag) == "note"
    ensures !FollowsMetamark(prev) ==> RenderNode(c, prev) == "((" + Render(c.children, 0) + "))"
    ensures FollowsMetamark(prev) ==> RenderNode(c, prev) == "((₰ " + Render(c.children, 0) + "))"
  {
    var inner, mark := Render(c.children, 0), if FollowsMetamark(prev) then "₰ " else "";
    assert RenderNode(c, prev) == "((" + mark + inner + "))";
    if FollowsMetamark(prev) {
      assert "((" + mark == "((₰ ";
    } else {
      assert "((" + mark == "((";
    }
  }

  /** A page `div` with a number prints the page heading before its
      content; any other `div` prints only its content. */
  lemma DivForm(c: Node, prev: Option<Node>)
    requires c.Element? && Lower(c.tag) == "div"
    ensures AttrIs(c, "type", "page") && "n" in c.attrs && c.attrs["n"] != ""
      ==> RenderNode(c, prev) == PageHeading(c.attrs["n"]) + Render(c.children, 0)
    ensures !(AttrIs(c, "type", "page") && "n" in c.attrs && c.attrs["n"] != "")
      ==> RenderNode(c, prev) == Render(c.children, 0)
  {
  }
}
