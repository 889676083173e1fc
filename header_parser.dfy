/** `parseTEIHeader`: the `teiHeader` of a transcription as a tree of entries,
    each with a readable tag name, the element's own text and its depth. */
module HeaderParser {
  import opened Wrappers
  import opened JsString
  import opened Dom
  import opened TagNames

  /** One header element: its formatted tag name, its own text, its level
      (0 for the children of `teiHeader`) and the entries of its element
      children. */
  datatype HeaderEntry = HeaderEntry(tag: string, content: string, level: nat, children: seq<HeaderEntry>)

  // ---------------------------------------------------------------------
  // processHeaderNode

  /** The number of element children (`node.children.length`). */
  function ElementCount(cs: seq<Node>): nat {
    if cs == [] then 0 else (if cs[0].Element? then 1 else 0) + ElementCount(cs[1..])
  }

  /** The entries for the element children among `cs`, at level `level`;
      text children are not in `node.children` and give nothing. */
  function Entries(cs: seq<Node>, level: nat): (r: seq<HeaderEntry>)
    ensures |r| == ElementCount(cs)
    decreases cs, 1
  {
    if cs == [] then [] else EntryOf(cs[0], level) + Entries(cs[1..], level)
  }

  /** The entry one child contributes: none for text. */
  function EntryOf(c: Node, level: nat): (r: seq<HeaderEntry>)
    ensures |r| == (if c.Element? then 1 else 0)
    decreases c, 0
  {
    match c
    case Text(_) => []
    case Element(_, tag, _, kids) =>
      [HeaderEntry(FormatTagName(tag), DirectTextContent(c), level, Entries(kids, level + 1))]
  }

  /** `processHeaderNode(node, level)`: one entry per element child, pushed
      in order, each with the entries of its own element children one level
      down. */
  method ProcessHeaderNode(node: Node, level: nat) returns (entries: seq<HeaderEntry>)
    requires node.Element?
    ensures entries == Entries(node.children, level)
    decreases node
  {
    entries := [];
    var cs := node.children;
    for k := 0 to |cs|
      invariant entries + Entries(cs[k..], level) == Entries(cs, level)
    {
      var child := cs[k];
      EntriesAt(cs, k, level);
      ghost var before := entries;
      if child.Element? {
        var sub := ProcessHeaderNode(child, level + 1);
        entries := entries + [HeaderEntry(FormatTagName(child.tag), DirectTextContent(child), level, sub)];
      }
      assert entries == before + EntryOf(child, level);
      Associative(before, EntryOf(child, level), Entries(cs[k + 1..], level));
    }
  }

  lemma EntriesAt(cs: seq<Node>, k: nat, level: nat)
    requires k < |cs|
    ensures Entries(cs[k..], level) == EntryOf(cs[k], level) + Entries(cs[k + 1..], level)
  {
    assert cs[k..][1..] == cs[k + 1..];
  }

  /** Every entry sits at `level`, its children one level down, and so on. */
  predicate LevelsFrom(es: seq<HeaderEntry>, level: nat)
    decreases es
  {
    forall i | 0 <= i < |es| :: es[i].level == level && LevelsFrom(es[i].children, level + 1)
  }

  /** The number of entries in a tree of entries. */
  function EntryCount(es: seq<HeaderEntry>): nat
    decreases es
  {
    if es == [] then 0 else 1 + EntryCount(es[0].children) + EntryCount(es[1..])
  }

  lemma {:induction false} EntryCountConcat(a: seq<HeaderEntry>, b: seq<HeaderEntry>)
    ensures EntryCount(a + b) == EntryCount(a) + EntryCount(b)
    decreases a
  {
    if a == [] {
      assert a + b == b;
    } else {
      assert (a + b)[0] == a[0] && (a + b)[1..] == a[1..] + b;
      EntryCountConcat(a[1..], b);
    }
  }

  lemma {:induction false} LevelsConcat(a: seq<HeaderEntry>, b: seq<HeaderEntry>, level: nat)
    requires LevelsFrom(a, level) && LevelsFrom(b, level)
    ensures LevelsFrom(a + b, level)
  {
    forall i | 0 <= i < |a + b|
      ensures (a + b)[i].level == level && LevelsFrom((a + b)[i].children, level + 1)
    {
      if i < |a| {
        assert (a + b)[i] == a[i];
      } else {
        assert (a + b)[i] == b[i - |a|];
      }
    }
  }

  /** Levels count down from `level`, and there is exactly one entry per
      element at any depth below the header node. */
  lemma EntriesShape(cs: seq<Node>, level: nat)
    ensures LevelsFrom(Entries(cs, level), level)
    ensures EntryCount(Entries(cs, level)) == SizeF(cs)
  {
    EntriesLevels(cs, level);
    EntriesCount(cs, level);
  }

  lemma {:induction false} EntriesLevels(cs: seq<Node>, level: nat)
    ensures LevelsFrom(Entries(cs, level), level)
    decreases cs
  {
    if cs != [] {
      EntriesLevels(cs[1..], level);
      EntryOfShape(cs[0], level);
      var head := EntryOf(cs[0], level);
      if cs[0].Element? {
        EntriesLevels(cs[0].children, level + 1);
        assert head == [head[0]];
        LevelsSingle(head[0], level);
      } else {
        assert LevelsFrom(head, level);
      }
      LevelsConcat(head, Entries(cs[1..], level), level);
    }
  }

  lemma {:induction false} EntriesCount(cs: seq<Node>, level: nat)
    ensures EntryCount(Entries(cs, level)) == SizeF(cs)
    decreases cs
  {
    if cs != [] {
      EntriesCount(cs[1..], level);
      EntryOfShape(cs[0], level);
      if cs[0].Element? {
        EntriesCount(cs[0].children, level + 1);
      }
      EntryCountConcat(EntryOf(cs[0], level), Entries(cs[1..], level));
    }
  }

  /** The entry of an element child: its formatted tag name, its own text
      (the trimmed texts of its text children joined by spaces), its level,
      and its children's entries one level down. */
  lemma EntryOfShape(c: Node, level: nat)
    ensures c.Text? ==> EntryOf(c, level) == []
    ensures c.Element? ==>
              && |EntryOf(c, level)| == 1
              && EntryOf(c, level)[0].tag == FormatTagName(c.tag)
              && EntryOf(c, level)[0].content == Join(OwnTexts(c.children), " ")
              && EntryOf(c, level)[0].level == level
              && EntryOf(c, level)[0].children == Entries(c.children, level + 1)
              && EntryCount(EntryOf(c, level)) == 1 + EntryCount(Entries(c.children, level + 1))
  {
    if c.Element? {
      var e := EntryOf(c, level);
      DirectTextIsJoin(c);
      assert e == [e[0]];
      EntryCountSingle(e[0]);
    }
  }

  lemma LevelsSingle(x: HeaderEntry, level: nat)
    requires x.level == level && LevelsFrom(x.children, level + 1)
    ensures LevelsFrom([x], level)
  {
  }

  lemma EntryCountSingle(x: HeaderEntry)
    ensures EntryCount([x]) == 1 + EntryCount(x.children)
  {
    assert [x][1..] == [];
  }

  // ---------------------------------------------------------------------
  // parseTEIHeader

  /** What `parseTEIHeader(xml)` returns: no entries for empty input, a parse
      failure or a document without `teiHeader`. */
  function HeaderOf(xml: string, parse: Parser): seq<HeaderEntry> {
    if xml == "" then []
    else match parse(xml)
      case None => []
      case Some(root) =>
        if FindFirst([root], "parsererror").Some? then []
        else match FindFirst([root], "teiHeader")
          case None => []
          case Some(header) => Entries(header.children, 0)
  }

  /** `parseTEIHeader`, the parser passed in. */
  method ParseTEIHeader(xml: string, parse: Parser) returns (entries: seq<HeaderEntry>)
    ensures entries == HeaderOf(xml, parse)
  {
    if xml == "" {
      return [];
    }
    var parsed := parse(xml);
    if parsed.None? || FindFirst([parsed.value], "parsererror").Some? {
      return [];
    }
    var header := FindFirst([parsed.value], "teiHeader");
    if header.None? {
      return [];
    }
    entries := ProcessHeaderNode(header.value, 0);
  }

  /** The entries returned start at level 0, and there is one per element
      inside the `teiHeader`. */
  lemma HeaderShape(xml: string, parse: Parser)
    ensures LevelsFrom(HeaderOf(xml, parse), 0)
    ensures xml != "" && parse(xml).Some? && FindFirst([parse(xml).value], "parsererror").None?
            && FindFirst([parse(xml).value], "teiHeader").Some? ==>
            EntryCount(HeaderOf(xml, parse)) == SizeF(FindFirst([parse(xml).value], "teiHeader").value.children)
  {
    if xml != "" && parse(xml).Some? && FindFirst([parse(xml).value], "parsererror").None? {
      var h := FindFirst([parse(xml).value], "teiHeader");
      if h.Some? {
        EntriesShape(h.value.children, 0);
      }
    }
  }
}
