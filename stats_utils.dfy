/** `getWitnessStats`: how many additions, deletions, substitutions and
    transpositions a transcription marks up. */
module StatsUtils {
  import opened Wrappers
  import opened Dom

  datatype WitnessStats = WitnessStats(additions: nat, deletions: nat, substitutions: nat, transpositions: nat)

  /** The answer for empty input, a parse error or an exception. */
  const NoStats := WitnessStats(0, 0, 0, 0)

  /** The four counts over a forest, each the number of elements with exactly
      that tag at any depth. */
  function ForestStats(f: seq<Node>): WitnessStats {
    WitnessStats(CountTag(f, "add"), CountTag(f, "del"), CountTag(f, "subst"), CountTag(f, "transpose"))
  }

  /** The document's counts: the `length` of `getElementsByTagName` for each
      of the four tags. */
  function DocumentStats(root: Node): (r: WitnessStats)
    ensures r == ForestStats([root])
  {
    ElementsByTagLength([root], "add");
    ElementsByTagLength([root], "del");
    ElementsByTagLength([root], "subst");
    ElementsByTagLength([root], "transpose");
    WitnessStats(|ElementsByTag([root], "add")|, |ElementsByTag([root], "del")|,
                 |ElementsByTag([root], "subst")|, |ElementsByTag([root], "transpose")|)
  }

  /** `getWitnessStats(xmlText)`, the parser passed in. */
  function GetWitnessStats(xml: string, parse: Parser): (r: WitnessStats)
    ensures xml == "" || parse(xml).None? ==> r == NoStats
    ensures xml != "" && parse(xml).Some? && FindFirst([parse(xml).value], "parsererror").Some? ==> r == NoStats
    ensures xml != "" && parse(xml).Some? && FindFirst([parse(xml).value], "parsererror").None? ==>
              r == ForestStats([parse(xml).value])
  {
    if xml == "" then NoStats
    else match parse(xml)
      case None => NoStats
      case Some(root) =>
        if FindFirst([root], "parsererror").Some? then NoStats else DocumentStats(root)
  }

  /** The counts of sibling forests add up, count by count. */
  lemma StatsConcat(a: seq<Node>, b: seq<Node>)
    ensures var x, y, z := ForestStats(a + b), ForestStats(a), ForestStats(b);
      && x.additions == y.additions + z.additions
      && x.deletions == y.deletions + z.deletions
      && x.substitutions == y.substitutions + z.substitutions
      && x.transpositions == y.transpositions + z.transpositions
  {
    CountTagConcat(a, b, "add");
    CountTagConcat(a, b, "del");
    CountTagConcat(a, b, "subst");
    CountTagConcat(a, b, "transpose");
  }

  /** The counts of a tree are the sum over its children plus the node
      itself, count by count. */
  lemma StatsOfElement(n: Node)
    requires n.Element?
    ensures var x, y, z := ForestStats([n]), Own(n.tag), ForestStats(n.children);
      && x.additions == y.additions + z.additions
      && x.deletions == y.deletions + z.deletions
      && x.substitutions == y.substitutions + z.substitutions
      && x.transpositions == y.transpositions + z.transpositions
  {
    OneTree(n, "add");
    OneTree(n, "del");
    OneTree(n, "subst");
    OneTree(n, "transpose");
  }

  lemma OneTree(n: Node, tag: string)
    requires n.Element?
    ensures CountTag([n], tag) == (if n.tag == tag then 1 else 0) + CountTag(n.children, tag)
  {
    assert [n][1..] == [];
  }

  /** The counts contributed by one element's own tag. */
  function Own(tag: string): WitnessStats {
    WitnessStats(if tag == "add" then 1 else 0, if tag == "del" then 1 else 0,
                 if tag == "subst" then 1 else 0, if tag == "transpose" then 1 else 0)
  }

  /** An element anywhere in the document is counted, and so is everything
      below it: a `del` inside a `subst` counts as a deletion. */
  lemma {:induction false} CountBelow(f: seq<Node>, e: Node, tag: string)
    requires e.Element? && Occurs(f, e)
    ensures CountTag(f, tag) >= (if e.tag == tag then 1 else 0) + CountTag(e.children, tag)
    decreases f
  {
    OccursCons(f, e);
    if f[0] == e {
    } else if f[0].Element? && Occurs(f[0].children, e) {
      CountBelow(f[0].children, e, tag);
    } else {
      CountBelow(f[1..], e, tag);
    }
  }

  /** One of the four counted tags. */
  predicate Tracked(tag: string) {
    tag == "add" || tag == "del" || tag == "subst" || tag == "transpose"
  }

  /** Without any of the four tags, all counts are zero. */
  lemma {:induction false} ZeroWithoutMarkup(f: seq<Node>)
    requires forall e: Node | Occurs(f, e) && e.Element? :: !Tracked(e.tag)
    ensures ForestStats(f) == NoStats
    decreases f
  {
    if f != [] {
      forall e: Node | Occurs(f[1..], e) && e.Element?
        ensures !Tracked(e.tag)
      {
        OccursCons(f, e);
      }
      ZeroWithoutMarkup(f[1..]);
      if f[0].Element? {
        OccursCons(f, f[0]);
        forall e: Node | Occurs(f[0].children, e) && e.Element?
          ensures !Tracked(e.tag)
        {
          OccursCons(f, e);
        }
        ZeroWithoutMarkup(f[0].children);
      }
    }
  }
}
