/** The older witness renderer (`witness-utils.ts`): it prints the TEI body
    with every editorial marker shown and none resolved, together with its
    own witness label and page number helpers. */
module WitnessUtils {
  import opened Wrappers
  import opened JsString
  import opened Dom
  import opened Files
  import FileUtils
  import LabelUtils

  /** `getWitnessLabel`: `W` followed by the id as it stands. */
  function GetWitnessLabel(witnessId: string): (r: string)
    ensures |r| == |witnessId| + 1 && r[0] == 'W' && r[1..] == witnessId
  {
    "W" + witnessId
  }

  /** `getPageNumber`: the digits right before a final `.png` (lower case
      only), without padding; `""` when the name does not end that way. */
  function GetPageNumber(file: FileData): (r: string)
    ensures r != "" ==> forall i | 0 <= i < |r| :: IsDigit(r[i])
  {
    match FileUtils.SuffixNumber(file.name, {"png"}, false)
    case None => ""
    case Some(digits) => digits
  }

  // ---------------------------------------------------------------------
  // Printing

  /** How one child prints. Text is copied verbatim; element names are
      compared in lower case. */
  function PrintNode(c: Node): string
    decreases c, 1
  {
    match c
    case Text(s) => s
    case Element(_, tag, _, cs) =>
      var inner := Print(cs, 0);
      var name := Lower(tag);
      if name == "del" then "[" + inner + "]"
      else if name == "add" then "{" + inner + "}"
      else if name == "unclear" then "⟨" + inner + "⟩"
      else if name == "supplied" then "<" + inner + ">"
      else if name == "note" then "(*" + inner + "*)"
      else if name == "lb" then "\n"
      else if name == "pb" then "\n[Page Break]\n"
      else inner
  }

  /** The printed form of the children `cs[i..]`. */
  function Print(cs: seq<Node>, i: nat): string
    requires i <= |cs|
    decreases cs, |cs| - i
  {
    if i == |cs| then "" else PrintNode(cs[i]) + Print(cs, i + 1)
  }

  /** `processNode(node)`: appends the printed form of each child in turn. */
  method ProcessNode(node: Node) returns (result: string)
    requires node.Element?
    ensures result == Print(node.children, 0)
    decreases node
  {
    result := "";
    var cs := node.children;
    for k := 0 to |cs|
      invariant result + Print(cs, k) == Print(cs, 0)
    {
      var child := cs[k];
      var piece: string;
      match child {
        case Text(s) =>
          piece := s;
        case Element(_, tag, _, _) =>
          var name := Lower(tag);
          if name == "lb" {
            piece := "\n";
          } else if name == "pb" {
            piece := "\n[Page Break]\n";
          } else {
            var inner := ProcessNode(child);
            if name == "del" {
              piece := "[" + inner + "]";
            } else if name == "add" {
              piece := "{" + inner + "}";
            } else if name == "unclear" {
              piece := "⟨" + inner + "⟩";
            } else if name == "supplied" {
              piece := "<" + inner + ">";
            } else if name == "note" {
              piece := "(*" + inner + "*)";
            } else {
              piece := inner;
            }
          }
      }
      assert piece == PrintNode(cs[k]);
      result := result + piece;
    }
  }

  /** What `parseTEIXML(xml, showParsedText)` returns. */
  function RenderWitness(xml: string, showParsedText: bool, parse: Parser): string
  {
    if xml == "" then ""
    else if !showParsedText then xml
    else match parse(xml)
      case None => xml
      case Some(root) =>
        if FindFirst([root], "parsererror").Some? then xml
        else match FindFirst([root], "body")
          case None => xml
          case Some(body) => Print(body.children, 0)
  }

  /** `parseTEIXML`, the parser passed in. */
  method ParseTEIXML(xml: string, showParsedText: bool, parse: Parser) returns (r: string)
    ensures r == RenderWitness(xml, showParsedText, parse)
  {
    if xml == "" {
      return "";
    }
    if !showParsedText {
      return xml;
    }
    var parsed := parse(xml);
    if parsed.None? {
      return xml;
    }
    if FindFirst([parsed.value], "parsererror").Some? {
      return xml;
    }
    var body := FindFirst([parsed.value], "body");
    if body.None? {
      return xml;
    }
    r := ProcessNode(body.value);
  }

  // ---------------------------------------------------------------------
  // Properties

  /** The raw text comes back when it is empty, when printing is switched
      off, when parsing fails or reports an error, or when there is no
      `body`. */
  lemma Fallbacks(xml: string, showParsedText: bool, parse: Parser)
    ensures xml == "" ==> RenderWitness(xml, showParsedText, parse) == ""
    ensures xml != "" && !showParsedText ==> RenderWitness(xml, showParsedText, parse) == xml
    ensures xml != "" && parse(xml).None? ==> RenderWitness(xml, showParsedText, parse) == xml
    ensures xml != "" && parse(xml).Some? && FindFirst([parse(xml).value], "body").None?
      ==> RenderWitness(xml, showParsedText, parse) == xml
    ensures xml != "" && parse(xml).Some? && FindFirst([parse(xml).value], "parsererror").Some?
      ==> RenderWitness(xml, showParsedText, parse) == xml
  {
  }

  /** Printing a forest is printing its parts one after the other: no
      child's output depends on its siblings. */
  lemma {:induction false} PrintConcat(a: seq<Node>, b: seq<Node>, i: nat)
    requires i <= |a|
    ensures Print(a + b, i) == Print(a[i..], 0) + Print(b, 0)
    decreases |a| - i
  {
    if i == |a| {
      assert a[i..] == [];
      PrintFrom(b, a + b, |a|);
    } else {
      PrintConcat(a, b, i + 1);
      assert (a + b)[i] == a[i];
      PrintFrom(a[i..], a, i);
      PrintFrom(a[i + 1..], a, i + 1);
      assert a[i..][1..] == a[i + 1..];
      PrintStep(a[i..]);
    }
  }

  /** `Print(cs, i)` depends only on `cs[i..]`. */
  lemma {:induction false} PrintFrom(s: seq<Node>, cs: seq<Node>, i: nat)
    requires i <= |cs| && cs[i..] == s
    ensures Print(cs, i) == Print(s, 0)
    decreases |cs| - i
  {
    if i < |cs| {
      assert cs[i] == s[0];
      PrintFrom(s[1..], cs, i + 1);
      PrintFrom(s[1..], s, 1);
    }
  }

  lemma PrintStep(s: seq<Node>)
    requires s != []
    ensures Print(s, 0) == PrintNode(s[0]) + Print(s[1..], 0)
  {
    PrintFrom(s[1..], s, 1);
  }

  /** Elements the old printer passes through without adding anything. */
  predicate Unmarked(f: seq<Node>)
    decreases f
  {
    forall i | 0 <= i < |f| ::
      match f[i]
      case Text(_) => true
      case Element(_, tag, _, cs) =>
        Lower(tag) !in {"del", "add", "unclear", "supplied", "note", "lb", "pb"} && Unmarked(cs)
  }

  /** Without editorial markup the old printer returns the transcription's
      text exactly, whitespace included. */
  lemma {:induction false} UnmarkedIsTextContent(f: seq<Node>, i: nat)
    requires i <= |f| && Unmarked(f)
    ensures Print(f, i) == TextContent(f[i..])
    decreases f, |f| - i
  {
    if i < |f| {
      UnmarkedIsTextContent(f, i + 1);
      assert f[i..][0] == f[i] && f[i..][1..] == f[i + 1..];
      if f[i].Element? {
        UnmarkedIsTextContent(f[i].children, 0);
        assert f[i].children[0..] == f[i].children;
      }
    } else {
      assert f[i..] == [];
    }
  }

  /** Every `pb` prints as a page break line, whatever its `n` and content;
      `add` and `del` always keep their brackets. */
  lemma MarkerForms(id: nat, tag: string, attrs: map<string, string>, cs: seq<Node>)
    ensures Lower(tag) == "pb" ==> PrintNode(Element(id, tag, attrs, cs)) == "\n[Page Break]\n"
    ensures Lower(tag) == "add" ==> PrintNode(Element(id, tag, attrs, cs)) == "{" + Print(cs, 0) + "}"
    ensures Lower(tag) == "del" ==> PrintNode(Element(id, tag, attrs, cs)) == "[" + Print(cs, 0) + "]"
  {
  }

  /** A name ending in digits and `.png` gets exactly those digits. */
  lemma PngPage(prefix: string, digits: string, file: FileData)
    requires prefix == [] || !IsDigit(prefix[|prefix| - 1])
    requires digits != [] && forall i | 0 <= i < |digits| :: IsDigit(digits[i])
    requires file.name == prefix + digits + ".png"
    ensures GetPageNumber(file) == digits
  {
    assert file.name == prefix + digits + "." + "png";
    FileUtils.SuffixNumberOf(prefix, digits, "png", {"png"}, false);
  }

  /** Conversely, a page number is found only in a name that ends in that
      digit run and a lower-case `.png`, with no digit just before the run:
      `p1.PNG` and `p.png` give `""`. */
  lemma PngPageOnly(file: FileData)
    ensures var r, n := GetPageNumber(file), |file.name|;
      r != "" ==>
        (n >= |r| + 4 && file.name[n - 4..] == ".png" && file.name[n - 4 - |r|..n - 4] == r
         && (n - 4 - |r| == 0 || !IsDigit(file.name[n - 5 - |r|])))
  {
    var name := file.name;
    if GetPageNumber(file) != "" {
      var q := FileUtils.LastIndexOf(name, '.').value;
      assert name[q + 1..] == "png";
      assert name[|name| - 4..] == [name[q]] + name[q + 1..];
    }
  }

  /** Where the old page number is found, the newer `getPageNumber` finds
      the same digits (padded to two). */
  lemma PageNumbersAgree(file: FileData)
    requires GetPageNumber(file) != ""
    ensures FileUtils.PageNumberOf(file.name, FileUtils.Patterns) == FileUtils.Pad(GetPageNumber(file))
  {
    var q := FileUtils.LastIndexOf(file.name, '.').value;
    assert file.name[q + 1..] == "png";
    assert Lower("png") == "png";
    FileUtils.PageNumberCases(file.name);
  }

  /** The old label keeps the id whole; it agrees with the newer
      `getWitnessLabel` exactly when the id has no `witness_` in it. */
  lemma LabelsAgree(witnessId: string)
    ensures !Contains(witnessId, "witness_") ==> GetWitnessLabel(witnessId) == LabelUtils.GetWitnessLabel(witnessId)
    ensures Contains(witnessId, "witness_") ==> GetWitnessLabel(witnessId) != LabelUtils.GetWitnessLabel(witnessId)
  {
    if Contains(witnessId, "witness_") {
      var i := IndexOf(witnessId, "witness_").value;
      assert |LabelUtils.GetWitnessLabel(witnessId)| == |witnessId| - 7;
    }
  }
}
