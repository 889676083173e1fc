/** The document tree the TEI renderers work on, and the DOM queries they use
    (`getAttribute`, `getElementsByTagName`, `querySelector`, `textContent`,
    `Node.contains`).  Element identity, which the DOM provides through object
    references, is an explicit `id`; `NumberF` is the loader step that gives
    every element of a freshly parsed tree a distinct identity. */
module Dom {
  import opened Wrappers
  import opened JsString

  /** A text node or an element with its tag name, attributes and ordered
      child nodes. */
  datatype Node =
    | Text(text: string)
    | Element(id: nat, tag: string, attrs: map<string, string>, children: seq<Node>)

  /** The XML parser the renderers call (`DOMParser.parseFromString`): None when
      it throws, otherwise the document element.  A malformed document shows up
      as a `parsererror` element inside the returned tree. */
  type Parser = string -> Option<Node>

  /** `element.getAttribute(name)`: null (None) when the attribute is absent. */
  function GetAttribute(n: Node, name: string): (r: Option<string>)
    requires n.Element?
    ensures r.Some? <==> name in n.attrs
    ensures r.Some? ==> r.value == n.attrs[name]
  {
    if name in n.attrs then Some(n.attrs[name]) else None
  }

  /** `element.getAttribute(name) === value`. */
  predicate AttrIs(n: Node, name: string, value: string) {
    n.Element? && name in n.attrs && n.attrs[name] == value
  }

  /** `n` is one of the nodes of forest `f`, at any depth. */
  predicate Occurs(f: seq<Node>, n: Node)
    decreases f
  {
    exists c | c in f :: c == n || (c.Element? && Occurs(c.children, n))
  }

  /** The number of elements tagged `tag` in `f`, at any depth. */
  function CountTag(f: seq<Node>, tag: string): nat
    decreases f
  {
    if f == [] then 0
    else
      (match f[0]
       case Text(_) => 0
       case Element(_, t, _, cs) => (if t == tag then 1 else 0) + CountTag(cs, tag))
      + CountTag(f[1..], tag)
  }

  /** Counting is additive over sibling forests. */
  lemma {:induction false} CountTagConcat(a: seq<Node>, b: seq<Node>, tag: string)
    ensures CountTag(a + b, tag) == CountTag(a, tag) + CountTag(b, tag)
    decreases a
  {
    if a == [] {
      assert a + b == b;
    } else {
      assert (a + b)[0] == a[0] && (a + b)[1..] == a[1..] + b;
      CountTagConcat(a[1..], b, tag);
    }
  }

  /** `getElementsByTagName(tag)`: the elements tagged `tag` (compared
      case-sensitively, as in an XML document) in document order. */
  function ElementsByTag(f: seq<Node>, tag: string): (r: seq<Node>)
    ensures forall e | e in r :: e.Element? && e.tag == tag
    decreases f
  {
    if f == [] then []
    else
      (match f[0]
       case Text(_) => []
       case Element(_, t, _, cs) => (if t == tag then [f[0]] else []) + ElementsByTag(cs, tag))
      + ElementsByTag(f[1..], tag)
  }

  /** The collection's `length` is the number of `tag` elements at any depth. */
  lemma {:induction false} ElementsByTagLength(f: seq<Node>, tag: string)
    ensures |ElementsByTag(f, tag)| == CountTag(f, tag)
    decreases f
  {
    if f != [] {
      ElementsByTagLength(f[1..], tag);
      if f[0].Element? {
        ElementsByTagLength(f[0].children, tag);
      }
    }
  }

  /** The collection holds exactly the `tag` elements that occur in `f`. */
  lemma {:induction false} ElementsByTagMembers(f: seq<Node>, tag: string, e: Node)
    ensures e in ElementsByTag(f, tag) <==> e.Element? && e.tag == tag && Occurs(f, e)
    decreases f
  {
    if f != [] {
      ElementsByTagMembers(f[1..], tag, e);
      if f[0].Element? {
        ElementsByTagMembers(f[0].children, tag, e);
      }
      OccursCons(f, e);
    }
  }

  /** Occurrence in a non-empty forest: in its first tree or in the rest. */
  lemma OccursCons(f: seq<Node>, n: Node)
    requires f != []
    ensures Occurs(f, n) <==>
      f[0] == n || (f[0].Element? && Occurs(f[0].children, n)) || Occurs(f[1..], n)
  {
    if Occurs(f, n) {
      var c :| c in f && (c == n || (c.Element? && Occurs(c.children, n)));
      if c != f[0] {
        assert c in f[1..];
      }
    }
    if Occurs(f[1..], n) {
      var c :| c in f[1..] && (c == n || (c.Element? && Occurs(c.children, n)));
      assert c in f;
    }
    if f[0] == n || (f[0].Element? && Occurs(f[0].children, n)) {
      assert f[0] in f;
    }
  }

  /** Occurrence is transitive: whatever occurs below an occurring element
      occurs in the forest. */
  lemma {:induction false} OccursTrans(f: seq<Node>, o: Node, e: Node)
    requires Occurs(f, o) && o.Element? && Occurs(o.children, e)
    ensures Occurs(f, e)
    decreases f
  {
    var c :| c in f && (c == o || (c.Element? && Occurs(c.children, o)));
    if c != o {
      OccursTrans(c.children, o, e);
    }
  }

  /** `querySelector(tag)`: the first `tag` element in document order. */
  function FindFirst(f: seq<Node>, tag: string): (r: Option<Node>)
    ensures r == (if ElementsByTag(f, tag) == [] then None else Some(ElementsByTag(f, tag)[0]))
    decreases f
  {
    if f == [] then None
    else match f[0]
      case Text(_) => FindFirst(f[1..], tag)
      case Element(_, t, _, cs) =>
        if t == tag then Some(f[0])
        else
          var inner := FindFirst(cs, tag);
          if inner.Some? then inner else FindFirst(f[1..], tag)
  }

  /** `textContent`: the text of every text node below, in document order. */
  function TextContent(f: seq<Node>): string
    decreases f
  {
    if f == [] then []
    else
      (match f[0]
       case Text(s) => s
       case Element(_, _, _, cs) => TextContent(cs))
      + TextContent(f[1..])
  }

  // ---------------------------------------------------------------------
  // Identity

  /** The identities of the elements of a node. */
  function IdsOfNode(n: Node): set<nat>
    decreases n, 1
  {
    match n
    case Text(_) => {}
    case Element(id, _, _, cs) => {id} + IdSet(cs)
  }

  /** The identities of the elements of a forest. */
  function IdSet(f: seq<Node>): set<nat>
    decreases f, 0
  {
    if f == [] then {} else IdsOfNode(f[0]) + IdSet(f[1..])
  }

  /** No element identity is used twice in a node. */
  predicate UniqueNode(n: Node)
    decreases n, 1
  {
    n.Text? || (n.id !in IdSet(n.children) && Unique(n.children))
  }

  /** No element identity is used twice in a forest. */
  predicate Unique(f: seq<Node>)
    decreases f, 0
  {
    f == [] || (UniqueNode(f[0]) && Unique(f[1..]) && IdsOfNode(f[0]) !! IdSet(f[1..]))
  }

  /** A forest of one tree has that tree's identities. */
  lemma Single(n: Node)
    ensures IdSet([n]) == IdsOfNode(n)
    ensures Unique([n]) <==> UniqueNode(n)
  {
    assert [n][1..] == [];
  }

  lemma {:induction false} IdSetConcat(a: seq<Node>, b: seq<Node>)
    ensures IdSet(a + b) == IdSet(a) + IdSet(b)
  {
    if a != [] {
      assert (a + b)[1..] == a[1..] + b;
      assert (a + b)[0] == a[0];
      IdSetConcat(a[1..], b);
    } else {
      assert a + b == b;
    }
  }

  lemma {:induction false} UniqueConcat(a: seq<Node>, b: seq<Node>)
    ensures Unique(a + b) <==> Unique(a) && Unique(b) && IdSet(a) !! IdSet(b)
  {
    if a == [] {
      assert a + b == b;
    } else {
      assert (a + b)[1..] == a[1..] + b;
      assert (a + b)[0] == a[0];
      UniqueConcat(a[1..], b);
      IdSetConcat(a[1..], b);
    }
  }

  lemma IdsOfOccurring(f: seq<Node>, n: Node)
    requires Occurs(f, n) && n.Element?
    ensures n.id in IdSet(f) && IdSet(n.children) <= IdSet(f)
    decreases f
  {
    OccursCons(f, n);
    if f[0] == n {
    } else if f[0].Element? && Occurs(f[0].children, n) {
      IdsOfOccurring(f[0].children, n);
    } else {
      IdsOfOccurring(f[1..], n);
    }
  }

  /** Every element occurring in a forest with distinct identities has
      distinct identities in its own subtree. */
  lemma {:induction false} UniqueOccurring(f: seq<Node>, n: Node)
    requires Unique(f) && Occurs(f, n)
    ensures UniqueNode(n)
    decreases f
  {
    OccursCons(f, n);
    if f[0] == n {
    } else if f[0].Element? && Occurs(f[0].children, n) {
      UniqueOccurring(f[0].children, n);
    } else {
      UniqueOccurring(f[1..], n);
    }
  }

  /** In a forest with distinct identities, two occurring elements with the
      same identity are the same element. */
  lemma {:induction false} SameIdSameNode(f: seq<Node>, a: Node, b: Node)
    requires Unique(f) && Occurs(f, a) && Occurs(f, b)
    requires a.Element? && b.Element? && a.id == b.id
    ensures a == b
    decreases f
  {
    OccursCons(f, a);
    OccursCons(f, b);
    var inFirstA := f[0] == a || (f[0].Element? && Occurs(f[0].children, a));
    var inFirstB := f[0] == b || (f[0].Element? && Occurs(f[0].children, b));
    if inFirstA && inFirstB {
      if f[0] == a && f[0] != b {
        IdsOfOccurring(f[0].children, b);
      } else if f[0] == b && f[0] != a {
        IdsOfOccurring(f[0].children, a);
      } else if f[0] != a && f[0] != b {
        SameIdSameNode(f[0].children, a, b);
      }
    } else if inFirstA {
      IdsOfOccurring(f[1..], b);
      if f[0] != a {
        IdsOfOccurring(f[0].children, a);
      }
    } else if inFirstB {
      IdsOfOccurring(f[1..], a);
      if f[0] != b {
        IdsOfOccurring(f[0].children, b);
      }
    } else {
      SameIdSameNode(f[1..], a, b);
    }
  }

  // ---------------------------------------------------------------------
  // Loading: element identities

  /** The number of elements in a forest. */
  function SizeF(f: seq<Node>): nat
    decreases f
  {
    if f == [] then 0
    else (match f[0] case Text(_) => 0 case Element(_, _, _, cs) => 1 + SizeF(cs)) + SizeF(f[1..])
  }

  /** Gives the elements of `f` the identities `k`, `k + 1`, ... in document
      order, leaving everything else as parsed. */
  function NumberF(f: seq<Node>, k: nat): (r: seq<Node>)
    decreases f
  {
    if f == [] then []
    else match f[0]
      case Text(_) => [f[0]] + NumberF(f[1..], k)
      case Element(_, tag, attrs, cs) =>
        [Element(k, tag, attrs, NumberF(cs, k + 1))] + NumberF(f[1..], k + 1 + SizeF(cs))
  }

  /** Sets every identity to 0: what a tree is apart from identity. */
  function EraseIds(f: seq<Node>): seq<Node>
    decreases f
  {
    if f == [] then []
    else match f[0]
      case Text(_) => [f[0]] + EraseIds(f[1..])
      case Element(_, tag, attrs, cs) => [Element(0, tag, attrs, EraseIds(cs))] + EraseIds(f[1..])
  }

  /** Numbering gives distinct identities drawn from `[k, k + SizeF(f))` and
      changes nothing but identities. */
  lemma NumberUnique(f: seq<Node>, k: nat)
    ensures Unique(NumberF(f, k))
    ensures forall i | i in IdSet(NumberF(f, k)) :: k <= i < k + SizeF(f)
    ensures EraseIds(NumberF(f, k)) == EraseIds(f)
  {
    NumberDistinct(f, k);
    NumberRange(f, k);
    NumberErase(f, k);
  }

  lemma {:induction false} NumberRange(f: seq<Node>, k: nat)
    ensures forall i | i in IdSet(NumberF(f, k)) :: k <= i < k + SizeF(f)
    decreases f
  {
    if f != [] {
      var r := NumberF(f, k);
      match f[0]
      case Text(_) =>
        NumberRange(f[1..], k);
        assert r[1..] == NumberF(f[1..], k);
        assert IdSet(r) == IdsOfNode(r[0]) + IdSet(r[1..]);
      case Element(_, tag, attrs, cs) =>
        NumberRange(cs, k + 1);
        NumberRange(f[1..], k + 1 + SizeF(cs));
        assert r[0] == Element(k, tag, attrs, NumberF(cs, k + 1));
        assert r[1..] == NumberF(f[1..], k + 1 + SizeF(cs));
        assert IdSet(r) == {k} + IdSet(NumberF(cs, k + 1)) + IdSet(r[1..]);
        assert SizeF(f) == 1 + SizeF(cs) + SizeF(f[1..]);
    }
  }

  lemma {:induction false} NumberDistinct(f: seq<Node>, k: nat)
    ensures Unique(NumberF(f, k))
    decreases f
  {
    if f != [] {
      var r := NumberF(f, k);
      match f[0]
      case Text(_) =>
        NumberDistinct(f[1..], k);
        assert r[0] == f[0] && r[1..] == NumberF(f[1..], k);
        assert IdsOfNode(r[0]) == {} && UniqueNode(r[0]);
      case Element(_, tag, attrs, cs) =>
        NumberDistinct(cs, k + 1);
        NumberDistinct(f[1..], k + 1 + SizeF(cs));
        NumberRange(cs, k + 1);
        NumberRange(f[1..], k + 1 + SizeF(cs));
        assert r[0] == Element(k, tag, attrs, NumberF(cs, k + 1));
        assert r[1..] == NumberF(f[1..], k + 1 + SizeF(cs));
        assert IdsOfNode(r[0]) == {k} + IdSet(NumberF(cs, k + 1));
    }
  }

  lemma {:induction false} NumberErase(f: seq<Node>, k: nat)
    ensures EraseIds(NumberF(f, k)) == EraseIds(f)
    decreases f
  {
    if f != [] {
      var r := NumberF(f, k);
      match f[0]
      case Text(_) =>
        NumberErase(f[1..], k);
        assert r[0] == f[0] && r[1..] == NumberF(f[1..], k);
      case Element(_, tag, attrs, cs) =>
        NumberErase(cs, k + 1);
        NumberErase(f[1..], k + 1 + SizeF(cs));
        assert r[0] == Element(k, tag, attrs, NumberF(cs, k + 1));
        assert r[1..] == NumberF(f[1..], k + 1 + SizeF(cs));
    }
  }
}
