/** Edit markers (`add`, `del`) and the two analyses the renderer runs on
    them before resolving anything: the nesting depth of an element
    (`getNestingDepth`) and the selection of the top-level edits
    (`filterChildEdits`). */
module EditMarkers {
  import opened Wrappers
  import opened Dom

  /** An element the edit passes collect: tag `add` or `del`, compared
      case-sensitively. */
  predicate IsEdit(n: Node) {
    n.Element? && (n.tag == "add" || n.tag == "del")
  }

  /** `edit.getAttribute('instant') === 'true'`. */
  predicate IsInstant(n: Node) {
    AttrIs(n, "instant", "true")
  }

  // ---------------------------------------------------------------------
  // getNestingDepth

  /** The nesting depth of an element: 1 without element children, otherwise
      the largest `1 + depth` over its element children.  Text does not count;
      every element tag does. */
  function NestingDepth(n: Node): (d: nat)
    requires n.Element?
    ensures d >= 1
    decreases n, 1
  {
    if forall c | c in n.children :: c.Text? then 1 else DeepestChild(n.children)
  }

  /** `Math.max(...children.map(child => 1 + getNestingDepth(child)))` over the
      element children, 0 when there are none. */
  function DeepestChild(cs: seq<Node>): (m: nat)
    ensures forall i | 0 <= i < |cs| && cs[i].Element? :: m >= 1 + NestingDepth(cs[i])
    ensures m == 0 || exists i | 0 <= i < |cs| :: cs[i].Element? && m == 1 + NestingDepth(cs[i])
    decreases cs, 0
  {
    if cs == [] then 0
    else
      var rest := DeepestChild(cs[1..]);
      if cs[0].Element? && 1 + NestingDepth(cs[0]) > rest then
        1 + NestingDepth(cs[0])
      else
        rest
  }

  /** The depth of an element is 1 when its children are all text, and
      otherwise one more than the depth of its deepest element child. */
  lemma NestingDepthIsMax(n: Node)
    requires n.Element?
    ensures (forall i | 0 <= i < |n.children| :: n.children[i].Text?) ==> NestingDepth(n) == 1
    ensures forall i | 0 <= i < |n.children| && n.children[i].Element? ::
      NestingDepth(n) >= 1 + NestingDepth(n.children[i])
    ensures (exists i | 0 <= i < |n.children| :: n.children[i].Element?) ==>
      exists i | 0 <= i < |n.children| :: n.children[i].Element? && NestingDepth(n) == 1 + NestingDepth(n.children[i])
  {
    var cs := n.children;
    if forall c | c in cs :: c.Text? {
      assert forall i | 0 <= i < |cs| :: cs[i].Text? by {
        forall i | 0 <= i < |cs| ensures cs[i].Text? { assert cs[i] in cs; }
      }
    } else {
      var c :| c in cs && c.Element?;
      var j :| 0 <= j < |cs| && cs[j] == c;
      assert NestingDepth(n) == DeepestChild(cs);
      assert DeepestChild(cs) >= 1 + NestingDepth(cs[j]);
    }
  }

  // ---------------------------------------------------------------------
  // filterChildEdits

  /** `o.contains(e)`: `e` is `o` itself or a node below it. */
  predicate Contains(o: Node, e: Node) {
    o == e || (o.Element? && Occurs(o.children, e))
  }

  /** Some other edit of the list (by identity) contains `e`. */
  predicate ContainedByOther(edits: seq<Node>, e: Node)
    requires forall x | x in edits :: x.Element?
    requires e.Element?
  {
    exists o | o in edits :: o.id != e.id && Contains(o, e)
  }

  /** `a` is `b` with some elements left out, order kept. */
  predicate IsSubsequence<T(==)>(a: seq<T>, b: seq<T>)
    decreases |b|
  {
    a == [] || (b != [] && ((a[0] == b[0] && IsSubsequence(a[1..], b[1..])) || IsSubsequence(a, b[1..])))
  }

  /** `edits.filter(edit => !edits.some(other => other !== edit && other.contains(edit)))`:
      the edits no other edit of the list contains, in their original order. */
  function FilterChildEdits(edits: seq<Node>): (top: seq<Node>)
    requires forall e | e in edits :: e.Element?
    ensures IsSubsequence(top, edits)
    ensures forall e :: e in top <==> e in edits && !ContainedByOther(edits, e)
  {
    KeepUncontained(edits, edits)
  }

  function KeepUncontained(all: seq<Node>, rest: seq<Node>): (r: seq<Node>)
    requires forall e | e in all :: e.Element?
    requires forall e | e in rest :: e.Element?
    ensures IsSubsequence(r, rest)
    ensures forall e :: e in r <==> e in rest && !ContainedByOther(all, e)
    decreases rest
  {
    if rest == [] then []
    else
      var tail := KeepUncontained(all, rest[1..]);
      assert forall e :: e in rest <==> e == rest[0] || e in rest[1..];
      if ContainedByOther(all, rest[0]) then tail else [rest[0]] + tail
  }

  /** The edit list the passes walk: every `add` in document order, then every
      `del` in document order. */
  function AllEdits(f: seq<Node>): (r: seq<Node>)
    ensures forall e | e in r :: IsEdit(e)
  {
    ElementsByTag(f, "add") + ElementsByTag(f, "del")
  }

  /** The identities of a list of elements, in order. */
  function Ids(s: seq<Node>): (r: seq<nat>)
    requires forall e | e in s :: e.Element?
    ensures |r| == |s| && forall i | 0 <= i < |s| :: r[i] == s[i].id
  {
    if s == [] then [] else [s[0].id] + Ids(s[1..])
  }

  function Elems(xs: seq<nat>): set<nat> {
    set i | i in xs
  }

  lemma ElemsSuffix(xs: seq<nat>, k: nat)
    requires k < |xs|
    ensures Elems(xs[k..]) == {xs[k]} + Elems(xs[k + 1..])
  {
    assert xs[k..] == [xs[k]] + xs[k + 1..];
  }

  // ---------------------------------------------------------------------
  // Structural view of the edits of a forest

  /** Identities of all edits. */
  function EditIds(f: seq<Node>): set<nat>
    decreases f
  {
    if f == [] then {}
    else
      (match f[0]
       case Text(_) => {}
       case Element(id, _, _, cs) => (if IsEdit(f[0]) then {id} else {}) + EditIds(cs))
      + EditIds(f[1..])
  }

  /** Identities of the edits with no edit above them. */
  function TopEditIds(f: seq<Node>): set<nat>
    decreases f
  {
    if f == [] then {}
    else
      (match f[0]
       case Text(_) => {}
       case Element(id, _, _, cs) => if IsEdit(f[0]) then {id} else TopEditIds(cs))
      + TopEditIds(f[1..])
  }

  /** Identities of the edits inside another edit. */
  function NestedEditIds(f: seq<Node>): set<nat>
    decreases f
  {
    if f == [] then {}
    else
      (match f[0]
       case Text(_) => {}
       case Element(_, _, _, cs) => if IsEdit(f[0]) then EditIds(cs) else NestedEditIds(cs))
      + NestedEditIds(f[1..])
  }

  lemma {:induction false} EditIdsConcat(a: seq<Node>, b: seq<Node>)
    ensures EditIds(a + b) == EditIds(a) + EditIds(b)
    ensures TopEditIds(a + b) == TopEditIds(a) + TopEditIds(b)
    ensures NestedEditIds(a + b) == NestedEditIds(a) + NestedEditIds(b)
    decreases a
  {
    if a == [] {
      assert a + b == b;
    } else {
      assert (a + b)[0] == a[0] && (a + b)[1..] == a[1..] + b;
      EditIdsConcat(a[1..], b);
    }
  }

  /** Every edit is either top-level or nested, and edits are elements. */
  lemma {:induction false} EditIdsSplit(f: seq<Node>)
    ensures EditIds(f) == TopEditIds(f) + NestedEditIds(f)
    ensures EditIds(f) <= IdSet(f)
    decreases f
  {
    if f != [] {
      EditIdsSplit(f[1..]);
      if f[0].Element? {
        EditIdsSplit(f[0].children);
      }
    }
  }

  /** With distinct identities, no edit is both top-level and nested. */
  lemma {:induction false} TopNestedDisjoint(f: seq<Node>)
    requires Unique(f)
    ensures TopEditIds(f) !! NestedEditIds(f)
    decreases f
  {
    if f != [] {
      TopNestedDisjoint(f[1..]);
      EditIdsSplit(f[1..]);
      if f[0].Element? {
        TopNestedDisjoint(f[0].children);
        EditIdsSplit(f[0].children);
      }
    }
  }

  /** The identities in `EditIds` are exactly those of the occurring edits. */
  lemma {:induction false} EditIdsOccurs(f: seq<Node>, i: nat)
    ensures i in EditIds(f) <==> exists e :: Occurs(f, e) && IsEdit(e) && e.id == i
    decreases f
  {
    if f != [] {
      EditIdsOccurs(f[1..], i);
      if f[0].Element? {
        EditIdsOccurs(f[0].children, i);
      }
      forall e | Occurs(f, e) && IsEdit(e) && e.id == i
        ensures i in EditIds(f)
      {
        OccursCons(f, e);
      }
      if i in EditIds(f) {
        if f[0].Element? && IsEdit(f[0]) && f[0].id == i {
          OccursCons(f, f[0]);
        } else if f[0].Element? && i in EditIds(f[0].children) {
          var e :| Occurs(f[0].children, e) && IsEdit(e) && e.id == i;
          OccursCons(f, e);
        } else {
          var e :| Occurs(f[1..], e) && IsEdit(e) && e.id == i;
          OccursCons(f, e);
        }
      }
    }
  }

  /** The edits below an occurring edit are nested edits of the forest. */
  lemma {:induction false} NestedOfOccurring(f: seq<Node>, o: Node)
    requires Occurs(f, o) && IsEdit(o)
    ensures EditIds(o.children) <= NestedEditIds(f)
    decreases f
  {
    OccursCons(f, o);
    if f[0] == o {
    } else if f[0].Element? && Occurs(f[0].children, o) {
      if IsEdit(f[0]) {
        forall i | i in EditIds(o.children)
          ensures i in EditIds(f[0].children)
        {
          EditIdsOccurs(o.children, i);
          var e :| Occurs(o.children, e) && IsEdit(e) && e.id == i;
          OccursTrans(f[0].children, o, e);
          EditIdsOccurs(f[0].children, i);
        }
      } else {
        NestedOfOccurring(f[0].children, o);
      }
    } else {
      NestedOfOccurring(f[1..], o);
    }
  }

  /** An occurring edit that is not top-level lies inside another occurring
      edit. */
  lemma {:induction false} NotTopIsContained(f: seq<Node>, e: Node)
    requires Unique(f) && Occurs(f, e) && IsEdit(e) && e.id !in TopEditIds(f)
    ensures exists o :: Occurs(f, o) && IsEdit(o) && o.id != e.id && Contains(o, e)
    decreases f
  {
    OccursCons(f, e);
    if f[0] == e {
    } else if f[0].Element? && Occurs(f[0].children, e) {
      if IsEdit(f[0]) {
        IdsOfOccurring(f[0].children, e);
        OccursCons(f, f[0]);
      } else {
        NotTopIsContained(f[0].children, e);
        var o :| Occurs(f[0].children, o) && IsEdit(o) && o.id != e.id && Contains(o, e);
        OccursCons(f, o);
      }
    } else {
      NotTopIsContained(f[1..], e);
      var o :| Occurs(f[1..], o) && IsEdit(o) && o.id != e.id && Contains(o, e);
      OccursCons(f, o);
    }
  }

  lemma AllEditsMembers(f: seq<Node>, e: Node)
    ensures e in AllEdits(f) <==> Occurs(f, e) && IsEdit(e)
  {
    ElementsByTagMembers(f, "add", e);
    ElementsByTagMembers(f, "del", e);
  }

  lemma {:induction false} IdsMembers(s: seq<Node>, i: nat)
    requires forall e | e in s :: e.Element?
    ensures i in Elems(Ids(s)) <==> exists e | e in s :: e.id == i
  {
    if i in Elems(Ids(s)) {
      var k :| 0 <= k < |s| && Ids(s)[k] == i;
      assert s[k] in s;
    }
  }

  /** The edit list names every edit of the document once per occurrence:
      its identities are exactly the document's edit identities. */
  lemma AllEditsIds(f: seq<Node>)
    ensures Elems(Ids(AllEdits(f))) == EditIds(f)
  {
    forall i | i in Elems(Ids(AllEdits(f)))
      ensures i in EditIds(f)
    {
      IdsMembers(AllEdits(f), i);
      var e :| e in AllEdits(f) && e.id == i;
      AllEditsMembers(f, e);
      EditIdsOccurs(f, i);
    }
    forall i | i in EditIds(f)
      ensures i in Elems(Ids(AllEdits(f)))
    {
      EditIdsOccurs(f, i);
      var e :| Occurs(f, e) && IsEdit(e) && e.id == i;
      AllEditsMembers(f, e);
      IdsMembers(AllEdits(f), i);
    }
  }

  /** In a document with distinct identities, `filterChildEdits` applied to
      the collected edits keeps exactly the top-level edits. */
  lemma FilterKeepsTopLevel(f: seq<Node>)
    requires Unique(f)
    ensures Elems(Ids(FilterChildEdits(AllEdits(f)))) == TopEditIds(f)
  {
    var all := AllEdits(f);
    var top := FilterChildEdits(all);
    forall i | i in Elems(Ids(top))
      ensures i in TopEditIds(f)
    {
      IdsMembers(top, i);
      var e :| e in top && e.id == i;
      AllEditsMembers(f, e);
      if i !in TopEditIds(f) {
        NotTopIsContained(f, e);
        var o :| Occurs(f, o) && IsEdit(o) && o.id != e.id && Contains(o, e);
        AllEditsMembers(f, o);
        assert false;
      }
    }
    forall i | i in TopEditIds(f)
      ensures i in Elems(Ids(top))
    {
      EditIdsSplit(f);
      EditIdsOccurs(f, i);
      var e :| Occurs(f, e) && IsEdit(e) && e.id == i;
      AllEditsMembers(f, e);
      if ContainedByOther(all, e) {
        var o :| o in all && o.id != e.id && Contains(o, e);
        AllEditsMembers(f, o);
        NestedOfOccurring(f, o);
        EditIdsOccurs(o.children, i);
        TopNestedDisjoint(f);
        assert false;
      }
      IdsMembers(top, i);
    }
  }
}
