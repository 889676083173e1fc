/** The three ways the renderer resolves revisions before it prints a witness:
    1a (the text before revision; instant revisions stay, marked), 1b (top-level
    revisions that are instant or at most two levels deep are applied, the
    others undone; nested revisions are left alone) and 1c (every revision
    applied).  Each pass walks a list of edit identities collected before any
    change, and each step acts on the document as it is at that point. */
module EditResolution {
  import opened Dom
  import opened EditMarkers
  import JsString

  /** 1a, 1b and 1c. */
  datatype Pass = Revert | TopLevel | Apply

  /** What a pass does to one edit element. */
  datatype Action =
    | Remove       // the edit leaves the tree with everything in it
    | Splice       // its children move to its place, then it leaves
    | MarkInstant  // it stays, with `data-instant="true"`

  predicate IsMarked(n: Node) {
    AttrIs(n, "data-instant", "true")
  }

  /** `edit.setAttribute('data-instant', 'true')`. */
  function Mark(e: Node): (r: Node)
    requires e.Element?
    ensures r.Element? && r.id == e.id && r.tag == e.tag && r.children == e.children
    ensures IsMarked(r)
    ensures r.attrs.Keys == e.attrs.Keys + {"data-instant"}
    ensures forall k | k in e.attrs && k != "data-instant" :: r.attrs[k] == e.attrs[k]
  {
    e.(attrs := e.attrs["data-instant" := "true"])
  }

  /** The action a pass takes on an edit.  1a keeps instant edits and undoes
      the others (an `add` goes, a `del` gives its content back); 1c applies
      (an `add` gives its content, a `del` goes); 1b applies an edit that is
      instant or has nesting depth at most 2 and undoes the others. */
  function Decide(p: Pass, e: Node): (a: Action)
    requires IsEdit(e)
    ensures a == MarkInstant <==> p == Revert && IsInstant(e)
  {
    match p
    case Revert =>
      if IsInstant(e) then MarkInstant
      else if e.tag == "add" then Remove
      else Splice
    case TopLevel =>
      if IsInstant(e) || NestingDepth(e) <= 2 then
        (if e.tag == "add" then Splice else Remove)
      else
        (if e.tag == "add" then Remove else Splice)
    case Apply =>
      if e.tag == "add" then Splice else Remove
  }

  /** What takes the place of element `e` among its siblings. */
  function Perform(a: Action, e: Node): seq<Node>
    requires e.Element?
  {
    match a
    case Remove => []
    case Splice => e.children
    case MarkInstant => [Mark(e)]
  }

  /** One iteration of a pass: the edit with identity `x`, wherever it now is
      in the document, gets the pass's action.  An edit that has left the
      document with a removed ancestor is acted on outside it, which leaves
      the document as it is. */
  function ResolveAt(f: seq<Node>, x: nat, p: Pass): seq<Node>
    decreases f
  {
    if f == [] then []
    else
      (match f[0]
       case Text(_) => [f[0]]
       case Element(id, tag, attrs, cs) =>
         if id == x && IsEdit(f[0]) then Perform(Decide(p, f[0]), f[0])
         else [Element(id, tag, attrs, ResolveAt(cs, x, p))])
      + ResolveAt(f[1..], x, p)
  }

  // ---------------------------------------------------------------------
  // 1a and 1c: every edit

  /** The document 1a or 1c leaves, defined bottom-up: every edit gets its
      pass's action, its content already resolved. */
  function Resolved(p: Pass, f: seq<Node>): seq<Node>
    requires p != TopLevel
    decreases f
  {
    if f == [] then []
    else
      (match f[0]
       case Text(_) => [f[0]]
       case Element(id, tag, attrs, cs) =>
         var e := Element(id, tag, attrs, Resolved(p, cs));
         if IsEdit(e) then Perform(Decide(p, e), e) else [e])
      + Resolved(p, f[1..])
  }

  /** An edit the pass has nothing more to do with: an instant edit 1a has
      already marked. */
  predicate Settled(p: Pass, e: Node) {
    p == Revert && IsInstant(e) && IsMarked(e)
  }

  /** Identities of the edits in the document the pass still has to act on. */
  function PendingIds(p: Pass, f: seq<Node>): set<nat>
    decreases f
  {
    if f == [] then {}
    else
      (match f[0]
       case Text(_) => {}
       case Element(id, _, _, cs) =>
         (if IsEdit(f[0]) && !Settled(p, f[0]) then {id} else {}) + PendingIds(p, cs))
      + PendingIds(p, f[1..])
  }

  lemma {:induction false} ResolvedConcat(p: Pass, a: seq<Node>, b: seq<Node>)
    requires p != TopLevel
    ensures Resolved(p, a + b) == Resolved(p, a) + Resolved(p, b)
    decreases a
  {
    if a == [] {
      assert a + b == b;
    } else {
      var ab := a + b;
      assert ab[0] == a[0] && ab[1..] == a[1..] + b;
      ResolvedConcat(p, a[1..], b);
      var head :=
        match a[0]
        case Text(_) => [a[0]]
        case Element(id, tag, attrs, cs) =>
          var e := Element(id, tag, attrs, Resolved(p, cs));
          if IsEdit(e) then Perform(Decide(p, e), e) else [e];
      var x, y := Resolved(p, a[1..]), Resolved(p, b);
      assert Resolved(p, a) == head + x;
      assert Resolved(p, ab) == head + (x + y);
      JsString.Associative(head, x, y);
    }
  }

  lemma {:induction false} PendingConcat(p: Pass, a: seq<Node>, b: seq<Node>)
    ensures PendingIds(p, a + b) == PendingIds(p, a) + PendingIds(p, b)
    decreases a
  {
    if a == [] {
      assert a + b == b;
    } else {
      assert (a + b)[0] == a[0] && (a + b)[1..] == a[1..] + b;
      PendingConcat(p, a[1..], b);
    }
  }

  /** The pending edits are edits; for 1b and 1c, all of them. */
  lemma {:induction false} PendingAreEdits(p: Pass, f: seq<Node>)
    ensures PendingIds(p, f) <= EditIds(f)
    ensures p != Revert ==> PendingIds(p, f) == EditIds(f)
    decreases f
  {
    if f != [] {
      PendingAreEdits(p, f[1..]);
      if f[0].Element? {
        PendingAreEdits(p, f[0].children);
      }
    }
  }

  /** Acting on an identity that names no edit changes nothing. */
  lemma {:induction false} ResolveAtAbsent(f: seq<Node>, x: nat, p: Pass)
    requires x !in EditIds(f)
    ensures ResolveAt(f, x, p) == f
    decreases f
  {
    if f != [] {
      ResolveAtAbsent(f[1..], x, p);
      if f[0].Element? {
        ResolveAtAbsent(f[0].children, x, p);
      }
      assert f == [f[0]] + f[1..];
    }
  }

  /** A step only removes, moves or marks elements: no identity appears, and
      identities stay distinct. */
  lemma {:induction false} ResolveAtIds(f: seq<Node>, x: nat, p: Pass)
    ensures IdSet(ResolveAt(f, x, p)) <= IdSet(f)
    ensures Unique(f) ==> Unique(ResolveAt(f, x, p))
    decreases f
  {
    if f != [] {
      var rest := ResolveAt(f[1..], x, p);
      ResolveAtIds(f[1..], x, p);
      Single(f[0]);
      match f[0]
      case Text(_) =>
        IdSetConcat([f[0]], rest);
        UniqueConcat([f[0]], rest);
      case Element(id, tag, attrs, cs) =>
        ResolveAtIds(cs, x, p);
        if id == x && IsEdit(f[0]) {
          var h := Perform(Decide(p, f[0]), f[0]);
          IdSetConcat(h, rest);
          UniqueConcat(h, rest);
          if Decide(p, f[0]) == MarkInstant {
            Single(Mark(f[0]));
          }
        } else {
          var n := Element(id, tag, attrs, ResolveAt(cs, x, p));
          Single(n);
          IdSetConcat([n], rest);
          UniqueConcat([n], rest);
        }
    }
  }

  /** For 1a and 1c, a step does not change what the pass ends with. */
  lemma {:induction false} ResolvedStep(p: Pass, f: seq<Node>, x: nat)
    requires p != TopLevel
    ensures Resolved(p, ResolveAt(f, x, p)) == Resolved(p, f)
    decreases f
  {
    if f != [] {
      var rest := ResolveAt(f[1..], x, p);
      ResolvedStep(p, f[1..], x);
      match f[0]
      case Text(_) =>
        ResolvedConcat(p, [f[0]], rest);
      case Element(id, tag, attrs, cs) =>
        ResolvedStep(p, cs, x);
        if id == x && IsEdit(f[0]) {
          var h := Perform(Decide(p, f[0]), f[0]);
          ResolvedConcat(p, h, rest);
          if Decide(p, f[0]) == MarkInstant {
            var m := attrs["data-instant" := "true"];
            assert m["data-instant" := "true"] == m;
          }
        } else {
          var n := Element(id, tag, attrs, ResolveAt(cs, x, p));
          ResolvedConcat(p, [n], rest);
        }
    }
  }

  /** A step leaves no new work. */
  lemma {:induction false} PendingStep(p: Pass, f: seq<Node>, x: nat)
    ensures PendingIds(p, ResolveAt(f, x, p)) <= PendingIds(p, f)
    decreases f
  {
    if f != [] {
      var rest := ResolveAt(f[1..], x, p);
      PendingStep(p, f[1..], x);
      match f[0]
      case Text(_) =>
        assert ResolveAt(f, x, p) == [f[0]] + rest;
        PendingConcat(p, [f[0]], rest);
      case Element(id, tag, attrs, cs) =>
        PendingStep(p, cs, x);
        if id == x && IsEdit(f[0]) {
          var h := Perform(Decide(p, f[0]), f[0]);
          assert ResolveAt(f, x, p) == h + rest;
          PendingConcat(p, h, rest);
        } else {
          var h := [Element(id, tag, attrs, ResolveAt(cs, x, p))];
          assert ResolveAt(f, x, p) == h + rest;
          PendingConcat(p, h, rest);
        }
    }
  }

  /** A step settles the edit it acts on. */
  lemma {:induction false} StepSettles(p: Pass, f: seq<Node>, x: nat)
    requires Unique(f)
    ensures x !in PendingIds(p, ResolveAt(f, x, p))
    decreases f
  {
    if f != [] {
      var rest := ResolveAt(f[1..], x, p);
      match f[0]
      case Text(_) =>
        StepSettles(p, f[1..], x);
        assert ResolveAt(f, x, p) == [f[0]] + rest;
        PendingConcat(p, [f[0]], rest);
      case Element(id, tag, attrs, cs) =>
        if id == x && IsEdit(f[0]) {
          var h := Perform(Decide(p, f[0]), f[0]);
          assert ResolveAt(f, x, p) == h + rest;
          PendingConcat(p, h, rest);
          PendingAreEdits(p, cs);
          EditIdsSplit(cs);
          PendingAreEdits(p, f[1..]);
          EditIdsSplit(f[1..]);
          ResolveAtAbsent(f[1..], x, p);
        } else {
          StepSettles(p, f[1..], x);
          var n := Element(id, tag, attrs, ResolveAt(cs, x, p));
          assert ResolveAt(f, x, p) == [n] + rest;
          PendingConcat(p, [n], rest);
          if id == x {
            PendingAreEdits(p, ResolveAt(cs, x, p));
            EditIdsSplit(ResolveAt(cs, x, p));
            ResolveAtIds(cs, x, p);
          } else {
            StepSettles(p, cs, x);
          }
        }
    }
  }

  /** With nothing left to act on, 1a and 1c change nothing. */
  lemma {:induction false} SettledFixed(p: Pass, f: seq<Node>)
    requires p != TopLevel && PendingIds(p, f) == {}
    ensures Resolved(p, f) == f
    decreases f
  {
    if f != [] {
      SettledFixed(p, f[1..]);
      if f[0].Element? {
        SettledFixed(p, f[0].children);
        var attrs := f[0].attrs;
        assert "data-instant" in attrs ==> attrs["data-instant" := attrs["data-instant"]] == attrs;
      }
      assert f == [f[0]] + f[1..];
    }
  }

  /** 1a and 1c leave nothing to act on: after 1c no edit is left, after 1a
      only instant edits, each marked. */
  lemma {:induction false} ResolvedSettles(p: Pass, f: seq<Node>)
    requires p != TopLevel
    ensures PendingIds(p, Resolved(p, f)) == {}
    decreases f
  {
    if f != [] {
      ResolvedSettles(p, f[1..]);
      match f[0]
      case Text(_) =>
        PendingConcat(p, [f[0]], Resolved(p, f[1..]));
      case Element(id, tag, attrs, cs) =>
        ResolvedSettles(p, cs);
        var e := Element(id, tag, attrs, Resolved(p, cs));
        var h := if IsEdit(e) then Perform(Decide(p, e), e) else [e];
        PendingConcat(p, h, Resolved(p, f[1..]));
    }
  }

  /** Resolving twice is resolving once. */
  lemma ResolvedIdempotent(p: Pass, f: seq<Node>)
    requires p != TopLevel
    ensures Resolved(p, Resolved(p, f)) == Resolved(p, f)
  {
    ResolvedSettles(p, f);
    SettledFixed(p, Resolved(p, f));
  }

  /** 1c leaves no `add` or `del` element. */
  lemma ApplyLeavesNoEdits(f: seq<Node>)
    ensures EditIds(Resolved(Apply, f)) == {}
  {
    ResolvedSettles(Apply, f);
    PendingAreEdits(Apply, Resolved(Apply, f));
  }

  /** The `forEach` of 1a and 1c over the collected edit identities. */
  method ResolveEach(doc: seq<Node>, edits: seq<nat>, p: Pass) returns (out: seq<Node>)
    requires p != TopLevel
    requires Unique(doc)
    requires PendingIds(p, doc) <= Elems(edits)
    ensures out == Resolved(p, doc)
  {
    out := doc;
    for k := 0 to |edits|
      invariant Unique(out)
      invariant Resolved(p, out) == Resolved(p, doc)
      invariant PendingIds(p, out) <= Elems(edits[k..])
    {
      ResolveAtIds(out, edits[k], p);
      ResolvedStep(p, out, edits[k]);
      PendingStep(p, out, edits[k]);
      StepSettles(p, out, edits[k]);
      ElemsSuffix(edits, k);
      out := ResolveAt(out, edits[k], p);
    }
    SettledFixed(p, out);
  }

  // ---------------------------------------------------------------------
  // 1b: top-level edits only

  /** The document 1b leaves: every top-level edit gets its action, with its
      content moved or dropped as it is; edits inside it are not looked at. */
  function ResolveTopLevel(f: seq<Node>): seq<Node>
    decreases f
  {
    if f == [] then []
    else
      (match f[0]
       case Text(_) => [f[0]]
       case Element(id, tag, attrs, cs) =>
         if IsEdit(f[0]) then Perform(Decide(TopLevel, f[0]), f[0])
         else [Element(id, tag, attrs, ResolveTopLevel(cs))])
      + ResolveTopLevel(f[1..])
  }

  /** What 1b does to a document when only the edits named in `s` are still
      to be processed. */
  function IntermediateOn(f: seq<Node>, s: set<nat>): seq<Node>
    decreases f
  {
    if f == [] then []
    else
      (match f[0]
       case Text(_) => [f[0]]
       case Element(id, tag, attrs, cs) =>
         if IsEdit(f[0]) && id in s then Perform(Decide(TopLevel, f[0]), f[0])
         else [Element(id, tag, attrs, IntermediateOn(cs, s))])
      + IntermediateOn(f[1..], s)
  }

  /** No edit named in `s` lies inside another edit named in `s`. */
  predicate Antichain(f: seq<Node>, s: set<nat>)
    decreases f
  {
    f == [] ||
    (Antichain(f[1..], s) &&
     match f[0]
     case Text(_) => true
     case Element(id, _, _, cs) =>
       if IsEdit(f[0]) && id in s then EditIds(cs) !! s else Antichain(cs, s))
  }

  /** Both the pass and the antichain condition work sibling by sibling. */
  lemma IntermediateConcat(a: seq<Node>, b: seq<Node>, s: set<nat>)
    ensures IntermediateOn(a + b, s) == IntermediateOn(a, s) + IntermediateOn(b, s)
    ensures Antichain(a + b, s) <==> Antichain(a, s) && Antichain(b, s)
  {
    IntermediateOnConcat(a, b, s);
    AntichainConcat(a, b, s);
  }

  lemma {:induction false} IntermediateOnConcat(a: seq<Node>, b: seq<Node>, s: set<nat>)
    ensures IntermediateOn(a + b, s) == IntermediateOn(a, s) + IntermediateOn(b, s)
    decreases a
  {
    if a == [] {
      assert a + b == b;
    } else {
      var ab := a + b;
      assert ab[0] == a[0] && ab[1..] == a[1..] + b;
      IntermediateOnConcat(a[1..], b, s);
      var head :=
        match a[0]
        case Text(_) => [a[0]]
        case Element(id, tag, attrs, cs) =>
          if IsEdit(a[0]) && id in s then Perform(Decide(TopLevel, a[0]), a[0])
          else [Element(id, tag, attrs, IntermediateOn(cs, s))];
      var x, y := IntermediateOn(a[1..], s), IntermediateOn(b, s);
      assert IntermediateOn(a, s) == head + x;
      assert IntermediateOn(ab, s) == head + (x + y);
      JsString.Associative(head, x, y);
    }
  }

  lemma {:induction false} AntichainConcat(a: seq<Node>, b: seq<Node>, s: set<nat>)
    ensures Antichain(a + b, s) <==> Antichain(a, s) && Antichain(b, s)
    decreases a
  {
    if a == [] {
      assert a + b == b;
    } else {
      var ab := a + b;
      assert ab[0] == a[0] && ab[1..] == a[1..] + b;
      AntichainConcat(a[1..], b, s);
    }
  }

  /** With no edit named in `s`, nothing is to be done. */
  lemma {:induction false} IntermediateUntouched(f: seq<Node>, s: set<nat>)
    requires EditIds(f) !! s
    ensures IntermediateOn(f, s) == f
    ensures Antichain(f, s)
    decreases f
  {
    if f != [] {
      IntermediateUntouched(f[1..], s);
      if f[0].Element? {
        IntermediateUntouched(f[0].children, s);
      }
      assert f == [f[0]] + f[1..];
    }
  }

  /** Only the names of edits that are in the document matter. */
  lemma {:induction false} IntermediateRelevant(f: seq<Node>, s: set<nat>, t: set<nat>)
    requires forall i | i in EditIds(f) :: i in s <==> i in t
    ensures IntermediateOn(f, s) == IntermediateOn(f, t)
    ensures Antichain(f, s) <==> Antichain(f, t)
    decreases f
  {
    if f != [] {
      IntermediateRelevant(f[1..], s, t);
      if f[0].Element? {
        IntermediateRelevant(f[0].children, s, t);
      }
    }
  }

  /** With every top-level edit still to do, the intermediate state is what
      1b ends with. */
  lemma {:induction false} TopLevelIsIntermediate(f: seq<Node>, s: set<nat>)
    requires TopEditIds(f) <= s
    ensures IntermediateOn(f, s) == ResolveTopLevel(f)
    decreases f
  {
    if f != [] {
      TopLevelIsIntermediate(f[1..], s);
      if f[0].Element? && !IsEdit(f[0]) {
        TopLevelIsIntermediate(f[0].children, s);
      }
    }
  }

  /** Names that are never nested edits form an antichain. */
  lemma {:induction false} AntichainOfNested(f: seq<Node>, s: set<nat>)
    requires NestedEditIds(f) !! s
    ensures Antichain(f, s)
    decreases f
  {
    if f != [] {
      AntichainOfNested(f[1..], s);
      if f[0].Element? {
        if IsEdit(f[0]) {
          EditIdsSplit(f[0].children);
          AntichainOfNested(f[0].children, s);
        } else {
          AntichainOfNested(f[0].children, s);
        }
      }
    }
  }

  /** One 1b step: processing the edit `x` takes it off the list to do, and
      keeps the remaining ones an antichain. */
  lemma {:induction false} IntermediateStep(f: seq<Node>, s: set<nat>, x: nat)
    requires x in s && Unique(f) && Antichain(f, s)
    ensures IntermediateOn(ResolveAt(f, x, TopLevel), s - {x}) == IntermediateOn(f, s)
    ensures Antichain(ResolveAt(f, x, TopLevel), s - {x})
    decreases f
  {
    if f != [] {
      var rest := ResolveAt(f[1..], x, TopLevel);
      match f[0]
      case Text(_) =>
        IntermediateStep(f[1..], s, x);
        IntermediateConcat([f[0]], rest, s - {x});
      case Element(id, tag, attrs, cs) =>
        if id == x && IsEdit(f[0]) {
          EditIdsSplit(f[1..]);
          ResolveAtAbsent(f[1..], x, TopLevel);
          IntermediateRelevant(f[1..], s, s - {x});
          var h := Perform(Decide(TopLevel, f[0]), f[0]);
          IntermediateUntouched(cs, s);
          IntermediateUntouched(cs, s - {x});
          IntermediateConcat(h, rest, s - {x});
        } else {
          IntermediateStep(f[1..], s, x);
          var n := Element(id, tag, attrs, ResolveAt(cs, x, TopLevel));
          IntermediateConcat([n], rest, s - {x});
          if IsEdit(f[0]) && id in s {
            ResolveAtAbsent(cs, x, TopLevel);
          } else {
            IntermediateStep(cs, s, x);
          }
        }
    }
  }

  /** One iteration of 1b, with the list of edits still to do going from `s`
      to `t`: `t` drops `x` and may drop names of edits already gone. */
  lemma TopLevelStep(f: seq<Node>, s: set<nat>, t: set<nat>, x: nat)
    requires Unique(f) && Antichain(f, s) && x in s
    requires s - {x} <= t <= s
    ensures Unique(ResolveAt(f, x, TopLevel))
    ensures Antichain(ResolveAt(f, x, TopLevel), t)
    ensures IntermediateOn(ResolveAt(f, x, TopLevel), t) == IntermediateOn(f, s)
  {
    var next := ResolveAt(f, x, TopLevel);
    ResolveAtIds(f, x, TopLevel);
    IntermediateStep(f, s, x);
    StepSettles(TopLevel, f, x);
    PendingAreEdits(TopLevel, next);
    IntermediateRelevant(next, s - {x}, t);
  }

  /** The `forEach` of 1b over the top-level edit identities. */
  method ApplyTopLevelEdits(doc: seq<Node>, top: seq<nat>) returns (out: seq<Node>)
    requires Unique(doc)
    requires Elems(top) == TopEditIds(doc)
    ensures out == ResolveTopLevel(doc)
  {
    out := doc;
    TopNestedDisjoint(doc);
    AntichainOfNested(doc, TopEditIds(doc));
    TopLevelIsIntermediate(doc, TopEditIds(doc));
    assert top[0..] == top;
    for k := 0 to |top|
      invariant Unique(out)
      invariant Antichain(out, Elems(top[k..]))
      invariant IntermediateOn(out, Elems(top[k..])) == ResolveTopLevel(doc)
    {
      ElemsSuffix(top, k);
      TopLevelStep(out, Elems(top[k..]), Elems(top[k + 1..]), top[k]);
      out := ResolveAt(out, top[k], TopLevel);
    }
    assert Elems(top[|top|..]) == {};
    IntermediateUntouched(out, {});
  }

  // ---------------------------------------------------------------------
  // What the passes mean

  /** After 1b the only edits left are ones that were nested in another
      edit. */
  lemma {:induction false} TopLevelLeavesNested(f: seq<Node>)
    ensures EditIds(ResolveTopLevel(f)) <= NestedEditIds(f)
    decreases f
  {
    if f != [] {
      TopLevelLeavesNested(f[1..]);
      match f[0]
      case Text(_) =>
        EditIdsConcat([f[0]], ResolveTopLevel(f[1..]));
      case Element(id, tag, attrs, cs) =>
        var h := if IsEdit(f[0]) then Perform(Decide(TopLevel, f[0]), f[0])
                 else [Element(id, tag, attrs, ResolveTopLevel(cs))];
        EditIdsConcat(h, ResolveTopLevel(f[1..]));
        if !IsEdit(f[0]) {
          TopLevelLeavesNested(cs);
        }
    }
  }

  /** No edit lies inside another edit, and every edit is instant or at most
      two levels deep -- so 1b applies each one. */
  predicate ShallowEdits(f: seq<Node>)
    decreases f
  {
    f == [] ||
    (ShallowEdits(f[1..]) &&
     match f[0]
     case Text(_) => true
     case Element(_, _, _, cs) =>
       if IsEdit(f[0]) then EditIds(cs) == {} && (IsInstant(f[0]) || NestingDepth(f[0]) <= 2)
       else ShallowEdits(cs))
  }

  /** When no edit lies inside another and none is deeper than two levels
      (or each deeper one is instant), 1b and 1c give the same document. */
  lemma {:induction false} ShallowTopLevelIsApply(f: seq<Node>)
    requires ShallowEdits(f)
    ensures ResolveTopLevel(f) == Resolved(Apply, f)
    decreases f
  {
    if f != [] {
      ShallowTopLevelIsApply(f[1..]);
      if f[0].Element? {
        if IsEdit(f[0]) {
          PendingAreEdits(Apply, f[0].children);
          SettledFixed(Apply, f[0].children);
        } else {
          ShallowTopLevelIsApply(f[0].children);
        }
      }
    }
  }

  /** `add` and `del` exchanged. */
  function SwapEdits(f: seq<Node>): (r: seq<Node>)
    ensures |r| == |f|
    decreases f
  {
    if f == [] then []
    else
      (match f[0]
       case Text(_) => [f[0]]
       case Element(id, tag, attrs, cs) =>
         var t := if tag == "add" then "del" else if tag == "del" then "add" else tag;
         [Element(id, t, attrs, SwapEdits(cs))])
      + SwapEdits(f[1..])
  }

  /** No edit is instant. */
  predicate NoInstant(f: seq<Node>)
    decreases f
  {
    f == [] ||
    (NoInstant(f[1..]) &&
     match f[0]
     case Text(_) => true
     case Element(_, _, _, cs) => !(IsEdit(f[0]) && IsInstant(f[0])) && NoInstant(cs))
  }

  /** Without instant revisions, 1a is 1c with every insertion read as a
      deletion and every deletion as an insertion. */
  lemma {:induction false} RevertIsApplyOfSwapped(f: seq<Node>)
    requires NoInstant(f)
    ensures Resolved(Revert, f) == Resolved(Apply, SwapEdits(f))
    decreases f
  {
    if f != [] {
      RevertIsApplyOfSwapped(f[1..]);
      var sw := SwapEdits(f);
      assert sw[1..] == SwapEdits(f[1..]);
      if f[0].Element? {
        RevertIsApplyOfSwapped(f[0].children);
      }
    }
  }
}
