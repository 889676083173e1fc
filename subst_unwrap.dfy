/** Unwrapping `subst` elements: the renderer replaces every `subst` by its
    children, one at a time, always taking the first one left in document
    order, until none is left. */
module SubstUnwrap {
  import opened Dom
  import opened EditMarkers

  /** The document with every `subst` replaced by its (unwrapped) content. */
  function Unwrapped(f: seq<Node>): seq<Node>
    decreases f
  {
    if f == [] then []
    else
      (match f[0]
       case Text(_) => [f[0]]
       case Element(id, tag, attrs, cs) =>
         if tag == "subst" then Unwrapped(cs) else [Element(id, tag, attrs, Unwrapped(cs))])
      + Unwrapped(f[1..])
  }

  /** One iteration: the first `subst` in document order gives way to its
      children. */
  function UnwrapFirst(f: seq<Node>): seq<Node>
    decreases f
  {
    if f == [] then []
    else match f[0]
      case Text(_) => [f[0]] + UnwrapFirst(f[1..])
      case Element(id, tag, attrs, cs) =>
        if tag == "subst" then cs + f[1..]
        else if CountTag(cs, "subst") > 0 then [Element(id, tag, attrs, UnwrapFirst(cs))] + f[1..]
        else [f[0]] + UnwrapFirst(f[1..])
  }

  lemma {:induction false} UnwrappedConcat(a: seq<Node>, b: seq<Node>)
    ensures Unwrapped(a + b) == Unwrapped(a) + Unwrapped(b)
    decreases a
  {
    if a == [] {
      assert a + b == b;
    } else {
      assert (a + b)[0] == a[0] && (a + b)[1..] == a[1..] + b;
      UnwrappedConcat(a[1..], b);
    }
  }

  /** Each iteration removes exactly one `subst` and does not change what the
      loop ends with. */
  lemma {:induction false} UnwrapFirstStep(f: seq<Node>)
    requires CountTag(f, "subst") > 0
    ensures CountTag(UnwrapFirst(f), "subst") == CountTag(f, "subst") - 1
    ensures Unwrapped(UnwrapFirst(f)) == Unwrapped(f)
    decreases f
  {
    match f[0]
    case Text(_) =>
      UnwrapFirstStep(f[1..]);
      CountTagConcat([f[0]], UnwrapFirst(f[1..]), "subst");
      UnwrappedConcat([f[0]], UnwrapFirst(f[1..]));
    case Element(id, tag, attrs, cs) =>
      if tag == "subst" {
        CountTagConcat(cs, f[1..], "subst");
        UnwrappedConcat(cs, f[1..]);
      } else if CountTag(cs, "subst") > 0 {
        UnwrapFirstStep(cs);
        var n := Element(id, tag, attrs, UnwrapFirst(cs));
        CountTagConcat([n], f[1..], "subst");
        UnwrappedConcat([n], f[1..]);
      } else {
        UnwrapFirstStep(f[1..]);
        CountTagConcat([f[0]], UnwrapFirst(f[1..]), "subst");
        UnwrappedConcat([f[0]], UnwrapFirst(f[1..]));
      }
  }

  /** Without `subst` there is nothing to unwrap. */
  lemma {:induction false} NoSubstFixed(f: seq<Node>)
    requires CountTag(f, "subst") == 0
    ensures Unwrapped(f) == f
    decreases f
  {
    if f != [] {
      NoSubstFixed(f[1..]);
      if f[0].Element? {
        NoSubstFixed(f[0].children);
      }
      assert f == [f[0]] + f[1..];
    }
  }

  /** `while (substElements.length > 0)`: unwrap the first `subst` left. */
  method UnwrapSubstitutions(doc: seq<Node>) returns (out: seq<Node>)
    ensures out == Unwrapped(doc)
  {
    out := doc;
    ElementsByTagLength(out, "subst");
    while |ElementsByTag(out, "subst")| > 0
      invariant Unwrapped(out) == Unwrapped(doc)
      decreases CountTag(out, "subst")
    {
      ElementsByTagLength(out, "subst");
      UnwrapFirstStep(out);
      out := UnwrapFirst(out);
    }
    ElementsByTagLength(out, "subst");
    NoSubstFixed(out);
  }

  /** No `subst` is left. */
  lemma {:induction false} UnwrappedHasNoSubst(f: seq<Node>)
    ensures CountTag(Unwrapped(f), "subst") == 0
    decreases f
  {
    if f != [] {
      UnwrappedHasNoSubst(f[1..]);
      match f[0]
      case Text(_) =>
        CountTagConcat([f[0]], Unwrapped(f[1..]), "subst");
      case Element(id, tag, attrs, cs) =>
        UnwrappedHasNoSubst(cs);
        var h := if tag == "subst" then Unwrapped(cs) else [Element(id, tag, attrs, Unwrapped(cs))];
        CountTagConcat(h, Unwrapped(f[1..]), "subst");
    }
  }

  /** Unwrapping twice is unwrapping once. */
  lemma UnwrappedIdempotent(f: seq<Node>)
    ensures Unwrapped(Unwrapped(f)) == Unwrapped(f)
  {
    UnwrappedHasNoSubst(f);
    NoSubstFixed(Unwrapped(f));
  }

  /** Unwrapping changes no text: the text content is the same. */
  lemma {:induction false} UnwrappedKeepsText(f: seq<Node>)
    ensures TextContent(Unwrapped(f)) == TextContent(f)
    decreases f
  {
    if f != [] {
      UnwrappedKeepsText(f[1..]);
      match f[0]
      case Text(_) =>
        TextContentConcat([f[0]], Unwrapped(f[1..]));
      case Element(id, tag, attrs, cs) =>
        UnwrappedKeepsText(cs);
        var h := if tag == "subst" then Unwrapped(cs) else [Element(id, tag, attrs, Unwrapped(cs))];
        TextContentConcat(h, Unwrapped(f[1..]));
    }
  }

  lemma {:induction false} TextContentConcat(a: seq<Node>, b: seq<Node>)
    ensures TextContent(a + b) == TextContent(a) + TextContent(b)
    decreases a
  {
    if a == [] {
      assert a + b == b;
    } else {
      assert (a + b)[0] == a[0] && (a + b)[1..] == a[1..] + b;
      TextContentConcat(a[1..], b);
    }
  }

  /** Unwrapping keeps every edit and which edits are top-level, and keeps
      identities distinct. */
  lemma UnwrappedKeepsEdits(f: seq<Node>)
    ensures EditIds(Unwrapped(f)) == EditIds(f)
    ensures TopEditIds(Unwrapped(f)) == TopEditIds(f)
    ensures IdSet(Unwrapped(f)) <= IdSet(f)
    ensures Unique(f) ==> Unique(Unwrapped(f))
  {
    UnwrappedEdits(f);
    UnwrappedIds(f);
  }

  lemma {:induction false} UnwrappedEdits(f: seq<Node>)
    ensures EditIds(Unwrapped(f)) == EditIds(f)
    ensures TopEditIds(Unwrapped(f)) == TopEditIds(f)
    decreases f
  {
    if f != [] {
      UnwrappedEdits(f[1..]);
      Single(f[0]);
      var rest := Unwrapped(f[1..]);
      match f[0]
      case Text(_) =>
        EditIdsConcat([f[0]], rest);
      case Element(id, tag, attrs, cs) =>
        UnwrappedEdits(cs);
        var n := Element(id, tag, attrs, Unwrapped(cs));
        Single(n);
        var h := if tag == "subst" then Unwrapped(cs) else [n];
        assert Unwrapped(f) == h + rest;
        EditIdsConcat(h, rest);
    }
  }

  lemma {:induction false} UnwrappedIds(f: seq<Node>)
    ensures IdSet(Unwrapped(f)) <= IdSet(f)
    ensures Unique(f) ==> Unique(Unwrapped(f))
    decreases f
  {
    if f != [] {
      UnwrappedIds(f[1..]);
      Single(f[0]);
      var rest := Unwrapped(f[1..]);
      match f[0]
      case Text(_) =>
        IdSetConcat([f[0]], rest);
        UniqueConcat([f[0]], rest);
      case Element(id, tag, attrs, cs) =>
        UnwrappedIds(cs);
        var n := Element(id, tag, attrs, Unwrapped(cs));
        Single(n);
        var h := if tag == "subst" then Unwrapped(cs) else [n];
        assert Unwrapped(f) == h + rest;
        IdSetConcat(h, rest);
        UniqueConcat(h, rest);
    }
  }
}
