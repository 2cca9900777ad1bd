/**
  An immutable model of an ElementTree document: every element has a qualified
  tag, a map of qualified attribute names to values, and an ordered list of
  child elements. A node is addressed by the path of child indices that leads
  to it from the root, and document order is the lexicographic order on those
  paths (a pre-order, depth-first walk).
 */
module XmlTree {
  import opened Results

  /** A namespace-qualified name, `{ns}local` in ElementTree's notation; `ns` is empty for an unqualified name. */
  datatype QName = QName(ns: string, local: string)

  datatype Element = Element(name: QName, attrs: map<QName, string>, children: seq<Element>)

  /** Child indices leading from an element to one of its descendants (the empty path is the element itself). */
  type Path = seq<nat>

  predicate ValidPath(e: Element, p: Path)
    decreases |p|
  {
    |p| == 0 || (p[0] < |e.children| && ValidPath(e.children[p[0]], p[1..]))
  }

  /** The node that `p` addresses. */
  function At(e: Element, p: Path): Element
    requires ValidPath(e, p)
    decreases |p|
  {
    if |p| == 0 then e else At(e.children[p[0]], p[1..])
  }

  /** Every prefix of a valid path is valid. */
  lemma {:induction false} ValidPathPrefix(e: Element, p: Path, q: Path)
    requires ValidPath(e, p) && q <= p
    ensures ValidPath(e, q)
    decreases |p|
  {
    if |q| > 0 {
      ValidPathPrefix(e.children[p[0]], p[1..], q[1..]);
    }
  }

  /** Walking `p` and then `s` is walking `p + s`. */
  lemma {:induction false} AtConcat(e: Element, p: Path, s: Path)
    requires ValidPath(e, p)
    ensures ValidPath(e, p + s) <==> ValidPath(At(e, p), s)
    ensures ValidPath(e, p + s) ==> At(e, p + s) == At(At(e, p), s)
    decreases |p|
  {
    if |p| > 0 {
      assert (p + s)[0] == p[0];
      assert (p + s)[1..] == p[1..] + s;
      AtConcat(e.children[p[0]], p[1..], s);
    } else {
      assert p + s == s;
    }
  }

  // ---------------------------------------------------------------------------
  // Document order

  /**
    `p` is visited before `q` in document order: `p` is a proper prefix of `q`
    (an ancestor comes before its descendants), or at the first index where they
    differ `p` takes the earlier sibling.
   */
  predicate Precedes(p: Path, q: Path)
    decreases |p|
  {
    |q| > 0 && (|p| == 0 || p[0] < q[0] || (p[0] == q[0] && Precedes(p[1..], q[1..])))
  }

  lemma {:induction false} PrecedesIrreflexive(p: Path)
    ensures !Precedes(p, p)
    decreases |p|
  {
    if |p| > 0 {
      PrecedesIrreflexive(p[1..]);
    }
  }

  /** Document order is total: two distinct nodes are always ordered one way or the other. */
  lemma {:induction false} PrecedesTotal(p: Path, q: Path)
    ensures p == q || Precedes(p, q) || Precedes(q, p)
    decreases |p|
  {
    if |p| > 0 && |q| > 0 && p[0] == q[0] {
      PrecedesTotal(p[1..], q[1..]);
      if p[1..] == q[1..] {
        assert p == [p[0]] + p[1..];
        assert q == [q[0]] + q[1..];
      }
    }
  }

  lemma {:induction false} PrecedesTransitive(p: Path, q: Path, r: Path)
    requires Precedes(p, q) && Precedes(q, r)
    ensures Precedes(p, r)
    decreases |p|
  {
    if |p| > 0 && p[0] == q[0] && q[0] == r[0] {
      PrecedesTransitive(p[1..], q[1..], r[1..]);
    }
  }

  /** `Precedes` is a strict total order on paths, as the visiting order of a walk must be. */
  lemma PrecedesStrictTotalOrder()
    ensures forall p :: !Precedes(p, p)
    ensures forall p, q, r | Precedes(p, q) && Precedes(q, r) :: Precedes(p, r)
    ensures forall p, q :: p == q || Precedes(p, q) || Precedes(q, p)
  {
    forall p ensures !Precedes(p, p) {
      PrecedesIrreflexive(p);
    }
    forall p, q, r | Precedes(p, q) && Precedes(q, r) ensures Precedes(p, r) {
      PrecedesTransitive(p, q, r);
    }
    forall p, q ensures p == q || Precedes(p, q) || Precedes(q, p) {
      PrecedesTotal(p, q);
    }
  }

  // ---------------------------------------------------------------------------
  // `find('.//tag')`: the first proper descendant with a given tag

  /** `q` addresses a proper descendant of `e` whose tag is `n` (what `.//n` selects; it never selects `e` itself). */
  ghost predicate IsDescendantMatch(e: Element, n: QName, q: Path)
  {
    |q| > 0 && ValidPath(e, q) && At(e, q).name == n
  }

  ghost predicate HasDescendant(e: Element, n: QName)
  {
    exists q :: IsDescendantMatch(e, n, q)
  }

  /** `p` addresses the first element, in document order, that `.//n` selects under `e`. */
  ghost predicate IsFirstMatch(e: Element, n: QName, p: Path)
  {
    IsDescendantMatch(e, n, p) && forall q :: IsDescendantMatch(e, n, q) ==> !Precedes(q, p)
  }

  /** Search `e`'s children from index `i` on, each child before its own descendants. */
  function FindFrom(e: Element, i: nat, n: QName): Option<Path>
    decreases e, |e.children| - i
  {
    if i >= |e.children| then None
    else if e.children[i].name == n then Some([i])
    else match FindFrom(e.children[i], 0, n)
      case Some(p) => Some([i] + p)
      case None => FindFrom(e, i + 1, n)
  }

  /** ElementTree's `e.find('.//n')`, answering with the path of the element found. */
  function FindFirst(e: Element, n: QName): Option<Path>
  {
    FindFrom(e, 0, n)
  }

  /** A match of `.//n` under `e` that lies under the `i`-th child or a later one. */
  ghost predicate MatchFrom(e: Element, i: nat, n: QName, q: Path)
  {
    IsDescendantMatch(e, n, q) && q[0] >= i
  }

  lemma ValidPathCons(e: Element, i: nat, p: Path)
    ensures ValidPath(e, [i] + p) <==> i < |e.children| && ValidPath(e.children[i], p)
    ensures ValidPath(e, [i] + p) ==> At(e, [i] + p) == At(e.children[i], p)
  {
  }

  lemma {:induction false} FindFromSpec(e: Element, i: nat, n: QName)
    ensures match FindFrom(e, i, n)
      case None => forall q :: !MatchFrom(e, i, n, q)
      case Some(p) => MatchFrom(e, i, n, p) && forall q :: MatchFrom(e, i, n, q) ==> !Precedes(q, p)
    decreases e, |e.children| - i
  {
    if i >= |e.children| {
      forall q | MatchFrom(e, i, n, q) ensures false {
      }
    } else if e.children[i].name == n {
      forall q | MatchFrom(e, i, n, q) && Precedes(q, [i]) ensures false {
        assert [i][0] == i && [i][1..] == [];
        assert !Precedes(q[1..], []);
      }
    } else {
      var c := e.children[i];
      FindFromSpec(c, 0, n);
      // Every match under the i-th child lies strictly below it.
      forall q | MatchFrom(e, i, n, q) && q[0] == i
        ensures |q| > 1 && MatchFrom(c, 0, n, q[1..])
      {
        assert q == [i] + q[1..];
        ValidPathCons(e, i, q[1..]);
        assert ValidPath(c, q[1..]) && At(e, q) == At(c, q[1..]);
      }
      match FindFrom(c, 0, n)
      case Some(p) =>
        ValidPathCons(e, i, p);
        assert FindFrom(e, i, n) == Some([i] + p);
        assert MatchFrom(e, i, n, [i] + p);
        forall q | MatchFrom(e, i, n, q) && Precedes(q, [i] + p) ensures false {
        }
      case None =>
        FindFromSpec(e, i + 1, n);
        assert FindFrom(e, i, n) == FindFrom(e, i + 1, n);
        forall q | MatchFrom(e, i, n, q) ensures MatchFrom(e, i + 1, n, q) {
        }
    }
  }

  /** `FindFirst` answers with the first match in document order, and with `None` exactly when there is none. */
  lemma FindFirstSpec(e: Element, n: QName)
    ensures FindFirst(e, n).None? <==> !HasDescendant(e, n)
    ensures FindFirst(e, n).Some? ==> IsFirstMatch(e, n, FindFirst(e, n).value)
  {
    FindFromSpec(e, 0, n);
    assert forall q :: IsDescendantMatch(e, n, q) <==> MatchFrom(e, 0, n, q);
  }

  /** There is only one first match. */
  lemma FirstMatchUnique(e: Element, n: QName, p: Path, p': Path)
    requires IsFirstMatch(e, n, p) && IsFirstMatch(e, n, p')
    ensures p == p'
  {
    PrecedesTotal(p, p');
  }

  /** `FindFirst(e, n) == Some(p)` holds exactly when `p` is the first match. */
  lemma FindFirstIff(e: Element, n: QName, p: Path)
    ensures FindFirst(e, n) == Some(p) <==> IsFirstMatch(e, n, p)
  {
    FindFirstSpec(e, n);
    if IsFirstMatch(e, n, p) {
      FirstMatchUnique(e, n, p, FindFirst(e, n).value);
    }
  }

  /** The tags of two trees agree node by node. */
  ghost predicate SameTags(a: Element, b: Element)
  {
    && (forall q :: ValidPath(a, q) <==> ValidPath(b, q))
    && (forall q | ValidPath(a, q) :: At(a, q).name == At(b, q).name)
  }

  /** What `find` answers depends on the tree's shape and tags only. */
  lemma FindFirstSameTags(a: Element, b: Element, n: QName)
    requires SameTags(a, b)
    ensures FindFirst(a, n) == FindFirst(b, n)
  {
    assert forall q :: IsDescendantMatch(a, n, q) <==> IsDescendantMatch(b, n, q);
    FindFirstSpec(a, n);
    FindFirstSpec(b, n);
    if FindFirst(a, n).Some? {
      FirstMatchUnique(a, n, FindFirst(a, n).value, FindFirst(b, n).value);
    }
  }

  // ---------------------------------------------------------------------------
  // Replacing one subtree

  /** The tree with the subtree at `p` replaced by `x`. */
  function ReplaceAt(e: Element, p: Path, x: Element): Element
    requires ValidPath(e, p)
    decreases |p|
  {
    if |p| == 0 then x
    else e.(children := e.children[p[0] := ReplaceAt(e.children[p[0]], p[1..], x)])
  }

  /** Inside the replaced position the tree is `x`. */
  lemma {:induction false} ReplaceAtInside(e: Element, p: Path, x: Element, s: Path)
    requires ValidPath(e, p)
    ensures ValidPath(ReplaceAt(e, p, x), p + s) <==> ValidPath(x, s)
    ensures ValidPath(x, s) ==> At(ReplaceAt(e, p, x), p + s) == At(x, s)
    decreases |p|
  {
    if |p| == 0 {
      assert p + s == s;
    } else {
      ReplaceAtInside(e.children[p[0]], p[1..], x, s);
      assert p + s == [p[0]] + (p[1..] + s);
      ValidPathCons(ReplaceAt(e, p, x), p[0], p[1..] + s);
    }
  }

  /** Every ancestor of the replaced position keeps its tag, attributes and number of children. */
  lemma {:induction false} ReplaceAtAncestor(e: Element, p: Path, x: Element, q: Path)
    requires ValidPath(e, p) && q < p
    ensures ValidPath(e, q) && ValidPath(ReplaceAt(e, p, x), q)
    ensures At(ReplaceAt(e, p, x), q).name == At(e, q).name
    ensures At(ReplaceAt(e, p, x), q).attrs == At(e, q).attrs
    ensures |At(ReplaceAt(e, p, x), q).children| == |At(e, q).children|
    decreases |p|
  {
    if |q| > 0 {
      assert q[0] == p[0] && q[1..] < p[1..];
      ReplaceAtAncestor(e.children[p[0]], p[1..], x, q[1..]);
    }
  }

  /** A node neither above nor below the replaced position is untouched. */
  lemma {:induction false} ReplaceAtOutside(e: Element, p: Path, x: Element, q: Path)
    requires ValidPath(e, p) && !(q <= p) && !(p <= q)
    ensures ValidPath(ReplaceAt(e, p, x), q) <==> ValidPath(e, q)
    ensures ValidPath(e, q) ==> At(ReplaceAt(e, p, x), q) == At(e, q)
    decreases |p|
  {
    if q[0] == p[0] {
      ReplaceAtOutside(e.children[p[0]], p[1..], x, q[1..]);
    }
  }

  /** Replacing twice at the same position keeps the second replacement only. */
  lemma {:induction false} ReplaceAtTwice(e: Element, p: Path, x: Element, y: Element)
    requires ValidPath(e, p)
    ensures ValidPath(ReplaceAt(e, p, x), p)
    ensures ReplaceAt(ReplaceAt(e, p, x), p, y) == ReplaceAt(e, p, y)
    decreases |p|
  {
    ReplaceAtInside(e, p, x, []);
    assert p + [] == p;
    if |p| > 0 {
      ReplaceAtTwice(e.children[p[0]], p[1..], x, y);
    }
  }
}
