/**
  `modify_settings_xml`: switch off document protection and revision tracking
  in the element tree of `word/settings.xml`. Parsing and writing the file are
  outside the model: the operation starts and ends at the tree, and the two
  status lines it prints become a returned `Status`.
 */
module Settings {
  import opened Results
  import opened XmlTree

  /** The WordprocessingML main namespace, bound to the prefix `w`. */
  const W_NS := "http://schemas.openxmlformats.org/wordprocessingml/2006/main"

  function W(local: string): QName
  {
    QName(W_NS, local)
  }

  const DOCUMENT_PROTECTION := W("documentProtection")
  const TRACK_REVISIONS := W("trackRevisions")
  const EDIT := W("edit")
  const ENFORCEMENT := W("enforcement")

  /** What the two status lines report. */
  datatype Status = Status(protectionFound: bool, trackRemoved: bool)

  /** `ValueError` raised by `root.remove(track_revisions)` when the element found is not a child of the root. */
  datatype Error = NotAChildOfRoot(path: Path)

  /** The attributes after `set(w:edit, "edit")` and `set(w:enforcement, "0")`. */
  function Unprotected(attrs: map<QName, string>): (r: map<QName, string>)
    ensures EDIT in r && r[EDIT] == "edit"
    ensures ENFORCEMENT in r && r[ENFORCEMENT] == "0"
    ensures r.Keys == attrs.Keys + {EDIT, ENFORCEMENT}
    ensures forall k | k in attrs && k != EDIT && k != ENFORCEMENT :: r[k] == attrs[k]
  {
    attrs[EDIT := "edit"][ENFORCEMENT := "0"]
  }

  /** The tree with the attributes of the node at `p` replaced by `a`. */
  function SetAttrsAt(e: Element, p: Path, a: map<QName, string>): Element
    requires ValidPath(e, p)
  {
    ReplaceAt(e, p, At(e, p).(attrs := a))
  }

  /** `b` is `a` with the attributes at `p` replaced by `attrs`, and nothing else changed. */
  ghost predicate SameExceptAttrsAt(a: Element, b: Element, p: Path, attrs: map<QName, string>)
  {
    && (forall q :: ValidPath(a, q) <==> ValidPath(b, q))
    && (forall q | ValidPath(a, q) ::
          && At(b, q).name == At(a, q).name
          && At(b, q).attrs == (if q == p then attrs else At(a, q).attrs))
  }

  lemma SetAttrsAtSpec(e: Element, p: Path, a: map<QName, string>)
    requires ValidPath(e, p)
    ensures SameExceptAttrsAt(e, SetAttrsAt(e, p, a), p, a)
    ensures SameTags(e, SetAttrsAt(e, p, a))
  {
    var x := At(e, p).(attrs := a);
    var r := SetAttrsAt(e, p, a);
    forall q
      ensures ValidPath(e, q) <==> ValidPath(r, q)
      ensures ValidPath(e, q) ==> At(r, q).name == At(e, q).name
      ensures ValidPath(e, q) ==> At(r, q).attrs == (if q == p then a else At(e, q).attrs)
    {
      if q < p {
        ReplaceAtAncestor(e, p, x, q);
      } else if p <= q {
        var s := q[|p|..];
        assert q == p + s;
        ReplaceAtInside(e, p, x, s);
        AtConcat(e, p, s);
        if |s| > 0 {
          assert ValidPath(x, s) <==> ValidPath(At(e, p), s);
          if ValidPath(x, s) {
            assert At(x, s) == At(At(e, p), s);
          }
        } else {
          assert q == p;
        }
      } else {
        ReplaceAtOutside(e, p, x, q);
      }
    }
  }

  /**
    Step one, `root.find('.//w:documentProtection')` and the two `set` calls:
    the answer's second component says whether the element was found.
   */
  function DisableProtection(root: Element): (r: (Element, bool))
    ensures r.1 <==> HasDescendant(root, DOCUMENT_PROTECTION)
    ensures !r.1 ==> r.0 == root
  {
    FindFirstSpec(root, DOCUMENT_PROTECTION);
    match FindFirst(root, DOCUMENT_PROTECTION)
    case None => (root, false)
    case Some(p) => (SetAttrsAt(root, p, Unprotected(At(root, p).attrs)), true)
  }

  /** Step one changes the attributes of the first protection element and nothing else. */
  lemma DisableProtectionSpec(root: Element)
    ensures forall p | IsFirstMatch(root, DOCUMENT_PROTECTION, p) ::
      SameExceptAttrsAt(root, DisableProtection(root).0, p, Unprotected(At(root, p).attrs))
    ensures SameTags(root, DisableProtection(root).0)
  {
    FindFirstSpec(root, DOCUMENT_PROTECTION);
    match FindFirst(root, DOCUMENT_PROTECTION)
    case None =>
    case Some(p) =>
      SetAttrsAtSpec(root, p, Unprotected(At(root, p).attrs));
      forall p' | IsFirstMatch(root, DOCUMENT_PROTECTION, p') ensures p' == p {
        FirstMatchUnique(root, DOCUMENT_PROTECTION, p, p');
      }
  }

  /** Whatever values the first protection element had, it ends with editing allowed and enforcement off. */
  lemma DisableProtectionClears(root: Element, p: Path)
    requires IsFirstMatch(root, DOCUMENT_PROTECTION, p)
    ensures ValidPath(DisableProtection(root).0, p)
    ensures EDIT in At(DisableProtection(root).0, p).attrs && At(DisableProtection(root).0, p).attrs[EDIT] == "edit"
    ensures ENFORCEMENT in At(DisableProtection(root).0, p).attrs && At(DisableProtection(root).0, p).attrs[ENFORCEMENT] == "0"
  {
    DisableProtectionSpec(root);
  }

  /** Disabling protection a second time changes nothing. */
  lemma DisableProtectionIdempotent(root: Element)
    ensures DisableProtection(DisableProtection(root).0).0 == DisableProtection(root).0
  {
    var t1 := DisableProtection(root).0;
    DisableProtectionSpec(root);
    FindFirstSameTags(root, t1, DOCUMENT_PROTECTION);
    FindFirstSpec(root, DOCUMENT_PROTECTION);
    match FindFirst(root, DOCUMENT_PROTECTION)
    case None =>
    case Some(p) =>
      var a := Unprotected(At(root, p).attrs);
      var x := At(root, p).(attrs := a);
      ReplaceAtInside(root, p, x, []);
      assert p + [] == p;
      assert At(t1, p) == x;
      assert Unprotected(a) == a;
      ReplaceAtTwice(root, p, x, x);
  }

  /** The root with its `i`-th child taken out, as `list.remove` leaves it. */
  function WithoutChild(root: Element, i: nat): (r: Element)
    requires i < |root.children|
    ensures r.name == root.name && r.attrs == root.attrs
    ensures |r.children| == |root.children| - 1
    ensures forall j | 0 <= j < |r.children| :: r.children[j] == root.children[if j < i then j else j + 1]
  {
    root.(children := root.children[..i] + root.children[i + 1..])
  }

  /**
    Step two, `root.find('.//w:trackRevisions')` followed by `root.remove`:
    ElementTree elements have no `getparent`, so the element is always removed
    from the root, and removal fails when it is nested deeper.
   */
  function RemoveTrackRevisions(root: Element): (r: Result<(Element, bool), Error>)
    ensures !HasDescendant(root, TRACK_REVISIONS) ==> r == Success((root, false))
    ensures forall p | IsFirstMatch(root, TRACK_REVISIONS, p) ::
      if |p| == 1 then r == Success((WithoutChild(root, p[0]), true))
      else r == Failure(NotAChildOfRoot(p))
  {
    FindFirstSpec(root, TRACK_REVISIONS);
    match FindFirst(root, TRACK_REVISIONS)
    case None => Success((root, false))
    case Some(p) =>
      forall p' | IsFirstMatch(root, TRACK_REVISIONS, p') ensures p' == p {
        FirstMatchUnique(root, TRACK_REVISIONS, p, p');
      }
      if |p| == 1 then Success((WithoutChild(root, p[0]), true))
      else Failure(NotAChildOfRoot(p))
  }

  /** `modify_settings_xml` on the parsed tree: both steps in order, failing when the removal raises. */
  function ModifySettings(root: Element): (r: Result<(Element, Status), Error>)
    ensures r.Failure? <==> exists p :: IsFirstMatch(root, TRACK_REVISIONS, p) && |p| > 1
    ensures r.Success? ==> r.value.1 == Status(HasDescendant(root, DOCUMENT_PROTECTION), HasDescendant(root, TRACK_REVISIONS))
  {
    var (t1, found) := DisableProtection(root);
    DisableProtectionSpec(root);
    FindFirstSameTags(root, t1, TRACK_REVISIONS);
    FindFirstSpec(root, TRACK_REVISIONS);
    FindFirstSpec(t1, TRACK_REVISIONS);
    match RemoveTrackRevisions(t1)
    case Failure(e) => Failure(e)
    case Success((t2, removed)) => Success((t2, Status(found, removed)))
  }

  // ---------------------------------------------------------------------------
  // Removal from the element's true parent, as the `getparent` test intends

  /** `b` is `a` with the node at `p` taken out of its parent's children, and nothing else changed. */
  ghost predicate RemovedFromParent(a: Element, b: Element, p: Path)
  {
    && |p| > 0
    && var parent := p[..|p| - 1];
    && ValidPath(a, parent) && ValidPath(b, parent)
    && p[|p| - 1] < |At(a, parent).children|
    && At(b, parent) == WithoutChild(At(a, parent), p[|p| - 1])
    && (forall q | q < parent ::
          && ValidPath(a, q) && ValidPath(b, q)
          && At(b, q).name == At(a, q).name && At(b, q).attrs == At(a, q).attrs
          && |At(b, q).children| == |At(a, q).children|)
    && (forall q | ValidPath(a, q) && !(q <= parent) && !(parent <= q) :: ValidPath(b, q) && At(b, q) == At(a, q))
  }

  /** The tree with the node at `p` removed from the children of its parent. */
  function RemoveFromParent(root: Element, p: Path): Element
    requires |p| > 0 && ValidPath(root, p)
  {
    var parent := p[..|p| - 1];
    var i := p[|p| - 1];
    assert p == parent + [i];
    ValidPathPrefix(root, p, parent);
    AtConcat(root, parent, [i]);
    ReplaceAt(root, parent, WithoutChild(At(root, parent), i))
  }

  /** Removal from the parent takes exactly that node out of its parent's children and leaves everything else. */
  lemma RemoveFromParentSpec(root: Element, p: Path)
    requires |p| > 0 && ValidPath(root, p)
    ensures RemovedFromParent(root, RemoveFromParent(root, p), p)
  {
    var parent := p[..|p| - 1];
    var i := p[|p| - 1];
    assert p == parent + [i];
    ValidPathPrefix(root, p, parent);
    AtConcat(root, parent, [i]);
    var x := WithoutChild(At(root, parent), i);
    var r := ReplaceAt(root, parent, x);
    ReplaceAtInside(root, parent, x, []);
    assert parent + [] == parent;
    forall q | q < parent
      ensures ValidPath(root, q) && ValidPath(r, q)
      ensures At(r, q).name == At(root, q).name && At(r, q).attrs == At(root, q).attrs
      ensures |At(r, q).children| == |At(root, q).children|
    {
      ReplaceAtAncestor(root, parent, x, q);
    }
    forall q | ValidPath(root, q) && !(q <= parent) && !(parent <= q) ensures ValidPath(r, q) && At(r, q) == At(root, q) {
      ReplaceAtOutside(root, parent, x, q);
    }
  }

  /** Step two with the first `w:trackRevisions` removed from whichever element holds it; it never fails. */
  function RemoveTrackRevisionsFromParent(root: Element): (r: (Element, bool))
    ensures r.1 <==> HasDescendant(root, TRACK_REVISIONS)
    ensures !r.1 ==> r.0 == root
    ensures forall p | IsFirstMatch(root, TRACK_REVISIONS, p) :: RemovedFromParent(root, r.0, p)
  {
    FindFirstSpec(root, TRACK_REVISIONS);
    match FindFirst(root, TRACK_REVISIONS)
    case None => (root, false)
    case Some(p) =>
      forall p' | IsFirstMatch(root, TRACK_REVISIONS, p') ensures p' == p {
        FirstMatchUnique(root, TRACK_REVISIONS, p, p');
      }
      RemoveFromParentSpec(root, p);
      (RemoveFromParent(root, p), true)
  }

  /**
    `modify_settings_xml` with the removal taken from the true parent: the
    protection step, then the first `w:trackRevisions` of the input taken out
    of whichever element holds it.
   */
  function ModifySettingsFromParent(root: Element): (r: (Element, Status))
    ensures r.1 == Status(HasDescendant(root, DOCUMENT_PROTECTION), HasDescendant(root, TRACK_REVISIONS))
    ensures !HasDescendant(root, TRACK_REVISIONS) ==> r.0 == DisableProtection(root).0
    ensures forall p | IsFirstMatch(root, TRACK_REVISIONS, p) :: RemovedFromParent(DisableProtection(root).0, r.0, p)
  {
    var (t1, found) := DisableProtection(root);
    DisableProtectionSpec(root);
    FindFirstSameTags(root, t1, TRACK_REVISIONS);
    FindFirstSpec(root, TRACK_REVISIONS);
    FindFirstSpec(t1, TRACK_REVISIONS);
    forall p | IsFirstMatch(root, TRACK_REVISIONS, p) ensures IsFirstMatch(t1, TRACK_REVISIONS, p) {
      FindFirstIff(root, TRACK_REVISIONS, p);
      FindFirstIff(t1, TRACK_REVISIONS, p);
    }
    var (t2, removed) := RemoveTrackRevisionsFromParent(t1);
    (t2, Status(found, removed))
  }

  /** Wherever the code as written succeeds, it agrees with the true-parent removal. */
  lemma ModifySettingsAgreesWhenSucceeds(root: Element)
    requires ModifySettings(root).Success?
    ensures ModifySettings(root).value == ModifySettingsFromParent(root)
  {
  }

  /** A `w:trackRevisions` nested one level down: the code as written fails, the true-parent removal does not. */
  lemma NestedTrackRevisionsFails()
    ensures var root := Element(W("settings"), map[], [Element(W("compat"), map[], [Element(TRACK_REVISIONS, map[], [])])]);
      && ModifySettings(root) == Failure(NotAChildOfRoot([0, 0]))
      && ModifySettingsFromParent(root).1.trackRemoved
      && !HasDescendant(ModifySettingsFromParent(root).0, TRACK_REVISIONS)
  {
    var root := Element(W("settings"), map[], [Element(W("compat"), map[], [Element(TRACK_REVISIONS, map[], [])])]);
    var compat := root.children[0];
    var track := compat.children[0];
    var fixed := Element(W("settings"), map[], [Element(W("compat"), map[], [])]);
    assert FindFrom(compat, 0, TRACK_REVISIONS) == Some([0]);
    assert FindFrom(root, 0, TRACK_REVISIONS) == Some([0] + [0]);
    assert FindFrom(track, 0, DOCUMENT_PROTECTION) == None;
    assert FindFrom(compat, 1, DOCUMENT_PROTECTION) == None;
    assert FindFrom(compat, 0, DOCUMENT_PROTECTION) == None;
    assert FindFrom(root, 1, DOCUMENT_PROTECTION) == None;
    assert FindFirst(root, DOCUMENT_PROTECTION) == None;
    FindFirstSpec(root, DOCUMENT_PROTECTION);
    FindFirstIff(root, TRACK_REVISIONS, [0, 0]);
    assert ModifySettingsFromParent(root).0 == fixed;
    assert FindFrom(fixed.children[0], 0, TRACK_REVISIONS) == None;
    assert FindFrom(fixed, 1, TRACK_REVISIONS) == None;
    assert FindFirst(fixed, TRACK_REVISIONS) == None;
    FindFirstSpec(fixed, TRACK_REVISIONS);
  }
}
