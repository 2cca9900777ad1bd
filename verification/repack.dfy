/**
  The order in which `process_docx` writes the extracted files back into the
  new archive. The extraction directory is given as the sequence of tuples a
  top-down `os.walk` yields; each member is named by its path relative to that
  directory, kept as a list of segments (the ZIP entry name joins them with '/').
 */
module Repack {

  /** One tuple of `os.walk`: a folder, as segments relative to the extraction directory, and the files directly in it. */
  datatype WalkEntry = WalkEntry(folder: seq<string>, files: seq<string>)

  /** An archive member name, as path segments. */
  type ArchiveName = seq<string>

  const CONTENT_TYPES := "[Content_Types].xml"
  const RELS := "_rels"

  /** The folder is the top-level `_rels` folder or lies below it. */
  predicate InTopRels(folder: seq<string>)
  {
    |folder| > 0 && folder[0] == RELS
  }

  /** The folder's own name (`os.path.basename`) is `_rels`, at any depth. */
  predicate NamedRels(folder: seq<string>)
  {
    |folder| > 0 && folder[|folder| - 1] == RELS
  }

  /** `os.path.exists` of `[Content_Types].xml` directly in the extraction directory. */
  predicate HasTopContentTypes(walk: seq<WalkEntry>)
  {
    exists i | 0 <= i < |walk| :: walk[i].folder == [] && CONTENT_TYPES in walk[i].files
  }

  /** A walk as the file system yields it: no folder twice, no file name twice within a folder. */
  ghost predicate WellFormed(walk: seq<WalkEntry>)
  {
    && (forall i, i' | 0 <= i < i' < |walk| :: walk[i].folder != walk[i'].folder)
    && (forall i, j, j' | 0 <= i < |walk| && 0 <= j < j' < |walk[i].files| :: walk[i].files[j] != walk[i].files[j'])
  }

  ghost predicate Distinct(s: seq<ArchiveName>)
  {
    forall a, b | 0 <= a < b < |s| :: s[a] != s[b]
  }

  /** `p` names the `j`-th file of the `i`-th folder of the walk. */
  ghost predicate NamesFile(walk: seq<WalkEntry>, i: int, j: int, p: ArchiveName)
  {
    0 <= i < |walk| && 0 <= j < |walk[i].files| && p == walk[i].folder + [walk[i].files[j]]
  }

  /** `p` names some file of the walk that a pass keeping `keepFolder` folders and `keepFile` files selects. */
  ghost predicate Selected(walk: seq<WalkEntry>, keepFolder: seq<string> -> bool, keepFile: (seq<string>, string) -> bool, p: ArchiveName)
  {
    exists i, j :: NamesFile(walk, i, j, p) && keepFolder(walk[i].folder) && keepFile(walk[i].folder, walk[i].files[j])
  }

  // ---------------------------------------------------------------------------
  // One pass over the walk: `for foldername, _, filenames in os.walk(...)`

  /** The names of the files of one folder that `keepFile` lets through, in listing order. */
  function Emit(folder: seq<string>, files: seq<string>, keepFile: (seq<string>, string) -> bool): seq<ArchiveName>
  {
    if |files| == 0 then []
    else (if keepFile(folder, files[0]) then [folder + [files[0]]] else []) + Emit(folder, files[1..], keepFile)
  }

  /** The names a pass writes: every kept file of every kept folder, folder by folder in walk order. */
  function Pass(walk: seq<WalkEntry>, keepFolder: seq<string> -> bool, keepFile: (seq<string>, string) -> bool): seq<ArchiveName>
  {
    if |walk| == 0 then []
    else
      var first := if keepFolder(walk[0].folder) then Emit(walk[0].folder, walk[0].files, keepFile) else [];
      first + Pass(walk[1..], keepFolder, keepFile)
  }

  lemma {:induction false} EmitSpec(folder: seq<string>, files: seq<string>, keepFile: (seq<string>, string) -> bool)
    ensures forall p :: p in Emit(folder, files, keepFile) <==>
      exists j :: 0 <= j < |files| && keepFile(folder, files[j]) && p == folder + [files[j]]
    ensures (forall j, j' | 0 <= j < j' < |files| :: files[j] != files[j']) ==> Distinct(Emit(folder, files, keepFile))
  {
    if |files| > 0 {
      EmitSpec(folder, files[1..], keepFile);
      var head := if keepFile(folder, files[0]) then [folder + [files[0]]] else [];
      assert Emit(folder, files, keepFile) == head + Emit(folder, files[1..], keepFile);
      forall p ensures p in Emit(folder, files, keepFile) <==>
        exists j :: 0 <= j < |files| && keepFile(folder, files[j]) && p == folder + [files[j]]
      {
        if exists j :: 0 <= j < |files| && keepFile(folder, files[j]) && p == folder + [files[j]] {
          var j :| 0 <= j < |files| && keepFile(folder, files[j]) && p == folder + [files[j]];
          if j > 0 {
            assert files[1..][j - 1] == files[j];
          }
        }
        if p in Emit(folder, files[1..], keepFile) {
          var j :| 0 <= j < |files[1..]| && keepFile(folder, files[1..][j]) && p == folder + [files[1..][j]];
          assert files[j + 1] == files[1..][j];
        }
      }
      if forall j, j' | 0 <= j < j' < |files| :: files[j] != files[j'] {
        var s := Emit(folder, files, keepFile);
        var t := Emit(folder, files[1..], keepFile);
        forall j, j' | 0 <= j < j' < |files[1..]| ensures files[1..][j] != files[1..][j'] {
          assert files[1..][j] == files[j + 1] && files[1..][j'] == files[j' + 1];
        }
        forall p | p in t ensures p != folder + [files[0]] {
          var j :| 0 <= j < |files[1..]| && keepFile(folder, files[1..][j]) && p == folder + [files[1..][j]];
          assert p[|folder|] == files[j + 1];
        }
        DistinctConcat(head, t);
      }
    }
  }

  lemma DistinctConcat(s: seq<ArchiveName>, t: seq<ArchiveName>)
    requires Distinct(s) && Distinct(t)
    requires forall p | p in s :: p !in t
    ensures Distinct(s + t)
  {
    forall a, b | 0 <= a < b < |s + t| ensures (s + t)[a] != (s + t)[b] {
      if a < |s| && b >= |s| {
        assert (s + t)[a] in s && (s + t)[b] in t;
      }
    }
  }

  /** A pass writes exactly the selected files. */
  lemma {:induction false} PassMembers(walk: seq<WalkEntry>, keepFolder: seq<string> -> bool, keepFile: (seq<string>, string) -> bool)
    ensures forall p :: p in Pass(walk, keepFolder, keepFile) <==> Selected(walk, keepFolder, keepFile, p)
  {
    if |walk| > 0 {
      var e := walk[0];
      PassMembers(walk[1..], keepFolder, keepFile);
      EmitSpec(e.folder, e.files, keepFile);
      forall p ensures p in Pass(walk, keepFolder, keepFile) <==> Selected(walk, keepFolder, keepFile, p) {
        if Selected(walk, keepFolder, keepFile, p) {
          var i, j :| NamesFile(walk, i, j, p) && keepFolder(walk[i].folder) && keepFile(walk[i].folder, walk[i].files[j]);
          if i > 0 {
            assert NamesFile(walk[1..], i - 1, j, p);
          }
        }
        if Selected(walk[1..], keepFolder, keepFile, p) {
          var i, j :| NamesFile(walk[1..], i, j, p) && keepFolder(walk[1..][i].folder) && keepFile(walk[1..][i].folder, walk[1..][i].files[j]);
          assert NamesFile(walk, i + 1, j, p);
        }
        if keepFolder(e.folder) && p in Emit(e.folder, e.files, keepFile) {
          var j :| 0 <= j < |e.files| && keepFile(e.folder, e.files[j]) && p == e.folder + [e.files[j]];
          assert NamesFile(walk, 0, j, p);
        }
      }
    }
  }

  /** Walk order: a pass over two consecutive stretches of the walk writes the first stretch's files first. */
  lemma {:induction false} PassAppend(a: seq<WalkEntry>, b: seq<WalkEntry>, keepFolder: seq<string> -> bool, keepFile: (seq<string>, string) -> bool)
    ensures Pass(a + b, keepFolder, keepFile) == Pass(a, keepFolder, keepFile) + Pass(b, keepFolder, keepFile)
  {
    if |a| == 0 {
      assert a + b == b;
    } else {
      assert (a + b)[0] == a[0];
      assert (a + b)[1..] == a[1..] + b;
      PassAppend(a[1..], b, keepFolder, keepFile);
    }
  }

  /** On a well-formed walk no pass writes a name twice. */
  lemma {:induction false} PassDistinct(walk: seq<WalkEntry>, keepFolder: seq<string> -> bool, keepFile: (seq<string>, string) -> bool)
    requires WellFormed(walk)
    ensures Distinct(Pass(walk, keepFolder, keepFile))
  {
    if |walk| > 0 {
      var e := walk[0];
      var head := if keepFolder(e.folder) then Emit(e.folder, e.files, keepFile) else [];
      var tail := Pass(walk[1..], keepFolder, keepFile);
      EmitSpec(e.folder, e.files, keepFile);
      assert WellFormed(walk[1..]) by {
        forall i, i' | 0 <= i < i' < |walk[1..]| ensures walk[1..][i].folder != walk[1..][i'].folder {
          assert walk[1..][i] == walk[i + 1] && walk[1..][i'] == walk[i' + 1];
        }
      }
      PassDistinct(walk[1..], keepFolder, keepFile);
      PassMembers(walk[1..], keepFolder, keepFile);
      forall p | p in head ensures p !in tail {
        var j :| 0 <= j < |e.files| && keepFile(e.folder, e.files[j]) && p == e.folder + [e.files[j]];
        assert p[..|p| - 1] == e.folder;
      }
      DistinctConcat(head, tail);
    }
  }

  // ---------------------------------------------------------------------------
  // The three passes of `process_docx`, as written

  function KeepAll(folder: seq<string>, name: string): bool
  {
    true
  }

  function NotContentTypes(folder: seq<string>, name: string): bool
  {
    name != CONTENT_TYPES
  }

  function NotNamedRels(folder: seq<string>): bool
  {
    !NamedRels(folder)
  }

  /** Pass one: `[Content_Types].xml` from the top of the extraction directory, when it exists. */
  function ContentTypesPass(walk: seq<WalkEntry>): seq<ArchiveName>
  {
    if HasTopContentTypes(walk) then [[CONTENT_TYPES]] else []
  }

  /** Pass two: `os.walk(rels_dir)`, every file at any depth below the top-level `_rels`. */
  function RelsPass(walk: seq<WalkEntry>): seq<ArchiveName>
  {
    Pass(walk, InTopRels, KeepAll)
  }

  /** Pass three: every folder whose basename is not `_rels`, skipping files named `[Content_Types].xml`. */
  function RestPass(walk: seq<WalkEntry>): seq<ArchiveName>
  {
    Pass(walk, NotNamedRels, NotContentTypes)
  }

  /** The member names of the new archive, in the order they are written. */
  function ArchiveOrder(walk: seq<WalkEntry>): seq<ArchiveName>
  {
    ContentTypesPass(walk) + RelsPass(walk) + RestPass(walk)
  }

  /** Pass two writes exactly the files in and below the top-level `_rels`. */
  lemma RelsPassMembers(walk: seq<WalkEntry>)
    ensures forall p :: p in RelsPass(walk) <==> exists i, j :: NamesFile(walk, i, j, p) && InTopRels(walk[i].folder)
  {
    PassMembers(walk, InTopRels, KeepAll);
  }

  /** Every name pass two writes lies below the top-level `_rels`; on a well-formed walk none is written twice. */
  lemma RelsPassShape(walk: seq<WalkEntry>)
    ensures forall p | p in RelsPass(walk) :: |p| > 1 && p[0] == RELS
    ensures WellFormed(walk) ==> Distinct(RelsPass(walk))
  {
    RelsPassMembers(walk);
    if WellFormed(walk) {
      PassDistinct(walk, InTopRels, KeepAll);
    }
  }

  /** Pass three writes exactly the files of folders not named `_rels`, other than those named `[Content_Types].xml`. */
  lemma RestPassMembers(walk: seq<WalkEntry>)
    ensures forall p :: p in RestPass(walk) <==>
      exists i, j :: NamesFile(walk, i, j, p) && !NamedRels(walk[i].folder) && walk[i].files[j] != CONTENT_TYPES
  {
    PassMembers(walk, NotNamedRels, NotContentTypes);
  }

  /**
    No name pass three writes has `[Content_Types].xml` as its file name, and
    the folder that directly holds it is never named `_rels`, however deep that
    folder is; on a well-formed walk none is written twice.
   */
  lemma RestPassShape(walk: seq<WalkEntry>)
    ensures forall p | p in RestPass(walk) :: |p| > 0 && !NamedRels(p[..|p| - 1]) && p[|p| - 1] != CONTENT_TYPES
    ensures WellFormed(walk) ==> Distinct(RestPass(walk))
  {
    RestPassMembers(walk);
    forall p | p in RestPass(walk) ensures |p| > 0 && !NamedRels(p[..|p| - 1]) && p[|p| - 1] != CONTENT_TYPES {
      var i, j :| NamesFile(walk, i, j, p) && !NamedRels(walk[i].folder) && walk[i].files[j] != CONTENT_TYPES;
      assert p[..|p| - 1] == walk[i].folder;
    }
    if WellFormed(walk) {
      PassDistinct(walk, NotNamedRels, NotContentTypes);
    }
  }

  /** `[Content_Types].xml` is written exactly when it exists at the top, and then as the first member. */
  lemma ContentTypesFirst(walk: seq<WalkEntry>)
    ensures HasTopContentTypes(walk) <==> [CONTENT_TYPES] in ArchiveOrder(walk)
    ensures HasTopContentTypes(walk) ==> ArchiveOrder(walk)[0] == [CONTENT_TYPES]
  {
    RelsPassShape(walk);
    RestPassShape(walk);
    assert [CONTENT_TYPES][..0] == [];
  }

  /**
    The layout of the archive: after the optional `[Content_Types].xml` come
    the files of the top-level `_rels` tree, then the files of pass three.
   */
  lemma ArchiveOrderPhases(walk: seq<WalkEntry>)
    ensures var out := ArchiveOrder(walk);
      var c := if HasTopContentTypes(walk) then 1 else 0;
      var r := |RelsPass(walk)|;
      && c + r <= |out|
      && (forall k | c <= k < c + r :: |out[k]| > 1 && out[k][0] == RELS)
      && (forall k | c + r <= k < |out| :: |out[k]| > 0 && !NamedRels(out[k][..|out[k]| - 1]) && out[k][|out[k]| - 1] != CONTENT_TYPES)
  {
    var ct := ContentTypesPass(walk);
    var rels := RelsPass(walk);
    var rest := RestPass(walk);
    var out := ArchiveOrder(walk);
    RelsPassShape(walk);
    RestPassShape(walk);
    forall k | |ct| <= k < |ct| + |rels| ensures out[k] in rels {
      assert out[k] == rels[k - |ct|];
    }
    forall k | |ct| + |rels| <= k < |out| ensures out[k] in rest {
      assert out[k] == rest[k - |ct| - |rels|];
    }
  }

  /** Every file below a folder named `_rels` outside the top-level one never reaches the archive. */
  lemma NestedRelsDropped(walk: seq<WalkEntry>, i: int, j: int)
    requires 0 <= i < |walk| && 0 <= j < |walk[i].files|
    requires NamedRels(walk[i].folder) && !InTopRels(walk[i].folder)
    ensures walk[i].folder + [walk[i].files[j]] !in ArchiveOrder(walk)
  {
    var p := walk[i].folder + [walk[i].files[j]];
    RelsPassMembers(walk);
    RestPassMembers(walk);
    assert p[..|p| - 1] == walk[i].folder;
  }

  /** The standard layout of a word-processing package: `word/_rels/document.xml.rels` is left out of the new archive. */
  lemma DocumentRelsDropped()
    ensures var walk := [
        WalkEntry([], [CONTENT_TYPES]),
        WalkEntry([RELS], [".rels"]),
        WalkEntry(["word"], ["document.xml", "settings.xml"]),
        WalkEntry(["word", RELS], ["document.xml.rels"])
      ];
      && ["word", RELS, "document.xml.rels"] !in ArchiveOrder(walk)
      && ["word", RELS, "document.xml.rels"] in ArchiveOrderCorrected(walk)
  {
    var walk := [
      WalkEntry([], [CONTENT_TYPES]),
      WalkEntry([RELS], [".rels"]),
      WalkEntry(["word"], ["document.xml", "settings.xml"]),
      WalkEntry(["word", RELS], ["document.xml.rels"])
    ];
    NestedRelsDropped(walk, 3, 0);
    ArchiveOrderCorrectedMembers(walk);
    assert NamesFile(walk, 3, 0, ["word", RELS, "document.xml.rels"]);
  }

  /**
    A file in a sub-folder of the top-level `_rels` is written at least twice,
    once by pass two and once by pass three, unless its own folder is named
    `_rels` or the file is named `[Content_Types].xml`.
   */
  lemma RelsSubfolderTwice(walk: seq<WalkEntry>, i: int, j: int)
    requires 0 <= i < |walk| && 0 <= j < |walk[i].files|
    requires InTopRels(walk[i].folder) && !NamedRels(walk[i].folder) && walk[i].files[j] != CONTENT_TYPES
    ensures multiset(ArchiveOrder(walk))[walk[i].folder + [walk[i].files[j]]] >= 2
  {
    var p := walk[i].folder + [walk[i].files[j]];
    RelsPassMembers(walk);
    RestPassMembers(walk);
    assert NamesFile(walk, i, j, p);
    assert p in RelsPass(walk) && p in RestPass(walk);
    assert multiset(RelsPass(walk))[p] >= 1 && multiset(RestPass(walk))[p] >= 1;
  }

  // ---------------------------------------------------------------------------
  // Pass three as its comments intend: skip only what passes one and two wrote

  function NotInTopRels(folder: seq<string>): bool
  {
    !InTopRels(folder)
  }

  function NotTopContentTypes(folder: seq<string>, name: string): bool
  {
    !(folder == [] && name == CONTENT_TYPES)
  }

  function RestPassCorrected(walk: seq<WalkEntry>): seq<ArchiveName>
  {
    Pass(walk, NotInTopRels, NotTopContentTypes)
  }

  function ArchiveOrderCorrected(walk: seq<WalkEntry>): seq<ArchiveName>
  {
    ContentTypesPass(walk) + RelsPass(walk) + RestPassCorrected(walk)
  }

  /** With pass three corrected, every extracted file is written and nothing else is; `[Content_Types].xml` still comes first. */
  lemma ArchiveOrderCorrectedMembers(walk: seq<WalkEntry>)
    ensures forall p :: p in ArchiveOrderCorrected(walk) <==> exists i, j :: NamesFile(walk, i, j, p)
    ensures HasTopContentTypes(walk) ==> ArchiveOrderCorrected(walk)[0] == [CONTENT_TYPES]
  {
    var ct := ContentTypesPass(walk);
    var rels := RelsPass(walk);
    var rest := RestPassCorrected(walk);
    RelsPassMembers(walk);
    PassMembers(walk, NotInTopRels, NotTopContentTypes);
    forall p ensures p in ArchiveOrderCorrected(walk) <==> exists i, j :: NamesFile(walk, i, j, p) {
      if exists i, j :: NamesFile(walk, i, j, p) {
        var i, j :| NamesFile(walk, i, j, p);
        if walk[i].folder == [] && walk[i].files[j] == CONTENT_TYPES {
          assert p == [CONTENT_TYPES] && p in ct;
        } else if InTopRels(walk[i].folder) {
          assert p in rels;
        } else {
          assert p in rest;
        }
      }
      if p in ct {
        var i :| 0 <= i < |walk| && walk[i].folder == [] && CONTENT_TYPES in walk[i].files;
        var j :| 0 <= j < |walk[i].files| && walk[i].files[j] == CONTENT_TYPES;
        assert NamesFile(walk, i, j, p);
      }
    }
  }

  /** The corrected pass three writes nothing below the top-level `_rels` and not the top-level `[Content_Types].xml`. */
  lemma RestPassCorrectedShape(walk: seq<WalkEntry>)
    ensures forall p | p in RestPassCorrected(walk) :: |p| > 0 && !InTopRels(p[..|p| - 1]) && p != [CONTENT_TYPES]
  {
    PassMembers(walk, NotInTopRels, NotTopContentTypes);
    forall p | p in RestPassCorrected(walk) ensures |p| > 0 && !InTopRels(p[..|p| - 1]) && p != [CONTENT_TYPES] {
      var i, j :| NamesFile(walk, i, j, p) && NotInTopRels(walk[i].folder) && NotTopContentTypes(walk[i].folder, walk[i].files[j]);
      assert p[..|p| - 1] == walk[i].folder;
    }
  }

  /** With pass three corrected, a well-formed walk yields no name twice. */
  lemma ArchiveOrderCorrectedDistinct(walk: seq<WalkEntry>)
    requires WellFormed(walk)
    ensures Distinct(ArchiveOrderCorrected(walk))
  {
    var ct := ContentTypesPass(walk);
    var rels := RelsPass(walk);
    var rest := RestPassCorrected(walk);
    RelsPassShape(walk);
    RestPassCorrectedShape(walk);
    PassDistinct(walk, NotInTopRels, NotTopContentTypes);
    forall p | p in ct ensures p !in rels {
      assert |p| == 1;
    }
    forall p | p in ct + rels ensures p !in rest {
      if p in rels {
        assert p[..|p| - 1][0] == RELS;
      }
    }
    DistinctConcat(ct, rels);
    DistinctConcat(ct + rels, rest);
  }
}
