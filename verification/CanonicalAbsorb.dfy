/** The canonical absorb: a sparse staging tree applied to the canonical tree by a deletion and a copy pass. */
module CanonicalAbsorb {
  import opened Basics

  // A directory tree is a map from the path relative to the content root to the file's content. A skeleton file is
  // the list of the section files its markers name; every other file is a body. Both passes work file by file.

  datatype FileContent = Skeleton(sectionFiles: seq<string>) | Body(text: string)

  type Tree = map<string, FileContent>

  const SECTIONS_DIR_SUFFIX := ".sections"
  const TOMBSTONE_SUFFIX := ".tombstone"
  const DOCUMENT_SUFFIX := ".md"

  function Entries(content: FileContent): seq<string> {
    match content
    case Skeleton(files) => files
    case Body(_) => []
  }

  // ----- documents of a tree

  /** Some directory on the path is a sections directory. */
  predicate InsideSections(path: string) {
    exists i | 0 <= i < |path| :: path[i] == '/' && EndsWith(path[..i], SECTIONS_DIR_SUFFIX)
  }

  predicate IsTombstone(path: string) {
    EndsWith(path, TOMBSTONE_SUFFIX)
  }

  /** A staged file that stands for a whole document: its skeleton, or the marker that deletes it. */
  predicate IsDocumentEntry(path: string) {
    (EndsWith(path, DOCUMENT_SUFFIX) || IsTombstone(path)) && !InsideSections(path)
  }

  function DocumentOf(path: string): string {
    if IsTombstone(path) then path[..|path| - |TOMBSTONE_SUFFIX|] else path
  }

  predicate Under(doc: string, path: string) {
    StartsWith(path, doc + SECTIONS_DIR_SUFFIX + "/")
  }

  predicate Belongs(doc: string, path: string) {
    path == doc || Under(doc, path)
  }

  /** Every document entry names a lawful document, and none both rewrites and deletes one. */
  ghost predicate Coherent(staging: Tree) {
    && (forall e <- staging | IsDocumentEntry(e) :: EndsWith(DocumentOf(e), DOCUMENT_SUFFIX))
    && (forall e <- staging, t <- staging | IsDocumentEntry(e) && IsDocumentEntry(t) :: DocumentOf(e) == DocumentOf(t) ==> e == t)
  }

  // ----- the files a skeleton declares

  /** Overlay first, canonical as the fallback. */
  function Lookup(staging: Tree, canonical: Tree, path: string): Option<FileContent> {
    if path in staging then Some(staging[path])
    else if path in canonical then Some(canonical[path])
    else None
  }

  /** Bounds the descent into sub-skeletons: the files whose path is longer than the directory's. */
  ghost function Deeper(staging: Tree, canonical: Tree, dir: string): set<string> {
    set path | path in staging.Keys + canonical.Keys && |path| > |dir|
  }

  /** All files declared below `dir`, at any depth; `None` when a declared file is on neither side. */
  ghost function Declared(staging: Tree, canonical: Tree, entries: seq<string>, dir: string): Option<set<string>>
    decreases Deeper(staging, canonical, dir), |entries|
  {
    if entries == [] then Some({})
    else
      var file := dir + "/" + entries[0];
      match Lookup(staging, canonical, file)
      case None => None
      case Some(content) =>
        var childDir := file + SECTIONS_DIR_SUFFIX;
        assert file in Deeper(staging, canonical, dir) && file !in Deeper(staging, canonical, childDir);
        Join({file}, Join2(Declared(staging, canonical, Entries(content), childDir),
                           Declared(staging, canonical, entries[1..], dir)))
  }

  function Join(files: set<string>, more: Option<set<string>>): Option<set<string>> {
    if more.None? then None else Some(files + more.value)
  }

  function Join2(a: Option<set<string>>, b: Option<set<string>>): Option<set<string>> {
    if a.None? then None else Join(a.value, b)
  }

  lemma JoinLaws(found: set<string>, files: set<string>, more: Option<set<string>>)
    ensures Join({}, more) == more
    ensures Join(found, Join(files, more)) == Join(found + files, more)
  {
    if more.Some? {
      assert {} + more.value == more.value;
      assert found + (files + more.value) == found + files + more.value;
    }
  }

  /** Grows the declared set entry by entry and fails on the first declared file found on neither side. */
  method CollectSkeletonDeclaredFiles(staging: Tree, canonical: Tree, entries: seq<string>, dir: string)
    returns (declared: Option<set<string>>)
    ensures declared == Declared(staging, canonical, entries, dir)
    decreases Deeper(staging, canonical, dir)
  {
    var found: set<string> := {};
    var i := 0;
    assert entries[0..] == entries;
    JoinLaws({}, {}, Declared(staging, canonical, entries, dir));
    while i < |entries|
      invariant 0 <= i <= |entries|
      invariant Declared(staging, canonical, entries, dir) == Join(found, Declared(staging, canonical, entries[i..], dir))
    {
      NextDeclared(staging, canonical, entries, i, dir);
      var file := dir + "/" + entries[i];
      var content := Lookup(staging, canonical, file);
      if content.None? {
        return None;
      }
      var childDir := file + SECTIONS_DIR_SUFFIX;
      assert file in Deeper(staging, canonical, dir) && file !in Deeper(staging, canonical, childDir);
      var children := CollectSkeletonDeclaredFiles(staging, canonical, Entries(content.value), childDir);
      if children.None? {
        return None;
      }
      JoinLaws({file}, children.value, Declared(staging, canonical, entries[i + 1..], dir));
      JoinLaws(found, {file} + children.value, Declared(staging, canonical, entries[i + 1..], dir));
      found := found + ({file} + children.value);
      i := i + 1;
    }
    assert entries[i..] == [];
    return Some(found);
  }

  // What one listed entry adds to what the following ones declare.
  lemma NextDeclared(staging: Tree, canonical: Tree, entries: seq<string>, i: nat, dir: string)
    requires i < |entries|
    ensures var file := dir + "/" + entries[i];
      Declared(staging, canonical, entries[i..], dir) ==
        match Lookup(staging, canonical, file)
        case None => None
        case Some(content) =>
          Join({file}, Join2(Declared(staging, canonical, Entries(content), file + SECTIONS_DIR_SUFFIX),
                             Declared(staging, canonical, entries[i + 1..], dir)))
  {
    assert entries[i..][0] == entries[i] && entries[i..][1..] == entries[i + 1..];
  }

  // ----- declared means reachable through skeleton markers

  function PathOf(dir: string, chain: seq<string>): string
    requires chain != []
    decreases |chain|
  {
    var file := dir + "/" + chain[0];
    if |chain| == 1 then file else PathOf(file + SECTIONS_DIR_SUFFIX, chain[1..])
  }

  /** Following the names of `chain` from a skeleton's entries downwards, each is a marker of the one before. */
  ghost predicate Reaches(staging: Tree, canonical: Tree, entries: seq<string>, dir: string, chain: seq<string>)
    decreases |chain|
  {
    && chain != []
    && chain[0] in entries
    && (|chain| > 1 ==>
      var file := dir + "/" + chain[0];
      var content := Lookup(staging, canonical, file);
      content.Some? && Reaches(staging, canonical, Entries(content.value), file + SECTIONS_DIR_SUFFIX, chain[1..]))
  }

  lemma {:induction false} DeclaredCoversChain(staging: Tree, canonical: Tree, entries: seq<string>, dir: string, chain: seq<string>)
    requires Reaches(staging, canonical, entries, dir, chain)
    requires Declared(staging, canonical, entries, dir).Some?
    ensures PathOf(dir, chain) in Declared(staging, canonical, entries, dir).value
    decreases |chain|, |entries|
  {
    var file := dir + "/" + entries[0];
    var content := Lookup(staging, canonical, file);
    if chain[0] == entries[0] {
      if |chain| > 1 {
        DeclaredCoversChain(staging, canonical, Entries(content.value), file + SECTIONS_DIR_SUFFIX, chain[1..]);
      }
    } else {
      DeclaredCoversChain(staging, canonical, entries[1..], dir, chain);
    }
  }

  lemma {:induction false} DeclaredHasChain(staging: Tree, canonical: Tree, entries: seq<string>, dir: string, path: string)
    returns (chain: seq<string>)
    requires Declared(staging, canonical, entries, dir).Some?
    requires path in Declared(staging, canonical, entries, dir).value
    ensures Reaches(staging, canonical, entries, dir, chain) && PathOf(dir, chain) == path
    ensures Lookup(staging, canonical, path).Some?
    decreases Deeper(staging, canonical, dir), |entries|
  {
    var file := dir + "/" + entries[0];
    var content := Lookup(staging, canonical, file).value;
    var childDir := file + SECTIONS_DIR_SUFFIX;
    assert file in Deeper(staging, canonical, dir) && file !in Deeper(staging, canonical, childDir);
    if path == file {
      chain := [entries[0]];
    } else if path in Declared(staging, canonical, Entries(content), childDir).value {
      var rest := DeclaredHasChain(staging, canonical, Entries(content), childDir, path);
      chain := [entries[0]] + rest;
    } else {
      chain := DeclaredHasChain(staging, canonical, entries[1..], dir, path);
    }
  }

  lemma {:induction false} FailureHasChain(staging: Tree, canonical: Tree, entries: seq<string>, dir: string)
    returns (chain: seq<string>)
    requires Declared(staging, canonical, entries, dir).None?
    ensures Reaches(staging, canonical, entries, dir, chain) && Lookup(staging, canonical, PathOf(dir, chain)).None?
    decreases Deeper(staging, canonical, dir), |entries|
  {
    var file := dir + "/" + entries[0];
    var content := Lookup(staging, canonical, file);
    if content.None? {
      chain := [entries[0]];
    } else {
      var childDir := file + SECTIONS_DIR_SUFFIX;
      assert file in Deeper(staging, canonical, dir) && file !in Deeper(staging, canonical, childDir);
      if Declared(staging, canonical, Entries(content.value), childDir).None? {
        var rest := FailureHasChain(staging, canonical, Entries(content.value), childDir);
        chain := [entries[0]] + rest;
      } else {
        chain := FailureHasChain(staging, canonical, entries[1..], dir);
      }
    }
  }

  ghost predicate Reachable(staging: Tree, canonical: Tree, entries: seq<string>, dir: string, path: string) {
    exists chain :: Reaches(staging, canonical, entries, dir, chain) && PathOf(dir, chain) == path
  }

  /**
   * The collected set is exactly the files some chain of markers leads to, and collecting fails exactly when
   * a chain leads to a file on neither side.
   */
  lemma DeclaredIsReachable(staging: Tree, canonical: Tree, entries: seq<string>, dir: string)
    ensures var declared := Declared(staging, canonical, entries, dir);
      && (declared.Some? ==> forall path :: path in declared.value <==> Reachable(staging, canonical, entries, dir, path))
      && (declared.None? <==>
            exists path :: Reachable(staging, canonical, entries, dir, path) && Lookup(staging, canonical, path).None?)
  {
    var declared := Declared(staging, canonical, entries, dir);
    if declared.None? {
      var chain := FailureHasChain(staging, canonical, entries, dir);
      assert Reachable(staging, canonical, entries, dir, PathOf(dir, chain));
    } else {
      forall path | path in declared.value
        ensures Reachable(staging, canonical, entries, dir, path) && Lookup(staging, canonical, path).Some?
      {
        var _ := DeclaredHasChain(staging, canonical, entries, dir, path);
      }
      forall path | Reachable(staging, canonical, entries, dir, path)
        ensures path in declared.value
      {
        var chain :| Reaches(staging, canonical, entries, dir, chain) && PathOf(dir, chain) == path;
        DeclaredCoversChain(staging, canonical, entries, dir, chain);
      }
    }
  }

  lemma {:induction false} DeclaredUnder(staging: Tree, canonical: Tree, entries: seq<string>, dir: string, path: string)
    requires Declared(staging, canonical, entries, dir).Some?
    requires path in Declared(staging, canonical, entries, dir).value
    ensures StartsWith(path, dir)
    ensures |path| > |dir| && path[|dir|] == '/'
    decreases Deeper(staging, canonical, dir), |entries|
  {
    var file := dir + "/" + entries[0];
    var content := Lookup(staging, canonical, file).value;
    var childDir := file + SECTIONS_DIR_SUFFIX;
    assert file in Deeper(staging, canonical, dir) && file !in Deeper(staging, canonical, childDir);
    if path == file {
    } else if path in Declared(staging, canonical, Entries(content), childDir).value {
      DeclaredUnder(staging, canonical, Entries(content), childDir, path);
      assert path[..|dir|] == path[..|childDir|][..|dir|];
      assert path[|dir|] == path[..|childDir|][|dir|];
    } else {
      DeclaredUnder(staging, canonical, entries[1..], dir, path);
    }
  }

  /** Two canonical trees that show the same content at every declared file declare the same files. */
  lemma {:induction false} DeclaredAgrees(staging: Tree, before: Tree, after: Tree, entries: seq<string>, dir: string)
    requires Declared(staging, before, entries, dir).Some?
    requires forall path <- Declared(staging, before, entries, dir).value ::
               Lookup(staging, after, path) == Lookup(staging, before, path)
    ensures Declared(staging, after, entries, dir) == Declared(staging, before, entries, dir)
    decreases Deeper(staging, before, dir), |entries|
  {
    if entries != [] {
      var file := dir + "/" + entries[0];
      var content := Lookup(staging, before, file).value;
      var childDir := file + SECTIONS_DIR_SUFFIX;
      assert file in Deeper(staging, before, dir) && file !in Deeper(staging, before, childDir);
      DeclaredAgrees(staging, before, after, Entries(content), childDir);
      DeclaredAgrees(staging, before, after, entries[1..], dir);
    }
  }

  // ----- what an absorb does to a tree

  /** A document entry the absorb processes: its document is in the processed set. */
  ghost predicate Active(staging: Tree, docs: set<string>, entry: string) {
    entry in staging && IsDocumentEntry(entry) && DocumentOf(entry) in docs
  }

  ghost function DeclaredBy(staging: Tree, canonical: Tree, entry: string): Option<set<string>>
    requires entry in staging
  {
    Declared(staging, canonical, Entries(staging[entry]), entry + SECTIONS_DIR_SUFFIX)
  }

  /** The deletion pass removes `path` on account of `entry`. */
  ghost predicate DoomedBy(staging: Tree, canonical: Tree, entry: string, path: string)
    requires entry in staging
  {
    if IsTombstone(entry) then Belongs(DocumentOf(entry), path)
    else
      var declared := DeclaredBy(staging, canonical, entry);
      Under(entry, path) && declared.Some? && path !in declared.value
  }

  ghost predicate Doomed(staging: Tree, docs: set<string>, canonical: Tree, path: string) {
    exists entry :: Active(staging, docs, entry) && DoomedBy(staging, canonical, entry, path)
  }

  /** The copy pass overwrites `path`. */
  predicate Copied(staging: Tree, docs: set<string>, path: string) {
    path in staging && !IsTombstone(path) && exists doc <- docs :: Belongs(doc, path)
  }

  /** No processed skeleton declares a file that is missing on both sides. */
  ghost predicate Sound(staging: Tree, docs: set<string>, canonical: Tree) {
    forall entry | Active(staging, docs, entry) && !IsTombstone(entry) :: DeclaredBy(staging, canonical, entry).Some?
  }

  /** The tree after the deletion pass. */
  ghost function Swept(staging: Tree, docs: set<string>, canonical: Tree): Tree {
    map path | path in canonical && !Doomed(staging, docs, canonical, path) :: canonical[path]
  }

  /** The tree an uninterrupted absorb leaves behind. */
  ghost function Absorbed(staging: Tree, docs: set<string>, canonical: Tree): Tree {
    map path | path in staging.Keys + canonical.Keys
               && (Copied(staging, docs, path) || (path in canonical && !Doomed(staging, docs, canonical, path)))
      :: if Copied(staging, docs, path) then staging[path] else canonical[path]
  }

  /** `after` is `before` with some of the doomed files removed and some of the staged files copied. */
  ghost predicate Partial(staging: Tree, docs: set<string>, before: Tree, after: Tree) {
    && (forall path <- after :: || (path in before && after[path] == before[path])
                                || (Copied(staging, docs, path) && after[path] == staging[path]))
    && (forall path <- before | path !in after :: Doomed(staging, docs, before, path))
  }

  // ----- documents do not share files

  lemma InsideSectionsOfPrefix(path: string, n: nat)
    requires n <= |path| && InsideSections(path[..n])
    ensures InsideSections(path)
  {
    var i :| 0 <= i < n && path[..n][i] == '/' && EndsWith(path[..n][..i], SECTIONS_DIR_SUFFIX);
    assert path[..n][..i] == path[..i];
  }

  lemma UnderIsInside(doc: string, path: string)
    requires Under(doc, path)
    ensures InsideSections(path)
  {
    var i := |doc| + |SECTIONS_DIR_SUFFIX|;
    var prefix := doc + SECTIONS_DIR_SUFFIX + "/";
    assert path[i] == path[..|prefix|][i] == '/';
    assert path[..i] == path[..|prefix|][..i] == doc + SECTIONS_DIR_SUFFIX;
  }

  predicate IsDocument(doc: string) {
    EndsWith(doc, DOCUMENT_SUFFIX) && !InsideSections(doc)
  }

  lemma EndsInD(doc: string)
    requires EndsWith(doc, DOCUMENT_SUFFIX)
    ensures doc[|doc| - 1] == 'd'
  {
    assert doc[|doc| - 1] == doc[|doc| - 3..][2];
  }

  lemma DocumentIsNoTombstone(doc: string)
    requires EndsWith(doc, DOCUMENT_SUFFIX)
    ensures !IsTombstone(doc)
  {
    EndsInD(doc);
    if |doc| >= |TOMBSTONE_SUFFIX| {
      assert doc[|doc| - 1] == doc[|doc| - |TOMBSTONE_SUFFIX|..][|TOMBSTONE_SUFFIX| - 1];
    }
  }

  /** A file belongs to at most one document. */
  lemma OneOwner(d: string, e: string, path: string)
    requires IsDocument(d) && IsDocument(e)
    requires Belongs(d, path) && Belongs(e, path)
    ensures d == e
  {
    if path == d {
      if Under(e, d) { UnderIsInside(e, d); }
    } else if path == e {
      UnderIsInside(d, e);
    } else if |d| <= |e| {
      UnderBoth(d, e, path);
    } else {
      UnderBoth(e, d, path);
    }
  }

  lemma UnderBoth(d: string, e: string, path: string)
    requires IsDocument(d) && IsDocument(e) && |d| <= |e|
    requires Under(d, path) && Under(e, path)
    ensures d == e
  {
    var dir := d + SECTIONS_DIR_SUFFIX + "/";
    var dirE := e + SECTIONS_DIR_SUFFIX + "/";
    assert e == dirE[..|e|] == path[..|e|];
    assert d == dir[..|d|] == path[..|d|];
    if |d| < |e| {
      if |dir| <= |e| {
        assert e[..|dir|] == path[..|dir|];
        UnderIsInside(d, e);
      } else {
        assert e == dir[..|e|];
        EndsInD(e);
      }
    }
  }

  lemma EntryIsDocument(staging: Tree, entry: string)
    requires Coherent(staging) && entry in staging && IsDocumentEntry(entry)
    ensures IsDocument(DocumentOf(entry))
  {
    if IsTombstone(entry) && InsideSections(DocumentOf(entry)) {
      InsideSectionsOfPrefix(entry, |entry| - |TOMBSTONE_SUFFIX|);
    }
  }

  // ----- the declared set survives every intermediate state

  lemma DeclaredIsUnder(staging: Tree, canonical: Tree, entry: string, path: string)
    requires entry in staging && DeclaredBy(staging, canonical, entry).Some?
    requires path in DeclaredBy(staging, canonical, entry).value
    ensures Under(entry, path)
  {
    var dir := entry + SECTIONS_DIR_SUFFIX;
    DeclaredUnder(staging, canonical, Entries(staging[entry]), dir, path);
    assert path[..|dir| + 1] == path[..|dir|] + [path[|dir|]];
  }

  /**
   * The declared files of every processed skeleton are the same at every intermediate state, and so is the
   * verdict that a declared file is missing.
   */
  lemma DeclaredIsStable(staging: Tree, docs: set<string>, before: Tree, after: Tree, entry: string)
    requires Coherent(staging) && Partial(staging, docs, before, after)
    requires Active(staging, docs, entry) && !IsTombstone(entry)
    ensures DeclaredBy(staging, after, entry) == DeclaredBy(staging, before, entry)
  {
    var entries, dir := Entries(staging[entry]), entry + SECTIONS_DIR_SUFFIX;
    if DeclaredBy(staging, before, entry).Some? {
      forall path <- DeclaredBy(staging, before, entry).value
        ensures Lookup(staging, after, path) == Lookup(staging, before, path)
      {
        var _ := DeclaredHasChain(staging, before, entries, dir, path);
        DeclaredIsUnder(staging, before, entry, path);
        if path !in staging && path !in after {
          var e :| Active(staging, docs, e) && DoomedBy(staging, before, e, path);
          EntryIsDocument(staging, e);
          EntryIsDocument(staging, entry);
          OneOwner(DocumentOf(e), entry, path);
        }
      }
      DeclaredAgrees(staging, before, after, entries, dir);
    } else if DeclaredBy(staging, after, entry).Some? {
      forall path <- DeclaredBy(staging, after, entry).value
        ensures Lookup(staging, before, path) == Lookup(staging, after, path)
      {
        var _ := DeclaredHasChain(staging, after, entries, dir, path);
      }
      DeclaredAgrees(staging, after, before, entries, dir);
    }
  }

  lemma DoomedIsStable(staging: Tree, docs: set<string>, before: Tree, after: Tree)
    requires Coherent(staging) && Partial(staging, docs, before, after)
    ensures Sound(staging, docs, after) <==> Sound(staging, docs, before)
    ensures forall entry, path | Active(staging, docs, entry) ::
              DoomedBy(staging, after, entry, path) <==> DoomedBy(staging, before, entry, path)
    ensures forall path :: Doomed(staging, docs, after, path) <==> Doomed(staging, docs, before, path)
  {
    forall entry | Active(staging, docs, entry) && !IsTombstone(entry)
      ensures DeclaredBy(staging, after, entry) == DeclaredBy(staging, before, entry)
    {
      DeclaredIsStable(staging, docs, before, after, entry);
    }
  }

  lemma PartialComposes(staging: Tree, docs: set<string>, a: Tree, b: Tree, c: Tree)
    requires Coherent(staging) && Partial(staging, docs, a, b) && Partial(staging, docs, b, c)
    ensures Partial(staging, docs, a, c)
  {
    DoomedIsStable(staging, docs, a, b);
  }

  lemma AbsorbedIsPartial(staging: Tree, docs: set<string>, canonical: Tree)
    ensures Partial(staging, docs, canonical, Absorbed(staging, docs, canonical))
  {
  }

  /**
   * Crash safety: from every state in which an absorb can stop, running it again ends exactly where the
   * uninterrupted run would have ended, and succeeds exactly when that run would have.
   */
  lemma RerunFinishesForward(staging: Tree, docs: set<string>, canonical: Tree, stopped: Tree)
    requires Coherent(staging) && Partial(staging, docs, canonical, stopped)
    ensures Absorbed(staging, docs, stopped) == Absorbed(staging, docs, canonical)
    ensures Sound(staging, docs, stopped) <==> Sound(staging, docs, canonical)
  {
    DoomedIsStable(staging, docs, canonical, stopped);
    var again, once := Absorbed(staging, docs, stopped), Absorbed(staging, docs, canonical);
    forall path ensures (path in again <==> path in once) && (path in again ==> again[path] == once[path]) {
      RerunAt(staging, docs, canonical, stopped, path);
    }
    assert again.Keys == once.Keys;
  }

  // One file after the second run.
  lemma RerunAt(staging: Tree, docs: set<string>, canonical: Tree, stopped: Tree, path: string)
    requires Partial(staging, docs, canonical, stopped)
    requires Doomed(staging, docs, stopped, path) <==> Doomed(staging, docs, canonical, path)
    ensures var again, once := Absorbed(staging, docs, stopped), Absorbed(staging, docs, canonical);
      (path in again <==> path in once) && (path in again ==> again[path] == once[path])
  {
  }

  /** Landing the same staging tree a second time is an empty delta. */
  lemma LandingTwiceIsEmptyDelta(staging: Tree, docs: set<string>, canonical: Tree)
    requires Coherent(staging)
    ensures var landed := Absorbed(staging, docs, canonical); Absorbed(staging, docs, landed) == landed
  {
    AbsorbedIsPartial(staging, docs, canonical);
    RerunFinishesForward(staging, docs, canonical, Absorbed(staging, docs, canonical));
  }

  lemma MarkerOf(doc: string)
    requires IsDocument(doc)
    ensures var marker := doc + TOMBSTONE_SUFFIX;
      IsTombstone(marker) && DocumentOf(marker) == doc && IsDocumentEntry(marker)
  {
    var marker := doc + TOMBSTONE_SUFFIX;
    forall i | 0 <= i < |marker| && marker[i] == '/'
      ensures !EndsWith(marker[..i], SECTIONS_DIR_SUFFIX)
    {
      assert i < |doc|;
      assert marker[..i] == doc[..i];
    }
  }

  /** Only a document's own skeleton or marker can remove one of its files. */
  lemma OwnEntryDooms(staging: Tree, docs: set<string>, canonical: Tree, doc: string, path: string)
    requires Coherent(staging) && IsDocument(doc) && doc in docs && Belongs(doc, path)
    ensures var marker := doc + TOMBSTONE_SUFFIX;
      Doomed(staging, docs, canonical, path) <==>
        (doc in staging && DoomedBy(staging, canonical, doc, path)) || marker in staging
    ensures doc in staging && doc + TOMBSTONE_SUFFIX in staging ==> false
  {
    var marker := doc + TOMBSTONE_SUFFIX;
    MarkerOf(doc);
    DocumentIsNoTombstone(doc);
    forall entry | Active(staging, docs, entry) && DoomedBy(staging, canonical, entry, path)
      ensures entry == doc || entry == marker
    {
      EntryIsDocument(staging, entry);
      OneOwner(DocumentOf(entry), doc, path);
    }
    assert doc in staging ==> Active(staging, docs, doc);
    assert marker in staging ==> Active(staging, docs, marker) && DoomedBy(staging, canonical, marker, path);
  }

  /**
   * What the canonical tree holds after an absorb: a rewritten document is the staged files plus the prior
   * content of every file its new skeleton declares; of a deleted document only stray staged files remain;
   * a document processed without a staged skeleton is overlaid.
   */
  lemma AbsorbOutcome(staging: Tree, docs: set<string>, canonical: Tree, doc: string, path: string)
    requires Coherent(staging) && Sound(staging, docs, canonical) && IsDocument(doc) && doc in docs
    requires Belongs(doc, path) && !IsTombstone(path)
    ensures var landed := Absorbed(staging, docs, canonical);
      && (path in staging ==> path in landed && landed[path] == staging[path])
      && (path !in staging ==>
            && (path in landed ==> path in canonical && landed[path] == canonical[path])
            && (doc in staging ==>
                  (path in landed <==>
                    path in canonical && path in DeclaredBy(staging, canonical, doc).GetOr({})))
            && (doc + TOMBSTONE_SUFFIX in staging ==> path !in landed)
            && (doc !in staging && doc + TOMBSTONE_SUFFIX !in staging ==> (path in landed <==> path in canonical)))
  {
    OwnEntryDooms(staging, docs, canonical, doc, path);
    DocumentIsNoTombstone(doc);
    assert doc in staging ==> Active(staging, docs, doc);
    if doc in staging && path in DeclaredBy(staging, canonical, doc).value {
      DeclaredIsUnder(staging, canonical, doc, path);
    }
  }

  /** A deleted document is gone exactly when nothing but its marker was staged for it; strays under it land all the same. */
  lemma {:induction false} DeletedIsGoneIff(staging: Tree, docs: set<string>, canonical: Tree, doc: string)
    requires Coherent(staging) && Sound(staging, docs, canonical) && IsDocument(doc) && doc in docs
    requires doc + TOMBSTONE_SUFFIX in staging
    ensures (forall path <- Absorbed(staging, docs, canonical) :: IsTombstone(path) || !Belongs(doc, path))
       <==> (forall path <- staging :: IsTombstone(path) || !Belongs(doc, path))
  {
    var landed := Absorbed(staging, docs, canonical);
    forall path | Belongs(doc, path) && !IsTombstone(path) ensures path in landed <==> path in staging {
      AbsorbOutcome(staging, docs, canonical, doc, path);
    }
  }

  /** Files of documents outside the processed set are untouched. */
  lemma AbsorbFrame(staging: Tree, docs: set<string>, canonical: Tree, path: string)
    requires forall doc <- docs :: !Belongs(doc, path)
    ensures var landed := Absorbed(staging, docs, canonical);
      (path in landed <==> path in canonical) && (path in canonical ==> landed[path] == canonical[path])
  {
    if entry :| Active(staging, docs, entry) && DoomedBy(staging, canonical, entry, path) {
      assert Belongs(DocumentOf(entry), path);
    }
  }
}
