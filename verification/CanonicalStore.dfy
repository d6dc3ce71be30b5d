/** The two passes of the canonical absorb as they run, and the absorb around them. */
module CanonicalPasses {
  import opened Basics
  import opened CanonicalAbsorb

  // Every removal and every copy is one step, a crash may strike between any two, and a failure rolls the working
  // tree back to git's HEAD.

  datatype PassResult = Done | Stopped | IntegrityError

  /** `landed` tells whether the git commit had been recorded when the absorb ended. */
  datatype AbsorbResult =
    | Committed
    | Refused                        // the pre-flight failed before anything was touched
    | RolledBack(landed: bool)       // thrown, and the rollback succeeded
    | RollbackFailed(landed: bool)   // thrown, and the rollback failed too
    | Crashed(landed: bool)

  /** Files have only been removed. */
  ghost predicate Kept(before: Tree, now: Tree) {
    forall path <- now :: path in before && now[path] == before[path]
  }

  /** The entry has been read and none of the files it dooms is left. */
  ghost predicate DealtWith(staging: Tree, before: Tree, now: Tree, entry: string)
    requires entry in staging
  {
    && (IsTombstone(entry) || DeclaredBy(staging, before, entry).Some?)
    && forall path <- now :: !DoomedBy(staging, before, entry, path)
  }

  lemma FewerFiles(staging: Tree, before: Tree, standing: Tree, now: Tree, entry: string)
    requires entry in staging && DealtWith(staging, before, standing, entry) && Kept(standing, now)
    ensures DealtWith(staging, before, now, entry)
  {
  }

  // Removing some of what one entry dooms is progress; removing all of it deals with the entry.
  lemma RemovalIsProgress(staging: Tree, docs: set<string>, before: Tree, standing: Tree, now: Tree, entry: string, doomed: set<string>)
    requires Active(staging, docs, entry) && Kept(before, standing) && Partial(staging, docs, before, standing)
    requires Kept(standing, now) && (forall path <- standing | path !in now :: path in doomed)
    requires IsTombstone(entry) || DeclaredBy(staging, before, entry).Some?
    requires forall path <- standing :: path in doomed <==> DoomedBy(staging, before, entry, path)
    ensures Kept(before, now) && Partial(staging, docs, before, now)
    ensures (forall path <- doomed :: path !in now) ==> DealtWith(staging, before, now, entry)
  {
    forall path <- before | path !in now ensures Doomed(staging, docs, before, path) {
      if path in standing { assert DoomedBy(staging, before, entry, path); }
    }
  }

  /** The staged files of the processed documents, markers aside, over what was there. */
  ghost function CopiedOver(staging: Tree, docs: set<string>, before: Tree): Tree {
    map path | path in before.Keys + staging.Keys && (path in before || Copied(staging, docs, path))
      :: if Copied(staging, docs, path) then staging[path] else before[path]
  }

  ghost predicate CopiedSoFar(staging: Tree, docs: set<string>, before: Tree, now: Tree, done: set<string>) {
    && before.Keys <= now.Keys
    && (forall path <- now :: || (path in before && now[path] == before[path])
                              || (Copied(staging, docs, path) && now[path] == staging[path]))
    && (forall path <- done | Copied(staging, docs, path) :: path in now && now[path] == staging[path])
  }

  lemma AllCopied(staging: Tree, docs: set<string>, before: Tree, now: Tree)
    requires CopiedSoFar(staging, docs, before, now, staging.Keys)
    ensures now == CopiedOver(staging, docs, before)
  {
    var all := CopiedOver(staging, docs, before);
    forall path ensures (path in now <==> path in all) && (path in now ==> now[path] == all[path]) {}
    assert now.Keys == all.Keys;
  }

  lemma SweptThenCopied(staging: Tree, docs: set<string>, before: Tree)
    ensures CopiedOver(staging, docs, Swept(staging, docs, before)) == Absorbed(staging, docs, before)
  {
    var a, b := CopiedOver(staging, docs, Swept(staging, docs, before)), Absorbed(staging, docs, before);
    forall path ensures (path in a <==> path in b) && (path in a ==> a[path] == b[path]) {}
    assert a.Keys == b.Keys;
  }

  lemma AllDealtWith(staging: Tree, docs: set<string>, before: Tree, now: Tree)
    requires Kept(before, now) && Partial(staging, docs, before, now)
    requires forall entry | Active(staging, docs, entry) :: DealtWith(staging, before, now, entry)
    ensures Sound(staging, docs, before) && now == Swept(staging, docs, before)
  {
    forall path <- now ensures !Doomed(staging, docs, before, path) {
      forall entry | Active(staging, docs, entry) ensures !DoomedBy(staging, before, entry, path) {
        assert DealtWith(staging, before, now, entry);
      }
    }
    forall entry | Active(staging, docs, entry) && !IsTombstone(entry) ensures DeclaredBy(staging, before, entry).Some? {
      assert DealtWith(staging, before, now, entry);
    }
  }

  class CanonicalStore {
    var files: Tree   // the working tree under the content root
    var head: Tree    // the same directory at git's HEAD

    constructor (initial: Tree)
      ensures files == head == initial
    {
      files, head := initial, initial;
    }

    /** Removes the given files one by one. */
    method RemoveFiles(doomed: set<string>, mayCrash: bool) returns (crashed: bool)
      modifies this`files
      ensures forall path <- files :: path in old(files) && files[path] == old(files)[path]
      ensures forall path <- old(files) | path !in files :: path in doomed
      ensures !crashed ==> forall path <- doomed :: path !in files
      ensures crashed ==> mayCrash
    {
      var todo := doomed;
      while todo != {}
        invariant todo <= doomed
        invariant forall path <- files :: path in old(files) && files[path] == old(files)[path]
        invariant forall path <- old(files) | path !in files :: path in doomed
        invariant forall path <- doomed - todo :: path !in files
        decreases |todo|
      {
        if mayCrash {
          if * { return true; }
        }
        var path :| path in todo;
        todo := todo - {path};
        files := files - {path};
      }
      return false;
    }

    /**
     * Walks the staged document entries in whatever order the directory listing gives them.  A marker removes
     * its document; a skeleton removes the section files it no longer declares.
     */
    method DeletionPass(staging: Tree, docs: set<string>, mayCrash: bool) returns (result: PassResult)
      requires Coherent(staging)
      modifies this`files
      ensures Partial(staging, docs, old(files), files)
      ensures result.Done? ==> Sound(staging, docs, old(files)) && files == Swept(staging, docs, old(files))
      ensures result.IntegrityError? ==> !Sound(staging, docs, old(files))
      ensures result.Stopped? ==> mayCrash
    {
      ghost var before := files;
      var todo := set entry | entry in staging && IsDocumentEntry(entry);
      while todo != {}
        invariant todo <= set entry | entry in staging && IsDocumentEntry(entry)
        invariant Kept(before, files) && Partial(staging, docs, before, files)
        invariant forall entry | Active(staging, docs, entry) && entry !in todo :: DealtWith(staging, before, files, entry)
        decreases |todo|
      {
        var entry :| entry in todo;
        todo := todo - {entry};
        if DocumentOf(entry) !in docs { continue; }
        var doomed := DoomedFiles(staging, docs, entry, before);
        if doomed.None? { return IntegrityError; }
        ghost var standing := files;
        var crashed := RemoveFiles(doomed.value, mayCrash);
        RemovalIsProgress(staging, docs, before, standing, files, entry, doomed.value);
        if crashed { return Stopped; }
        forall other | Active(staging, docs, other) && other !in todo ensures DealtWith(staging, before, files, other) {
          if other != entry { FewerFiles(staging, before, standing, files, other); }
        }
      }
      AllDealtWith(staging, docs, before, files);
      return Done;
    }

    /** The files one staged entry removes, or the error of a skeleton that declares a file nobody has. */
    method DoomedFiles(staging: Tree, docs: set<string>, entry: string, ghost before: Tree) returns (doomed: Option<set<string>>)
      requires Coherent(staging) && Active(staging, docs, entry)
      requires Kept(before, files) && Partial(staging, docs, before, files)
      ensures doomed.None? ==> !Sound(staging, docs, before)
      ensures doomed.Some? ==> IsTombstone(entry) || DeclaredBy(staging, before, entry).Some?
      ensures doomed.Some? ==> forall path <- files :: path in doomed.value <==> DoomedBy(staging, before, entry, path)
      ensures doomed.Some? ==> doomed.value <= files.Keys
    {
      var doc := DocumentOf(entry);
      if IsTombstone(entry) {
        return Some(set path | path in files && Belongs(doc, path));
      }
      DeclaredIsStable(staging, docs, before, files, entry);
      var declared := CollectSkeletonDeclaredFiles(staging, files, Entries(staging[entry]), doc + SECTIONS_DIR_SUFFIX);
      if declared.None? { return None; }
      return Some(set path | path in files && Under(doc, path) && path !in declared.value);
    }

    /** Copies every staged file of a processed document, markers excepted. */
    method CopyPass(staging: Tree, docs: set<string>, mayCrash: bool) returns (crashed: bool)
      modifies this`files
      ensures forall path <- files :: || (path in old(files) && files[path] == old(files)[path])
                                      || (Copied(staging, docs, path) && files[path] == staging[path])
      ensures old(files).Keys <= files.Keys
      ensures !crashed ==> files == CopiedOver(staging, docs, old(files))
      ensures crashed ==> mayCrash
    {
      var todo := staging.Keys;
      ghost var before := files;
      while todo != {}
        invariant todo <= staging.Keys
        invariant CopiedSoFar(staging, docs, before, files, staging.Keys - todo)
        decreases |todo|
      {
        if mayCrash {
          if * { return true; }
        }
        var path :| path in todo;
        todo := todo - {path};
        if IsTombstone(path) { continue; }
        if exists doc <- docs :: Belongs(doc, path) {
          files := files[path := staging[path]];
        }
      }
      AllCopied(staging, docs, before, files);
      return false;
    }

    /** Both passes in order: the working tree ends as the absorbed tree, or stops part of the way. */
    method ApplyStaging(staging: Tree, docs: set<string>, mayCrash: bool) returns (result: PassResult)
      requires Coherent(staging)
      modifies this`files
      ensures Partial(staging, docs, old(files), files)
      ensures result.Done? ==> Sound(staging, docs, old(files)) && files == Absorbed(staging, docs, old(files))
      ensures result.IntegrityError? ==> !Sound(staging, docs, old(files))
      ensures result.Stopped? ==> mayCrash
    {
      result := DeletionPass(staging, docs, mayCrash);
      if !result.Done? { return; }
      SweptThenCopied(staging, docs, old(files));
      var crashed := CopyPass(staging, docs, mayCrash);
      if crashed { result := Stopped; }
    }

    /**
     * One absorb.  A failure before the commit leaves HEAD as it was; a failure after it rolls back to the
     * NEW head, so the change has landed although the absorb throws.
     */
    method Absorb(staging: Tree, docs: set<string>, emptyRefused: bool, mayCrash: bool) returns (result: AbsorbResult)
      requires Coherent(staging)
      modifies this
      ensures result.Committed? ==> Sound(staging, docs, old(files)) && head == files == Absorbed(staging, docs, old(files))
      ensures result.Refused? ==> files == old(files) && head == old(head)
      ensures result.RolledBack? ==> files == head
      ensures result.RolledBack? || result.RollbackFailed? || result.Crashed? ==>
                head == if result.landed then Absorbed(staging, docs, old(files)) else old(head)
      ensures result.Crashed? ==> Partial(staging, docs, old(files), files)
      ensures !Sound(staging, docs, old(files)) || emptyRefused ==>
                !result.Committed? && (result.RolledBack? || result.RollbackFailed? || result.Crashed? ==> !result.landed)
      ensures result.Crashed? ==> mayCrash
    {
      if * { return Refused; }
      var landed := false;
      if !emptyRefused {
        var applied := ApplyStaging(staging, docs, mayCrash);
        if applied.Stopped? { return Crashed(false); }
        if applied.Done? {
          if * {
            // git add and git commit succeed
            head, landed := files, true;
            if mayCrash {
              if * { return Crashed(true); }
            }
            // the landed check and the second snapshot both pass
            if * { return Committed; }
          }
        }
      }
      // the catch block: reset, checkout and clean
      if * {
        files := *;
        return RollbackFailed(landed);
      }
      files := head;
      return RolledBack(landed);
    }

    /**
     * Restarting a crashed absorb any number of times, each time at an arbitrary point: an attempt that
     * completes leaves exactly the tree of an absorb that was never interrupted.
     */
    method AbsorbThroughCrashes(staging: Tree, docs: set<string>, attempts: nat) returns (result: AbsorbResult)
      requires Coherent(staging)
      modifies this
      ensures result.Committed? ==> Sound(staging, docs, old(files)) && head == files == Absorbed(staging, docs, old(files))
      ensures head == old(head) || head == Absorbed(staging, docs, old(files))
      ensures result.Crashed? ==> Partial(staging, docs, old(files), files)
    {
      ghost var before := files;
      for attempt := 0 to attempts
        invariant Partial(staging, docs, before, files)
        invariant head == old(head) || head == Absorbed(staging, docs, before)
      {
        ghost var resumed := files;
        RerunFinishesForward(staging, docs, before, resumed);
        result := Absorb(staging, docs, false, true);
        if !result.Crashed? { return; }
        PartialComposes(staging, docs, before, resumed, files);
      }
      RerunFinishesForward(staging, docs, before, files);
      ghost var resumed := files;
      result := Absorb(staging, docs, false, true);
      if result.Crashed? {
        PartialComposes(staging, docs, before, resumed, files);
      }
    }
  }
}
