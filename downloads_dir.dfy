/**
 * The downloads directory as a set of file names, and the cleanup every
 * job runs when it ends, whether it succeeded or not: each name matching
 * the pattern `<identifier>*` is removed, and a removal that fails is
 * skipped.
 */
module DownloadsDir {
  import opened Strings
  import opened Filenames
  import opened GlobMatch
  import opened DownloadJob

  /** The names the cleanup pattern of a job with identifier `uid` matches. */
  function Junk(files: set<string>, uid: string): (junk: set<string>)
    ensures junk <= files
    ensures HasNoWildcard(uid) ==> forall f :: f in junk <==> f in files && StartsWith(f, uid)
  {
    if HasNoWildcard(uid) then
      PrefixPatternAll(uid);
      set f | f in files && GlobMatches(uid + "*", f)
    else set f | f in files && GlobMatches(uid + "*", f)
  }

  /** Identifiers hold no wildcard, so the cleanup pattern is a plain prefix test. */
  lemma JunkByPrefix(files: set<string>, user: nat, startMs: nat)
    ensures Junk(files, UniqueId(user, startMs)) == set f | f in files && StartsWith(f, UniqueId(user, startMs))
  {
    var uid := UniqueId(user, startMs);
    UniqueIdChars(user, startMs);
    assert HasNoWildcard(uid) by {
      assert forall k :: 0 <= k < |uid| ==> IsDigit(uid[k]) || uid[k] == '_';
    }
  }

  /** Every file named after the job (its video, its thumbnail) is cleaned up. */
  lemma JobFilesAreJunk(files: set<string>, user: nat, startMs: nat, title: string, name: string)
    requires name in files
    requires StartsWith(name, CleanTitle(UniqueId(user, startMs), title))
    ensures name in Junk(files, UniqueId(user, startMs))
  {
    JunkByPrefix(files, user, startMs);
    JobFilesStartWithId(UniqueId(user, startMs), title, name);
  }

  /** A job's cleanup leaves the files of another job alone, under equal digit counts. */
  lemma OtherJobsUntouched(files: set<string>, u1: nat, t1: nat, u2: nat, t2: nat, title: string, name: string)
    requires |NatToString(t1)| == |NatToString(t2)|
    requires u1 != u2 || t1 != t2
    requires StartsWith(name, CleanTitle(UniqueId(u2, t2), title))
    ensures name !in Junk(files, UniqueId(u1, t1))
  {
    JunkByPrefix(files, u1, t1);
    var uid2 := UniqueId(u2, t2);
    assert CleanTitle(uid2, title) == (uid2 + "_") + CleanFilename(title);
    StartsWithFront(name, uid2 + "_", CleanFilename(title));
    if StartsWith(name, UniqueId(u1, t1)) {
      JobsDoNotShareFiles(u1, t1, u2, t2, name);
    }
  }

  class Downloads {
    var files: set<string>

    constructor (initial: set<string>)
      ensures files == initial
    {
      files := initial;
    }

    /**
     * Removes, one by one, the names matching the job's pattern; a name in
     * `stuck` (a directory, a file the system refuses to delete) fails to
     * be removed and is skipped.
     */
    method Cleanup(uid: string, stuck: set<string>)
      modifies this
      ensures files == old(files) - (Junk(old(files), uid) - stuck)
    {
      var todo := Junk(files, uid);
      ghost var start := files;
      while todo != {}
        invariant todo <= Junk(start, uid)
        invariant files == start - ((Junk(start, uid) - todo) - stuck)
        decreases |todo|
      {
        var f :| f in todo;
        if f !in stuck {
          files := files - {f};
        }
        todo := todo - {f};
      }
    }
  }
}
