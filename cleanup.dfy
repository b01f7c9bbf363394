/** `cleanupOldPDFs`: the sweep of the local storage directory that unlinks
    every file older than 24 hours and counts what it removed. */
module Cleanup {
  import opened Wrappers
  import opened ApiTypes

  /** 24 hours in milliseconds. */
  const MaxFileAgeMs: int := 24 * 60 * 60 * 1000

  /** A file is due when its age is strictly greater than the limit. */
  predicate IsExpired(now: int, mtime: int) {
    now - mtime > MaxFileAgeMs
  }

  /** The files one sweep at instant `now` removes: the expired ones whose
      stat and unlink do not fail. */
  function Removable(mtimes: map<string, int>, now: int, failing: set<string>): (d: set<string>)
    ensures d <= mtimes.Keys
  {
    set n | n in mtimes && n !in failing && IsExpired(now, mtimes[n])
  }

  /** The storage directory: each stored file's modification time. */
  class StorageDirectory {
    var mtimes: map<string, int>

    constructor (mtimes: map<string, int>)
      ensures this.mtimes == mtimes
    {
      this.mtimes := mtimes;
    }

    /** One sweep. `now` is read once before the loop; `listOk` says whether
        the directory could be listed (otherwise the error propagates and
        nothing changes); `failing` holds the files whose stat or unlink
        fails, which are skipped without being counted. */
    method CleanupOldPdfs(now: int, listOk: bool, failing: set<string>) returns (r: Result<nat, Thrown>)
      modifies this
      ensures !listOk ==> r.Failure? && mtimes == old(mtimes)
      ensures listOk ==> (
        var removed := Removable(old(mtimes), now, failing);
        r == Success(|removed|) && mtimes == old(mtimes) - removed)
    {
      if !listOk {
        return Failure(Foreign("directory could not be listed"));
      }
      ghost var removed := Removable(mtimes, now, failing);
      var files := mtimes.Keys;
      var deletedCount := 0;
      ghost var done: set<string> := {};
      ghost var deleted: set<string> := {};
      while files != {}
        invariant files !! done && files + done == old(mtimes).Keys
        invariant deleted == done * removed
        invariant mtimes == old(mtimes) - deleted
        invariant deletedCount == |deleted|
        decreases files
      {
        var fileName :| fileName in files;
        assert fileName !in deleted;
        var stats := mtimes[fileName];
        assert stats == old(mtimes)[fileName];
        assert fileName in removed <==> IsExpired(now, stats) && fileName !in failing;
        if IsExpired(now, stats) && fileName !in failing {
          MinusOneMore(old(mtimes), deleted, fileName);
          mtimes := mtimes - {fileName};
          deletedCount := deletedCount + 1;
          deleted := deleted + {fileName};
        }
        files := files - {fileName};
        done := done + {fileName};
      }
      assert deleted == removed by {
        assert done == old(mtimes).Keys;
      }
      r := Success(deletedCount);
    }
  }

  /** Removing one more name from a map already stripped of `d`. */
  lemma MinusOneMore(o: map<string, int>, d: set<string>, f: string)
    ensures (o - d) - {f} == o - (d + {f})
  {
  }

  /** A file exactly 24 hours old is kept; one a millisecond older is due. */
  lemma BoundaryAge(now: int)
    ensures !IsExpired(now, now - MaxFileAgeMs)
    ensures IsExpired(now, now - MaxFileAgeMs - 1)
  {
  }

  /** Every file the sweep leaves is either young enough, or failed. */
  lemma {:induction false} SurvivorsAreYoungOrFailed(mtimes: map<string, int>, now: int, failing: set<string>, n: string)
    requires n in mtimes && n !in Removable(mtimes, now, failing)
    ensures !IsExpired(now, mtimes[n]) || n in failing
  {
  }
}
