/**
 * The filesystem the image bookkeeping deletes from, and idempotent
 * deletion (`safeUnlink`).
 *
 * The filesystem is the set of paths of the files that exist, source and
 * destination trees alike.  Which paths an unlink fails on, and with which
 * error, is a property of the environment (permissions, busy files, a
 * read-only mount); it is fixed when the object is built.
 */
module Fs {
  import opened Paths

  /** The error codes an unlink can report. */
  datatype Errno = ENOENT | EACCES | EPERM | EBUSY | EISDIR | EROFS | EIO

  /** An error the environment injects; a missing file is not one of them,
      it follows from the file's absence. */
  type Fault = e: Errno | e != ENOENT witness EACCES

  /** How an awaited filesystem operation settles: resolved, or rejected with
      an error. */
  datatype Outcome = Pass | Fail(error: Errno)

  class FileSystem {
    var files: set<Path>
    const faults: map<Path, Fault>

    constructor (files0: set<Path>, faults0: map<Path, Fault>)
      ensures files == files0 && faults == faults0
    {
      files := files0;
      faults := faults0;
    }

    /** `fsp.unlink`: removes an existing file; a missing one is ENOENT. */
    method Unlink(p: Path) returns (res: Outcome)
      modifies this
      ensures p in faults ==> res == Fail(faults[p]) && files == old(files)
      ensures p !in faults && p in old(files) ==> res == Pass && files == old(files) - {p}
      ensures p !in faults && p !in old(files) ==> res == Fail(ENOENT) && files == old(files)
    {
      if p in faults {
        res := Fail(faults[p]);
      } else if p in files {
        files := files - {p};
        res := Pass;
      } else {
        res := Fail(ENOENT);
      }
    }

    /** `safeUnlink`: an unlink whose not-found error is success and that
        re-throws every other error. */
    method SafeUnlink(p: Path) returns (res: Outcome)
      modifies this
      ensures files == AfterUnlink(old(files), faults, p)
      ensures res == UnlinkOutcome(faults, p)
      ensures p !in faults ==> res == Pass && p !in files && files == old(files) - {p}
      ensures p !in faults && p !in old(files) ==> res == Pass && files == old(files)
      ensures p in faults ==> res == Fail(faults[p]) && files == old(files)
    {
      res := Unlink(p);
      if res == Fail(ENOENT) {
        res := Pass;
      }
    }

    /** `deleteAsync` with `force`: every given file is removed, a missing one
        is no error, and every unlink is issued whatever the others do.  The
        operation rejects with one of the errors raised, if any was. */
    method DeleteAll(targets: set<Path>) returns (res: Outcome)
      modifies this
      ensures files == old(files) - (targets - faults.Keys)
      ensures res == Pass <==> targets !! faults.Keys
      ensures res.Fail? ==> exists t :: t in targets && t in faults && res.error == faults[t]
    {
      var failed := targets * faults.Keys;
      files := files - (targets - faults.Keys);
      if failed == {} {
        forall t | t in targets ensures t !in faults.Keys {
          assert t !in failed;
        }
        res := Pass;
      } else {
        var t :| t in failed;
        assert t in targets && t in faults;
        res := Fail(faults[t]);
      }
    }
  }

  /** The files left after a `safeUnlink` of `p`. */
  function AfterUnlink(files: set<Path>, faults: map<Path, Fault>, p: Path): set<Path>
  {
    if p in faults then files else files - {p}
  }

  /** How a `safeUnlink` of `p` settles. */
  function UnlinkOutcome(faults: map<Path, Fault>, p: Path): Outcome
  {
    if p in faults then Fail(faults[p]) else Pass
  }

  /** A `safeUnlink` repeated changes nothing more and settles the same way. */
  lemma SafeUnlinkIdempotent(files: set<Path>, faults: map<Path, Fault>, p: Path)
    ensures AfterUnlink(AfterUnlink(files, faults, p), faults, p) == AfterUnlink(files, faults, p)
    ensures p !in AfterUnlink(files, faults, p) || p in faults
    ensures forall q :: q != p ==> (q in AfterUnlink(files, faults, p) <==> q in files)
    ensures UnlinkOutcome(faults, p).Fail? ==> UnlinkOutcome(faults, p).error != ENOENT
  {
  }

  /** Unlinking one more target of a batch whose non-faulting targets are
      already gone leaves the batch grown by that target done. */
  lemma UnlinkAccumulates(files0: set<Path>, faults: map<Path, Fault>, done: set<Path>, p: Path)
    ensures AfterUnlink(files0 - (done - faults.Keys), faults, p) == files0 - ((done + {p}) - faults.Keys)
  {
  }

  function Elements(ts: seq<Path>): set<Path>
  {
    set t | t in ts
  }

  lemma ElementsCons(ts: seq<Path>)
    requires ts != []
    ensures Elements(ts) == {ts[0]} + Elements(ts[1..])
    ensures forall t <- ts[1..] :: t in ts
  {
    assert ts == [ts[0]] + ts[1..];
  }

  /** A series of awaited `safeUnlink` calls inside one `try`: the first
      rejection skips the rest.  Gives the files left and how it settled. */
  function AfterUnlinkSeq(files: set<Path>, faults: map<Path, Fault>, ts: seq<Path>): (set<Path>, Outcome)
    decreases |ts|
  {
    if ts == [] then (files, Pass)
    else if ts[0] in faults then (files, Fail(faults[ts[0]]))
    else AfterUnlinkSeq(files - {ts[0]}, faults, ts[1..])
  }

  /** One awaited call of the series: a failing first target ends it,
      otherwise the rest follows on the files left. */
  lemma UnlinkSeqStep(files: set<Path>, faults: map<Path, Fault>, ts: seq<Path>)
    requires ts != []
    ensures ts[0] in faults ==> AfterUnlinkSeq(files, faults, ts) == (files, Fail(faults[ts[0]]))
    ensures ts[0] !in faults ==> AfterUnlinkSeq(files, faults, ts) == AfterUnlinkSeq(files - {ts[0]}, faults, ts[1..])
  {
  }

  /** With no target failing, the series removes exactly its targets. */
  lemma {:induction false} UnlinkSeqNoFault(files: set<Path>, faults: map<Path, Fault>, ts: seq<Path>)
    requires forall t <- ts :: t !in faults
    ensures AfterUnlinkSeq(files, faults, ts) == (files - Elements(ts), Pass)
    decreases |ts|
  {
    if ts == [] {
      assert Elements(ts) == {};
      assert files - Elements(ts) == files;
    } else {
      ElementsCons(ts);
      UnlinkSeqNoFault(files - {ts[0]}, faults, ts[1..]);
      assert files - {ts[0]} - Elements(ts[1..]) == files - Elements(ts);
    }
  }

  /** The first failing target decides: the targets before it are removed,
      nothing after it is attempted, and its error is reported. */
  lemma {:induction false} UnlinkSeqFirstFault(files: set<Path>, faults: map<Path, Fault>, pre: seq<Path>, t: Path, post: seq<Path>)
    requires forall u <- pre :: u !in faults
    requires t in faults
    ensures AfterUnlinkSeq(files, faults, pre + [t] + post) == (files - Elements(pre), Fail(faults[t]))
    decreases |pre|
  {
    if pre == [] {
      assert (pre + [t] + post)[0] == t;
      assert Elements(pre) == {};
      assert files - Elements(pre) == files;
    } else {
      ElementsCons(pre);
      UnlinkSeqFirstFault(files - {pre[0]}, faults, pre[1..], t, post);
      var ts := pre + [t] + post;
      assert ts[0] == pre[0] && ts[1..] == pre[1..] + [t] + post;
      assert files - {pre[0]} - Elements(pre[1..]) == files - Elements(pre);
    }
  }

  /** Whatever happens, the series only deletes, only its own targets, and
      never reports not-found. */
  lemma {:induction false} UnlinkSeqOnlyDeletes(files: set<Path>, faults: map<Path, Fault>, ts: seq<Path>)
    ensures AfterUnlinkSeq(files, faults, ts).0 <= files
    ensures files - AfterUnlinkSeq(files, faults, ts).0 <= Elements(ts)
    ensures AfterUnlinkSeq(files, faults, ts).1 != Fail(ENOENT)
    decreases |ts|
  {
    if ts != [] && ts[0] !in faults {
      ElementsCons(ts);
      UnlinkSeqOnlyDeletes(files - {ts[0]}, faults, ts[1..]);
    }
  }
}
