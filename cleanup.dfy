/**
  The cleanup endpoint: list the `images` bucket, select the files created
  more than 24 hours before now, and remove them one by one. A removal that
  fails is skipped; the reported count is the number of files selected. A
  listing failure is answered with 500 before anything is removed.

  The storage service becomes a `Bucket` object whose listing failure and
  per-name removal failures are fixed when it is built; the clock is the
  parameter `now`, in milliseconds, and each `created_at` is taken as
  already parsed into milliseconds (or as an invalid date).
 */
module Cleanup {

  /** How long a file is kept: 24 h in milliseconds. */
  const RetentionMs: int := 24 * 60 * 60 * 1000

  /** `new Date(created_at)`: a time in milliseconds, or an invalid date (NaN). */
  datatype Timestamp = Millis(ms: int) | InvalidDate

  /** One entry of the bucket listing. */
  datatype StoredFile = StoredFile(name: string, createdAt: Timestamp)

  /** The JSON answer: the number of files deleted, or a server error. */
  datatype Response = Completed(deleted: nat) | ServerError

  /** The HTTP status of the answer: 200 after a run, 500 after an error. */
  function Status(r: Response): (status: int)
    ensures status == 200 <==> r.Completed?
    ensures status == 500 <==> r.ServerError?
  {
    if r.Completed? then 200 else 500
  }

  /** `oneDayAgo`: the cutoff before which a file is old. */
  function Cutoff(now: int): (cutoff: int)
    ensures now - cutoff == 86_400_000
  {
    now - RetentionMs
  }

  /**
    `new Date(file.created_at) < oneDayAgo`: strictly earlier than the cutoff.
    An invalid date compares false with everything.
   */
  predicate IsOld(f: StoredFile, cutoff: int) {
    f.createdAt.Millis? && f.createdAt.ms < cutoff
  }

  /** `files.filter(...)`: the old files, in listing order. */
  function Select(files: seq<StoredFile>, cutoff: int): (selected: seq<StoredFile>)
    ensures |selected| <= |files|
    ensures forall f :: f in selected <==> f in files && IsOld(f, cutoff)
  {
    if files == [] then []
    else if IsOld(files[0], cutoff) then [files[0]] + Select(files[1..], cutoff)
    else Select(files[1..], cutoff)
  }

  /** The names of `files`, in order: the arguments of the successive `remove` calls. */
  function Names(files: seq<StoredFile>): (names: seq<string>)
    ensures |names| == |files|
    ensures forall i :: 0 <= i < |files| ==> names[i] == files[i].name
  {
    if files == [] then [] else [files[0].name] + Names(files[1..])
  }

  function NameSet(files: seq<StoredFile>): set<string> {
    set i | 0 <= i < |files| :: files[i].name
  }

  /** The files whose names are not in `gone`, in their original order. */
  function Keep(files: seq<StoredFile>, gone: set<string>): (kept: seq<StoredFile>)
    ensures |kept| <= |files|
    ensures forall f :: f in kept <==> f in files && f.name !in gone
  {
    if files == [] then []
    else if files[0].name in gone then Keep(files[1..], gone)
    else [files[0]] + Keep(files[1..], gone)
  }

  /** The storage bucket the endpoint cleans. */
  class Bucket {
    /** The bucket's contents, in the order the listing returns them. */
    var files: seq<StoredFile>
    /** Every name passed to `remove`, in call order. */
    var removals: seq<string>
    /** Whether `list()` answers with an error. */
    const listFails: bool
    /** The names whose `remove` answers with an error. */
    const rejects: set<string>

    constructor (files: seq<StoredFile>, listFails: bool, rejects: set<string>)
      ensures this.files == files && removals == []
      ensures this.listFails == listFails && this.rejects == rejects
    {
      this.files := files;
      this.removals := [];
      this.listFails := listFails;
      this.rejects := rejects;
    }

    /** `list()`: the contents, or an error. */
    method List() returns (listing: seq<StoredFile>, failed: bool)
      ensures failed == listFails
      ensures !failed ==> listing == files
    {
      failed := listFails;
      listing := if failed then [] else files;
    }

    /** `remove([name])`: deletes every file of that name unless the bucket rejects it. */
    method Remove(name: string) returns (ok: bool)
      modifies this`files, this`removals
      ensures ok == (name !in rejects)
      ensures removals == old(removals) + [name]
      ensures files == if ok then Keep(old(files), {name}) else old(files)
    {
      removals := removals + [name];
      ok := name !in rejects;
      if ok {
        files := Keep(files, {name});
      }
    }
  }

  /** `handler`: one cleanup run at time `now`. */
  method Handler(bucket: Bucket, now: int) returns (response: Response)
    modifies bucket`files, bucket`removals
    ensures Status(response) == if bucket.listFails then 500 else 200
    ensures bucket.listFails ==>
      response == ServerError && bucket.files == old(bucket.files) && bucket.removals == old(bucket.removals)
    ensures !bucket.listFails ==>
      var selected := Select(old(bucket.files), Cutoff(now));
      && response == Completed(|selected|)
      && bucket.removals == old(bucket.removals) + Names(selected)
      && bucket.files == Keep(old(bucket.files), NameSet(selected) - bucket.rejects)
  {
    var cutoff := Cutoff(now);
    var files, failed := bucket.List();
    if failed {
      return ServerError;
    }
    var oldFiles := Select(files, cutoff);
    RemoveEach(bucket, oldFiles);
    response := Completed(|oldFiles|);
  }

  /**
    The `for` loop of the handler: one `remove` per selected file, in order,
    going on after a failed one.
   */
  method RemoveEach(bucket: Bucket, selected: seq<StoredFile>)
    modifies bucket`files, bucket`removals
    ensures bucket.removals == old(bucket.removals) + Names(selected)
    ensures bucket.files == Keep(old(bucket.files), NameSet(selected) - bucket.rejects)
  {
    var i := 0;
    KeepNothing(bucket.files);
    assert NameSet(selected[..0]) - bucket.rejects == {};
    while i < |selected|
      invariant 0 <= i <= |selected|
      invariant bucket.removals == old(bucket.removals) + Names(selected[..i])
      invariant bucket.files == Keep(old(bucket.files), NameSet(selected[..i]) - bucket.rejects)
    {
      var ok := bucket.Remove(selected[i].name);
      RemovalStep(old(bucket.files), selected, i, bucket.rejects);
      i := i + 1;
    }
    assert selected[..i] == selected;
  }

  /** What one more removal adds to the calls made and to the names gone. */
  lemma RemovalStep(files: seq<StoredFile>, selected: seq<StoredFile>, i: nat, rejects: set<string>)
    requires i < |selected|
    ensures Names(selected[..i + 1]) == Names(selected[..i]) + [selected[i].name]
    ensures var name := selected[i].name;
      var before := Keep(files, NameSet(selected[..i]) - rejects);
      Keep(files, NameSet(selected[..i + 1]) - rejects)
        == if name in rejects then before else Keep(before, {name})
  {
    var name := selected[i].name;
    assert selected[..i + 1] == selected[..i] + [selected[i]];
    NamesAppend(selected[..i], selected[i]);
    if name !in rejects {
      KeepKeep(files, NameSet(selected[..i]) - rejects, {name});
      assert NameSet(selected[..i + 1]) - rejects == (NameSet(selected[..i]) - rejects) + {name};
    } else {
      assert NameSet(selected[..i + 1]) - rejects == NameSet(selected[..i]) - rejects;
    }
  }

  lemma NamesAppend(files: seq<StoredFile>, f: StoredFile)
    ensures Names(files + [f]) == Names(files) + [f.name]
    ensures NameSet(files + [f]) == NameSet(files) + {f.name}
  {
    var all := files + [f];
    assert forall i :: 0 <= i < |files| ==> all[i] == files[i];
    assert all[|files|] == f;
  }

  lemma {:induction false} KeepNothing(files: seq<StoredFile>)
    ensures Keep(files, {}) == files
  {
    if files != [] {
      KeepNothing(files[1..]);
    }
  }

  /** Removing one name after a set of names is removing their union. */
  lemma {:induction false} KeepKeep(files: seq<StoredFile>, gone: set<string>, more: set<string>)
    ensures Keep(Keep(files, gone), more) == Keep(files, gone + more)
  {
    if files != [] {
      KeepKeep(files[1..], gone, more);
    }
  }

  /** Filtering distributes over concatenation, which fixes the order of the selection. */
  lemma {:induction false} SelectAppend(a: seq<StoredFile>, b: seq<StoredFile>, cutoff: int)
    ensures Select(a + b, cutoff) == Select(a, cutoff) + Select(b, cutoff)
  {
    if a == [] {
      assert a + b == b;
    } else {
      assert (a + b)[0] == a[0] && (a + b)[1..] == a[1..] + b;
      SelectAppend(a[1..], b, cutoff);
    }
  }

  /** The selection keeps each old file as often as the listing has it, and no other. */
  lemma {:induction false} SelectCounts(files: seq<StoredFile>, cutoff: int, f: StoredFile)
    ensures multiset(Select(files, cutoff))[f] == if IsOld(f, cutoff) then multiset(files)[f] else 0
  {
    if files != [] {
      SelectCounts(files[1..], cutoff, f);
      assert files == [files[0]] + files[1..];
    }
  }

  /** A file created exactly at the cutoff, or later, is not selected. */
  lemma SelectBoundary(files: seq<StoredFile>, now: int, f: StoredFile)
    requires f in files
    ensures f in Select(files, Cutoff(now)) <==> f.createdAt.Millis? && f.createdAt.ms < now - 86_400_000
  {
  }

  /** Files aged 23 h, 24 h and 25 h: only the 25 h one is selected. */
  lemma SelectExample(now: int)
    ensures var hour := 60 * 60 * 1000;
      var young := StoredFile("a", Millis(now - 23 * hour));
      var edge := StoredFile("b", Millis(now - 24 * hour));
      var aged := StoredFile("c", Millis(now - 25 * hour));
      Select([young, edge, aged], Cutoff(now)) == [aged]
  {
    var hour := 60 * 60 * 1000;
    var young := StoredFile("a", Millis(now - 23 * hour));
    var edge := StoredFile("b", Millis(now - 24 * hour));
    var aged := StoredFile("c", Millis(now - 25 * hour));
    var files := [young, edge, aged];
    assert !IsOld(young, Cutoff(now)) && !IsOld(edge, Cutoff(now)) && IsOld(aged, Cutoff(now));
    assert files[1..] == [edge, aged] && files[1..][1..] == [aged] && [aged][1..] == [];
  }

  /**
    After a successful run, a file is still in the bucket exactly when it was
    there before and either was not selected or its removal was rejected.
   */
  lemma Survivors(before: seq<StoredFile>, after: seq<StoredFile>, now: int, rejects: set<string>, f: StoredFile)
    requires after == Keep(before, NameSet(Select(before, Cutoff(now))) - rejects)
    ensures f in after <==>
      f in before && (f.name !in NameSet(Select(before, Cutoff(now))) || f.name in rejects)
  {
  }

  /** A file that was not old stays, unless an old file shares its name. */
  lemma YoungFilesStay(before: seq<StoredFile>, now: int, rejects: set<string>, f: StoredFile)
    requires f in before && !IsOld(f, Cutoff(now))
    requires forall g :: g in before && g.name == f.name ==> g == f
    ensures f in Keep(before, NameSet(Select(before, Cutoff(now))) - rejects)
  {
  }
}
