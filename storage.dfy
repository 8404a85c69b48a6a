/**
 * The merged-file directory MERGED_FOLDER ("/tmp/merged") as a map from file
 * name to the stored file, with the `download` existence check and the
 * `cleanup` retention sweep.  Times are integer seconds since the epoch.
 */
module Storage {
  import opened Wrappers
  import opened Pdf

  const MergedFolder: string := "/tmp/merged"

  /** The age limit of `cleanup`: 30 days of 86400 seconds. */
  const RetentionSeconds: int := 30 * 86400

  /** A file in the directory: its modification time and the pages it holds. */
  datatype StoredFile = StoredFile(mtime: int, pages: seq<Page>)

  /** `cleanup` deletes a file whose modification time is strictly before `now` minus 30 days. */
  predicate Expired(f: StoredFile, now: int)
  {
    f.mtime < now - RetentionSeconds
  }

  /** The directory after a sweep at time `now`: the entries that have not expired. */
  function Swept(entries: map<string, StoredFile>, now: int): map<string, StoredFile>
  {
    map name | name in entries && !Expired(entries[name], now) :: entries[name]
  }

  /** The directory part-way through a sweep: the entries still to visit are untouched. */
  function SweptExcept(entries: map<string, StoredFile>, now: int, pending: set<string>): map<string, StoredFile>
  {
    map name | name in entries && (name in pending || !Expired(entries[name], now)) :: entries[name]
  }

  class Folder {
    var entries: map<string, StoredFile>

    constructor (initial: map<string, StoredFile>)
      ensures entries == initial
    {
      entries := initial;
    }

    /** `pdf_writer.save(path)`: writes the file, replacing any file of the same name. */
    method Save(name: string, file: StoredFile)
      modifies this
      ensures entries == old(entries)[name := file]
    {
      entries := entries[name := file];
    }

    /** `download`: the file's pages if it exists, otherwise "File not found!". */
    method Download(name: string) returns (r: Option<seq<Page>>)
      ensures r.Some? <==> name in entries
      ensures r.Some? ==> r.value == entries[name].pages
    {
      if name in entries {
        r := Some(entries[name].pages);
      } else {
        r := None;
      }
    }

    /** `cleanup`: visits every file once and removes the expired ones. */
    method Cleanup(now: int)
      modifies this
      ensures entries == Swept(old(entries), now)
    {
      var pending := entries.Keys;
      ghost var original := entries;
      while pending != {}
        invariant pending <= original.Keys
        invariant entries == SweptExcept(original, now, pending)
        decreases pending
      {
        var name :| name in pending;
        assert name in entries;
        if entries[name].mtime < now - RetentionSeconds {
          entries := entries - {name};
        }
        pending := pending - {name};
      }
      assert SweptExcept(original, now, {}) == Swept(original, now);
    }
  }

  /** The sweep removes exactly the expired entries and leaves the others as they were. */
  lemma SweptSpec(entries: map<string, StoredFile>, now: int, name: string)
    ensures name in Swept(entries, now) <==> name in entries && entries[name].mtime >= now - 2592000
    ensures name in Swept(entries, now) ==> Swept(entries, now)[name] == entries[name]
  {
  }

  /** A file exactly 30 days old survives: the comparison is strict. */
  lemma SweptKeepsBoundary(entries: map<string, StoredFile>, now: int, name: string)
    requires name in entries && entries[name].mtime == now - 2592000
    ensures name in Swept(entries, now) && Swept(entries, now)[name] == entries[name]
  {
  }

  /** A second sweep at the same time removes nothing. */
  lemma SweptIdempotent(entries: map<string, StoredFile>, now: int)
    ensures Swept(Swept(entries, now), now) == Swept(entries, now)
  {
  }

  /** A later sweep removes at least what an earlier one does. */
  lemma SweptMonotone(entries: map<string, StoredFile>, earlier: int, later: int)
    requires earlier <= later
    ensures Swept(entries, later).Keys <= Swept(entries, earlier).Keys
  {
  }

  /** A file saved at `now` survives a sweep at `now`. */
  lemma FreshFileSurvives(entries: map<string, StoredFile>, name: string, pages: seq<Page>, now: int)
    ensures name in Swept(entries[name := StoredFile(now, pages)], now)
  {
  }
}
