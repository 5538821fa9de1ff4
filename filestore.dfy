/**
 * The file cache (src/filestore/mod.rs): a map from path string to a
 * FileEntry whose contents are read from disk on first use and kept until
 * a filesystem event invalidates the entry.
 *
 * The disk is an oracle: a `FileSystem` value giving the text of every
 * readable file, passed to the operations that open or read files.  Time is
 * a `now` parameter.  Locks and the watcher thread are not modelled.
 */
module FileStore {
  import opened Wrappers

  type Time = nat

  /** Text of every readable regular file, by path. */
  type FileSystem = map<string, string>

  datatype FileEntryError = NeedsUpdate | EmptyFile | NoFileEntry

  /** The abstract value of one cache entry. */
  datatype EntryState = EntryState(contents: Option<string>, lastAccessed: Option<Time>)
  {
    /** Contents are present exactly when the access marker is. */
    predicate Consistent()
    {
      contents.Some? <==> lastAccessed.Some?
    }
  }

  /** The state of an entry that has just been created. */
  const Unpopulated: EntryState := EntryState(None, None)

  /** Specification of `FileEntry::get`. */
  function GetOf(e: EntryState): (r: Result<string, FileEntryError>)
    ensures r != Err(NoFileEntry)
    ensures r.Ok? ==> e.contents == Some(r.value)
  {
    match e.lastAccessed
    case None => Err(NeedsUpdate)
    case Some(_) =>
      match e.contents
      case Some(s) => Ok(s)
      case None => Err(EmptyFile)
  }

  /** The three outcomes of `get`, each tied to the entry's fields. */
  lemma GetCases(e: EntryState)
    ensures GetOf(e) == Err(NeedsUpdate) <==> e.lastAccessed.None?
    ensures GetOf(e) == Err(EmptyFile) <==> e.lastAccessed.Some? && e.contents.None?
    ensures GetOf(e).Ok? <==> e.lastAccessed.Some? && e.contents.Some?
    ensures GetOf(e).Ok? ==> GetOf(e).value == e.contents.value
    ensures GetOf(e) != Err(NoFileEntry)
  {
  }

  /** Specification of `FileEntry::update` for an entry opened on `path`. */
  function UpdateOf(e: EntryState, fs: FileSystem, path: string, now: Time): (r: EntryState)
    requires e.contents.None? ==> path in fs
    ensures r.Consistent() && r.lastAccessed == Some(now)
    ensures e.contents.Some? ==> r.contents == e.contents
    ensures e.contents.None? ==> r.contents == Some(fs[path])
  {
    EntryState(if e.contents.Some? then e.contents else Some(fs[path]), Some(now))
  }

  lemma UnpopulatedNeedsUpdate()
    ensures Unpopulated.Consistent()
    ensures GetOf(Unpopulated) == Err(NeedsUpdate)
  {
  }

  /** Update fills an empty entry from disk, never re-reads a filled one, and always stamps it. */
  lemma UpdateFillsOnce(e: EntryState, fs: FileSystem, path: string, now: Time)
    requires e.contents.None? ==> path in fs
    ensures UpdateOf(e, fs, path, now).Consistent()
    ensures UpdateOf(e, fs, path, now).lastAccessed == Some(now)
    ensures e.contents.None? ==> GetOf(UpdateOf(e, fs, path, now)) == Ok(fs[path])
    ensures e.contents.Some? ==> GetOf(UpdateOf(e, fs, path, now)) == Ok(e.contents.value)
  {
  }

  /** On an entry that keeps the invariant, get hits or asks for an update, never EmptyFile. */
  lemma ConsistentGet(e: EntryState)
    requires e.Consistent()
    ensures GetOf(e) != Err(EmptyFile)
    ensures GetOf(e) == Err(NeedsUpdate) <==> e == Unpopulated
    ensures GetOf(e).Ok? <==> e.contents.Some?
  {
  }

  /** Every entry of the cache keeps the invariant. */
  ghost predicate AllConsistent(entries: map<string, EntryState>)
  {
    forall p :: p in entries ==> entries[p].Consistent()
  }

  /** Specification of `FileCache::open`: insert an unpopulated entry unless one is there. */
  function OpenOf(entries: map<string, EntryState>, path: string): (r: map<string, EntryState>)
    ensures r.Keys == entries.Keys + {path}
    ensures forall q :: q in entries ==> r[q] == entries[q]
    ensures AllConsistent(entries) ==> AllConsistent(r)
  {
    if path in entries then entries else entries[path := Unpopulated]
  }

  /** Specification of `FileCache::lookup`. */
  function LookupOf(entries: map<string, EntryState>, path: string): (r: Result<string, FileEntryError>)
    ensures r == Err(NoFileEntry) <==> path !in entries
    ensures r.Ok? ==> path in entries && entries[path].contents == Some(r.value)
  {
    if path in entries then GetOf(entries[path]) else Err(NoFileEntry)
  }

  /** What `FileCache::read` needs of the disk: the file exists when the entry is to be filled. */
  predicate ReadRequires(entries: map<string, EntryState>, path: string, fs: FileSystem)
  {
    path in entries && entries[path].lastAccessed.None? && entries[path].contents.None? ==> path in fs
  }

  /** Specification of `FileCache::read`: the string returned and the entries afterwards. */
  function ReadOf(entries: map<string, EntryState>, path: string, fs: FileSystem, now: Time)
    : (r: (string, map<string, EntryState>))
    requires ReadRequires(entries, path, fs)
    ensures r.1.Keys == entries.Keys
    ensures forall q :: q in entries && q != path ==> r.1[q] == entries[q]
    ensures path in entries && entries[path].Consistent() ==> r.1[path].contents == Some(r.0)
  {
    match LookupOf(entries, path)
    case Ok(s) => (s, entries)
    case Err(NeedsUpdate) =>
      var e := UpdateOf(entries[path], fs, path, now);
      (GetOf(e).value, entries[path := e])
    case Err(_) => ("", entries)
  }

  /** Open then read on a cache without the path loads the file and stamps the new entry. */
  lemma FirstReadLoads(entries: map<string, EntryState>, path: string, fs: FileSystem, now: Time)
    requires path in fs && path !in entries
    ensures ReadOf(OpenOf(entries, path), path, fs, now)
         == (fs[path], entries[path := EntryState(Some(fs[path]), Some(now))])
  {
    var filled := EntryState(Some(fs[path]), Some(now));
    assert OpenOf(entries, path)[path := filled] == entries[path := filled];
  }

  /** Specification of `FileCache::invalidate_entry`. */
  function InvalidateOf(entries: map<string, EntryState>, path: string): (r: map<string, EntryState>)
    ensures r.Keys == entries.Keys - {path}
    ensures forall q :: q in r ==> r[q] == entries[q]
    ensures AllConsistent(entries) ==> AllConsistent(r)
  {
    entries - {path}
  }

  /** Open adds the key, keeps an existing entry, and touches no other key. */
  lemma OpenEnsuresEntry(entries: map<string, EntryState>, path: string)
    ensures path in OpenOf(entries, path)
    ensures path in entries ==> OpenOf(entries, path)[path] == entries[path]
    ensures path !in entries ==> OpenOf(entries, path)[path] == Unpopulated
    ensures forall q :: q != path ==> (q in OpenOf(entries, path) <==> q in entries)
    ensures forall q :: q != path && q in entries ==> OpenOf(entries, path)[q] == entries[q]
    ensures OpenOf(OpenOf(entries, path), path) == OpenOf(entries, path)
  {
  }

  /** The three outcomes of read: no entry, cache hit, cache miss. */
  lemma ReadCases(entries: map<string, EntryState>, path: string, fs: FileSystem, now: Time)
    requires ReadRequires(entries, path, fs)
    ensures path !in entries ==> ReadOf(entries, path, fs, now) == ("", entries)
    ensures path in entries && entries[path].lastAccessed.Some? && entries[path].contents.Some?
      ==> ReadOf(entries, path, fs, now) == (entries[path].contents.value, entries)
    ensures path in entries && entries[path] == Unpopulated
      ==> ReadOf(entries, path, fs, now) == (fs[path], entries[path := EntryState(Some(fs[path]), Some(now))])
  {
  }

  /** Reading keeps every entry consistent, and then the key is populated. */
  lemma ReadKeepsConsistent(entries: map<string, EntryState>, path: string, fs: FileSystem, now: Time)
    requires ReadRequires(entries, path, fs)
    requires AllConsistent(entries)
    ensures AllConsistent(ReadOf(entries, path, fs, now).1)
    ensures ReadOf(entries, path, fs, now).1.Keys == entries.Keys
    ensures path in entries ==> ReadOf(entries, path, fs, now).1[path].contents.Some?
  {
  }

  /**
   * Open then read, as the server does: the cached text when the entry is
   * populated, otherwise the file on disk; the key is then present and every
   * entry still keeps the invariant.
   */
  lemma OpenThenRead(entries: map<string, EntryState>, path: string, fs: FileSystem, now: Time)
    requires path in fs
    requires AllConsistent(entries)
    ensures ReadRequires(OpenOf(entries, path), path, fs)
    ensures ReadOf(OpenOf(entries, path), path, fs, now).0
         == if path in entries && entries[path].contents.Some? then entries[path].contents.value else fs[path]
    ensures path in ReadOf(OpenOf(entries, path), path, fs, now).1
    ensures AllConsistent(ReadOf(OpenOf(entries, path), path, fs, now).1)
  {
    var afterOpen := OpenOf(entries, path);
    OpenEnsuresEntry(entries, path);
    assert AllConsistent(afterOpen);
    ReadCases(afterOpen, path, fs, now);
    ReadKeepsConsistent(afterOpen, path, fs, now);
  }

  /**
   * Two reads with no invalidation in between return the same string, even
   * if the disk changed in the meantime; the second read changes nothing.
   */
  lemma ReadTwiceSame(entries: map<string, EntryState>, path: string, fs1: FileSystem, now1: Time,
                      fs2: FileSystem, now2: Time)
    requires ReadRequires(entries, path, fs1)
    requires AllConsistent(entries)
    ensures ReadRequires(ReadOf(entries, path, fs1, now1).1, path, fs2)
    ensures ReadOf(ReadOf(entries, path, fs1, now1).1, path, fs2, now2)
         == (ReadOf(entries, path, fs1, now1).0, ReadOf(entries, path, fs1, now1).1)
  {
  }

  /** After an invalidation, open followed by read takes the file from disk again. */
  lemma ReadAfterInvalidate(entries: map<string, EntryState>, path: string, fs: FileSystem, now: Time)
    requires path in fs
    ensures ReadOf(OpenOf(InvalidateOf(entries, path), path), path, fs, now).0 == fs[path]
  {
  }

  /** Invalidation removes exactly one key and is idempotent. */
  lemma InvalidateRemovesKey(entries: map<string, EntryState>, path: string)
    ensures path !in InvalidateOf(entries, path)
    ensures forall q :: q != path ==> (q in InvalidateOf(entries, path) <==> q in entries)
    ensures forall q :: q != path && q in entries ==> InvalidateOf(entries, path)[q] == entries[q]
    ensures InvalidateOf(InvalidateOf(entries, path), path) == InvalidateOf(entries, path)
  {
  }

  /** The debounced events the watcher delivers (notify's `DebouncedEvent`). */
  datatype DebouncedEvent =
    | NoticeWrite(path: string)
    | NoticeRemove(path: string)
    | Create(path: string)
    | Write(path: string)
    | Chmod(path: string)
    | Remove(path: string)
    | Rename(path: string, to: string)
    | Rescan
    | Error(message: string, errorPath: Option<string>)

  /** The key the watcher loop invalidates for an event, if any. */
  function InvalidationTarget(event: DebouncedEvent): (target: Option<string>)
    ensures target.Some? <==> event.Create? || event.Write? || event.Remove? || event.Rename?
    ensures target.Some? ==> target.value == event.path
  {
    match event
    case Create(p) => Some(p)
    case Write(p) => Some(p)
    case Remove(p) => Some(p)
    case Rename(p, _) => Some(p)
    case _ => None
  }

  /** One cache slot. `path` stands for the file handle opened when the entry was created. */
  class FileEntry {
    const path: string
    var contents: Option<string>
    var lastAccessed: Option<Time>

    function State(): EntryState
      reads this
    {
      EntryState(contents, lastAccessed)
    }

    /** `FileEntry::new`: opening the file must succeed. */
    constructor (path: string, fs: FileSystem)
      requires path in fs
      ensures this.path == path
      ensures State() == Unpopulated
    {
      this.path := path;
      contents := None;
      lastAccessed := None;
    }

    method Get() returns (r: Result<string, FileEntryError>)
      ensures r == GetOf(State())
    {
      match lastAccessed {
        case Some(_) =>
          match contents {
            case Some(s) => r := Ok(s);
            case None => r := Err(EmptyFile);
          }
        case None =>
          r := Err(NeedsUpdate);
      }
    }

    method Update(fs: FileSystem, now: Time)
      requires contents.None? ==> path in fs
      modifies this
      ensures State() == UpdateOf(old(State()), fs, path, now)
    {
      match contents {
        case Some(_) =>
          // a populated entry is never read again
        case None =>
          contents := Some(fs[path]);
      }
      lastAccessed := Some(now);
    }
  }

  class FileCache {
    var store: map<string, FileEntry>

    /** Every entry was opened on its own key (so distinct keys hold distinct entries). */
    ghost predicate Valid()
      reads this, store.Values
    {
      forall p :: p in store ==> store[p].path == p
    }

    /** The abstract value of the cache. */
    ghost function Entries(): map<string, EntryState>
      reads this, store.Values
    {
      map p | p in store :: store[p].State()
    }

    /** `FileCache::new`, without the watcher it starts. */
    constructor ()
      ensures Valid()
      ensures Entries() == map[]
    {
      store := map[];
    }

    method Open(path: string, fs: FileSystem)
      requires Valid()
      requires path in fs
      modifies this
      ensures Valid()
      ensures path in store
      ensures old(path in store) ==> store == old(store)
      ensures fresh(store.Values - old(store.Values))
      ensures Entries() == OpenOf(old(Entries()), path)
    {
      var fe := new FileEntry(path, fs);
      if path !in store {
        store := store[path := fe];
      }
    }

    method Lookup(path: string) returns (r: Result<string, FileEntryError>)
      requires Valid()
      ensures r == LookupOf(Entries(), path)
    {
      if path in store {
        r := store[path].Get();
      } else {
        r := Err(NoFileEntry);
      }
    }

    method Read(path: string, fs: FileSystem, now: Time) returns (s: string)
      requires Valid()
      requires ReadRequires(Entries(), path, fs)
      modifies store.Values
      ensures Valid()
      ensures store == old(store)
      ensures (s, Entries()) == ReadOf(old(Entries()), path, fs, now)
    {
      var r := Lookup(path);
      match r {
        case Ok(c) =>
          s := c;
        case Err(NeedsUpdate) =>
          var fe := store[path];
          ghost var before := Entries();
          fe.Update(fs, now);
          assert forall q :: q in store && q != path ==> store[q] != fe && store[q].State() == before[q];
          assert Entries() == before[path := fe.State()];
          var g := fe.Get();
          s := g.value;
        case Err(EmptyFile) =>
          s := "";
        case Err(NoFileEntry) =>
          s := "";
      }
    }

    method InvalidateEntry(path: string) returns (removed: Option<(string, FileEntry)>)
      requires Valid()
      modifies this
      ensures Valid()
      ensures store == old(store) - {path}
      ensures removed == if path in old(store) then Some((path, old(store)[path])) else None
      ensures Entries() == InvalidateOf(old(Entries()), path)
    {
      if path in store {
        removed := Some((path, store[path]));
        store := store - {path};
      } else {
        removed := None;
      }
    }

    /** One turn of the watcher loop: the match on the received event. */
    method HandleEvent(event: DebouncedEvent)
      requires Valid()
      modifies this
      ensures Valid()
      ensures Entries() == match InvalidationTarget(event)
                           case Some(p) => InvalidateOf(old(Entries()), p)
                           case None => old(Entries())
    {
      match event {
        case NoticeWrite(_) =>
        case NoticeRemove(_) =>
        case Create(p) =>
          var _ := InvalidateEntry(p);
        case Write(p) =>
          var _ := InvalidateEntry(p);
        case Chmod(_) =>
        case Remove(p) =>
          var _ := InvalidateEntry(p);
        case Rename(p, _) =>
          var _ := InvalidateEntry(p);
        case Rescan =>
        case Error(_, _) =>
      }
    }
  }
}
