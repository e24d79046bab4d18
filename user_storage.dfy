/** The user directory (class UserStorage, User_Files/UserStorage.cpp): an
    index of user names with their metadata objects, a cache of each user's
    data object, and the name of the current user. The index is kept on disk
    as {"users": [...]} and each user's data as users/<name>.json. */
module UserDirectory {
  import opened Text
  import opened Json
  import opened Files
  import Users

  /** The file that holds a user's data object. */
  function UserFile(name: string): (path: string)
    ensures |path| == |name| + 11 && path[6..6 + |name|] == name
  {
    "users/" + name + ".json"
  }

  // -------------------------------------------------------- index loading

  /** The k-th element of the file's "users" array is indexed under `name`:
      it is an object whose "username" is that non-empty string. */
  predicate IndexedAt(list: seq<Value>, k: nat, name: string)
    requires k < |list|
  {
    list[k].Obj? && name != "" && ToString(Get(list[k].fields, "username")) == name
  }

  /** The index the loop of UserStorage::load builds from the array: non-objects
      and objects without a username are skipped, later entries overwrite
      earlier ones of the same name. */
  function IndexFrom(list: seq<Value>): map<string, Object>
    decreases |list|
  {
    if list == [] then map[]
    else
      var m := IndexFrom(list[..|list| - 1]);
      var v := list[|list| - 1];
      if v.Obj? && ToString(Get(v.fields, "username")) != "" then
        m[ToString(Get(v.fields, "username")) := v.fields]
      else m
  }

  /** Every indexed name has its own "username" and a non-empty name. */
  predicate WellKeyed(index: map<string, Object>) {
    forall name :: name in index ==> name != "" && Get(index[name], "username") == Str(name)
  }

  /** A name is indexed iff some element is indexed under it, and then it
      maps to the last such element. */
  lemma {:induction false} IndexFromLast(list: seq<Value>, name: string)
    ensures name in IndexFrom(list) <==> exists k :: 0 <= k < |list| && IndexedAt(list, k, name)
    ensures name in IndexFrom(list) ==>
      exists k :: 0 <= k < |list| && IndexedAt(list, k, name) &&
        IndexFrom(list)[name] == list[k].fields &&
        forall k' :: k < k' < |list| ==> !IndexedAt(list, k', name)
    decreases |list|
  {
    if list != [] {
      var n := |list| - 1;
      var init := list[..n];
      IndexFromLast(init, name);
      IndexedInPrefix(list, n, name);
      if IndexedAt(list, n, name) {
        assert IndexFrom(list)[name] == list[n].fields;
      } else {
        IndexFromLastOlder(list, name);
      }
    }
  }

  /** The elements of a prefix are indexed as they are in the whole list. */
  lemma IndexedInPrefix(list: seq<Value>, n: nat, name: string)
    requires n <= |list|
    ensures forall k :: 0 <= k < n ==> (IndexedAt(list[..n], k, name) <==> IndexedAt(list, k, name))
  {
  }

  /** When the last element is not indexed under the name, the entry comes
      from the elements before it. */
  lemma IndexFromLastOlder(list: seq<Value>, name: string)
    requires list != [] && !IndexedAt(list, |list| - 1, name)
    requires var init := list[..|list| - 1];
      name in IndexFrom(init) ==>
      exists k :: 0 <= k < |init| && IndexedAt(init, k, name) &&
        IndexFrom(init)[name] == init[k].fields &&
        forall k' :: k < k' < |init| ==> !IndexedAt(init, k', name)
    ensures name in IndexFrom(list) ==>
      exists k :: 0 <= k < |list| && IndexedAt(list, k, name) &&
        IndexFrom(list)[name] == list[k].fields &&
        forall k' :: k < k' < |list| ==> !IndexedAt(list, k', name)
  {
    var n := |list| - 1;
    var init := list[..n];
    IndexFromSkip(list, name);
    if name in IndexFrom(list) {
      var k :| 0 <= k < n && IndexedAt(init, k, name) && IndexFrom(init)[name] == init[k].fields &&
        forall k' :: k < k' < n ==> !IndexedAt(init, k', name);
      IndexedInPrefix(list, n, name);
      assert IndexedAt(list, k, name) && IndexFrom(list)[name] == list[k].fields;
    }
  }

  /** An element not indexed under the name leaves its entry alone. */
  lemma IndexFromSkip(list: seq<Value>, name: string)
    requires list != [] && !IndexedAt(list, |list| - 1, name)
    ensures var init := list[..|list| - 1];
      (name in IndexFrom(list) <==> name in IndexFrom(init)) &&
      (name in IndexFrom(init) ==> IndexFrom(list)[name] == IndexFrom(init)[name])
  {
  }

  /** Whatever the file holds, the index that load builds is well keyed. */
  lemma {:induction false} IndexFromWellKeyed(list: seq<Value>)
    ensures WellKeyed(IndexFrom(list))
    decreases |list|
  {
    if list != [] {
      IndexFromWellKeyed(list[..|list| - 1]);
    }
  }

  // -------------------------------------------------------- index saving

  /** The object save writes for one index entry: a "username" is added only
      to an empty object. */
  function Emitted(name: string, meta: Object): (o: Object)
    ensures o != map[]
    ensures meta != map[] ==> o == meta
  {
    if meta == map[] then
      var o := map["username" := Str(name)];
      assert "username" in o;
      o
    else meta
  }

  /** The index entries for the given names, in that order. */
  function EntriesFor(names: seq<string>, index: map<string, Object>): (items: seq<Value>)
    requires forall i :: 0 <= i < |names| ==> names[i] in index
    ensures |items| == |names|
    decreases |names|
  {
    if names == [] then []
    else
      var n := |names| - 1;
      EntriesFor(names[..n], index) + [Obj(Emitted(names[n], index[names[n]]))]
  }

  /** The document UserStorage::save writes: the entries in QMap key order. */
  ghost function IndexDocument(index: map<string, Object>): Value {
    SortedKeysMembers(index.Keys);
    Obj(map["users" := Arr(EntriesFor(SortedKeys(index.Keys), index))])
  }

  /** The files after a save to `target`; an empty target writes nothing. */
  function SavedTo(files: map<string, Content>, locked: set<string>, target: string, doc: Value): map<string, Content> {
    if target == "" then files else AfterWrite(files, locked, target, doc)
  }

  lemma {:induction false} EntriesForRestore(names: seq<string>, index: map<string, Object>)
    requires WellKeyed(index)
    requires forall i :: 0 <= i < |names| ==> names[i] in index
    ensures IndexFrom(EntriesFor(names, index)) == map name | name in names :: index[name]
    decreases |names|
  {
    if names != [] {
      var n := |names| - 1;
      var init, last := names[..n], names[n];
      EntriesForRestore(init, index);
      EntriesForSnoc(names, index);
      IndexFromSnoc(EntriesFor(init, index), last, index[last]);
      assert names == init + [last];
      RestrictSnoc(init, last, index);
    }
  }

  /** The entries for one more name end with that name's own metadata. */
  lemma EntriesForSnoc(names: seq<string>, index: map<string, Object>)
    requires WellKeyed(index) && names != []
    requires forall i :: 0 <= i < |names| ==> names[i] in index
    ensures var n := |names| - 1;
      EntriesFor(names, index) == EntriesFor(names[..n], index) + [Obj(index[names[n]])]
  {
    var n := |names| - 1;
    var last := names[n];
    assert "username" in index[last];
    assert Emitted(last, index[last]) == index[last];
  }

  /** Loading one more object that carries its own username indexes it. */
  lemma IndexFromSnoc(list: seq<Value>, name: string, meta: Object)
    requires name != "" && Get(meta, "username") == Str(name)
    ensures IndexFrom(list + [Obj(meta)]) == IndexFrom(list)[name := meta]
  {
    assert (list + [Obj(meta)])[..|list|] == list;
  }

  /** Restricting a map to one more key adds that key's entry. */
  lemma RestrictSnoc(init: seq<string>, last: string, index: map<string, Object>)
    requires forall name :: name in init ==> name in index
    requires last in index
    ensures (map name | name in init :: index[name])[last := index[last]] == map name | name in init + [last] :: index[name]
  {
    assert forall name :: name in init + [last] <==> name in init || name == last;
  }

  /** Loading the index that save wrote gives back the same index, when
      every entry carries its own username (as every index that load and
      addUser build does). */
  lemma SaveLoadRoundTrip(index: map<string, Object>)
    requires WellKeyed(index)
    ensures var doc := IndexDocument(index);
      doc.Obj? && IndexFrom(ToArray(Get(doc.fields, "users"))) == index
  {
    var names := SortedKeys(index.Keys);
    SortedKeysMembers(index.Keys);
    var items := EntriesFor(names, index);
    assert Get(IndexDocument(index).fields, "users") == Arr(items);
    EntriesForRestore(names, index);
    RestrictAll(names, index);
  }

  /** Restricting a map to all of its keys gives it back. */
  lemma RestrictAll(names: seq<string>, index: map<string, Object>)
    requires forall x :: x in names <==> x in index
    ensures (map name | name in names :: index[name]) == index
  {
  }

  /** QMap::keys: the names in ascending order, produced by picking the
      least remaining name each time. */
  method KeysInOrder(s: set<string>) returns (keys: seq<string>)
    ensures keys == SortedKeys(s)
  {
    keys := [];
    var remaining := s;
    while remaining != {}
      invariant keys + SortedKeys(remaining) == SortedKeys(s)
      decreases |remaining|
    {
      LeastExists(remaining);
      var k :| IsLeast(k, remaining);
      KeysStep(keys, k, remaining, s);
      keys := keys + [k];
      remaining := remaining - {k};
    }
    assert keys + [] == keys;
  }

  /** Indexing a new name under its own minimal metadata keeps an index
      well keyed. */
  lemma WellKeyedInsert(index: map<string, Object>, name: string)
    requires name != ""
    ensures WellKeyed(index) ==> WellKeyed(index[name := map["username" := Str(name)]])
  {
    var meta := map["username" := Str(name)];
    assert Get(meta, "username") == Str(name);
  }

  /** Dropping a name keeps an index well keyed. */
  lemma WellKeyedRemove(index: map<string, Object>, name: string)
    ensures WellKeyed(index) ==> WellKeyed(index - {name})
  {
  }

  /** Taking the least remaining name moves it from the rest to the keys. */
  lemma KeysStep(keys: seq<string>, k: string, remaining: set<string>, s: set<string>)
    requires IsLeast(k, remaining) && keys + SortedKeys(remaining) == SortedKeys(s)
    ensures (keys + [k]) + SortedKeys(remaining - {k}) == SortedKeys(s)
    ensures |remaining - {k}| < |remaining|
  {
    SortedKeysStep(k, remaining);
    assert (keys + [k]) + SortedKeys(remaining - {k}) == keys + ([k] + SortedKeys(remaining - {k}));
  }

  /** The loop of UserStorage::save: one object per index entry, in the
      given order, with a "username" added to an empty object. */
  method EntriesLoop(names: seq<string>, index: map<string, Object>) returns (arr: seq<Value>)
    requires forall j :: 0 <= j < |names| ==> names[j] in index
    ensures arr == EntriesFor(names, index)
  {
    arr := [];
    var i := 0;
    while i < |names|
      invariant 0 <= i <= |names|
      invariant arr == EntriesFor(names[..i], index)
    {
      var meta := index[names[i]];
      if meta == map[] {
        meta := meta["username" := Str(names[i])];
      }
      assert names[..i + 1][..i] == names[..i];
      assert meta == Emitted(names[i], index[names[i]]);
      arr := arr + [Obj(meta)];
      i := i + 1;
    }
    assert names[..i] == names;
  }

  // ------------------------------------------------------------ the store

  class UserStorage {
    var indexPath: string
    var index: map<string, Object>
    var cache: map<string, Object>
    /** "" when nobody is signed in. */
    var current: string

    constructor ()
      ensures indexPath == "" && index == map[] && cache == map[] && current == ""
    {
      indexPath := "";
      index := map[];
      cache := map[];
      current := "";
    }

    /** The current user is nobody or an indexed user. */
    predicate CurrentValid()
      reads this
    {
      current == "" || current in index
    }

    /** UserStorage::hasUser: agrees with the list of names users() gives. */
    predicate HasUser(name: string): (b: bool)
      reads this
      ensures b <==> name in SortedKeys(index.Keys)
    {
      SortedKeysMembers(index.Keys);
      name in index
    }

    /** UserStorage::users: the indexed names in ascending order. */
    method UserNames() returns (names: seq<string>)
      ensures names == SortedKeys(index.Keys)
      ensures StrictlyAscending(names) && forall n :: n in names <==> HasUser(n)
    {
      names := KeysInOrder(index.Keys);
      SortedKeysAscending(index.Keys);
      SortedKeysMembers(index.Keys);
    }

    /** UserStorage::currentUserData: the cached object, or {} when none. */
    function CurrentUserData(): (data: Object)
      reads this
      ensures current in cache ==> data == cache[current]
      ensures current !in cache ==> data == map[]
    {
      if current in cache then cache[current] else map[]
    }

    /** UserStorage::load: clears the index and reads it from the file. A
        missing file is created empty; an unreadable file or one that does
        not hold an object fails with an empty index. */
    method Load(fs: Disk, p: string) returns (ok: bool)
      modifies this, fs
      ensures indexPath == p && cache == old(cache) && current == old(current)
      ensures fs.locked == old(fs.locked)
      ensures p !in old(fs.files) ==>
        index == map[] && ok == (p != "" && p !in old(fs.locked)) &&
        fs.files == SavedTo(old(fs.files), old(fs.locked), p, IndexDocument(map[]))
      ensures p in old(fs.files) ==> fs.files == old(fs.files)
      ensures p in old(fs.files) && (p in old(fs.locked) || !Parse(old(fs.files)[p]).Obj?) ==>
        !ok && index == map[]
      ensures p in old(fs.files) && p !in old(fs.locked) && Parse(old(fs.files)[p]).Obj? ==>
        ok && index == IndexFrom(ToArray(Get(Parse(old(fs.files)[p]).fields, "users")))
      ensures WellKeyed(index)
    {
      indexPath := p;
      index := map[];
      if p !in fs.files {
        ok := Save(fs, "");
        return;
      }
      if p in fs.locked {
        return false;
      }
      var doc := Parse(fs.files[p]);
      if !doc.Obj? {
        return false;
      }
      var list := ToArray(Get(doc.fields, "users"));
      var i := 0;
      while i < |list|
        invariant 0 <= i <= |list|
        invariant index == IndexFrom(list[..i])
        invariant indexPath == p && cache == old(cache) && current == old(current)
        invariant fs.files == old(fs.files) && fs.locked == old(fs.locked)
      {
        assert list[..i + 1][..i] == list[..i];
        var v := list[i];
        if v.Obj? {
          var name := ToString(Get(v.fields, "username"));
          if name != "" {
            index := index[name := v.fields];
          }
        }
        i := i + 1;
      }
      assert list[..i] == list;
      IndexFromWellKeyed(list);
      return true;
    }

    /** The index entries UserStorage::save writes, in name order, as its document. */
    method IndexEntries() returns (arr: seq<Value>)
      ensures Obj(map["users" := Arr(arr)]) == IndexDocument(index)
    {
      var names := KeysInOrder(index.Keys);
      SortedKeysMembers(index.Keys);
      arr := EntriesLoop(names, index);
    }

    /** UserStorage::save: fails without a path; otherwise writes every index
        entry in name order. */
    method Save(fs: Disk, p: string) returns (ok: bool)
      modifies fs
      ensures var target := if p == "" then indexPath else p;
        ok == (target != "" && target !in old(fs.locked)) &&
        fs.files == SavedTo(old(fs.files), old(fs.locked), target, IndexDocument(index))
      ensures fs.locked == old(fs.locked)
    {
      var target := if p == "" then indexPath else p;
      if target == "" {
        return false;
      }
      var arr := IndexEntries();
      ok := fs.Write(target, Obj(map["users" := Arr(arr)]));
    }

    /** UserStorage::saveUserData: fails for a name not in the index;
        otherwise writes the cached object, or {} when none is cached. */
    method SaveUserData(fs: Disk, name: string) returns (ok: bool)
      modifies fs
      ensures ok == (name in index && UserFile(name) !in old(fs.locked))
      ensures name !in index ==> fs.files == old(fs.files)
      ensures name in index ==>
        fs.files == AfterWrite(old(fs.files), old(fs.locked), UserFile(name), Obj(Cached(cache, name)))
      ensures fs.locked == old(fs.locked)
    {
      if name !in index {
        return false;
      }
      var data := if name in cache then cache[name] else map[];
      ok := fs.Write(UserFile(name), Obj(data));
    }

    /** UserStorage::saveCurrentUserData */
    method SaveCurrentUserData(fs: Disk) returns (ok: bool)
      modifies fs
      ensures ok == (current != "" && current in index && UserFile(current) !in old(fs.locked))
      ensures current == "" || current !in index ==> fs.files == old(fs.files)
      ensures current != "" && current in index ==>
        fs.files == AfterWrite(old(fs.files), old(fs.locked), UserFile(current), Obj(Cached(cache, current)))
      ensures fs.locked == old(fs.locked)
    {
      if current == "" {
        return false;
      }
      ok := SaveUserData(fs, current);
    }

    /** UserStorage::addUser(name): a new, non-empty name gets minimal
        metadata and a {"created": true} data object, both saved; the
        result ignores whether the saves succeed. */
    method AddUser(fs: Disk, name: string) returns (ok: bool)
      modifies this, fs
      ensures ok == (name != "" && name !in old(index))
      ensures !ok ==> index == old(index) && cache == old(cache) && fs.files == old(fs.files)
      ensures ok ==>
        index == old(index)[name := map["username" := Str(name)]] &&
        cache == old(cache)[name := map["created" := Bool(true)]] &&
        fs.files == SavedTo(AfterWrite(old(fs.files), old(fs.locked), UserFile(name), Obj(cache[name])),
                            old(fs.locked), indexPath, IndexDocument(index))
      ensures current == old(current) && indexPath == old(indexPath) && fs.locked == old(fs.locked)
      ensures old(CurrentValid()) ==> CurrentValid()
      ensures old(WellKeyed(index)) ==> WellKeyed(index)
    {
      ok := AddUserWith(fs, name, map["created" := Bool(true)]);
    }

    /** UserStorage::addUser(User): as addUser(name), but the data object
        is the user's toJson. */
    method AddUserRecord(fs: Disk, u: Users.User) returns (ok: bool)
      modifies this, fs
      ensures ok == (u.name != "" && u.name !in old(index))
      ensures !ok ==> index == old(index) && cache == old(cache) && fs.files == old(fs.files)
      ensures ok ==>
        index == old(index)[u.name := map["username" := Str(u.name)]] &&
        cache == old(cache)[u.name := Users.ToJson(u)] &&
        fs.files == SavedTo(AfterWrite(old(fs.files), old(fs.locked), UserFile(u.name), Obj(Users.ToJson(u))),
                            old(fs.locked), indexPath, IndexDocument(index))
      ensures current == old(current) && indexPath == old(indexPath) && fs.locked == old(fs.locked)
      ensures old(CurrentValid()) ==> CurrentValid()
      ensures old(WellKeyed(index)) ==> WellKeyed(index)
    {
      ok := AddUserWith(fs, u.name, Users.ToJson(u));
    }

    /** The steps both addUser overloads take, with the data object to cache. */
    method AddUserWith(fs: Disk, name: string, data: Object) returns (ok: bool)
      modifies this, fs
      ensures ok == (name != "" && name !in old(index))
      ensures !ok ==> index == old(index) && cache == old(cache) && fs.files == old(fs.files)
      ensures ok ==>
        index == old(index)[name := map["username" := Str(name)]] &&
        cache == old(cache)[name := data] &&
        fs.files == SavedTo(AfterWrite(old(fs.files), old(fs.locked), UserFile(name), Obj(data)),
                            old(fs.locked), indexPath, IndexDocument(index))
      ensures current == old(current) && indexPath == old(indexPath) && fs.locked == old(fs.locked)
      ensures old(CurrentValid()) ==> CurrentValid()
      ensures old(WellKeyed(index)) ==> WellKeyed(index)
    {
      if name == "" || name in index {
        return false;
      }
      ghost var before := index;
      index := index[name := map["username" := Str(name)]];
      cache := cache[name := data];
      WellKeyedInsert(before, name);
      ghost var after, filled := index, cache;
      ghost var written := AfterWrite(fs.files, fs.locked, UserFile(name), Obj(data));
      var _ := SaveUserData(fs, name);
      assert fs.files == written && index == after && cache == filled;
      ghost var saved := SavedTo(fs.files, fs.locked, indexPath, IndexDocument(after));
      var _ := Save(fs, "");
      assert fs.files == saved && index == after && cache == filled;
      return true;
    }

    /** UserStorage::removeUser: drops the name from the index and the cache,
        saves the index, deletes the data file and signs the user out if
        they were current. */
    method RemoveUser(fs: Disk, name: string) returns (ok: bool)
      modifies this, fs
      ensures ok == (name in old(index))
      ensures !ok ==>
        index == old(index) && cache == old(cache) && current == old(current) &&
        fs.files == old(fs.files)
      ensures ok ==>
        index == old(index) - {name} && cache == old(cache) - {name} &&
        current == (if old(current) == name then "" else old(current)) &&
        fs.files == SavedTo(old(fs.files), old(fs.locked), indexPath, IndexDocument(index)) - {UserFile(name)}
      ensures indexPath == old(indexPath) && fs.locked == old(fs.locked)
      ensures old(CurrentValid()) ==> CurrentValid()
      ensures old(WellKeyed(index)) ==> WellKeyed(index)
    {
      if name !in index {
        return false;
      }
      ghost var before := index;
      index := index - {name};
      cache := cache - {name};
      WellKeyedRemove(before, name);
      ghost var after, cleared := index, cache;
      ghost var saved := SavedTo(fs.files, fs.locked, indexPath, IndexDocument(after));
      var _ := Save(fs, "");
      assert fs.files == saved && index == after && cache == cleared;
      fs.Remove(UserFile(name));
      assert fs.files == saved - {UserFile(name)} && index == after && cache == cleared;
      if current == name {
        current := "";
      }
      return true;
    }

    /** UserStorage::loadUserData: fails for a name not in the index. A
        missing file gets an empty data object, which is saved; an
        unreadable file or one that does not hold an object fails and
        leaves the cache as it was. */
    method LoadUserData(fs: Disk, name: string) returns (ok: bool)
      modifies this, fs
      ensures index == old(index) && current == old(current) && indexPath == old(indexPath)
      ensures fs.locked == old(fs.locked)
      ensures name !in index ==> !ok && cache == old(cache) && fs.files == old(fs.files)
      ensures name in index && UserFile(name) !in old(fs.files) ==>
        ok && cache == old(cache)[name := map[]] &&
        fs.files == AfterWrite(old(fs.files), old(fs.locked), UserFile(name), Obj(map[]))
      ensures name in index && UserFile(name) in old(fs.files) ==> fs.files == old(fs.files)
      ensures (name in index && UserFile(name) in old(fs.files) &&
               (UserFile(name) in old(fs.locked) || !Parse(old(fs.files)[UserFile(name)]).Obj?)) ==>
        !ok && cache == old(cache)
      ensures (name in index && UserFile(name) in old(fs.files) && UserFile(name) !in old(fs.locked) &&
               Parse(old(fs.files)[UserFile(name)]).Obj?) ==>
        ok && cache == old(cache)[name := Parse(old(fs.files)[UserFile(name)]).fields]
    {
      if name !in index {
        return false;
      }
      var file := UserFile(name);
      if file !in fs.files {
        cache := cache[name := map[]];
        var _ := SaveUserData(fs, name);
        return true;
      }
      if file in fs.locked {
        return false;
      }
      var doc := Parse(fs.files[file]);
      if !doc.Obj? {
        return false;
      }
      cache := cache[name := doc.fields];
      return true;
    }

    /** UserStorage::setCurrentUser: fails for a name not in the index;
        otherwise the name becomes current before its data is loaded, so it
        stays current even when loading fails. */
    method SetCurrentUser(fs: Disk, name: string) returns (ok: bool)
      modifies this, fs
      ensures name !in old(index) ==>
        !ok && current == old(current) && cache == old(cache) && fs.files == old(fs.files)
      ensures name in old(index) ==> current == name
      ensures ok ==> name in old(index) && name in cache
      ensures name in old(index) && UserFile(name) !in old(fs.files) ==>
        ok && cache == old(cache)[name := map[]] &&
        fs.files == AfterWrite(old(fs.files), old(fs.locked), UserFile(name), Obj(map[]))
      ensures name in old(index) && UserFile(name) in old(fs.files) ==> fs.files == old(fs.files)
      ensures (name in old(index) && UserFile(name) in old(fs.files) &&
               (UserFile(name) in old(fs.locked) || !Parse(old(fs.files)[UserFile(name)]).Obj?)) ==>
        !ok && cache == old(cache)
      ensures (name in old(index) && UserFile(name) in old(fs.files) && UserFile(name) !in old(fs.locked) &&
               Parse(old(fs.files)[UserFile(name)]).Obj?) ==>
        ok && cache == old(cache)[name := Parse(old(fs.files)[UserFile(name)]).fields]
      ensures index == old(index) && indexPath == old(indexPath) && fs.locked == old(fs.locked)
      ensures old(CurrentValid()) ==> CurrentValid()
    {
      if name !in index {
        return false;
      }
      current := name;
      ok := LoadUserData(fs, name);
    }

    /** UserStorage::updateCurrentUserData: replaces the current user's cached
        object; nothing happens when nobody is signed in. */
    method UpdateCurrentUserData(data: Object)
      modifies this
      ensures current == "" ==> cache == old(cache)
      ensures current != "" ==> cache == old(cache)[current := data] && CurrentUserData() == data
      ensures index == old(index) && current == old(current) && indexPath == old(indexPath)
    {
      if current == "" {
        return;
      }
      cache := cache[current := data];
    }
  }

  /** QMap::value(name, QJsonObject()): the object, or {} when the name is missing. */
  function Cached(cache: map<string, Object>, name: string): (o: Object)
    ensures name in cache ==> o == cache[name]
    ensures name !in cache ==> o == map[]
  {
    if name in cache then cache[name] else map[]
  }
}
