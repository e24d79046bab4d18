/** The operation facade (class Function, Function_Files/Function.cpp): the
    validated, status-coded addWord, search, per-letter listing and the
    addWordEntry path that also records the word in the current user's
    data. The WordStorage and UserStorage singletons become objects the
    facade is given. */
module Facade {
  import opened Text
  import opened Json
  import opened Files
  import opened WordEntries
  import opened WordStore
  import opened UserDirectory
  import Users

  // --------------------------------------------------------- status codes

  const Ok := 0
  const Invalid := 1
  const Full := 2
  const Duplicate := 3

  /** MAX_PER_LETTER */
  const MaxPerLetter := 30

  /** Function::normalizeKey: the lower-cased first character when it is a
      letter, else the null character. */
  function NormalizeKey(word: string): (key: char)
    ensures key == '\0' <==> word == [] || !IsLetter(word[0])
    ensures key != '\0' ==> key == ToLower(word[0]) && 'a' <= key <= 'z'
  {
    if word == [] then '\0'
    else if !IsLetter(word[0]) then '\0'
    else ToLower(word[0])
  }

  /** The entry addWord stores: trimmed word, definition and translation,
      every other field empty. */
  function NewEntry(word: string, definition: string, translation: string): WordEntry {
    WordEntry(Trimmed(word), Trimmed(definition), [], [], "", "", Trimmed(translation))
  }

  /** The status addWord returns when its duplicate check compares the letter
      bucket against `probe`: invalid input first, then a duplicate, then a
      full bucket. */
  function StatusWith(ws: seq<WordEntry>, word: string, definition: string, probe: string): int {
    if Trimmed(word) == "" || Trimmed(definition) == "" then Invalid
    else if NormalizeKey(word) == '\0' then Invalid
    else
      var bucket := ForLetter(ws, NormalizeKey(word));
      if HasWord(bucket, probe) then Duplicate
      else if |bucket| >= MaxPerLetter then Full
      else Ok
  }

  /** Function::addWord as written: the bucket is compared against the
      untrimmed word. */
  function StatusAsWritten(ws: seq<WordEntry>, word: string, definition: string): (s: int)
    ensures Ok <= s <= Duplicate
    ensures s == Duplicate <==> s != Invalid && HasWord(ForLetter(ws, NormalizeKey(word)), word)
  {
    StatusCases(ws, word, definition, word);
    StatusWith(ws, word, definition, word)
  }

  /** addWord with the duplicate check on the word it stores. */
  function StatusCorrected(ws: seq<WordEntry>, word: string, definition: string): int {
    StatusWith(ws, word, definition, Trimmed(word))
  }

  /** The four outcomes of addWord and the order of its checks: a duplicate
      is reported even when the bucket is full. */
  lemma StatusCases(ws: seq<WordEntry>, word: string, definition: string, probe: string)
    ensures var s := StatusWith(ws, word, definition, probe);
      var bucket := ForLetter(ws, NormalizeKey(word));
      Ok <= s <= Duplicate &&
      (s == Invalid <==> Blank(word) || Blank(definition) || word == [] || !IsLetter(word[0])) &&
      (s == Duplicate <==> s != Invalid && HasWord(bucket, probe)) &&
      (s == Full <==> s != Invalid && !HasWord(bucket, probe) && |bucket| >= MaxPerLetter) &&
      (s == Ok ==> |bucket| < MaxPerLetter && word != [] && IsLetter(word[0]))
  {
  }

  /** A word that some stored entry matches, ignoring case, is in the bucket
      of its first letter. */
  lemma MatchInBucket(ws: seq<WordEntry>, w: string)
    requires w != [] && IsLetter(w[0])
    ensures HasWord(ws, w) ==> HasWord(ForLetter(ws, w[0]), w)
  {
    if !HasWord(ws, w) {
      return;
    }
    var i :| 0 <= i < |ws| && EqualsIgnoreCase(ws[i].word, w);
    EqualsIgnoreCaseFirst(w, ws[i].word);
    assert EqualsIgnoreCase(w, ws[i].word);
    ForLetterMembers(ws, w[0]);
    assert ws[i] in ForLetter(ws, w[0]);
    var bucket := ForLetter(ws, w[0]);
    var j :| 0 <= j < |bucket| && bucket[j] == ws[i];
  }

  /** With the corrected check, success means the word was new: the store
      grows by exactly the new entry, its letter bucket stays within the
      cap, and the other buckets are unchanged. */
  lemma CorrectedAddAppends(ws: seq<WordEntry>, word: string, definition: string, translation: string)
    requires StatusCorrected(ws, word, definition) == Ok
    ensures var e := NewEntry(word, definition, translation);
      Added(ws, e) == ws + [e] &&
      |ForLetter(ws + [e], e.word[0])| <= MaxPerLetter &&
      forall c :: c != '\0' && ToLower(c) != ToLower(e.word[0]) ==> ForLetter(ws + [e], c) == ForLetter(ws, c)
  {
    var e := NewEntry(word, definition, translation);
    TrimmedFirst(word);
    var w := Trimmed(word);
    assert w[0] == word[0];
    MatchInBucket(ws, w);
    ForLetterIgnoresCase(ws, w[0], NormalizeKey(word));
    forall c | c != '\0'
      ensures ForLetter(ws + [e], c) == ForLetter(ws, c) + ForLetter([e], c)
    {
      ForLetterAppend(ws, [e], c);
    }
  }

  /** The trimmed word is stored, so the two checks agree on words without
      surrounding whitespace. */
  lemma StatusAgreesOnTrimmedWords(ws: seq<WordEntry>, word: string, definition: string)
    requires Trimmed(word) == word
    ensures StatusAsWritten(ws, word, definition) == StatusCorrected(ws, word, definition)
  {
  }

  lemma TrimmedApple()
    ensures Trimmed("apple ") == "apple" && Trimmed("a red fruit") != ""
  {
    assert TrimStart("apple ") == "apple ";
    assert "apple "[..5] == "apple";
    assert !IsSpace("a red fruit"[0]);
  }

  /** As written, a trailing space slips past the duplicate check: with
      "apple" stored, addWord("apple ", …) reports success, which the
      corrected check reports as a duplicate. */
  lemma TrailingSpaceReportsSuccess()
    ensures var ws := [WordEntry("apple", "fruit", [], [], "", "", "")];
      StatusAsWritten(ws, "apple ", "a red fruit") == Ok &&
      StatusCorrected(ws, "apple ", "a red fruit") == Duplicate
  {
    var x := WordEntry("apple", "fruit", [], [], "", "", "");
    TrimmedApple();
    assert ForLetter([x], 'a') == [x];
    assert NormalizeKey("apple ") == 'a';
    assert !EqualsIgnoreCase(x.word, "apple ") by {
      assert |Lower(x.word)| != |Lower("apple ")|;
    }
    SoleBucketStatus(x, "apple ", "a red fruit", "apple ");
    SoleBucketStatus(x, "apple ", "a red fruit", "apple");
  }

  /** With one entry in the word's bucket, addWord reports a duplicate
      exactly when the entry matches the probe. */
  lemma SoleBucketStatus(x: WordEntry, word: string, definition: string, probe: string)
    requires Trimmed(word) != "" && Trimmed(definition) != ""
    requires NormalizeKey(word) != '\0' && ForLetter([x], NormalizeKey(word)) == [x]
    ensures StatusWith([x], word, definition, probe) == if EqualsIgnoreCase(x.word, probe) then Duplicate else Ok
  {
    assert [x][0] == x;
  }

  /** …while the entry it stores is dropped as a duplicate, so the store
      and the definition a search reports stay the old ones. */
  lemma TrailingSpaceKeepsOldEntry()
    ensures var ws := [WordEntry("apple", "fruit", [], [], "", "", "")];
      var e := NewEntry("apple ", "a red fruit", "");
      Added(ws, e) == ws && Lookup(Added(ws, e), "apple", false) == "fruit"
  {
    var x := WordEntry("apple", "fruit", [], [], "", "", "");
    var e := NewEntry("apple ", "a red fruit", "");
    TrimmedApple();
    assert e.word == x.word;
    SameWordDropped(x, e);
    assert !IsSpace(x.word[0]);
    SoleEntryFound(x, x.word);
  }

  /** An entry whose word matches the only stored one is dropped. */
  lemma SameWordDropped(x: WordEntry, e: WordEntry)
    requires EqualsIgnoreCase(x.word, e.word)
    ensures Added([x], e) == [x]
  {
    assert [x][0] == x;
  }

  /** A search that matches the only stored entry reports that entry. */
  lemma SoleEntryFound(x: WordEntry, w: string)
    requires !Blank(w) && EqualsIgnoreCase(x.word, w)
    ensures Lookup([x], w, false) == Field(x, false)
  {
    assert [x][0] == x;
  }

  // ------------------------------------------------------------- search

  /** The index of the first entry whose word matches, ignoring case, or -1. */
  function FindFirst(ws: seq<WordEntry>, w: string): (i: int)
    ensures -1 <= i < |ws|
    ensures i == -1 <==> !HasWord(ws, w)
    ensures 0 <= i ==>
      EqualsIgnoreCase(ws[i].word, w) && forall j :: 0 <= j < i ==> !EqualsIgnoreCase(ws[j].word, w)
    decreases |ws|
  {
    if ws == [] then -1
    else if EqualsIgnoreCase(ws[0].word, w) then 0
    else
      var r := FindFirst(ws[1..], w);
      assert forall j :: 1 <= j < |ws| ==> ws[1..][j - 1] == ws[j];
      if r < 0 then -1 else r + 1
  }

  /** The field searchWord and getWordsByLetter report. */
  function Field(e: WordEntry, getTranslation: bool): string {
    if getTranslation then e.translation else e.definition
  }

  /** The result of Function::searchWord. */
  function Lookup(ws: seq<WordEntry>, w: string, getTranslation: bool): (r: string)
    ensures Blank(w) || !HasWord(ws, w) ==> r == ""
    ensures !Blank(w) && HasWord(ws, w) ==>
      exists i :: 0 <= i < |ws| && EqualsIgnoreCase(ws[i].word, w) &&
        (forall j :: 0 <= j < i ==> !EqualsIgnoreCase(ws[j].word, w)) &&
        r == Field(ws[i], getTranslation)
  {
    if Trimmed(w) == "" then ""
    else
      var i := FindFirst(ws, w);
      if i < 0 then "" else Field(ws[i], getTranslation)
  }

  lemma FindFirstAppend(ws: seq<WordEntry>, e: WordEntry, w: string)
    ensures FindFirst(ws + [e], w) == if HasWord(ws, w) then FindFirst(ws, w)
      else if EqualsIgnoreCase(e.word, w) then |ws| else -1
  {
    var r := ws + [e];
    var i := FindFirst(r, w);
    if HasWord(ws, w) {
      var k := FindFirst(ws, w);
      assert r[k] == ws[k];
      assert forall j :: 0 <= j < k ==> r[j] == ws[j];
      assert i <= k;
      assert 0 <= i ==> r[i] == ws[i];
    } else {
      assert forall j :: 0 <= j < |ws| ==> r[j] == ws[j];
      if EqualsIgnoreCase(e.word, w) {
        assert r[|ws|] == e;
      }
    }
  }

  /** Searching after addWord(e) for e's word finds the stored entry when the
      word was already there and e itself otherwise. */
  lemma LookupAfterAdded(ws: seq<WordEntry>, e: WordEntry, getTranslation: bool)
    requires !Blank(e.word)
    ensures Lookup(Added(ws, e), e.word, getTranslation) ==
      if HasWord(ws, e.word) then Lookup(ws, e.word, getTranslation) else Field(e, getTranslation)
  {
    FindFirstAppend(ws, e, e.word);
    assert EqualsIgnoreCase(e.word, e.word);
  }

  /** One (word, translation or definition) pair per entry. */
  function Pairs(ws: seq<WordEntry>, getTranslation: bool): (out: seq<(string, string)>)
    ensures |out| == |ws|
  {
    seq(|ws|, i requires 0 <= i < |ws| => (ws[i].word, Field(ws[i], getTranslation)))
  }

  // ------------------------------------------------ the user's added words

  /** Some string equals w, ignoring case (QStringList::contains). */
  predicate ContainsIgnoreCase(list: seq<string>, w: string) {
    exists i :: 0 <= i < |list| && EqualsIgnoreCase(list[i], w)
  }

  /** The current user's data after addWordEntry records word w: the string
      items of "addedWords", with w appended unless already present. */
  function RecordAdded(data: Object, w: string): Object {
    var list := StringElements(Get(data, "addedWords"));
    if ContainsIgnoreCase(list, w) then data
    else data["addedWords" := Arr(StringsToArray(list + [w]))]
  }

  /** RecordAdded keeps the earlier string items in order, drops the rest,
      and appends w only when it is new. */
  lemma RecordAddedWords(data: Object, w: string)
    ensures var before := StringElements(Get(data, "addedWords"));
      StringElements(Get(RecordAdded(data, w), "addedWords")) ==
        (if ContainsIgnoreCase(before, w) then before else before + [w])
  {
    var before := StringElements(Get(data, "addedWords"));
    if !ContainsIgnoreCase(before, w) {
      StringsOfStrings(before + [w]);
    }
  }

  /** Afterwards the word is listed, and no other key has changed. */
  lemma RecordAddedListsWord(data: Object, w: string)
    ensures ContainsIgnoreCase(StringElements(Get(RecordAdded(data, w), "addedWords")), w)
    ensures forall k :: k != "addedWords" ==> Get(RecordAdded(data, w), k) == Get(data, k)
  {
    var before := StringElements(Get(data, "addedWords"));
    RecordAddedWords(data, w);
    if !ContainsIgnoreCase(before, w) {
      assert (before + [w])[|before|] == w;
      assert EqualsIgnoreCase(w, w);
    }
  }

  /** Read back as a User, the recorded data lists the word among the
      user's added words. */
  lemma RecordAddedUser(data: Object, w: string)
    ensures Users.FromJson(RecordAdded(data, w)).addedWords ==
      var before := Users.FromJson(data).addedWords;
      if ContainsIgnoreCase(before, w) then before else before + [w]
  {
    RecordAddedWords(data, w);
  }

  /** The string items of an array, by the filtering loop. */
  method StringItems(items: seq<Value>) returns (list: seq<string>)
    ensures list == Strings(items)
  {
    list := [];
    var i := 0;
    while i < |items|
      invariant 0 <= i <= |items|
      invariant list == Strings(items[..i])
    {
      assert items[..i + 1][..i] == items[..i];
      if items[i].Str? {
        list := list + [items[i].s];
      }
      i := i + 1;
    }
    assert items[..i] == items;
  }

  /** A string list as a JSON array, by the appending loop. */
  method ToJsonArray(list: seq<string>) returns (arr: seq<Value>)
    ensures arr == StringsToArray(list)
  {
    arr := [];
    var i := 0;
    while i < |list|
      invariant 0 <= i <= |list|
      invariant arr == StringsToArray(list[..i])
    {
      assert list[..i + 1][..i] == list[..i];
      arr := arr + [Str(list[i])];
      i := i + 1;
    }
    assert list[..i] == list;
  }

  /** The duplicate scan of addWord over a letter bucket. */
  method ListHasWord(list: seq<WordEntry>, word: string) returns (found: bool)
    ensures found == HasWord(list, word)
  {
    var i := 0;
    while i < |list|
      invariant 0 <= i <= |list|
      invariant forall j :: 0 <= j < i ==> !EqualsIgnoreCase(list[j].word, word)
    {
      if EqualsIgnoreCase(list[i].word, word) {
        return true;
      }
      i := i + 1;
    }
    return false;
  }

  /** The added-words step of addWordEntry on the user's data object: the
      string items of "addedWords", with the word appended when it is new. */
  method RecordWord(data: Object, w: string) returns (updated: Object, changed: bool)
    ensures changed == !ContainsIgnoreCase(StringElements(Get(data, "addedWords")), w)
    ensures updated == RecordAdded(data, w)
  {
    var addedValue := Get(data, "addedWords");
    var list := [];
    if addedValue.Arr? {
      list := StringItems(addedValue.items);
    }
    updated := data;
    changed := !ContainsIgnoreCase(list, w);
    if changed {
      list := list + [w];
      var arr := ToJsonArray(list);
      updated := data["addedWords" := Arr(arr)];
    }
  }

  // ------------------------------------------------------ comma lists

  /** The splitCsv lambda: the non-empty comma-separated segments, trimmed. */
  function CsvTokens(s: string): (tokens: seq<string>)
    ensures |tokens| == |SplitSkipEmpty(s, ',')|
  {
    var parts := SplitSkipEmpty(s, ',');
    seq(|parts|, i requires 0 <= i < |parts| => Trimmed(parts[i]))
  }

  /** Only zero-length segments are dropped: a whitespace-only segment
      survives as "", every token is trimmed, and there are no tokens
      exactly when the text is commas only. */
  lemma CsvTokensShape(s: string)
    ensures var parts := SplitSkipEmpty(s, ',');
      var tokens := CsvTokens(s);
      (forall k :: 0 <= k < |tokens| ==> tokens[k] == Trimmed(parts[k]) && Trimmed(tokens[k]) == tokens[k]) &&
      (forall k :: 0 <= k < |tokens| ==> (tokens[k] == "" <==> Blank(parts[k]))) &&
      (tokens == [] <==> forall i :: 0 <= i < |s| ==> s[i] == ',')
  {
    var parts := SplitSkipEmpty(s, ',');
    forall k | 0 <= k < |parts| ensures Trimmed(Trimmed(parts[k])) == Trimmed(parts[k]) {
      TrimmedIdempotent(parts[k]);
    }
    SplitSkipEmptyNone(s, ',');
  }

  method SplitCsv(s: string) returns (tokens: seq<string>)
    ensures tokens == CsvTokens(s)
  {
    var parts := SplitSkipEmpty(s, ',');
    tokens := [];
    var i := 0;
    while i < |parts|
      invariant 0 <= i <= |parts|
      invariant tokens == CsvTokens(s)[..i]
    {
      tokens := tokens + [Trimmed(parts[i])];
      i := i + 1;
    }
  }

  /** The entry addWordFromInputs builds: every text trimmed, the two lists
      split on commas. */
  function InputsEntry(word: string, definition: string, translation: string, synonymsCsv: string,
                       antonymsCsv: string, background: string, usage: string): WordEntry {
    WordEntry(Trimmed(word), Trimmed(definition), CsvTokens(synonymsCsv), CsvTokens(antonymsCsv),
              Trimmed(background), Trimmed(usage), Trimmed(translation))
  }

  // ------------------------------------------------------------ the facade

  class Function {
    const store: WordStorage
    const users: UserStorage
    const fs: Disk

    constructor (store: WordStorage, users: UserStorage, fs: Disk)
      ensures this.store == store && this.users == users && this.fs == fs
    {
      this.store := store;
      this.users := users;
      this.fs := fs;
    }

    /** Function::addWord: validates, refuses a duplicate in the word's
        letter bucket and a full bucket, and otherwise appends the trimmed
        entry and saves the store. The duplicate check compares the trimmed
        word, the one that is stored (StatusCorrected). */
    method AddWord(word: string, definition: string, translation: string) returns (status: int)
      modifies store, fs
      ensures status == StatusCorrected(old(store.words), word, definition)
      ensures status != Ok ==> store.words == old(store.words) && fs.files == old(fs.files)
      ensures status == Ok ==>
        store.words == old(store.words) + [NewEntry(word, definition, translation)] &&
        fs.files == (if store.SaveTarget("") == "" then old(fs.files)
          else AfterWrite(old(fs.files), old(fs.locked), store.SaveTarget(""), WordsDocument(store.words)))
      ensures store.path == old(store.path) && fs.locked == old(fs.locked)
    {
      if Trimmed(word) == "" || Trimmed(definition) == "" {
        return Invalid;
      }
      var key := NormalizeKey(word);
      if key == '\0' {
        return Invalid;
      }
      var list := store.WordsForLetter(key);
      var found := ListHasWord(list, Trimmed(word));
      if found {
        return Duplicate;
      }
      if |list| >= MaxPerLetter {
        return Full;
      }
      var entry := NewEntry(word, definition, translation);
      CorrectedAddAppends(old(store.words), word, definition, translation);
      store.AddWord(entry);
      var _ := store.Save(fs, "");
      return Ok;
    }

    /** Function::searchWord: the translation or definition of the first
        entry matching the word, ignoring case; "" for a blank word or no
        match. */
    method SearchWord(word: string, getTranslation: bool) returns (r: string)
      ensures r == Lookup(store.words, word, getTranslation)
    {
      if Trimmed(word) == "" {
        return "";
      }
      var all := store.AllWords();
      var i := 0;
      while i < |all|
        invariant 0 <= i <= |all|
        invariant forall j :: 0 <= j < i ==> !EqualsIgnoreCase(all[j].word, word)
      {
        if EqualsIgnoreCase(all[i].word, word) {
          assert FindFirst(all, word) == i;
          return Field(all[i], getTranslation);
        }
        i := i + 1;
      }
      return "";
    }

    /** Function::getWordsByLetter: the letter's entries in store order,
        each with its translation or definition. */
    method GetWordsByLetter(letter: char, getTranslation: bool) returns (out: seq<(string, string)>)
      ensures out == Pairs(ForLetter(store.words, letter), getTranslation)
    {
      var list := store.WordsForLetter(letter);
      out := [];
      var i := 0;
      while i < |list|
        invariant 0 <= i <= |list|
        invariant out == Pairs(list, getTranslation)[..i]
      {
        out := out + [(list[i].word, Field(list[i], getTranslation))];
        i := i + 1;
      }
    }

    /** Function::addWordEntry: adds the entry, records its word in the
        current user's data (saving that data when it changed), and returns
        the result of saving the word store. */
    method AddWordEntry(entry: WordEntry) returns (ok: bool)
      modifies store, users, fs
      ensures store.words == Added(old(store.words), entry) && store.path == old(store.path)
      ensures users.index == old(users.index) && users.current == old(users.current) &&
        users.indexPath == old(users.indexPath)
      ensures users.current == "" ==> users.cache == old(users.cache)
      ensures users.current != "" ==>
        users.cache == old(users.cache)[users.current := RecordAdded(Cached(old(users.cache), users.current), entry.word)]
      ensures var name := users.current;
        var mid := if name != "" && name in users.index &&
                      !ContainsIgnoreCase(StringElements(Get(Cached(old(users.cache), name), "addedWords")), entry.word)
                   then AfterWrite(old(fs.files), old(fs.locked), UserFile(name), Obj(users.cache[name]))
                   else old(fs.files);
        fs.files == if store.SaveTarget("") == "" then mid
          else AfterWrite(mid, old(fs.locked), store.SaveTarget(""), WordsDocument(store.words))
      ensures ok == (store.SaveTarget("") != "" && store.SaveTarget("") !in old(fs.locked))
      ensures fs.locked == old(fs.locked)
    {
      store.AddWord(entry);
      var name := users.current;
      if name != "" {
        var data, changed := RecordWord(users.CurrentUserData(), entry.word);
        if changed {
          users.UpdateCurrentUserData(data);
          var _ := users.SaveCurrentUserData(fs);
        } else {
          assert name in users.cache;
          assert users.cache == users.cache[name := RecordAdded(Cached(users.cache, name), entry.word)];
        }
      }
      ok := store.Save(fs, "");
    }

    /** Function::addWordFromInputs: refuses a blank word and otherwise adds
        the trimmed entry through addWordEntry. */
    method AddWordFromInputs(word: string, definition: string, translation: string, synonymsCsv: string,
                             antonymsCsv: string, background: string, usage: string) returns (ok: bool)
      modifies store, users, fs
      ensures Blank(word) ==>
        !ok && store.words == old(store.words) && users.cache == old(users.cache) && fs.files == old(fs.files)
      ensures !Blank(word) ==>
        var e := InputsEntry(word, definition, translation, synonymsCsv, antonymsCsv, background, usage);
        store.words == Added(old(store.words), e) &&
        (users.current != "" ==>
          users.cache == old(users.cache)[users.current := RecordAdded(Cached(old(users.cache), users.current), e.word)]) &&
        ok == (store.SaveTarget("") != "" && store.SaveTarget("") !in old(fs.locked))
      ensures !Blank(word) ==>
        var e := InputsEntry(word, definition, translation, synonymsCsv, antonymsCsv, background, usage);
        var name := users.current;
        var mid := if name != "" && name in users.index &&
                      !ContainsIgnoreCase(StringElements(Get(Cached(old(users.cache), name), "addedWords")), e.word)
                   then AfterWrite(old(fs.files), old(fs.locked), UserFile(name), Obj(users.cache[name]))
                   else old(fs.files);
        fs.files == if store.SaveTarget("") == "" then mid
          else AfterWrite(mid, old(fs.locked), store.SaveTarget(""), WordsDocument(store.words))
      ensures users.current == "" ==> users.cache == old(users.cache)
      ensures users.index == old(users.index) && users.current == old(users.current)
      ensures store.path == old(store.path) && fs.locked == old(fs.locked)
    {
      if Trimmed(word) == "" {
        return false;
      }
      var synonyms := SplitCsv(synonymsCsv);
      var antonyms := SplitCsv(antonymsCsv);
      var e := WordEntry(Trimmed(word), Trimmed(definition), synonyms, antonyms,
                         Trimmed(background), Trimmed(usage), Trimmed(translation));
      ok := AddWordEntry(e);
    }
  }
}
