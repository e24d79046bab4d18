/** The logic of the main window (class Gui_Holder, GUI/Gui_Holder.cpp) that
    does not depend on widgets: the initials shown for the signed-in user,
    and what the search, add and browse handlers compute from the entry
    fields before they hand the result to a widget or a message box. */
module GuiHolder {
  import opened Text
  import opened WordEntries
  import opened WordStore
  import opened WordDetail
  import opened Json
  import opened Files
  import opened UserDirectory
  import Facade

  // -------------------------------------------------------------- initials

  /** The words of a name: its simplified form split on spaces, empty parts
      skipped. */
  function NameWords(name: string): (parts: seq<string>)
    ensures forall k :: 0 <= k < |parts| ==> parts[k] != []
  {
    SplitSkipEmpty(Simplified(name), ' ')
  }

  /** initialsFromName: the upper-cased first letters of the first two words
      of the name, or the empty string for a name with no words. */
  function InitialsFromName(name: string): (r: string)
    ensures |r| <= 2
    ensures forall i :: 0 <= i < |r| ==> !('a' <= r[i] <= 'z')
  {
    var parts := NameWords(name);
    if parts == [] then ""
    else [ToUpper(parts[0][0])] + (if |parts| > 1 then [ToUpper(parts[1][0])] else [])
  }

  /** A name has no initials exactly when it is blank. */
  lemma InitialsEmpty(name: string)
    ensures InitialsFromName(name) == "" <==> Blank(name)
  {
    SimplifiedShape(name);
    SplitSkipEmptyNone(Simplified(name), ' ');
  }

  /** The first initial is the upper-cased first visible character of the
      name, however much whitespace comes before it. */
  lemma InitialsFirst(name: string, k: nat)
    requires k < |name| && !IsSpace(name[k]) && forall j :: 0 <= j < k ==> IsSpace(name[j])
    ensures InitialsFromName(name) != "" && InitialsFromName(name)[0] == ToUpper(name[k])
  {
    SimplifiedFirst(name, k);
    SplitSkipEmptyFirst(Simplified(name), ' ');
  }

  /** There are two initials exactly when the name has at least two words;
      further words add nothing. */
  lemma InitialsCount(name: string)
    ensures |InitialsFromName(name)| == 2 <==> |NameWords(name)| >= 2
    ensures |InitialsFromName(name)| == 1 <==> |NameWords(name)| == 1
  {
  }

  // ---------------------------------------------------------------- search

  const NotFound := "Not found"

  /** The text the search handler shows for a found entry: a "Word: " line
      and then the other fields, lists joined with ", ". */
  function Rendered(e: WordEntry): string {
    "Word: " + e.word + RenderedFields(e)
  }

  /** Everything shown after the word itself. */
  function RenderedFields(e: WordEntry): string {
    "\n\n"
    + "Definition: " + e.definition + "\n\n"
    + "Synonyms: " + Join(e.synonyms, ", ") + "\n"
    + "Antonyms: " + Join(e.antonyms, ", ") + "\n\n"
    + "Background: " + e.background + "\n\n"
    + "Usage: " + e.usage + "\n"
  }

  /** The rendered text opens with the entry's word, so different words give
      different texts. */
  lemma RenderedOpensWithWord(e: WordEntry)
    ensures |Rendered(e)| > 6 + |e.word|
    ensures Rendered(e)[..6 + |e.word|] == "Word: " + e.word
  {
    var head := "Word: " + e.word;
    var rest := RenderedFields(e);
    assert |rest| > 0 by {
      assert rest[0] == '\n';
    }
    assert (head + rest)[..|head|] == head;
  }

  /** on_searchWordButton_clicked: nothing happens for a blank key; otherwise
      the first stored entry whose word equals the trimmed key up to case is
      shown, or "Not found" when there is none. */
  method SearchClicked(words: seq<WordEntry>, input: string) returns (shown: Option<string>)
    ensures Blank(input) ==> shown == None
    ensures !Blank(input) && !HasWord(words, Trimmed(input)) ==> shown == Some(NotFound)
    ensures !Blank(input) && HasWord(words, Trimmed(input)) ==>
      exists i :: 0 <= i < |words| && EqualsIgnoreCase(words[i].word, Trimmed(input)) &&
        (forall j :: 0 <= j < i ==> !EqualsIgnoreCase(words[j].word, Trimmed(input))) &&
        shown == Some(Rendered(words[i]))
  {
    var key := Trimmed(input);
    if key == "" {
      return None;
    }
    var i := 0;
    while i < |words|
      invariant 0 <= i <= |words|
      invariant forall j :: 0 <= j < i ==> !EqualsIgnoreCase(words[j].word, key)
    {
      if EqualsIgnoreCase(words[i].word, key) {
        return Some(Rendered(words[i]));
      }
      i := i + 1;
    }
    return Some(NotFound);
  }

  /** The entry the search shows is the one Function::searchWord reads its
      definition from. */
  lemma SearchShowsLookedUpEntry(words: seq<WordEntry>, key: string, i: nat)
    requires key != [] && Trimmed(key) == key
    requires i < |words| && EqualsIgnoreCase(words[i].word, key)
    requires forall j :: 0 <= j < i ==> !EqualsIgnoreCase(words[j].word, key)
    ensures Facade.Lookup(words, key, false) == words[i].definition
  {
    var k := Facade.FindFirst(words, key);
    assert !(k < i);
    assert !(k > i);
  }

  // ------------------------------------------------------------------- add

  /** The six fields of the add form. */
  datatype AddInputs = AddInputs(word: string, definition: string, synonyms: string,
                                 antonyms: string, background: string, usage: string)

  /** The validation step of on_addWordButton_clicked: every field trimmed,
      and no request at all when the word is blank. */
  function AddRequest(word: string, definition: string, synonyms: string, antonyms: string,
                      background: string, usage: string): (r: Option<AddInputs>)
    ensures r.None? <==> Blank(word)
    ensures r.Some? ==> r.value.word != [] && !IsSpace(r.value.word[0]) && !IsSpace(r.value.word[|r.value.word| - 1])
    ensures r.Some? ==>
      Trimmed(r.value.word) == r.value.word && Trimmed(r.value.definition) == r.value.definition &&
      Trimmed(r.value.background) == r.value.background && Trimmed(r.value.usage) == r.value.usage
    ensures r.Some? ==>
      r.value.word == Trimmed(word) && r.value.definition == Trimmed(definition) &&
      r.value.synonyms == Trimmed(synonyms) && r.value.antonyms == Trimmed(antonyms) &&
      r.value.background == Trimmed(background) && r.value.usage == Trimmed(usage)
  {
    TrimmedIdempotent(word);
    TrimmedIdempotent(definition);
    TrimmedIdempotent(background);
    TrimmedIdempotent(usage);
    var w := Trimmed(word);
    if w == "" then None
    else Some(AddInputs(w, Trimmed(definition), Trimmed(synonyms), Trimmed(antonyms), Trimmed(background), Trimmed(usage)))
  }

  /** The message box the add handler ends with. */
  datatype AddMessage = MissingWord | WordAdded | AddFailed

  /** on_addWordButton_clicked: a blank word is refused before the facade is
      called; otherwise the trimmed fields go to addWordFromInputs with no
      translation, and the message reports its result. */
  method AddWordClicked(f: Facade.Function, word: string, definition: string, synonyms: string,
                        antonyms: string, background: string, usage: string) returns (msg: AddMessage)
    modifies f.store, f.users, f.fs
    ensures Blank(word) ==>
      msg == MissingWord && f.store.words == old(f.store.words) &&
      f.users.cache == old(f.users.cache) && f.fs.files == old(f.fs.files)
    ensures !Blank(word) ==>
      var e := Facade.InputsEntry(word, definition, "", Trimmed(synonyms), Trimmed(antonyms), background, usage);
      f.store.words == Added(old(f.store.words), e) &&
      (msg == WordAdded <==> f.store.SaveTarget("") != "" && f.store.SaveTarget("") !in old(f.fs.locked)) &&
      (msg == WordAdded || msg == AddFailed)
    ensures !Blank(word) && f.users.current != "" ==>
      var e := Facade.InputsEntry(word, definition, "", Trimmed(synonyms), Trimmed(antonyms), background, usage);
      f.users.cache == old(f.users.cache)[f.users.current :=
        Facade.RecordAdded(Cached(old(f.users.cache), f.users.current), e.word)]
    ensures !Blank(word) ==>
      var e := Facade.InputsEntry(word, definition, "", Trimmed(synonyms), Trimmed(antonyms), background, usage);
      var name := f.users.current;
      var mid := if name != "" && name in f.users.index &&
                    !Facade.ContainsIgnoreCase(StringElements(Get(Cached(old(f.users.cache), name), "addedWords")), e.word)
                 then AfterWrite(old(f.fs.files), old(f.fs.locked), UserFile(name), Obj(f.users.cache[name]))
                 else old(f.fs.files);
      f.fs.files == if f.store.SaveTarget("") == "" then mid
        else AfterWrite(mid, old(f.fs.locked), f.store.SaveTarget(""), WordsDocument(f.store.words))
    ensures f.users.current == "" ==> f.users.cache == old(f.users.cache)
    ensures f.users.index == old(f.users.index) && f.users.current == old(f.users.current)
  {
    var request := AddRequest(word, definition, synonyms, antonyms, background, usage);
    if request.None? {
      return MissingWord;
    }
    var r := request.value;
    TrimmedIdempotent(word);
    TrimmedIdempotent(definition);
    TrimmedIdempotent(background);
    TrimmedIdempotent(usage);
    var ok := f.AddWordFromInputs(r.word, r.definition, "", r.synonyms, r.antonyms, r.background, r.usage);
    msg := if ok then WordAdded else AddFailed;
  }

  // ---------------------------------------------------------------- browse

  /** One row of the browse list: its text and the word stored with it. */
  function BrowseItem(e: WordEntry): (string, string) {
    (e.word + " - " + e.definition, e.word)
  }

  /** The loop of on_letterComboBox_currentIndexChanged: one row per entry,
      in the order the store lists them. */
  method BrowseItems(list: seq<WordEntry>) returns (items: seq<(string, string)>)
    ensures |items| == |list|
    ensures forall i :: 0 <= i < |list| ==> items[i] == BrowseItem(list[i])
  {
    items := [];
    for i := 0 to |list|
      invariant |items| == i
      invariant forall j :: 0 <= j < i ==> items[j] == BrowseItem(list[j])
    {
      items := items + [BrowseItem(list[i])];
    }
  }

  /** Every row's text starts with the word stored with it, followed by " - ". */
  lemma BrowseItemShape(e: WordEntry)
    ensures BrowseItem(e).0[..|e.word|] == BrowseItem(e).1
    ensures BrowseItem(e).0[|e.word|..|e.word| + 3] == " - "
  {
    var t := e.word + " - " + e.definition;
    assert t == e.word + (" - " + e.definition);
  }

  /** on_letterComboBox_currentIndexChanged: nothing for a negative index;
      otherwise the rows for the entries filed under the first character of
      the selected item's text. */
  method LetterChanged(store: WordStorage, index: int, itemText: string)
    returns (rows: Option<seq<(string, string)>>)
    requires index < 0 || itemText != ""
    ensures index < 0 ==> rows == None
    ensures index >= 0 ==>
      rows.Some? && |rows.value| == |ForLetter(store.words, itemText[0])| &&
      forall i :: 0 <= i < |rows.value| ==> rows.value[i] == BrowseItem(ForLetter(store.words, itemText[0])[i])
  {
    if index < 0 {
      return None;
    }
    var list := store.WordsForLetter(itemText[0]);
    var items := BrowseItems(list);
    return Some(items);
  }

  /** Each row names a stored entry filed under the selected letter, whatever
      its case. */
  lemma BrowseRowsBelong(ws: seq<WordEntry>, letter: char, i: nat)
    requires i < |ForLetter(ws, letter)|
    ensures letter != '\0'
    ensures ForLetter(ws, letter)[i] in ws
    ensures BrowseItem(ForLetter(ws, letter)[i]).1 != []
    ensures ToLower(BrowseItem(ForLetter(ws, letter)[i]).1[0]) == ToLower(letter)
  {
    ForLetterMembers(ws, letter);
    assert ForLetter(ws, letter)[i] in ForLetter(ws, letter);
  }
}
