# A verified model of the DSA-PROJECT dictionary core

DSA-PROJECT is a Qt desktop dictionary with English entries and Tagalog
translations. Underneath its widgets there is a small amount of logic, and this
project models it in Dafny:

- **The word store** (`WordStorage`). An ordered sequence of `WordEntry`
  records, kept case-insensitively duplicate-free by `addWord`. It also covers
  the per-letter listing, the fill-in step that completes the built-in entries,
  and the load/save cycle to a `words.json` array.
- **The operation facade** (`Function`). The status-coded `addWord`
  (0 ok, 1 invalid, 2 bucket full at 30, 3 duplicate), `searchWord`,
  `getWordsByLetter`, `addWordEntry` and `addWordFromInputs`. `addWordEntry`
  also records the word in the signed-in user's data. `addWordFromInputs`
  uses the `splitCsv` helper.
- **The user directory** (`UserStorage`). An index map and a data cache, both
  keyed by user name, plus the current user. It covers the add, remove and
  set-current guards, the per-user data files, and the index file. `User`
  records map to and from JSON.
- **The word detail window's translation parser** (`parseTranslation`). It
  reads the "Kasingkahulugan:/Kasalungat:/Halimbawa:" markers in an entry's
  translation. Beside it is the rule that decides what the window shows when
  it is switched to Tagalog.
- **The main window's non-widget logic.** This covers `initialsFromName`, the
  search result text, the add form's validation, and the browse list for a
  letter.

The Qt singletons become objects that are passed in. The facade holds the word
store, the user directory and the file system it works on.

The file system is a `Disk` with two parts. `files` maps each path to its
content, which is either a JSON document or text that does not parse.
`locked` is the set of paths that `QFile::open` cannot open. JSON values are
an abstract datatype.

Text is ASCII: `QChar::isSpace`, `isLetter`, `toLower` and `toUpper` are
modelled over ASCII, and so are `QString::trimmed`, `simplified`, `split`,
`section` and case-insensitive comparison. QMap key order is the code-unit
order of the names.

Modules and files:

| file | module | models |
|---|---|---|
| text.dfy | `Text` | the QString operations used |
| json.dfy | `Json` | QJsonValue/Object/Array, `toString`, `toArray`, `toInt` |
| files.dfy | `Files` | QFile reads, writes and removes, as a path map |
| word_entry.dfy | `WordEntries` | `WordEntry` and its JSON mapping |
| word_storage.dfy | `WordStore` | class `WordStorage` |
| function.dfy | `Facade` | class `Function` |
| user.dfy | `Users` | `User` and its JSON mapping |
| user_storage.dfy | `UserDirectory` | class `UserStorage` |
| word_detail.dfy | `WordDetail` | `parseTranslation` and the Tagalog view |
| gui_holder.dfy | `GuiHolder` | the main window handlers' logic |

Code that updates state in place is modelled as classes whose methods change
their fields and the `Disk`. Each such method is proved against a function of
the old state. Code that only computes is modelled as functions. The source's
loops are modelled as methods whose loops carry their invariants: the merge in
`load`, `wordsForLetter`, the duplicate scan of `addWord`, the index loops, the
`parseTranslation` pass, and the search and browse loops.

## Model

| member | source | states |
|---|---|---|
| Files.Disk.Write | Word_Files/Word_Storage.cpp:61-64 | A write succeeds exactly when the path can be opened. The path then holds the document, and every other path is unchanged. |
| WordEntries.ToJson | Word_Files/Word_Storage.h:20-32 | The object has exactly the keys word, definition, synonyms, antonyms, background, usage and translation. |
| WordEntries.JsonArrayToStringList | Word_Files/Word_Storage.h:34-39 | Same length as the array, and element i is the string value of element i. |
| WordEntries.StringListRoundTrip | Word_Files/Word_Storage.h:24-39 | A string list written as an array reads back unchanged, order included. |
| WordEntries.RoundTrip | Word_Files/Word_Storage.h:20-51 | fromJson(toJson(e)) == e for every entry, with synonym and antonym order kept. |
| WordEntries.FromJson | Word_Files/Word_Storage.h:33-51 | A string word is read as itself. A word, or a translation, that is missing or not a string reads as "". Each list has one item per element of the array, and none when the value is not an array. |
| WordEntries.FromJsonMissing | Word_Files/Word_Storage.h:41-51 | Each key missing from the object reads as the empty string or the empty list. |
| WordStore.AddedProperties | Word_Files/Word_Storage.cpp:69-75 | addWord keeps the old entries as a prefix and grows by at most one. Afterwards the word is present. The store is unchanged iff some stored word equals it ignoring case. Distinct words stay distinct. |
| WordStore.WordStorage.AddWord | Word_Files/Word_Storage.cpp:69-75 | The new store is `Added(old, entry)`, and the path is unchanged. |
| WordStore.WordStorage.AllWords | Word_Files/Word_Storage.cpp:77 | Returns the entries in store order. |
| WordStore.WordStorage.Empty | Word_Files/Word_Storage.h:65 | True iff the store holds no entry. |
| WordStore.WordStorage.WordsForLetter | Word_Files/Word_Storage.cpp:79-90 | The loop's output is the reference filter `ForLetter(words, letter)`. |
| WordStore.ForLetterMembers | Word_Files/Word_Storage.cpp:79-90 | A null letter gives nothing. Otherwise an entry is listed iff it is stored, its word is non-empty, and its first character lower-cases to the letter lower-cased. |
| WordStore.ForLetterAppend | Word_Files/Word_Storage.cpp:85-88 | Filtering keeps store order: the filter of a concatenation is the concatenation of the filters. |
| WordStore.ForLetterIgnoresCase | Word_Files/Word_Storage.cpp:84 | Two letters with the same lower case, such as 'b' and 'B', give the same list. |
| WordStore.FilledComplete | Word_Files/Word_Storage.cpp:1003-1024 | After the fill-in step, definition and background trim to non-empty, and trimmed usage differs from trimmed definition. Word, lists and translation are untouched. |
| WordStore.FilledUsage | Word_Files/Word_Storage.cpp:1010-1018 | A usage that was blank or a copy of the definition is rewritten, and the new usage no longer trims to the definition. |
| WordStore.SeededDistinct | Word_Files/Word_Storage.cpp:1003-1024 | The fill-in step neither adds, drops nor renames entries, so built-in words are distinct after it iff they were before. |
| WordStore.WordStorage.InsertInitialWords | Word_Files/Word_Storage.cpp:92-1024 | The store becomes the built-in entries after the fill-in step, one per built-in entry, in order. |
| WordStore.MergeFileIsFirstOccurrences | Word_Files/Word_Storage.cpp:35-48 | The merge loop equals the reference definition: the kept entries, then each object element whose word no kept entry has and no earlier object had. |
| WordStore.FirstOccurrencesFresh | Word_Files/Word_Storage.cpp:40-47 | Every appended entry is case-insensitively new to the kept entries and to the entries appended before it, so a distinct store stays distinct. |
| WordStore.MergeFileProperties | Word_Files/Word_Storage.cpp:35-48 | The seed stays first and wins, non-objects are dropped, and the store grows by at most the number of file elements. Every object's word ends up present. Distinctness is kept. |
| WordStore.WordStorage.MergeEntries | Word_Files/Word_Storage.cpp:35-48 | The nested loop with its `exists` flag computes `MergeFile(old words, items)`. |
| WordStore.WordStorage.Load | Word_Files/Word_Storage.cpp:10-50 | An empty path becomes "words.json". The store starts as the built-in entries. A missing file is created by a save. An unreadable file or a non-array document returns false with just the built-in entries. Otherwise the file's array is merged in and load returns true. |
| WordStore.WordStorage.Save | Word_Files/Word_Storage.cpp:52-67 | Fails when both the argument and the stored path are empty. Otherwise it writes one toJson object per entry, in store order, and returns whether the file opened. |
| WordStore.SaveLoadRoundTrip | Word_Files/Word_Storage.cpp:35-58 | Take a distinct store that starts with the built-in entries. Merging back the array that save writes gives the same store. |
| Facade.NormalizeKey | Function_Files/Function.cpp:6-11 | '\0' iff the word is empty or starts with a non-letter. Otherwise it is the lower-cased first character, a letter a..z. |
| Facade.StatusAsWritten | Function_Files/Function.cpp:13-24 | The status is one of the four codes. It is a duplicate iff the input is valid and the letter bucket holds a match for the untrimmed word. |
| Facade.StatusCases | Function_Files/Function.cpp:13-24 | The four outcomes and their order. Invalid iff the trimmed word or definition is blank or the first character is not a letter. Then duplicate iff the bucket holds a match, even a full bucket. Then full iff the bucket has at least 30 entries. Otherwise ok. |
| Facade.StatusAgreesOnTrimmedWords | Function_Files/Function.cpp:18-27 | For a word without surrounding whitespace, the check as written and the corrected check give the same status. |
| Facade.TrailingSpaceReportsSuccess | Function_Files/Function.cpp:18-21 | With "apple" stored, the check as written gives 0 for "apple ", and the corrected check gives 3. |
| Facade.TrailingSpaceKeepsOldEntry | Function_Files/Function.cpp:26-30 | In that case the trimmed entry is dropped as a duplicate, and a search still reports the old definition. |
| Facade.CorrectedAddAppends | Function_Files/Function.cpp:26-31 | Under the corrected check, status 0 means the new entry is appended. Its bucket stays within 30, and every other letter's bucket is unchanged. |
| Facade.ListHasWord | Function_Files/Function.cpp:19-21 | The duplicate scan finds a match iff some bucket entry equals the word ignoring case. |
| Facade.Function.AddWord | Function_Files/Function.cpp:13-33 | The status is that of the corrected check. Any status but 0 leaves the store and files alone. Status 0 appends the trimmed word, definition and translation with empty other fields, and saves. |
| Facade.FindFirst | Function_Files/Function.cpp:38-42 | -1 iff no entry matches. Otherwise the index of a match with no match before it. |
| Facade.Lookup | Function_Files/Function.cpp:35-44 | "" for a blank word or no match. Otherwise the translation or definition of the first case-insensitive match in store order. |
| Facade.LookupAfterAdded | Function_Files/Function.cpp:35-44 | After addWord(e), searching for e's word gives the old result if the word was stored, and e's own field if it was not. |
| Facade.Function.SearchWord | Function_Files/Function.cpp:35-44 | The early-return loop computes `Lookup(words, word, flag)`. |
| Facade.Function.GetWordsByLetter | Function_Files/Function.cpp:46-54 | One (word, translation or definition) pair per wordsForLetter entry, in the same order. |
| Facade.StringItems | Function_Files/Function.cpp:66-69 | The filtering loop keeps exactly the string elements, in order. |
| Facade.ToJsonArray | Function_Files/Function.cpp:74-75 | The appending loop writes each string as a JSON string, in order. |
| Facade.RecordAddedWords | Function_Files/Function.cpp:62-76 | The user's added words keep their old string items in order and lose non-strings. They gain the word at the end only if it was not already listed, ignoring case. |
| Facade.RecordAddedListsWord | Function_Files/Function.cpp:71-76 | Afterwards the word is listed, and every key other than addedWords is unchanged. |
| Facade.RecordAddedUser | Function_Files/Function.cpp:62-76 | Read back as a User, the data lists the old added words followed by the word, unless the word was already present. |
| Facade.RecordWord | Function_Files/Function.cpp:62-76 | The loops compute `RecordAdded`, and they report a change iff the word was not listed. |
| Facade.Function.AddWordEntry | Function_Files/Function.cpp:56-84 | The entry is added to the store. With no current user nothing else changes. Otherwise only the current user's cache entry changes, as RecordAdded. The result is that of the final save. |
| Facade.CsvTokensShape | Function_Files/Function.cpp:101-105 | Only zero-length segments are dropped: each token is its trimmed segment, a whitespace-only segment becomes "", and there are no tokens iff the text is all commas. |
| Facade.SplitCsv | Function_Files/Function.cpp:101-105 | The lambda's loop computes `CsvTokens(s)`. |
| Facade.Function.AddWordFromInputs | Function_Files/Function.cpp:86-113 | A blank word returns false with both stores and the files untouched. Otherwise the store holds the trimmed, CSV-split entry as addWord leaves it. The signed-in user's cached data records the word. The files are those addWordEntry leaves: the user's file is rewritten when the word is new to their list, then the word file. The result is true iff the word file was written. |
| Users.ToJson | User_Files/User.h:17-31 | The object has exactly the keys name, age, addedWords and recentSearches, with arrays as long as the lists. |
| Users.RoundTrip | User_Files/User.h:17-54 | fromJson(toJson(u)) == u for every user, list order included. |
| Users.FromJsonFields | User_Files/User.h:34-54 | A missing age reads as 0 and a missing name as "". A list that is not an array reads as empty. Otherwise a list keeps the array's string elements in order. |
| Users.FromJsonIgnoresOtherKeys | User_Files/User.h:34-54 | Two objects that agree on the four keys give the same user. |
| Users.CreatedBlob | User_Files/UserStorage.cpp:82-84 | The {created: true} blob of a name-only user reads as name "", age 0 and empty lists. |
| Json.ToInt | User_Files/User.h:37 | A number that fits an int reads as itself. A number out of the int range, and anything that is not a number, reads as the default. |
| Users.FromJson | User_Files/User.h:34-54 | A string name reads as itself, and an age that fits an int as that number. Each list holds at most as many items as the array has elements. |
| Json.StringsOfMixed | User_Files/User.h:39-51 | The filter keeps each string element in place and drops each other element. |
| UserDirectory.UserFile | User_Files/UserStorage.cpp:143 | A user's file is "users/" + name + ".json". |
| UserDirectory.IndexFromLast | User_Files/UserStorage.cpp:28-35 | A name is indexed iff some object element carries it as a non-empty "username". Its entry is the last such element, so later duplicates overwrite earlier ones. |
| UserDirectory.IndexFromWellKeyed | User_Files/UserStorage.cpp:29-35 | Whatever the array holds, every indexed name is non-empty and is its entry's own username. |
| UserDirectory.Emitted | User_Files/UserStorage.cpp:46-48 | The object save writes is never empty, and an entry that is not empty is written unchanged. |
| UserDirectory.KeysInOrder | User_Files/UserStorage.cpp:45 | Picking the least remaining name yields the keys in QMap order. |
| UserDirectory.EntriesLoop | User_Files/UserStorage.cpp:44-49 | The save loop builds one emitted object per name, in the given order. |
| UserDirectory.SaveLoadRoundTrip | User_Files/UserStorage.cpp:28-51 | When the index is well keyed, loading the document save writes gives back the same index. |
| UserDirectory.UserStorage.HasUser | User_Files/UserStorage.cpp:69-72 | True iff the name is among the names users() returns. |
| UserDirectory.UserStorage.UserNames | User_Files/UserStorage.cpp:63-66 | Returns the indexed names in strictly ascending order, each name once. |
| UserDirectory.UserStorage.CurrentUserData | User_Files/UserStorage.cpp:182-185 | Returns the current user's cached object, or {} when there is none. |
| UserDirectory.UserStorage.Load | User_Files/UserStorage.cpp:12-37 | The path is stored and the index cleared. Cache and current user are kept, so the current user can be left pointing outside the index. A missing file is created by a save. An unreadable file or a non-object document returns false with an empty index. Otherwise the index loop runs and load returns true. |
| UserDirectory.UserStorage.IndexEntries | User_Files/UserStorage.cpp:44-51 | The document built is `IndexDocument(index)`: the emitted entries in name order. |
| UserDirectory.UserStorage.Save | User_Files/UserStorage.cpp:40-60 | With no path, save fails and writes nothing. Otherwise it writes the index document and returns whether the file opened. |
| UserDirectory.UserStorage.SaveUserData | User_Files/UserStorage.cpp:160-172 | False and nothing written for a name not in the index. Otherwise the cached object, or {}, is written to the user's file. |
| UserDirectory.UserStorage.SaveCurrentUserData | User_Files/UserStorage.cpp:175-179 | False with no current user. Otherwise it does what saveUserData does for the current user. |
| UserDirectory.UserStorage.AddUser | User_Files/UserStorage.cpp:75-89 | Fails without change for an empty or existing name. On success the index gains name -> {username: name} and the cache gains name -> {created: true}, then the files are written. The current user is unchanged, and the valid-current and well-keyed invariants are kept. |
| UserDirectory.UserStorage.AddUserRecord | User_Files/UserStorage.cpp:92-111 | Same guards on the user's name. On success the cache entry is exactly `User.toJson`, and the index entry is {username: name}. |
| UserDirectory.UserStorage.RemoveUser | User_Files/UserStorage.cpp:114-123 | False for an absent name. Otherwise the name leaves both maps, and no other user's entries change. The current user is cleared iff it was that name. The index is saved and the user's file removed. |
| UserDirectory.UserStorage.LoadUserData | User_Files/UserStorage.cpp:140-157 | False for a name not in the index. A missing file caches {} and writes it. An unreadable file or a non-object document returns false with the cache unchanged. Otherwise the document is cached. |
| UserDirectory.UserStorage.SetCurrentUser | User_Files/UserStorage.cpp:126-131 | Fails, with the current user unchanged, for a name not in the index. Otherwise the current user is set before loading, so it stays set even when loading returns false. The result and the new cache and files are those of loadUserData: a missing file caches {} and writes it, a locked file or a non-object document fails with the cache unchanged, and otherwise the document is cached. |
| UserDirectory.UserStorage.UpdateCurrentUserData | User_Files/UserStorage.cpp:188-192 | No-op with no current user. Otherwise only the current user's cache entry is replaced. |
| WordDetail.ParseTranslation | GUI/WordDetailWindow.cpp:123-160 | The lambda returns `Parsed(t)`. |
| WordDetail.ScanLines | GUI/WordDetailWindow.cpp:133-150 | The loop leaves in each marker variable the value of the last line of that kind, and in `pending` exactly the unmarked lines in order. |
| WordDetail.EmptyInput | GUI/WordDetailWindow.cpp:130 | The empty translation parses to five empty strings. |
| WordDetail.BlankLineIsPlain | GUI/WordDetailWindow.cpp:133-136 | A whitespace-only segment becomes an empty unmarked line. |
| WordDetail.LastLineIsLast | GUI/WordDetailWindow.cpp:137-146 | A marker's value comes from its last line, so a later line of the same kind overwrites an earlier one. |
| WordDetail.LastValueOfLastLine | GUI/WordDetailWindow.cpp:139-146 | The kept value is the trimmed text after the first ':' of that last line, or "" without a ':'. |
| WordDetail.UnmarkedMembers | GUI/WordDetailWindow.cpp:147-149 | A text is pending iff it is an unmarked line. |
| WordDetail.BackgroundNeedsTwoLines | GUI/WordDetailWindow.cpp:152-157 | With fewer than two unmarked lines the background is empty. |
| WordDetail.ParsedFour | GUI/WordDetailWindow.cpp:133-157 | A definition line followed by synonym, antonym and example lines parses to that definition, the three values and no background. |
| WordDetail.SeededForm | GUI/WordDetailWindow.cpp:133-157 | Any translation of the built-in form "definition, then the three marked lines" parses back to its four pieces. |
| WordDetail.AbandonTranslation | Word_Files/Word_Storage.cpp:100 | The built-in "Abandon" translation parses to definition "Iwan", its three marked values and an empty background. |
| WordDetail.Prefer | GUI/WordDetailWindow.cpp:192-196 | The parsed part when non-empty, else the English original. |
| WordDetail.TagalogView | GUI/WordDetailWindow.cpp:185-201 | The window switches iff some parsed part is non-empty. |
| WordDetail.TagalogFallback | GUI/WordDetailWindow.cpp:191-201 | Each field falls back to English on its own. The title becomes the parsed definition only when that is non-empty. |
| WordDetail.NoTranslationNoSwitch | GUI/WordDetailWindow.cpp:186-190 | An entry without a translation never switches. |
| GuiHolder.InitialsFromName | GUI/Gui_Holder.cpp:14-21 | At most two characters, none of them a lower-case letter. |
| GuiHolder.InitialsEmpty | GUI/Gui_Holder.cpp:15-16 | No initials iff the name is blank. |
| GuiHolder.InitialsFirst | GUI/Gui_Holder.cpp:17-18 | The first initial is the upper-cased first visible character of the name. |
| GuiHolder.InitialsCount | GUI/Gui_Holder.cpp:17-20 | Two initials iff the name has at least two words, and one iff it has exactly one. |
| GuiHolder.SearchClicked | GUI/Gui_Holder.cpp:349-371 | A blank key shows nothing. Otherwise it shows the text of the first stored entry equal to the trimmed key ignoring case, or "Not found" when there is none. |
| GuiHolder.RenderedOpensWithWord | GUI/Gui_Holder.cpp:359-365 | The shown text opens with "Word: " and the entry's word. |
| GuiHolder.SearchShowsLookedUpEntry | GUI/Gui_Holder.cpp:357-359 | The entry the handler shows is the one whose definition Function::searchWord returns for the same key. |
| GuiHolder.AddRequest | GUI/Gui_Holder.cpp:321-332 | No request iff the word is blank. Otherwise each of the six fields is the trimmed input field. The word is non-empty with visible ends. |
| GuiHolder.AddWordClicked | GUI/Gui_Holder.cpp:319-346 | A blank word gives `MissingWord` with nothing changed. Otherwise the trimmed fields, with an empty translation, go through addWordFromInputs. The store, the signed-in user's cached data and the files end up as addWordFromInputs leaves them. The message is `WordAdded` iff the word file was written, and `AddFailed` otherwise. |
| GuiHolder.BrowseItems | GUI/Gui_Holder.cpp:380-386 | One row per entry, in order, with text word + " - " + definition and data the word. |
| GuiHolder.BrowseItemShape | GUI/Gui_Holder.cpp:382-383 | A row's text starts with its stored word followed by " - ". |
| GuiHolder.LetterChanged | GUI/Gui_Holder.cpp:374-387 | A negative index does nothing. Otherwise the rows are those of wordsForLetter for the item's first character. |
| GuiHolder.BrowseRowsBelong | GUI/Gui_Holder.cpp:378-386 | Each row's word is a stored word whose first character matches the letter, ignoring case. |

## Left out

- **Opening files.** File contents and open failures form an abstract `Disk`. `QFile::exists`, `open`, `readAll` and `write` become map lookups and updates, and the `locked` set stands for paths that cannot be opened. `QDir::mkpath` is not modelled, because directories play no part in the results.
- **JSON text.** Parsing and printing JSON text are not modelled: a file either holds a document or text that does not parse. JSON numbers are integers only, because the core reads nothing but `age` as a number.
- **Singletons.** The `instance()` singletons are replaced by objects handed to the facade.
- **Built-in dictionary text.** The text of the built-in dictionary (Word_Files/Word_Storage.cpp:95-999) is a constant the store is given. Only the fill-in step after it is modelled. The one built-in translation parsed here is that of "Abandon".
- **Unicode.** Case folding, `isSpace` and `isLetter` cover ASCII only. Non-ASCII letters count as non-letters.
- **Memory.** The model has no aliasing. The stores are distinct objects, and QVector copy-on-write is value semantics.
- **Widget side effects.** The handlers' widget effects are not modelled: message boxes, clearing the add form, `setPlainText`, list items, window titles, tool tips, and the toggle's `static bool showingTagalog`. Only the values they display are modelled.
- **Other windows and startup.** GUI/UserProfileWindow.cpp, GUI/AboutWindow.cpp, GUI/LoadingScreen.cpp, User_Files/UserDialog.cpp and Main.cpp are not part of this model. They hold widget code, timers and floating-point progress.
- **Translated strings.** The `tr()` lookups are modelled as their English source strings.
- Facade.Function.AddWord: stated with the duplicate check on the trimmed word. The source compares the untrimmed word; see Findings, where Facade.StatusAsWritten models the source as written.

## Findings

| source | as written | input that shows it | evidently intended | confidence | as-written member | corrected member |
|---|---|---|---|---|---|---|
| Function_Files/Function.cpp:20 | The duplicate check compares the letter bucket with the untrimmed `word`, but line 27 stores `word.trimmed()`. | With "apple" stored, `addWord("apple ", "a red fruit", "")` returns 0. `WordStorage::addWord` then silently drops the trimmed "apple", so the store and the search results keep the old entry. | Report 3 (duplicate) for any word that trims to a stored word, so that 0 always means the entry was appended. | not executed | Facade.TrailingSpaceReportsSuccess | Facade.CorrectedAddAppends |
