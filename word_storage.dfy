/** The in-memory word store (class WordStorage, Word_Files/Word_Storage.cpp):
    a sequence of entries kept free of case-insensitive duplicates, filtered
    by first letter, merged with the built-in entries on load and written as
    a JSON array on save. */
module WordStore {
  import opened Text
  import opened Json
  import opened Files
  import opened WordEntries

  // ------------------------------------------------------------ word keys

  /** Some stored entry has this word, ignoring case. */
  predicate HasWord(ws: seq<WordEntry>, w: string) {
    exists i :: 0 <= i < |ws| && EqualsIgnoreCase(ws[i].word, w)
  }

  /** No two stored entries have the same word, ignoring case. */
  predicate DistinctWords(ws: seq<WordEntry>) {
    forall i, j :: 0 <= i < j < |ws| ==> !EqualsIgnoreCase(ws[i].word, ws[j].word)
  }

  /** The store after WordStorage::addWord(e). */
  function Added(ws: seq<WordEntry>, e: WordEntry): seq<WordEntry> {
    if HasWord(ws, e.word) then ws else ws + [e]
  }

  /** addWord keeps the earlier entries, grows by at most one entry, always
      ends up holding the word, and keeps a duplicate-free store
      duplicate-free. */
  lemma AddedProperties(ws: seq<WordEntry>, e: WordEntry)
    ensures |ws| <= |Added(ws, e)| <= |ws| + 1 && Added(ws, e)[..|ws|] == ws
    ensures HasWord(Added(ws, e), e.word)
    ensures Added(ws, e) == ws <==> HasWord(ws, e.word)
    ensures DistinctWords(ws) ==> DistinctWords(Added(ws, e))
  {
    var r := Added(ws, e);
    if !HasWord(ws, e.word) {
      assert r[|ws|] == e;
      assert |r| != |ws|;
    }
  }

  // ------------------------------------------------------- letter buckets

  /** The entry is listed under the (already lower-cased) letter L. */
  predicate UnderLetter(e: WordEntry, L: char) {
    e.word != [] && ToLower(e.word[0]) == L
  }

  function FilterLetter(ws: seq<WordEntry>, L: char): seq<WordEntry>
    decreases |ws|
  {
    if ws == [] then []
    else
      var last := ws[|ws| - 1];
      FilterLetter(ws[..|ws| - 1], L) + (if UnderLetter(last, L) then [last] else [])
  }

  /** The result of WordStorage::wordsForLetter(letter). */
  function ForLetter(ws: seq<WordEntry>, letter: char): seq<WordEntry> {
    if letter == '\0' then [] else FilterLetter(ws, ToLower(letter))
  }

  lemma {:induction false} FilterLetterAppend(a: seq<WordEntry>, b: seq<WordEntry>, L: char)
    ensures FilterLetter(a + b, L) == FilterLetter(a, L) + FilterLetter(b, L)
    decreases |b|
  {
    if b == [] {
      assert a + b == a;
    } else {
      var b' := b[..|b| - 1];
      assert (a + b)[..|a + b| - 1] == a + b';
      FilterLetterAppend(a, b', L);
    }
  }

  lemma {:induction false} FilterLetterMembers(ws: seq<WordEntry>, L: char)
    ensures forall e :: e in FilterLetter(ws, L) <==> e in ws && UnderLetter(e, L)
    ensures |FilterLetter(ws, L)| <= |ws|
    decreases |ws|
  {
    if ws != [] {
      var init := ws[..|ws| - 1];
      FilterLetterMembers(init, L);
      assert ws == init + [ws[|ws| - 1]];
    }
  }

  /** wordsForLetter returns exactly the entries whose word is non-empty and
      starts with the letter in either case, and none for the null letter. */
  lemma ForLetterMembers(ws: seq<WordEntry>, letter: char)
    ensures letter == '\0' ==> ForLetter(ws, letter) == []
    ensures letter != '\0' ==> forall e :: e in ForLetter(ws, letter) <==>
      e in ws && e.word != [] && ToLower(e.word[0]) == ToLower(letter)
    ensures |ForLetter(ws, letter)| <= |ws|
  {
    if letter != '\0' {
      FilterLetterMembers(ws, ToLower(letter));
    }
  }

  /** The filter keeps store order: filtering a store that has grown at the
      end is filtering the old store and then the new entries. */
  lemma ForLetterAppend(a: seq<WordEntry>, b: seq<WordEntry>, letter: char)
    ensures ForLetter(a + b, letter) == ForLetter(a, letter) + ForLetter(b, letter)
  {
    if letter != '\0' {
      FilterLetterAppend(a, b, ToLower(letter));
    }
  }

  /** 'b' and 'B' select the same entries. */
  lemma ForLetterIgnoresCase(ws: seq<WordEntry>, c: char, d: char)
    requires c != '\0' && d != '\0' && ToLower(c) == ToLower(d)
    ensures ForLetter(ws, c) == ForLetter(ws, d)
  {
  }

  // ---------------------------------------------------- built-in entries

  /** The post-processing of WordStorage::insertInitialWords for one entry:
      placeholder definition, usage and background where they are missing,
      and a usage rewritten when it repeats the definition. */
  function Filled(e: WordEntry): WordEntry {
    var d := FilledDefinitionText(e.word, e.definition);
    e.(definition := d, usage := FilledUsageText(e.word, e.usage, d),
       background := FilledBackgroundText(e.word, e.background))
  }

  function FilledDefinitionText(word: string, definition: string): string {
    if Trimmed(definition) == "" then "Definition for " + word + " is not available."
    else definition
  }

  function FilledUsageText(word: string, usage: string, definition: string): string {
    if Trimmed(usage) == "" || Trimmed(usage) == Trimmed(definition) then
      (if Trimmed(definition) != "" then "In context, '" + word + "' can be used like this: " + Trimmed(definition)
       else "Example: '" + word + "' used in a sentence.")
    else usage
  }

  function FilledBackgroundText(word: string, background: string): string {
    if Trimmed(background) == "" then
      "Background: " + "Etymology or usage information for '" + word + "' is not provided."
    else background
  }

  /** A text that starts with a visible character does not trim to nothing. */
  lemma StartsVisible(p: string, w: string, q: string)
    requires p != [] && !IsSpace(p[0])
    ensures Trimmed(p + w + q) != ""
  {
    assert (p + w + q)[0] == p[0];
  }

  lemma FilledDefinition(word: string, definition: string)
    ensures Trimmed(FilledDefinitionText(word, definition)) != ""
  {
    if Trimmed(definition) == "" {
      StartsVisible("Definition for ", word, " is not available.");
    }
  }

  lemma FilledBackground(word: string, background: string)
    ensures Trimmed(FilledBackgroundText(word, background)) != ""
  {
    if Trimmed(background) == "" {
      StartsVisible("Background: ", "Etymology or usage information for '" + word, "' is not provided.");
    }
  }

  /** A rewritten usage is its own trimmed form and is longer than the
      trimmed definition it quotes, so the two differ. */
  lemma RewrittenUsageDiffers(word: string, def: string)
    requires def != "" && def == Trimmed(def)
    ensures var u := "In context, '" + word + "' can be used like this: " + def;
      Trimmed(u) == u && u != def
  {
    var u := "In context, '" + word + "' can be used like this: " + def;
    assert u[0] == 'I';
    assert u[|u| - 1] == def[|def| - 1];
    TrimmedNoOp(u);
    assert |u| > |def|;
  }

  lemma FilledUsage(word: string, usage: string, definition: string)
    requires Trimmed(definition) != ""
    ensures Trimmed(FilledUsageText(word, usage, definition)) != Trimmed(definition)
  {
    if Trimmed(usage) == "" || Trimmed(usage) == Trimmed(definition) {
      TrimmedIdempotent(definition);
      RewrittenUsageDiffers(word, Trimmed(definition));
    }
  }

  /** After post-processing, definition and background are non-blank and the
      usage differs from the definition once both are trimmed; word,
      synonyms, antonyms and translation are untouched. */
  lemma FilledComplete(e: WordEntry)
    ensures var f := Filled(e);
      Trimmed(f.definition) != "" && Trimmed(f.background) != "" &&
      Trimmed(f.usage) != Trimmed(f.definition) &&
      f.word == e.word && f.synonyms == e.synonyms && f.antonyms == e.antonyms &&
      f.translation == e.translation
  {
    FilledDefinition(e.word, e.definition);
    FilledBackground(e.word, e.background);
    FilledUsage(e.word, e.usage, FilledDefinitionText(e.word, e.definition));
  }

  /** The store insertInitialWords leaves behind: every built-in entry,
      post-processed, in order. */
  function Seeded(seed: seq<WordEntry>): (r: seq<WordEntry>)
    ensures |r| == |seed|
  {
    seq(|seed|, i requires 0 <= i < |seed| => Filled(seed[i]))
  }

  /** Post-processing neither adds nor removes entries nor changes words, so
      the built-in entries are duplicate-free after it iff before it. */
  lemma SeededDistinct(seed: seq<WordEntry>)
    ensures DistinctWords(Seeded(seed)) <==> DistinctWords(seed)
  {
    var r := Seeded(seed);
    forall i | 0 <= i < |seed| ensures r[i].word == seed[i].word {
      FilledComplete(seed[i]);
    }
  }

  /** One step of rewriting a sequence `b` into `a` from the front. */
  lemma RewriteStep<T>(a: seq<T>, b: seq<T>, i: nat)
    requires |a| == |b| && i < |a|
    ensures (a[..i] + b[i..])[i := a[i]] == a[..i + 1] + b[i + 1..]
  {
  }

  // ------------------------------------------------------- load merging

  /** One pass of the merge loop of WordStorage::load: a non-object element
      is skipped, an object is converted and kept unless its word is
      already stored. */
  function MergeStep(acc: seq<WordEntry>, v: Value): seq<WordEntry> {
    if v.Obj? then Added(acc, FromJson(v.fields)) else acc
  }

  /** The store after merging the file's array into `kept`. */
  function MergeFile(kept: seq<WordEntry>, items: seq<Value>): seq<WordEntry>
    decreases |items|
  {
    if items == [] then kept
    else MergeStep(MergeFile(kept, items[..|items| - 1]), items[|items| - 1])
  }

  /** The word of an array element that the merge converts. */
  function ItemWord(v: Value): string
    requires v.Obj?
  {
    FromJson(v.fields).word
  }

  /** The k-th element of the file is the first object with its word, ignoring
      case, and no kept entry has that word either. */
  predicate FirstFresh(kept: seq<WordEntry>, items: seq<Value>, k: nat)
    requires k < |items|
  {
    items[k].Obj? && !HasWord(kept, ItemWord(items[k])) &&
    forall k' :: 0 <= k' < k && items[k'].Obj? ==> !EqualsIgnoreCase(ItemWord(items[k']), ItemWord(items[k]))
  }

  /** Reference definition of what the merge appends: the first occurrence of
      each new word in the file, in file order. */
  function FirstOccurrences(kept: seq<WordEntry>, items: seq<Value>): seq<WordEntry>
    decreases |items|
  {
    if items == [] then []
    else
      var n := |items| - 1;
      FirstOccurrences(kept, items[..n]) +
        (if FirstFresh(kept, items, n) then [FromJson(items[n].fields)] else [])
  }

  /** The words the merge has seen so far: a kept word or an object's word. */
  predicate SeenWord(kept: seq<WordEntry>, items: seq<Value>, w: string) {
    HasWord(kept, w) || exists k :: 0 <= k < |items| && items[k].Obj? && EqualsIgnoreCase(ItemWord(items[k]), w)
  }

  lemma HasWordConcat(a: seq<WordEntry>, b: seq<WordEntry>, w: string)
    ensures HasWord(a + b, w) <==> HasWord(a, w) || HasWord(b, w)
  {
    var r := a + b;
    if HasWord(r, w) {
      var i :| 0 <= i < |r| && EqualsIgnoreCase(r[i].word, w);
      if i >= |a| { assert b[i - |a|] == r[i]; }
    }
    if HasWord(b, w) {
      var i :| 0 <= i < |b| && EqualsIgnoreCase(b[i].word, w);
      assert r[i + |a|] == b[i];
    }
    if HasWord(a, w) {
      var i :| 0 <= i < |a| && EqualsIgnoreCase(a[i].word, w);
      assert r[i] == a[i];
    }
  }

  lemma SeenWordStep(kept: seq<WordEntry>, items: seq<Value>, w: string)
    requires items != []
    ensures var n := |items| - 1;
      SeenWord(kept, items, w) <==>
        SeenWord(kept, items[..n], w) || (items[n].Obj? && EqualsIgnoreCase(ItemWord(items[n]), w))
  {
    var n := |items| - 1;
    assert forall k :: 0 <= k < n ==> items[..n][k] == items[k];
  }

  lemma {:induction false} FirstOccurrencesCover(kept: seq<WordEntry>, items: seq<Value>, w: string)
    ensures HasWord(kept + FirstOccurrences(kept, items), w) <==> SeenWord(kept, items, w)
    decreases |items|
  {
    if items == [] {
      assert kept + FirstOccurrences(kept, items) == kept;
    } else {
      var n := |items| - 1;
      var init := items[..n];
      var extra := if FirstFresh(kept, items, n) then [FromJson(items[n].fields)] else [];
      FirstOccurrencesCover(kept, init, w);
      assert kept + FirstOccurrences(kept, items) == (kept + FirstOccurrences(kept, init)) + extra;
      HasWordConcat(kept + FirstOccurrences(kept, init), extra, w);
      SeenWordStep(kept, items, w);
      if items[n].Obj? && EqualsIgnoreCase(ItemWord(items[n]), w) && !FirstFresh(kept, items, n) {
        var wn := ItemWord(items[n]);
        if !HasWord(kept, wn) {
          var k' :| 0 <= k' < n && items[k'].Obj? && EqualsIgnoreCase(ItemWord(items[k']), wn);
          assert init[k'] == items[k'];
        } else {
          var i :| 0 <= i < |kept| && EqualsIgnoreCase(kept[i].word, wn);
          assert EqualsIgnoreCase(kept[i].word, w);
        }
      }
      if extra != [] {
        assert HasWord(extra, w) <==> EqualsIgnoreCase(extra[0].word, w);
      }
    }
  }

  lemma FirstFreshPrefix(kept: seq<WordEntry>, items: seq<Value>, m: nat, k: nat)
    requires k < m <= |items|
    ensures FirstFresh(kept, items[..m], k) == FirstFresh(kept, items, k)
  {
    assert forall k' :: 0 <= k' <= k ==> items[..m][k'] == items[k'];
  }

  /** The merge loop of WordStorage::load puts the kept entries first and then
      appends, in file order, the first object of each word (ignoring case)
      that is not already kept: kept entries win over the file, and an
      earlier file entry wins over a later one. */
  lemma {:induction false} MergeFileIsFirstOccurrences(kept: seq<WordEntry>, items: seq<Value>)
    ensures MergeFile(kept, items) == kept + FirstOccurrences(kept, items)
    decreases |items|
  {
    if items != [] {
      var n := |items| - 1;
      var init := items[..n];
      MergeFileIsFirstOccurrences(kept, init);
      var acc := kept + FirstOccurrences(kept, init);
      assert MergeFile(kept, items) == MergeStep(acc, items[n]);
      assert FirstOccurrences(kept, items) ==
        FirstOccurrences(kept, init) + (if FirstFresh(kept, items, n) then [FromJson(items[n].fields)] else []);
      if items[n].Obj? {
        var w := ItemWord(items[n]);
        FirstOccurrencesCover(kept, init, w);
        assert forall k :: 0 <= k < n ==> init[k] == items[k];
        assert HasWord(acc, w) <==> !FirstFresh(kept, items, n);
      }
    }
  }

  /** What the merge appends carries words that no kept entry has and that
      are pairwise distinct, so a duplicate-free seed stays duplicate-free. */
  lemma {:induction false} FirstOccurrencesFresh(kept: seq<WordEntry>, items: seq<Value>)
    ensures forall j :: 0 <= j < |FirstOccurrences(kept, items)| ==>
      !HasWord(kept, FirstOccurrences(kept, items)[j].word)
    ensures DistinctWords(kept) ==> DistinctWords(kept + FirstOccurrences(kept, items))
    decreases |items|
  {
    if items != [] {
      var n := |items| - 1;
      var init := items[..n];
      FirstOccurrencesFresh(kept, init);
      var f0 := FirstOccurrences(kept, init);
      var f := FirstOccurrences(kept, items);
      if FirstFresh(kept, items, n) {
        var e := FromJson(items[n].fields);
        assert f == f0 + [e];
        assert !HasWord(kept + f0, e.word) by {
          FirstOccurrencesCover(kept, init, e.word);
          assert forall k :: 0 <= k < |init| ==> init[k] == items[k];
          assert !SeenWord(kept, init, e.word);
        }
        if DistinctWords(kept) {
          var r := kept + f;
          forall i, j | 0 <= i < j < |r| ensures !EqualsIgnoreCase(r[i].word, r[j].word) {
            if j == |r| - 1 {
              assert r[j] == e;
              assert (kept + f0)[i] == r[i];
            } else {
              assert (kept + f0)[i] == r[i] && (kept + f0)[j] == r[j];
            }
          }
        }
      } else {
        assert f == f0;
      }
    }
  }

  /** Seed wins and first occurrence wins: the merged store keeps the kept
      entries as its prefix, appends only words they lack, and stays
      duplicate-free when they are. */
  lemma MergeFileProperties(kept: seq<WordEntry>, items: seq<Value>)
    ensures var r := MergeFile(kept, items);
      |kept| <= |r| <= |kept| + |items| && r[..|kept|] == kept &&
      (forall j :: |kept| <= j < |r| ==> !HasWord(kept, r[j].word)) &&
      (forall k :: 0 <= k < |items| && items[k].Obj? ==> HasWord(r, ItemWord(items[k]))) &&
      (DistinctWords(kept) ==> DistinctWords(r))
  {
    MergeFileIsFirstOccurrences(kept, items);
    FirstOccurrencesFresh(kept, items);
    FirstOccurrencesLength(kept, items);
    var r := MergeFile(kept, items);
    forall k | 0 <= k < |items| && items[k].Obj? ensures HasWord(r, ItemWord(items[k])) {
      FirstOccurrencesCover(kept, items, ItemWord(items[k]));
      assert EqualsIgnoreCase(ItemWord(items[k]), ItemWord(items[k]));
    }
    forall j | |kept| <= j < |r| ensures !HasWord(kept, r[j].word) {
      assert r[j] == FirstOccurrences(kept, items)[j - |kept|];
    }
  }

  lemma {:induction false} FirstOccurrencesLength(kept: seq<WordEntry>, items: seq<Value>)
    ensures |FirstOccurrences(kept, items)| <= |items|
    decreases |items|
  {
    if items != [] {
      FirstOccurrencesLength(kept, items[..|items| - 1]);
    }
  }

  // -------------------------------------------------------------- saving

  /** The array WordStorage::save writes: one toJson object per entry, in
      store order. */
  function EntriesToJson(ws: seq<WordEntry>): (items: seq<Value>)
    ensures |items| == |ws|
  {
    seq(|ws|, i requires 0 <= i < |ws| => Obj(ToJson(ws[i])))
  }

  function WordsDocument(ws: seq<WordEntry>): Value {
    Arr(EntriesToJson(ws))
  }

  lemma MergeFileSnoc(kept: seq<WordEntry>, items: seq<Value>, n: nat)
    requires n < |items|
    ensures MergeFile(kept, items[..n + 1]) == MergeStep(MergeFile(kept, items[..n]), items[n])
  {
    assert items[..n + 1][..n] == items[..n];
  }

  /** A stored word is found again, so adding its entry changes nothing. */
  lemma AddedPresent(ws: seq<WordEntry>, n: nat)
    requires n < |ws|
    ensures Added(ws, ws[n]) == ws
  {
    assert EqualsIgnoreCase(ws[n].word, ws[n].word);
  }

  /** The next entry of a duplicate-free store is new to the entries before it. */
  lemma AddedNext(ws: seq<WordEntry>, n: nat)
    requires n < |ws| && DistinctWords(ws)
    ensures Added(ws[..n], ws[n]) == ws[..n + 1]
  {
    var acc := ws[..n];
    forall i | 0 <= i < |acc| ensures !EqualsIgnoreCase(acc[i].word, ws[n].word) {
      assert acc[i] == ws[i];
    }
    PrefixSnoc(ws, n);
  }

  /** One element of a saved store, read back by the merge. */
  lemma RoundTripStep(init: seq<WordEntry>, ws: seq<WordEntry>, n: nat)
    requires n < |ws| && |init| <= |ws| && ws[..|init|] == init && DistinctWords(ws)
    requires var acc := MergeFile(init, EntriesToJson(ws)[..n]);
      acc == if n <= |init| then init else ws[..n]
    ensures var acc := MergeFile(init, EntriesToJson(ws)[..n + 1]);
      acc == if n + 1 <= |init| then init else ws[..n + 1]
  {
    var items := EntriesToJson(ws);
    var acc := MergeFile(init, items[..n]);
    MergeFileSnoc(init, items, n);
    RoundTrip(ws[n]);
    assert MergeStep(acc, items[n]) == Added(acc, ws[n]);
    if n < |init| {
      assert init[n] == ws[n];
      AddedPresent(init, n);
    } else {
      assert acc == ws[..n];
      AddedNext(ws, n);
    }
  }

  lemma {:induction false} SaveLoadPrefix(init: seq<WordEntry>, ws: seq<WordEntry>, n: nat)
    requires n <= |ws| && |init| <= |ws| && ws[..|init|] == init && DistinctWords(ws)
    ensures MergeFile(init, EntriesToJson(ws)[..n]) == if n <= |init| then init else ws[..n]
  {
    if n == 0 {
      assert EntriesToJson(ws)[..0] == [];
    } else {
      SaveLoadPrefix(init, ws, n - 1);
      RoundTripStep(init, ws, n - 1);
    }
  }

  /** Saving a store and loading the file back gives the same store, when
      the store starts with the built-in entries and is duplicate-free (as
      every store that load and addWord produce from duplicate-free built-in
      entries is). */
  lemma SaveLoadRoundTrip(init: seq<WordEntry>, ws: seq<WordEntry>)
    requires |init| <= |ws| && ws[..|init|] == init && DistinctWords(ws)
    ensures MergeFile(init, EntriesToJson(ws)) == ws
  {
    var items := EntriesToJson(ws);
    SaveLoadPrefix(init, ws, |ws|);
    assert items[..|ws|] == items;
  }

  // ------------------------------------------------------------ the store

  class WordStorage {
    var words: seq<WordEntry>
    var path: string
    /** The entries written out literally in insertInitialWords, before
        post-processing; their contents are not part of this model. */
    const seed: seq<WordEntry>

    constructor (seed: seq<WordEntry>)
      ensures words == [] && path == "" && this.seed == seed
    {
      words := [];
      path := "";
      this.seed := seed;
    }

    /** WordStorage::empty */
    function Empty(): (r: bool)
      reads this
      ensures r <==> words == []
    {
      |words| == 0
    }

    /** WordStorage::allWords: a copy of the entries, in store order. */
    method AllWords() returns (snapshot: seq<WordEntry>)
      ensures snapshot == words
    {
      snapshot := words;
    }

    /** The file save(p) writes to. */
    function SaveTarget(p: string): string
      reads this
    {
      if p == "" then path else p
    }

    /** WordStorage::addWord: append unless the word is stored already,
        ignoring case. */
    method AddWord(entry: WordEntry)
      modifies this
      ensures words == Added(old(words), entry)
      ensures path == old(path)
    {
      var i := 0;
      while i < |words|
        invariant 0 <= i <= |words|
        invariant forall j :: 0 <= j < i ==> !EqualsIgnoreCase(words[j].word, entry.word)
      {
        if EqualsIgnoreCase(words[i].word, entry.word) {
          return;
        }
        i := i + 1;
      }
      words := words + [entry];
    }

    /** WordStorage::wordsForLetter */
    method WordsForLetter(letter: char) returns (out: seq<WordEntry>)
      ensures out == ForLetter(words, letter)
    {
      out := [];
      if letter == '\0' {
        return;
      }
      var L := ToLower(letter);
      var i := 0;
      while i < |words|
        invariant 0 <= i <= |words|
        invariant out == FilterLetter(words[..i], L)
      {
        assert words[..i + 1][..i] == words[..i];
        var w := words[i];
        if w.word == [] {
          i := i + 1;
          continue;
        }
        if ToLower(w.word[0]) == L {
          out := out + [w];
        }
        i := i + 1;
      }
      assert words[..i] == words;
    }

    /** WordStorage::insertInitialWords: the built-in entries, then the
        post-processing loop over them. */
    method InsertInitialWords()
      modifies this
      ensures words == Seeded(seed)
      ensures path == old(path)
    {
      words := [];
      words := words + seed;
      var i := 0;
      while i < |words|
        invariant 0 <= i <= |words| == |seed|
        invariant path == old(path)
        invariant words == Seeded(seed)[..i] + seed[i..]
      {
        RewriteStep(Seeded(seed), seed, i);
        words := words[i := Filled(words[i])];
        i := i + 1;
      }
    }

    /** WordStorage::save: fails without a path; otherwise writes every
        entry's toJson, in store order, as one JSON array. */
    method Save(fs: Disk, p: string) returns (ok: bool)
      modifies fs
      ensures ok == (SaveTarget(p) != "" && SaveTarget(p) !in old(fs.locked))
      ensures fs.files == if SaveTarget(p) == "" then old(fs.files)
        else AfterWrite(old(fs.files), old(fs.locked), SaveTarget(p), WordsDocument(words))
      ensures fs.locked == old(fs.locked)
    {
      var target := if p == "" then path else p;
      if target == "" {
        return false;
      }
      var arr := [];
      var i := 0;
      while i < |words|
        invariant 0 <= i <= |words|
        invariant |arr| == i && forall j :: 0 <= j < i ==> arr[j] == Obj(ToJson(words[j]))
      {
        arr := arr + [Obj(ToJson(words[i]))];
        i := i + 1;
      }
      assert arr == EntriesToJson(words);
      ok := fs.Write(target, Arr(arr));
    }

    /** WordStorage::load: the built-in entries first, then the file's
        entries whose words are new. A missing file is created from the
        built-in entries; an unreadable file or one that does not hold a JSON
        array fails and leaves only the built-in entries. */
    method Load(fs: Disk, p: string) returns (ok: bool)
      modifies this, fs
      ensures path == (if p == "" then "words.json" else p)
      ensures fs.locked == old(fs.locked)
      ensures path !in old(fs.files) ==>
        ok && words == Seeded(seed) &&
        fs.files == AfterWrite(old(fs.files), old(fs.locked), path, WordsDocument(words))
      ensures path in old(fs.files) ==> fs.files == old(fs.files)
      ensures path in old(fs.files) && (path in old(fs.locked) || !Parse(old(fs.files)[path]).Arr?) ==>
        !ok && words == Seeded(seed)
      ensures path in old(fs.files) && path !in old(fs.locked) && Parse(old(fs.files)[path]).Arr? ==>
        ok && words == MergeFile(Seeded(seed), Parse(old(fs.files)[path]).items)
    {
      path := if p == "" then "words.json" else p;
      words := [];
      InsertInitialWords();
      if path !in fs.files {
        var _ := Save(fs, "");
        return true;
      }
      if path in fs.locked {
        return false;
      }
      var doc := Parse(fs.files[path]);
      if !doc.Arr? {
        return false;
      }
      MergeEntries(doc.items);
      return true;
    }

    /** The merge loop of WordStorage::load over the file's array. */
    method MergeEntries(items: seq<Value>)
      modifies this
      ensures words == MergeFile(old(words), items)
      ensures path == old(path)
    {
      var i := 0;
      while i < |items|
        invariant 0 <= i <= |items|
        invariant words == MergeFile(old(words), items[..i])
        invariant path == old(path)
      {
        MergeFileSnoc(old(words), items, i);
        var v := items[i];
        var ws := words;
        if v.Obj? {
          var entry := FromJson(v.fields);
          var found := false;
          var j := 0;
          while j < |ws|
            invariant 0 <= j <= |ws|
            invariant !found ==> forall k :: 0 <= k < j ==> !EqualsIgnoreCase(ws[k].word, entry.word)
            invariant found ==> HasWord(ws, entry.word)
          {
            if EqualsIgnoreCase(ws[j].word, entry.word) {
              found := true;
              break;
            }
            j := j + 1;
          }
          if !found {
            words := ws + [entry];
          }
          assert words == Added(ws, entry);
        }
        assert words == MergeStep(ws, v);
        i := i + 1;
      }
      assert items[..i] == items;

    }
  }
}
