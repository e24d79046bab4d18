/** A dictionary entry (struct WordEntry in Word_Files/Word_Storage.h) and
    its mapping to and from a JSON object. */
module WordEntries {
  import opened Json

  datatype WordEntry = WordEntry(
    word: string,
    definition: string,
    synonyms: seq<string>,
    antonyms: seq<string>,
    background: string,
    usage: string,
    translation: string)

  /** The entry with every field empty, as `WordEntry e;` constructs it. */
  const EmptyEntry := WordEntry("", "", [], [], "", "", "")

  /** WordEntry::toJson */
  function ToJson(e: WordEntry): (o: Object)
    ensures o.Keys == {"word", "definition", "synonyms", "antonyms", "background", "usage", "translation"}
  {
    map[
      "word" := Str(e.word),
      "definition" := Str(e.definition),
      "synonyms" := Arr(StringsToArray(e.synonyms)),
      "antonyms" := Arr(StringsToArray(e.antonyms)),
      "background" := Str(e.background),
      "usage" := Str(e.usage),
      "translation" := Str(e.translation)]
  }

  /** WordEntry::jsonArrayToStringList: every element by its string value
      ("" for an element that is not a string). */
  function JsonArrayToStringList(arr: seq<Value>): (out: seq<string>)
    ensures |out| == |arr|
    ensures forall i :: 0 <= i < |arr| ==> out[i] == ToString(arr[i])
    decreases |arr|
  {
    if arr == [] then []
    else JsonArrayToStringList(arr[..|arr| - 1]) + [ToString(arr[|arr| - 1])]
  }

  /** WordEntry::fromJson: a string field that is missing or not a string
      reads as "", and a list keeps one item per array element, non-strings
      giving "". */
  function FromJson(o: Object): (e: WordEntry)
    ensures Get(o, "word").Str? ==> e.word == Get(o, "word").s
    ensures !Get(o, "word").Str? ==> e.word == ""
    ensures !Get(o, "translation").Str? ==> e.translation == ""
    ensures |e.synonyms| == |ToArray(Get(o, "synonyms"))| && |e.antonyms| == |ToArray(Get(o, "antonyms"))|
  {
    WordEntry(
      ToString(Get(o, "word")),
      ToString(Get(o, "definition")),
      JsonArrayToStringList(ToArray(Get(o, "synonyms"))),
      JsonArrayToStringList(ToArray(Get(o, "antonyms"))),
      ToString(Get(o, "background")),
      ToString(Get(o, "usage")),
      ToString(Get(o, "translation")))
  }

  /** A string list survives the trip through a JSON array, order included. */
  lemma StringListRoundTrip(ss: seq<string>)
    ensures JsonArrayToStringList(StringsToArray(ss)) == ss
  {
    var out := JsonArrayToStringList(StringsToArray(ss));
    assert forall i :: 0 <= i < |ss| ==> out[i] == ss[i];
  }

  /** Every entry survives toJson followed by fromJson. */
  lemma RoundTrip(e: WordEntry)
    ensures FromJson(ToJson(e)) == e
  {
    var o := ToJson(e);
    assert Get(o, "word") == Str(e.word);
    assert Get(o, "definition") == Str(e.definition);
    assert Get(o, "synonyms") == Arr(StringsToArray(e.synonyms));
    assert Get(o, "antonyms") == Arr(StringsToArray(e.antonyms));
    assert Get(o, "background") == Str(e.background);
    assert Get(o, "usage") == Str(e.usage);
    assert Get(o, "translation") == Str(e.translation);
    StringListRoundTrip(e.synonyms);
    StringListRoundTrip(e.antonyms);
  }

  /** A key missing from the object reads as the empty string or list. */
  lemma FromJsonMissing(o: Object)
    ensures "word" !in o ==> FromJson(o).word == ""
    ensures "definition" !in o ==> FromJson(o).definition == ""
    ensures "synonyms" !in o ==> FromJson(o).synonyms == []
    ensures "antonyms" !in o ==> FromJson(o).antonyms == []
    ensures "background" !in o ==> FromJson(o).background == ""
    ensures "usage" !in o ==> FromJson(o).usage == ""
    ensures "translation" !in o ==> FromJson(o).translation == ""
  {
  }
}
