/** A user record (struct User in User_Files/User.h) and its mapping to and
    from a JSON object. */
module Users {
  import opened Json

  datatype User = User(
    name: string,
    age: Int32,
    addedWords: seq<string>,
    /** Most recent first. */
    recentSearches: seq<string>)

  /** User::toJson */
  function ToJson(u: User): (o: Object)
    ensures o.Keys == {"name", "age", "addedWords", "recentSearches"}
    ensures o["name"] == Str(u.name) && o["age"] == Number(u.age as int)
    ensures o["addedWords"].Arr? && |o["addedWords"].items| == |u.addedWords|
    ensures o["recentSearches"].Arr? && |o["recentSearches"].items| == |u.recentSearches|
  {
    map[
      "name" := Str(u.name),
      "age" := Number(u.age as int),
      "addedWords" := Arr(StringsToArray(u.addedWords)),
      "recentSearches" := Arr(StringsToArray(u.recentSearches))]
  }

  /** User::fromJson: a missing or ill-typed name reads as "", an age that is
      not an int as 0, and a list that is not an array as empty; only the
      string elements of an array are kept. */
  function FromJson(o: Object): (u: User)
    ensures Get(o, "name").Str? ==> u.name == Get(o, "name").s
    ensures Get(o, "age").Number? && -0x8000_0000 <= Get(o, "age").n < 0x8000_0000 ==> u.age as int == Get(o, "age").n
    ensures |u.addedWords| <= |ToArray(Get(o, "addedWords"))|
    ensures |u.recentSearches| <= |ToArray(Get(o, "recentSearches"))|
  {
    User(
      ToString(Get(o, "name")),
      ToInt(Get(o, "age"), 0),
      StringElements(Get(o, "addedWords")),
      StringElements(Get(o, "recentSearches")))
  }

  /** Every user survives toJson followed by fromJson, list order included. */
  lemma RoundTrip(u: User)
    ensures FromJson(ToJson(u)) == u
  {
    StringsOfStrings(u.addedWords);
    StringsOfStrings(u.recentSearches);
  }

  /** What fromJson makes of the individual fields. */
  lemma FromJsonFields(o: Object)
    ensures "age" !in o ==> FromJson(o).age == 0
    ensures "name" !in o ==> FromJson(o).name == ""
    ensures !Get(o, "addedWords").Arr? ==> FromJson(o).addedWords == []
    ensures !Get(o, "recentSearches").Arr? ==> FromJson(o).recentSearches == []
    ensures Get(o, "addedWords").Arr? ==> FromJson(o).addedWords == Strings(Get(o, "addedWords").items)
    ensures Get(o, "recentSearches").Arr? ==> FromJson(o).recentSearches == Strings(Get(o, "recentSearches").items)
  {
  }

  /** fromJson looks at the four keys only: objects that agree on them give
      the same user, whatever else they hold. */
  lemma FromJsonIgnoresOtherKeys(o: Object, p: Object)
    requires forall k :: k in {"name", "age", "addedWords", "recentSearches"} ==> Get(o, k) == Get(p, k)
    ensures FromJson(o) == FromJson(p)
  {
    assert Get(o, "name") == Get(p, "name");
    assert Get(o, "age") == Get(p, "age");
    assert Get(o, "addedWords") == Get(p, "addedWords");
    assert Get(o, "recentSearches") == Get(p, "recentSearches");
  }

  /** The data blob written for a user added by name only reads back as a
      nameless user of age 0 with empty lists. */
  lemma CreatedBlob()
    ensures FromJson(map["created" := Bool(true)]) == User("", 0, [], [])
  {
  }
}
