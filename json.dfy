/** An abstract model of Qt's JSON values (QJsonValue, QJsonArray,
    QJsonObject) and of the conversions the dictionary uses on them.
    Numbers are restricted to integral values. */
module Json {

  /** The range of a C++ int. */
  newtype Int32 = x: int | -0x8000_0000 <= x < 0x8000_0000

  /** Undefined is what QJsonObject::value returns for a missing key. */
  datatype Value =
    | Undefined
    | Null
    | Bool(b: bool)
    | Number(n: int)
    | Str(s: string)
    | Arr(items: seq<Value>)
    | Obj(fields: map<string, Value>)

  type Object = map<string, Value>

  /** QJsonObject::value(key) */
  function Get(o: Object, key: string): Value {
    if key in o then o[key] else Undefined
  }

  /** QJsonValue::toString(): the string, or "" for any other kind of value. */
  function ToString(v: Value): string {
    if v.Str? then v.s else ""
  }

  /** QJsonValue::toArray(): the elements, or none for any other kind of value. */
  function ToArray(v: Value): seq<Value> {
    if v.Arr? then v.items else []
  }

  /** QJsonValue::toInt(default): the number when it fits an int, else the default. */
  function ToInt(v: Value, default: Int32): (r: Int32)
    ensures v.Number? && -0x8000_0000 <= v.n < 0x8000_0000 ==> r as int == v.n
    ensures v.Number? && !(-0x8000_0000 <= v.n < 0x8000_0000) ==> r == default
    ensures !v.Number? ==> r == default
  {
    if v.Number? && -0x8000_0000 <= v.n < 0x8000_0000 then v.n as Int32 else default
  }

  /** The loop `for (s : list) arr.append(s)`: a string list as a JSON array. */
  function StringsToArray(ss: seq<string>): (items: seq<Value>)
    ensures |items| == |ss|
    ensures forall i :: 0 <= i < |ss| ==> items[i] == Str(ss[i])
    decreases |ss|
  {
    if ss == [] then [] else StringsToArray(ss[..|ss| - 1]) + [Str(ss[|ss| - 1])]
  }

  /** The string elements of an array, in order. */
  function Strings(items: seq<Value>): (ss: seq<string>)
    ensures |ss| <= |items|
    decreases |items|
  {
    if items == [] then []
    else
      var last := items[|items| - 1];
      Strings(items[..|items| - 1]) + (if last.Str? then [last.s] else [])
  }

  /** The filtering loop `if (v.isArray()) for (v : arr) if (v.isString())
      list.append(v.toString())` that User::fromJson and
      Function::addWordEntry share. */
  function StringElements(v: Value): seq<string> {
    if v.Arr? then Strings(v.items) else []
  }

  lemma {:induction false} StringsAppend(a: seq<Value>, b: seq<Value>)
    ensures Strings(a + b) == Strings(a) + Strings(b)
    decreases |b|
  {
    if b == [] {
      assert a + b == a;
    } else {
      var b' := b[..|b| - 1];
      assert (a + b)[..|a + b| - 1] == a + b';
      StringsAppend(a, b');
    }
  }

  /** Filtering an array of strings gives back the strings: the two loops
      above are inverse. */
  lemma {:induction false} StringsOfStrings(ss: seq<string>)
    ensures Strings(StringsToArray(ss)) == ss
    decreases |ss|
  {
    if ss != [] {
      var init := ss[..|ss| - 1];
      StringsOfStrings(init);
      assert StringsToArray(ss) == StringsToArray(init) + [Str(ss[|ss| - 1])];
      StringsAppend(StringsToArray(init), [Str(ss[|ss| - 1])]);
      assert Strings([Str(ss[|ss| - 1])]) == [ss[|ss| - 1]];
    }
  }

  /** Strings keeps exactly the string elements, in order, and drops the rest. */
  lemma {:induction false} StringsOfMixed(items: seq<Value>, k: nat)
    requires k < |items|
    ensures items[k].Str? ==> Strings(items) == Strings(items[..k]) + [items[k].s] + Strings(items[k + 1..])
    ensures !items[k].Str? ==> Strings(items) == Strings(items[..k]) + Strings(items[k + 1..])
  {
    assert items == items[..k] + [items[k]] + items[k + 1..];
    StringsAppend(items[..k] + [items[k]], items[k + 1..]);
    StringsAppend(items[..k], [items[k]]);
    assert Strings([items[k]]) == Strings([]) + (if items[k].Str? then [items[k].s] else []);
  }
}
