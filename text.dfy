/** The Qt string operations the dictionary relies on, over ASCII:
    character classes and case, trimming, case-insensitive comparison,
    splitting and joining, QString::section, QString::simplified, and the
    code-unit order QMap uses for its keys. */
module Text {

  /** QChar::isSpace restricted to ASCII: space and \t, \n, \v, \f, \r. */
  predicate IsSpace(c: char) {
    c == ' ' || ('\t' <= c <= '\r')
  }

  /** QChar::isLetter restricted to ASCII. */
  predicate IsLetter(c: char) {
    'a' <= c <= 'z' || 'A' <= c <= 'Z'
  }

  function ToLower(c: char): char {
    if 'A' <= c <= 'Z' then (c as int + 32) as char else c
  }

  function ToUpper(c: char): char {
    if 'a' <= c <= 'z' then (c as int - 32) as char else c
  }

  function Lower(s: string): string {
    seq(|s|, i requires 0 <= i < |s| => ToLower(s[i]))
  }

  /** QString::compare(…, Qt::CaseInsensitive) == 0 */
  predicate EqualsIgnoreCase(a: string, b: string) {
    Lower(a) == Lower(b)
  }

  /** Words equal up to case start with the same letter up to case. */
  lemma EqualsIgnoreCaseFirst(a: string, b: string)
    requires EqualsIgnoreCase(a, b) && a != []
    ensures b != [] && ToLower(a[0]) == ToLower(b[0])
  {
    assert Lower(a)[0] == Lower(b)[0];
  }

  /** QString::startsWith(prefix, Qt::CaseInsensitive): the leading
      |prefix| characters equal the prefix, ignoring case. */
  predicate StartsWithIgnoreCase(s: string, prefix: string) {
    |prefix| <= |s| && EqualsIgnoreCase(s[..|prefix|], prefix)
  }

  /** startsWith ignoring case compares character by character. */
  lemma StartsWithMeans(s: string, prefix: string)
    ensures StartsWithIgnoreCase(s, prefix) <==>
      |prefix| <= |s| && forall i :: 0 <= i < |prefix| ==> ToLower(s[i]) == ToLower(prefix[i])
  {
    if |prefix| <= |s| {
      var a := s[..|prefix|];
      if EqualsIgnoreCase(a, prefix) {
        forall i | 0 <= i < |prefix| ensures ToLower(s[i]) == ToLower(prefix[i]) {
          assert Lower(a)[i] == Lower(prefix)[i];
        }
      }
    }
  }

  /** A string starts with each of its prefixes, ignoring case. */
  lemma StartsWithOwnPrefix(p: string, rest: string)
    ensures StartsWithIgnoreCase(p + rest, p)
  {
    assert (p + rest)[..|p|] == p;
  }

  /** One differing character, ignoring case, rules a prefix out. */
  lemma NotPrefixAt(s: string, prefix: string, k: nat)
    requires k < |prefix| && k < |s| && ToLower(s[k]) != ToLower(prefix[k])
    ensures !StartsWithIgnoreCase(s, prefix)
  {
    if |prefix| <= |s| {
      assert Lower(s[..|prefix|])[k] != Lower(prefix)[k];
    }
  }

  /** Every character is whitespace (the string trims to nothing). */
  predicate Blank(s: string) {
    forall i :: 0 <= i < |s| ==> IsSpace(s[i])
  }

  // ---------------------------------------------------------------- trimming

  function TrimStart(s: string): (r: string)
    ensures |r| <= |s|
    ensures r == [] || !IsSpace(r[0])
    decreases |s|
  {
    if s != [] && IsSpace(s[0]) then TrimStart(s[1..]) else s
  }

  /** TrimStart drops a whitespace prefix and keeps the rest. */
  lemma {:induction false} TrimStartMeans(s: string)
    ensures var r := TrimStart(s);
      r == s[|s| - |r|..] && forall i :: 0 <= i < |s| - |r| ==> IsSpace(s[i])
    decreases |s|
  {
    if s != [] && IsSpace(s[0]) {
      TrimStartMeans(s[1..]);
      var r := TrimStart(s);
      assert s[1..][|s| - 1 - |r|..] == s[|s| - |r|..];
      forall i | 0 <= i < |s| - |r| ensures IsSpace(s[i]) {
        if i > 0 { assert s[i] == s[1..][i - 1]; }
      }
    }
  }

  function TrimEnd(s: string): (r: string)
    ensures |r| <= |s|
    ensures r == [] || !IsSpace(r[|r| - 1])
    decreases |s|
  {
    if s != [] && IsSpace(s[|s| - 1]) then TrimEnd(s[..|s| - 1]) else s
  }

  /** TrimEnd drops a whitespace suffix and keeps the rest. */
  lemma {:induction false} TrimEndMeans(s: string)
    ensures var r := TrimEnd(s);
      r == s[..|r|] && forall i :: |r| <= i < |s| ==> IsSpace(s[i])
    decreases |s|
  {
    if s != [] && IsSpace(s[|s| - 1]) {
      var init := s[..|s| - 1];
      TrimEndMeans(init);
      var r := TrimEnd(s);
      assert init[..|r|] == s[..|r|];
      forall i | |r| <= i < |s| ensures IsSpace(s[i]) {
        if i < |s| - 1 { assert s[i] == init[i]; }
      }
    }
  }

  /** QString::trimmed: whitespace removed from both ends. */
  function Trimmed(s: string): (r: string)
    ensures r == [] <==> Blank(s)
    ensures r == [] || (!IsSpace(r[0]) && !IsSpace(r[|r| - 1]))
    ensures |r| <= |s|
  {
    TrimmedShape(s);
    TrimEnd(TrimStart(s))
  }

  /** Trimming leaves nothing exactly when the string is blank, and keeps
      the first visible character in front. */
  lemma TrimmedShape(s: string)
    ensures var r := TrimEnd(TrimStart(s));
      (r == [] <==> Blank(s)) && (r == [] || !IsSpace(r[0]))
  {
    var t := TrimStart(s);
    TrimStartMeans(s);
    TrimEndMeans(t);
    if t != [] {
      assert t[0] == s[|s| - |t|];
      assert TrimEnd(t) != [] by {
        assert !IsSpace(t[0]);
      }
      assert TrimEnd(t)[0] == t[0];
    }
  }

  /** A string with non-space ends is its own trimmed form. */
  lemma TrimmedNoOp(s: string)
    requires s == [] || (!IsSpace(s[0]) && !IsSpace(s[|s| - 1]))
    ensures Trimmed(s) == s
  {
  }

  lemma TrimmedIdempotent(s: string)
    ensures Trimmed(Trimmed(s)) == Trimmed(s)
  {
    TrimmedNoOp(Trimmed(s));
  }

  /** Trimming keeps a visible first character in front. */
  lemma TrimmedFirst(s: string)
    requires s != [] && !IsSpace(s[0])
    ensures Trimmed(s) != [] && Trimmed(s)[0] == s[0]
  {
    assert TrimStart(s) == s;
    TrimEndMeans(s);
    assert TrimEnd(s)[0] == s[0];
  }

  /** One leading space does not change the trimmed form. */
  lemma TrimmedLeadingSpace(s: string)
    ensures Trimmed([' '] + s) == Trimmed(s)
  {
    assert ([' '] + s)[1..] == s;
  }

  // -------------------------------------------------------- search and split

  /** First index of c in s, or -1. */
  function IndexOf(s: string, c: char): (i: int)
    ensures -1 <= i < |s|
    ensures i == -1 <==> c !in s
    ensures 0 <= i ==> s[i] == c && c !in s[..i]
    decreases |s|
  {
    if s == [] then -1
    else if s[0] == c then 0
    else
      var j := IndexOf(s[1..], c);
      assert j >= 0 ==> s[..j + 1] == [s[0]] + s[1..][..j];
      assert c in s[1..] ==> c in s;
      assert c in s ==> c in s[1..] by {
        if c in s {
          var k :| 0 <= k < |s| && s[k] == c;
          assert k > 0 && s[1..][k - 1] == c;
        }
      }
      if j < 0 then -1 else j + 1
  }

  lemma {:induction false} IndexOfAt(a: string, b: string, c: char)
    requires c !in a
    ensures IndexOf(a + [c] + b, c) == |a|
    decreases |a|
  {
    var s := a + [c] + b;
    if a != [] {
      assert a[0] in a;
      assert s[1..] == a[1..] + [c] + b;
      IndexOfAt(a[1..], b, c);
    }
  }

  /** QString::split(sep) keeping empty parts: the segments between the
      separators, from left to right. */
  function Split(s: string, sep: char): (parts: seq<string>)
    ensures |parts| >= 1
    decreases |s|
  {
    var i := IndexOf(s, sep);
    if i < 0 then [s] else [s[..i]] + Split(s[i + 1..], sep)
  }

  /** QStringList::join(sep) */
  function Join(parts: seq<string>, sep: string): string
    decreases |parts|
  {
    if parts == [] then ""
    else if |parts| == 1 then parts[0]
    else parts[0] + sep + Join(parts[1..], sep)
  }

  /** Splitting and joining again with the same separator gives back the
      original string: Split neither loses nor invents characters. */
  lemma {:induction false} JoinSplit(s: string, sep: char)
    ensures Join(Split(s, sep), [sep]) == s
    decreases |s|
  {
    var i := IndexOf(s, sep);
    if i >= 0 {
      var head, tail := s[..i], s[i + 1..];
      var rest := Split(tail, sep);
      assert Split(s, sep) == [head] + rest;
      calc {
        Join(Split(s, sep), [sep]);
        { JoinCons(head, rest, [sep]); }
        head + [sep] + Join(rest, [sep]);
        { JoinSplit(tail, sep); }
        head + [sep] + tail;
        { Reassemble(s, i); }
        s;
      }
    }
  }

  lemma Reassemble(s: string, i: nat)
    requires i < |s|
    ensures s == s[..i] + [s[i]] + s[i + 1..]
  {
  }

  lemma JoinCons(p: string, rest: seq<string>, sep: string)
    requires rest != []
    ensures Join([p] + rest, sep) == p + sep + Join(rest, sep)
  {
    assert ([p] + rest)[1..] == rest;
  }

  lemma SplitNoSeparator(a: string, sep: char)
    requires sep !in a
    ensures Split(a, sep) == [a]
  {
  }

  lemma SplitAfterSegment(a: string, b: string, sep: char)
    requires sep !in a
    ensures Split(a + [sep] + b, sep) == [a] + Split(b, sep)
  {
    var s := a + [sep] + b;
    IndexOfAt(a, b, sep);
    assert s[..|a|] == a;
    assert s[|a| + 1..] == b;
  }

  /** Joining parts free of the separator and splitting again gives back
      the parts. */
  lemma {:induction false} SplitJoin(parts: seq<string>, sep: char)
    requires parts != []
    requires forall k :: 0 <= k < |parts| ==> sep !in parts[k]
    ensures Split(Join(parts, [sep]), sep) == parts
    decreases |parts|
  {
    if |parts| == 1 {
      SplitNoSeparator(parts[0], sep);
    } else {
      var rest := parts[1..];
      assert parts == [parts[0]] + rest;
      JoinCons(parts[0], rest, [sep]);
      SplitAfterSegment(parts[0], Join(rest, [sep]), sep);
      SplitJoin(rest, sep);
    }
  }

  /** The non-empty parts, in order (Qt::SkipEmptyParts). */
  function NonEmpty(parts: seq<string>): (r: seq<string>)
    ensures |r| <= |parts|
    ensures forall k :: 0 <= k < |r| ==> r[k] != []
    decreases |parts|
  {
    if parts == [] then []
    else (if parts[0] == [] then [] else [parts[0]]) + NonEmpty(parts[1..])
  }

  /** QString::split(sep, Qt::SkipEmptyParts) */
  function SplitSkipEmpty(s: string, sep: char): seq<string> {
    NonEmpty(Split(s, sep))
  }

  lemma {:induction false} NonEmptyAll(parts: seq<string>)
    requires forall k :: 0 <= k < |parts| ==> parts[k] != []
    ensures NonEmpty(parts) == parts
    decreases |parts|
  {
    if parts != [] {
      NonEmptyAll(parts[1..]);
    }
  }

  lemma NonEmptyCons(p: string, rest: seq<string>)
    ensures NonEmpty([p] + rest) == (if p == [] then [] else [p]) + NonEmpty(rest)
  {
    assert ([p] + rest)[1..] == rest;
  }

  /** Skipping empty parts leaves nothing exactly when the string consists of
      separators only. */
  lemma {:induction false} SplitSkipEmptyNone(s: string, sep: char)
    ensures SplitSkipEmpty(s, sep) == [] <==> forall i :: 0 <= i < |s| ==> s[i] == sep
    decreases |s|
  {
    var i := IndexOf(s, sep);
    if i >= 0 {
      var t := s[i + 1..];
      SplitSkipEmptyNone(t, sep);
      NonEmptyCons(s[..i], Split(t, sep));
      if i == 0 {
        assert forall k :: 0 <= k < |t| ==> t[k] == s[k + 1];
        if forall k :: 0 <= k < |t| ==> t[k] == sep {
          forall k | 0 <= k < |s| ensures s[k] == sep {
            if k > 0 { assert s[k] == t[k - 1]; }
          }
        }
      } else {
        assert s[0] != sep;
      }
    } else if s != [] {
      assert s[0] != sep;
    }
  }

  /** When the string does not start with the separator, its first part is
      the first character onwards. */
  lemma SplitSkipEmptyFirst(s: string, sep: char)
    requires s != [] && s[0] != sep
    ensures SplitSkipEmpty(s, sep) != [] && SplitSkipEmpty(s, sep)[0][0] == s[0]
  {
    var i := IndexOf(s, sep);
    if i >= 0 {
      NonEmptyCons(s[..i], Split(s[i + 1..], sep));
    }
  }

  /** QString::section(c, 1): everything after the first c, or "" without one. */
  function SectionAfter(s: string, c: char): (r: string)
    ensures |r| < |s| || r == ""
    decreases |s|
  {
    if s == [] then ""
    else if s[0] == c then s[1..]
    else SectionAfter(s[1..], c)
  }

  /** Behind a c-free prefix and a c, the section is what follows. */
  lemma {:induction false} SectionAfterAt(a: string, b: string, c: char)
    requires c !in a
    ensures SectionAfter(a + [c] + b, c) == b
    decreases |a|
  {
    var s := a + [c] + b;
    if a == [] {
      assert s[1..] == b;
    } else {
      assert a[0] in a;
      assert s[1..] == a[1..] + [c] + b;
      SectionAfterAt(a[1..], b, c);
    }
  }

  /** The section is empty without a c, and otherwise the suffix after the
      first c. */
  lemma {:induction false} SectionAfterMeans(s: string, c: char)
    ensures c !in s ==> SectionAfter(s, c) == ""
    ensures c in s ==> SectionAfter(s, c) == s[IndexOf(s, c) + 1..]
    decreases |s|
  {
    if s != [] && s[0] != c {
      SectionAfterMeans(s[1..], c);
      assert c in s <==> c in s[1..];
    }
  }

  /** A prefix one longer is the shorter one and the next element. */
  lemma PrefixSnoc<T>(s: seq<T>, n: nat)
    requires n < |s|
    ensures s[..n + 1] == s[..n] + [s[n]]
  {
  }

  // -------------------------------------------------------------- simplified

  /** Replace each run of whitespace by one space, dropping a trailing run. */
  function Collapse(s: string): string
    decreases |s|
  {
    if s == [] then []
    else if IsSpace(s[0]) then
      var rest := TrimStart(s);
      if rest == [] then [] else [' '] + Collapse(rest)
    else [s[0]] + Collapse(s[1..])
  }

  /** QString::simplified: trimmed, with internal whitespace runs collapsed
      to single spaces. */
  function Simplified(s: string): string {
    Collapse(TrimStart(s))
  }

  predicate OnlySpaces(s: string) {
    forall i :: 0 <= i < |s| ==> s[i] == ' '
  }

  /** Dropping a whitespace prefix does not change whether a string is blank. */
  lemma TrimStartBlank(s: string)
    ensures Blank(TrimStart(s)) <==> Blank(s)
  {
    var t := TrimStart(s);
    var d := |s| - |t|;
    TrimStartMeans(s);
    if !Blank(s) {
      var i :| 0 <= i < |s| && !IsSpace(s[i]);
      assert i >= d && s[i] == t[i - d];
    }
  }

  /** The collapsed form holds no whitespace other than single spaces. */
  lemma {:induction false} CollapseChars(s: string)
    ensures forall i :: 0 <= i < |Collapse(s)| ==> Collapse(s)[i] == ' ' || !IsSpace(Collapse(s)[i])
    decreases |s|
  {
    if s != [] {
      if IsSpace(s[0]) {
        var rest := TrimStart(s);
        assert rest == TrimStart(s[1..]);
        if rest != [] {
          CollapseChars(rest);
        }
      } else {
        CollapseChars(s[1..]);
      }
    }
  }

  /** The collapsed form holds a character other than a space exactly when
      the input is not blank. */
  lemma {:induction false} CollapseBlank(s: string)
    ensures OnlySpaces(Collapse(s)) <==> Blank(s)
    decreases |s|
  {
    if s != [] {
      if IsSpace(s[0]) {
        var rest := TrimStart(s);
        assert rest == TrimStart(s[1..]);
        TrimStartBlank(s);
        if rest != [] {
          CollapseBlank(rest);
          var r := Collapse(rest);
          assert Collapse(s) == [' '] + r;
          assert forall i :: 0 <= i < |r| ==> ([' '] + r)[i + 1] == r[i];
        }
      } else {
        var r := Collapse(s[1..]);
        assert Collapse(s) == [s[0]] + r;
        assert Collapse(s)[0] != ' ';
        assert !Blank(s);
      }
    }
  }

  /** The simplified form is blank-free apart from single spaces, has a
      non-space character iff the input is not blank, and does not start with
      a space. */
  lemma SimplifiedShape(s: string)
    ensures forall i :: 0 <= i < |Simplified(s)| ==> Simplified(s)[i] == ' ' || !IsSpace(Simplified(s)[i])
    ensures OnlySpaces(Simplified(s)) <==> Blank(s)
    ensures Simplified(s) != [] ==> Simplified(s)[0] != ' '
  {
    var t := TrimStart(s);
    TrimStartBlank(s);
    CollapseChars(t);
    CollapseBlank(t);
  }

  /** The first character of the simplified form is the first non-space
      character of the input. */
  lemma SimplifiedFirst(s: string, k: nat)
    requires k < |s| && !IsSpace(s[k]) && forall j :: 0 <= j < k ==> IsSpace(s[j])
    ensures Simplified(s) != [] && Simplified(s)[0] == s[k]
  {
    var t := TrimStart(s);
    TrimStartMeans(s);
    assert |s| - |t| >= k + 1 || t[0] == s[|s| - |t|];
    assert |s| - |t| == k;
    assert t[0] == s[k];
  }

  // --------------------------------------------- code-unit order of QString

  /** QString's operator<: lexicographic on character codes. */
  predicate StrLess(a: string, b: string)
    decreases |a|
  {
    if a == [] then b != []
    else if b == [] then false
    else if a[0] != b[0] then a[0] < b[0]
    else StrLess(a[1..], b[1..])
  }

  lemma {:induction false} StrLessIrreflexive(a: string)
    ensures !StrLess(a, a)
    decreases |a|
  {
    if a != [] { StrLessIrreflexive(a[1..]); }
  }

  lemma {:induction false} StrLessTransitive(a: string, b: string, c: string)
    requires StrLess(a, b) && StrLess(b, c)
    ensures StrLess(a, c)
    decreases |a|
  {
    if a != [] && b != [] && c != [] && a[0] == b[0] && b[0] == c[0] {
      StrLessTransitive(a[1..], b[1..], c[1..]);
    }
  }

  lemma {:induction false} StrLessTotal(a: string, b: string)
    requires a != b
    ensures StrLess(a, b) || StrLess(b, a)
    decreases |a|
  {
    if a != [] && b != [] && a[0] == b[0] {
      assert a[1..] != b[1..] by {
        assert a == [a[0]] + a[1..] && b == [b[0]] + b[1..];
      }
      StrLessTotal(a[1..], b[1..]);
    }
  }

  lemma StrLessAsymmetric(a: string, b: string)
    requires StrLess(a, b)
    ensures !StrLess(b, a)
  {
    if StrLess(b, a) {
      StrLessTransitive(a, b, a);
      StrLessIrreflexive(a);
    }
  }

  predicate IsLeast(k: string, s: set<string>) {
    k in s && forall y :: y in s && y != k ==> StrLess(k, y)
  }

  lemma {:induction false} LeastExists(s: set<string>)
    requires s != {}
    ensures exists k :: IsLeast(k, s)
    decreases |s|
  {
    var x :| x in s;
    if s == {x} {
      assert IsLeast(x, s);
    } else {
      var rest := s - {x};
      LeastExists(rest);
      var m :| IsLeast(m, rest);
      if StrLess(x, m) {
        forall y | y in s && y != x ensures StrLess(x, y) {
          if y != m { StrLessTransitive(x, m, y); }
        }
        assert IsLeast(x, s);
      } else {
        StrLessTotal(x, m);
        assert IsLeast(m, s);
      }
    }
  }

  lemma LeastUnique(k: string, k': string, s: set<string>)
    requires IsLeast(k, s) && IsLeast(k', s)
    ensures k == k'
  {
    if k != k' { StrLessAsymmetric(k, k'); }
  }

  predicate StrictlyAscending(names: seq<string>) {
    forall i, j :: 0 <= i < j < |names| ==> StrLess(names[i], names[j])
  }

  /** The keys of a QMap, in the order QMap keeps them. */
  ghost function SortedKeys(s: set<string>): (r: seq<string>)
    ensures |r| == |s|
    decreases |s|
  {
    if s == {} then []
    else
      LeastExists(s);
      var k :| IsLeast(k, s);
      [k] + SortedKeys(s - {k})
  }

  /** The sorted keys are exactly the keys. */
  lemma {:induction false} SortedKeysMembers(s: set<string>)
    ensures forall x :: x in SortedKeys(s) <==> x in s
    decreases |s|
  {
    if s != {} {
      LeastExists(s);
      var k :| IsLeast(k, s);
      SortedKeysStep(k, s);
      SortedKeysMembers(s - {k});
    }
  }

  /** QMap keeps its keys in strictly ascending order. */
  lemma {:induction false} SortedKeysAscending(s: set<string>)
    ensures StrictlyAscending(SortedKeys(s))
    decreases |s|
  {
    if s != {} {
      LeastExists(s);
      var k :| IsLeast(k, s);
      SortedKeysStep(k, s);
      SortedKeysAscending(s - {k});
      SortedKeysMembers(s - {k});
      AscendingCons(k, SortedKeys(s - {k}), s);
    }
  }

  /** A least key in front of an ascending list of the other keys keeps it ascending. */
  lemma AscendingCons(k: string, rest: seq<string>, s: set<string>)
    requires IsLeast(k, s) && StrictlyAscending(rest)
    requires forall x :: x in rest <==> x in s - {k}
    ensures StrictlyAscending([k] + rest)
  {
    var r := [k] + rest;
    forall i, j | 0 <= i < j < |r| ensures StrLess(r[i], r[j]) {
      assert r[j] == rest[j - 1] && rest[j - 1] in s - {k};
      if i > 0 {
        assert r[i] == rest[i - 1];
      }
    }
  }

  /** The least key comes first and the rest follow in order. */
  lemma SortedKeysStep(k: string, s: set<string>)
    requires IsLeast(k, s)
    ensures SortedKeys(s) == [k] + SortedKeys(s - {k})
  {
    forall k' | IsLeast(k', s) ensures k' == k {
      LeastUnique(k, k', s);
    }
  }
}
