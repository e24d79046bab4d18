/** The word detail window's handling of the translation field
    (GUI/WordDetailWindow.cpp): the parser that splits a Tagalog translation
    into definition, synonyms, antonyms, background and usage by its
    "Kasingkahulugan:", "Kasalungat:" and "Halimbawa:" markers, and the rule
    that picks what the window shows in Tagalog and in English. */
module WordDetail {
  import opened Text
  import opened WordEntries

  // --------------------------------------------------------------- lines

  datatype LineKind = Synonym | Antonym | Example | Plain

  const SynonymMarker := "Kasingkahulugan"
  const AntonymMarker := "Kasalungat"
  const ExampleMarker := "Halimbawa"

  /** The markers are tested in this order, ignoring case, on the trimmed line. */
  function Classify(line: string): LineKind {
    if StartsWithIgnoreCase(line, SynonymMarker) then Synonym
    else if StartsWithIgnoreCase(line, AntonymMarker) then Antonym
    else if StartsWithIgnoreCase(line, ExampleMarker) then Example
    else Plain
  }

  /** The value of a marked line: the trimmed text after its first ':', or
      "" when it has none. */
  function MarkerValue(line: string): string {
    Trimmed(SectionAfter(line, ':'))
  }

  /** A trimmed line together with its kind. */
  datatype Line = Line(text: string, kind: LineKind)

  function Classified(text: string): (l: Line)
    ensures l.text == text
  {
    Line(text, Classify(text))
  }

  /** The lines the parser looks at: the non-empty '\n'-separated segments,
      each trimmed, with their kinds. */
  function Lines(t: string): (ls: seq<Line>)
    ensures |ls| == |SplitSkipEmpty(t, '\n')|
  {
    LinesOf(SplitSkipEmpty(t, '\n'))
  }

  /** Each segment trimmed and classified. */
  function LinesOf(segments: seq<string>): (ls: seq<Line>)
    ensures |ls| == |segments|
  {
    seq(|segments|, i requires 0 <= i < |segments| => Classified(Trimmed(segments[i])))
  }

  /** The last line of the given kind, or "" when there is none. */
  function LastLine(ls: seq<Line>, kind: LineKind): string
    requires kind != Plain
    decreases |ls|
  {
    if ls == [] then ""
    else if ls[|ls| - 1].kind == kind then ls[|ls| - 1].text
    else LastLine(ls[..|ls| - 1], kind)
  }

  /** The texts of the unmarked lines, in order. */
  function Unmarked(ls: seq<Line>): (u: seq<string>)
    ensures |u| <= |ls|
    decreases |ls|
  {
    if ls == [] then []
    else Unmarked(ls[..|ls| - 1]) + (if ls[|ls| - 1].kind == Plain then [ls[|ls| - 1].text] else [])
  }

  /** The value of the last line of the given kind, or "" when there is none. */
  function LastValue(ls: seq<Line>, kind: LineKind): string
    requires kind != Plain
    decreases |ls|
  {
    if ls == [] then ""
    else if ls[|ls| - 1].kind == kind then MarkerValue(ls[|ls| - 1].text)
    else LastValue(ls[..|ls| - 1], kind)
  }

  datatype Translation = Translation(
    definition: string,
    synonyms: string,
    antonyms: string,
    background: string,
    usage: string)

  const NoTranslation := Translation("", "", "", "", "")

  /** What parseTranslation returns: the first unmarked line as definition,
      the other unmarked lines joined by '\n' as background, and for each
      marker the value of its last line. */
  function Parsed(t: string): Translation {
    if t == "" then NoTranslation
    else
      var ls := Lines(t);
      var u := Unmarked(ls);
      Translation(
        if u == [] then "" else u[0],
        LastValue(ls, Synonym),
        LastValue(ls, Antonym),
        if |u| >= 2 then Join(u[1..], "\n") else "",
        LastValue(ls, Example))
  }

  /** The value of a marker is that of its last line: a later line of the
      same kind overwrites an earlier one, and with no such line it is "". */
  lemma {:induction false} LastLineNone(ls: seq<Line>, kind: LineKind)
    requires kind != Plain
    requires forall j :: 0 <= j < |ls| ==> ls[j].kind != kind
    ensures LastLine(ls, kind) == "" && MarkerValue(LastLine(ls, kind)) == ""
    decreases |ls|
  {
    if ls != [] {
      var init := ls[..|ls| - 1];
      assert forall j :: 0 <= j < |init| ==> init[j] == ls[j];
      LastLineNone(init, kind);
    }
  }

  lemma {:induction false} LastLineIsLast(ls: seq<Line>, kind: LineKind)
    requires kind != Plain
    ensures forall j :: LastOfKind(ls, kind, j) ==> LastLine(ls, kind) == ls[j].text
    decreases |ls|
  {
    if ls != [] {
      var n := |ls| - 1;
      var init := ls[..n];
      LastLineIsLast(init, kind);
      forall j | LastOfKind(ls, kind, j) ensures LastLine(ls, kind) == ls[j].text {
        if j < n {
          assert ls[n].kind != kind;
          assert init[j] == ls[j];
          assert LastOfKind(init, kind, j);
        }
      }
    }
  }

  /** Line j is the last line of its kind. */
  predicate LastOfKind(ls: seq<Line>, kind: LineKind, j: int) {
    0 <= j < |ls| && ls[j].kind == kind &&
    (forall j' :: j < j' < |ls| ==> ls[j'].kind != kind)
  }

  /** Unmarked keeps exactly the unmarked lines, in order. */
  lemma {:induction false} UnmarkedAppend(a: seq<Line>, b: seq<Line>)
    ensures Unmarked(a + b) == Unmarked(a) + Unmarked(b)
    decreases |b|
  {
    if b == [] {
      assert a + b == a;
    } else {
      var b' := b[..|b| - 1];
      assert (a + b)[..|a + b| - 1] == a + b';
      UnmarkedAppend(a, b');
    }
  }

  lemma LastLineSnoc(ls: seq<Line>, l: Line, kind: LineKind)
    requires kind != Plain
    ensures LastLine(ls + [l], kind) == if l.kind == kind then l.text else LastLine(ls, kind)
  {
    assert (ls + [l])[..|ls|] == ls;
  }

  lemma UnmarkedSnoc(ls: seq<Line>, l: Line)
    ensures Unmarked(ls + [l]) == Unmarked(ls) + (if l.kind == Plain then [l.text] else [])
  {
    assert (ls + [l])[..|ls|] == ls;
  }

  lemma {:induction false} UnmarkedMembers(ls: seq<Line>)
    ensures forall x :: x in Unmarked(ls) <==> Line(x, Plain) in ls
    decreases |ls|
  {
    if ls != [] {
      var init := ls[..|ls| - 1];
      UnmarkedMembers(init);
      assert ls == init + [ls[|ls| - 1]];
    }
  }

  /** A whitespace-only segment becomes an empty unmarked line. */
  lemma BlankLineIsPlain(segment: string)
    requires Blank(segment)
    ensures Classified(Trimmed(segment)) == Line("", Plain)
  {
  }

  lemma EmptyInput()
    ensures Parsed("") == NoTranslation
  {
  }

  /** The parsed background is non-empty only with two unmarked lines or more. */
  lemma BackgroundNeedsTwoLines(t: string)
    requires |Unmarked(Lines(t))| < 2
    ensures Parsed(t).background == ""
  {
  }

  /** The parseTranslation lambda: one pass over the trimmed lines, each
      marker line overwriting its output, unmarked lines collected; then the
      first unmarked line is the definition and the rest the background. */
  method ParseTranslation(t: string) returns (r: Translation)
    ensures r == Parsed(t)
  {
    if t == "" {
      return NoTranslation;
    }
    var lines := SplitSkipEmpty(t, '\n');
    var syn, ant, usage, pending := ScanLines(lines);
    var def, bg := "", "";
    if pending != [] {
      def := pending[0];
      pending := pending[1..];
      if pending != [] {
        bg := Join(pending, "\n");
      }
    }
    return Translation(def, syn, ant, bg, usage);
  }

  /** The loop of parseTranslation over the segments. */
  method ScanLines(lines: seq<string>) returns (syn: string, ant: string, usage: string, pending: seq<string>)
    ensures syn == LastValue(LinesOf(lines), Synonym)
    ensures ant == LastValue(LinesOf(lines), Antonym)
    ensures usage == LastValue(LinesOf(lines), Example)
    ensures pending == Unmarked(LinesOf(lines))
  {
    ghost var ls := LinesOf(lines);
    syn, ant, usage := "", "", "";
    pending := [];
    var i := 0;
    while i < |lines|
      invariant 0 <= i <= |lines|
      invariant syn == LastValue(ls[..i], Synonym)
      invariant ant == LastValue(ls[..i], Antonym)
      invariant usage == LastValue(ls[..i], Example)
      invariant pending == Unmarked(ls[..i])
    {
      var line := Trimmed(lines[i]);
      ScanStep(lines, i);
      if StartsWithIgnoreCase(line, SynonymMarker) {
        syn := MarkerValue(line);
      } else if StartsWithIgnoreCase(line, AntonymMarker) {
        ant := MarkerValue(line);
      } else if StartsWithIgnoreCase(line, ExampleMarker) {
        usage := MarkerValue(line);
      } else {
        pending := pending + [line];
      }
      i := i + 1;
    }
    assert ls[..i] == ls;
  }

  /** What one more segment does to the values the loop keeps. */
  lemma ScanStep(lines: seq<string>, i: nat)
    requires i < |lines|
    ensures var ls, line := LinesOf(lines), Trimmed(lines[i]);
      var kind := Classify(line);
      LastValue(ls[..i + 1], Synonym) == (if kind == Synonym then MarkerValue(line) else LastValue(ls[..i], Synonym)) &&
      LastValue(ls[..i + 1], Antonym) == (if kind == Antonym then MarkerValue(line) else LastValue(ls[..i], Antonym)) &&
      LastValue(ls[..i + 1], Example) == (if kind == Example then MarkerValue(line) else LastValue(ls[..i], Example)) &&
      Unmarked(ls[..i + 1]) == Unmarked(ls[..i]) + (if kind == Plain then [line] else [])
  {
    var ls := LinesOf(lines);
    var l := Classified(Trimmed(lines[i]));
    assert ls[i] == l;
    PrefixSnoc(ls, i);
    LastValueSnoc(ls[..i], l, Synonym);
    LastValueSnoc(ls[..i], l, Antonym);
    LastValueSnoc(ls[..i], l, Example);
    UnmarkedSnoc(ls[..i], l);
  }

  lemma LastValueSnoc(ls: seq<Line>, l: Line, kind: LineKind)
    requires kind != Plain
    ensures LastValue(ls + [l], kind) == if l.kind == kind then MarkerValue(l.text) else LastValue(ls, kind)
  {
    assert (ls + [l])[..|ls|] == ls;
  }

  lemma {:induction false} LastValueOfLastLine(ls: seq<Line>, kind: LineKind)
    requires kind != Plain
    ensures LastValue(ls, kind) == MarkerValue(LastLine(ls, kind))
    decreases |ls|
  {
    if ls == [] {
      assert MarkerValue("") == "";
    } else if ls[|ls| - 1].kind != kind {
      LastValueOfLastLine(ls[..|ls| - 1], kind);
    }
  }

  // --------------------------------------------- the seeded translation form

  /** Non-empty, with visible characters at both ends: trimming keeps it. */
  predicate Visible(s: string) {
    s != [] && !IsSpace(s[0]) && !IsSpace(s[|s| - 1])
  }

  /** A marked line: the marker, a colon, a space and the value. */
  function MarkedText(marker: string, v: string): string {
    marker + ": " + v
  }

  /** A marked line built from visible single-line pieces is itself a
      visible single line. */
  lemma MarkedShape(marker: string, v: string)
    requires marker != [] && !IsSpace(marker[0]) && '\n' !in marker
    requires Visible(v) && '\n' !in v
    ensures Visible(MarkedText(marker, v)) && '\n' !in MarkedText(marker, v)
  {
    var line := MarkedText(marker, v);
    assert line[0] == marker[0];
    assert line[|line| - 1] == v[|v| - 1];
    NotInConcat(marker, ": ", '\n');
    NotInConcat(marker + ": ", v, '\n');
  }

  /** The value of a marked line whose marker has no ':' is the value
      written after it. */
  lemma MarkedValue(marker: string, v: string)
    requires ':' !in marker && Visible(v)
    ensures MarkerValue(MarkedText(marker, v)) == v
  {
    var rest := [' '] + v;
    assert MarkedText(marker, v) == marker + [':'] + rest;
    SectionAfterAt(marker, rest, ':');
    TrimmedLeadingSpace(v);
    TrimmedNoOp(v);
  }

  lemma NotInConcat<T>(a: seq<T>, b: seq<T>, x: T)
    requires x !in a && x !in b
    ensures x !in a + b
  {
  }

  /** Visible single lines joined by '\n' are read back one by one, each
      with its kind. */
  lemma LinesOfJoin(parts: seq<string>)
    requires parts != []
    requires forall k :: 0 <= k < |parts| ==> Visible(parts[k]) && '\n' !in parts[k]
    ensures Lines(Join(parts, "\n")) == seq(|parts|, k requires 0 <= k < |parts| => Classified(parts[k]))
  {
    JoinSplitsBack(parts);
    LinesOfVisible(Join(parts, "\n"), parts);
  }

  lemma JoinSplitsBack(parts: seq<string>)
    requires parts != []
    requires forall k :: 0 <= k < |parts| ==> parts[k] != [] && '\n' !in parts[k]
    ensures SplitSkipEmpty(Join(parts, "\n"), '\n') == parts
  {
    SplitJoin(parts, '\n');
    NonEmptyAll(parts);
  }

  lemma LinesOfVisible(t: string, parts: seq<string>)
    requires SplitSkipEmpty(t, '\n') == parts
    requires forall k :: 0 <= k < |parts| ==> Visible(parts[k])
    ensures Lines(t) == seq(|parts|, k requires 0 <= k < |parts| => Classified(parts[k]))
  {
    forall k | 0 <= k < |parts| ensures Trimmed(parts[k]) == parts[k] {
      TrimmedNoOp(parts[k]);
    }
  }

  /** A definition line followed by a synonym, an antonym and an example
      line parses into the definition, the three marker values and no
      background. */
  lemma ParsedFour(t: string, a: string, b: string, c: string, e: string)
    requires t != ""
    requires Lines(t) == [Line(a, Plain), Line(b, Synonym), Line(c, Antonym), Line(e, Example)]
    ensures Parsed(t) == Translation(a, MarkerValue(b), MarkerValue(c), "", MarkerValue(e))
  {
    var ls := Lines(t);
    FourLineValues(a, b, c, e);
    LastValueOfLastLine(ls, Synonym);
    LastValueOfLastLine(ls, Antonym);
    LastValueOfLastLine(ls, Example);
  }

  lemma FourLineValues(a: string, b: string, c: string, e: string)
    ensures var ls := [Line(a, Plain), Line(b, Synonym), Line(c, Antonym), Line(e, Example)];
      Unmarked(ls) == [a] && LastLine(ls, Synonym) == b &&
      LastLine(ls, Antonym) == c && LastLine(ls, Example) == e
  {
    var ls := [Line(a, Plain), Line(b, Synonym), Line(c, Antonym), Line(e, Example)];
    FourUnmarked(a, b, c, e);
    FourLast(ls, Synonym, 1);
    FourLast(ls, Antonym, 2);
    FourLast(ls, Example, 3);
  }

  lemma FourUnmarked(a: string, b: string, c: string, e: string)
    ensures Unmarked([Line(a, Plain), Line(b, Synonym), Line(c, Antonym), Line(e, Example)]) == [a]
  {
    var l0, l1, l2, l3 := Line(a, Plain), Line(b, Synonym), Line(c, Antonym), Line(e, Example);
    var ls := [l0, l1, l2, l3];
    assert ls[..3] == [l0, l1, l2];
    assert [l0, l1, l2][..2] == [l0, l1];
    assert [l0, l1][..1] == [l0];
    assert [l0][..0] == [];
    assert Unmarked([l0]) == [a];
    assert Unmarked([l0, l1]) == [a];
    assert Unmarked([l0, l1, l2]) == [a];
  }

  lemma FourLast(ls: seq<Line>, kind: LineKind, j: int)
    requires kind != Plain && 0 <= j < |ls| && ls[j].kind == kind
    requires forall j' :: j < j' < |ls| ==> ls[j'].kind != kind
    ensures LastLine(ls, kind) == ls[j].text
  {
    assert LastOfKind(ls, kind, j);
    LastLineIsLast(ls, kind);
  }

  /** The translations of the built-in entries are a definition line and
      then "Kasingkahulugan: …", "Kasalungat: …" and "Halimbawa: …" lines;
      such a text parses into its definition, the three marked values and
      an empty background. */
  lemma SeededForm(d: string, syn: string, ant: string, ex: string)
    requires Visible(d) && '\n' !in d && Classify(d) == Plain
    requires Visible(syn) && '\n' !in syn
    requires Visible(ant) && '\n' !in ant
    requires Visible(ex) && '\n' !in ex
    ensures Parsed(Join([d, MarkedText(SynonymMarker, syn), MarkedText(AntonymMarker, ant),
                         MarkedText(ExampleMarker, ex)], "\n"))
      == Translation(d, syn, ant, "", ex)
  {
    var l1 := MarkedText(SynonymMarker, syn);
    var l2 := MarkedText(AntonymMarker, ant);
    var l3 := MarkedText(ExampleMarker, ex);
    var t := Join([d, l1, l2, l3], "\n");
    SeededLines(d, syn, ant, ex);
    assert t != "" by {
      assert Lines(t) != [];
    }
    ParsedFour(t, d, l1, l2, l3);
    SeededValues(syn, ant, ex);
  }

  lemma SeededLines(d: string, syn: string, ant: string, ex: string)
    requires Visible(d) && '\n' !in d && Classify(d) == Plain
    requires Visible(syn) && '\n' !in syn
    requires Visible(ant) && '\n' !in ant
    requires Visible(ex) && '\n' !in ex
    ensures var l1, l2, l3 := MarkedText(SynonymMarker, syn), MarkedText(AntonymMarker, ant), MarkedText(ExampleMarker, ex);
      Lines(Join([d, l1, l2, l3], "\n")) == [Line(d, Plain), Line(l1, Synonym), Line(l2, Antonym), Line(l3, Example)]
  {
    var l1, l2, l3 := MarkedText(SynonymMarker, syn), MarkedText(AntonymMarker, ant), MarkedText(ExampleMarker, ex);
    SeededKinds(syn, ant, ex);
    SeededShapes(syn, ant, ex);
    FourVisibleLines(d, l1, l2, l3);
    LinesOfJoin([d, l1, l2, l3]);
    FourClassified(d, l1, l2, l3);
  }

  lemma FourClassified(a: string, b: string, c: string, e: string)
    requires Classify(a) == Plain && Classify(b) == Synonym && Classify(c) == Antonym && Classify(e) == Example
    ensures var parts := [a, b, c, e];
      seq(|parts|, k requires 0 <= k < |parts| => Classified(parts[k])) ==
        [Line(a, Plain), Line(b, Synonym), Line(c, Antonym), Line(e, Example)]
  {
  }

  lemma FourVisibleLines(a: string, b: string, c: string, e: string)
    requires Visible(a) && '\n' !in a && Visible(b) && '\n' !in b
    requires Visible(c) && '\n' !in c && Visible(e) && '\n' !in e
    ensures forall k :: 0 <= k < 4 ==> Visible([a, b, c, e][k]) && '\n' !in [a, b, c, e][k]
  {
  }

  lemma SeededShapes(syn: string, ant: string, ex: string)
    requires Visible(syn) && '\n' !in syn
    requires Visible(ant) && '\n' !in ant
    requires Visible(ex) && '\n' !in ex
    ensures Visible(MarkedText(SynonymMarker, syn)) && '\n' !in MarkedText(SynonymMarker, syn)
    ensures Visible(MarkedText(AntonymMarker, ant)) && '\n' !in MarkedText(AntonymMarker, ant)
    ensures Visible(MarkedText(ExampleMarker, ex)) && '\n' !in MarkedText(ExampleMarker, ex)
  {
    MarkerShapes();
    MarkedShape(SynonymMarker, syn);
    MarkedShape(AntonymMarker, ant);
    MarkedShape(ExampleMarker, ex);
  }

  lemma SeededKinds(syn: string, ant: string, ex: string)
    ensures Classify(MarkedText(SynonymMarker, syn)) == Synonym
    ensures Classify(MarkedText(AntonymMarker, ant)) == Antonym
    ensures Classify(MarkedText(ExampleMarker, ex)) == Example
  {
    SynonymKind(MarkedText(SynonymMarker, syn), ": " + syn);
    AntonymKind(MarkedText(AntonymMarker, ant), ": " + ant);
    ExampleKind(MarkedText(ExampleMarker, ex), ": " + ex);
  }

  lemma SeededValues(syn: string, ant: string, ex: string)
    requires Visible(syn) && Visible(ant) && Visible(ex)
    ensures MarkerValue(MarkedText(SynonymMarker, syn)) == syn
    ensures MarkerValue(MarkedText(AntonymMarker, ant)) == ant
    ensures MarkerValue(MarkedText(ExampleMarker, ex)) == ex
  {
    MarkerShapes();
    MarkedValue(SynonymMarker, syn);
    MarkedValue(AntonymMarker, ant);
    MarkedValue(ExampleMarker, ex);
  }

  /** The markers are visible single words without a colon. */
  lemma MarkerShapes()
    ensures SynonymMarker != [] && !IsSpace(SynonymMarker[0]) && ':' !in SynonymMarker && '\n' !in SynonymMarker
    ensures AntonymMarker != [] && !IsSpace(AntonymMarker[0]) && ':' !in AntonymMarker && '\n' !in AntonymMarker
    ensures ExampleMarker != [] && !IsSpace(ExampleMarker[0]) && ':' !in ExampleMarker && '\n' !in ExampleMarker
  {
  }

  lemma SynonymKind(line: string, rest: string)
    requires line == SynonymMarker + rest
    ensures Classify(line) == Synonym
  {
    StartsWithOwnPrefix(SynonymMarker, rest);
  }

  /** "Kasalungat" parts from "Kasingkahulugan" at its fourth letter. */
  lemma AntonymKind(line: string, rest: string)
    requires line == AntonymMarker + rest
    ensures Classify(line) == Antonym
  {
    StartsWithOwnPrefix(AntonymMarker, rest);
    assert line[3] == 'a';
    NotPrefixAt(line, SynonymMarker, 3);
  }

  lemma ExampleKind(line: string, rest: string)
    requires line == ExampleMarker + rest
    ensures Classify(line) == Example
  {
    StartsWithOwnPrefix(ExampleMarker, rest);
    assert line[0] == 'H';
    NotPrefixAt(line, SynonymMarker, 0);
    NotPrefixAt(line, AntonymMarker, 0);
  }

  /** The translation of the built-in entry "Abandon": its four lines are
      "Iwan", the synonyms, the antonyms and the example. */
  lemma AbandonTranslation()
    ensures Parsed(Join(["Iwan",
                         MarkedText(SynonymMarker, AbandonSynonyms),
                         MarkedText(AntonymMarker, AbandonAntonyms),
                         MarkedText(ExampleMarker, AbandonExample)], "\n"))
      == Translation("Iwan", AbandonSynonyms, AbandonAntonyms, "", AbandonExample)
  {
    AbandonPieces();
    SeededForm("Iwan", AbandonSynonyms, AbandonAntonyms, AbandonExample);
  }

  lemma AbandonPieces()
    ensures Visible("Iwan") && '\n' !in "Iwan" && Classify("Iwan") == Plain
    ensures Visible(AbandonSynonyms) && '\n' !in AbandonSynonyms
    ensures Visible(AbandonAntonyms) && '\n' !in AbandonAntonyms
    ensures Visible(AbandonExample) && '\n' !in AbandonExample
  {
    AbandonDefinition();
    AbandonLists();
    AbandonExampleLine();
  }

  lemma AbandonDefinition()
    ensures Visible("Iwan") && '\n' !in "Iwan" && Classify("Iwan") == Plain
  {
    NotPrefixAt("Iwan", SynonymMarker, 0);
    NotPrefixAt("Iwan", AntonymMarker, 0);
    NotPrefixAt("Iwan", ExampleMarker, 0);
  }

  lemma AbandonLists()
    ensures Visible(AbandonSynonyms) && '\n' !in AbandonSynonyms
    ensures Visible(AbandonAntonyms) && '\n' !in AbandonAntonyms
  {
  }

  lemma AbandonExampleLine()
    ensures Visible(AbandonExample) && '\n' !in AbandonExample
  {
    assert AbandonExample[0] == 'K';
    NotInConcat("Kinailangan niyang iwan ", "ang kanyang mga plano ", '\n');
    NotInConcat("Kinailangan niyang iwan " + "ang kanyang mga plano ", "nang dumating ang bagyo.", '\n');
  }

  const AbandonSynonyms := "talikuran, pabayaan, isuko"
  const AbandonAntonyms := "panatilihin, ingatan, yakapin"
  /** The usage example of "Abandon", in Tagalog. */
  const AbandonExample := "Kinailangan niyang iwan " + "ang kanyang mga plano " + "nang dumating ang bagyo."

  // ------------------------------------------------------------ the views

  /** What the window shows: title, definition, synonyms, antonyms,
      background and usage. */
  datatype View = View(
    title: string,
    definition: string,
    synonyms: string,
    antonyms: string,
    background: string,
    usage: string)

  /** The English originals, the lists joined by ", ". */
  function EnglishView(e: WordEntry): View {
    View(e.word, e.definition, Join(e.synonyms, ", "), Join(e.antonyms, ", "), e.background, e.usage)
  }

  /** The parsed part when present, else the English original. */
  function Prefer(tagalog: string, english: string): (shown: string)
    ensures tagalog != "" ==> shown == tagalog
    ensures tagalog == "" ==> shown == english
  {
    if tagalog != "" then tagalog else english
  }

  /** The Tagalog view the toggle switches to from the English one, or None
      when the translation has no parsed part at all. */
  function TagalogView(e: WordEntry): (v: Option<View>)
    ensures var p := Parsed(e.translation);
      v.None? <==> p == NoTranslation
  {
    var p := Parsed(e.translation);
    if p == NoTranslation then None
    else
      var eng := EnglishView(e);
      Some(View(
        Prefer(p.definition, eng.title),
        Prefer(p.definition, eng.definition),
        Prefer(p.synonyms, eng.synonyms),
        Prefer(p.antonyms, eng.antonyms),
        Prefer(p.background, eng.background),
        Prefer(p.usage, eng.usage)))
  }

  datatype Option<T> = None | Some(value: T)

  /** Each shown field falls back to English on its own, and the title
      changes only to a non-empty parsed definition. */
  lemma TagalogFallback(e: WordEntry)
    requires TagalogView(e).Some?
    ensures var v := TagalogView(e).value;
      var p := Parsed(e.translation);
      var eng := EnglishView(e);
      (p.definition != "" ==> v.title == p.definition && v.definition == p.definition) &&
      (p.definition == "" ==> v.title == e.word && v.definition == e.definition) &&
      v.synonyms == (if p.synonyms != "" then p.synonyms else eng.synonyms) &&
      v.antonyms == (if p.antonyms != "" then p.antonyms else eng.antonyms) &&
      v.background == (if p.background != "" then p.background else e.background) &&
      v.usage == (if p.usage != "" then p.usage else e.usage)
  {
  }

  /** An entry without a translation never switches. */
  lemma NoTranslationNoSwitch(e: WordEntry)
    requires e.translation == ""
    ensures TagalogView(e) == None
  {
  }
}
