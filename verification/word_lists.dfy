/**
 The keyword and stopword loaders of `TelegramNotifier` (`load_keywords`,
 `load_stopwords`). Reading the file is outside the model: a list file is
 given as what configparser made of it together with its raw lines, and only
 the per-value and per-line normalisation is modelled.
 */
module WordLists {
  import opened Text

  /**
   What configparser made of an existing file: the values of each section,
   in file order, or a parse error. A parse error is caught by the loader's
   `except Exception`, which leaves the list as it was (empty).
   */
  datatype IniRead = Unparsable | Parsed(sections: map<string, seq<string>>)

  /** A list file: absent (`os.path.exists` is false), or present with its contents. */
  datatype ListFile = Missing | Present(ini: IniRead, lines: seq<string>)

  /** A normalised entry: non-empty, without surrounding whitespace, lower case. */
  predicate IsEntry(w: string) {
    |w| > 0 && IsStripped(w) && IsLower(w)
  }

  /** `value.strip().lower()`: the normal form of a raw entry. */
  function Normalise(v: string): string {
    Lower(Strip(v))
  }

  /** A raw value that is not blank normalises to a well-formed entry. */
  lemma NormaliseIsEntry(v: string)
    requires |Strip(v)| > 0
    ensures IsEntry(Normalise(v))
  {
    LowerKeepsStripped(Strip(v));
  }

  /** The raw value `v` is not blank and normalises to `w`. */
  predicate ValueGives(v: string, w: string) {
    |Strip(v)| > 0 && Normalise(v) == w
  }

  /**
   The entries a configparser section contributes, value by value as the
   loader's loop adds them: blank values are skipped, the others are
   stripped and lower-cased.
   */
  function SectionEntries(values: seq<string>): (r: set<string>)
    ensures forall w :: w in r ==> IsEntry(w)
  {
    if |values| == 0 then {}
    else
      var v := values[|values| - 1];
      var rest := SectionEntries(values[..|values| - 1]);
      if |Strip(v)| > 0 then
        NormaliseIsEntry(v);
        rest + {Normalise(v)}
      else
        rest
  }

  /** A word is a section entry exactly when some non-blank value of the section normalises to it. */
  lemma {:induction false} SectionEntriesExact(values: seq<string>, w: string)
    ensures w in SectionEntries(values) <==> exists v :: v in values && ValueGives(v, w)
  {
    if |values| > 0 {
      var init := values[..|values| - 1];
      var v := values[|values| - 1];
      assert values == init + [v];
      SectionEntriesStep(values, w);
      SectionEntriesExact(init, w);
      ValueInSnoc(init, v, w);
    }
  }

  /** The last value contributes `w` or the earlier ones do. */
  lemma SectionEntriesStep(values: seq<string>, w: string)
    requires |values| > 0
    ensures w in SectionEntries(values)
      <==> w in SectionEntries(values[..|values| - 1]) || ValueGives(values[|values| - 1], w)
  {
  }

  /** A value of `init + [v]` giving `w` is `v` itself or a value of `init` giving `w`. */
  lemma ValueInSnoc(init: seq<string>, v: string, w: string)
    ensures (exists x :: x in init + [v] && ValueGives(x, w))
      <==> ValueGives(v, w) || exists x :: x in init && ValueGives(x, w)
  {
    var values := init + [v];
    if ValueGives(v, w) { assert v in values; }
    if x :| x in init && ValueGives(x, w) { assert x in values; }
    if x :| x in values && ValueGives(x, w) { assert x == v || x in init; }
  }

  /** The line filter of the fallback: a stripped line is kept unless blank, a `#` comment or a `[` header. */
  predicate KeepsLine(line: string) {
    var t := Strip(line);
    |t| > 0 && t[0] != '#' && t[0] != '['
  }

  /** A kept line normalises to an entry that still does not begin with `#` or `[`. */
  lemma KeptLineIsEntry(line: string)
    requires KeepsLine(line)
    ensures IsEntry(Normalise(line))
    ensures Normalise(line)[0] != '#' && Normalise(line)[0] != '['
  {
    NormaliseIsEntry(line);
    var t := Strip(line);
    assert Lower(t)[0] == LowerChar(t[0]);
  }

  /** The raw line `line` passes the filter and normalises to `w`. */
  predicate LineGives(line: string, w: string) {
    KeepsLine(line) && Normalise(line) == w
  }

  /**
   The entries the plain-text fallback reads, line by line: every kept line,
   stripped and lower-cased. No entry begins with `#` or `[`.
   */
  function LineEntries(lines: seq<string>): (r: set<string>)
    ensures forall w :: w in r ==> IsEntry(w) && w[0] != '#' && w[0] != '['
  {
    if |lines| == 0 then {}
    else
      var line := lines[|lines| - 1];
      var rest := LineEntries(lines[..|lines| - 1]);
      if KeepsLine(line) then
        KeptLineIsEntry(line);
        rest + {Normalise(line)}
      else
        rest
  }

  /** A word is a fallback entry exactly when some kept line normalises to it. */
  lemma {:induction false} LineEntriesExact(lines: seq<string>, w: string)
    ensures w in LineEntries(lines) <==> exists line :: line in lines && LineGives(line, w)
  {
    if |lines| > 0 {
      var init := lines[..|lines| - 1];
      var line := lines[|lines| - 1];
      assert lines == init + [line];
      LineEntriesStep(lines, w);
      LineEntriesExact(init, w);
      LineInSnoc(init, line, w);
    }
  }

  /** The last line contributes `w` or the earlier ones do. */
  lemma LineEntriesStep(lines: seq<string>, w: string)
    requires |lines| > 0
    ensures w in LineEntries(lines)
      <==> w in LineEntries(lines[..|lines| - 1]) || LineGives(lines[|lines| - 1], w)
  {
  }

  /** A line of `init + [line]` giving `w` is `line` itself or a line of `init` giving `w`. */
  lemma LineInSnoc(init: seq<string>, line: string, w: string)
    ensures (exists x :: x in init + [line] && LineGives(x, w))
      <==> LineGives(line, w) || exists x :: x in init && LineGives(x, w)
  {
    var lines := init + [line];
    if LineGives(line, w) { assert line in lines; }
    if x :| x in init && LineGives(x, w) { assert x in lines; }
    if x :| x in lines && LineGives(x, w) { assert x == line || x in init; }
  }

  /**
   The shared logic of `load_keywords` and `load_stopwords` for the section
   named `section`: a missing file gives the empty set, an unparsable one
   too; otherwise the section's entries, and only when these are empty (no
   such section, or only blank values) the line fallback.
   */
  function LoadWordList(section: string, file: ListFile): (r: set<string>)
    ensures forall w :: w in r ==> IsEntry(w)
    ensures "" !in r
    ensures file.Missing? || file.ini.Unparsable? ==> r == {}
    ensures file.Present? && file.ini.Parsed? && section in file.ini.sections
      && SectionEntries(file.ini.sections[section]) != {}
      ==> r == SectionEntries(file.ini.sections[section])
    ensures file.Present? && file.ini.Parsed?
      && (section !in file.ini.sections || SectionEntries(file.ini.sections[section]) == {})
      ==> r == LineEntries(file.lines)
  {
    match file
    case Missing => {}
    case Present(ini, lines) =>
      match ini
      case Unparsable => {}
      case Parsed(sections) =>
        var fromSection := if section in sections then SectionEntries(sections[section]) else {};
        if fromSection != {} then fromSection else LineEntries(lines)
  }

  /** `load_keywords`: the `[keywords]` section, or the line fallback. */
  function LoadKeywords(file: ListFile): (r: set<string>)
    ensures forall w :: w in r ==> IsEntry(w)
    ensures file.Present? && file.ini.Parsed? && "keywords" in file.ini.sections ==>
              forall v :: v in file.ini.sections["keywords"] && |Strip(v)| > 0 ==> Normalise(v) in r
  {
    SectionValuesLoaded("keywords", file);
    LoadWordList("keywords", file)
  }

  /** `load_stopwords`: the `[stopwords]` section, or the line fallback. */
  function LoadStopwords(file: ListFile): (r: set<string>)
    ensures forall w :: w in r ==> IsEntry(w)
    ensures file.Present? && file.ini.Parsed? && "stopwords" in file.ini.sections ==>
              forall v :: v in file.ini.sections["stopwords"] && |Strip(v)| > 0 ==> Normalise(v) in r
  {
    SectionValuesLoaded("stopwords", file);
    LoadWordList("stopwords", file)
  }

  /**
   A plain list of phrases with no section header: configparser rejects it,
   the loader's `except` keeps the empty set, and the line fallback, which
   would have read the phrase, is never reached.
   */
  lemma PlainListGivesNothing()
    ensures LoadKeywords(Present(Unparsable, ["python"])) == {}
    ensures LineEntries(["python"]) == {"python"}
  {
    var line := "python";
    StrippedIsFixed(line);
    assert Normalise(line) == line;
    assert KeepsLine(line);
    assert ["python"][..0] == [];
  }

  /** Each non-blank value of the section, normalised, is among the section's entries. */
  lemma SectionValuesLoaded(section: string, file: ListFile)
    ensures file.Present? && file.ini.Parsed? && section in file.ini.sections ==>
              forall v :: v in file.ini.sections[section] && |Strip(v)| > 0 ==>
                Normalise(v) in SectionEntries(file.ini.sections[section])
  {
    if file.Present? && file.ini.Parsed? && section in file.ini.sections {
      forall v | v in file.ini.sections[section] && |Strip(v)| > 0
        ensures Normalise(v) in SectionEntries(file.ini.sections[section])
      {
        SectionEntriesExact(file.ini.sections[section], Normalise(v));
      }
    }
  }

  /** Every loaded entry comes from a non-blank section value or from a kept line. */
  lemma LoadedEntriesHaveASource(section: string, file: ListFile, w: string)
    requires w in LoadWordList(section, file)
    ensures file.Present? && file.ini.Parsed?
    ensures || (section in file.ini.sections &&
                exists v :: v in file.ini.sections[section] && ValueGives(v, w))
            || (exists line :: line in file.lines && LineGives(line, w))
  {
    if section in file.ini.sections { SectionEntriesExact(file.ini.sections[section], w); }
    LineEntriesExact(file.lines, w);
  }
}
