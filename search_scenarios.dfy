/**
 * Concrete searches over a two-record catalog, and the
 * threshold boundary of the fuzzy tier, derived from the general model.
 */
module SearchScenarios {
  import opened Text
  import opened EditDistance
  import opened Levenshtein
  import opened Search

  const Microscope := Record("Microscope", "Optical tool", "", "")
  const Telescope := Record("Telescope", "Viewing device", "", "")

  /** `filter` over a two-element array keeps each element on its own decision, in order. */
  lemma SelectPair(x: Record, y: Record, keep: Record -> bool)
    ensures Select([x, y], keep) == (if keep(x) then [x] else []) + (if keep(y) then [y] else [])
  {
    assert [x, y][1..] == [y];
    assert [y][1..] == [];
  }

  /** A query typed in lower case without surrounding blanks is used as it is. */
  lemma NormalizeTyped(raw: string)
    requires raw != [] && !IsWhiteSpace(raw[0]) && !IsWhiteSpace(raw[|raw| - 1])
    requires forall i :: 0 <= i < |raw| ==> !IsUpper(raw[i])
    ensures Normalize(raw) == raw
  {
    LowerOfLower(raw);
    TrimOfTrimmed(raw);
  }

  /** The catalog in lower case. */
  lemma CatalogFolded()
    ensures Lower("Microscope") == "microscope"
    ensures Lower("Telescope") == "telescope"
    ensures Lower("Viewing device") == "viewing device"
    ensures Lower("Optical tool") == "optical tool"
  {
  }

  /** The distance is case-insensitive: "ABC" and "abc" are at distance zero. */
  lemma UpperAndLowerAgree()
    ensures Distance("ABC", "abc") == 0
  {
    assert Lower("ABC") == "abc";
    LowerOfLower("abc");
    LevSelf("abc");
  }

  /** "telescope" has five of the letters t, e, l. */
  lemma TelescopeLetters()
    ensures CountIn("telescope", {'t', 'e', 'l'}) == 5
  {
    assert "telescope"[..8] == "telescop";
    assert "telescop"[..7] == "telesco";
    assert "telesco"[..6] == "telesc";
    assert "telesc"[..5] == "teles";
    assert "teles"[..4] == "tele";
    assert "tele"[..3] == "tel";
    assert "tel"[..2] == "te";
    assert "te"[..1] == "t";
  }

  /** "microscop" has none of the letters t, e, l. */
  lemma MicroscopLetters()
    ensures CountIn("microscop", {'t', 'e', 'l'}) == 0
  {
    assert "microscop"[..8] == "microsco";
    assert "microsco"[..7] == "microsc";
    assert "microsc"[..6] == "micros";
    assert "micros"[..5] == "micro";
    assert "micro"[..4] == "micr";
    assert "micr"[..3] == "mic";
    assert "mic"[..2] == "mi";
    assert "mi"[..1] == "m";
  }

  /** "mircoscope" has one of the letters t, e, l. */
  lemma MircoscopeLetters()
    ensures CountIn("mircoscope", {'t', 'e', 'l'}) == 1
  {
    assert "mircoscope"[..9] == "mircoscop";
    assert "mircoscop"[..8] == "mircosco";
    assert "mircosco"[..7] == "mircosc";
    assert "mircosc"[..6] == "mircos";
    assert "mircos"[..5] == "mirco";
    assert "mirco"[..4] == "mirc";
    assert "mirc"[..3] == "mir";
    assert "mir"[..2] == "mi";
    assert "mi"[..1] == "m";
  }

  /**
   * A record is dropped when neither its name nor its description contains
   * the term and its name has more letters from some set `C` than the term
   * has, by more than the tolerance: each edit changes that surplus by one at most.
   */
  lemma DroppedByLetters(rec: Record, term: string, C: set<char>)
    requires !Contains(Lower(rec.nome), term) && !Contains(Lower(rec.descricao), term)
    requires CountIn(Lower(rec.nome), C) - CountIn(Lower(term), C) > MaxErrors(term)
    ensures !Keep(rec, term)
  {
    LevCountBound(Lower(rec.nome), Lower(term), C);
  }

  /**
   * A lower-case term that starts with a letter absent from the telescope
   * record, and has fewer of the letters t, e, l than "telescope" by more
   * than its tolerance, does not select that record.
   */
  lemma TelescopeDropped(term: string)
    requires term != [] && term[0] !in "telescope" && term[0] !in "viewing device"
    requires Lower(term) == term
    requires CountIn(term, {'t', 'e', 'l'}) + MaxErrors(term) < 5
    ensures !Keep(Telescope, term)
  {
    CatalogFolded();
    if Contains("telescope", term) {
      ContainsFirst("telescope", term);
    }
    if Contains("viewing device", term) {
      ContainsFirst("viewing device", term);
    }
    TelescopeLetters();
    DroppedByLetters(Telescope, term, {'t', 'e', 'l'});
  }

  /** "table" and "tabel" differ by swapping the last two letters: two edits. */
  lemma TableTabel()
    ensures Lev("table", "tabel") == 2
  {
    assert "table" == "tab" + ['l', 'e'] && "tabel" == "tab" + ['e', 'l'];
    LevTransposition("tab", 'l', 'e');
  }

  /** A record named "table" is not kept for "tabel" unless its description contains "tabel". */
  lemma TableNotKept(rec: Record)
    requires rec.nome == "table" && !Contains(Lower(rec.descricao), "tabel")
    ensures !Keep(rec, "tabel")
  {
    LowerOfLower("table");
    LowerOfLower("tabel");
    TableTabel();
    if Contains("table", "tabel") {
      ContainsNoLonger("table", "tabel");
    }
  }

  /**
   * The threshold boundary: "table" and "tabel" are two edits apart, one
   * more than a five-letter query allows, so a record named "table" whose
   * description does not contain "tabel" is not shown for that query.
   */
  lemma ThresholdBoundary(catalog: seq<Record>, rec: Record)
    requires rec.nome == "table" && !Contains(Lower(rec.descricao), "tabel")
    ensures MaxErrors("tabel") == 1
    ensures Distance("table", "tabel") == 2
    ensures rec !in Filter(catalog, "tabel")
  {
    LowerOfLower("table");
    LowerOfLower("tabel");
    TableTabel();
    NormalizeTyped("tabel");
    TableNotKept(rec);
  }

  lemma MicroscopeByPrefix()
    ensures Keep(Microscope, "microscop")
  {
    CatalogFolded();
    assert "microscope"[..9] == "microscop";
    ContainsPrefix("microscope", "microscop");
  }

  lemma TelescopeNotForPrefix()
    ensures !Keep(Telescope, "microscop")
  {
    LowerOfLower("microscop");
    MicroscopLetters();
    TelescopeDropped("microscop");
  }

  /** "microscop" is the start of "Microscope" and of nothing in the telescope record. */
  lemma PrefixQuery()
    ensures Filter([Microscope, Telescope], "microscop") == [Microscope]
  {
    NormalizeTyped("microscop");
    MicroscopeByPrefix();
    TelescopeNotForPrefix();
    SelectPair(Microscope, Telescope, KeepFor("microscop"));
  }

  /** "mircoscope" swaps two adjacent letters of "microscope": at most two edits, the tolerance of a ten-letter query. */
  lemma MicroscopeByTransposition()
    ensures Keep(Microscope, "mircoscope")
  {
    CatalogFolded();
    LowerOfLower("mircoscope");
    assert "microscope" == "mi" + ['c', 'r'] + "oscope";
    assert "mircoscope" == "mi" + ['r', 'c'] + "oscope";
    LevAdjacentSwap("mi", 'c', 'r', "oscope");
  }

  lemma TelescopeNotForTransposition()
    ensures !Keep(Telescope, "mircoscope")
  {
    LowerOfLower("mircoscope");
    MircoscopeLetters();
    TelescopeDropped("mircoscope");
  }

  /** The transposed query still finds "Microscope", and only it. */
  lemma TransposedQuery()
    ensures Filter([Microscope, Telescope], "mircoscope") == [Microscope]
  {
    NormalizeTyped("mircoscope");
    MicroscopeByTransposition();
    TelescopeNotForTransposition();
    SelectPair(Microscope, Telescope, KeepFor("mircoscope"));
  }

  lemma MicroscopeNotForXyz()
    ensures !Keep(Microscope, "xyz")
  {
    CatalogFolded();
    if Contains("microscope", "xyz") { ContainsFirst("microscope", "xyz"); }
    if Contains("optical tool", "xyz") { ContainsFirst("optical tool", "xyz"); }
  }

  lemma TelescopeNotForXyz()
    ensures !Keep(Telescope, "xyz")
  {
    CatalogFolded();
    if Contains("telescope", "xyz") { ContainsFirst("telescope", "xyz"); }
    if Contains("viewing device", "xyz") { ContainsFirst("viewing device", "xyz"); }
  }

  /** "xyz" is part of no name or description and far from both names: nothing is shown. */
  lemma UnmatchedQuery()
    ensures Filter([Microscope, Telescope], "xyz") == []
  {
    NormalizeTyped("xyz");
    MicroscopeNotForXyz();
    TelescopeNotForXyz();
    SelectPair(Microscope, Telescope, KeepFor("xyz"));
  }
}
