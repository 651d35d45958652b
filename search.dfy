/**
 * The filter that `iniciarBusca` in script.js applies to the catalog: the
 * query is folded to lower case and trimmed; an empty query keeps the
 * whole catalog; otherwise a record is kept when the query is part of its
 * lower-cased name or description (the exact tier), or else when the
 * case-insensitive edit distance between its name and the query is within
 * the tolerance (the fuzzy tier).  Kept records stay in catalog order.
 */
module Search {
  import opened Text
  import opened EditDistance
  import opened Levenshtein

  /**
   * A catalog entry.  Only `nome` and `descricao` are inspected; the date
   * and the link are carried along for display.
   */
  datatype Record = Record(nome: string, descricao: string, dataCriacao: string, linkOficial: string)

  /**
   * `termoBusca`: the query folded to lower case and trimmed.  It has no
   * capitals, neither starts nor ends with white space, and is empty
   * exactly when the query is all white space.
   */
  function Normalize(raw: string): (term: string)
    ensures forall i :: 0 <= i < |term| ==> !IsUpper(term[i])
    ensures term != [] ==> !IsWhiteSpace(term[0]) && !IsWhiteSpace(term[|term| - 1])
    ensures term == [] <==> AllWhiteSpace(raw)
  {
    LowerKeepsWhiteSpace(raw);
    TrimNoUpper(Lower(raw));
    Trim(Lower(raw))
  }

  /** `maxErros`: one error tolerated for terms of up to five characters, two for longer ones. */
  function MaxErrors(term: string): (n: nat)
    ensures n == 1 <==> |term| <= 5
    ensures n == 2 <==> |term| > 5
  {
    if |term| <= 5 then 1 else 2
  }

  /**
   * `buscaExata`: the term is part of the lower-cased name or of the
   * lower-cased description.  The empty term matches every record; a
   * matching term is no longer than the name or the description.
   */
  predicate ExactMatch(rec: Record, term: string)
    ensures term == [] ==> ExactMatch(rec, term)
    ensures ExactMatch(rec, term) ==> |term| <= |rec.nome| || |term| <= |rec.descricao|
  {
    Contains(Lower(rec.nome), term) || Contains(Lower(rec.descricao), term)
  }

  /**
   * `buscaFuzzyNome`: the name is within the tolerated number of edits of
   * the term.  Each edit changes the length by one at most, so an accepted
   * name is within the tolerance of the term's length.
   */
  predicate FuzzyMatch(rec: Record, term: string)
    ensures FuzzyMatch(rec, term) ==> |rec.nome| <= |term| + MaxErrors(term) && |term| <= |rec.nome| + MaxErrors(term)
  {
    Distance(rec.nome, term) <= MaxErrors(term)
  }

  /**
   * The callback given to `filter`: the exact tier first, the fuzzy tier
   * only when it fails.  A record is kept when either tier accepts it, so a
   * kept record whose name and description do not contain the term has a
   * name of nearly the term's length.
   */
  predicate Keep(rec: Record, term: string)
    ensures Keep(rec, term) <==> ExactMatch(rec, term) || FuzzyMatch(rec, term)
    ensures Keep(rec, term) && !ExactMatch(rec, term) ==> |rec.nome| <= |term| + 2 && |term| <= |rec.nome| + 2
  {
    if ExactMatch(rec, term) then true
    else if FuzzyMatch(rec, term) then true
    else false
  }

  /** `Array.prototype.filter`: the elements that pass `keep`, in their original order. */
  function Select(s: seq<Record>, keep: Record -> bool): (r: seq<Record>)
    ensures |r| <= |s|
    ensures forall i :: 0 <= i < |r| ==> keep(r[i])
  {
    if s == [] then []
    else if keep(s[0]) then [s[0]] + Select(s[1..], keep)
    else Select(s[1..], keep)
  }

  /**
   * The search: with an empty normalised query the catalog itself, otherwise
   * exactly the catalog records that pass one of the two tiers.
   */
  function Filter(catalog: seq<Record>, raw: string): (r: seq<Record>)
    ensures Normalize(raw) == [] ==> r == catalog
    ensures var term := Normalize(raw);
            term != [] ==>
              forall x :: x in r <==>
                x in catalog
                && (Contains(Lower(x.nome), term) || Contains(Lower(x.descricao), term)
                    || Distance(x.nome, term) <= MaxErrors(term))
  {
    var term := Normalize(raw);
    if term == [] then catalog
    else
      SelectMembers(catalog, KeepFor(term));
      Select(catalog, KeepFor(term))
  }

  /** The callback `filter` receives for the normalised query `term`. */
  function KeepFor(term: string): (keep: Record -> bool)
    ensures forall rec :: keep(rec) == Keep(rec, term)
  {
    rec => Keep(rec, term)
  }

  /**
   * `r` lists, in order, the elements of `s` at exactly those positions
   * whose elements pass `keep`: `idx` is the strictly increasing list of
   * those positions.
   */
  ghost predicate InOrderSelection(r: seq<Record>, s: seq<Record>, keep: Record -> bool, idx: seq<int>) {
    && |idx| == |r|
    && (forall k :: 0 <= k < |idx| ==> 0 <= idx[k] < |s| && r[k] == s[idx[k]])
    && (forall k, l :: 0 <= k < l < |idx| ==> idx[k] < idx[l])
    && (forall i :: 0 <= i < |s| ==> (i in idx <==> keep(s[i])))
  }

  /** The positions of `idx`, each moved one place to the right. */
  function Shift(idx: seq<int>): (t: seq<int>)
    ensures |t| == |idx| && forall k :: 0 <= k < |idx| ==> t[k] == idx[k] + 1
  {
    seq(|idx|, k requires 0 <= k < |idx| => idx[k] + 1)
  }

  /** `Select` keeps exactly the passing elements and keeps them in their original order. */
  lemma {:induction false} SelectIsInOrder(s: seq<Record>, keep: Record -> bool)
    ensures exists idx :: InOrderSelection(Select(s, keep), s, keep, idx)
    decreases |s|
  {
    if s == [] {
      assert Select(s, keep) == [];
      assert InOrderSelection([], s, keep, []);
    } else {
      SelectIsInOrder(s[1..], keep);
      var idx' :| InOrderSelection(Select(s[1..], keep), s[1..], keep, idx');
      SelectionStep(s, keep, idx');
    }
  }

  /** The positions chosen in the tail, shifted past the head, plus the head itself when it passes. */
  function StepIndices(s: seq<Record>, keep: Record -> bool, idx': seq<int>): (idx: seq<int>)
    requires s != []
    ensures |idx| == |idx'| + (if keep(s[0]) then 1 else 0)
  {
    if keep(s[0]) then [0] + Shift(idx') else Shift(idx')
  }

  /** One step of the induction: from the tail's positions to the whole sequence's. */
  lemma SelectionStep(s: seq<Record>, keep: Record -> bool, idx': seq<int>)
    requires s != []
    requires InOrderSelection(Select(s[1..], keep), s[1..], keep, idx')
    ensures InOrderSelection(Select(s, keep), s, keep, StepIndices(s, keep, idx'))
  {
    StepWhere(s, keep, idx');
    StepIncreasing(s, keep, idx');
    StepPassing(s, keep, idx');
  }

  lemma StepWhere(s: seq<Record>, keep: Record -> bool, idx': seq<int>)
    requires s != []
    requires var r' := Select(s[1..], keep);
             |idx'| == |r'| && forall k :: 0 <= k < |idx'| ==> 0 <= idx'[k] < |s| - 1 && r'[k] == s[1..][idx'[k]]
    ensures var idx, r := StepIndices(s, keep, idx'), Select(s, keep);
            |idx| == |r| && forall k :: 0 <= k < |idx| ==> 0 <= idx[k] < |s| && r[k] == s[idx[k]]
  {
    if keep(s[0]) {
      StepWhereKept(s, keep, idx');
    } else {
      StepWhereDropped(s, keep, idx');
    }
  }

  /** The head passes: it is the first element, at position 0, and the tail's positions move by one. */
  lemma StepWhereKept(s: seq<Record>, keep: Record -> bool, idx': seq<int>)
    requires s != [] && keep(s[0])
    requires var r' := Select(s[1..], keep);
             |idx'| == |r'| && forall k :: 0 <= k < |idx'| ==> 0 <= idx'[k] < |s| - 1 && r'[k] == s[1..][idx'[k]]
    ensures var idx, r := [0] + Shift(idx'), [s[0]] + Select(s[1..], keep);
            |idx| == |r| && forall k :: 0 <= k < |idx| ==> 0 <= idx[k] < |s| && r[k] == s[idx[k]]
  {
    var tail, r' := s[1..], Select(s[1..], keep);
    var shifted := Shift(idx');
    var idx, r := [0] + shifted, [s[0]] + r';
    forall k | 1 <= k < |idx| ensures 0 <= idx[k] < |s| && r[k] == s[idx[k]] {
      assert idx[k] == shifted[k - 1] == idx'[k - 1] + 1;
      assert r[k] == r'[k - 1] == tail[idx'[k - 1]];
    }
  }

  /** The head fails: the tail's positions, moved by one, are the whole sequence's. */
  lemma StepWhereDropped(s: seq<Record>, keep: Record -> bool, idx': seq<int>)
    requires s != []
    requires var r' := Select(s[1..], keep);
             |idx'| == |r'| && forall k :: 0 <= k < |idx'| ==> 0 <= idx'[k] < |s| - 1 && r'[k] == s[1..][idx'[k]]
    ensures var idx, r := Shift(idx'), Select(s[1..], keep);
            |idx| == |r| && forall k :: 0 <= k < |idx| ==> 0 <= idx[k] < |s| && r[k] == s[idx[k]]
  {
    var tail, r' := s[1..], Select(s[1..], keep);
    var idx := Shift(idx');
    forall k | 0 <= k < |idx| ensures 0 <= idx[k] < |s| && r'[k] == s[idx[k]] {
      assert idx[k] == idx'[k] + 1;
      assert r'[k] == tail[idx'[k]];
    }
  }

  lemma StepIncreasing(s: seq<Record>, keep: Record -> bool, idx': seq<int>)
    requires s != []
    requires forall k :: 0 <= k < |idx'| ==> 0 <= idx'[k]
    requires forall k, l :: 0 <= k < l < |idx'| ==> idx'[k] < idx'[l]
    ensures var idx := StepIndices(s, keep, idx');
            forall k, l :: 0 <= k < l < |idx| ==> idx[k] < idx[l]
  {
    var idx := StepIndices(s, keep, idx');
    var shifted := Shift(idx');
    forall k, l | 0 <= k < l < |idx| ensures idx[k] < idx[l] {
      if keep(s[0]) {
        assert idx[l] == shifted[l - 1] == idx'[l - 1] + 1;
        if k > 0 { assert idx[k] == shifted[k - 1] == idx'[k - 1] + 1; }
      }
    }
  }

  lemma StepPassing(s: seq<Record>, keep: Record -> bool, idx': seq<int>)
    requires s != []
    requires forall k :: 0 <= k < |idx'| ==> 0 <= idx'[k]
    requires forall i :: 0 <= i < |s| - 1 ==> (i in idx' <==> keep(s[1..][i]))
    ensures var idx := StepIndices(s, keep, idx');
            forall i :: 0 <= i < |s| ==> (i in idx <==> keep(s[i]))
  {
    var idx := StepIndices(s, keep, idx');
    forall i | 0 <= i < |s| ensures i in idx <==> keep(s[i]) {
      ShiftMembers(idx', i);
      if i > 0 {
        assert s[i] == s[1..][i - 1];
      } else {
        assert -1 !in idx';
      }
    }
  }

  /** `i` is among the shifted positions exactly when `i - 1` was among the original ones. */
  lemma ShiftMembers(idx: seq<int>, i: int)
    ensures i in Shift(idx) <==> i - 1 in idx
  {
    var t := Shift(idx);
    if i in t {
      var k :| 0 <= k < |t| && t[k] == i;
      assert idx[k] == i - 1;
    }
    if i - 1 in idx {
      var k :| 0 <= k < |idx| && idx[k] == i - 1;
      assert t[k] == i;
    }
  }

  /** `Select` keeps every passing element and nothing else. */
  lemma {:induction false} SelectMembers(s: seq<Record>, keep: Record -> bool)
    ensures forall x :: x in Select(s, keep) <==> x in s && keep(x)
    decreases |s|
  {
    if s != [] {
      SelectMembers(s[1..], keep);
      assert s == [s[0]] + s[1..];
    }
  }

  /** Filtering a concatenation filters each part on its own: no element affects another's fate. */
  lemma {:induction false} SelectAppend(s1: seq<Record>, s2: seq<Record>, keep: Record -> bool)
    ensures Select(s1 + s2, keep) == Select(s1, keep) + Select(s2, keep)
    decreases |s1|
  {
    if s1 == [] {
      assert s1 + s2 == s2;
    } else {
      assert (s1 + s2)[1..] == s1[1..] + s2;
      SelectAppend(s1[1..], s2, keep);
    }
  }

  /** The search returns the passing records of the catalog in catalog order. */
  lemma FilterIsInOrder(catalog: seq<Record>, raw: string)
    ensures var term := Normalize(raw);
            term != [] ==>
              exists idx :: InOrderSelection(Filter(catalog, raw), catalog, KeepFor(term), idx)
  {
    var term := Normalize(raw);
    if term != [] {
      assert Filter(catalog, raw) == Select(catalog, KeepFor(term));
      SelectIsInOrder(catalog, KeepFor(term));
    }
  }

  /** A query of nothing but white space shows the whole catalog, in its order. */
  lemma BlankQueryShowsAll(catalog: seq<Record>, raw: string)
    requires AllWhiteSpace(raw)
    ensures Filter(catalog, raw) == catalog
  {
    LowerKeepsWhiteSpace(raw);
  }

  /** A record found by the exact tier is shown, whatever its name's edit distance to the term. */
  lemma ExactMatchIsShown(catalog: seq<Record>, raw: string, rec: Record)
    requires rec in catalog
    requires ExactMatch(rec, Normalize(raw))
    ensures rec in Filter(catalog, raw)
  {
  }

  /**
   * The description is only ever matched exactly: a description that does
   * not contain the term can be replaced by any other that does not contain
   * it without changing the decision.
   */
  lemma DescriptionNotFuzzy(rec: Record, other: string, term: string)
    requires !Contains(Lower(rec.descricao), term) && !Contains(Lower(other), term)
    ensures Keep(rec, term) == Keep(rec.(descricao := other), term)
  {
  }

  /** A record's decision does not depend on the case of its name or its description. */
  lemma KeepIgnoresRecordCase(rec: Record, term: string)
    ensures Keep(rec, term) == Keep(rec.(nome := Lower(rec.nome), descricao := Lower(rec.descricao)), term)
  {
    LowerIdempotent(rec.nome);
    LowerIdempotent(rec.descricao);
    DistanceIgnoresCase(rec.nome, term);
    LowerIdempotent(term);
  }

  /** The search does not depend on the case of the query. */
  lemma FilterIgnoresQueryCase(catalog: seq<Record>, raw: string)
    ensures Filter(catalog, raw) == Filter(catalog, Lower(raw))
  {
    LowerIdempotent(raw);
  }

  /** White space typed before or after the query does not change the search. */
  lemma FilterIgnoresPadding(catalog: seq<Record>, p: string, raw: string, q: string)
    requires AllWhiteSpace(p) && AllWhiteSpace(q)
    ensures Filter(catalog, p + raw + q) == Filter(catalog, raw)
  {
    LowerAppend(p + raw, q);
    LowerAppend(p, raw);
    LowerKeepsWhiteSpace(p);
    LowerKeepsWhiteSpace(q);
    TrimIgnoresPadding(Lower(p), Lower(raw), Lower(q));
  }
}
