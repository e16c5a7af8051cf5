/**
 The global filters of the sidebar: keep the rows whose generation is among
 the selected generations and, when legendary and mythical Pokémon are not to
 be shown, drop the rows flagged `is_special`. Each step is a boolean-mask
 selection, which keeps the selected rows in their original order.
 */
module GlobalFilters {
  import opened Pokedex

  /** Boolean-mask selection: the elements of `s` that `keep` accepts, in order. */
  function Select<T>(s: seq<T>, keep: T -> bool): (r: seq<T>)
    ensures |r| <= |s|
    ensures forall i :: 0 <= i < |r| ==> keep(r[i]) && r[i] in s
  {
    if s == [] then []
    else (if keep(s[0]) then [s[0]] else []) + Select(s[1..], keep)
  }

  /** `a` is `b` with some elements removed and the rest in their order. */
  ghost predicate IsSubsequence<T>(a: seq<T>, b: seq<T>)
    decreases |b|
  {
    a == [] ||
    (b != [] && ((a[0] == b[0] && IsSubsequence(a[1..], b[1..])) || IsSubsequence(a, b[1..])))
  }

  /** A selection is an order-preserving subsequence of its input. */
  lemma {:induction false} SelectIsSubsequence<T>(s: seq<T>, keep: T -> bool)
    ensures IsSubsequence(Select(s, keep), s)
    decreases |s|
  {
    if s != [] {
      SelectIsSubsequence(s[1..], keep);
      if keep(s[0]) {
        assert Select(s, keep) == [s[0]] + Select(s[1..], keep);
        assert (Select(s, keep))[1..] == Select(s[1..], keep);
      } else {
        assert Select(s, keep) == Select(s[1..], keep);
      }
    }
  }

  /**
   A selection keeps every occurrence of an accepted element and none of a
   rejected one.
   */
  lemma {:induction false} SelectCount<T>(s: seq<T>, keep: T -> bool, x: T)
    ensures multiset(Select(s, keep))[x] == if keep(x) then multiset(s)[x] else 0
    decreases |s|
  {
    if s != [] {
      SelectCount(s[1..], keep, x);
      assert s == [s[0]] + s[1..];
      assert multiset(s) == multiset{s[0]} + multiset(s[1..]);
    }
  }

  /**
   Selecting with two masks in turn is selecting with their conjunction
   (any mask `both` that accepts exactly what `p` and `q` both accept).
   */
  lemma {:induction false} SelectSelect<T>(s: seq<T>, p: T -> bool, q: T -> bool, both: T -> bool)
    requires forall x :: both(x) == (p(x) && q(x))
    ensures Select(Select(s, p), q) == Select(s, both)
    decreases |s|
  {
    if s != [] {
      SelectSelect(s[1..], p, q, both);
      var head := if p(s[0]) then [s[0]] else [];
      assert Select(s, p) == head + Select(s[1..], p);
      SelectAppend(head, Select(s[1..], p), q);
    }
  }

  /** Selection distributes over concatenation. */
  lemma {:induction false} SelectAppend<T>(a: seq<T>, b: seq<T>, keep: T -> bool)
    ensures Select(a + b, keep) == Select(a, keep) + Select(b, keep)
    decreases |a|
  {
    if a == [] {
      assert a + b == b;
    } else {
      var head := if keep(a[0]) then [a[0]] else [];
      var ab := a + b;
      assert ab != [] && ab[0] == a[0] && ab[1..] == a[1..] + b;
      assert Select(ab, keep) == head + Select(a[1..] + b, keep);
      SelectAppend(a[1..], b, keep);
      assert Select(a, keep) == head + Select(a[1..], keep);
      assert head + (Select(a[1..], keep) + Select(b, keep))
          == (head + Select(a[1..], keep)) + Select(b, keep);
    }
  }

  /** A mask that accepts every element selects the whole sequence. */
  lemma {:induction false} SelectAll<T>(s: seq<T>, keep: T -> bool)
    requires forall i :: 0 <= i < |s| ==> keep(s[i])
    ensures Select(s, keep) == s
    decreases |s|
  {
    if s != [] {
      SelectAll(s[1..], keep);
      assert [s[0]] + s[1..] == s;
    }
  }

  // The masks are functions that return a `Row -> bool`, so that `ApplyFilters`
  // and the lemmas about it select with one and the same mask term.

  /** The mask `generation.isin(selected_gens)`. */
  function InGenerations(selectedGens: set<int>): Row -> bool {
    (row: Row) => row.rec.generation in selectedGens
  }

  /** The mask `is_special == 0`. */
  function NotSpecial(): Row -> bool {
    (row: Row) => !row.isSpecial
  }

  /**
   The mask of rows passing both sidebar filters: the generation mask, and
   the `is_special == 0` mask as well when specials are hidden.
   */
  function PassingMask(selectedGens: set<int>, showSpecial: bool): Row -> bool {
    (row: Row) => row.rec.generation in selectedGens && (showSpecial || !row.isSpecial)
  }

  /**
   The generation filter alone: an order-preserving subsequence of the table
   that keeps every row of a selected generation as often as the table has
   it, and no other row.
   */
  lemma GenerationMaskSelection(df: seq<Row>, selectedGens: set<int>)
    ensures IsSubsequence(Select(df, InGenerations(selectedGens)), df)
    ensures forall row :: (multiset(Select(df, InGenerations(selectedGens)))[row]
         == if row.rec.generation in selectedGens then multiset(df)[row] else 0)
  {
    SelectIsSubsequence(df, InGenerations(selectedGens));
    forall row
      ensures multiset(Select(df, InGenerations(selectedGens)))[row]
           == if row.rec.generation in selectedGens then multiset(df)[row] else 0
    {
      SelectCount(df, InGenerations(selectedGens), row);
    }
  }

  /**
   The `is_special == 0` filter alone: an order-preserving subsequence of the
   table that keeps every non-special row as often as the table has it, and
   no special row.
   */
  lemma SpecialMaskSelection(df: seq<Row>)
    ensures IsSubsequence(Select(df, NotSpecial()), df)
    ensures forall row :: (multiset(Select(df, NotSpecial()))[row]
         == if row.isSpecial then 0 else multiset(df)[row])
  {
    SelectIsSubsequence(df, NotSpecial());
    forall row
      ensures multiset(Select(df, NotSpecial()))[row]
           == if row.isSpecial then 0 else multiset(df)[row]
    {
      SelectCount(df, NotSpecial(), row);
    }
  }

  /**
   The filtered table: first the generation mask, then, when specials are
   hidden, the mask `is_special == 0` over what is left.
   */
  function ApplyFilters(df: seq<Row>, selectedGens: set<int>, showSpecial: bool): (filtered: seq<Row>)
    ensures |filtered| <= |df|
    ensures forall i :: 0 <= i < |filtered| ==> filtered[i].rec.generation in selectedGens
    ensures !showSpecial ==> forall i :: 0 <= i < |filtered| ==> !filtered[i].isSpecial
  {
    var byGeneration := Select(df, InGenerations(selectedGens));
    if showSpecial then byGeneration
    else Select(byGeneration, NotSpecial())
  }

  /**
   The two masks act as one: the filtered table is the selection of the rows
   passing both filters.
   */
  lemma FiltersAreOneMask(df: seq<Row>, selectedGens: set<int>, showSpecial: bool)
    ensures ApplyFilters(df, selectedGens, showSpecial)
         == Select(df, PassingMask(selectedGens, showSpecial))
  {
    var inGens := InGenerations(selectedGens);
    var passes := PassingMask(selectedGens, showSpecial);
    if showSpecial {
      SelectSameMask(df, inGens, passes);
    } else {
      SelectSelect(df, inGens, NotSpecial(), passes);
    }
  }

  /**
   The filtered table is an order-preserving subsequence of the table, and
   it holds every passing row as often as the table does and no failing row
   at all.
   */
  lemma FiltersKeepOrderAndPassingRows(df: seq<Row>, selectedGens: set<int>, showSpecial: bool)
    ensures IsSubsequence(ApplyFilters(df, selectedGens, showSpecial), df)
    ensures forall row :: (multiset(ApplyFilters(df, selectedGens, showSpecial))[row]
         == if PassingMask(selectedGens, showSpecial)(row) then multiset(df)[row] else 0)
  {
    var passes := PassingMask(selectedGens, showSpecial);
    FiltersAreOneMask(df, selectedGens, showSpecial);
    SelectIsSubsequence(df, passes);
    forall row
      ensures multiset(Select(df, passes))[row]
           == if PassingMask(selectedGens, showSpecial)(row) then multiset(df)[row] else 0
    {
      SelectCount(df, passes, row);
    }
  }

  /** Two masks that agree on every element select the same elements. */
  lemma {:induction false} SelectSameMask<T>(s: seq<T>, p: T -> bool, q: T -> bool)
    requires forall x :: p(x) == q(x)
    ensures Select(s, p) == Select(s, q)
    decreases |s|
  {
    if s != [] {
      SelectSameMask(s[1..], p, q);
    }
  }

  /**
   With the sidebar's defaults (every generation of the table selected and
   specials shown) the filtered table is the whole table.
   */
  lemma DefaultFiltersKeepEverything(df: seq<Row>, selectedGens: set<int>)
    requires forall i :: 0 <= i < |df| ==> df[i].rec.generation in selectedGens
    ensures ApplyFilters(df, selectedGens, true) == df
  {
    SelectAll(df, InGenerations(selectedGens));
  }

  /** Filtering an already filtered table with the same settings changes nothing. */
  lemma FiltersIdempotent(df: seq<Row>, selectedGens: set<int>, showSpecial: bool)
    ensures var once := ApplyFilters(df, selectedGens, showSpecial);
      ApplyFilters(once, selectedGens, showSpecial) == once
  {
    var once := ApplyFilters(df, selectedGens, showSpecial);
    FiltersAreOneMask(once, selectedGens, showSpecial);
    SelectAll(once, PassingMask(selectedGens, showSpecial));
  }

  /**
   On the loaded table, hiding specials leaves no legendary and no mythical
   Pokémon, and only the selected generations.
   */
  lemma HiddenSpecialsLeaveNoLegendaryOrMythical(table: seq<Record>, selectedGens: set<int>)
    ensures forall row :: row in ApplyFilters(LoadAndPreprocess(table), selectedGens, false) ==>
      && row.rec in table
      && row.rec.generation in selectedGens
      && !row.rec.isLegendary && !row.rec.isMythical
  {
  }
}
