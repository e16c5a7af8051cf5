/**
 Parsing of the `types` column of the Pokédex table into a primary and a
 secondary type. A cell holds the type names separated by commas
 ("grass,poison"), a single type name ("fire"), or a value that is not a
 string at all (pandas reads an empty cell as NaN).
 */
module TypeParsing {
  import opened PyStr

  /** A cell of the `types` column. */
  datatype TypesValue = Text(s: string) | NotText

  /** The secondary type reported for an entry with a single type. */
  const NoSecondary: string := "-"

  /** The value the parsers' exception handlers return. */
  const Unknown: string := "unknown"

  /** The guard both parsers share: a string value containing a comma. */
  predicate HasComma(t: TypesValue) {
    t.Text? && ',' in t.s
  }

  /**
   The primary type: for a string with a comma, the text before the first
   comma; any other value is returned unchanged. The fallback to `Unknown`
   models the handler around the indexing of the split.
   */
  function PrimaryType(t: TypesValue): (r: TypesValue)
    ensures HasComma(t) ==>
      && r.Text? && ',' !in r.s
      && |r.s| < |t.s| && t.s[..|r.s|] == r.s && t.s[|r.s|] == ','
    ensures !HasComma(t) ==> r == t
  {
    if HasComma(t) then
      var fields := Split(t.s, ',');
      JoinSplit(t.s, ',');
      SplitCount(t.s, ',');
      if |fields| > 0 then Text(fields[0]) else Text(Unknown)
    else t
  }

  /**
   The secondary type: for a string with a comma, the field between the
   first comma and the next comma (or the end of the string); for any other
   value the sentinel `NoSecondary`. The fallback to `Unknown` models the
   handler around the indexing of the split.
   */
  function SecondaryType(t: TypesValue): (r: string)
    ensures HasComma(t) ==>
      var k := |PrimaryType(t).s| + 1;
      && ',' !in r
      && k + |r| <= |t.s| && t.s[k..k + |r|] == r
      && (k + |r| == |t.s| || t.s[k + |r|] == ',')
    ensures !HasComma(t) ==> r == NoSecondary
  {
    if HasComma(t) then
      var fields := Split(t.s, ',');
      SplitFacts(t.s);
      if |fields| > 1 then fields[1] else Unknown
    else NoSecondary
  }

  /** How a comma-holding string decomposes around its first two fields. */
  lemma SplitFacts(s: string)
    requires ',' in s
    ensures var fields := Split(s, ',');
      && |fields| >= 2
      && s == fields[0] + [','] + Join(fields[1..], ',')
      && |fields[1]| <= |Join(fields[1..], ',')|
      && Join(fields[1..], ',')[..|fields[1]|] == fields[1]
      && (|fields| == 2 <==> |fields[1]| == |Join(fields[1..], ',')|)
      && (|fields| > 2 ==> Join(fields[1..], ',')[|fields[1]|] == ',')
  {
    JoinSplit(s, ',');
    SplitCount(s, ',');
  }

  /**
   The exception handlers are dead code: for every string with a comma both
   parsers return fields of `s.split(",")`, never the fallback.
   */
  lemma ExceptBranchesUnreachable(s: string)
    requires ',' in s
    ensures |Split(s, ',')| >= 2
    ensures PrimaryType(Text(s)) == Text(Split(s, ',')[0])
    ensures SecondaryType(Text(s)) == Split(s, ',')[1]
  {
  }

  /**
   Primary type, a comma and secondary type spell a prefix of the cell, and
   they spell the whole cell exactly when it holds one comma.
   */
  lemma Reassemble(s: string)
    requires ',' in s
    ensures var whole := PrimaryType(Text(s)).s + [','] + SecondaryType(Text(s));
      && |whole| <= |s| && s[..|whole|] == whole
      && (whole == s <==> multiset(s)[','] == 1)
  {
    var p, q := PrimaryType(Text(s)).s, SecondaryType(Text(s));
    var whole := p + [','] + q;
    assert s[..|whole|] == whole by {
      assert s[..|p|] == p;
      assert s[|p|] == ',';
      assert s[|p| + 1..|whole|] == q;
    }
    if whole == s {
      assert multiset(whole) == multiset(p) + multiset{','} + multiset(q);
      assert multiset(p)[','] == 0 && multiset(q)[','] == 0;
    }
    if multiset(s)[','] == 1 {
      SplitCount(s, ',');
      SplitFacts(s);
      ExceptBranchesUnreachable(s);
      var fields := Split(s, ',');
      assert fields[1..] == [q];
    }
  }

  /**
   A dual-typed cell "a,b" with comma-free type names parses back to
   primary `a` and secondary `b`.
   */
  lemma DualTypeRoundTrip(a: string, b: string)
    requires ',' !in a && ',' !in b
    ensures PrimaryType(Text(a + [','] + b)) == Text(a)
    ensures SecondaryType(Text(a + [','] + b)) == b
  {
  }
}
