/**
 The Pokédex table and the columns derived from it when it is loaded:
 `total_stats`, `primary_type`, `secondary_type` and `is_special`.
 */
module Pokedex {
  import opened TypeParsing

  /** One row of the table as read, with the columns the dashboard uses. */
  datatype Record = Record(
    name: string,
    types: TypesValue,
    hp: int,
    attack: int,
    defense: int,
    specialAttack: int,
    specialDefense: int,
    speed: int,
    generation: int,
    isLegendary: bool,
    isMythical: bool)

  /** The base-stat columns `stat_hp` … `stat_speed`. */
  datatype StatColumn = Hp | Attack | Defense | SpecialAttack | SpecialDefense | Speed

  /** The stat columns summed into `total_stats`, in the order listed. */
  const StatsCols: seq<StatColumn> := [Hp, Attack, Defense, SpecialAttack, SpecialDefense, Speed]

  function Stat(r: Record, c: StatColumn): int {
    match c
    case Hp => r.hp
    case Attack => r.attack
    case Defense => r.defense
    case SpecialAttack => r.specialAttack
    case SpecialDefense => r.specialDefense
    case Speed => r.speed
  }

  /** The record with one stat column replaced by `v`. */
  function WithStat(r: Record, c: StatColumn, v: int): (r': Record)
    ensures Stat(r', c) == v
    ensures forall d :: d != c ==> Stat(r', d) == Stat(r, d)
    ensures r'.name == r.name && r'.types == r.types && r'.generation == r.generation
    ensures r'.isLegendary == r.isLegendary && r'.isMythical == r.isMythical
  {
    match c
    case Hp => r.(hp := v)
    case Attack => r.(attack := v)
    case Defense => r.(defense := v)
    case SpecialAttack => r.(specialAttack := v)
    case SpecialDefense => r.(specialDefense := v)
    case Speed => r.(speed := v)
  }

  /** The row-wise sum of the given columns. */
  function SumColumns(r: Record, cols: seq<StatColumn>): int {
    if cols == [] then 0 else Stat(r, cols[0]) + SumColumns(r, cols[1..])
  }

  /** `total_stats`: the row-wise sum over `StatsCols`, which is the six base stats added up. */
  function TotalStats(r: Record): (total: int)
    ensures total == r.hp + r.attack + r.defense + r.specialAttack + r.specialDefense + r.speed
  {
    StatsColsSumSixStats(r);
    SumColumns(r, StatsCols)
  }

  /** Summing over a concatenation of column lists adds the two sums. */
  lemma {:induction false} SumColumnsAppend(r: Record, a: seq<StatColumn>, b: seq<StatColumn>)
    ensures SumColumns(r, a + b) == SumColumns(r, a) + SumColumns(r, b)
    decreases |a|
  {
    if a == [] {
      assert a + b == b;
    } else {
      SumColumnsAppend(r, a[1..], b);
      assert (a + b)[1..] == a[1..] + b;
    }
  }

  /** Summing over `StatsCols` adds up exactly the six base stats. */
  lemma StatsColsSumSixStats(r: Record)
    ensures SumColumns(r, StatsCols)
         == r.hp + r.attack + r.defense + r.specialAttack + r.specialDefense + r.speed
  {
    var front, back := [Hp, Attack, Defense], [SpecialAttack, SpecialDefense, Speed];
    assert StatsCols == front + back;
    SumColumnsAppend(r, front, back);
    SumOfThree(r, Hp, Attack, Defense);
    SumOfThree(r, SpecialAttack, SpecialDefense, Speed);
  }

  lemma SumOfThree(r: Record, a: StatColumn, b: StatColumn, c: StatColumn)
    ensures SumColumns(r, [a, b, c]) == Stat(r, a) + Stat(r, b) + Stat(r, c)
  {
    assert [a, b, c][1..] == [b, c] && [b, c][1..] == [c] && [c][1..] == [];
    assert SumColumns(r, [c]) == Stat(r, c);
    assert SumColumns(r, [b, c]) == Stat(r, b) + Stat(r, c);
  }

  /**
   Every base stat is counted exactly once: raising one stat by `d` raises
   `total_stats` by `d`, and nothing outside the six stats affects it.
   */
  lemma TotalStatsCountsEachStatOnce(r: Record, c: StatColumn, v: int)
    ensures TotalStats(WithStat(r, c, v)) == TotalStats(r) + (v - Stat(r, c))
  {
  }

  /** A row after loading: the record and its derived columns. */
  datatype Row = Row(
    rec: Record,
    totalStats: int,
    primaryType: TypesValue,
    secondaryType: string,
    isSpecial: bool)

  /** The derived columns of one row. */
  function Preprocess(r: Record): (row: Row)
    ensures row.rec == r
    ensures row.totalStats
         == r.hp + r.attack + r.defense + r.specialAttack + r.specialDefense + r.speed
    ensures row.isSpecial <==> r.isLegendary || r.isMythical
    ensures row.primaryType == PrimaryType(r.types)
    ensures row.secondaryType == SecondaryType(r.types)
  {
    Row(r, TotalStats(r), PrimaryType(r.types), SecondaryType(r.types),
        r.isLegendary || r.isMythical)
  }

  /**
   The table after loading: every row kept, in order, with its derived
   columns added.
   */
  function LoadAndPreprocess(table: seq<Record>): (df: seq<Row>)
    ensures |df| == |table|
    ensures forall i :: 0 <= i < |table| ==>
      && df[i].rec == table[i]
      && df[i].totalStats == table[i].hp + table[i].attack + table[i].defense
                             + table[i].specialAttack + table[i].specialDefense + table[i].speed
      && (df[i].isSpecial <==> table[i].isLegendary || table[i].isMythical)
      && df[i].primaryType == PrimaryType(table[i].types)
      && df[i].secondaryType == SecondaryType(table[i].types)
  {
    seq(|table|, i requires 0 <= i < |table| => Preprocess(table[i]))
  }
}
