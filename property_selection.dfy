/** The two ways generate_shapes.py chooses the properties a shape requires,
    with the endpoint queries replaced by their answers: every property whose
    `rdfs:domain` is the class, or the ten properties most often used by the
    class's entities. Either way each chosen property gets cardinality 1. */
module PropertySelection {
  import opened Common
  import opened ShapeBuilder

  /** `get_property_by_ontology` (generate_shapes.py:195-200): the answer of the
      domain query, with a `cardinality` column of 1. */
  function PropertyByOntology(props: seq<string>): (rows: seq<PropertyRow>)
    ensures |rows| == |props|
    ensures forall i | 0 <= i < |rows| :: rows[i].path == props[i] && rows[i].minCount == 1
  {
    seq(|props|, i requires 0 <= i < |props| => PropertyRow(props[i], 1))
  }

  /** A candidate property with its relative frequency and cardinality. */
  datatype RankedProperty = RankedProperty(path: string, relFreq: real, cardinality: nat)

  const TopCount := 10

  predicate NonIncreasing(s: seq<RankedProperty>) {
    forall i, j | 0 <= i < j < |s| :: s[i].relFreq >= s[j].relFreq
  }

  /** The rows before `sort_values`: each candidate with `num_of_union / num_of_entities`. */
  function Ranked(candidates: seq<string>, numEntities: nat, unionCount: string -> nat): (r: seq<RankedProperty>)
    requires numEntities > 0
    ensures |r| == |candidates|
  {
    seq(|candidates|, i requires 0 <= i < |candidates| =>
      RankedProperty(candidates[i], unionCount(candidates[i]) as real / numEntities as real, 1))
  }

  /** Inserts `x` into a non-increasing sequence, after the rows that rank at least as high. */
  function Insert(x: RankedProperty, s: seq<RankedProperty>): (r: seq<RankedProperty>)
    ensures |r| == |s| + 1
  {
    if s == [] then [x]
    else if s[0].relFreq >= x.relFreq then [s[0]] + Insert(x, s[1..])
    else [x] + s
  }

  lemma {:induction false} InsertPermutes(x: RankedProperty, s: seq<RankedProperty>)
    ensures multiset(Insert(x, s)) == multiset(s) + multiset{x}
  {
    if s != [] && s[0].relFreq >= x.relFreq {
      InsertPermutes(x, s[1..]);
      assert s == [s[0]] + s[1..];
    }
  }

  /** The tail of a non-increasing sequence is non-increasing. */
  lemma TailNonIncreasing(s: seq<RankedProperty>)
    requires NonIncreasing(s) && s != []
    ensures NonIncreasing(s[1..])
    ensures forall y | y in s[1..] :: y.relFreq <= s[0].relFreq
  {
    var tail := s[1..];
    forall i, j | 0 <= i < j < |tail| ensures tail[i].relFreq >= tail[j].relFreq {
      assert tail[i] == s[i + 1] && tail[j] == s[j + 1];
    }
    forall y | y in tail ensures y.relFreq <= s[0].relFreq {
      var m :| 0 <= m < |tail| && tail[m] == y;
      assert s[m + 1] == y;
    }
  }

  /** Putting a row in front of a non-increasing sequence it ranks at least as high as
      keeps the sequence non-increasing. */
  lemma ConsNonIncreasing(x: RankedProperty, s: seq<RankedProperty>)
    requires NonIncreasing(s)
    requires forall y | y in s :: y.relFreq <= x.relFreq
    ensures NonIncreasing([x] + s)
  {
    var r := [x] + s;
    forall i, j | 0 <= i < j < |r| ensures r[i].relFreq >= r[j].relFreq {
      assert r[j] == s[j - 1];
      if i > 0 {
        assert r[i] == s[i - 1];
      } else {
        assert s[j - 1] in s;
      }
    }
  }

  lemma {:induction false} InsertKeepsOrder(x: RankedProperty, s: seq<RankedProperty>)
    requires NonIncreasing(s)
    ensures NonIncreasing(Insert(x, s))
  {
    if s == [] {
    } else if s[0].relFreq >= x.relFreq {
      TailNonIncreasing(s);
      var rest := Insert(x, s[1..]);
      InsertKeepsOrder(x, s[1..]);
      InsertPermutes(x, s[1..]);
      forall y | y in rest ensures y.relFreq <= s[0].relFreq {
        assert y in multiset(rest);
        assert y == x || y in multiset(s[1..]);
      }
      ConsNonIncreasing(s[0], rest);
    } else {
      forall y | y in s ensures y.relFreq <= x.relFreq {
        if y != s[0] {
          TailNonIncreasing(s);
          assert s == [s[0]] + s[1..];
        }
      }
      ConsNonIncreasing(x, s);
    }
  }

  /** The order `sort_values('rel_freq', ascending=False)` produces, up to ties. */
  function SortByFreq(s: seq<RankedProperty>): (r: seq<RankedProperty>)
    ensures |r| == |s|
  {
    if s == [] then [] else Insert(s[|s| - 1], SortByFreq(s[..|s| - 1]))
  }

  /** Sorting keeps every row. */
  lemma {:induction false} SortByFreqPermutes(s: seq<RankedProperty>)
    ensures multiset(SortByFreq(s)) == multiset(s)
  {
    if s != [] {
      var init, last := s[..|s| - 1], s[|s| - 1];
      SortByFreqPermutes(init);
      InsertPermutes(last, SortByFreq(init));
      assert s == init + [last];
    }
  }

  /** Sorting orders the rows by non-increasing relative frequency. */
  lemma {:induction false} SortByFreqOrders(s: seq<RankedProperty>)
    ensures NonIncreasing(SortByFreq(s))
  {
    if s != [] {
      var init := s[..|s| - 1];
      SortByFreqOrders(init);
      InsertKeepsOrder(s[|s| - 1], SortByFreq(init));
    }
  }

  /** How many rows `prop.head(10)` keeps of `n`. */
  function TopSize(n: nat): nat {
    if n < TopCount then n else TopCount
  }

  /** The rows `prop.head(10)` keeps of the sorted ranking. */
  function TopRanked(ranked: seq<RankedProperty>): seq<RankedProperty> {
    SortByFreq(ranked)[..TopSize(|ranked|)]
  }

  /** The rows of the sorted ranking that `prop.head(10)` leaves out. */
  function Dropped(ranked: seq<RankedProperty>): seq<RankedProperty> {
    SortByFreq(ranked)[TopSize(|ranked|)..]
  }

  /** The kept rows are at most ten rows of the ranking, in non-increasing order of
      relative frequency; with the rows left out they make up the whole ranking,
      and no row left out ranks higher than a kept one. */
  lemma TopRankedIsTop(ranked: seq<RankedProperty>)
    ensures |TopRanked(ranked)| == TopSize(|ranked|)
    ensures NonIncreasing(TopRanked(ranked))
    ensures multiset(TopRanked(ranked)) + multiset(Dropped(ranked)) == multiset(ranked)
    ensures forall x, y | x in Dropped(ranked) && y in TopRanked(ranked) :: x.relFreq <= y.relFreq
  {
    var sorted := SortByFreq(ranked);
    SortByFreqPermutes(ranked);
    SortByFreqOrders(ranked);
    var k := TopSize(|ranked|);
    var top, rest := sorted[..k], sorted[k..];
    assert sorted == top + rest;
    assert NonIncreasing(top) by {
      forall i, j | 0 <= i < j < |top| ensures top[i].relFreq >= top[j].relFreq {
        assert top[i] == sorted[i] && top[j] == sorted[j];
      }
    }
    forall x, y | x in rest && y in top ensures x.relFreq <= y.relFreq {
      var a :| 0 <= a < k && top[a] == y;
      var b :| 0 <= b < |rest| && rest[b] == x;
      assert sorted[a] == y && sorted[k + b] == x;
    }
  }

  /** Every row of the ranking of `candidates` is a candidate with cardinality 1
      and its relative frequency. */
  lemma RankedRows(candidates: seq<string>, numEntities: nat, unionCount: string -> nat,
                   rows: seq<RankedProperty>)
    requires numEntities > 0
    requires multiset(rows) <= multiset(Ranked(candidates, numEntities, unionCount))
    ensures forall i | 0 <= i < |rows| ::
              rows[i].cardinality == 1 && rows[i].path in candidates
              && rows[i].relFreq == unionCount(rows[i].path) as real / numEntities as real
  {
    var all := Ranked(candidates, numEntities, unionCount);
    forall i | 0 <= i < |rows|
      ensures rows[i].cardinality == 1 && rows[i].path in candidates
      ensures rows[i].relFreq == unionCount(rows[i].path) as real / numEntities as real
    {
      assert rows[i] in multiset(rows);
      assert rows[i] in multiset(all);
      var j :| 0 <= j < |all| && all[j] == rows[i];
    }
  }

  /** `get_property_by_statistics` (generate_shapes.py:240-264), given the answers
      of its three queries: the candidate properties, the number of entities of
      the class and, per candidate, the number of those entities that use it.
      With candidates and no entity the division raises. */
  method PropertyByStatistics(candidates: seq<string>, numEntities: nat, unionCount: string -> nat)
    returns (r: Result<seq<RankedProperty>>)
    ensures r.Raise? <==> |candidates| > 0 && numEntities == 0
    ensures r.Raise? ==> r.fault == ZeroDivision
    ensures r.Ok? ==> |r.value| == TopSize(|candidates|)
    ensures r.Ok? ==> NonIncreasing(r.value)
    ensures r.Ok? ==> forall i | 0 <= i < |r.value| ::
              r.value[i].cardinality == 1
              && r.value[i].path in candidates
              && r.value[i].relFreq == unionCount(r.value[i].path) as real / numEntities as real
    ensures r.Ok? && numEntities > 0 ==> r.value == TopRanked(Ranked(candidates, numEntities, unionCount))
  {
    if |candidates| > 0 && numEntities == 0 {
      return Raise(ZeroDivision);
    }
    if candidates == [] {
      return Ok([]);
    }
    var relFreq: seq<real> := [];
    for i := 0 to |candidates|
      invariant |relFreq| == i
      invariant forall j | 0 <= j < i ::
                  relFreq[j] == unionCount(candidates[j]) as real / numEntities as real
    {
      relFreq := relFreq + [unionCount(candidates[i]) as real / numEntities as real];
    }
    var rows := seq(|candidates|, i requires 0 <= i < |candidates| =>
                  RankedProperty(candidates[i], relFreq[i], 1));
    assert rows == Ranked(candidates, numEntities, unionCount);
    var top := TopRanked(rows);
    TopRankedIsTop(rows);
    assert multiset(top) <= multiset(rows);
    RankedRows(candidates, numEntities, unionCount, top);
    return Ok(top);
  }
}
