/** The completeness report of validate_completeness.py. The SHACL validation
    report (SHACL, section 3.6) enters as, per checked property, the focus nodes of
    the results whose `sh:resultPath` is that property. Each property's list becomes
    a table of (focus node, 0) rows that is left-joined onto the entity column,
    with every unmatched cell filled with 1; `complete_all` is then the row's sum
    of scores over the number of properties. */
module Completeness {
  import opened Common
  import opened Table

  /** A row of the table being merged: the entity and the score columns joined so far. */
  datatype MergedRow = MergedRow(entity: string, scores: seq<int>)

  /** `complete_all` of a row: a number, or NaN when no property was checked
      (pandas divides the empty sum 0 by 0). */
  datatype Mean = Value(value: real) | NaN

  /** A row of the report: the entity, one score per property, and `complete_all`. */
  datatype ValidationRow = ValidationRow(entity: string, scores: seq<int>, completeAll: Mean)

  const CompleteAllColumn := "complete_all"

  /** The table made of one property's focus nodes: each node with score 0. */
  function IncompleteFrame(focusNodes: seq<string>): (f: seq<(string, int)>)
    ensures |f| == |focusNodes|
  {
    seq(|focusNodes|, i requires 0 <= i < |focusNodes| => (focusNodes[i], 0))
  }

  /** One incomplete table per property. */
  function Frames(failing: seq<seq<string>>): (fs: seq<seq<(string, int)>>)
    ensures |fs| == |failing|
  {
    seq(|failing|, k requires 0 <= k < |failing| => IncompleteFrame(failing[k]))
  }

  /** The values of the right-hand rows whose key is `key`, in the right table's order. */
  function Matches(key: string, right: seq<(string, int)>): seq<int> {
    if right == [] then []
    else
      var last := right[|right| - 1];
      Matches(key, right[..|right| - 1]) + (if last.0 == key then [last.1] else [])
  }

  /** The rows a left merge makes of one left row: one per matching right row, or
      a single row whose missing value `fillna(1)` sets to 1. */
  function MergeRow(row: MergedRow, right: seq<(string, int)>): seq<MergedRow> {
    var m := Matches(row.entity, right);
    if m == [] then [MergedRow(row.entity, row.scores + [1])]
    else seq(|m|, i requires 0 <= i < |m| => MergedRow(row.entity, row.scores + [m[i]]))
  }

  /** `pd.merge(left, right, on=use_col, how='left').fillna(1)`. */
  function LeftMerge(left: seq<MergedRow>, right: seq<(string, int)>): seq<MergedRow> {
    if left == [] then []
    else LeftMerge(left[..|left| - 1], right) + MergeRow(left[|left| - 1], right)
  }

  /** `df[[use_col]]`: the entity column alone. */
  function Initial(entities: seq<string>): seq<MergedRow> {
    seq(|entities|, i requires 0 <= i < |entities| => MergedRow(entities[i], []))
  }

  /** The table after merging `frames` one after the other onto the entity column. */
  function MergeAll(entities: seq<string>, frames: seq<seq<(string, int)>>): seq<MergedRow> {
    if frames == [] then Initial(entities)
    else LeftMerge(MergeAll(entities, frames[..|frames| - 1]), frames[|frames| - 1])
  }

  function Sum(s: seq<int>): int {
    if s == [] then 0 else Sum(s[..|s| - 1]) + s[|s| - 1]
  }

  /** `iloc[:,1:].sum(axis=1) / len(prop_list)` for one row. */
  function CompleteAll(scores: seq<int>, count: nat): Mean {
    if count == 0 then NaN else Value(Sum(scores) as real / count as real)
  }

  /** The report's rows, given the focus-node lists of the merged properties and
      the length `count` of the property list `complete_all` divides by. */
  function Report(entities: seq<string>, failing: seq<seq<string>>, count: nat): seq<ValidationRow> {
    var merged := MergeAll(entities, Frames(failing));
    seq(|merged|, i requires 0 <= i < |merged| =>
      ValidationRow(merged[i].entity, merged[i].scores, CompleteAll(merged[i].scores, count)))
  }

  /** The focus-node lists the report query gives for each of `props`. */
  function FailingOf(props: seq<string>, reportQuery: string -> seq<string>): (failing: seq<seq<string>>)
    ensures |failing| == |props|
  {
    seq(|props|, k requires 0 <= k < |props| => reportQuery(props[k]))
  }

  /** The score an entity earns for a property: 0 when the property's report lists it. */
  function Score(entity: string, focusNodes: seq<string>): int {
    if entity in focusNodes then 0 else 1
  }

  /** How many of the properties list `entity` as a focus node. */
  function FailedCount(entity: string, failing: seq<seq<string>>): (k: nat)
    ensures k <= |failing|
  {
    if failing == [] then 0
    else FailedCount(entity, failing[..|failing| - 1]) + (if entity in failing[|failing| - 1] then 1 else 0)
  }

  /** Every row is a known entity carrying, for each property so far, the score
      that property's report gives it. */
  ghost predicate Scored(rows: seq<MergedRow>, entities: seq<string>, failing: seq<seq<string>>) {
    forall r | r in rows ::
      && r.entity in entities
      && |r.scores| == |failing|
      && forall p | 0 <= p < |failing| :: r.scores[p] == Score(r.entity, failing[p])
  }

  function Keys(rows: seq<MergedRow>): (ks: seq<string>)
    ensures |ks| == |rows|
  {
    seq(|rows|, i requires 0 <= i < |rows| => rows[i].entity)
  }

  lemma KeysAppend(a: seq<MergedRow>, b: seq<MergedRow>)
    ensures Keys(a + b) == Keys(a) + Keys(b)
  {
  }

  /** A key matches the incomplete table of a focus-node list once per occurrence,
      and always with score 0. */
  lemma {:induction false} MatchesOfIncomplete(key: string, nodes: seq<string>)
    ensures |Matches(key, IncompleteFrame(nodes))| == multiset(nodes)[key]
    ensures forall v | v in Matches(key, IncompleteFrame(nodes)) :: v == 0
  {
    if nodes != [] {
      var init := nodes[..|nodes| - 1];
      assert IncompleteFrame(nodes)[..|nodes| - 1] == IncompleteFrame(init);
      MatchesOfIncomplete(key, init);
      assert nodes == init + [nodes[|nodes| - 1]];
    }
  }

  /** What one left merge makes of a row: at least one row, one per occurrence of
      the row's entity among the focus nodes, each keeping the entity and adding
      the score the focus nodes give it. */
  lemma MergeRowOfIncomplete(row: MergedRow, nodes: seq<string>)
    ensures var made := MergeRow(row, IncompleteFrame(nodes));
      && |made| == (if row.entity in nodes then multiset(nodes)[row.entity] else 1)
      && forall r | r in made :: r == MergedRow(row.entity, row.scores + [Score(row.entity, nodes)])
  {
    MatchesOfIncomplete(row.entity, nodes);
    var m := Matches(row.entity, IncompleteFrame(nodes));
    if m != [] {
      forall i | 0 <= i < |m| ensures m[i] == 0 {
        assert m[i] in m;
      }
    }
  }

  lemma {:induction false} LeftMergeAppend(a: seq<MergedRow>, b: seq<MergedRow>, right: seq<(string, int)>)
    ensures LeftMerge(a + b, right) == LeftMerge(a, right) + LeftMerge(b, right)
    decreases |b|
  {
    if b != [] {
      var b' := b[..|b| - 1];
      assert (a + b)[..|a + b| - 1] == a + b';
      assert (a + b)[|a + b| - 1] == b[|b| - 1];
      LeftMergeAppend(a, b', right);
    } else {
      assert a + b == a;
    }
  }

  /** A left merge keeps the left table's order: it is the concatenation, in order,
      of the rows each left row makes. */
  lemma {:induction false} LeftMergeInOrder(left: seq<MergedRow>, right: seq<(string, int)>)
    ensures LeftMerge(left, right) == Flatten(seq(|left|, i requires 0 <= i < |left| => MergeRow(left[i], right)))
  {
    var blocks := seq(|left|, i requires 0 <= i < |left| => MergeRow(left[i], right));
    if left != [] {
      var init := left[..|left| - 1];
      LeftMergeInOrder(init, right);
      assert blocks[..|blocks| - 1] == seq(|init|, i requires 0 <= i < |init| => MergeRow(init[i], right));
    }
  }

  /** One merge step keeps every row scored, now with the new property too. */
  lemma {:induction false} LeftMergeScored(left: seq<MergedRow>, entities: seq<string>,
                                           failing: seq<seq<string>>, nodes: seq<string>)
    requires Scored(left, entities, failing)
    ensures Scored(LeftMerge(left, IncompleteFrame(nodes)), entities, failing + [nodes])
  {
    if left != [] {
      var init, last := left[..|left| - 1], left[|left| - 1];
      assert last in left;
      assert Scored(init, entities, failing) by {
        forall r | r in init ensures r in left {
          var i :| 0 <= i < |init| && init[i] == r;
          assert left[i] == r;
        }
      }
      LeftMergeScored(init, entities, failing, nodes);
      MergeRowOfIncomplete(last, nodes);
      var extended := failing + [nodes];
      forall r | r in MergeRow(last, IncompleteFrame(nodes))
        ensures r.entity in entities && |r.scores| == |extended|
        ensures forall p | 0 <= p < |extended| :: r.scores[p] == Score(r.entity, extended[p])
      {
        forall p | 0 <= p < |extended| ensures r.scores[p] == Score(r.entity, extended[p]) {
          if p < |failing| {
            assert extended[p] == failing[p];
          }
        }
      }
    }
  }

  /** After all the merges, every row carries one score per property: 0 where the
      property's report lists the row's entity, 1 everywhere else. Every row's
      entity is one of the entity column's, so a focus node that is not an entity
      never adds a row. */
  lemma {:induction false} MergeAllScored(entities: seq<string>, failing: seq<seq<string>>)
    ensures Scored(MergeAll(entities, Frames(failing)), entities, failing)
  {
    if failing == [] {
      forall r | r in Initial(entities) ensures r.entity in entities {
        var i :| 0 <= i < |entities| && Initial(entities)[i] == r;
      }
    } else {
      var init, last := failing[..|failing| - 1], failing[|failing| - 1];
      assert Frames(failing)[..|failing| - 1] == Frames(init);
      MergeAllScored(entities, init);
      LeftMergeScored(MergeAll(entities, Frames(init)), entities, init, last);
      assert init + [last] == failing;
    }
  }

  lemma {:induction false} NoDuplicatesCount(s: seq<string>, x: string)
    requires NoDuplicates(s)
    ensures multiset(s)[x] <= 1
  {
    if s != [] {
      var init := s[..|s| - 1];
      assert s == init + [s[|s| - 1]];
      NoDuplicatesCount(init, x);
      if s[|s| - 1] == x {
        assert x !in init;
      }
    }
  }

  /** A row whose entity matches at most once makes exactly one row. */
  lemma MergeRowSingle(row: MergedRow, nodes: seq<string>)
    requires NoDuplicates(nodes)
    ensures MergeRow(row, IncompleteFrame(nodes)) == [MergedRow(row.entity, row.scores + [Score(row.entity, nodes)])]
  {
    NoDuplicatesCount(nodes, row.entity);
    MergeRowOfIncomplete(row, nodes);
    var made := MergeRow(row, IncompleteFrame(nodes));
    assert made[0] in made;
  }

  /** When a property's focus nodes do not repeat, merging it keeps exactly the rows
      there were, in their order. */
  lemma {:induction false} LeftMergeKeepsKeys(left: seq<MergedRow>, nodes: seq<string>)
    requires NoDuplicates(nodes)
    ensures Keys(LeftMerge(left, IncompleteFrame(nodes))) == Keys(left)
  {
    if left != [] {
      var init, last := left[..|left| - 1], left[|left| - 1];
      var merged := LeftMerge(init, IncompleteFrame(nodes));
      var made := MergeRow(last, IncompleteFrame(nodes));
      LeftMergeKeepsKeys(init, nodes);
      MergeRowSingle(last, nodes);
      assert left == init + [last];
      KeysExtended(merged, init, last, made[0]);
    }
  }

  lemma KeysExtended(merged: seq<MergedRow>, init: seq<MergedRow>, last: MergedRow, made: MergedRow)
    requires Keys(merged) == Keys(init) && made.entity == last.entity
    ensures Keys(merged + [made]) == Keys(init + [last])
  {
    KeysAppend(merged, [made]);
    KeysAppend(init, [last]);
  }

  /** When no focus node repeats within a property's list, the report has exactly
      one row per entity, in the entity column's order. */
  lemma {:induction false} MergeAllKeepsEntities(entities: seq<string>, failing: seq<seq<string>>)
    requires forall p | 0 <= p < |failing| :: NoDuplicates(failing[p])
    ensures Keys(MergeAll(entities, Frames(failing))) == entities
  {
    if failing != [] {
      var init := failing[..|failing| - 1];
      assert Frames(failing)[..|failing| - 1] == Frames(init);
      MergeAllKeepsEntities(entities, init);
      LeftMergeKeepsKeys(MergeAll(entities, Frames(init)), failing[|failing| - 1]);
    }
  }

  /** The focus nodes of a list that are entities. */
  function KnownNodes(nodes: seq<string>, entities: seq<string>): (r: seq<string>)
    ensures forall x | x in r :: x in entities
  {
    if nodes == [] then []
    else KnownNodes(nodes[..|nodes| - 1], entities)
         + (if nodes[|nodes| - 1] in entities then [nodes[|nodes| - 1]] else [])
  }

  lemma {:induction false} KnownNodesCount(nodes: seq<string>, entities: seq<string>, x: string)
    requires x in entities
    ensures multiset(KnownNodes(nodes, entities))[x] == multiset(nodes)[x]
  {
    if nodes != [] {
      var init := nodes[..|nodes| - 1];
      KnownNodesCount(init, entities, x);
      assert nodes == init + [nodes[|nodes| - 1]];
    }
  }

  /** Focus nodes that are not entities leave a merge step unchanged: the left
      join drops them. */
  lemma {:induction false} UnknownFocusNodesIgnored(left: seq<MergedRow>, entities: seq<string>,
                                                    nodes: seq<string>)
    requires forall r | r in left :: r.entity in entities
    ensures LeftMerge(left, IncompleteFrame(nodes))
            == LeftMerge(left, IncompleteFrame(KnownNodes(nodes, entities)))
  {
    if left != [] {
      var init, last := left[..|left| - 1], left[|left| - 1];
      assert last in left;
      forall r | r in init ensures r.entity in entities {
        var i :| 0 <= i < |init| && init[i] == r;
        assert left[i] == r;
      }
      UnknownFocusNodesIgnored(init, entities, nodes);
      var known := KnownNodes(nodes, entities);
      KnownNodesCount(nodes, entities, last.entity);
      MatchesOfIncomplete(last.entity, nodes);
      MatchesOfIncomplete(last.entity, known);
      var m1, m2 := Matches(last.entity, IncompleteFrame(nodes)), Matches(last.entity, IncompleteFrame(known));
      assert m1 == m2 by {
        forall i | 0 <= i < |m1| ensures m1[i] == m2[i] {
          assert m1[i] in m1 && m2[i] in m2;
        }
      }
    }
  }

  /** The sum of a row's scores is the number of properties less the number that
      list the entity. */
  lemma {:induction false} SumOfScores(entity: string, scores: seq<int>, failing: seq<seq<string>>)
    requires |scores| == |failing|
    requires forall p | 0 <= p < |failing| :: scores[p] == Score(entity, failing[p])
    ensures Sum(scores) == |failing| - FailedCount(entity, failing)
  {
    if scores != [] {
      SumOfScores(entity, scores[..|scores| - 1], failing[..|failing| - 1]);
    }
  }

  /** What the report says of one of its rows: a known entity, its 0/1 score per
      merged property, and `complete_all` = (D - k) / P for an entity listed by k of
      the D merged properties and a property list of length P. */
  ghost predicate Reported(r: ValidationRow, entities: seq<string>, failing: seq<seq<string>>, count: nat) {
    && r.entity in entities
    && |r.scores| == |failing|
    && (forall p | 0 <= p < |failing| :: r.scores[p] == Score(r.entity, failing[p]))
    && r.completeAll == if count == 0 then NaN
                        else Value((|failing| - FailedCount(r.entity, failing)) as real / count as real)
  }

  lemma ReportedRow(row: MergedRow, entities: seq<string>, failing: seq<seq<string>>, count: nat)
    requires row.entity in entities && |row.scores| == |failing|
    requires forall p | 0 <= p < |failing| :: row.scores[p] == Score(row.entity, failing[p])
    ensures Reported(ValidationRow(row.entity, row.scores, CompleteAll(row.scores, count)), entities, failing, count)
  {
    SumOfScores(row.entity, row.scores, failing);
  }

  /** Every row of the report is `Reported`, and there is one per merged row. */
  lemma ReportRows(entities: seq<string>, failing: seq<seq<string>>, count: nat)
    ensures |Report(entities, failing, count)| == |MergeAll(entities, Frames(failing))|
    ensures forall r | r in Report(entities, failing, count) :: Reported(r, entities, failing, count)
  {
    var merged := MergeAll(entities, Frames(failing));
    var report := Report(entities, failing, count);
    MergeAllScored(entities, failing);
    forall i | 0 <= i < |report| ensures Reported(report[i], entities, failing, count) {
      assert merged[i] in merged;
      ReportedRow(merged[i], entities, failing, count);
    }
  }

  /** Lines 45-63: per property, in the order of `props`, the table of its focus
      nodes with score 0. */
  method ListIncomplete(props: seq<string>, reportQuery: string -> seq<string>)
    returns (listIncomplete: seq<seq<(string, int)>>)
    ensures |listIncomplete| == |props|
    ensures forall k | 0 <= k < |props| :: listIncomplete[k] == IncompleteFrame(reportQuery(props[k]))
  {
    listIncomplete := [];
    for k := 0 to |props|
      invariant |listIncomplete| == k
      invariant forall j | 0 <= j < k :: listIncomplete[j] == IncompleteFrame(reportQuery(props[j]))
    {
      var res := reportQuery(props[k]);
      var listEntities: seq<(string, int)> := [];
      for n := 0 to |res|
        invariant listEntities == IncompleteFrame(res[..n])
      {
        listEntities := listEntities + [(res[n], 0)];
      }
      assert res[..|res|] == res;
      listIncomplete := listIncomplete + [listEntities];
    }
  }

  /** Lines 67-69: the tables keyed by property. A repeated property overwrites its
      entry, which keeps its first position among the keys. */
  method IncompleteDict(props: seq<string>, listIncomplete: seq<seq<(string, int)>>,
                        reportQuery: string -> seq<string>)
    returns (keys: seq<string>, incompleteDict: map<string, seq<(string, int)>>)
    requires |listIncomplete| == |props|
    requires forall k | 0 <= k < |props| :: listIncomplete[k] == IncompleteFrame(reportQuery(props[k]))
    ensures keys == Distinct(props)
    ensures forall d | d in keys :: d in incompleteDict && incompleteDict[d] == IncompleteFrame(reportQuery(d))
    ensures incompleteDict.Keys == set d | d in keys
  {
    keys := [];
    incompleteDict := map[];
    for k := 0 to |props|
      invariant keys == Distinct(props[..k])
      invariant forall d | d in keys :: d in incompleteDict && incompleteDict[d] == IncompleteFrame(reportQuery(d))
      invariant forall d | d in incompleteDict :: d in keys
    {
      assert props[..k + 1][..k] == props[..k];
      keys := if props[k] in incompleteDict then keys else keys + [props[k]];
      incompleteDict := incompleteDict[props[k] := listIncomplete[k]];
    }
    assert props[..|props|] == props;
  }

  /** Lines 66 and 72-73: the entity column with every keyed table left-joined onto
      it in key order. */
  method MergeIncomplete(entities: seq<string>, keys: seq<string>,
                         incompleteDict: map<string, seq<(string, int)>>,
                         reportQuery: string -> seq<string>)
    returns (validation: seq<MergedRow>)
    requires forall d | d in keys :: d in incompleteDict && incompleteDict[d] == IncompleteFrame(reportQuery(d))
    ensures validation == MergeAll(entities, Frames(FailingOf(keys, reportQuery)))
  {
    var frames := Frames(FailingOf(keys, reportQuery));
    validation := Initial(entities);
    for j := 0 to |keys|
      invariant validation == MergeAll(entities, frames[..j])
    {
      assert frames[..j + 1][..j] == frames[..j];
      assert keys[j] in keys;
      validation := LeftMerge(validation, incompleteDict[keys[j]]);
    }
    assert frames[..|keys|] == frames;
  }

  /** The `complete_all` of a reported row over properties listed once each. */
  lemma ShareOfPassed(r: ValidationRow, entities: seq<string>, failing: seq<seq<string>>, count: nat)
    requires Reported(r, entities, failing, count) && |failing| == count
    ensures r.completeAll == if count == 0 then NaN
                             else Value((count - FailedCount(r.entity, failing)) as real / count as real)
  {
  }

  /** `complete_all` of each report row over a property list is the share of the
      listed properties whose report does not name the row's entity. */
  lemma ReportShares(entities: seq<string>, props: seq<string>, reportQuery: string -> seq<string>)
    ensures forall r | r in Report(entities, FailingOf(props, reportQuery), |props|) ::
              r.completeAll == if |props| == 0 then NaN
                               else Value((|props| - FailedCount(r.entity, FailingOf(props, reportQuery))) as real
                                          / |props| as real)
  {
    ReportRows(entities, FailingOf(props, reportQuery), |props|);
    forall r | r in Report(entities, FailingOf(props, reportQuery), |props|) {
      ShareOfPassed(r, entities, FailingOf(props, reportQuery), |props|);
    }
  }


  /** `create_report_validation` (validate_completeness.py:44-76). The query of the
      validation report at lines 48-57 is the parameter `reportQuery`: the focus
      nodes of the results whose `sh:resultPath` is the given property. Properties
      are merged once each, in the order of their first occurrence, as the keys of
      `incomplete_dict` are; `complete_all` divides by the whole list's length. */
  method CreateReportValidation(useCol: string, entities: seq<string>, props: seq<string>,
                                reportQuery: string -> seq<string>)
    returns (columns: seq<string>, rows: seq<ValidationRow>)
    ensures columns == [useCol] + Distinct(props) + [CompleteAllColumn]
    ensures rows == Report(entities, FailingOf(Distinct(props), reportQuery), |props|)
    ensures forall r | r in rows :: Reported(r, entities, FailingOf(Distinct(props), reportQuery), |props|)
    ensures (forall p | p in props :: NoDuplicates(reportQuery(p))) ==>
              |rows| == |entities| && forall i | 0 <= i < |rows| :: rows[i].entity == entities[i]
    ensures NoDuplicates(props) ==>
              columns == [useCol] + props + [CompleteAllColumn]
              && rows == Report(entities, FailingOf(props, reportQuery), |props|)
  {
    var listIncomplete := ListIncomplete(props, reportQuery);
    var keys, incompleteDict := IncompleteDict(props, listIncomplete, reportQuery);
    var validation := MergeIncomplete(entities, keys, incompleteDict, reportQuery);

    // line 75
    rows := seq(|validation|, i requires 0 <= i < |validation| =>
      ValidationRow(validation[i].entity, validation[i].scores, CompleteAll(validation[i].scores, |props|)));
    columns := [useCol] + keys + [CompleteAllColumn];

    ghost var failing := FailingOf(keys, reportQuery);
    ReportRows(entities, failing, |props|);
    assert NoDuplicates(props) ==> keys == props by {
      DistinctFacts(props);
    }
    if forall p | p in props :: NoDuplicates(reportQuery(p)) {
      DistinctFacts(props);
      assert forall p | 0 <= p < |failing| :: NoDuplicates(failing[p]) by {
        forall p | 0 <= p < |failing| ensures NoDuplicates(failing[p]) {
          assert keys[p] in keys;
        }
      }
      MergeAllKeepsEntities(entities, failing);
      assert Keys(validation) == entities;
    }
  }

  /** An RDF term of the shapes graph, as rdflib gives it. */
  datatype Term = Iri(iri: string) | BlankNode(id: string) | Literal(lexical: string)

  datatype Triple = Triple(subject: Term, pred: Term, obj: Term)

  const ShPath := Iri("http://www.w3.org/ns/shacl#path")

  /** rdflib's `Term.n3()`: an IRI in angle brackets, a blank node with `_:`, a
      literal in double quotes. */
  function N3(t: Term): string {
    match t
    case Iri(iri) => "<" + iri + ">"
    case BlankNode(id) => "_:" + id
    case Literal(lexical) => "\"" + lexical + "\""
  }

  /** The N3 forms of the objects of the `sh:path` triples. */
  function PathSet(graph: seq<Triple>): set<string> {
    set t | t in graph && t.pred == ShPath :: N3(t.obj)
  }

  /** The `sh:path` collection (validate_completeness.py:117-121): the properties to
      check, each once, in the arbitrary order `list(set)` gives. */
  method CollectPaths(graph: seq<Triple>) returns (propList: seq<string>)
    ensures NoDuplicates(propList)
    ensures forall x :: x in propList <==> x in PathSet(graph)
    ensures |propList| == |PathSet(graph)|
  {
    var prop: set<string> := {};
    for i := 0 to |graph|
      invariant prop == PathSet(graph[..i])
    {
      assert graph[..i + 1] == graph[..i] + [graph[i]];
      if graph[i].pred == ShPath {
        prop := prop + {N3(graph[i].obj)};
      }
    }
    assert graph[..|graph|] == graph;
    propList := [];
    var rest := prop;
    while rest != {}
      invariant rest <= prop
      invariant forall x :: x in propList <==> x in prop - rest
      invariant NoDuplicates(propList)
      invariant |propList| + |rest| == |prop|
      decreases |rest|
    {
      var x :| x in rest;
      assert x !in propList;
      propList := propList + [x];
      rest := rest - {x};
    }
  }

  const LangColumn := "o.xml:lang"
  const NotSpecified := "not specified"

  /** A missing language tag read as `'not specified'`. */
  function FillLanguage(c: Cell): (r: Cell)
    ensures r.Some?
    ensures c.Some? ==> r == c
    ensures c.None? ==> r == Some(NotSpecified)
  {
    if c.None? then Some(NotSpecified) else c
  }

  /** Filling is idempotent and leaves no missing cell. */
  lemma FillLanguageColumn(column: seq<Cell>)
    ensures MapCells(MapCells(column, FillLanguage), FillLanguage) == MapCells(column, FillLanguage)
    ensures forall i | 0 <= i < |column| :: MapCells(column, FillLanguage)[i].Some?
  {
  }

  /** The language fill (validate_completeness.py:107-108): when the frame has the
      `o.xml:lang` column, its missing cells become `'not specified'` in place. */
  method FillMissingLanguage(dataProp: Frame)
    requires dataProp.Valid()
    modifies dataProp
    ensures dataProp.Valid() && dataProp.height == old(dataProp.height)
    ensures LangColumn in old(dataProp.columns) ==>
              dataProp.columns == old(dataProp.columns)[LangColumn := MapCells(old(dataProp.columns)[LangColumn], FillLanguage)]
    ensures LangColumn !in old(dataProp.columns) ==> dataProp.columns == old(dataProp.columns)
  {
    if LangColumn in dataProp.columns {
      dataProp.columns := dataProp.columns[LangColumn := MapCells(dataProp.columns[LangColumn], FillLanguage)];
    }
  }
}
