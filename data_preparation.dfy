/** The data fetch of prepare_data.py: for each property, the entity column is cut
    into windows of 50 and each window is sent to the SPARQL endpoint in a
    `VALUES` block (section 10.2 of SPARQL 1.1 Query); the answers are concatenated.
    The endpoint is a parameter: a function from the query text to its rows, or
    to `None` when the query raises. */
module DataPreparation {
  import opened Common
  import opened Table

  const WindowSize := 50

  /** How many values `range(0, size, 50)` takes: ceil(size / 50). */
  function WindowCount(size: nat): (n: nat)
    ensures forall j: nat :: j < n <==> WindowSize * j < size
    ensures WindowSize * n >= size
    ensures n > 0 ==> WindowSize * (n - 1) < size
  {
    (size + WindowSize - 1) / WindowSize
  }

  /** The window queried at `idx`: `data['entity'][idx-50:idx]`. */
  function Window<T>(column: seq<T>, idx: int): seq<T> {
    Slice(column, idx - WindowSize, idx)
  }

  /** The window at `idx` with the slice the loop evidently intends, `[idx:idx+50]`. */
  function CorrectedWindow<T>(column: seq<T>, idx: int): seq<T> {
    Slice(column, idx, idx + WindowSize)
  }

  /** The positions the windows of the j-th loop step cover are [Lo(j), Hi(j)). */
  function Lo(j: nat): nat {
    if j == 0 then 0 else WindowSize * (j - 1)
  }

  function Hi(j: nat): nat {
    WindowSize * j
  }

  /** The part of the column that some window covers: everything before the last
      window start. */
  function Covered(size: nat): (c: nat)
    ensures c <= size
  {
    var n := WindowCount(size);
    if n == 0 then 0 else WindowSize * (n - 1)
  }

  /** The windows of the first `n` loop steps, in loop order. */
  function Windows<T>(column: seq<T>, n: nat): (ws: seq<seq<T>>)
    ensures |ws| == n
  {
    if n == 0 then [] else Windows(column, n - 1) + [Window(column, WindowSize * (n - 1))]
  }

  function CorrectedWindows<T>(column: seq<T>, n: nat): (ws: seq<seq<T>>)
    ensures |ws| == n
  {
    if n == 0 then [] else CorrectedWindows(column, n - 1) + [CorrectedWindow(column, WindowSize * (n - 1))]
  }

  /** The first window is the empty slice `[-50:0]`. */
  lemma FirstWindowEmpty<T>(column: seq<T>)
    ensures Window(column, 0) == []
  {
  }

  /** The window of loop step j is positions [Lo(j), Hi(j)) of the column: empty for
      j = 0, and exactly 50 entities for every later step the loop takes. The
      ranges of different steps do not overlap. */
  lemma WindowPositions<T>(column: seq<T>, j: nat)
    requires j < WindowCount(|column|)
    ensures Window(column, WindowSize * j) == column[Lo(j)..Hi(j)]
    ensures j > 0 ==> |Window(column, WindowSize * j)| == WindowSize
    ensures forall k: nat | j < k :: Hi(j) <= Lo(k)
  {
  }

  lemma {:induction false} WindowsPrefix<T>(column: seq<T>, n: nat)
    requires 0 < n <= WindowCount(|column|)
    ensures Flatten(Windows(column, n)) == column[..Hi(n - 1)]
  {
    if n > 1 {
      WindowsPrefix(column, n - 1);
      WindowPositions(column, n - 1);
      assert column[..Hi(n - 2)] + column[Hi(n - 2)..Hi(n - 1)] == column[..Hi(n - 1)];
    }
  }

  /** Together the windows of one property are exactly the entities before the
      last window start, in order, each once. */
  lemma WindowsCoverPrefix<T>(column: seq<T>)
    ensures Flatten(Windows(column, WindowCount(|column|))) == column[..Covered(|column|)]
  {
    if WindowCount(|column|) > 0 {
      WindowsPrefix(column, WindowCount(|column|));
    }
  }

  /** The entities from the last window start on, between 1 and 50 of them
      whenever there is an entity at all, are in no window. */
  lemma TailNeverQueried<T>(column: seq<T>)
    ensures |column| > 0 ==> 1 <= |column| - Covered(|column|) <= WindowSize
    ensures forall j: nat | j < WindowCount(|column|) :: Hi(j) <= Covered(|column|)
  {
  }

  lemma {:induction false} CorrectedWindowsPrefix<T>(column: seq<T>, n: nat)
    requires n <= WindowCount(|column|)
    ensures Flatten(CorrectedWindows(column, n)) == column[..if n == 0 then 0 else Min(Hi(n), |column|)]
  {
    if n > 0 {
      CorrectedWindowsPrefix(column, n - 1);
      var lo, hi := Hi(n - 1), Min(Hi(n), |column|);
      assert CorrectedWindow(column, WindowSize * (n - 1)) == column[lo..hi];
      assert column[..lo] + column[lo..hi] == column[..hi];
    }
  }

  /** Stepping the window `[idx:idx+50]` instead covers the whole column, in
      order, each entity once. */
  lemma CorrectedWindowsPartition<T>(column: seq<T>)
    ensures Flatten(CorrectedWindows(column, WindowCount(|column|))) == column
  {
    CorrectedWindowsPrefix(column, WindowCount(|column|));
  }

  function Min(a: nat, b: nat): nat {
    if a < b then a else b
  }

  const QueryHead := "\nSELECT ?s ?p ?o\nWHERE {\n    "
  const BindOpen := "\n    BIND("
  const QueryTail := " AS ?p)\n    ?s ?p ?o .\n}\n"

  /** The query of lines 71-78 for one property and one window: a fixed head, the
      window's `VALUES` block, then the `BIND` of the property and a fixed tail. */
  function Query(prop: string, window: seq<string>): (r: string)
    ensures StartsWith(r, QueryHead + ValuesBlock(window))
    ensures EndsWith(r, BindOpen + prop + QueryTail)
    ensures |r| == |QueryHead + ValuesBlock(window)| + |BindOpen + prop + QueryTail|
  {
    var front, back := QueryHead + ValuesBlock(window), BindOpen + prop + QueryTail;
    Concat(front, back);
    front + back
  }

  /** No entity is empty or holds a space or a `}`, as the IRIREF production of
      SPARQL 1.1 Query (section 19.8) excludes both characters. */
  predicate PlainEntities(window: seq<string>) {
    forall k | 0 <= k < |window| :: window[k] != [] && ' ' !in window[k] && '}' !in window[k]
  }

  /** Reads the property and the window back from a fetch query: the window is
      the text up to the first `}` split on spaces, the property what stands
      between `BIND(` and the fixed tail. */
  function DecodeQuery(q: string): Option<(string, seq<string>)> {
    var start := QueryHead + ValuesOpen;
    if !StartsWith(q, start) then None
    else
      var rest := q[|start|..];
      var i := IndexOf('}', rest);
      if i == |rest| then None
      else
        var after := rest[i + 1..];
        if |after| < |BindOpen| + |QueryTail| || !StartsWith(after, BindOpen) || !EndsWith(after, QueryTail) then None
        else
          var text := rest[..i];
          Some((after[|BindOpen|..|after| - |QueryTail|], if text == [] then [] else Split(' ', text)))
  }

  /** A text framed by `front` and `back` starts with the one, ends with the other
      and holds `middle` between them. */
  lemma Framed(front: string, middle: string, back: string)
    ensures var s := front + middle + back;
      && StartsWith(s, front) && EndsWith(s, back) && |s| == |front| + |middle| + |back|
      && s[|front|..|s| - |back|] == middle
  {
    var s := front + middle + back;
    assert s[..|front|] == front;
    assert s[|s| - |back|..] == back;
    assert s[|front|..|s| - |back|] == middle;
  }

  /** The decoder reads back the text before the first `}` and the property. */
  lemma DecodeAssembled(joined: string, prop: string)
    requires '}' !in joined
    ensures DecodeQuery(QueryHead + ValuesOpen + (joined + "}" + (BindOpen + prop + QueryTail)))
            == Some((prop, if joined == [] then [] else Split(' ', joined)))
  {
    var start, back := QueryHead + ValuesOpen, BindOpen + prop + QueryTail;
    var rest := joined + "}" + back;
    var q := start + rest;
    Concat(start, rest);
    IndexOfFirst('}', joined, back);
    assert rest[..|joined|] == joined;
    assert rest[|joined| + 1..] == back;
    Framed(BindOpen, prop, QueryTail);
  }

  /** The query sent for a window names that window, in order, and the property. */
  lemma QueryDecodes(prop: string, window: seq<string>)
    requires PlainEntities(window)
    ensures DecodeQuery(Query(prop, window)) == Some((prop, window))
  {
    var joined := Join(" ", window);
    JoinAvoids(" ", window, '}');
    assert Query(prop, window) == QueryHead + ValuesOpen + (joined + "}" + (BindOpen + prop + QueryTail));
    DecodeAssembled(joined, prop);
    if window != [] {
      assert |window| >= 2 ==> |joined| >= 1;
      assert joined != [];
      SplitJoin(' ', window);
    }
  }

  /** Different properties or windows give different queries. */
  lemma QueryInjective(prop: string, window: seq<string>, prop': string, window': seq<string>)
    requires PlainEntities(window) && PlainEntities(window')
    requires Query(prop, window) == Query(prop', window')
    ensures prop == prop' && window == window'
  {
    QueryDecodes(prop, window);
    QueryDecodes(prop', window');
  }

  const ValuesOpen := "VALUES ?s {"

  /** The `VALUES` block listing the window's entities, separated by spaces. */
  function ValuesBlock(window: seq<string>): (r: string)
    ensures window == [] ==> r == "VALUES ?s {}"
  {
    ValuesOpen + Join(" ", window) + "}"
  }

  /** The block lists the window's entities in window order: between `VALUES ?s {`
      and the closing `}` stands a text that, split on spaces, gives the window
      back, provided no entity contains a space, as no IRI does. */
  lemma ValuesBlockLists(window: seq<string>)
    requires window != []
    requires forall k | 0 <= k < |window| :: ' ' !in window[k]
    ensures var b := ValuesBlock(window);
      && StartsWith(b, ValuesOpen) && EndsWith(b, "}") && |ValuesOpen| < |b|
      && Split(' ', b[|ValuesOpen|..|b| - 1]) == window
  {
    var joined := Join(" ", window);
    var b := ValuesBlock(window);
    Concat(ValuesOpen, joined);
    Concat(ValuesOpen + joined, "}");
    PrefixOfPrefix(b, ValuesOpen, joined);
    assert b[|ValuesOpen|..|b| - 1] == joined;
    SplitJoin(' ', window);
  }

  /** A window one entity longer lists that entity after a space, before the closing `}`. */
  lemma ValuesBlockAppend(window: seq<string>, entity: string)
    requires window != []
    ensures ValuesBlock(window + [entity])
            == ValuesOpen + Join(" ", window) + " " + entity + "}"
  {
    JoinAppend(" ", window, entity);
  }

  /** The endpoint's answer for each window the loop visits, in loop order. */
  function Outcomes<R>(endpoint: string -> Option<seq<R>>, prop: string, column: seq<string>): (outs: seq<Option<seq<R>>>)
    ensures |outs| == WindowCount(|column|)
    ensures forall j | 0 <= j < |outs| :: outs[j] == endpoint(Query(prop, Window(column, WindowSize * j)))
  {
    seq(WindowCount(|column|), j requires 0 <= j < WindowCount(|column|) =>
      endpoint(Query(prop, Window(column, WindowSize * j))))
  }

  /** The answers up to the first failure, after which `break` leaves the loop. */
  function Answered<R>(outs: seq<Option<seq<R>>>): seq<seq<R>> {
    if outs == [] then []
    else match outs[0]
      case None => []
      case Some(rows) => [rows] + Answered(outs[1..])
  }

  /** The answers one property contributes. */
  function PropertyResults<R>(endpoint: string -> Option<seq<R>>, prop: string, column: seq<string>): seq<seq<R>> {
    Answered(Outcomes(endpoint, prop, column))
  }

  /** Per property, in property order, the answers it contributes. */
  function PerProperty<R>(endpoint: string -> Option<seq<R>>, props: seq<string>, column: seq<string>): (r: seq<seq<seq<R>>>)
    ensures |r| == |props|
  {
    seq(|props|, k requires 0 <= k < |props| => PropertyResults(endpoint, props[k], column))
  }

  /** The answers of every property, in property order. */
  function Collected<R>(endpoint: string -> Option<seq<R>>, props: seq<string>, column: seq<string>): seq<seq<R>> {
    Flatten(PerProperty(endpoint, props, column))
  }

  /** The answers kept are those of the windows in loop order, up to but not
      including the first failure; when nothing fails, there is one per window. */
  lemma {:induction false} AnsweredStopsAtFirstFailure<R>(outs: seq<Option<seq<R>>>)
    ensures var r := Answered(outs);
      && |r| <= |outs|
      && (forall i | 0 <= i < |r| :: outs[i] == Some(r[i]))
      && (|r| < |outs| ==> outs[|r|].None?)
  {
    if outs != [] && outs[0].Some? {
      AnsweredStopsAtFirstFailure(outs[1..]);
      var r, rest := Answered(outs), Answered(outs[1..]);
      forall i | 0 <= i < |r| ensures outs[i] == Some(r[i]) {
        if i > 0 {
          assert r[i] == rest[i - 1] && outs[i] == outs[1..][i - 1];
        }
      }
    }
  }

  /** A property's answers are those of its windows' queries in loop order, up to
      but not including the first query that raises; when none raises, there is
      one answer per window. */
  lemma ResultsStopAtFirstFailure<R>(endpoint: string -> Option<seq<R>>, prop: string, column: seq<string>)
    ensures var r := PropertyResults(endpoint, prop, column);
      && |r| <= WindowCount(|column|)
      && (forall j | 0 <= j < |r| :: endpoint(Query(prop, Window(column, WindowSize * j))) == Some(r[j]))
      && (|r| < WindowCount(|column|) ==> endpoint(Query(prop, Window(column, WindowSize * |r|))).None?)
  {
    AnsweredStopsAtFirstFailure(Outcomes(endpoint, prop, column));
  }

  /** A failure in one property abandons only that property's windows: the
      properties after it contribute their answers just the same, and the answers
      come property by property. */
  lemma CollectedAppend<R>(endpoint: string -> Option<seq<R>>, props: seq<string>,
                           more: seq<string>, column: seq<string>)
    ensures Collected(endpoint, props + more, column) == Collected(endpoint, props, column) + Collected(endpoint, more, column)
  {
    var a, b := PerProperty(endpoint, props, column), PerProperty(endpoint, more, column);
    assert PerProperty(endpoint, props + more, column) == a + b;
    FlattenAppend(a, b);
  }

  /** Without a property, or without an entity, nothing is collected. */
  lemma {:induction false} NothingToCollect<R>(endpoint: string -> Option<seq<R>>, props: seq<string>, column: seq<string>)
    requires props == [] || column == []
    ensures Collected(endpoint, props, column) == []
  {
    if props != [] {
      var per := PerProperty(endpoint, props, column);
      NothingToCollect(endpoint, props[..|props| - 1], column);
      assert per[..|props| - 1] == PerProperty(endpoint, props[..|props| - 1], column);
      assert per[|props| - 1] == [];
    }
  }

  /** One step of `Answered` from window `j` on. */
  lemma AnsweredStep<R>(outs: seq<Option<seq<R>>>, j: nat)
    requires j < |outs|
    ensures outs[j].None? ==> Answered(outs[j..]) == []
    ensures outs[j].Some? ==> Answered(outs[j..]) == [outs[j].value] + Answered(outs[j + 1..])
  {
    assert outs[j..][1..] == outs[j + 1..];
  }

  /** The inner loop of `get_data_prop` (prepare_data.py:69-84) for one property:
      appends the answers of its windows until a query raises. */
  method FetchProperty<R>(column: seq<string>, prop: string, endpoint: string -> Option<seq<R>>,
                          listData: seq<seq<R>>)
    returns (appended: seq<seq<R>>)
    ensures appended == listData + PropertyResults(endpoint, prop, column)
  {
    var size := |column|;
    appended := listData;
    ghost var outs := Outcomes(endpoint, prop, column);
    var idx := 0;
    ghost var j: nat := 0;
    while idx < size
      invariant idx == WindowSize * j && j <= |outs|
      invariant appended + Answered(outs[j..]) == listData + Answered(outs)
      decreases size - idx
    {
      var res := endpoint(Query(prop, Window(column, idx)));
      assert j < |outs| by {
        assert WindowSize * j < size;
      }
      assert res == outs[j];
      AnsweredStep(outs, j);
      if res.None? {
        // the `except` branch: abandon this property's remaining windows
        assert appended == listData + Answered(outs);
        break;
      }
      assert (appended + [res.value]) + Answered(outs[j + 1..]) == appended + ([res.value] + Answered(outs[j + 1..]));
      appended := appended + [res.value];
      idx := idx + WindowSize;
      j := j + 1;
    }
    if idx >= size {
      assert j == |outs|;
      assert outs[j..] == [];
    }
  }

  /** `get_data_prop` (prepare_data.py:65-86), with the entity column of `data`
      as `column`: the concatenation of every collected answer, or the error
      `pd.concat` raises when nothing was collected. */
  method GetDataProp<R>(column: seq<string>, props: seq<string>, endpoint: string -> Option<seq<R>>)
    returns (r: Result<seq<R>>)
    ensures Collected(endpoint, props, column) == [] ==> r == Raise(NoObjectsToConcatenate)
    ensures Collected(endpoint, props, column) != [] ==> r == Ok(Flatten(Collected(endpoint, props, column)))
  {
    var listData: seq<seq<R>> := [];
    for k := 0 to |props|
      invariant listData == Collected(endpoint, props[..k], column)
    {
      assert PerProperty(endpoint, props[..k + 1], column)
          == PerProperty(endpoint, props[..k], column) + [PropertyResults(endpoint, props[k], column)];
      listData := FetchProperty(column, props[k], endpoint, listData);
    }
    assert props[..|props|] == props;
    if listData == [] {
      return Raise(NoObjectsToConcatenate);
    }
    return Ok(Flatten(listData));
  }

  const EntityValueColumn := "entity.value"
  const EntityColumn := "entity"

  /** `f"<{x}>"` for one cell; a missing value prints as `nan`. */
  function Bracketed(c: Cell): (r: Cell)
    ensures r.Some? && |r.value| >= 2 && r.value[0] == '<' && r.value[|r.value| - 1] == '>'
    ensures c.None? ==> r == Some("<nan>")
    ensures c.Some? ==> r == Some("<" + c.value + ">")
  {
    match c
    case Some(x) => Some("<" + x + ">")
    case None => Some("<nan>")
  }

  /** The IRI inside angle brackets. */
  function Unbracketed(s: string): Option<string> {
    if |s| >= 2 && s[0] == '<' && s[|s| - 1] == '>' then Some(s[1..|s| - 1]) else None
  }

  /** Bracketing a present value and reading it back gives the value. */
  lemma BracketedRoundTrip(x: string)
    ensures Unbracketed(Bracketed(Some(x)).value) == Some(x)
  {
    assert ("<" + x + ">")[1..|x| + 1] == x;
  }

  /** The `entity` column of `retrieve_data` (prepare_data.py:95): every row's
      `entity.value` in angle brackets. Without `entity.value` the frame raises a
      `KeyError` and is left as it was. */
  method AddEntityColumn(data: Frame) returns (fault: Option<Fault>)
    requires data.Valid()
    modifies data
    ensures data.Valid() && data.height == old(data.height)
    ensures EntityValueColumn in old(data.columns) ==>
              fault == None &&
              data.columns == old(data.columns)[EntityColumn := MapCells(old(data.columns)[EntityValueColumn], Bracketed)]
    ensures EntityValueColumn !in old(data.columns) ==>
              fault == Some(MissingColumn(EntityValueColumn)) && data.columns == old(data.columns)
  {
    if EntityValueColumn !in data.columns {
      return Some(MissingColumn(EntityValueColumn));
    }
    data.columns := data.columns[EntityColumn := MapCells(data.columns[EntityValueColumn], Bracketed)];
    return None;
  }
}
