/** The SHACL shapes document that generate_shapes.py writes as Turtle text: a
    NodeShape with a `sh:targetClass` or `sh:targetNode` selector (SHACL, section
    2.1.3) and one PropertyShape with `sh:path` and `sh:minCount` per property row
    (SHACL, section 4.2.1), glued together by trimming characters off the ends of
    the pieces. The prefix block is configuration, passed in as `prefixes`. */
module ShapeBuilder {
  import opened Common

  /** One row of the property table: the property IRI and its minimum count. */
  datatype PropertyRow = PropertyRow(path: string, minCount: nat)

  /** What a node shape selects: its target and whether the target is a class. */
  datatype NodeTarget = NodeTarget(target: string, isClassTarget: bool)

  /** The line that types the node shape, between its name and its selector. */
  const NodeTypeLine := "\n    a sh:NodeShape ;\n    "

  /** The text of a node shape up to its target selector. */
  function NodeHeader(name: string): string {
    "\nex:" + name + NodeTypeLine
  }

  /** The selector's keyword: SHACL's `sh:targetClass` or `sh:targetNode`. */
  function TargetKeyword(isClassTarget: bool): string {
    if isClassTarget then "sh:targetClass " else "sh:targetNode "
  }

  /** The end of every node shape: the selector's statement is left open with
      ` ;` for the property shapes that follow. */
  const NodeTail := " ;\n    "

  /** The selector statement, left open. */
  function TargetLine(isClassTarget: bool, target: string): string {
    TargetKeyword(isClassTarget) + target + NodeTail
  }

  /** `construct_node_shape`: its two templates differ only in the keyword. */
  function NodeShape(name: string, target: string, isClassTarget: bool): (r: string)
    ensures StartsWith(r, "\nex:" + name) && |"\nex:" + name| < |r|
    ensures StartsWith(r, NodeHeader(name))
    ensures EndsWith(r, NodeTail)
    ensures r[|NodeHeader(name)|..] == TargetLine(isClassTarget, target)
  {
    var start, header, line := "\nex:" + name, NodeHeader(name), TargetLine(isClassTarget, target);
    Concat(start, NodeTypeLine);
    Concat(header, line);
    Concat(TargetKeyword(isClassTarget) + target, NodeTail);
    StartsWithTrans(header + line, header, start);
    EndsWithTrans(header + line, line, NodeTail);
    header + line
  }

  /** Reads the selector back out of a node shape text with the given name. */
  function DecodeNodeShape(name: string, text: string): Option<NodeTarget> {
    var header := NodeHeader(name);
    if !StartsWith(text, header) || |text| < |header| + |NodeTail| || !EndsWith(text, NodeTail) then None
    else
      var body := text[|header|..|text| - |NodeTail|];
      if StartsWith(body, TargetKeyword(true)) then Some(NodeTarget(body[|TargetKeyword(true)|..], true))
      else if StartsWith(body, TargetKeyword(false)) then Some(NodeTarget(body[|TargetKeyword(false)|..], false))
      else None
  }

  /** The node shape names its target with the selector the flag chose: the
      text determines both the target and whether it is a class. */
  lemma NodeShapeDecodes(name: string, target: string, isClassTarget: bool)
    ensures DecodeNodeShape(name, NodeShape(name, target, isClassTarget))
            == Some(NodeTarget(target, isClassTarget))
  {
    var r := NodeShape(name, target, isClassTarget);
    var header, keyword := NodeHeader(name), TargetKeyword(isClassTarget);
    var body := r[|header|..|r| - |NodeTail|];
    assert r[|header|..] == (keyword + target) + NodeTail;
    assert body == keyword + target;
    assert body[..|keyword|] == keyword;
    if !isClassTarget {
      assert body[9] == 'N' != TargetKeyword(true)[9];
    }
  }

  /** The pieces of the template `construct_property_shape` fills for one row. */
  const PropertyOpen := "    sh:property [ a sh:PropertyShape;\n        sh:path <"
  const PathClose := ">;\n        sh:minCount "
  const PropertyClose := " ];\n"

  /** The template `construct_property_shape` fills for one row (lines 88-92),
      after its leading newline. */
  function EntryText(row: PropertyRow): string {
    PropertyOpen + row.path + PathClose + Decimal(row.minCount) + PropertyClose
  }

  function PropertyBlock(row: PropertyRow): string {
    "\n" + EntryText(row)
  }

  /** What the loop appends for one row: `shape[1:]`, the block without its
      leading newline. */
  function Entry(row: PropertyRow): (r: string)
    ensures r == PropertyOpen + row.path + PathClose + Decimal(row.minCount) + PropertyClose
    ensures EndsWith(r, PropertyClose)
  {
    var block := PropertyBlock(row);
    Concat("\n", EntryText(row));
    Concat(PropertyOpen + row.path + PathClose + Decimal(row.minCount), PropertyClose);
    DropFirst(block);
    Slice(block, 1, |block|)
  }

  /** The accumulated `property_shape` after the loop has seen `rows`. */
  function Entries(rows: seq<PropertyRow>): string {
    if rows == [] then "" else Entries(rows[..|rows| - 1]) + Entry(rows[|rows| - 1])
  }

  lemma EntriesEnd(rows: seq<PropertyRow>)
    requires rows != []
    ensures EndsWith(Entries(rows), PropertyClose)
    ensures |Entries(rows)| > |PropertyClose| + 1
  {
    SuffixOfConcat(Entries(rows[..|rows| - 1]), Entry(rows[|rows| - 1]), PropertyClose);
  }

  /** The text after the loop for `rows[..j]` is a prefix of the text for all of `rows`. */
  lemma {:induction false} EntriesPrefix(rows: seq<PropertyRow>, j: nat)
    requires j <= |rows|
    ensures StartsWith(Entries(rows), Entries(rows[..j]))
    decreases |rows|
  {
    if j < |rows| {
      var init := rows[..|rows| - 1];
      assert init[..j] == rows[..j];
      EntriesPrefix(init, j);
    } else {
      assert rows[..j] == rows;
    }
  }

  /** The loop's step: row `i` appends its entry. */
  lemma EntriesStep(rows: seq<PropertyRow>, i: nat)
    requires i < |rows|
    ensures Entries(rows[..i + 1]) == Entries(rows[..i]) + Entry(rows[i])
  {
    assert rows[..i + 1][..i] == rows[..i];
  }

  /** One entry per row, in row order, none skipped: the accumulated text starts
      with the entries of the rows before row `i` followed by row `i`'s entry. */
  lemma EntryAt(rows: seq<PropertyRow>, i: nat)
    requires i < |rows|
    ensures StartsWith(Entries(rows), Entries(rows[..i]) + Entry(rows[i]))
  {
    EntriesPrefix(rows, i + 1);
    EntriesStep(rows, i);
    StartsWithEqual(Entries(rows), Entries(rows[..i + 1]), Entries(rows[..i]) + Entry(rows[i]));
  }

  /** The value `construct_property_shape` returns: the entries with their
      final `;\n` cut off by `[:-2]` and a `.` put in its place. */
  function PropertyShapeText(rows: seq<PropertyRow>): (r: string)
    ensures rows == [] ==> r == "."
    ensures rows != [] ==> EndsWith(r, " ].") && |r| > 3
    ensures rows != [] ==> r[..|r| - 1] + ";\n" == Entries(rows)
  {
    var entries := Entries(rows);
    var r := Slice(entries, 0, -2) + ".";
    assert rows != [] ==> EndsWith(r, " ].") && |r| > 3 && r[..|r| - 1] + ";\n" == entries by {
      if rows != [] {
        EntriesEnd(rows);
        Trimmed(entries);
      }
    }
    r
  }

  /** `[:-2] + '.'` on a text ending with ` ];\n`. */
  lemma Trimmed(entries: string)
    requires EndsWith(entries, PropertyClose) && |entries| > |PropertyClose| + 1
    ensures var r := Slice(entries, 0, -2) + ".";
      EndsWith(r, " ].") && |r| > 3 && r[..|r| - 1] + ";\n" == entries
  {
    var n := |entries|;
    DropLast(entries, 2);
    var r := entries[..n - 2] + ".";
    assert entries[n - 4..] == " ];\n";
    assert r[|r| - 3..] == entries[n - 4..n - 2] + ".";
    assert r[..|r| - 1] == entries[..n - 2];
    assert entries == entries[..n - 2] + entries[n - 2..];
  }

  /** `construct_property_shape` (generate_shapes.py:85-98). */
  method ConstructPropertyShape(rows: seq<PropertyRow>) returns (shape: string)
    ensures shape == PropertyShapeText(rows)
    ensures rows == [] ==> shape == "."
    ensures rows != [] ==> EndsWith(shape, " ].")
  {
    shape := "";
    for i := 0 to |rows|
      invariant shape == Entries(rows[..i])
    {
      assert rows[..i + 1][..i] == rows[..i];
      var block := PropertyBlock(rows[i]);
      shape := shape + Slice(block, 1, |block|);
    }
    assert rows[..|rows|] == rows;
    shape := Slice(shape, 0, -2) + ".";
  }

  /** What `node_shape[:-1]` leaves of the node shape's open tail. */
  const OpenTail := " ;\n   "

  /** The node shape is its header, the selector keyword, the target and the open tail. */
  lemma NodeShapeParts(name: string, target: string, isClassTarget: bool)
    ensures NodeShape(name, target, isClassTarget)
            == NodeHeader(name) + TargetKeyword(isClassTarget) + target + NodeTail
  {
  }

  /** `[:-1]` on a node shape cuts the last space of its open tail. */
  lemma NodeCut(head: string)
    ensures Slice(head + NodeTail, 0, -1) == head + OpenTail
  {
    DropLast(head + NodeTail, 1);
    assert (head + NodeTail)[..|head + NodeTail| - 1] == head + OpenTail;
  }

  /** `construct_shapes_graph`: `prefixes[1:] + node_shape[:-1] + property_shape[1:]`:
      the prefix block without its leading newline, the node shape up to its
      selector's open ` ;`, and every row's entry in row order with the first
      character of the first one and the last `;\n` cut (`[1:-2]`) and a `.` put in
      their place.
      With no property rows the `.` of the property text is sliced away too, so
      the document ends on the node shape's open `;` with no terminating period. */
  function ShapesGraph(prefixes: string, name: string, rows: seq<PropertyRow>,
                       target: string, isClassTarget: bool): (r: string)
    ensures rows == [] ==>
              r == Slice(prefixes, 1, |prefixes|) + NodeHeader(name) + TargetKeyword(isClassTarget) + target + OpenTail
    ensures rows != [] ==>
              r == Slice(prefixes, 1, |prefixes|) + NodeHeader(name) + TargetKeyword(isClassTarget) + target + OpenTail
                   + Slice(Entries(rows), 1, -2) + "."
    ensures StartsWith(r, Slice(prefixes, 1, |prefixes|) + ("\nex:" + name))
    ensures rows == [] ==> EndsWith(r, " ;\n   ") && r[|r| - 1] != '.'
    ensures rows != [] ==> EndsWith(r, " ].")
  {
    var block := Slice(prefixes, 1, |prefixes|);
    var node := NodeShape(name, target, isClassTarget);
    var props := PropertyShapeText(rows);
    var entries := Entries(rows);
    NodeShapeParts(name, target, isClassTarget);
    Concat("\nex:" + name, NodeTypeLine);
    assert rows != [] ==> EndsWith(entries, PropertyClose) by {
      if rows != [] {
        EntriesEnd(rows);
      }
    }
    Assembled(block, "\nex:" + name, NodeHeader(name), TargetKeyword(isClassTarget), target, node,
              rows == [], entries, props);
    block + Slice(node, 0, -1) + Slice(props, 1, |props|)
  }

  /** The facts about the three slices `construct_shapes_graph` glues together,
      with the node shape and property texts given by their parts. */
  lemma Assembled(block: string, start: string, header: string, keyword: string, target: string,
                  node: string, empty: bool, entries: string, props: string)
    requires StartsWith(header, start)
    requires node == header + keyword + target + NodeTail
    requires empty ==> props == "."
    requires !empty ==> EndsWith(entries, PropertyClose) && |entries| > |PropertyClose| + 1
    requires !empty ==> props == Slice(entries, 0, -2) + "."
    ensures var r := block + Slice(node, 0, -1) + Slice(props, 1, |props|);
      && (empty ==> r == block + header + keyword + target + OpenTail)
      && (!empty ==> r == block + header + keyword + target + OpenTail + Slice(entries, 1, -2) + ".")
      && StartsWith(r, block + start)
      && (empty ==> EndsWith(r, " ;\n   ") && r[|r| - 1] != '.')
      && (!empty ==> EndsWith(r, " ]."))
  {
    if empty {
      AssembledEmpty(block, header, keyword, target, node, props);
      Opened(block, start, header, keyword, target, "");
      assert block + header + keyword + target + OpenTail + "" == block + header + keyword + target + OpenTail;
    } else {
      var rest := entries[1..|entries| - 2] + ".";
      assert Slice(entries, 1, -2) == entries[1..|entries| - 2];
      AssembledRows(block, header, keyword, target, node, entries, props);
      Opened(block, start, header, keyword, target, rest);
      EntriesClosed(entries);
      SuffixOfConcat(block + header + keyword + target + OpenTail, rest, " ].");
    }
  }

  /** The document without property rows: the `.` of the property text is sliced away. */
  lemma AssembledEmpty(block: string, header: string, keyword: string, target: string,
                       node: string, props: string)
    requires node == header + keyword + target + NodeTail && props == "."
    ensures block + Slice(node, 0, -1) + Slice(props, 1, |props|) == block + header + keyword + target + OpenTail
  {
    NodeCut(header + keyword + target);
    DropFirst(props);
  }

  /** The document with property rows: `[1:]` cuts the first character of the trimmed entries. */
  lemma AssembledRows(block: string, header: string, keyword: string, target: string,
                      node: string, entries: string, props: string)
    requires node == header + keyword + target + NodeTail && |entries| >= 3
    requires props == Slice(entries, 0, -2) + "."
    ensures block + Slice(node, 0, -1) + Slice(props, 1, |props|)
            == block + header + keyword + target + OpenTail + entries[1..|entries| - 2] + "."
  {
    NodeCut(header + keyword + target);
    DropLast(entries, 2);
    DropFirst(props);
    assert props[1..] == entries[1..|entries| - 2] + ".";
  }

  /** The document starts with the prefix block, `\nex:` and the name, and
      without rows ends on the open tail. */
  lemma Opened(block: string, start: string, header: string, keyword: string, target: string, rest: string)
    requires StartsWith(header, start)
    ensures var r := block + header + keyword + target + OpenTail + rest;
      StartsWith(r, block + start) && (rest == [] ==> EndsWith(r, " ;\n   ") && r[|r| - 1] != '.')
  {
    var r := block + header + keyword + target + OpenTail + rest;
    var tail := keyword + target + OpenTail + rest;
    assert r == (block + header) + tail;
    PrefixOfConcat(block + header, tail);
    PrefixUnder(block, header, start);
    StartsWithTrans(r, block + header, block + start);
    if rest == [] {
      Concat(block + header + keyword + target, OpenTail);
    }
  }

  /** The trimmed entries end with ` ].`. */
  lemma EntriesClosed(entries: string)
    requires EndsWith(entries, PropertyClose) && |entries| > |PropertyClose| + 1
    ensures EndsWith(entries[1..|entries| - 2] + ".", " ].")
  {
    var n := |entries|;
    assert entries[n - 4..n - 2] == " ]";
    assert (entries[1..n - 2] + ".")[n - 5..] == entries[n - 4..n - 2] + ".";
  }

  /** The shapes document with the period the zero-row case is missing: the
      node shape's trailing ` ;` is closed by ` .` instead. */
  function TerminatedShapesGraph(prefixes: string, name: string, rows: seq<PropertyRow>,
                                 target: string, isClassTarget: bool): (r: string)
    ensures EndsWith(r, ".")
    ensures StartsWith(r, Slice(prefixes, 1, |prefixes|) + ("\nex:" + name))
    ensures rows != [] ==> r == ShapesGraph(prefixes, name, rows, target, isClassTarget)
    ensures rows == [] ==> EndsWith(r, TargetKeyword(isClassTarget) + target + " .")
    ensures rows == [] ==>
              r == Slice(prefixes, 1, |prefixes|) + NodeHeader(name) + TargetKeyword(isClassTarget) + target + " ."
  {
    if rows != [] then
      var r := ShapesGraph(prefixes, name, rows, target, isClassTarget);
      EndsWithTrans(r, " ].", ".");
      r
    else
      var block := Slice(prefixes, 1, |prefixes|);
      var node := NodeShape(name, target, isClassTarget);
      NodeShapeParts(name, target, isClassTarget);
      Concat("\nex:" + name, NodeTypeLine);
      Closed(block, "\nex:" + name, NodeHeader(name), TargetKeyword(isClassTarget), target, node);
      block + node[..|node| - |NodeTail|] + " ."
  }

  /** Closing the node shape's selector with ` .` instead of its open tail. */
  lemma Closed(block: string, start: string, header: string, keyword: string, target: string, node: string)
    requires node == header + keyword + target + NodeTail && StartsWith(header, start)
    ensures var r := block + node[..|node| - |NodeTail|] + " .";
      && r == block + header + keyword + target + " ."
      && EndsWith(r, keyword + target + " .") && EndsWith(r, ".") && StartsWith(r, block + start)
  {
    var line := keyword + target;
    assert node == header + line + NodeTail;
    assert node[..|node| - |NodeTail|] == header + line;
    var r := block + header + line + " .";
    assert r == (block + header) + (line + " .");
    Concat(block + header, line + " .");
    PrefixUnder(block, header, start);
    StartsWithTrans(r, block + header, block + start);
  }

  /** One row of the spreadsheet that `generate_by_spreadsheet` reads. */
  datatype SpreadsheetRow = SpreadsheetRow(shapeName: string, target: string, cardinality: nat)

  /** The file a spreadsheet row is written to. */
  function ShapeFilePath(shapeName: string): string {
    "./list_shapes/" + shapeName + "-shacl-1.ttl"
  }

  lemma ShapeFilePathInjective(a: string, b: string)
    requires ShapeFilePath(a) == ShapeFilePath(b)
    ensures a == b
  {
    var pa, pb := ShapeFilePath(a), ShapeFilePath(b);
    assert a == pa[14..|pa| - 12];
    assert b == pb[14..|pb| - 12];
  }

  /** The node shape of a spreadsheet row: `ex:{name}Shape`, targeting the row's
      node and owning the property shape `ex:{name}PropertyShape`. */
  function SpreadsheetNode(row: SpreadsheetRow): string {
    "\nex:" + row.shapeName + "Shape a sh:NodeShape ;\n    sh:targetNode "
    + row.target + " ;\n    sh:property ex:" + row.shapeName + "PropertyShape .\n"
  }

  /** The property shape of a spreadsheet row: `ex:{name}PropertyShape`, whose
      path is `prop` and whose minimum count is the row's cardinality. */
  function SpreadsheetProperty(row: SpreadsheetRow, prop: string): string {
    "\nex:" + row.shapeName + "PropertyShape a sh:PropertyShape ;\n    sh:path "
    + prop + " ;\n    sh:minCount " + Decimal(row.cardinality) + " .\n"
  }

  /** The text `generate_by_spreadsheet` writes for one row: the prefix block
      without its leading newline, the row's node shape, then its property shape. */
  function SpreadsheetShape(prefixes: string, row: SpreadsheetRow, prop: string): (r: string)
    ensures StartsWith(r, Slice(prefixes, 1, |prefixes|) + SpreadsheetNode(row))
    ensures EndsWith(r, SpreadsheetProperty(row, prop))
    ensures |r| == |Slice(prefixes, 1, |prefixes|)| + |SpreadsheetNode(row)| + |SpreadsheetProperty(row, prop)|
  {
    var block, node, property := Slice(prefixes, 1, |prefixes|), SpreadsheetNode(row), SpreadsheetProperty(row, prop);
    Concat(block + node, property);
    block + node + property
  }

  /** Some row after row `i` and before row `k` has the same shape name, and so
      overwrites row `i`'s file. */
  predicate RewrittenBefore(rows: seq<SpreadsheetRow>, i: nat, k: nat) {
    exists j | i < j < k && j < |rows| :: rows[j].shapeName == rows[i].shapeName
  }

  /** The files the first `k` rows write. */
  ghost function WrittenPaths(rows: seq<SpreadsheetRow>, k: nat): set<string>
    requires k <= |rows|
  {
    set i | 0 <= i < k :: ShapeFilePath(rows[i].shapeName)
  }

  lemma WrittenPathsStep(rows: seq<SpreadsheetRow>, k: nat)
    requires k < |rows|
    ensures WrittenPaths(rows, k + 1) == WrittenPaths(rows, k) + {ShapeFilePath(rows[k].shapeName)}
  {
    assert ShapeFilePath(rows[k].shapeName) in WrittenPaths(rows, k + 1);
  }

  /** After the first `k` rows, each of them that no later one of them overwrote
      has its own text in its file. */
  ghost predicate KeptTexts(written: map<string, string>, prefixes: string, rows: seq<SpreadsheetRow>,
                            prop: string, k: nat)
    requires k <= |rows|
  {
    forall i | 0 <= i < k && !RewrittenBefore(rows, i, k) ::
      ShapeFilePath(rows[i].shapeName) in written
      && written[ShapeFilePath(rows[i].shapeName)] == SpreadsheetShape(prefixes, rows[i], prop)
  }

  /** Writing row `k`'s file keeps the texts of the earlier rows it does not overwrite. */
  lemma KeptAfterWrite(written: map<string, string>, prefixes: string, rows: seq<SpreadsheetRow>,
                       prop: string, k: nat)
    requires k < |rows| && KeptTexts(written, prefixes, rows, prop, k)
    ensures KeptTexts(written[ShapeFilePath(rows[k].shapeName) := SpreadsheetShape(prefixes, rows[k], prop)],
                      prefixes, rows, prop, k + 1)
  {
    var path := ShapeFilePath(rows[k].shapeName);
    var after := written[path := SpreadsheetShape(prefixes, rows[k], prop)];
    forall i | 0 <= i < k + 1 && !RewrittenBefore(rows, i, k + 1)
      ensures ShapeFilePath(rows[i].shapeName) in after
      ensures after[ShapeFilePath(rows[i].shapeName)] == SpreadsheetShape(prefixes, rows[i], prop)
    {
      if i < k {
        KeptUntilRewritten(rows, i, k);
        if ShapeFilePath(rows[i].shapeName) == path {
          ShapeFilePathInjective(rows[i].shapeName, rows[k].shapeName);
        }
      }
    }
  }

  /** `generate_by_spreadsheet` (generate_shapes.py:273-290): one file per row,
      where a later row with the same shape name overwrites the earlier file.
      The result maps each written path to the file's final text. */
  method GenerateBySpreadsheet(prefixes: string, rows: seq<SpreadsheetRow>, prop: string)
    returns (written: map<string, string>)
    ensures written.Keys == set i | 0 <= i < |rows| :: ShapeFilePath(rows[i].shapeName)
    ensures forall i | 0 <= i < |rows| && !RewrittenBefore(rows, i, |rows|) ::
              written[ShapeFilePath(rows[i].shapeName)] == SpreadsheetShape(prefixes, rows[i], prop)
  {
    written := map[];
    for k := 0 to |rows|
      invariant written.Keys == WrittenPaths(rows, k)
      invariant KeptTexts(written, prefixes, rows, prop, k)
    {
      var path := ShapeFilePath(rows[k].shapeName);
      KeptAfterWrite(written, prefixes, rows, prop, k);
      WrittenPathsStep(rows, k);
      written := written[path := SpreadsheetShape(prefixes, rows[k], prop)];
    }
  }

  /** A row not rewritten before `k + 1` is neither rewritten before `k` nor by row `k`. */
  lemma KeptUntilRewritten(rows: seq<SpreadsheetRow>, i: nat, k: nat)
    requires i < k < |rows| && !RewrittenBefore(rows, i, k + 1)
    ensures !RewrittenBefore(rows, i, k)
    ensures rows[k].shapeName != rows[i].shapeName
  {
  }
}
