/**
 * Writing documents to a table: `save_to_hbase` (src/beemeteo/utils.py) and the older
 * `HBase.save` (beemeteo/hbase.py). Both pop the row fields out of each document to form
 * the `~`-joined row key (or number the documents), turn the remaining fields named by the
 * column-family mapping into `"cf:col" -> str(value)` cells, and send one batch of puts.
 */
module Save {
  import opened Wrappers
  import opened Text
  import opened Utf8
  import opened Records
  import opened Store

  /** The fields one column family takes: `"all"` or an explicit list. */
  datatype Fields = All | Listed(names: seq<string>)

  /** A `cf_mapping` entry: a column family and its fields. */
  datatype Family = Family(cf: string, fields: Fields)

  /** The row key parts and the document left once the row fields are popped. */
  datatype Popped = Popped(parts: seq<string>, rest: Document)

  /**
   * `[str(d.pop(f)) if f in d else "" for f in row_fields]`, left to right: a field named
   * twice is already gone the second time.
   */
  function PopFields(d: Document, fields: seq<string>): Popped
    decreases |fields|
  {
    if fields == [] then Popped([], d)
    else
      var f := fields[0];
      var p := PopFields(d - {f}, fields[1..]);
      Popped([if f in d then Show(d[f]) else ""] + p.parts, p.rest)
  }

  /**
   * Each part is the value of its field when the field is in the document and not named
   * earlier, and `""` otherwise; the document left has exactly the other fields.
   */
  lemma {:induction false} PopFieldsSpec(d: Document, fields: seq<string>)
    ensures var p := PopFields(d, fields);
      && |p.parts| == |fields|
      && (forall j :: 0 <= j < |fields| ==>
            p.parts[j] == if fields[j] in d && fields[j] !in fields[..j] then Show(d[fields[j]]) else "")
      && (forall k :: k in p.rest <==> k in d && k !in fields)
      && (forall k :: k in p.rest ==> p.rest[k] == d[k])
    decreases |fields|
  {
    if fields != [] {
      var f := fields[0];
      PopFieldsSpec(d - {f}, fields[1..]);
      var p := PopFields(d, fields);
      forall j | 1 <= j < |fields|
        ensures p.parts[j] == if fields[j] in d && fields[j] !in fields[..j] then Show(d[fields[j]]) else ""
      {
        assert fields[1..][j - 1] == fields[j];
        assert fields[..j] == [f] + fields[1..][..j - 1];
      }
    }
  }

  /** A document's row key when no row field repeats: `"~".join` of `str` of each field, `""` if absent. */
  lemma RowKeyParts(d: Document, fields: seq<string>)
    requires forall i, j :: 0 <= i < j < |fields| ==> fields[i] != fields[j]
    ensures PopFields(d, fields).parts == seq(|fields|, j requires 0 <= j < |fields| =>
                                                if fields[j] in d then Show(d[fields[j]]) else "")
  {
    PopFieldsSpec(d, fields);
  }

  /** The fields a family selects, as text: `str(v)` for each field it takes. */
  function Selected(fam: Family, d: Document): map<string, string> {
    map c | c in d && (fam.fields.All? || c in fam.fields.names) :: Show(d[c])
  }

  /** Cell names `p + c` for the entries `c` of `m`. */
  function Prefixed(p: string, m: map<string, string>): map<string, string> {
    PrefixInjective(p);
    map c | c in m :: p + c := m[c]
  }

  /** The cells one column family takes from the document: `"cf:c" -> str(v)`. */
  function FamilyCells(fam: Family, d: Document): map<string, string> {
    Prefixed(fam.cf + ":", Selected(fam, d))
  }

  lemma PrefixInjective(p: string)
    ensures forall a: string, b: string :: p + a == p + b ==> a == b
  {
    forall a: string, b: string | p + a == p + b ensures a == b {
      assert a == (p + a)[|p|..];
      assert b == (p + b)[|p|..];
    }
  }

  /** The cells of all column families in order, a later family overwriting a cell name. */
  function DocCells(mapping: seq<Family>, d: Document): map<string, string>
    decreases |mapping|
  {
    if mapping == [] then map[]
    else DocCells(mapping[..|mapping| - 1], d) + FamilyCells(mapping[|mapping| - 1], d)
  }

  lemma DocCellsSnoc(mapping: seq<Family>, d: Document, k: nat)
    requires k < |mapping|
    ensures DocCells(mapping[..k + 1], d) == DocCells(mapping[..k], d) + FamilyCells(mapping[k], d)
  {
    assert mapping[..k + 1][..k] == mapping[..k];
  }

  /** Whether a family stores field `c` of the document. */
  predicate Takes(fam: Family, d: Document, c: string) {
    c in d && (fam.fields.All? || c in fam.fields.names)
  }

  /**
   * A cell is stored exactly when some family takes a field of the document under that
   * name; its value is the `str` of the field of the last family that writes it.
   */
  lemma {:induction false} DocCellsSpec(mapping: seq<Family>, d: Document)
    ensures forall k :: k in DocCells(mapping, d) <==>
      exists i, c :: 0 <= i < |mapping| && Takes(mapping[i], d, c) && k == mapping[i].cf + ":" + c
    decreases |mapping|
  {
    if mapping != [] {
      var init, last := mapping[..|mapping| - 1], mapping[|mapping| - 1];
      DocCellsSpec(init, d);
      forall k ensures k in DocCells(mapping, d) <==>
        exists i, c :: 0 <= i < |mapping| && Takes(mapping[i], d, c) && k == mapping[i].cf + ":" + c
      {
        if k in DocCells(mapping, d) {
          if k in FamilyCells(last, d) {
            var c :| c in d && (last.fields.All? || c in last.fields.names) && k == last.cf + ":" + c;
            assert Takes(mapping[|mapping| - 1], d, c);
          } else {
            assert k in DocCells(init, d);
            var i, c :| 0 <= i < |init| && Takes(init[i], d, c) && k == init[i].cf + ":" + c;
            assert mapping[i] == init[i];
          }
        }
        if exists i, c :: 0 <= i < |mapping| && Takes(mapping[i], d, c) && k == mapping[i].cf + ":" + c {
          var i, c :| 0 <= i < |mapping| && Takes(mapping[i], d, c) && k == mapping[i].cf + ":" + c;
          if i == |mapping| - 1 {
            assert k in FamilyCells(last, d);
          } else {
            assert init[i] == mapping[i];
          }
        }
      }
    }
  }

  lemma DocCellsHas(mapping: seq<Family>, d: Document, i: nat, c: string)
    requires i < |mapping| && Takes(mapping[i], d, c)
    ensures mapping[i].cf + ":" + c in DocCells(mapping, d)
  {
    DocCellsSpec(mapping, d);
  }

  /** Cell names and values as the table stores them: UTF-8 bytes. */
  function EncodeCells(cells: map<string, string>): Columns {
    EncodeAllInjective();
    map k | k in cells :: Encode(k) := Encode(cells[k])
  }

  lemma EncodeAllInjective()
    ensures forall a: string, b: string :: Encode(a) == Encode(b) ==> a == b
  {
    forall a: string, b: string | Encode(a) == Encode(b) ensures a == b {
      EncodeInjective(a, b);
    }
  }

  /** Every cell is stored under its encoded name with its encoded value, and nothing else is. */
  lemma EncodeCellsSpec(cells: map<string, string>)
    ensures forall k :: k in cells ==> Encode(k) in EncodeCells(cells) && EncodeCells(cells)[Encode(k)] == Encode(cells[k])
    ensures forall b :: b in EncodeCells(cells) ==> exists k :: k in cells && b == Encode(k)
    ensures EncodeCells(cells) == map[] <==> cells == map[]
  {
    EncodeAllInjective();
    if cells != map[] {
      var k :| k in cells;
      assert Encode(k) in EncodeCells(cells);
    }
  }

  // ---- save_to_hbase ----

  /** The row key of the `n`-th document: `"{uid}~{n}"` without row fields, else the joined parts. */
  function SaveRow(d: Document, rowFields: seq<string>, uid: string, n: nat): string {
    if rowFields == [] then uid + "~" + IntToString(n) else Join(PopFields(d, rowFields).parts, '~')
  }

  /** What the put of the `n`-th document stores. */
  function SaveMutation(d: Document, mapping: seq<Family>, rowFields: seq<string>, uid: string, n: nat): Mutation {
    Mutation(Encode(SaveRow(d, rowFields, uid, n)), EncodeCells(DocCells(mapping, PopFields(d, rowFields).rest)))
  }

  /** The batch of puts `save_to_hbase` sends: one per document, in order. */
  function SaveMutations(documents: seq<Document>, mapping: seq<Family>, rowFields: seq<string>, uid: string)
    : (r: seq<Mutation>)
    ensures |r| == |documents|
  {
    seq(|documents|, n requires 0 <= n < |documents| => SaveMutation(documents[n], mapping, rowFields, uid, n))
  }

  /** The loop `[str(d.pop(f)) if f in d else "" for f in row_fields]`, popping as it goes. */
  method PopRowFields(d0: Document, rowFields: seq<string>) returns (parts: seq<string>, d: Document)
    ensures Popped(parts, d) == PopFields(d0, rowFields)
  {
    parts, d := [], d0;
    var j := 0;
    while j < |rowFields|
      invariant 0 <= j <= |rowFields|
      invariant PopFields(d0, rowFields)
             == Popped(parts + PopFields(d, rowFields[j..]).parts, PopFields(d, rowFields[j..]).rest)
    {
      var f := rowFields[j];
      assert rowFields[j..][1..] == rowFields[j + 1..];
      if f in d {
        parts := parts + [Show(d[f])];
        d := d - {f};
      } else {
        assert d - {f} == d;
        parts := parts + [""];
      }
      j := j + 1;
    }
  }

  /** The loop over `cf_mapping` filling `values` for one document. */
  method GatherCells(mapping: seq<Family>, d: Document) returns (values: map<string, string>)
    ensures values == DocCells(mapping, d)
  {
    values := map[];
    var k := 0;
    while k < |mapping|
      invariant 0 <= k <= |mapping|
      invariant values == DocCells(mapping[..k], d)
    {
      DocCellsSnoc(mapping, d, k);
      values := values + FamilyCells(mapping[k], d);
      k := k + 1;
    }
    assert mapping[..|mapping|] == mapping;
  }

  lemma SaveMutationsSnoc(documents: seq<Document>, mapping: seq<Family>, rowFields: seq<string>, uid: string, i: nat)
    requires i < |documents|
    ensures SaveMutations(documents[..i + 1], mapping, rowFields, uid)
         == SaveMutations(documents[..i], mapping, rowFields, uid) + [SaveMutation(documents[i], mapping, rowFields, uid, i)]
  {
    var a := SaveMutations(documents[..i + 1], mapping, rowFields, uid);
    var b := SaveMutations(documents[..i], mapping, rowFields, uid) + [SaveMutation(documents[i], mapping, rowFields, uid, i)];
    forall k | 0 <= k < |a| ensures a[k] == b[k] {
      assert documents[..i + 1][k] == documents[k];
      if k < i {
        assert documents[..i][k] == documents[k];
      }
    }
  }

  /** The loop of `save_to_hbase` over the documents, collecting one put each. */
  method CollectPuts(documents: seq<Document>, mapping: seq<Family>, rowFields: seq<string>, uid: string)
    returns (batch: seq<Mutation>)
    ensures batch == SaveMutations(documents, mapping, rowFields, uid)
  {
    batch := [];
    var rowAuto := 0;
    var i := 0;
    while i < |documents|
      invariant 0 <= i <= |documents|
      invariant rowFields == [] ==> rowAuto == i
      invariant batch == SaveMutations(documents[..i], mapping, rowFields, uid)
    {
      var row: string;
      var parts, d := PopRowFields(documents[i], rowFields);
      if rowFields == [] {
        row := uid + "~" + IntToString(rowAuto);
        rowAuto := rowAuto + 1;
      } else {
        row := Join(parts, '~');
      }
      var values := GatherCells(mapping, d);
      SaveMutationsSnoc(documents, mapping, rowFields, uid, i);
      batch := batch + [Mutation(Encode(row), EncodeCells(values))];
      i := i + 1;
    }
    assert documents[..|documents|] == documents;
  }

  /**
   * `save_to_hbase(documents, table, conn, cf_mapping, row_fields)`: one put per document,
   * all sent in one batch (`uid` is the call's `uuid4()`). The call raises, and nothing is
   * written, when some document's row key is empty.
   */
  method SaveToHBase(table: Table, documents: seq<Document>, mapping: seq<Family>, rowFields: seq<string>,
                     uid: string)
    returns (ok: bool)
    requires table.Valid()
    modifies table
    ensures table.Valid()
    ensures ok == KeysGiven(SaveMutations(documents, mapping, rowFields, uid))
    ensures ok ==> table.rows == ApplyAll(old(table.rows), SaveMutations(documents, mapping, rowFields, uid))
    ensures !ok ==> table.rows == old(table.rows)
  {
    var batch := CollectPuts(documents, mapping, rowFields, uid);
    ok := table.Send(batch);
  }

  /**
   * A document's row key is non-empty exactly when there are no row fields, two or more
   * of them (the key then holds a `~`), or one that the document has with non-empty text.
   */
  predicate Keyed(d: Document, rowFields: seq<string>) {
    |rowFields| != 1 || (rowFields[0] in d && Show(d[rowFields[0]]) != "")
  }

  /** Every document is `Keyed`. */
  predicate AllKeyed(documents: seq<Document>, rowFields: seq<string>) {
    forall n :: 0 <= n < |documents| ==> Keyed(documents[n], rowFields)
  }

  lemma AllKeyedSnoc(documents: seq<Document>, rowFields: seq<string>)
    requires documents != []
    ensures AllKeyed(documents, rowFields)
        <==> AllKeyed(documents[..|documents| - 1], rowFields) && Keyed(documents[|documents| - 1], rowFields)
  {
    var n := |documents| - 1;
    assert forall m :: 0 <= m < n ==> documents[..n][m] == documents[m];
  }

  lemma EncodeEmpty(s: string)
    ensures |Encode(s)| == 0 <==> |s| == 0
  {
    if |s| > 0 {
      assert Encode(s) == EncodeChar(s[0]) + Encode(s[1..]);
    }
  }

  lemma JoinedKey(d: Document, rowFields: seq<string>)
    requires rowFields != []
    ensures |Join(PopFields(d, rowFields).parts, '~')| > 0 <==> Keyed(d, rowFields)
  {
    PopFieldsSpec(d, rowFields);
    var parts := PopFields(d, rowFields).parts;
    if |rowFields| == 1 {
      assert rowFields[..0] == [];
    } else {
      assert Join(parts, '~') == parts[0] + ['~'] + Join(parts[1..], '~');
    }
  }

  /** The key of the `n`-th document is non-empty exactly when the document is `Keyed`. */
  lemma SaveRowGiven(d: Document, rowFields: seq<string>, uid: string, n: nat)
    ensures |Encode(SaveRow(d, rowFields, uid, n))| > 0 <==> Keyed(d, rowFields)
  {
    EncodeEmpty(SaveRow(d, rowFields, uid, n));
    if rowFields != [] {
      JoinedKey(d, rowFields);
    }
  }

  /** `save_to_hbase` succeeds exactly when every document is `Keyed`. */
  lemma SaveKeysGiven(documents: seq<Document>, mapping: seq<Family>, rowFields: seq<string>, uid: string)
    ensures KeysGiven(SaveMutations(documents, mapping, rowFields, uid)) <==> AllKeyed(documents, rowFields)
  {
    var batch := SaveMutations(documents, mapping, rowFields, uid);
    forall n | 0 <= n < |documents|
      ensures |batch[n].row| > 0 <==> Keyed(documents[n], rowFields)
    {
      SaveRowGiven(documents[n], rowFields, uid, n);
    }
  }

  /** Without row fields the keys are `uid~0`, `uid~1`, …: one per document, all distinct. */
  lemma AutoKeys(documents: seq<Document>, mapping: seq<Family>, uid: string, m: nat, n: nat)
    requires m < |documents| && n < |documents|
    ensures SaveMutations(documents, mapping, [], uid)[n].row == Encode(uid + "~" + IntToString(n))
    ensures m != n ==> SaveMutations(documents, mapping, [], uid)[m].row != SaveMutations(documents, mapping, [], uid)[n].row
  {
    if m != n && Encode(uid + "~" + IntToString(m)) == Encode(uid + "~" + IntToString(n)) {
      EncodeInjective(uid + "~" + IntToString(m), uid + "~" + IntToString(n));
      assert IntToString(m) == (uid + "~" + IntToString(m))[|uid| + 1..];
      IntToStringInjective(m, n);
    }
  }

  /**
   * The cells stored for a document are exactly those its families take from what is left
   * after popping the row fields; in particular no row field is ever stored as a cell.
   */
  lemma SavedCells(d: Document, mapping: seq<Family>, rowFields: seq<string>, uid: string, n: nat)
    ensures var rest := PopFields(d, rowFields).rest;
      && (forall f :: f in rowFields ==> f !in rest)
      && (forall k :: k in rest <==> k in d && k !in rowFields)
    ensures var rest := PopFields(d, rowFields).rest;
      var values := SaveMutation(d, mapping, rowFields, uid, n).values;
      && (forall i, c :: 0 <= i < |mapping| && Takes(mapping[i], rest, c) ==> Encode(mapping[i].cf + ":" + c) in values)
      && (forall b :: b in values ==>
            exists i, c :: 0 <= i < |mapping| && Takes(mapping[i], rest, c) && b == Encode(mapping[i].cf + ":" + c))
  {
    var rest := PopFields(d, rowFields).rest;
    PopFieldsSpec(d, rowFields);
    var cells := DocCells(mapping, rest);
    var values := SaveMutation(d, mapping, rowFields, uid, n).values;
    assert values == EncodeCells(cells);
    DocCellsSpec(mapping, rest);
    EncodeCellsSpec(cells);
    forall i, c | 0 <= i < |mapping| && Takes(mapping[i], rest, c)
      ensures Encode(mapping[i].cf + ":" + c) in values
    {
      DocCellsHas(mapping, rest, i, c);
    }
    forall b | b in values
      ensures exists i, c :: 0 <= i < |mapping| && Takes(mapping[i], rest, c) && b == Encode(mapping[i].cf + ":" + c)
    {
      var k :| k in cells && b == Encode(k);
      var i, c :| 0 <= i < |mapping| && Takes(mapping[i], rest, c) && k == mapping[i].cf + ":" + c;
    }
  }

  /** A row's other columns as a document of text values. */
  function ColumnsDoc(cols: map<string, string>): Document {
    map c | c in cols :: Str(cols[c])
  }

  /** The `info` cells of a row's columns: `"info:c" -> value`. */
  function InfoCells(cols: map<string, string>): map<string, string> {
    Prefixed("info:", cols)
  }

  /** A field a family takes is stored under `"cf:field"` with its `str`. */
  lemma FamilyCellsHas(fam: Family, d: Document, c: string)
    requires Takes(fam, d, c)
    ensures fam.cf + ":" + c in FamilyCells(fam, d)
    ensures FamilyCells(fam, d)[fam.cf + ":" + c] == Show(d[c])
  {
    PrefixInjective(fam.cf + ":");
  }

  /** Every cell of a family is `"cf:"` followed by a field the family takes. */
  lemma FamilyCellsOnly(fam: Family, d: Document, k: string)
    requires k in FamilyCells(fam, d)
    ensures |fam.cf| + 1 <= |k| && k[..|fam.cf| + 1] == fam.cf + ":"
    ensures Takes(fam, d, k[|fam.cf| + 1..])
    ensures k == fam.cf + ":" + k[|fam.cf| + 1..]
  {
    var c :| Takes(fam, d, c) && k == fam.cf + ":" + c;
    assert k[|fam.cf| + 1..] == c;
  }

  /** Without its key columns, a row's document is its other columns. */
  lemma KeyColumnsRemoved(r: Row)
    requires WellFormed(r)
    ensures ToDocument(r) - {"latitude"} - {"longitude"} - {"ts"} == ColumnsDoc(r.cols)
  {
    var d3 := ToDocument(r) - {"latitude"} - {"longitude"} - {"ts"};
    forall k | k in d3 ensures k in r.cols {
    }
  }

  /** Popping the key columns of a row's document gives its key parts and its other columns. */
  lemma PopSeriesRow(r: Row)
    requires WellFormed(r)
    ensures PopFields(ToDocument(r), KeyColumns) == Popped([r.lat, r.lon, IntToString(r.ts)], ColumnsDoc(r.cols))
  {
    var d1 := ToDocument(r) - {"latitude"};
    var d2 := d1 - {"longitude"};
    var d3 := d2 - {"ts"};
    KeyColumnsRemoved(r);
    assert KeyColumns[1..] == ["longitude", "ts"] && KeyColumns[1..][1..] == ["ts"];
    assert PopFields(d2, ["ts"]) == Popped([IntToString(r.ts)], d3) by {
      assert PopFields(d3, []) == Popped([], d3);
    }
    assert PopFields(d1, ["longitude", "ts"]) == Popped([r.lon, IntToString(r.ts)], d3);
  }

  /**
   * A series row saved with `[("info", "all")]` and row fields `latitude, longitude, ts` is
   * put under `"lat~lon~ts"` with one `info:` cell per other column.
   */
  lemma SaveSeriesRow(r: Row, uid: string, n: nat)
    requires WellFormed(r)
    ensures SaveMutation(ToDocument(r), [Family("info", All)], KeyColumns, uid, n)
         == Mutation(Encode(Join([r.lat, r.lon, IntToString(r.ts)], '~')), EncodeCells(InfoCells(r.cols)))
  {
    PopSeriesRow(r);
    SeriesCells(r.cols);
    assert KeyColumns != [];
  }

  /** `[("info", "all")]` stores each column `c` as the cell `info:c`. */
  lemma SeriesCells(cols: map<string, string>)
    ensures DocCells([Family("info", All)], ColumnsDoc(cols)) == InfoCells(cols)
  {
    var fam := Family("info", All);
    assert [fam][..0] == [];
    assert DocCells([fam], ColumnsDoc(cols)) == FamilyCells(fam, ColumnsDoc(cols));
    assert Selected(fam, ColumnsDoc(cols)) == cols;
    assert fam.cf + ":" == "info:";
  }

  // ---- HBase.save (beemeteo/hbase.py) ----

  /** The legacy row key: `str(row_auto)` without row fields, else the joined parts. */
  function LegacyRow(d: Document, rowFields: seq<string>, n: nat): string {
    if rowFields == [] then IntToString(n) else Join(PopFields(d, rowFields).parts, '~')
  }

  /**
   * The puts of one document: the put sits inside the column-family loop, so one is issued
   * per family, carrying the cells gathered so far.
   */
  function PerFamilyPuts(row: string, mapping: seq<Family>, rest: Document): (r: seq<Mutation>)
    ensures |r| == |mapping|
  {
    seq(|mapping|, j requires 0 <= j < |mapping| =>
      Mutation(Encode(row), EncodeCells(DocCells(mapping[..j + 1], rest))))
  }

  /** The puts of the `n`-th document. */
  function LegacyPuts(d: Document, mapping: seq<Family>, rowFields: seq<string>, n: nat): (r: seq<Mutation>)
    ensures |r| == |mapping|
  {
    PerFamilyPuts(LegacyRow(d, rowFields, n), mapping, PopFields(d, rowFields).rest)
  }

  /** All puts of `HBase.save`, document by document. */
  function LegacyMutations(documents: seq<Document>, mapping: seq<Family>, rowFields: seq<string>): seq<Mutation>
    decreases |documents|
  {
    if documents == [] then []
    else
      var n := |documents| - 1;
      LegacyMutations(documents[..n], mapping, rowFields) + LegacyPuts(documents[n], mapping, rowFields, n)
  }

  /** One more turn of the family loop extends the puts by the put of the next family. */
  lemma PerFamilyPutsStep(row: string, mapping: seq<Family>, d: Document, k: nat, puts: seq<Mutation>, put: Mutation)
    requires k < |mapping| && puts == PerFamilyPuts(row, mapping, d)[..k]
    requires put == Mutation(Encode(row), EncodeCells(DocCells(mapping[..k + 1], d)))
    ensures puts + [put] == PerFamilyPuts(row, mapping, d)[..k + 1]
  {
    var all := PerFamilyPuts(row, mapping, d);
    assert all[k] == put;
    assert all[..k + 1] == all[..k] + [all[k]];
  }

  /** The column-family loop of one document, with its `batch.put` inside. */
  method PutPerFamily(mapping: seq<Family>, row: string, d: Document) returns (puts: seq<Mutation>)
    ensures puts == PerFamilyPuts(row, mapping, d)
  {
    var values: map<string, string> := map[];
    ghost var all := PerFamilyPuts(row, mapping, d);
    puts := [];
    var k := 0;
    while k < |mapping|
      invariant 0 <= k <= |mapping|
      invariant values == DocCells(mapping[..k], d)
      invariant puts == all[..k]
    {
      DocCellsSnoc(mapping, d, k);
      values := values + FamilyCells(mapping[k], d);
      var put := Mutation(Encode(row), EncodeCells(values));
      PerFamilyPutsStep(row, mapping, d, k, puts, put);
      puts := puts + [put];
      k := k + 1;
    }
    assert puts == all;
  }

  /** The loop of `HBase.save` over the documents, collecting one put per family each. */
  method CollectLegacyPuts(documents: seq<Document>, mapping: seq<Family>, rowFields: seq<string>)
    returns (batch: seq<Mutation>)
    ensures batch == LegacyMutations(documents, mapping, rowFields)
  {
    batch := [];
    var rowAuto := 0;
    var i := 0;
    while i < |documents|
      invariant 0 <= i <= |documents|
      invariant rowFields == [] ==> rowAuto == i
      invariant batch == LegacyMutations(documents[..i], mapping, rowFields)
    {
      var row: string;
      var parts, d := PopRowFields(documents[i], rowFields);
      if rowFields == [] {
        row := IntToString(rowAuto);
        rowAuto := rowAuto + 1;
      } else {
        row := Join(parts, '~');
      }
      assert row == LegacyRow(documents[i], rowFields, i);
      var puts := PutPerFamily(mapping, row, d);
      assert documents[..i + 1][..i] == documents[..i];
      batch := batch + puts;
      i := i + 1;
    }
    assert documents[..|documents|] == documents;
  }

  /**
   * `HBase.save(table, documents, cf_mapping, row_fields)`: one batch, sent once at the end;
   * it raises, and nothing is written, when some put has an empty row key.
   */
  method LegacySave(table: Table, documents: seq<Document>, mapping: seq<Family>, rowFields: seq<string>)
    returns (ok: bool)
    requires table.Valid()
    modifies table
    ensures table.Valid()
    ensures ok == KeysGiven(LegacyMutations(documents, mapping, rowFields))
    ensures ok ==> table.rows == ApplyAll(old(table.rows), LegacyMutations(documents, mapping, rowFields))
    ensures !ok ==> table.rows == old(table.rows)
  {
    var batch := CollectLegacyPuts(documents, mapping, rowFields);
    ok := table.Send(batch);
  }

  lemma KeysGivenConcat(a: seq<Mutation>, b: seq<Mutation>)
    ensures KeysGiven(a + b) <==> KeysGiven(a) && KeysGiven(b)
  {
    if KeysGiven(a + b) {
      forall i | 0 <= i < |a| ensures |a[i].row| > 0 {
        assert (a + b)[i] == a[i];
      }
      forall i | 0 <= i < |b| ensures |b[i].row| > 0 {
        assert (a + b)[|a| + i] == b[i];
      }
    }
  }

  /** The legacy puts of one document name a row exactly when there are none or it is `Keyed`. */
  lemma LegacyPutsGiven(d: Document, mapping: seq<Family>, rowFields: seq<string>, n: nat)
    ensures KeysGiven(LegacyPuts(d, mapping, rowFields, n)) <==> mapping == [] || Keyed(d, rowFields)
  {
    var row := LegacyRow(d, rowFields, n);
    EncodeEmpty(row);
    if rowFields != [] {
      JoinedKey(d, rowFields);
    }
    var puts := LegacyPuts(d, mapping, rowFields, n);
    assert forall i :: 0 <= i < |puts| ==> puts[i].row == Encode(row);
    if mapping != [] {
      assert puts[0].row == Encode(row);
    }
  }

  /** The legacy puts name a row up to a document exactly when they did before it and it is keyed. */
  lemma LegacyKeysGivenSnoc(documents: seq<Document>, mapping: seq<Family>, rowFields: seq<string>)
    requires documents != []
    ensures var n := |documents| - 1;
      KeysGiven(LegacyMutations(documents, mapping, rowFields))
      <==> KeysGiven(LegacyMutations(documents[..n], mapping, rowFields)) && (mapping == [] || Keyed(documents[n], rowFields))
  {
    var n := |documents| - 1;
    KeysGivenConcat(LegacyMutations(documents[..n], mapping, rowFields), LegacyPuts(documents[n], mapping, rowFields, n));
    LegacyPutsGiven(documents[n], mapping, rowFields, n);
  }

  /**
   * `HBase.save` succeeds exactly when the mapping is empty (no put is issued) or every
   * document is `Keyed`.
   */
  lemma {:induction false} LegacyKeysGiven(documents: seq<Document>, mapping: seq<Family>, rowFields: seq<string>)
    ensures KeysGiven(LegacyMutations(documents, mapping, rowFields)) <==> mapping == [] || AllKeyed(documents, rowFields)
    decreases |documents|
  {
    if documents != [] {
      var n := |documents| - 1;
      LegacyKeysGiven(documents[..n], mapping, rowFields);
      LegacyKeysGivenSnoc(documents, mapping, rowFields);
      AllKeyedSnoc(documents, rowFields);
    }
  }

  lemma MulSucc(a: nat, b: nat)
    ensures a * b + b == (a + 1) * b
  {
  }

  /** The legacy batch holds one put per document and family, document by document. */
  lemma {:induction false} LegacyMutationsLength(documents: seq<Document>, mapping: seq<Family>, rowFields: seq<string>)
    ensures |LegacyMutations(documents, mapping, rowFields)| == |documents| * |mapping|
    decreases |documents|
  {
    if documents != [] {
      var last := |documents| - 1;
      LegacyMutationsLength(documents[..last], mapping, rowFields);
      assert LegacyMutations(documents, mapping, rowFields)
          == LegacyMutations(documents[..last], mapping, rowFields) + LegacyPuts(documents[last], mapping, rowFields, last);
      MulSucc(last, |mapping|);
    }
  }

  /**
   * Without row fields every put of the `n`-th document goes to row `str(n)`, and the puts
   * of different documents go to different rows.
   */
  lemma {:induction false} LegacyAutoKeys(documents: seq<Document>, mapping: seq<Family>, n: nat, j: nat)
    requires n < |documents| && j < |mapping|
    ensures n * |mapping| + j < |LegacyMutations(documents, mapping, [])|
    ensures LegacyMutations(documents, mapping, [])[n * |mapping| + j].row == Encode(IntToString(n))
    ensures forall m: nat :: m != n ==> Encode(IntToString(m)) != Encode(IntToString(n))
    decreases |documents|
  {
    var last := |documents| - 1;
    var prefix := LegacyMutations(documents[..last], mapping, []);
    LegacyMutationsLength(documents[..last], mapping, []);
    LegacyMutationsLength(documents, mapping, []);
    assert LegacyMutations(documents, mapping, []) == prefix + LegacyPuts(documents[last], mapping, [], last);
    if n < last {
      LegacyAutoKeys(documents[..last], mapping, n, j);
      assert documents[..last][n] == documents[n];
    } else {
      assert n * |mapping| + j == |prefix| + j;
    }
    AutoRowsDistinct(n);
  }

  /** The numbered rows `str(n)` are distinct once encoded. */
  lemma AutoRowsDistinct(n: nat)
    ensures forall m: nat :: m != n ==> Encode(IntToString(m)) != Encode(IntToString(n))
  {
    forall m: nat | m != n ensures Encode(IntToString(m)) != Encode(IntToString(n)) {
      if Encode(IntToString(m)) == Encode(IntToString(n)) {
        EncodeInjective(IntToString(m), IntToString(n));
        IntToStringInjective(m, n);
      }
    }
  }

  // ---- the per-family puts store what one put per document would ----

  lemma {:induction false} ApplyAllConcat(rows: map<Bytes, Columns>, a: seq<Mutation>, b: seq<Mutation>)
    ensures ApplyAll(rows, a + b) == ApplyAll(ApplyAll(rows, a), b)
    decreases |a|
  {
    if a != [] {
      assert (a + b)[0] == a[0] && (a + b)[1..] == a[1..] + b;
      ApplyAllConcat(ApplyPut(rows, a[0]), a[1..], b);
    } else {
      assert a + b == b;
    }
  }

  /** Cells only accumulate from one family to the next. */
  lemma {:induction false} DocCellsGrow(mapping: seq<Family>, d: Document, j: nat, k: nat)
    requires j <= k <= |mapping|
    ensures DocCells(mapping[..j], d).Keys <= DocCells(mapping[..k], d).Keys
    decreases k - j
  {
    if j < k {
      DocCellsGrow(mapping, d, j, k - 1);
      var init := mapping[..k - 1];
      assert mapping[..k][..k - 1] == init;
      var a, b := DocCells(init, d), DocCells(mapping[..k], d);
      assert b == a + FamilyCells(mapping[k - 1], d);
      assert a.Keys <= b.Keys;
      assert DocCells(mapping[..j], d).Keys <= a.Keys;
    }
  }

  lemma EncodeCellsGrow(a: map<string, string>, b: map<string, string>)
    requires a.Keys <= b.Keys
    ensures EncodeCells(a).Keys <= EncodeCells(b).Keys
  {
    EncodeCellsSpec(a);
    EncodeCellsSpec(b);
  }

  lemma UpdateTwice<K, V>(m: map<K, V>, k: K, a: V, b: V)
    ensures m[k := a][k := b] == m[k := b]
  {
  }

  lemma MergeCovered<K, V>(o: map<K, V>, a: map<K, V>, b: map<K, V>)
    requires a.Keys <= b.Keys
    ensures (o + a) + b == o + b
  {
  }

  /** A second put to the same row with at least the same cell names hides the first. */
  lemma PutTwice(rows: map<Bytes, Columns>, p: Mutation, last: Mutation)
    requires p.row == last.row && p.values.Keys <= last.values.Keys
    ensures ApplyPut(ApplyPut(rows, p), last) == ApplyPut(rows, last)
  {
    if p.values != map[] {
      var old1 := if p.row in rows then rows[p.row] else map[];
      var r1 := rows[p.row := old1 + p.values];
      assert last.values != map[] by {
        var k :| k in p.values;
      }
      MergeCovered(old1, p.values, last.values);
      UpdateTwice(rows, p.row, old1 + p.values, old1 + last.values);
    }
  }

  /** Merging puts of one row whose cell names only grow leaves what the last put alone would. */
  lemma {:induction false} GrowingPuts(rows: map<Bytes, Columns>, puts: seq<Mutation>, last: Mutation)
    requires forall i :: 0 <= i < |puts| ==> puts[i].row == last.row && puts[i].values.Keys <= last.values.Keys
    ensures ApplyAll(rows, puts + [last]) == ApplyPut(rows, last)
    decreases |puts|
  {
    if puts == [] {
      assert [] + [last] == [last];
    } else {
      var p := puts[0];
      var r1 := ApplyPut(rows, p);
      assert (puts + [last])[1..] == puts[1..] + [last];
      assert ApplyAll(rows, puts + [last]) == ApplyAll(r1, puts[1..] + [last]);
      GrowingPuts(r1, puts[1..], last);
      PutTwice(rows, p, last);
    }
  }

  /** One put per document with every family's cells: what `save_to_hbase` would issue. */
  function SinglePuts(documents: seq<Document>, mapping: seq<Family>, rowFields: seq<string>): (r: seq<Mutation>)
    ensures |r| == |documents|
  {
    seq(|documents|, n requires 0 <= n < |documents| =>
      Mutation(Encode(LegacyRow(documents[n], rowFields, n)),
               EncodeCells(DocCells(mapping, PopFields(documents[n], rowFields).rest))))
  }

  /** The puts of one document leave the table as one put with all of its cells would. */
  lemma PerFamilyPutsMerge(rows: map<Bytes, Columns>, row: string, mapping: seq<Family>, rest: Document)
    ensures ApplyAll(rows, PerFamilyPuts(row, mapping, rest))
         == ApplyPut(rows, Mutation(Encode(row), EncodeCells(DocCells(mapping, rest))))
  {
    var puts := PerFamilyPuts(row, mapping, rest);
    var single := Mutation(Encode(row), EncodeCells(DocCells(mapping, rest)));
    if mapping == [] {
      EncodeCellsSpec(map[]);
    } else {
      var init := puts[..|mapping| - 1];
      PerFamilyPutsLast(row, mapping, rest);
      forall i | 0 <= i < |init| ensures init[i].row == single.row && init[i].values.Keys <= single.values.Keys {
        PerFamilyPutsGrow(row, mapping, rest, i);
      }
      GrowingPuts(rows, init, single);
    }
  }

  /** The last put of a document carries all of its cells. */
  lemma PerFamilyPutsLast(row: string, mapping: seq<Family>, rest: Document)
    requires mapping != []
    ensures var puts := PerFamilyPuts(row, mapping, rest);
      puts == puts[..|mapping| - 1] + [Mutation(Encode(row), EncodeCells(DocCells(mapping, rest)))]
  {
    assert mapping[..|mapping|] == mapping;
  }

  lemma PerFamilyPutsGrow(row: string, mapping: seq<Family>, rest: Document, i: nat)
    requires i < |mapping|
    ensures PerFamilyPuts(row, mapping, rest)[i].values.Keys <= EncodeCells(DocCells(mapping, rest)).Keys
  {
    DocCellsGrow(mapping, rest, i + 1, |mapping|);
    assert mapping[..|mapping|] == mapping;
    EncodeCellsGrow(DocCells(mapping[..i + 1], rest), DocCells(mapping, rest));
  }

  /**
   * Although the legacy code puts once per column family with the cells gathered so far,
   * the table ends up exactly as with one put per document carrying all of its cells.
   */
  lemma {:induction false} LegacySameAsSinglePuts(rows: map<Bytes, Columns>, documents: seq<Document>,
                                                  mapping: seq<Family>, rowFields: seq<string>)
    ensures ApplyAll(rows, LegacyMutations(documents, mapping, rowFields))
         == ApplyAll(rows, SinglePuts(documents, mapping, rowFields))
    decreases |documents|
  {
    if documents != [] {
      var n := |documents| - 1;
      var init := documents[..n];
      LegacySameAsSinglePuts(rows, init, mapping, rowFields);
      ApplyAllConcat(rows, LegacyMutations(init, mapping, rowFields), LegacyPuts(documents[n], mapping, rowFields, n));
      var s := SinglePuts(documents, mapping, rowFields);
      assert SinglePuts(init, mapping, rowFields) == s[..n];
      assert s == s[..n] + [s[n]];
      ApplyAllConcat(rows, s[..n], [s[n]]);
      var mid := ApplyAll(rows, s[..n]);
      PerFamilyPutsMerge(mid, LegacyRow(documents[n], rowFields, n), mapping, PopFields(documents[n], rowFields).rest);
      assert ApplyAll(mid, [s[n]]) == ApplyAll(ApplyPut(mid, s[n]), []);
    }
  }
}
