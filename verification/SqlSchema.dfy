/** From the schema of an in-memory table to that of its SQL table and back, and reading rows. */
module SqlSchema {
  import opened Dom
  import opened Schema
  import opened Text

  datatype SqlColumn = SqlColumn(name: string, tag: Tag, width: nat)
  datatype SqlMeta = SqlMeta(name: string, columns: seq<SqlColumn>, pk: nat)

  const GEN: SqlColumn := SqlColumn("gen", SizeTag, 0)

  // ---- the layout -------------------------------------------------------

  /** Columns with their widths, in order. */
  function Widened(columns: seq<Column>, width: seq<nat>): (r: seq<SqlColumn>)
    requires |columns| == |width|
    ensures |r| == |columns|
    ensures forall i :: 0 <= i < |r| ==> r[i] == SqlColumn(columns[i].name, columns[i].tag, width[i])
  {
    seq(|columns|, i requires 0 <= i < |columns| => SqlColumn(columns[i].name, columns[i].tag, width[i]))
  }

  function SqlName(name: string): string {
    "T" + if name == "" then "" else [ToUpper(name[0])] + name[1..]
  }

  function MemName(name: string): string {
    if |name| > 1 && name[0] == 'T' then [ToLower(name[1])] + name[2..] else name
  }

  /** The key columns, then a generation column, then the body columns. */
  function SqlOf(m: Meta, width: seq<nat>): SqlMeta
    requires m.Valid() && |width| == |m.columns|
  {
    SqlMeta(SqlName(m.name),
            Widened(m.columns[..m.pk], width[..m.pk]) + [GEN] + Widened(m.columns[m.pk..], width[m.pk..]),
            m.pk)
  }

  /** The columns that are not called gen. */
  function Plain(columns: seq<SqlColumn>): seq<Column> {
    if columns == [] then []
    else (if columns[0].name == "gen" then [] else [Column(columns[0].name, columns[0].tag)]) + Plain(columns[1..])
  }

  function MemOf(ms: SqlMeta): Meta { Meta(MemName(ms.name), Plain(ms.columns), ms.pk) }

  // ---- the loops --------------------------------------------------------

  /** The layout of the first columns only. */
  function LaidOut(m: Meta, width: seq<nat>, idx: nat): seq<SqlColumn>
    requires m.Valid() && |width| == |m.columns| && idx <= |m.columns|
  {
    if idx <= m.pk then Widened(m.columns[..idx], width[..idx])
    else Widened(m.columns[..m.pk], width[..m.pk]) + [GEN] + Widened(m.columns[m.pk..idx], width[m.pk..idx])
  }

  lemma LaidOutSnoc(m: Meta, width: seq<nat>, idx: nat)
    requires m.Valid() && |width| == |m.columns| && idx < |m.columns|
    ensures LaidOut(m, width, idx + 1) == LaidOut(m, width, idx) + (if idx == m.pk then [GEN] else [])
      + [SqlColumn(m.columns[idx].name, m.columns[idx].tag, width[idx])]
  {
    var last := [SqlColumn(m.columns[idx].name, m.columns[idx].tag, width[idx])];
    if idx < m.pk {
      assert Widened(m.columns[..idx + 1], width[..idx + 1]) == Widened(m.columns[..idx], width[..idx]) + last;
    } else {
      assert Widened(m.columns[m.pk..idx + 1], width[m.pk..idx + 1])
        == Widened(m.columns[m.pk..idx], width[m.pk..idx]) + last;
      assert idx == m.pk ==> Widened(m.columns[m.pk..idx], width[m.pk..idx]) == [];
    }
  }

  /** Walks the columns with a running width index and a flag for the generation column. */
  method ToSql(m: Meta, width: seq<nat>) returns (ms: SqlMeta)
    requires m.Valid() && |width| == |m.columns|
    ensures ms == SqlOf(m, width)
  {
    var vec: seq<SqlColumn> := [];
    var gen := false;
    var widthIdx := 0;
    var idx := 0;
    while idx < |m.columns|
      invariant idx <= |m.columns| && widthIdx == idx && gen == (m.pk < idx)
      invariant vec == LaidOut(m, width, idx)
    {
      LaidOutSnoc(m, width, idx);
      var col, pk := m.columns[idx], idx < m.pk;
      if !pk && !gen {
        gen := true;
        vec := vec + [GEN];
        vec := vec + [SqlColumn(col.name, col.tag, width[widthIdx])];
        widthIdx := widthIdx + 1;
      } else {
        vec := vec + [SqlColumn(col.name, col.tag, width[widthIdx])];
        widthIdx := widthIdx + 1;
      }
      idx := idx + 1;
    }
    assert m.columns[m.pk..idx] == m.columns[m.pk..] && width[m.pk..idx] == width[m.pk..];
    assert vec == SqlOf(m, width).columns;
    var tableName := m.name;
    if tableName != "" {
      tableName := tableName[0 := ToUpper(tableName[0])];
      assert tableName == [ToUpper(m.name[0])] + m.name[1..];
    }
    ms := SqlMeta("T" + tableName, vec, m.pk);
  }

  /** Asserts exactly when the columns that are left do not outnumber the key. */
  method ToMem(ms: SqlMeta) returns (m: Meta, asserts: bool)
    ensures m == MemOf(ms) && asserts == (|m.columns| <= m.pk)
  {
    var vec: seq<Column> := [];
    var idx := 0;
    while idx < |ms.columns|
      invariant idx <= |ms.columns|
      invariant vec == Plain(ms.columns[..idx])
    {
      var col := ms.columns[idx];
      PlainSnoc(ms.columns, idx);
      if col.name != "gen" {
        vec := vec + [Column(col.name, col.tag)];
      }
      idx := idx + 1;
    }
    assert ms.columns[..idx] == ms.columns;
    var tableName := ms.name;
    if |tableName| > 1 && tableName[0] == 'T' {
      tableName := tableName[1..];
      tableName := tableName[0 := ToLower(tableName[0])];
      assert tableName == [ToLower(ms.name[1])] + ms.name[2..];
    }
    m := Meta(tableName, vec, ms.pk);
    asserts := |vec| <= ms.pk;
  }

  // ---- the round trip ---------------------------------------------------

  lemma {:induction false} PlainAppend(a: seq<SqlColumn>, b: seq<SqlColumn>)
    ensures Plain(a + b) == Plain(a) + Plain(b)
    decreases |a|
  {
    if a == [] {
      assert a + b == b;
    } else {
      assert (a + b)[0] == a[0] && (a + b)[1..] == a[1..] + b;
      PlainAppend(a[1..], b);
      var first := if a[0].name == "gen" then [] else [Column(a[0].name, a[0].tag)];
      assert first + (Plain(a[1..]) + Plain(b)) == (first + Plain(a[1..])) + Plain(b);
    }
  }

  lemma PlainSnoc(columns: seq<SqlColumn>, idx: nat)
    requires idx < |columns|
    ensures Plain(columns[..idx + 1]) ==
      Plain(columns[..idx]) + if columns[idx].name == "gen" then [] else [Column(columns[idx].name, columns[idx].tag)]
  {
    assert columns[..idx + 1] == columns[..idx] + [columns[idx]];
    PlainAppend(columns[..idx], [columns[idx]]);
    assert Plain([columns[idx]][1..]) == [];
  }

  /** Dropping the columns called gen from widened columns gives the columns back exactly when none is called so. */
  lemma {:induction false} PlainWidened(columns: seq<Column>, width: seq<nat>)
    requires |columns| == |width|
    ensures |Plain(Widened(columns, width))| <= |columns|
    ensures |Plain(Widened(columns, width))| == |columns| <==> NoneCalledGen(columns)
    ensures NoneCalledGen(columns) ==> Plain(Widened(columns, width)) == columns
    decreases |columns|
  {
    if columns != [] {
      PlainWidened(columns[1..], width[1..]);
      assert Widened(columns, width)[1..] == Widened(columns[1..], width[1..]);
      assert columns == [columns[0]] + columns[1..];
      NoneCalledGenSplit([columns[0]], columns[1..]);
    }
  }

  lemma NameRoundTrip(name: string)
    ensures MemName(SqlName(name)) == name <==> name != "" && !('A' <= name[0] <= 'Z')
  {
  }

  predicate NoneCalledGen(columns: seq<Column>) { forall i :: 0 <= i < |columns| ==> columns[i].name != "gen" }

  lemma NoneCalledGenSplit(a: seq<Column>, b: seq<Column>)
    ensures NoneCalledGen(a + b) <==> NoneCalledGen(a) && NoneCalledGen(b)
  {
    var c := a + b;
    assert forall i :: 0 <= i < |a| ==> a[i] == c[i];
    assert forall i :: 0 <= i < |b| ==> b[i] == c[|a| + i];
  }

  /** Key and body columns around one generation column. */
  lemma PlainAround(keys: seq<Column>, body: seq<Column>, kw: seq<nat>, bw: seq<nat>)
    requires |keys| == |kw| && |body| == |bw|
    ensures Plain(Widened(keys, kw) + [GEN] + Widened(body, bw)) == keys + body <==>
      NoneCalledGen(keys) && NoneCalledGen(body)
  {
    var k, b := Widened(keys, kw), Widened(body, bw);
    PlainAppend(k + [GEN], b);
    PlainAppend(k, [GEN]);
    assert Plain([GEN]) == [];
    assert Plain(k) + [] == Plain(k);
    PlainWidened(keys, kw);
    PlainWidened(body, bw);
    if Plain(k) + Plain(b) == keys + body {
      assert |Plain(k) + Plain(b)| == |keys| + |body|;
    }
  }

  /** Converting a schema to SQL and back gives the same schema if and only if it has a name
      that does not start with a capital letter and no column called gen. */
  lemma SchemaRoundTrip(m: Meta, width: seq<nat>)
    requires m.Valid() && |width| == |m.columns|
    ensures MemOf(SqlOf(m, width)) == m <==>
      m.name != "" && !('A' <= m.name[0] <= 'Z') && NoneCalledGen(m.columns)
  {
    var keys, body := m.columns[..m.pk], m.columns[m.pk..];
    assert m.columns == keys + body;
    PlainAround(keys, body, width[..m.pk], width[m.pk..]);
    NoneCalledGenSplit(keys, body);
    NameRoundTrip(m.name);
  }

  /** Where every column goes: the key in front, a generation column of no width, the body behind
      it, each with its own width; and the name gets a T and a capital. */
  lemma LayoutLaw(m: Meta, width: seq<nat>)
    requires m.Valid() && |width| == |m.columns|
    ensures var ms := SqlOf(m, width);
      && ms.pk == m.pk && |ms.columns| == |m.columns| + 1
      && (forall j :: 0 <= j < m.pk ==> ms.columns[j] == SqlColumn(m.columns[j].name, m.columns[j].tag, width[j]))
      && ms.columns[m.pk] == SqlColumn("gen", SizeTag, 0)
      && (forall j :: m.pk < j <= |m.columns| ==>
        ms.columns[j] == SqlColumn(m.columns[j - 1].name, m.columns[j - 1].tag, width[j - 1]))
      && ms.name == if m.name == "" then "T" else ['T', ToUpper(m.name[0])] + m.name[1..]
  {
    ColumnsPlaced(m.columns, width, m.pk);
    SqlNameLaw(m.name);
  }

  lemma ColumnsPlaced(columns: seq<Column>, width: seq<nat>, pk: nat)
    requires pk < |columns| == |width|
    ensures var placed := Widened(columns[..pk], width[..pk]) + [GEN] + Widened(columns[pk..], width[pk..]);
      && |placed| == |columns| + 1 && placed[pk] == GEN
      && (forall j :: 0 <= j < pk ==> placed[j] == SqlColumn(columns[j].name, columns[j].tag, width[j]))
      && forall j :: pk < j <= |columns| ==>
        placed[j] == SqlColumn(columns[j - 1].name, columns[j - 1].tag, width[j - 1])
  {
    var behind := Widened(columns[pk..], width[pk..]);
    var placed := Widened(columns[..pk], width[..pk]) + [GEN] + behind;
    forall j | pk < j <= |columns|
      ensures placed[j] == SqlColumn(columns[j - 1].name, columns[j - 1].tag, width[j - 1])
    {
      assert placed[j] == behind[j - 1 - pk];
    }
  }

  lemma SqlNameLaw(name: string)
    ensures SqlName(name) == if name == "" then "T" else ['T', ToUpper(name[0])] + name[1..]
  {
    assert name == "" ==> SqlName(name) == "T";
  }

  /** Back again: a leading T is dropped from a longer name and the next letter is made small. */
  lemma MemNameLaw(name: string)
    ensures MemName(name) ==
      if |name| > 1 && name[0] == 'T' then [ToLower(name[1])] + name[2..] else name
  {
  }

  // ---- rows -------------------------------------------------------------

  datatype Record = Record(meta: Meta, key: seq<Obj>, data: seq<Obj>, gen: nat)

  predicate IsGen(col: SqlColumn) { col.name == "gen" && col.tag == SizeTag }

  function GenOf(o: Obj): nat { if o.Size? then o.n else 0 }

  /** The values of the body columns that are not the generation. */
  function Body(columns: seq<SqlColumn>, row: seq<Option<Obj>>): seq<Obj>
    requires |columns| == |row|
  {
    if columns == [] then []
    else (if row[0].None? || IsGen(columns[0]) then [] else [row[0].value]) + Body(columns[1..], row[1..])
  }

  /** Reads the columns in order; a missing value is skipped, a missing result gives an empty record.
      Asserts exactly when a value is missing or the schema is not sound. */
  method ToRecord(ms: SqlMeta, result: Option<seq<Option<Obj>>>) returns (r: Record, asserts: bool)
    requires result.Some? ==> |result.value| == |ms.columns| && ms.pk <= |ms.columns|
    ensures r.meta == MemOf(ms)
    ensures asserts <==> |r.meta.columns| <= r.meta.pk || (result.Some? && Missing(result.value, |result.value|))
    ensures result.None? ==> r.key == [] && r.data == [] && r.gen == 0
    ensures result.Some? ==>
      && r.key == Present(result.value[..ms.pk])
      && r.data == Body(ms.columns[ms.pk..], result.value[ms.pk..])
      && r.gen == LastGen(ms.columns[ms.pk..], result.value[ms.pk..])
  {
    var m;
    m, asserts := ToMem(ms);
    if result.None? {
      return Record(m, [], [], 0), asserts;
    }
    var key, data, generation, missing := ReadRow(ms, result.value);
    return Record(m, key, data, generation), asserts || missing;
  }

  method ReadRow(ms: SqlMeta, row: seq<Option<Obj>>)
    returns (key: seq<Obj>, data: seq<Obj>, generation: nat, missing: bool)
    requires |row| == |ms.columns| && ms.pk <= |row|
    ensures key == Present(row[..ms.pk]) && data == Body(ms.columns[ms.pk..], row[ms.pk..])
    ensures generation == LastGen(ms.columns[ms.pk..], row[ms.pk..]) && missing == Missing(row, |row|)
  {
    key, data, generation, missing := [], [], 0, false;
    var idx := 0;
    while idx < |ms.columns|
      invariant idx <= |ms.columns|
      invariant ReadSoFar(ms, row, idx, key, data, generation) && missing == Missing(row, idx)
    {
      var col, obj := ms.columns[idx], row[idx];
      MissingMore(row, idx);
      ReadStep(ms, row, idx, key, data, generation);
      if obj.Some? {
        if idx < ms.pk {
          key := key + [obj.value];
        } else if IsGen(col) {
          generation := GenOf(obj.value);
        } else {
          data := data + [obj.value];
        }
      } else {
        missing := true;
      }
      idx := idx + 1;
    }
    assert ms.columns[ms.pk..idx] == ms.columns[ms.pk..] && row[ms.pk..idx] == row[ms.pk..];
  }

  /** One of the first values is missing. */
  predicate Missing(row: seq<Option<Obj>>, idx: nat)
    requires idx <= |row|
  {
    exists j :: 0 <= j < idx && row[j].None?
  }

  lemma MissingMore(row: seq<Option<Obj>>, idx: nat)
    requires idx < |row|
    ensures Missing(row, idx + 1) <==> Missing(row, idx) || row[idx].None?
  {
  }

  /** What the columns before idx give. */
  predicate ReadSoFar(ms: SqlMeta, row: seq<Option<Obj>>, idx: nat, key: seq<Obj>, data: seq<Obj>, gen: nat)
    requires |row| == |ms.columns| && ms.pk <= |row| && idx <= |row|
  {
    var split := if idx < ms.pk then idx else ms.pk;
    && key == Present(row[..split])
    && data == Body(ms.columns[split..idx], row[split..idx])
    && gen == LastGen(ms.columns[split..idx], row[split..idx])
  }

  lemma ReadStep(ms: SqlMeta, row: seq<Option<Obj>>, idx: nat, key: seq<Obj>, data: seq<Obj>, gen: nat)
    requires |row| == |ms.columns| && ms.pk <= |row| && idx < |row|
    requires ReadSoFar(ms, row, idx, key, data, gen)
    ensures var col, obj := ms.columns[idx], row[idx];
      if obj.None? then ReadSoFar(ms, row, idx + 1, key, data, gen)
      else if idx < ms.pk then ReadSoFar(ms, row, idx + 1, key + [obj.value], data, gen)
      else if IsGen(col) then ReadSoFar(ms, row, idx + 1, key, data, GenOf(obj.value))
      else ReadSoFar(ms, row, idx + 1, key, data + [obj.value], gen)
  {
    var col, obj := ms.columns[idx], row[idx];
    if idx < ms.pk {
      assert row[..idx + 1] == row[..idx] + [obj];
      PresentSnoc(row[..idx], obj);
    } else {
      var c, r := ms.columns[ms.pk..idx], row[ms.pk..idx];
      assert row[ms.pk..idx + 1] == r + [obj] && ms.columns[ms.pk..idx + 1] == c + [col];
      BodySnoc(c, r, col, obj);
    }
  }

  function Present(row: seq<Option<Obj>>): seq<Obj> {
    if row == [] then [] else (if row[0].None? then [] else [row[0].value]) + Present(row[1..])
  }

  /** The value of the last generation column, or zero. */
  function LastGen(columns: seq<SqlColumn>, row: seq<Option<Obj>>): nat
    requires |columns| == |row|
  {
    var n := |columns|;
    if n == 0 then 0
    else if IsGen(columns[n - 1]) && row[n - 1].Some? then GenOf(row[n - 1].value)
    else LastGen(columns[..n - 1], row[..n - 1])
  }

  lemma {:induction false} PresentSnoc(row: seq<Option<Obj>>, o: Option<Obj>)
    ensures Present(row + [o]) == Present(row) + if o.None? then [] else [o.value]
    decreases |row|
  {
    if row == [] {
      assert row + [o] == [o];
    } else {
      assert (row + [o])[0] == row[0] && (row + [o])[1..] == row[1..] + [o];
      PresentSnoc(row[1..], o);
      var first, last := if row[0].None? then [] else [row[0].value], if o.None? then [] else [o.value];
      assert first + (Present(row[1..]) + last) == (first + Present(row[1..])) + last;
    }
  }

  lemma {:induction false} BodySnoc(columns: seq<SqlColumn>, row: seq<Option<Obj>>, col: SqlColumn, o: Option<Obj>)
    requires |columns| == |row|
    ensures Body(columns + [col], row + [o]) == Body(columns, row) + if o.None? || IsGen(col) then [] else [o.value]
    ensures LastGen(columns + [col], row + [o])
      == if IsGen(col) && o.Some? then GenOf(o.value) else LastGen(columns, row)
    decreases |columns|
  {
    assert (columns + [col])[..|columns|] == columns && (row + [o])[..|row|] == row;
    if columns == [] {
      assert columns + [col] == [col] && row + [o] == [o];
    } else {
      assert (columns + [col])[1..] == columns[1..] + [col] && (row + [o])[1..] == row[1..] + [o];
      BodySnoc(columns[1..], row[1..], col, o);
      var first := if row[0].None? || IsGen(columns[0]) then [] else [row[0].value];
      var last := if o.None? || IsGen(col) then [] else [o.value];
      assert first + (Body(columns[1..], row[1..]) + last) == (first + Body(columns[1..], row[1..])) + last;
    }
  }

  // ---- a row written by the schema is read back -------------------------

  function Values(os: seq<Obj>): (r: seq<Option<Obj>>)
    ensures |r| == |os| && forall i :: 0 <= i < |os| ==> r[i] == Some(os[i])
  {
    seq(|os|, i requires 0 <= i < |os| => Some(os[i]))
  }

  lemma {:induction false} PresentValues(os: seq<Obj>)
    ensures Present(Values(os)) == os
    decreases |os|
  {
    if os != [] {
      assert Values(os)[1..] == Values(os[1..]);
      PresentValues(os[1..]);
    }
  }

  predicate NoGen(columns: seq<SqlColumn>) { forall i :: 0 <= i < |columns| ==> !IsGen(columns[i]) }

  lemma {:induction false} BodyValues(columns: seq<SqlColumn>, os: seq<Obj>)
    requires |columns| == |os|
    ensures |Body(columns, Values(os))| <= |os|
    ensures |Body(columns, Values(os))| == |os| <==> NoGen(columns)
    ensures NoGen(columns) ==> Body(columns, Values(os)) == os && LastGen(columns, Values(os)) == 0
    decreases |os|
  {
    if os != [] {
      assert Values(os)[1..] == Values(os[1..]);
      assert NoGen(columns) <==> !IsGen(columns[0]) && NoGen(columns[1..]) by {
        assert forall i :: 0 < i < |columns| ==> columns[i] == columns[1..][i - 1];
      }
      BodyValues(columns[1..], os[1..]);
      if NoGen(columns) { NoLastGen(columns, Values(os)); }
    }
  }

  lemma {:induction false} NoLastGen(columns: seq<SqlColumn>, row: seq<Option<Obj>>)
    requires |columns| == |row| && NoGen(columns)
    ensures LastGen(columns, row) == 0
    decreases |columns|
  {
    if columns != [] {
      NoLastGen(columns[..|columns| - 1], row[..|row| - 1]);
    }
  }

  lemma {:induction false} GenFirst(columns: seq<SqlColumn>, row: seq<Option<Obj>>, gen: nat)
    requires |columns| == |row| && NoGen(columns)
    ensures LastGen([GEN] + columns, [Some(Size(gen))] + row) == gen
    decreases |columns|
  {
    var c, r := [GEN] + columns, [Some(Size(gen))] + row;
    if columns != [] {
      var n := |columns| - 1;
      assert c[..|c| - 1] == [GEN] + columns[..n] && r[..|r| - 1] == [Some(Size(gen))] + row[..n];
      assert c[|c| - 1] == columns[n];
      GenFirst(columns[..n], row[..n], gen);
    }
  }

  /** The body part of a row: exact unless a body column is itself taken for the generation. */
  lemma BodyAround(body: seq<SqlColumn>, data: seq<Obj>, gen: nat)
    requires |body| == |data|
    ensures var c, r := [GEN] + body, [Some(Size(gen))] + Values(data);
      Body(c, r) == data && LastGen(c, r) == gen <==> NoGen(body)
  {
    var c, r := [GEN] + body, [Some(Size(gen))] + Values(data);
    assert c[1..] == body && r[1..] == Values(data);
    assert Body(c, r) == [] + Body(body, Values(data));
    BodyValues(body, data);
    if NoGen(body) {
      GenFirst(body, Values(data), gen);
    }
  }

  /** The row key, generation, data, read by the schema made for it, gives exactly that key,
      and exactly that data and generation if and only if no body column is itself called
      gen and typed as a generation. */
  lemma RowRoundTrip(m: Meta, width: seq<nat>, key: seq<Obj>, data: seq<Obj>, gen: nat)
    requires m.Valid() && |width| == |m.columns| && m.CheckIntegrity(key, data)
    ensures var ms := SqlOf(m, width);
      var row := Values(key) + [Some(Size(gen))] + Values(data);
      && |row| == |ms.columns| && Present(row[..ms.pk]) == key
      && (Body(ms.columns[ms.pk..], row[ms.pk..]) == data && LastGen(ms.columns[ms.pk..], row[ms.pk..]) == gen
          <==> forall i :: m.pk <= i < |m.columns| ==> !(m.columns[i].name == "gen" && m.columns[i].tag == SizeTag))
  {
    var ms := SqlOf(m, width);
    var row := Values(key) + [Some(Size(gen))] + Values(data);
    var body := Widened(m.columns[m.pk..], width[m.pk..]);
    PresentValues(key);
    assert row[..ms.pk] == Values(key);
    assert ms.columns[ms.pk..] == [GEN] + body && row[ms.pk..] == [Some(Size(gen))] + Values(data);
    BodyAround(body, data, gen);
    BodyCalledGen(m, width);
  }

  lemma BodyCalledGen(m: Meta, width: seq<nat>)
    requires m.Valid() && |width| == |m.columns|
    ensures NoGen(Widened(m.columns[m.pk..], width[m.pk..])) <==>
      forall i :: m.pk <= i < |m.columns| ==> !(m.columns[i].name == "gen" && m.columns[i].tag == SizeTag)
  {
  }
}
