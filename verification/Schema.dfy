/** Table schemas: a name, the columns, and how many leading columns form the primary key. */
module Schema {
  import opened Dom

  /** std::size_t and std::uint64_t arithmetic wraps at this bound. */
  const U64: nat := 0x1_0000_0000_0000_0000
  const NPOS: nat := U64 - 1

  datatype Column = Column(name: string, tag: Tag)

  datatype Meta = Meta(name: string, columns: seq<Column>, pk: nat) {

    /** The constructor's own assertion, and a column count that std::size_t can hold. */
    predicate Valid() { pk < |columns| < U64 }

    function BodySize(): nat requires Valid() { |columns| - pk }

    predicate CheckIntegrity(key: seq<Obj>, data: seq<Obj>) requires Valid() {
      |key| == pk && |data| == BodySize()
    }

    /** The first column with this name, or NPOS. */
    function IndexByName(column: string): (idx: nat)
      requires Valid()
      ensures idx == NPOS <==> forall i :: 0 <= i < |columns| ==> columns[i].name != column
      ensures idx != NPOS ==>
        idx < |columns| && columns[idx].name == column && forall i :: 0 <= i < idx ==> columns[i].name != column
    {
      FindFrom(column, 0)
    }

    function FindFrom(column: string, from: nat): (idx: nat)
      requires Valid() && from <= |columns|
      requires forall i :: 0 <= i < from ==> columns[i].name != column
      ensures idx == NPOS <==> forall i :: 0 <= i < |columns| ==> columns[i].name != column
      ensures idx != NPOS ==>
        idx < |columns| && columns[idx].name == column && forall i :: 0 <= i < idx ==> columns[i].name != column
      decreases |columns| - from
    {
      if from == |columns| then NPOS
      else if columns[from].name == column then from
      else FindFrom(column, from + 1)
    }

    /** A key column's index minus the key size wraps around to a huge index. */
    function BodyIndexByName(column: string): (idx: nat)
      requires Valid()
    {
      var idx := IndexByName(column);
      if idx == NPOS then NPOS else if pk <= idx then idx - pk else U64 + idx - pk
    }
  }

  /** A name reaches a body column exactly when its first occurrence is one;
      an unknown name and a key column both give an index no row has. */
  lemma BodyIndexInRange(m: Meta, column: string)
    requires m.Valid()
    ensures m.BodyIndexByName(column) < m.BodySize() <==>
      exists i :: m.pk <= i < |m.columns| && m.columns[i].name == column
        && forall j :: 0 <= j < i ==> m.columns[j].name != column
    ensures m.BodyIndexByName(column) < m.BodySize() ==>
      var i := m.pk + m.BodyIndexByName(column);
      m.columns[i].name == column && forall j :: 0 <= j < i ==> m.columns[j].name != column
  {
  }

  /** The largest index stands for an unknown name, but also for the last key column. */
  lemma BodyIndexNpos(m: Meta, column: string)
    requires m.Valid()
    ensures m.BodyIndexByName(column) == NPOS <==>
      m.IndexByName(column) == NPOS || m.IndexByName(column) + 1 == m.pk
  {
  }
}
