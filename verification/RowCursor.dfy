/**
 The row cursor of mysql_proxy_api.cpp: mysql_proxy_fetch_row walks the rows of a result tree whose
 rows are grouped into sets, and removes each set from the tree once its last row was passed.
 A cursor position is a pair of indices where the C code holds a node pointer.
 */
module RowCursor {
  import opened Bytes
  import opened Basics

  const SETS_TAG: nat := 12
  const FIRST_FIELD_TAG: nat := 11

  /** The columns of a row by tag; a missing tag is an SQL NULL. */
  type Row = map<nat, seq<byte>>
  datatype Child = Child(tag: nat, rows: seq<Row>)
  datatype Position = Nowhere | At(group: nat, row: nat)

  function RowsOf(c: Child): seq<Row> {
    if c.tag == SETS_TAG then c.rows else []
  }

  /** All rows of all sets, in order. */
  function AllRows(children: seq<Child>): seq<Row> {
    if children == [] then [] else RowsOf(children[0]) + AllRows(children[1..])
  }

  lemma {:induction false} AllRowsAppend(a: seq<Child>, b: seq<Child>)
    ensures AllRows(a + b) == AllRows(a) + AllRows(b)
  {
    if a == [] {
      assert a + b == b;
    } else {
      assert (a + b)[1..] == a[1..] + b;
      AllRowsAppend(a[1..], b);
    }
  }

  lemma RowlessPrefix(children: seq<Child>, i: nat)
    requires i < |children| && AllRows(children[..i]) == [] && RowsOf(children[i]) == []
    ensures AllRows(children[..i + 1]) == []
  {
    assert children[..i + 1] == children[..i] + [children[i]];
    AllRowsAppend(children[..i], [children[i]]);
  }

  /** The loop over the children that leads to one with rows. */
  method FindRows(children: seq<Child>, from: nat) returns (i: nat)
    requires from <= |children| && AllRows(children[..from]) == []
    ensures from <= i <= |children| && AllRows(children[..i]) == []
    ensures i < |children| ==> RowsOf(children[i]) != []
  {
    i := from;
    while i < |children| && (children[i].tag != SETS_TAG || children[i].rows == [])
      invariant from <= i <= |children| && AllRows(children[..i]) == []
    {
      RowlessPrefix(children, i);
      i := i + 1;
    }
  }

  lemma FirstRow(children: seq<Child>, i: nat)
    requires i < |children| && AllRows(children[..i]) == [] && RowsOf(children[i]) != []
    ensures AllRows(children) ==
            [RowsOf(children[i])[0]] + (RowsOf(children[i])[1..] + AllRows(children[i + 1..]))
  {
    var rest := AllRows(children[i + 1..]);
    assert children[i..][1..] == children[i + 1..];
    assert AllRows(children[i..]) == RowsOf(children[i]) + rest;
    assert children == children[..i] + children[i..];
    AllRowsAppend(children[..i], children[i..]);
    HeadOfSum(RowsOf(children[i]), rest);
  }

  lemma NextRow(rows: seq<Row>, row: nat, rest: seq<Row>)
    requires row + 1 < |rows|
    ensures rows[row + 1..] + rest == [rows[row + 1]] + (rows[row + 2..] + rest)
  {
    HeadOfSum(rows[row + 1..], rest);
    assert rows[row + 1..][1..] == rows[row + 2..];
  }

  lemma HeadOfSum(rows: seq<Row>, rest: seq<Row>)
    requires rows != []
    ensures rows + rest == [rows[0]] + (rows[1..] + rest)
  {
  }

  /** The columns handed to the caller for one row. */
  function Columns(row: Row, numFields: nat): (r: seq<Option<seq<byte>>>)
    ensures |r| == numFields
    ensures forall i :: 0 <= i < numFields ==>
              r[i] == if FIRST_FIELD_TAG + i in row then Some(row[FIRST_FIELD_TAG + i]) else None
  {
    seq(numFields, i requires 0 <= i => if FIRST_FIELD_TAG + i in row then Some(row[FIRST_FIELD_TAG + i]) else None)
  }

  function AllColumns(rows: seq<Row>, numFields: nat): seq<seq<Option<seq<byte>>>> {
    if rows == [] then [] else [Columns(rows[0], numFields)] + AllColumns(rows[1..], numFields)
  }

  class Result {
    var children: seq<Child>
    var current: Position
    const numFields: nat

    /** Every set in front of the current one is without rows: those with rows were removed when finished. */
    ghost predicate Valid()
      reads this
    {
      current.At? ==>
        && current.group < |children|
        && current.row < |RowsOf(children[current.group])|
        && AllRows(children[..current.group]) == []
    }

    /** The rows that are still to be returned. */
    ghost function Remaining(): seq<Row>
      requires Valid()
      reads this
    {
      if current.Nowhere? then AllRows(children)
      else RowsOf(children[current.group])[current.row + 1..] + AllRows(children[current.group + 1..])
    }

    /** mysql_proxy_store_result */
    constructor (tree: seq<Child>, fields: nat)
      ensures Valid() && Remaining() == AllRows(tree) && numFields == fields
    {
      children, current, numFields := tree, Nowhere, fields;
    }

    /** The search both branches of mysql_proxy_fetch_row end in: the first row at or behind child from. */
    method Seek(from: nat)
      requires from <= |children| && AllRows(children[..from]) == []
      modifies this`current
      ensures Valid()
      ensures AllRows(children) == [] ==> current == Nowhere
      ensures AllRows(children) != [] ==>
                current.At? && current.row == 0 &&
                AllRows(children) == [children[current.group].rows[0]] + Remaining()
    {
      var i := FindRows(children, from);
      if i < |children| {
        FirstRow(children, i);
        current := At(i, 0);
      } else {
        assert children[..i] == children;
        current := Nowhere;
      }
    }

    /** The part of mysql_proxy_fetch_row that moves the cursor to the next remaining row, if there is one. */
    method Advance()
      requires Valid()
      modifies this
      ensures Valid()
      ensures old(Remaining()) == [] ==> current == Nowhere && Remaining() == []
      ensures old(Remaining()) != [] ==>
                current.At? && old(Remaining()) == [children[current.group].rows[current.row]] + Remaining()
    {
      if current.Nowhere? {
        assert children[..0] == [];
        Seek(0);
      } else if current.row + 1 < |children[current.group].rows| {
        NextInSet();
      } else {
        LeaveSet();
      }
    }

    /** The set has another row. */
    method NextInSet()
      requires Valid() && current.At? && current.row + 1 < |children[current.group].rows|
      modifies this`current
      ensures Valid() && current.At?
      ensures old(Remaining()) == [children[current.group].rows[current.row]] + Remaining()
    {
      NextRow(children[current.group].rows, current.row, AllRows(children[current.group + 1..]));
      current := At(current.group, current.row + 1);
    }

    /** The finished set is removed, and the next one that has rows is found. */
    method LeaveSet()
      requires Valid() && current.At? && current.row + 1 == |children[current.group].rows|
      modifies this
      ensures Valid()
      ensures old(Remaining()) == [] ==> current == Nowhere && Remaining() == []
      ensures old(Remaining()) != [] ==>
                current.At? && old(Remaining()) == [children[current.group].rows[current.row]] + Remaining()
    {
      var group := current.group;
      LastRow(children, group);
      children := children[..group] + children[group + 1..];
      current := Nowhere;
      Seek(group);
    }

    /** mysql_proxy_fetch_row: the next remaining row, each exactly once and in order; then nothing, for ever. */
    method Fetch() returns (r: Option<seq<Option<seq<byte>>>>)
      requires Valid()
      modifies this
      ensures Valid()
      ensures old(Remaining()) == [] ==> r == None && current == Nowhere && Remaining() == []
      ensures old(Remaining()) != [] ==>
                && Remaining() == old(Remaining())[1..]
                && current.At? && children[current.group].rows[current.row] == old(Remaining())[0]
                && r == if numFields == 0 then None else Some(Columns(old(Remaining())[0], numFields))
    {
      Advance();
      r := FetchRow();
    }

    /** FetchRow: copies the columns of the current row. */
    method FetchRow() returns (r: Option<seq<Option<seq<byte>>>>)
      requires Valid()
      ensures r == if current.Nowhere? || numFields == 0 then None
                   else Some(Columns(children[current.group].rows[current.row], numFields))
    {
      if current.Nowhere? || numFields == 0 {
        return None;
      }
      var row := children[current.group].rows[current.row];
      var fields: seq<Option<seq<byte>>> := [];
      for i := 0 to numFields
        invariant fields == Columns(row, numFields)[..i]
      {
        fields := fields + [if FIRST_FIELD_TAG + i in row then Some(row[FIRST_FIELD_TAG + i]) else None];
      }
      assert Columns(row, numFields)[..numFields] == Columns(row, numFields);
      return Some(fields);
    }

    /** mysql_proxy_fetch_lengths: the lengths of the columns of the row fetched last, 0 for a NULL. */
    method Lengths() returns (r: Option<seq<nat>>)
      requires Valid()
      ensures r == None <==> current.Nowhere? || numFields == 0
      ensures r.Some? ==>
                && |r.value| == numFields
                && forall i :: 0 <= i < numFields ==>
                     var column := Columns(children[current.group].rows[current.row], numFields)[i];
                     r.value[i] == if column.Some? then |column.value| else 0
    {
      if current.Nowhere? || numFields == 0 {
        return None;
      }
      var row := children[current.group].rows[current.row];
      var lengths := [];
      for i := 0 to numFields
        invariant |lengths| == i
        invariant forall j :: 0 <= j < i ==>
                    lengths[j] == if FIRST_FIELD_TAG + j in row then |row[FIRST_FIELD_TAG + j]| else 0
      {
        var s := if FIRST_FIELD_TAG + i in row then row[FIRST_FIELD_TAG + i] else [];
        lengths := lengths + [|s|];
      }
      return Some(lengths);
    }
  }

  lemma RemovedSet(children: seq<Child>, i: nat)
    requires i < |children| && AllRows(children[..i]) == []
    ensures AllRows(children[..i] + children[i + 1..]) == AllRows(children[i + 1..])
  {
    WithoutRowless(children[..i], children[i + 1..]);
  }

  /** Behind the last row of a set, what remains is what the other children have. */
  lemma LastRow(children: seq<Child>, i: nat)
    requires i < |children| && AllRows(children[..i]) == []
    ensures var others := children[..i] + children[i + 1..];
            && RowsOf(children[i])[|RowsOf(children[i])|..] + AllRows(children[i + 1..]) == AllRows(others)
            && others[..i] == children[..i]
  {
    RemovedSet(children, i);
  }

  lemma WithoutRowless(a: seq<Child>, b: seq<Child>)
    requires AllRows(a) == []
    ensures AllRows(a + b) == AllRows(b)
  {
    AllRowsAppend(a, b);
  }

  lemma FirstColumns(table: seq<seq<Option<seq<byte>>>>, rows: seq<Row>, n: nat)
    requires rows != []
    ensures table + AllColumns(rows, n) == table + [Columns(rows[0], n)] + AllColumns(rows[1..], n)
  {
  }

  /** The caller's loop over a fresh result with at least one field collects every row of every set. */
  method FetchAll(res: Result) returns (table: seq<seq<Option<seq<byte>>>>)
    requires res.Valid() && res.numFields > 0
    modifies res
    ensures table == AllColumns(old(res.Remaining()), res.numFields)
    ensures res.Valid() && res.Remaining() == []
  {
    table := [];
    var r := res.Fetch();
    ghost var rows := old(res.Remaining());
    while r.Some?
      invariant res.Valid()
      invariant r.Some? ==> rows != [] && r.value == Columns(rows[0], res.numFields) && res.Remaining() == rows[1..]
      invariant r == None ==> rows == [] && res.Remaining() == []
      invariant AllColumns(old(res.Remaining()), res.numFields) == table + AllColumns(rows, res.numFields)
      decreases |rows|
    {
      FirstColumns(table, rows, res.numFields);
      table := table + [r.value];
      rows := rows[1..];
      r := res.Fetch();
    }
  }
}
