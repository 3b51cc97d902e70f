/**
 * witness/store.py: the witness's three tables, held as values in a class whose methods insert into
 * them and read back.
 */
module WitnessStore {
  import opened ByteStrings
  import opened Wrappers

  /** A JSON value, as far as the witness tells values apart. */
  datatype Json =
    | JString(text: string)
    | JInt(number: int)
    | JBool(flag: bool)
    | JObject(fields: map<string, Json>)
    | JOther

  type Statement = map<string, Json>

  /** One row of `origins`. */
  datatype Pin = Pin(algId: string, publicKey: Bytes)

  /** One row of `checkpoints`. */
  datatype Row = Row(id: nat, origin: string, treeSize: int, rootHash: string, statement: Statement, cosignature: Bytes)

  datatype Kind = KeyChanged | BadSignature | Shrank | Fork | Inconsistent

  /** One row of `violations`. */
  datatype Violation = Violation(origin: string, kind: Kind, offered: Statement)

  /** The three tables. */
  datatype Tables = Tables(origins: map<string, Pin>, checkpoints: seq<Row>, violations: seq<Violation>)

  const EMPTY_TABLES := Tables(map[], [], [])

  /** Whether a comes before b under ORDER BY tree_size DESC, id DESC. */
  predicate Outranks(a: Row, b: Row) {
    a.treeSize > b.treeSize || (a.treeSize == b.treeSize && a.id > b.id)
  }

  /** The first row of the origin under that order. */
  function Latest(rows: seq<Row>, origin: string): Option<Row> {
    if rows == [] then None
    else
      var best, row := Latest(rows[..|rows| - 1], origin), rows[|rows| - 1];
      if row.origin == origin && (best.None? || Outranks(row, best.value)) then Some(row) else best
  }

  /** The origin's rows in the order they were inserted. */
  ghost function History(rows: seq<Row>, origin: string): seq<Row> {
    if rows == [] then []
    else
      var before, row := History(rows[..|rows| - 1], origin), rows[|rows| - 1];
      if row.origin == origin then before + [row] else before
  }

  function Pinned(t: Tables, origin: string, algId: string, publicKey: Bytes): Tables {
    if origin in t.origins then t else t.(origins := t.origins[origin := Pin(algId, publicKey)])
  }

  function Recorded(t: Tables, origin: string, treeSize: int, rootHash: string, statement: Statement,
                    cosignature: Bytes): Tables {
    t.(checkpoints := t.checkpoints + [Row(|t.checkpoints| + 1, origin, treeSize, rootHash, statement, cosignature)])
  }

  function Refused(t: Tables, origin: string, kind: Kind, offered: Statement): Tables {
    t.(violations := t.violations + [Violation(origin, kind, offered)])
  }

  class Store {
    var origins: map<string, Pin>
    var checkpoints: seq<Row>
    var violations: seq<Violation>

    function View(): Tables
      reads this
    {
      Tables(origins, checkpoints, violations)
    }

    constructor ()
      ensures View() == EMPTY_TABLES
    {
      origins, checkpoints, violations := map[], [], [];
    }

    method KnownLog(origin: string) returns (pin: Option<Pin>)
      ensures pin == if origin in origins then Some(origins[origin]) else None
    {
      pin := if origin in origins then Some(origins[origin]) else None;
    }

    /** INSERT OR IGNORE */
    method PinLog(origin: string, algId: string, publicKey: Bytes)
      modifies this
      ensures View() == Pinned(old(View()), origin, algId, publicKey)
    {
      if origin !in origins {
        origins := origins[origin := Pin(algId, publicKey)];
      }
    }

    method LatestRow(origin: string) returns (row: Option<Row>)
      ensures row == Latest(checkpoints, origin)
    {
      row := None;
      for i := 0 to |checkpoints|
        invariant row == Latest(checkpoints[..i], origin)
      {
        assert checkpoints[..i + 1][..i] == checkpoints[..i];
        if checkpoints[i].origin == origin && (row.None? || Outranks(checkpoints[i], row.value)) {
          row := Some(checkpoints[i]);
        }
      }
      assert checkpoints[..|checkpoints|] == checkpoints;
    }

    method Record(origin: string, treeSize: int, rootHash: string, statement: Statement, cosignature: Bytes)
      modifies this
      ensures View() == Recorded(old(View()), origin, treeSize, rootHash, statement, cosignature)
    {
      checkpoints := checkpoints + [Row(|checkpoints| + 1, origin, treeSize, rootHash, statement, cosignature)];
    }

    method RecordViolation(origin: string, kind: Kind, offered: Statement)
      modifies this
      ensures View() == Refused(old(View()), origin, kind, offered)
    {
      violations := violations + [Violation(origin, kind, offered)];
    }
  }

  // ---------------------------------------------------------------- the query, against its meaning

  /** Row ids are handed out in order of insertion. */
  ghost predicate Numbered(rows: seq<Row>) {
    forall i {:trigger rows[i]} :: 0 <= i < |rows| ==> rows[i].id == i + 1
  }

  /** The query's meaning: a row of the origin that no other row of the origin outranks. */
  lemma {:induction false} LatestIsFirst(rows: seq<Row>, origin: string)
    requires Numbered(rows)
    ensures Latest(rows, origin).None? <==> forall r :: r in rows ==> r.origin != origin
    ensures Latest(rows, origin).Some? ==>
              && Latest(rows, origin).value in rows
              && Latest(rows, origin).value.origin == origin
              && forall r :: r in rows && r.origin == origin && r != Latest(rows, origin).value
                             ==> Outranks(Latest(rows, origin).value, r)
  {
    if rows != [] {
      var before, row := rows[..|rows| - 1], rows[|rows| - 1];
      assert rows == before + [row];
      assert Numbered(before) by {
        forall i | 0 <= i < |before| ensures before[i].id == i + 1 { assert before[i] == rows[i]; }
      }
      LatestIsFirst(before, origin);
      forall r | r in before ensures r.id < row.id {
        var i :| 0 <= i < |before| && before[i] == r;
        assert rows[i].id == i + 1;
      }
    }
  }

  /** The origin's recorded sizes never decrease. */
  ghost predicate Growing(history: seq<Row>) {
    forall i, j :: 0 <= i < j < |history| ==> history[i].treeSize <= history[j].treeSize
  }

  lemma {:induction false} HistoryMembers(rows: seq<Row>, origin: string)
    ensures forall r :: r in History(rows, origin) <==> r in rows && r.origin == origin
  {
    if rows != [] {
      var before, row := rows[..|rows| - 1], rows[|rows| - 1];
      assert rows == before + [row];
      HistoryMembers(before, origin);
    }
  }

  lemma HistoryAppends(rows: seq<Row>, row: Row, origin: string)
    ensures History(rows + [row], origin) == History(rows, origin) + if row.origin == origin then [row] else []
  {
    assert (rows + [row])[..|rows|] == rows;
  }

  /** While an origin's sizes only grow, the query returns exactly the row inserted last for it. */
  lemma {:induction false} LatestIsLast(rows: seq<Row>, origin: string)
    requires Numbered(rows) && Growing(History(rows, origin))
    ensures var history := History(rows, origin);
            Latest(rows, origin) == if history == [] then None else Some(history[|history| - 1])
  {
    if rows != [] {
      var before, row := rows[..|rows| - 1], rows[|rows| - 1];
      assert rows == before + [row];
      HistoryAppends(before, row, origin);
      var history, earlier := History(rows, origin), History(before, origin);
      assert forall i :: 0 <= i < |before| ==> before[i] == rows[i];
      assert forall i :: 0 <= i < |earlier| ==> earlier[i] == history[i];
      LatestIsLast(before, origin);
      if row.origin == origin && earlier != [] {
        var last := earlier[|earlier| - 1];
        HistoryMembers(before, origin);
        assert last in before;
        var i :| 0 <= i < |before| && before[i] == last;
        assert rows[i].id == i + 1 && history[|earlier| - 1] == last && history[|earlier|] == row;
      }
    }
  }
}
