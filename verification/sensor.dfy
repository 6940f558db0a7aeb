/** The sensor data every category reports: a dict holding `domain`, the
    list `has_update` of packages with an update, and one status dict per
    listed package, plus the count of updatable packages. Package names
    share the dict's key space with `domain` and `has_update`, so a package
    with one of those names overwrites that entry; once `has_update` holds
    a status dict, the next `append` to it raises. */
module Sensor {
  import opened Wrappers
  import opened Effects

  /** The status dict of one listed package. `local` is `None` where a card
      has no stored version (JSON `null`). */
  datatype Status = Status(
    local: Option<string>,
    remote: string,
    hasUpdate: bool,
    notLocal: bool,
    repo: string,
    changeLog: string)

  /** A value of the sensor dict. */
  datatype Value =
    | Domain(domain: string)
    | UpdateList(names: seq<string>)
    | Package(status: Status)

  /** The sensor dict and `count_updateable`. */
  datatype Report = Report(data: map<string, Value>, count: nat)

  /** One package as the loop sees it: its status and whether it is listed. */
  datatype Row = Row(name: string, status: Status, visible: bool)

  /** A listed package counted as updatable and appended to `has_update`. */
  predicate Counts(row: Row) {
    row.visible && row.status.hasUpdate && !row.status.notLocal
  }

  /** The dict before the loop. */
  function Initial(domain: string): Report {
    Report(map["domain" := Domain(domain), "has_update" := UpdateList([])], 0)
  }

  /** One iteration of the loop of `get_sensor_data`. */
  function AddRow(r: Report, row: Row): Result<Report, PyError> {
    if !row.visible then Ok(r)
    else if Counts(row) then
      if "has_update" !in r.data then Err(KeyError("has_update"))
      else
        match r.data["has_update"]
        case UpdateList(l) =>
          var data := r.data["has_update" := UpdateList(l + [row.name])];
          Ok(Report(data[row.name := Package(row.status)], r.count + 1))
        case _ => Err(AttributeError)
    else Ok(Report(r.data[row.name := Package(row.status)], r.count))
  }

  /** The loop over `rows`, stopping at the first exception. */
  function Fold(r: Report, rows: seq<Row>): Result<Report, PyError>
    decreases |rows|
  {
    if |rows| == 0 then Ok(r)
    else
      match AddRow(r, rows[0])
      case Err(e) => Err(e)
      case Ok(next) => Fold(next, rows[1..])
  }

  /** The sensor data for the packages `rows`, in catalog order. */
  function Build(domain: string, rows: seq<Row>): Result<Report, PyError> {
    Fold(Initial(domain), rows)
  }

  /** Reference: the names of the counted rows, in order. */
  function CountedNames(rows: seq<Row>): seq<string>
    decreases |rows|
  {
    if |rows| == 0 then []
    else (if Counts(rows[0]) then [rows[0].name] else []) + CountedNames(rows[1..])
  }

  function VisibleNames(rows: seq<Row>): set<string> {
    set i | 0 <= i < |rows| && rows[i].visible :: rows[i].name
  }

  predicate DistinctNames(rows: seq<Row>) {
    forall i, j :: 0 <= i < j < |rows| ==> rows[i].name != rows[j].name
  }

  /** No listed package is called `has_update`. */
  predicate NoReserved(rows: seq<Row>) {
    forall i :: 0 <= i < |rows| && rows[i].visible ==> rows[i].name != "has_update"
  }

  /** A listed package called `has_update` comes before index `j`. */
  predicate ListReplacedBefore(rows: seq<Row>, j: int) {
    exists i :: 0 <= i < j && i < |rows| && rows[i].visible && rows[i].name == "has_update"
  }

  predicate ListIntact(r: Report) {
    "has_update" in r.data && r.data["has_update"].UpdateList?
  }

  /** From any intermediate dict whose `has_update` entry is still a list,
      the loop succeeds, appends exactly the counted names in order and
      counts them. */
  lemma {:induction false} FoldList(r: Report, rows: seq<Row>)
    requires ListIntact(r) && NoReserved(rows)
    ensures Fold(r, rows).Ok? && ListIntact(Fold(r, rows).value)
    ensures Fold(r, rows).value.data["has_update"].names
            == r.data["has_update"].names + CountedNames(rows)
    ensures Fold(r, rows).value.count == r.count + |CountedNames(rows)|
    decreases |rows|
  {
    if |rows| > 0 {
      AddRowList(r, rows[0]);
      var next := AddRow(r, rows[0]).value;
      assert Fold(r, rows) == Fold(next, rows[1..]);
      assert CountedNames(rows) == (if Counts(rows[0]) then [rows[0].name] else []) + CountedNames(rows[1..]);
      NoReservedTail(rows);
      FoldList(next, rows[1..]);
    }
  }

  lemma NoReservedTail(rows: seq<Row>)
    requires |rows| > 0 && NoReserved(rows)
    ensures NoReserved(rows[1..])
  {
    forall i | 0 <= i < |rows[1..]| && rows[1..][i].visible
      ensures rows[1..][i].name != "has_update"
    {
      assert rows[1..][i] == rows[i + 1];
    }
  }

  /** One iteration on an intact list: it appends the name of a counted row. */
  lemma AddRowList(r: Report, row: Row)
    requires ListIntact(r) && (row.visible ==> row.name != "has_update")
    ensures AddRow(r, row).Ok? && ListIntact(AddRow(r, row).value)
    ensures AddRow(r, row).value.data["has_update"].names
            == r.data["has_update"].names + (if Counts(row) then [row.name] else [])
    ensures AddRow(r, row).value.count == r.count + (if Counts(row) then 1 else 0)
  {
  }

  lemma VisibleNamesCons(rows: seq<Row>)
    requires |rows| > 0
    ensures VisibleNames(rows) == VisibleNames(rows[..1]) + VisibleNames(rows[1..])
  {
    forall n | n in VisibleNames(rows)
      ensures n in VisibleNames(rows[..1]) + VisibleNames(rows[1..])
    {
      var i :| 0 <= i < |rows| && rows[i].visible && rows[i].name == n;
      if i > 0 {
        assert rows[1..][i - 1] == rows[i];
      }
    }
  }

  /** The keys after the loop: those before it plus every listed name. */
  lemma {:induction false} FoldKeys(r: Report, rows: seq<Row>)
    requires ListIntact(r) && NoReserved(rows)
    ensures Fold(r, rows).Ok? && Fold(r, rows).value.data.Keys == r.data.Keys + VisibleNames(rows)
    decreases |rows|
  {
    FoldList(r, rows);
    if |rows| > 0 {
      var next := AddRow(r, rows[0]).value;
      FoldKeys(next, rows[1..]);
      VisibleNamesCons(rows);
    }
  }

  /** Each listed name maps to its status; every other key but
      `has_update` keeps its value. */
  lemma {:induction false} FoldValues(r: Report, rows: seq<Row>)
    requires ListIntact(r) && NoReserved(rows) && DistinctNames(rows)
    ensures Fold(r, rows).Ok?
    ensures forall i :: 0 <= i < |rows| && rows[i].visible ==>
              (rows[i].name in Fold(r, rows).value.data
               && Fold(r, rows).value.data[rows[i].name] == Package(rows[i].status))
    ensures forall k :: k in r.data && k !in VisibleNames(rows) && k != "has_update" ==>
              (k in Fold(r, rows).value.data && Fold(r, rows).value.data[k] == r.data[k])
    decreases |rows|
  {
    FoldList(r, rows);
    FoldKeys(r, rows);
    if |rows| > 0 {
      var row := rows[0];
      var next := AddRow(r, row).value;
      FoldValues(next, rows[1..]);
      FoldKeys(next, rows[1..]);
      VisibleNamesCons(rows);
      var out := Fold(next, rows[1..]).value;
      forall i | 0 <= i < |rows| && rows[i].visible
        ensures out.data[rows[i].name] == Package(rows[i].status)
      {
        if i == 0 {
          forall j | 0 <= j < |rows[1..]|
            ensures rows[1..][j].name != row.name
          {
            assert rows[1..][j] == rows[j + 1];
          }
        } else {
          assert rows[1..][i - 1] == rows[i];
        }
      }
    }
  }

  /** Without a package called `has_update` the loop cannot fail: the list
      holds exactly the counted packages in catalog order, the count is its
      length, the keys are `domain`, `has_update` and the listed packages,
      and each listed package maps to its status. */
  lemma BuildShape(domain: string, rows: seq<Row>)
    requires NoReserved(rows) && DistinctNames(rows)
    ensures Build(domain, rows).Ok? && ListIntact(Build(domain, rows).value)
    ensures Build(domain, rows).value.data["has_update"] == UpdateList(CountedNames(rows))
    ensures Build(domain, rows).value.count == |CountedNames(rows)|
    ensures Build(domain, rows).value.data.Keys == {"domain", "has_update"} + VisibleNames(rows)
    ensures forall i :: 0 <= i < |rows| && rows[i].visible ==>
              Build(domain, rows).value.data[rows[i].name] == Package(rows[i].status)
    ensures "domain" !in VisibleNames(rows) ==> Build(domain, rows).value.data["domain"] == Domain(domain)
  {
    assert ListIntact(Initial(domain));
    FoldList(Initial(domain), rows);
    FoldKeys(Initial(domain), rows);
    FoldValues(Initial(domain), rows);
  }

  /** The loop raises exactly when a counted package comes after the list
      was replaced: after a listed package called `has_update`, or from the
      start when the intermediate dict no longer holds a list. */
  lemma {:induction false} FoldFails(r: Report, rows: seq<Row>)
    ensures Fold(r, rows).Err? <==>
            exists j :: 0 <= j < |rows| && Counts(rows[j])
                        && (!ListIntact(r) || ListReplacedBefore(rows, j))
    decreases |rows|
  {
    if |rows| > 0 {
      var row := rows[0];
      var tail := rows[1..];
      var res := AddRow(r, row);
      if res.Err? {
        assert Counts(rows[0]) && !ListIntact(r);
      } else {
        var next := res.value;
        FoldFails(next, tail);
        assert ListIntact(next) <==> ListIntact(r) && !(row.visible && row.name == "has_update");
        forall j | 1 <= j < |rows|
          ensures ListReplacedBefore(rows, j)
                  <==> (row.visible && row.name == "has_update") || ListReplacedBefore(tail, j - 1)
        {
          if ListReplacedBefore(rows, j) {
            var i :| 0 <= i < j && i < |rows| && rows[i].visible && rows[i].name == "has_update";
            if i > 0 {
              assert tail[i - 1] == rows[i];
            }
          }
          if ListReplacedBefore(tail, j - 1) {
            var i :| 0 <= i < j - 1 && i < |tail| && tail[i].visible && tail[i].name == "has_update";
            assert rows[i + 1] == tail[i];
          }
        }
        if exists j :: 0 <= j < |rows| && Counts(rows[j]) && (!ListIntact(r) || ListReplacedBefore(rows, j)) {
          var j :| 0 <= j < |rows| && Counts(rows[j]) && (!ListIntact(r) || ListReplacedBefore(rows, j));
          assert j > 0;
          assert tail[j - 1] == rows[j];
        }
        if Fold(next, tail).Err? {
          var j :| 0 <= j < |tail| && Counts(tail[j]) && (!ListIntact(next) || ListReplacedBefore(tail, j));
          assert rows[j + 1] == tail[j];
        }
      }
    }
  }

  /** `get_sensor_data` raises exactly when a counted package follows a
      listed package called `has_update`; it then raises `AttributeError`. */
  lemma BuildFails(domain: string, rows: seq<Row>)
    ensures Build(domain, rows).Err? <==>
            exists j :: 0 <= j < |rows| && Counts(rows[j]) && ListReplacedBefore(rows, j)
  {
    FoldFails(Initial(domain), rows);
    assert ListIntact(Initial(domain));
  }

  /** The keys of a package's status dict, in the order the dict is written. */
  const StatusKeys: seq<string> := ["local", "remote", "has_update", "not_local", "repo", "change_log"]

  /** What `for name in updates` visits for the value stored under
      `has_update`: the list, the keys of a status dict, or the characters
      of a string. */
  function UpdateTargets(v: Value): (r: seq<string>)
    ensures v.UpdateList? ==> r == v.names
    ensures v.Package? ==> r == StatusKeys
    ensures v.Domain? ==> |r| == |v.domain| && forall i :: 0 <= i < |r| ==> r[i] == [v.domain[i]]
  {
    match v
    case UpdateList(names) => names
    case Package(_) => StatusKeys
    case Domain(d) => seq(|d|, i requires 0 <= i < |d| => [d[i]])
  }
}
