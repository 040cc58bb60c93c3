/** The rows of the worklog table as the expand-all logic sees them, and
    the click machinery shared by the feature and the older content
    scripts. A row's click listeners toggle its expanded and collapsed
    classes and then let a handler update the button from the rows. */
module WorklogRows {

  /** A table row: whether it is a group row, whether it carries the
      `tes-row` marker class, its expanded and collapsed classes, and how many
      click listeners toggle it. */
  datatype Row = Row(isGroup: bool, managed: bool, expanded: bool, collapsed: bool, listeners: nat)

  const GroupRow: Row := Row(true, false, false, false, 0)
  const DetailRow: Row := Row(false, false, false, false, 0)

  /** The row's next element sibling exists and is not a group row. */
  predicate NextIsDetail(rows: seq<Row>, i: int)
    requires 0 <= i < |rows|
  {
    i + 1 < |rows| && !rows[i + 1].isGroup
  }

  function ToggleClasses(r: Row): (t: Row)
    ensures t.expanded == !r.expanded && t.collapsed == !r.collapsed
    ensures t.isGroup == r.isGroup && t.managed == r.managed && t.listeners == r.listeners
  {
    r.(expanded := !r.expanded, collapsed := !r.collapsed)
  }

  /** `closest` on the clicked row finds the row itself exactly when it has
      one of the two classes (no ancestor carries them). */
  predicate HasTarget(r: Row) {
    r.expanded || r.collapsed
  }

  predicate IsCollapsed(r: Row) {
    r.collapsed
  }

  predicate IsExpanded(r: Row) {
    r.expanded
  }

  /** `document.querySelectorAll('mat-row.tes-row-collapsed').length > 0`. */
  predicate SomeCollapsed(rows: seq<Row>) {
    exists i :: 0 <= i < |rows| && rows[i].collapsed
  }

  /** A row a click toggles: exactly one class and one listener. */
  predicate Toggleable(r: Row) {
    r.expanded != r.collapsed && r.listeners == 1
  }

  /** A row a click leaves alone: no class and no listener. */
  predicate Inert(r: Row) {
    !r.expanded && !r.collapsed && r.listeners == 0
  }

  predicate ClickConsistent(rows: seq<Row>) {
    forall i :: 0 <= i < |rows| ==> Toggleable(rows[i]) || Inert(rows[i])
  }

  /** One listener run on row `i`: toggle both classes of the target, then
      let the handler update the button from the rows. */
  function ListenerRun<B>(rows: seq<Row>, b: B, i: int, handler: (B, seq<Row>) -> B): (r: (seq<Row>, B))
    requires 0 <= i < |rows|
    ensures |r.0| == |rows|
    ensures forall j :: 0 <= j < |rows| && j != i ==> r.0[j] == rows[j]
    ensures HasTarget(rows[i]) ==> r.0[i] == ToggleClasses(rows[i]) && r.1 == handler(b, r.0)
    ensures !HasTarget(rows[i]) ==> r == (rows, b)
  {
    if HasTarget(rows[i]) then
      var rows' := rows[i := ToggleClasses(rows[i])];
      (rows', handler(b, rows'))
    else (rows, b)
  }

  /** A click changes only the classes of a row: whether it is a group row,
      its marker and its listeners stay. */
  predicate SameShape(a: Row, b: Row) {
    a.isGroup == b.isGroup && a.managed == b.managed && a.listeners == b.listeners
  }

  function RunListeners<B>(rows: seq<Row>, b: B, i: int, n: nat, handler: (B, seq<Row>) -> B): (r: (seq<Row>, B))
    requires 0 <= i < |rows|
    ensures |r.0| == |rows|
    ensures forall j :: 0 <= j < |rows| && j != i ==> r.0[j] == rows[j]
    ensures SameShape(r.0[i], rows[i])
    decreases n
  {
    if n == 0 then (rows, b)
    else
      var step := ListenerRun(rows, b, i, handler);
      RunListeners(step.0, step.1, i, n - 1, handler)
  }

  /** A click on row `i` runs each of its listeners in turn. */
  function ClickRow<B>(rows: seq<Row>, b: B, i: int, handler: (B, seq<Row>) -> B): (r: (seq<Row>, B))
    requires 0 <= i < |rows|
    ensures |r.0| == |rows|
    ensures forall j :: 0 <= j < |rows| && j != i ==> r.0[j] == rows[j]
    ensures SameShape(r.0[i], rows[i])
    ensures rows[i].listeners == 0 ==> r == (rows, b)
  {
    RunListeners(rows, b, i, rows[i].listeners, handler)
  }

  /** `row.click()` for every row of a snapshot, in order. */
  function ClickAll<B>(rows: seq<Row>, b: B, idxs: seq<nat>, handler: (B, seq<Row>) -> B): (r: (seq<Row>, B))
    requires forall k :: 0 <= k < |idxs| ==> idxs[k] < |rows|
    ensures |r.0| == |rows|
    ensures |idxs| == 0 ==> r == (rows, b)
    decreases |idxs|
  {
    if |idxs| == 0 then (rows, b)
    else
      var step := ClickRow(rows, b, idxs[0], handler);
      ClickAll(step.0, step.1, idxs[1..], handler)
  }

  /** Clicking a snapshot changes only the classes of the listed rows: a row
      outside the snapshot is untouched and every row keeps its shape. */
  lemma {:induction false} ClickAllFrame<B>(rows: seq<Row>, b: B, idxs: seq<nat>, handler: (B, seq<Row>) -> B)
    requires forall k :: 0 <= k < |idxs| ==> idxs[k] < |rows|
    ensures var r := ClickAll(rows, b, idxs, handler);
            && (forall j :: 0 <= j < |rows| && j !in idxs ==> r.0[j] == rows[j])
            && (forall j :: 0 <= j < |rows| ==> SameShape(r.0[j], rows[j]))
    decreases |idxs|
  {
    if |idxs| > 0 {
      var step := ClickRow(rows, b, idxs[0], handler);
      ClickAllFrame(step.0, step.1, idxs[1..], handler);
      assert forall j :: j !in idxs ==> j != idxs[0] && j !in idxs[1..];
    }
  }

  /** `querySelectorAll` of the rows `sel` holds for: their indices in
      document order. */
  function IndicesWhere(rows: seq<Row>, sel: Row -> bool): (r: seq<nat>)
    ensures forall k :: 0 <= k < |r| ==> r[k] < |rows| && sel(rows[r[k]])
    ensures forall i :: 0 <= i < |rows| && sel(rows[i]) ==> i in r
    ensures forall k, l :: 0 <= k < l < |r| ==> r[k] < r[l]
    decreases |rows|
  {
    if |rows| == 0 then []
    else
      var rest := IndicesWhere(rows[..|rows| - 1], sel);
      if sel(rows[|rows| - 1]) then rest + [|rows| - 1] else rest
  }

  /** A snapshot in document order lists no row twice. */
  lemma SnapshotDistinct(idxs: seq<nat>)
    requires forall k, l :: 0 <= k < l < |idxs| ==> idxs[k] < idxs[l]
    ensures forall k, l :: 0 <= k < l < |idxs| ==> idxs[k] != idxs[l]
  {
  }

  /** The rows with the classes of the listed rows toggled. */
  function ToggleAt(rows: seq<Row>, idxs: seq<nat>): (r: seq<Row>)
    ensures |r| == |rows|
    ensures forall i :: 0 <= i < |rows| ==> r[i] == (if i in idxs then ToggleClasses(rows[i]) else rows[i])
  {
    seq(|rows|, i requires 0 <= i < |rows| => if i in idxs then ToggleClasses(rows[i]) else rows[i])
  }

  /** A click on a row with one listener and a class toggles exactly that row. */
  lemma ClickToggleableRow<B>(rows: seq<Row>, b: B, i: int, handler: (B, seq<Row>) -> B)
    requires 0 <= i < |rows| && Toggleable(rows[i])
    ensures ClickRow(rows, b, i, handler)
         == (rows[i := ToggleClasses(rows[i])], handler(b, rows[i := ToggleClasses(rows[i])]))
  {
    var step := ListenerRun(rows, b, i, handler);
    assert RunListeners(step.0, step.1, i, 0, handler) == step;
  }

  /** A click on a row without listeners does nothing. */
  lemma ClickInertRow<B>(rows: seq<Row>, b: B, i: int, handler: (B, seq<Row>) -> B)
    requires 0 <= i < |rows| && rows[i].listeners == 0
    ensures ClickRow(rows, b, i, handler) == (rows, b)
  {
  }

  /** Clicking a snapshot of distinct clickable rows toggles exactly those
      rows, whatever the handler does to the button. */
  lemma {:induction false} ClickAllToggles<B>(rows: seq<Row>, b: B, idxs: seq<nat>, handler: (B, seq<Row>) -> B)
    requires ClickConsistent(rows)
    requires forall k :: 0 <= k < |idxs| ==> idxs[k] < |rows| && HasTarget(rows[idxs[k]])
    requires forall k, l :: 0 <= k < l < |idxs| ==> idxs[k] != idxs[l]
    ensures ClickAll(rows, b, idxs, handler).0 == ToggleAt(rows, idxs)
    ensures ClickConsistent(ClickAll(rows, b, idxs, handler).0)
    decreases |idxs|
  {
    if |idxs| == 0 {
      assert ToggleAt(rows, idxs) == rows;
    } else {
      var j := idxs[0];
      assert Toggleable(rows[j]);
      ClickToggleableRow(rows, b, j, handler);
      var r1 := rows[j := ToggleClasses(rows[j])];
      var b1 := handler(b, r1);
      assert ClickConsistent(r1) by {
        forall i | 0 <= i < |r1| ensures Toggleable(r1[i]) || Inert(r1[i]) {
          if i != j {
            assert r1[i] == rows[i];
          }
        }
      }
      var rest := idxs[1..];
      forall k | 0 <= k < |rest| ensures rest[k] < |r1| && HasTarget(r1[rest[k]]) {
        assert rest[k] == idxs[k + 1] != idxs[0];
      }
      ClickAllToggles(r1, b1, rest, handler);
      forall i | 0 <= i < |rows| ensures ToggleAt(r1, rest)[i] == ToggleAt(rows, idxs)[i] {
        if i == j {
          assert i !in rest by {
            forall k | 0 <= k < |rest| ensures rest[k] != j {
              assert rest[k] == idxs[k + 1];
            }
          }
          assert i in idxs;
        } else {
          assert i in rest <==> i in idxs by {
            if i in idxs {
              var k :| 0 <= k < |idxs| && idxs[k] == i;
              assert k > 0 && rest[k - 1] == i;
            }
          }
        }
      }
    }
  }

  /** The button after clicking a non-empty snapshot is the handler's answer
      to the final rows; a property of the button the handler keeps holds
      throughout. */
  lemma {:induction false} ClickAllLastHandler<B>(rows: seq<Row>, b: B, idxs: seq<nat>, handler: (B, seq<Row>) -> B,
                                                  keeps: B -> bool) returns (prev: B)
    requires ClickConsistent(rows)
    requires forall k :: 0 <= k < |idxs| ==> idxs[k] < |rows| && HasTarget(rows[idxs[k]])
    requires forall k, l :: 0 <= k < l < |idxs| ==> idxs[k] != idxs[l]
    requires |idxs| > 0
    requires keeps(b)
    requires forall x: B, rs: seq<Row> :: keeps(x) ==> keeps(handler(x, rs))
    ensures keeps(prev)
    ensures ClickAll(rows, b, idxs, handler).1 == handler(prev, ClickAll(rows, b, idxs, handler).0)
    decreases |idxs|
  {
    var j := idxs[0];
    assert Toggleable(rows[j]);
    ClickToggleableRow(rows, b, j, handler);
    var r1 := rows[j := ToggleClasses(rows[j])];
    var b1 := handler(b, r1);
    var rest := idxs[1..];
    if |rest| == 0 {
      prev := b;
    } else {
      assert ClickConsistent(r1) by {
        forall i | 0 <= i < |r1| ensures Toggleable(r1[i]) || Inert(r1[i]) {
          if i != j {
            assert r1[i] == rows[i];
          }
        }
      }
      forall k | 0 <= k < |rest| ensures rest[k] < |r1| && HasTarget(r1[rest[k]]) {
        assert rest[k] == idxs[k + 1] != idxs[0];
      }
      prev := ClickAllLastHandler(r1, b1, rest, handler, keeps);
    }
  }
}
