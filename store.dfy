/** The `products` table as an in-memory store, with one method per HTTP
    handler. Each method returns the status code and JSON body the handler
    returns, and updates the table as its SQL statement would. */
module Store {
  import opened Text
  import opened Products
  import opened Request

  /** The counter is positive and `issued` holds exactly the ids below it;
      every row is stored under its own id, was assigned by the counter and
      satisfies the row invariant. */
  ghost predicate TableInvariant(rows: map<int, Product>, nextId: int, issued: set<int>) {
    && nextId >= 1
    && (forall k :: k in issued <==> 1 <= k < nextId)
    && (forall k :: k in rows ==> k in issued && rows[k].id == k && WellFormed(rows[k]))
  }

  /** An insert under the counter's id, followed by advancing the counter,
      keeps the invariant and adds exactly one row. */
  lemma InsertKeepsInvariant(rows: map<int, Product>, nextId: int, issued: set<int>, row: Product)
    requires TableInvariant(rows, nextId, issued)
    requires row.id == nextId && WellFormed(row)
    ensures nextId !in rows
    ensures TableInvariant(rows[nextId := row], nextId + 1, issued + {nextId})
    ensures |rows[nextId := row]| == |rows| + 1
  {
  }

  /** Rewriting an existing row under its own id keeps the invariant. */
  lemma ReplaceKeepsInvariant(rows: map<int, Product>, nextId: int, issued: set<int>, row: Product)
    requires TableInvariant(rows, nextId, issued)
    requires row.id in rows && WellFormed(row)
    ensures TableInvariant(rows[row.id := row], nextId, issued)
  {
  }

  /** Removing a row keeps the invariant. */
  lemma RemoveKeepsInvariant(rows: map<int, Product>, nextId: int, issued: set<int>, id: int)
    requires TableInvariant(rows, nextId, issued)
    ensures TableInvariant(rows - {id}, nextId, issued)
  {
  }

  class ProductStore {
    /** The configured `API_KEY`. */
    const apiKey: string
    /** The rows, keyed by id. */
    var rows: map<int, Product>
    /** The next id AUTOINCREMENT hands out: one more than the largest id
        ever assigned, whether or not that row still exists. */
    var nextId: int

    /** Every id assigned so far. */
    ghost var issued: set<int>

    ghost predicate Valid()
      reads this
    {
      TableInvariant(rows, nextId, issued)
    }

    /** A fresh, empty table (`CREATE TABLE IF NOT EXISTS` on a new file). */
    constructor (key: string)
      ensures Valid()
      ensures apiKey == key && rows == map[] && nextId == 1 && issued == {}
    {
      apiKey := key;
      issued := {};
      rows := map[];
      nextId := 1;
    }

    /** GET /metrics, which needs no key: the number of rows. */
    method Metrics() returns (r: Response)
      ensures r.status == OK && r.body == CountBody(|rows|)
    {
      r := Response(OK, CountBody(|rows|));
    }

    /** GET /products: every row, newest id first. */
    method List(key: Option<string>) returns (r: Response)
      requires Valid()
      ensures !Authorized(key, apiKey) ==> r == Fail(Unauthorized)
      ensures Authorized(key, apiKey) ==> r.status == OK && r.body.ListBody? && NewestFirst(r.body.items, rows)
    {
      if !Authorized(key, apiKey) {
        return Fail(Unauthorized);
      }
      // Scan the ids downward from the newest one ever assigned, as the
      // table's index on id is read backwards for the descending sort.
      var s: seq<Product> := [];
      var k := nextId - 1;
      while k >= 1
        invariant 0 <= k < nextId
        invariant forall i, j :: 0 <= i < j < |s| ==> s[i].id > s[j].id
        invariant forall i :: 0 <= i < |s| ==> k < s[i].id && s[i].id in rows && rows[s[i].id] == s[i]
        invariant forall id :: id in rows && k < id ==> Lists(s, id)
      {
        if k in rows {
          ListsExtend(s, rows[k]);
          s := s + [rows[k]];
        }
        k := k - 1;
      }
      r := Response(OK, ListBody(s));
    }

    /** GET /products/{pid}: the stored row, or 404. */
    method Get(key: Option<string>, pid: nat) returns (r: Response)
      requires Valid()
      ensures !Authorized(key, apiKey) ==> r == Fail(Unauthorized)
      ensures Authorized(key, apiKey) && pid !in rows ==> r == Fail(NotFound)
      ensures Authorized(key, apiKey) && pid in rows ==> r == Response(OK, RowBody(rows[pid]))
      ensures r.status == OK ==> r.body.row.id == pid && WellFormed(r.body.row)
    {
      if !Authorized(key, apiKey) {
        return Fail(Unauthorized);
      }
      if pid !in rows {
        return Fail(NotFound);
      }
      r := Response(OK, RowBody(rows[pid]));
    }

    /** POST /products: validate, then insert under a fresh id and answer 201
        with the stored row. */
    method Create(key: Option<string>, p: Payload, now: Timestamp) returns (r: Response)
      requires Valid()
      modifies this
      ensures Valid()
      ensures !Authorized(key, apiKey) ==> r == Fail(Unauthorized) && unchanged(this)
      ensures Authorized(key, apiKey) && !Acceptable(CreateFields(p)) ==> r == Fail(InvalidPayload) && unchanged(this)
      ensures Authorized(key, apiKey) && Acceptable(CreateFields(p)) ==>
                var row := RowOf(old(nextId), CreateFields(p), now);
                && r == Response(CREATED, RowBody(row))
                && rows == old(rows)[old(nextId) := row]
                && nextId == old(nextId) + 1
      ensures r.status == CREATED ==>
                && r.body.row.id !in old(issued)
                && (forall k :: k in old(rows) ==> k < r.body.row.id)
                && |rows| == |old(rows)| + 1
                && issued == old(issued) + {r.body.row.id}
    {
      if !Authorized(key, apiKey) {
        return Fail(Unauthorized);
      }
      var f := CreateFields(p);
      if !Acceptable(f) {
        return Fail(InvalidPayload);
      }
      var row := RowOf(nextId, f, now);
      InsertKeepsInvariant(rows, nextId, issued, row);
      rows := rows[nextId := row];
      nextId := nextId + 1;
      issued := issued + {row.id};
      r := Response(CREATED, RowBody(row));
    }

    /** PUT /products/{pid}: 404 for a missing row (before any validation),
        otherwise merge the payload into the stored row, validate, and
        rewrite name, price and stock only. */
    method Update(key: Option<string>, pid: nat, p: Payload) returns (r: Response)
      requires Valid()
      modifies this
      ensures Valid()
      ensures !Authorized(key, apiKey) ==> r == Fail(Unauthorized) && unchanged(this)
      ensures Authorized(key, apiKey) && pid !in old(rows) ==> r == Fail(NotFound) && unchanged(this)
      ensures Authorized(key, apiKey) && pid in old(rows) && !Acceptable(UpdateFields(p, old(rows)[pid])) ==>
                r == Fail(InvalidPayload) && unchanged(this)
      ensures Authorized(key, apiKey) && pid in old(rows) && Acceptable(UpdateFields(p, old(rows)[pid])) ==>
                var was := old(rows)[pid];
                var row := RowOf(pid, UpdateFields(p, was), was.createdAt);
                && r == Response(OK, RowBody(row))
                && rows == old(rows)[pid := row]
                && nextId == old(nextId)
      ensures rows.Keys == old(rows).Keys && nextId == old(nextId) && issued == old(issued)
      ensures forall k :: k in old(rows) ==> rows[k].id == k && rows[k].createdAt == old(rows)[k].createdAt
    {
      if !Authorized(key, apiKey) {
        return Fail(Unauthorized);
      }
      if pid !in rows {
        return Fail(NotFound);
      }
      var was := rows[pid];
      var f := UpdateFields(p, was);
      if !Acceptable(f) {
        return Fail(InvalidPayload);
      }
      var row := RowOf(pid, f, was.createdAt);
      ReplaceKeepsInvariant(rows, nextId, issued, row);
      rows := rows[pid := row];
      r := Response(OK, RowBody(row));
    }

    /** DELETE /products/{pid}: remove the row, or 404 when none matched. The
        counter is left alone, so the id is never handed out again. */
    method Delete(key: Option<string>, pid: nat) returns (r: Response)
      requires Valid()
      modifies this
      ensures Valid()
      ensures !Authorized(key, apiKey) ==> r == Fail(Unauthorized) && unchanged(this)
      ensures Authorized(key, apiKey) && pid !in old(rows) ==> r == Fail(NotFound) && unchanged(this)
      ensures Authorized(key, apiKey) && pid in old(rows) ==>
                && r == Response(OK, DeletedBody(pid))
                && rows == old(rows) - {pid}
                && nextId == old(nextId)
      ensures Authorized(key, apiKey) ==> pid !in rows
      ensures nextId == old(nextId) && issued == old(issued)
    {
      if !Authorized(key, apiKey) {
        return Fail(Unauthorized);
      }
      if pid !in rows {
        return Fail(NotFound);
      }
      RemoveKeepsInvariant(rows, nextId, issued, pid);
      rows := rows - {pid};
      r := Response(OK, DeletedBody(pid));
    }
  }

  /** From an empty table, a widget (name "Widget", price 9.99, stock 5) is
      created under id 1 and read back; a read without the key is refused. */
  method ExampleCreate()
  {
    var store := new ProductStore("devkey");
    var widget := Payload(Some("Widget"), Some(9.99), Some(5.0));
    TrimOfTrimmed("Widget");
    TruncateIntegral(5);
    assert CreateFields(widget) == Fields("Widget", 9.99, 5);
    var r := store.Create(Some("devkey"), widget, "t0");
    assert r == Response(CREATED, RowBody(Product(1, "Widget", 9.99, 5, "t0")));

    r := store.Get(None, 1);
    assert r == Fail(Unauthorized);
    r := store.Get(Some("devkey"), 1);
    assert r == Response(OK, RowBody(Product(1, "Widget", 9.99, 5, "t0")));
  }

  /** Deleting twice reports 404 the second time, and the next create does
      not reuse the deleted id. */
  method ExampleDelete()
  {
    var store := new ProductStore("devkey");
    var key := Some("devkey");

    var widget := Payload(Some("Widget"), None, None);
    TrimOfTrimmed("Widget");
    assert CreateFields(widget) == Fields("Widget", 0.0, 0);
    var r := store.Create(key, widget, "t0");
    assert r.status == CREATED && r.body.row.id == 1;
    assert store.nextId == 2;

    r := store.Delete(key, 1);
    assert r == Response(OK, DeletedBody(1));
    r := store.Delete(key, 1);
    assert r == Fail(NotFound);

    r := store.Create(key, widget, "t1");
    assert r.status == CREATED && r.body.row.id == 2;
  }
}
