/** A row of the `products` table, the responses the handlers send, and the
    order in which the listing endpoint returns rows. */
module Products {
  import opened Text

  /** The creation time; the service writes an ISO-8601 string, which the
      model never inspects. */
  type Timestamp = string

  /** One row of `products(id, name, price, stock, created_at)`. */
  datatype Product = Product(id: int, name: string, price: real, stock: int, createdAt: Timestamp)

  /** The row invariant: the name is non-empty and stripped, the price and
      the stock are non-negative (the price through the table's
      `CHECK(price >= 0)` as well as through validation). */
  predicate WellFormed(p: Product) {
    p.name != [] && Trimmed(p.name) && p.price >= 0.0 && p.stock >= 0
  }

  /** The three errors a handler reports, as `{"error": Message(e)}`. */
  datatype Failure = Unauthorized | InvalidPayload | NotFound

  function Message(e: Failure): string {
    match e
    case Unauthorized => "unauthorized"
    case InvalidPayload => "invalid-payload"
    case NotFound => "not-found"
  }

  function StatusOf(e: Failure): int {
    match e
    case Unauthorized => UNAUTHORIZED
    case InvalidPayload => BAD_REQUEST
    case NotFound => NOT_FOUND
  }

  /** Each failure has its own message and its own status code, so a client
      can tell the three apart from either one. */
  lemma FailureDistinct(e1: Failure, e2: Failure)
    ensures Message(e1) == Message(e2) <==> e1 == e2
    ensures StatusOf(e1) == StatusOf(e2) <==> e1 == e2
  {
  }

  /** The JSON body of a response. */
  datatype Body =
    | ErrorBody(error: Failure)
    | RowBody(row: Product)
    | ListBody(items: seq<Product>)
    | DeletedBody(deleted: int)
    | CountBody(products: int)

  datatype Response = Response(status: int, body: Body)

  const OK := 200
  const CREATED := 201
  const BAD_REQUEST := 400
  const UNAUTHORIZED := 401
  const NOT_FOUND := 404

  /** The response reporting `e`. */
  function Fail(e: Failure): Response {
    Response(StatusOf(e), ErrorBody(e))
  }

  /** `s` is the table `m` as the listing query returns it, sorted by id
      in descending order: ids strictly decreasing, every element a stored
      row, every stored row present. */
  ghost predicate NewestFirst(s: seq<Product>, m: map<int, Product>) {
    && (forall i, j :: 0 <= i < j < |s| ==> s[i].id > s[j].id)
    && (forall i :: 0 <= i < |s| ==> s[i].id in m && m[s[i].id] == s[i])
    && (forall k :: k in m ==> Lists(s, k))
  }

  /** Some element of `s` carries the id `k`. */
  ghost predicate Lists(s: seq<Product>, k: int) {
    exists i :: 0 <= i < |s| && s[i].id == k
  }

  /** Appending keeps every id listed and lists the new one. */
  lemma ListsExtend(s: seq<Product>, x: Product)
    ensures Lists(s + [x], x.id)
    ensures forall k :: Lists(s, k) ==> Lists(s + [x], k)
  {
    assert (s + [x])[|s|] == x;
    forall k | Lists(s, k) ensures Lists(s + [x], k) {
      var i :| 0 <= i < |s| && s[i].id == k;
      assert (s + [x])[i] == s[i];
    }
  }

  /** The first row of a newest-first listing carries the largest id. */
  lemma NewestFirstHead(s: seq<Product>, m: map<int, Product>)
    requires NewestFirst(s, m) && |s| > 0
    ensures s[0].id in m && forall k :: k in m ==> k <= s[0].id
  {
    forall k | k in m ensures k <= s[0].id {
      var i :| 0 <= i < |s| && s[i].id == k;
      assert i == 0 || s[0].id > s[i].id;
    }
  }

  /** Dropping the first row of a listing lists the table without that row. */
  lemma NewestFirstTail(s: seq<Product>, m: map<int, Product>)
    requires NewestFirst(s, m) && |s| > 0
    ensures NewestFirst(s[1..], m - {s[0].id})
  {
    var t, m' := s[1..], m - {s[0].id};
    forall k | k in m' ensures Lists(t, k) {
      var i :| 0 <= i < |s| && s[i].id == k;
      assert i != 0 && t[i - 1].id == k;
    }
    forall i | 0 <= i < |t| ensures t[i].id in m' && m'[t[i].id] == t[i] {
      assert t[i] == s[i + 1] && s[0].id > s[i + 1].id;
    }
  }

  /** A listing has exactly as many rows as the table, so the listing and
      the metrics count agree. */
  lemma {:induction false} NewestFirstLength(s: seq<Product>, m: map<int, Product>)
    requires NewestFirst(s, m)
    ensures |s| == |m|
  {
    if |s| == 0 {
      forall k ensures k !in m { assert !Lists(s, k); }
      assert m.Keys == {};
    } else {
      NewestFirstTail(s, m);
      NewestFirstLength(s[1..], m - {s[0].id});
    }
  }

  /** The newest-first order is total: a table has exactly one listing. */
  lemma {:induction false} NewestFirstUnique(s1: seq<Product>, s2: seq<Product>, m: map<int, Product>)
    requires NewestFirst(s1, m) && NewestFirst(s2, m)
    ensures s1 == s2
  {
    NewestFirstLength(s1, m);
    NewestFirstLength(s2, m);
    if |s1| > 0 {
      NewestFirstHead(s1, m);
      NewestFirstHead(s2, m);
      assert s1[0].id == s2[0].id;
      NewestFirstTail(s1, m);
      NewestFirstTail(s2, m);
      NewestFirstUnique(s1[1..], s2[1..], m - {s1[0].id});
      assert s1 == [s1[0]] + s1[1..];
      assert s2 == [s2[0]] + s2[1..];
    }
  }
}
