/** What a handler makes of a request before it touches the table: the
    API-key gate, the defaults for absent payload fields, and the validation
    rule applied to every write. */
module Request {
  import opened Text
  import opened Products

  datatype Option<T> = None | Some(value: T)

  /** A decoded JSON payload. For `name`, `None` stands for a missing key and
      for JSON `null` alike; for `price` and `stock`, `None` is a missing key.
      Numbers arrive as exact reals (`stock` too, since a JSON number may
      carry a fraction). */
  datatype Payload = Payload(name: Option<string>, price: Option<real>, stock: Option<real>)

  /** The values a write would store, before validation. */
  datatype Fields = Fields(name: string, price: real, stock: int)

  /** The `require_key` gate: the `X-API-KEY` header must be present and equal
      to the configured key, character for character. */
  predicate Authorized(header: Option<string>, apiKey: string) {
    header == Some(apiKey)
  }

  /** Python's `int(x)` on a float: truncation toward zero. */
  function Truncate(x: real): (n: int)
    ensures x >= 0.0 ==> n as real <= x < n as real + 1.0
    ensures x < 0.0 ==> n as real - 1.0 < x <= n as real
  {
    if x >= 0.0 then x.Floor else -((-x).Floor)
  }

  /** Python's `value or fallback` on a name: a missing, `null` or empty name
      is falsy and yields the fallback. */
  function NameOr(name: Option<string>, fallback: string): string {
    if name.Some? && name.value != "" then name.value else fallback
  }

  /** The stock a write stores: the truncated value sent, or `default` (an
      integer already) when none was sent. */
  function StockOr(stock: Option<real>, default: int): int {
    match stock
    case None => default
    case Some(x) => Truncate(x)
  }

  /** The values `create_product` computes: the stripped name (empty when
      absent), the price defaulting to 0 and the truncated stock defaulting
      to 0. */
  function CreateFields(p: Payload): Fields {
    Fields(Trim(NameOr(p.name, "")), match p.price case None => 0.0 case Some(x) => x, StockOr(p.stock, 0))
  }

  /** The values `update_product` computes: each field falls back to what is
      stored in `row`. */
  function UpdateFields(p: Payload, row: Product): Fields {
    Fields(Trim(NameOr(p.name, row.name)), match p.price case None => row.price case Some(x) => x,
           StockOr(p.stock, row.stock))
  }

  /** The validation rule of both writes: an empty name, a negative price or
      a negative stock is refused. */
  predicate Acceptable(f: Fields) {
    f.name != [] && f.price >= 0.0 && f.stock >= 0
  }

  /** The row a write stores: `f` under the given id and creation time. */
  function RowOf(id: int, f: Fields, createdAt: Timestamp): (p: Product)
    ensures Acceptable(f) && Trimmed(f.name) ==> WellFormed(p)
  {
    Product(id, f.name, f.price, f.stock, createdAt)
  }

  /** Because `int()` truncates toward zero, a stock value passes the
      `stock < 0` test exactly when it is above -1 (so -0.5 is stored as 0). */
  lemma StockAcceptedIff(x: real)
    ensures Truncate(x) >= 0 <==> x > -1.0
  {
    if x < 0.0 && x > -1.0 {
      assert Truncate(x) as real > -1.0;
    }
  }

  /** An integral stock value survives `int()` unchanged. */
  lemma TruncateIntegral(n: int)
    ensures Truncate(n as real) == n
  {
  }

  /** Create rejects exactly the payloads whose name is missing or all
      whitespace, whose price is negative or whose stock is -1 or below. */
  lemma CreateAcceptedIff(p: Payload)
    ensures Acceptable(CreateFields(p)) <==>
            && p.name.Some? && !AllSpace(p.name.value)
            && (p.price.None? || p.price.value >= 0.0)
            && (p.stock.None? || p.stock.value > -1.0)
  {
    if p.stock.Some? { StockAcceptedIff(p.stock.value); }
  }

  /** A well-formed product sent whole to create is stored exactly as sent. */
  lemma CreateRoundTrip(name: string, price: real, stock: int)
    requires WellFormed(Product(0, name, price, stock, ""))
    ensures CreateFields(Payload(Some(name), Some(price), Some(stock as real))) == Fields(name, price, stock)
  {
    TrimOfTrimmed(name);
    TruncateIntegral(stock);
  }

  /** Update keeps every field the payload leaves out: a missing, `null` or
      empty name keeps the stored name exactly, a missing price or stock the
      stored price or stock. */
  lemma UpdateKeepsUnsent(p: Payload, row: Product)
    requires WellFormed(row)
    ensures (p.name.None? || p.name == Some("")) ==> UpdateFields(p, row).name == row.name
    ensures p.price.None? ==> UpdateFields(p, row).price == row.price
    ensures p.stock.None? ==> UpdateFields(p, row).stock == row.stock
  {
    TrimOfTrimmed(row.name);
  }

  /** An update that sends nothing is accepted and rewrites the row as it was. */
  lemma EmptyUpdateIsIdentity(row: Product)
    requires WellFormed(row)
    ensures var f := UpdateFields(Payload(None, None, None), row);
            Acceptable(f) && RowOf(row.id, f, row.createdAt) == row
  {
    UpdateKeepsUnsent(Payload(None, None, None), row);
  }

  /** An update that sends only a whole stock count is accepted and changes
      the stock alone. */
  lemma RestockOnlyChangesStock(row: Product, n: nat)
    requires WellFormed(row)
    ensures var f := UpdateFields(Payload(None, None, Some(n as real)), row);
            Acceptable(f) && f == Fields(row.name, row.price, n)
  {
    UpdateKeepsUnsent(Payload(None, None, Some(n as real)), row);
    TruncateIntegral(n);
  }

  /** A non-empty name made only of whitespace is not "absent": Python's `or`
      keeps it, `strip()` empties it, and the update is refused whatever else
      the payload sends and whatever the stored row holds. */
  lemma BlankNameRejected(p: Payload, row: Product)
    requires p.name.Some? && p.name.value != "" && AllSpace(p.name.value)
    ensures !Acceptable(UpdateFields(p, row))
  {
    assert NameOr(p.name, row.name) == p.name.value;
  }

  /** Update rejects exactly the payloads that send a non-empty all-whitespace
      name, a negative price or a stock of -1 or below. */
  lemma UpdateAcceptedIff(p: Payload, row: Product)
    requires WellFormed(row)
    ensures Acceptable(UpdateFields(p, row)) <==>
            && (p.name.None? || p.name.value == "" || !AllSpace(p.name.value))
            && (p.price.None? || p.price.value >= 0.0)
            && (p.stock.None? || p.stock.value > -1.0)
  {
    UpdateKeepsUnsent(p, row);
    if p.stock.Some? { StockAcceptedIff(p.stock.value); }
  }
}
