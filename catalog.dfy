/**
 * What ProductsService promises its callers, stated on values: the error
 * kinds it raises, how it classifies database errors, the pagination
 * arithmetic of `findAll`, and each operation as a step from one product
 * table to the next. The class in module Products is proved to follow these
 * steps; the lemmas here are about sequences of them.
 */
module Catalog {
  import opened Wrappers
  import opened Table
  import Decimal

  /** NestJS exceptions the service throws, by kind and message. */
  datatype Error = NotFound(msg: string) | BadRequest(msg: string) | Internal(msg: string)

  const NoDataProvided := "No data provided"
  const InvalidDataProvided := "Invalid data provided"
  const CheckServerLogs := "Check server logs for more info"

  /** `Product #<id> not found`: the id can be read back from between the fixed words. */
  function NotFoundMessage(id: int): (m: string)
    ensures |m| > 19 && m[..9] == "Product #" && m[|m| - 10..] == " not found"
    ensures Decimal.IsNumeral(m[9..|m| - 10]) && Decimal.ToInt(m[9..|m| - 10]) == id
  ensures Decimal.Canonical(m[9..|m| - 10])
  {
    var digits := Decimal.FromInt(id);
    var m := "Product #" + digits + " not found";
    Decimal.RoundTrip(id);
    assert m[9..|m| - 10] == digits;
    m
  }

  /** Two ids never share a not-found message. */
  lemma NotFoundMessageInjective(a: int, b: int)
    requires NotFoundMessage(a) == NotFoundMessage(b)
    ensures a == b
  {
    var prefix, suffix := "Product #", " not found";
    var m := NotFoundMessage(a);
    assert Decimal.FromInt(a) == m[|prefix|..|m| - |suffix|];
    assert Decimal.FromInt(b) == m[|prefix|..|m| - |suffix|];
    Decimal.FromIntInjective(a, b);
  }

  /**
   * `handleDBError`: never returns normally. "Record not found" (P2025) is the
   * caller's fault; every other error is reported with a fixed message that
   * does not depend on the error's details.
   */
  function HandleDBError(e: DbError): (r: Result<Product, Error>)
    ensures r.Failure?
    ensures r.error.BadRequest? <==> e == KnownRequest(RecordNotFound)
    ensures r.error.BadRequest? ==> r.error.msg == InvalidDataProvided
    ensures !r.error.BadRequest? ==> r.error == Internal(CheckServerLogs)
  {
    if e.KnownRequest? && e.code == RecordNotFound then Failure(BadRequest(InvalidDataProvided))
    else Failure(Internal(CheckServerLogs))
  }

  // ---------------------------------------------------------------------------
  // Pagination

  /** `Math.ceil(n / d)` on non-negative integers: the least q with n <= q * d. */
  function CeilDiv(n: nat, d: nat): (q: nat)
    requires d >= 1
    ensures n <= q * d
    ensures (q - 1) * d < n || q == 0
    ensures q == 0 <==> n == 0
  {
    var q := (n + d - 1) / d;
    var r := (n + d - 1) % d;
    assert q * d + r == n + d - 1;
    assert (q - 1) * d == q * d - d;
    q
  }

  lemma MulMonotonic(a: int, b: int, c: nat)
    requires a <= b
    ensures a * c <= b * c
  {
  }

  /**
   * Where `total` rows are available, a page of `findAll` starts past them
   * exactly when it lies past `lastPage`, and a page before `lastPage` is full.
   */
  lemma PageEmptyIffPastLast(total: nat, page: int, limit: int)
    requires page >= 1 && limit >= 1
    ensures (page - 1) * limit >= total <==> page > CeilDiv(total, limit)
    ensures page < CeilDiv(total, limit) ==> (page - 1) * limit + limit < total
  {
    var last := CeilDiv(total, limit);
    assert (page - 1) * limit + limit == page * limit;
    if page > last {
      MulMonotonic(last, page - 1, limit);
    } else {
      MulMonotonic(page - 1, last - 1, limit);
      if page < last {
        MulMonotonic(page, last - 1, limit);
      }
    }
  }

  /**
   * The page `findAll` cuts from a listing `s` by skip/take: empty exactly past
   * `lastPage`, and full before it.
   */
  lemma PageOfListing<T>(s: seq<T>, page: int, limit: int)
    requires page >= 1 && limit >= 1
    ensures var w := Window(s, (page - 1) * limit, limit);
      && (w == [] <==> page > CeilDiv(|s|, limit))
      && (page < CeilDiv(|s|, limit) ==> |w| == limit)
  {
    PageEmptyIffPastLast(|s|, page, limit);
  }

  /**
   * Paging covers the listing: the row at position i is shown on page
   * i / limit + 1, which is not past `lastPage`, at position i % limit.
   */
  lemma EveryRowOnItsPage<T>(s: seq<T>, limit: int, i: int)
    requires limit >= 1 && 0 <= i < |s|
    ensures 1 <= i / limit + 1 <= CeilDiv(|s|, limit)
    ensures var page := Window(s, (i / limit) * limit, limit);
      i % limit < |page| && page[i % limit] == s[i]
  {
    var q, r := i / limit, i % limit;
    assert q * limit + r == i;
    PageEmptyIffPastLast(|s|, q + 1, limit);
  }

  // ---------------------------------------------------------------------------
  // Operations as steps of the product table

  /** The outcome of a call: what the caller receives, and the table afterwards. */
  datatype Step = Step(result: Result<Product, Error>, rows: Rows)

  /** `findOne`: only available rows are found. */
  function FindOne(t: Rows, id: int): (r: Result<Product, Error>)
    ensures r.Success? <==> id in t && t[id].available
    ensures r.Success? ==> r.value == t[id] && r.value.available
    ensures r.Failure? ==> r.error == NotFound(NotFoundMessage(id))
  {
    if id in t && t[id].available then Success(t[id]) else Failure(NotFound(NotFoundMessage(id)))
  }

  /** `create`, storing the attributes under `id`, an id the table does not yet hold. */
  function Create(t: Rows, id: int, data: Attributes): (s: Step)
    requires WellFormed(t) && id !in t
    ensures WellFormed(s.rows)
    ensures s.rows.Keys == t.Keys + {id}
    ensures s.result == Success(s.rows[id])
    ensures s.rows[id].available && s.rows[id].attrs == data
    ensures forall k :: k in t ==> s.rows[k] == t[k]
  {
    var p := Product(id, true, data);
    Step(Success(p), t[id := p])
  }

  /**
   * `update`: an empty payload is refused before the table is touched; the
   * fields are merged into the row with that id whether or not it is
   * available; a missing id is reported through `handleDBError` (P2025).
   */
  function Update(t: Rows, id: int, dto: Attributes): (s: Step)
    requires WellFormed(t)
    ensures WellFormed(s.rows)
    ensures s.rows.Keys == t.Keys
    ensures s.result.Success? <==> |dto| > 0 && id in t
    ensures s.result.Failure? ==> s.rows == t
    ensures s.result.Failure? ==>
      s.result.error == BadRequest(if |dto| == 0 then NoDataProvided else InvalidDataProvided)
    ensures s.result.Success? ==>
      var p := s.result.value;
      && p == s.rows[id]
      && p.available == t[id].available
      && p.attrs.Keys == t[id].attrs.Keys + dto.Keys
      && (forall f :: f in dto ==> p.attrs[f] == dto[f])
      && (forall f :: f in t[id].attrs && f !in dto ==> p.attrs[f] == t[id].attrs[f])
    ensures forall k :: k in t && k != id ==> s.rows[k] == t[k]
  {
    if |dto| == 0 then Step(Failure(BadRequest(NoDataProvided)), t)
    else if id in t then
      var p := t[id].(attrs := t[id].attrs + dto);
      Step(Success(p), t[id := p])
    else Step(Failure(BadRequest(InvalidDataProvided)), t)
  }

  /**
   * `remove`: a soft delete. Only an available row can be removed; it is
   * returned with `available = false` and nothing else changes.
   */
  function Remove(t: Rows, id: int): (s: Step)
    requires WellFormed(t)
    ensures WellFormed(s.rows)
    ensures s.rows.Keys == t.Keys
    ensures s.result.Success? <==> id in t && t[id].available
    ensures s.result.Failure? ==> s.rows == t && s.result.error == BadRequest(InvalidDataProvided)
    ensures s.result.Success? ==>
      && s.result.value == s.rows[id]
      && !s.rows[id].available
      && s.rows[id].attrs == t[id].attrs
    ensures forall k :: k in t && k != id ==> s.rows[k] == t[k]
  {
    if id in t && t[id].available then
      var p := t[id].(available := false);
      Step(Success(p), t[id := p])
    else Step(Failure(BadRequest(InvalidDataProvided)), t)
  }

  // ---------------------------------------------------------------------------
  // Properties of sequences of operations

  /** `findOne` finds exactly the products that `findAll` can list. */
  lemma FindOneAgreesWithListing(t: Rows, id: int)
    requires WellFormed(t)
    ensures FindOne(t, id).Success? <==> exists p :: p in AvailableRows(t) && p.id == id
    ensures FindOne(t, id).Success? ==> FindOne(t, id).value in AvailableRows(t)
  {
    AvailableRowsSpec(t);
    if id in t && t[id].available {
      assert t[id] in AvailableRows(t);
    }
  }

  /** A created product is found at once, and adds one to the count. */
  lemma CreateThenFindOne(t: Rows, id: int, data: Attributes)
    requires WellFormed(t) && id !in t
    ensures FindOne(Create(t, id, data).rows, id) == Success(Product(id, true, data))
    ensures Count(Create(t, id, data).rows) == Count(t) + 1
  {
    var t' := Create(t, id, data).rows;
    assert AvailableIds(t') == AvailableIds(t) + {id};
  }

  /**
   * After a successful `remove` the product is gone from every read path,
   * the count drops by one, and removing it again fails.
   */
  lemma RemoveHidesProduct(t: Rows, id: int)
    requires WellFormed(t) && Remove(t, id).result.Success?
    ensures var t' := Remove(t, id).rows;
      && FindOne(t', id) == Failure(NotFound(NotFoundMessage(id)))
      && (forall p :: p in AvailableRows(t') ==> p.id != id)
      && Count(t') == Count(t) - 1
      && Remove(t', id) == Step(Failure(BadRequest(InvalidDataProvided)), t')
  {
    var t' := Remove(t, id).rows;
    AvailableRowsSpec(t');
    RemoveCount(t, id);
  }

  lemma RemoveCount(t: Rows, id: int)
    requires WellFormed(t) && Remove(t, id).result.Success?
    ensures Count(Remove(t, id).rows) == Count(t) - 1
  {
    var t' := Remove(t, id).rows;
    var before, after := AvailableIds(t), AvailableIds(t');
    forall k ensures k in before <==> k in after || k == id {
      if k != id {
        assert k in t <==> k in t';
      }
    }
    assert before == after + {id};
    assert id !in after;
  }

  /** `update` never changes which products are listed or counted. */
  lemma UpdateKeepsListing(t: Rows, id: int, dto: Attributes)
    requires WellFormed(t)
    ensures AvailableIds(Update(t, id, dto).rows) == AvailableIds(t)
    ensures Count(Update(t, id, dto).rows) == Count(t)
  {
  }

  /**
   * `update` reaches a removed product, which stays removed: it is changed
   * but still not found.
   */
  lemma UpdateAfterRemove(t: Rows, id: int, dto: Attributes)
    requires WellFormed(t) && Remove(t, id).result.Success? && |dto| > 0
    ensures var t' := Remove(t, id).rows;
      var u := Update(t', id, dto);
      && u.result.Success?
      && !u.result.value.available
      && FindOne(u.rows, id).Failure?
  {
  }

  /** A table whose only available row is `id` lists just that row. */
  lemma ListingOfOne(t: Rows, id: int)
    requires WellFormed(t) && AvailableIds(t) == {id}
    ensures AvailableRows(t) == [t[id]]
  {
    var listed := AvailableRows(t);
    AvailableRowsSpec(t);
    assert id in AvailableIds(t);
    assert listed[0] in listed;
  }

  /**
   * The life of one product in an empty catalogue: created and listed alone
   * on page 1 of 1; once removed it is neither listed nor found, yet an
   * update still reaches it and leaves it removed.
   */
  lemma LifecycleFromEmpty(id: int, data: Attributes, dto: Attributes, limit: int)
    requires |dto| > 0 && limit >= 1
    ensures
      var created := Create(map[], id, data);
      var removed := Remove(created.rows, id);
      var updated := Update(removed.rows, id, dto);
      && created.result == Success(Product(id, true, data))
      && Window(AvailableRows(created.rows), 0, limit) == [Product(id, true, data)]
      && Count(created.rows) == 1 && CeilDiv(1, limit) == 1
      && removed.result == Success(Product(id, false, data))
      && AvailableRows(removed.rows) == [] && Count(removed.rows) == 0
      && FindOne(removed.rows, id) == Failure(NotFound(NotFoundMessage(id)))
      && updated.result == Success(Product(id, false, data + dto))
  {
    var empty: Rows := map[];
    var created := Create(empty, id, data);
    var removed := Remove(created.rows, id);
    assert AvailableIds(created.rows) == {id};
    ListingOfOne(created.rows, id);
    assert AvailableIds(removed.rows) == {};
    AvailableRowsSpec(removed.rows);
  }
}
