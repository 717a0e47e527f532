/**
 * ProductsService: a product catalogue over one table, with soft delete.
 * The service extends the Prisma client, so the table is state of the
 * service object itself; here it is the field `rows`.
 */
module Products {
  import opened Wrappers
  import opened Table
  import Catalog

  datatype Pagination = Pagination(page: int, limit: int, totalPages: nat, lastPage: nat)

  /** What `findAll` returns: one page of available products and the paging figures. */
  datatype PageResult = PageResult(data: seq<Product>, pagination: Pagination)

  class ProductsService {
    /** The `product` table of the inherited Prisma client. */
    var rows: Rows

    ghost predicate Valid()
      reads this
    {
      WellFormed(rows)
    }

    constructor (table: Rows)
      requires WellFormed(table)
      ensures Valid() && rows == table
    {
      rows := table;
    }

    /**
     * `this.product.update({ where: { id, available: true if availableOnly }, data })`:
     * patches the selected row, or fails with P2025 when no row matches.
     */
    method ProductUpdate(id: int, availableOnly: bool, patch: Patch) returns (r: Result<Product, DbError>)
      requires Valid()
      modifies this
      ensures Valid()
      ensures old(Selects(rows, id, availableOnly)) ==>
        r == Success(Apply(old(rows)[id], patch)) && rows == old(rows)[id := r.value]
      ensures !old(Selects(rows, id, availableOnly)) ==>
        r == Failure(KnownRequest(RecordNotFound)) && rows == old(rows)
    {
      if Selects(rows, id, availableOnly) {
        var p := Apply(rows[id], patch);
        rows := rows[id := p];
        r := Success(p);
      } else {
        r := Failure(KnownRequest(RecordNotFound));
      }
    }

    /** `create`: stores the attributes as a new available product under an id the table does not hold. */
    method Create(data: Attributes) returns (p: Product)
      requires Valid()
      modifies this
      ensures Valid()
      ensures p.id !in old(rows)
      ensures Catalog.Create(old(rows), p.id, data) == Catalog.Step(Success(p), rows)
    {
      FreshIdExists(rows);
      var id :| id !in rows;
      p := Product(id, true, data);
      rows := rows[id := p];
    }

    /**
     * `findAll`: counts the available products, derives `lastPage`, and
     * returns the page that skips `(page - 1) * limit` of them.
     */
    method FindAll(page: int, limit: int) returns (r: PageResult)
      requires Valid()
      requires page >= 1 && limit >= 1
      ensures r.pagination.page == page && r.pagination.limit == limit
      ensures r.pagination.totalPages == |AvailableIds(rows)|
      ensures r.pagination.lastPage == Catalog.CeilDiv(r.pagination.totalPages, limit)
      ensures |r.data| <= limit
      ensures forall p :: p in r.data ==> p.id in rows && rows[p.id] == p && p.available
      ensures r.data == Window(AvailableRows(rows), (page - 1) * limit, limit)
      ensures (page - 1) * limit < |AvailableRows(rows)| ==>
        |r.data| == if limit <= |AvailableRows(rows)| - (page - 1) * limit then limit
                    else |AvailableRows(rows)| - (page - 1) * limit
      ensures r.data == [] <==> page > r.pagination.lastPage
      ensures page < r.pagination.lastPage ==> |r.data| == limit
    {
      var totalPages := Count(rows);
      var lastPage := Catalog.CeilDiv(totalPages, limit);
      var skip: nat := (page - 1) * limit;
      var data := FindMany(rows, skip, limit);
      AvailableRowsSpec(rows);
      Catalog.PageOfListing(AvailableRows(rows), page, limit);
      FindManyOnlyAvailable(rows, skip, limit);
      r := PageResult(data, Pagination(page, limit, totalPages, lastPage));
    }

    /** `findOne`: the product with that id if it is available, NotFound otherwise. */
    method FindOne(id: int) returns (r: Result<Product, Catalog.Error>)
      ensures r == Catalog.FindOne(rows, id)
      ensures r.Success? <==> id in rows && rows[id].available
      ensures r.Success? ==> r.value == rows[id]
      ensures r.Failure? ==> r.error == Catalog.NotFound(Catalog.NotFoundMessage(id))
    {
      var product := FindUnique(rows, id, true);
      if product.None? {
        return Failure(Catalog.NotFound(Catalog.NotFoundMessage(id)));
      }
      return Success(product.value);
    }

    /** `update`: refuses an empty payload, then merges it into the row with that id. */
    method Update(id: int, dto: Attributes) returns (r: Result<Product, Catalog.Error>)
      requires Valid()
      modifies this
      ensures Valid()
      ensures Catalog.Step(r, rows) == Catalog.Update(old(rows), id, dto)
    {
      if |dto| == 0 {
        return Failure(Catalog.BadRequest(Catalog.NoDataProvided));
      }
      var written := ProductUpdate(id, false, Merge(dto));
      match written {
        case Success(p) => r := Success(p);
        case Failure(e) => r := Catalog.HandleDBError(e);
      }
    }

    /** `remove`: flips `available` from true to false on an available row. */
    method Remove(id: int) returns (r: Result<Product, Catalog.Error>)
      requires Valid()
      modifies this
      ensures Valid()
      ensures Catalog.Step(r, rows) == Catalog.Remove(old(rows), id)
    {
      var written := ProductUpdate(id, true, SetAvailable(false));
      match written {
        case Success(p) => r := Success(p);
        case Failure(e) => r := Catalog.HandleDBError(e);
      }
    }
  }
}
