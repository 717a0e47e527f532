/**
 * The `product` table of the Prisma client that ProductsService inherits,
 * modelled in memory: a finite map from id to row, and the read primitives
 * the service issues against it (`findUnique`, `count`, `findMany`).
 */
module Table {
  import opened Wrappers

  /** A value of a product column other than `id` and `available` (name, price, ...). */
  datatype Value = Text(text: string) | Number(number: real) | Flag(flag: bool)

  /** The product's attribute columns, opaque to the service. */
  type Attributes = map<string, Value>

  datatype Product = Product(id: int, available: bool, attrs: Attributes)

  type Rows = map<int, Product>

  /** Every row is stored under its own id. */
  ghost predicate WellFormed(t: Rows) {
    forall id :: id in t ==> t[id].id == id
  }

  /** Errors the Prisma client raises: a known request error carries a code. */
  datatype DbError = KnownRequest(code: string) | Other(detail: string)

  /** Prisma's code for "an operation depended on a record that was not found". */
  const RecordNotFound := "P2025"

  /** The `data` of an `update` call: merge attribute columns, or set `available`. */
  datatype Patch = Merge(fields: Attributes) | SetAvailable(available: bool)

  function Apply(p: Product, patch: Patch): (q: Product)
    ensures q.id == p.id
  {
    match patch
    case Merge(fields) => p.(attrs := p.attrs + fields)
    case SetAvailable(b) => p.(available := b)
  }

  /** The `where` of a unique query: the id, and `available: true` when asked for. */
  predicate Selects(t: Rows, id: int, availableOnly: bool) {
    id in t && (availableOnly ==> t[id].available)
  }

  /** `findUnique({ where })`. */
  function FindUnique(t: Rows, id: int, availableOnly: bool): (r: Option<Product>)
    ensures r.Some? <==> id in t && (availableOnly ==> t[id].available)
    ensures r.Some? ==> r.value == t[id] && (availableOnly ==> r.value.available)
  {
    if Selects(t, id, availableOnly) then Some(t[id]) else None
  }

  /** Ids of the rows with `available = true`. */
  function AvailableIds(t: Rows): set<int> {
    set id | id in t && t[id].available
  }

  /** `count({ where: { available: true } })`. */
  function Count(t: Rows): (c: nat)
    ensures c <= |t|
    ensures c == 0 <==> forall id :: id in t ==> !t[id].available
  {
    CountBounds(t);
    |AvailableIds(t)|
  }

  lemma CountBounds(t: Rows)
    ensures |AvailableIds(t)| <= |t|
    ensures |AvailableIds(t)| == 0 <==> forall id :: id in t ==> !t[id].available
  {
    var ids := AvailableIds(t);
    SubsetSize(ids, t.Keys);
    if ids == {} {
      forall id | id in t ensures !t[id].available {
        assert id !in ids;
      }
    } else {
      HasMember(ids);
      var x :| x in ids;
      assert x in t && t[x].available;
    }
  }

  lemma {:induction false} SubsetSize(a: set<int>, b: set<int>)
    requires a <= b
    ensures |a| <= |b|
    decreases b
  {
    if a != {} {
      HasMember(a);
      var x :| x in a;
      SubsetSize(a - {x}, b - {x});
    }
  }

  // ---------------------------------------------------------------------------
  // Row order of `findMany`: the source gives no `orderBy`; the model lists rows
  // by ascending id.

  lemma HasMember(ids: set<int>)
    requires ids != {}
    ensures exists x :: x in ids
  {
    if forall x :: x !in ids {
      assert false;
    }
  }

  lemma {:induction false} MinIdExists(ids: set<int>)
    requires ids != {}
    ensures exists m :: m in ids && forall x :: x in ids ==> m <= x
  {
    HasMember(ids);
    var y :| y in ids;
    if forall x :: x in ids ==> y <= x {
      assert y in ids;
    } else {
      var z :| z in ids && z < y;
      var rest := ids - {y};
      assert z in rest;
      MinIdExists(rest);
      var m :| m in rest && forall x :: x in rest ==> m <= x;
      forall x | x in ids ensures m <= x {
        if x != y {
          assert x in rest;
        }
      }
      assert m in ids;
    }
  }

  function MinId(ids: set<int>): (m: int)
    requires ids != {}
    ensures m in ids && forall x :: x in ids ==> m <= x
  {
    MinIdExists(ids);
    var m :| m in ids && forall x :: x in ids ==> m <= x;
    m
  }

  /** The ids in ascending order: exactly the members of `ids`, each once. */
  function SortedIds(ids: set<int>): (s: seq<int>)
    ensures |s| == |ids|
    ensures forall x :: x in s <==> x in ids
    ensures forall i, j :: 0 <= i < j < |s| ==> s[i] < s[j]
    decreases ids
  {
    if ids == {} then []
    else
      var m := MinId(ids);
      [m] + SortedIds(ids - {m})
  }

  predicate Increasing(ids: seq<int>) {
    forall i, j :: 0 <= i < j < |ids| ==> ids[i] < ids[j]
  }

  /** The available rows among `ids`, in the order of `ids`. */
  function AvailableOf(t: Rows, ids: seq<int>): seq<Product>
    decreases |ids|
  {
    if ids == [] then []
    else (if ids[0] in t && t[ids[0]].available then [t[ids[0]]] else []) + AvailableOf(t, ids[1..])
  }

  /** The rows `findMany({ where: { available: true } })` walks through, by ascending id. */
  function AvailableRows(t: Rows): seq<Product> {
    AvailableOf(t, SortedIds(t.Keys))
  }

  lemma {:induction false} AvailableOfMembers(t: Rows, ids: seq<int>)
    requires WellFormed(t)
    ensures forall p :: p in AvailableOf(t, ids) <==> p.id in ids && p.id in t && t[p.id] == p && p.available
    decreases |ids|
  {
    if ids != [] {
      var h, rest := ids[0], ids[1..];
      AvailableOfMembers(t, rest);
      assert forall x :: x in ids <==> x == h || x in rest;
      if h in t && t[h].available {
        assert AvailableOf(t, ids) == [t[h]] + AvailableOf(t, rest);
      } else {
        assert AvailableOf(t, ids) == AvailableOf(t, rest);
      }
    }
  }

  lemma {:induction false} AvailableOfIncreasing(t: Rows, ids: seq<int>)
    requires WellFormed(t) && Increasing(ids)
    ensures forall i, j :: 0 <= i < j < |AvailableOf(t, ids)| ==> AvailableOf(t, ids)[i].id < AvailableOf(t, ids)[j].id
    decreases |ids|
  {
    if ids != [] {
      var h, rest := ids[0], ids[1..];
      var tail := AvailableOf(t, rest);
      AvailableOfIncreasing(t, rest);
      AvailableOfMembers(t, rest);
      if h in t && t[h].available {
        forall k | 0 <= k < |tail| ensures h < tail[k].id {
          assert tail[k] in tail;
          var i :| 0 <= i < |rest| && rest[i] == tail[k].id;
          assert ids[0] < ids[i + 1];
        }
      }
    }
  }

  /** The available ids among `ids`. */
  function AvailableAmong(t: Rows, ids: seq<int>): set<int> {
    set x | x in ids && x in t && t[x].available
  }

  lemma AvailableAmongSplit(t: Rows, ids: seq<int>)
    requires ids != []
    ensures AvailableAmong(t, ids) ==
      (if ids[0] in t && t[ids[0]].available then {ids[0]} else {}) + AvailableAmong(t, ids[1..])
  {
    var head := if ids[0] in t && t[ids[0]].available then {ids[0]} else {};
    forall x ensures x in AvailableAmong(t, ids) <==> x in head + AvailableAmong(t, ids[1..]) {
      assert x in ids <==> x == ids[0] || x in ids[1..];
    }
  }

  lemma {:induction false} AvailableOfCount(t: Rows, ids: seq<int>)
    requires Increasing(ids)
    ensures |AvailableOf(t, ids)| == |AvailableAmong(t, ids)|
    decreases |ids|
  {
    if ids == [] {
      assert AvailableAmong(t, ids) == {};
    } else {
      var h, rest := ids[0], ids[1..];
      AvailableOfCount(t, rest);
      forall i | 0 <= i < |rest| ensures h < rest[i] {
        assert ids[0] < ids[i + 1];
      }
      assert h !in AvailableAmong(t, rest);
      AvailableAmongSplit(t, ids);
    }
  }

  /**
   * The listing holds exactly the available rows, each once, by ascending id,
   * and its length is what `count` reports.
   */
  lemma AvailableRowsSpec(t: Rows)
    requires WellFormed(t)
    ensures forall p :: p in AvailableRows(t) <==> p.id in t && t[p.id] == p && p.available
    ensures forall i, j :: 0 <= i < j < |AvailableRows(t)| ==> AvailableRows(t)[i].id < AvailableRows(t)[j].id
    ensures |AvailableRows(t)| == Count(t)
  {
    var ids := SortedIds(t.Keys);
    assert AvailableRows(t) == AvailableOf(t, ids);
    AvailableOfMembers(t, ids);
    AvailableOfIncreasing(t, ids);
    AvailableOfCount(t, ids);
    var chosen := AvailableAmong(t, ids);
    assert chosen == AvailableIds(t) by {
      forall x ensures x in chosen <==> x in AvailableIds(t) {
      }
    }
  }

  // ---------------------------------------------------------------------------
  // `skip` / `take`

  /** At most `take` elements of `s`, starting after the first `skip`. */
  function Window<T>(s: seq<T>, skip: nat, take: nat): (w: seq<T>)
    ensures |w| <= take
    ensures skip >= |s| ==> w == []
    ensures skip < |s| ==> |w| == if take <= |s| - skip then take else |s| - skip
    ensures forall i :: 0 <= i < |w| ==> skip + i < |s| && w[i] == s[skip + i]
  {
    if skip >= |s| then []
    else if take <= |s| - skip then s[skip..skip + take]
    else s[skip..]
  }

  /** `findMany({ skip, take, where: { available: true } })`. */
  function FindMany(t: Rows, skip: nat, take: nat): (r: seq<Product>)
    ensures |r| <= take
    ensures skip >= |AvailableRows(t)| ==> r == []
    ensures forall p :: p in r ==> p in AvailableRows(t)
    ensures r == Window(AvailableRows(t), skip, take)
  {
    WindowWithin(AvailableRows(t), skip, take);
    Window(AvailableRows(t), skip, take)
  }

  lemma WindowWithin<T>(s: seq<T>, skip: nat, take: nat)
    ensures forall x :: x in Window(s, skip, take) ==> x in s
  {
  }

  /** Every row `findMany` returns is an available row of the table. */
  lemma FindManyOnlyAvailable(t: Rows, skip: nat, take: nat)
    requires WellFormed(t)
    ensures forall p :: p in FindMany(t, skip, take) ==> p.id in t && t[p.id] == p && p.available
  {
    AvailableRowsSpec(t);
    WindowWithin(AvailableRows(t), skip, take);
  }

  /** Some id is not yet in the table, so `create` can always pick one. */
  lemma FreshIdExists(t: Rows)
    ensures exists id :: id !in t
  {
    var ids := SortedIds(t.Keys);
    if ids == [] {
      assert 0 !in t;
    } else {
      var top := ids[|ids| - 1];
      forall x | x in t ensures x <= top {
        var i :| 0 <= i < |ids| && ids[i] == x;
      }
      assert top + 1 !in t;
    }
  }
}
