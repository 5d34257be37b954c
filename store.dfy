/**
 * The database behind the API handlers, seen through the Prisma calls they make:
 * two tables keyed by id, and the order in which `findMany` lists rows.
 * Ids, timestamps and failures of the database itself are chosen by the caller.
 */
module Store {
  import opened Json

  /** A row of the Form table. */
  datatype FormRecord = FormRecord(id: int, title: string, elements: Json)

  /** A row of the FormResponse table; `createdAt` is the creation time in milliseconds. */
  datatype ResponseRecord = ResponseRecord(id: int, formId: int, responses: Json, createdAt: int)

  ghost predicate FormsKeyed(forms: map<int, FormRecord>) {
    forall k | k in forms :: forms[k].id == k
  }

  ghost predicate ResponsesKeyed(responses: map<int, ResponseRecord>) {
    forall k | k in responses :: responses[k].id == k
  }

  /**
   * In a listing ordered by `rank` descending, row `a` comes before row `b`. Rows of equal
   * rank are listed newest id first.
   */
  predicate Before<V>(m: map<int, V>, rank: V -> int, a: int, b: int)
    requires a in m && b in m
  {
    rank(m[a]) > rank(m[b]) || (rank(m[a]) == rank(m[b]) && a > b)
  }

  predicate IsFirst<V>(m: map<int, V>, rank: V -> int, k: int) {
    k in m && forall j | j in m && j != k :: Before(m, rank, k, j)
  }

  lemma {:induction false} FirstExists<V>(m: map<int, V>, rank: V -> int)
    requires |m| > 0
    ensures exists k :: IsFirst(m, rank, k)
    decreases |m|
  {
    var x := SomeKey(m);
    var rest := m - {x};
    assert rest.Keys == m.Keys - {x};
    if |rest| == 0 {
      assert IsFirst(m, rank, x);
    } else {
      FirstExists(rest, rank);
      var k :| IsFirst(rest, rank, k);
      if Before(m, rank, x, k) {
        forall j | j in m && j != x
          ensures Before(m, rank, x, j)
        {
          if j != k {
            assert Before(rest, rank, k, j);
          }
        }
        assert IsFirst(m, rank, x);
      } else {
        forall j | j in m && j != k
          ensures Before(m, rank, k, j)
        {
          if j != x {
            assert Before(rest, rank, k, j);
          }
        }
        assert IsFirst(m, rank, k);
      }
    }
  }

  lemma FirstUnique<V>(m: map<int, V>, rank: V -> int)
    ensures forall a, b | IsFirst(m, rank, a) && IsFirst(m, rank, b) :: a == b
  {
    forall a, b | IsFirst(m, rank, a) && IsFirst(m, rank, b)
      ensures a == b
    {
      assert a in m && b in m;
    }
  }

  lemma SomeKey<V>(m: map<int, V>) returns (x: int)
    requires |m| > 0
    ensures x in m
  {
    if forall y :: y !in m {
      assert false;
    }
    var y :| y in m;
    x := y;
  }

  /** `ids` lists the keys of `m`: each key, nothing else, each before all that follow it. */
  predicate IsListing<V>(m: map<int, V>, rank: V -> int, ids: seq<int>) {
    && (forall i | 0 <= i < |ids| :: ids[i] in m)
    && (forall k | k in m :: k in ids)
    && (forall i, j | 0 <= i < j < |ids| :: ids[i] in m && ids[j] in m && Before(m, rank, ids[i], ids[j]))
  }

  /** The ids of `m` in the order `findMany` lists them under `rank`. */
  function ListingOrder<V>(m: map<int, V>, rank: V -> int): (ids: seq<int>)
    ensures |ids| == |m|
    ensures IsListing(m, rank, ids)
    decreases |m|
  {
    if |m| == 0 then []
    else
      FirstExists(m, rank);
      FirstUnique(m, rank);
      var k :| k in m && IsFirst(m, rank, k);
      var rest := m - {k};
      assert rest.Keys == m.Keys - {k};
      var tail := ListingOrder(rest, rank);
      ListedAfterFirst(m, rank, k, tail);
      [k] + tail
  }

  /** A listing of the other keys, put after the first key, is a listing of them all. */
  lemma ListedAfterFirst<V>(m: map<int, V>, rank: V -> int, k: int, tail: seq<int>)
    requires IsFirst(m, rank, k)
    requires IsListing(m - {k}, rank, tail)
    ensures IsListing(m, rank, [k] + tail)
  {
    var rest := m - {k};
    assert rest.Keys == m.Keys - {k};
    var ids := [k] + tail;
    forall i, j | 0 <= i < j < |ids|
      ensures Before(m, rank, ids[i], ids[j])
    {
      if i == 0 {
        assert ids[j] == tail[j - 1] && tail[j - 1] in rest;
      } else {
        assert ids[i] == tail[i - 1] && ids[j] == tail[j - 1];
        assert Before(rest, rank, tail[i - 1], tail[j - 1]);
      }
    }
  }

  /** The head of a listing is the first key, and the rest lists the other keys. */
  lemma ListingTail<V>(m: map<int, V>, rank: V -> int, ids: seq<int>)
    requires IsListing(m, rank, ids) && ids != []
    ensures IsFirst(m, rank, ids[0])
    ensures IsListing(m - {ids[0]}, rank, ids[1..])
  {
    var rest := m - {ids[0]};
    forall j | j in m && j != ids[0]
      ensures Before(m, rank, ids[0], j)
    {
      var i :| 0 <= i < |ids| && ids[i] == j;
      assert i != 0;
    }
    forall k | k in rest
      ensures k in ids[1..]
    {
      var i :| 0 <= i < |ids| && ids[i] == k;
      assert ids[1..][i - 1] == k;
    }
  }

  /** A map has exactly one listing: `findMany` under a total order is deterministic. */
  lemma {:induction false} ListingUnique<V>(m: map<int, V>, rank: V -> int, a: seq<int>, b: seq<int>)
    requires IsListing(m, rank, a) && IsListing(m, rank, b)
    ensures a == b
    decreases |a|
  {
    if a == [] {
      EmptyListing(m, rank, a, b);
    } else {
      SameHead(m, rank, a, b);
      ListingUnique(m - {a[0]}, rank, a[1..], b[1..]);
      assert a == [a[0]] + a[1..] && b == [b[0]] + b[1..];
    }
  }

  lemma EmptyListing<V>(m: map<int, V>, rank: V -> int, a: seq<int>, b: seq<int>)
    requires IsListing(m, rank, a) && IsListing(m, rank, b)
    requires a == []
    ensures b == []
  {
    if b != [] {
      ListedKey(m, rank, b, 0);
      KeyListed(m, rank, a, b[0]);
      assert false;
    }
  }

  lemma ListedKey<V>(m: map<int, V>, rank: V -> int, ids: seq<int>, i: int)
    requires IsListing(m, rank, ids) && 0 <= i < |ids|
    ensures ids[i] in m
  {
  }

  lemma KeyListed<V>(m: map<int, V>, rank: V -> int, ids: seq<int>, k: int)
    requires IsListing(m, rank, ids) && k in m
    ensures k in ids
  {
  }

  /** Two listings of the same map start with the same key and go on listing the others. */
  lemma SameHead<V>(m: map<int, V>, rank: V -> int, a: seq<int>, b: seq<int>)
    requires IsListing(m, rank, a) && IsListing(m, rank, b)
    requires a != []
    ensures b != [] && b[0] == a[0]
    ensures IsListing(m - {a[0]}, rank, a[1..]) && IsListing(m - {a[0]}, rank, b[1..])
  {
    var x := a[0];
    assert x in m;
    assert forall k | k in m :: k in b;
    assert x in b;
    ListingTail(m, rank, a);
    ListingTail(m, rank, b);
    FirstUnique(m, rank);
  }

  /** A row added ahead of every other row is listed first, before the old listing. */
  lemma ListingWithNewFirst<V>(m: map<int, V>, rank: V -> int, k: int, v: V)
    requires k !in m
    requires IsFirst(m[k := v], rank, k)
    ensures ListingOrder(m[k := v], rank) == [k] + ListingOrder(m, rank)
  {
    var m' := m[k := v];
    assert m' - {k} == m;
    ListedAfterFirst(m', rank, k, ListingOrder(m, rank));
    ListingUnique(m', rank, ListingOrder(m', rank), [k] + ListingOrder(m, rank));
  }

  /** The database: the Form and FormResponse tables. */
  class Database {
    var forms: map<int, FormRecord>
    var responses: map<int, ResponseRecord>

    ghost predicate Valid()
      reads this
    {
      FormsKeyed(forms) && ResponsesKeyed(responses)
    }

    constructor ()
      ensures Valid() && forms == map[] && responses == map[]
    {
      forms := map[];
      responses := map[];
    }

    /** `prisma.form.create`: a new row under a fresh id. */
    method CreateForm(id: int, title: string, elements: Json) returns (f: FormRecord)
      requires Valid() && id !in forms
      modifies this
      ensures Valid()
      ensures f == FormRecord(id, title, elements)
      ensures forms == old(forms)[id := f] && responses == old(responses)
    {
      f := FormRecord(id, title, elements);
      forms := forms[id := f];
    }

    /** `prisma.form.delete`: removes the row, or reports that there is none (Prisma's P2025). */
    method DeleteForm(id: int) returns (found: bool)
      requires Valid()
      modifies this
      ensures Valid()
      ensures found == (id in old(forms))
      ensures forms == old(forms) - {id} && responses == old(responses)
    {
      found := id in forms;
      forms := forms - {id};
    }

    /** `prisma.formResponse.create`: a new row under a fresh id, stamped with the current time. */
    method CreateResponse(id: int, formId: int, answers: Json, now: int) returns (r: ResponseRecord)
      requires Valid() && id !in responses
      modifies this
      ensures Valid()
      ensures r == ResponseRecord(id, formId, answers, now)
      ensures responses == old(responses)[id := r] && forms == old(forms)
    {
      r := ResponseRecord(id, formId, answers, now);
      responses := responses[id := r];
    }
  }
}
