/**
 * The ORM's `ORDER BY` on a filtered query: the matching rows of a table,
 * each once, in a model's default ordering. The ordering compares primary
 * keys through the values they sort by; rows that tie come back in an
 * order the database leaves open, here the order of insertion.
 */
module Listing {

  /** One element of a listing's JSON array: a primary key and the values shown for it. */
  datatype Listed<H> = Listed(id: nat, hit: H)

  /** `before` compares every pair of keys and is transitive. */
  ghost predicate TotalPreorder(before: (nat, nat) -> bool) {
    && (forall a: nat, b: nat :: before(a, b) || before(b, a))
    && (forall a: nat, b: nat, c: nat :: before(a, b) && before(b, c) ==> before(a, c))
  }

  /** Every row comes no later than the rows after it. */
  predicate SortedBy<H>(rows: seq<Listed<H>>, before: (nat, nat) -> bool) {
    forall i, j :: 0 <= i < j < |rows| ==> before(rows[i].id, rows[j].id)
  }

  /** The rows list exactly the entries of `table`, each once, with the values it holds. */
  ghost predicate Enumerates<H>(table: map<nat, H>, rows: seq<Listed<H>>) {
    && (forall i, j :: 0 <= i < j < |rows| ==> rows[i].id != rows[j].id)
    && (forall i :: 0 <= i < |rows| ==> rows[i].id in table && table[rows[i].id] == rows[i].hit)
    && (forall id :: id in table ==> exists i :: 0 <= i < |rows| && rows[i].id == id)
  }

  /** Places `x` after every row that comes no later than it. */
  method InsertSorted<H>(rows: seq<Listed<H>>, x: Listed<H>, before: (nat, nat) -> bool)
    returns (r: seq<Listed<H>>, at: nat)
    requires TotalPreorder(before) && SortedBy(rows, before)
    ensures at <= |rows| && r == rows[..at] + [x] + rows[at..]
    ensures SortedBy(r, before)
  {
    at := 0;
    while at < |rows| && before(rows[at].id, x.id)
      invariant at <= |rows|
      invariant forall i :: 0 <= i < at ==> before(rows[i].id, x.id)
    {
      at := at + 1;
    }
    r := rows[..at] + [x] + rows[at..];
    forall i, j | 0 <= i < j < |r| ensures before(r[i].id, r[j].id) {
      if j < at {
        assert r[i] == rows[i] && r[j] == rows[j];
      } else if j == at {
        assert r[i] == rows[i] && r[j] == x;
      } else if i == at {
        assert r[i] == x && r[j] == rows[j - 1];
        assert before(x.id, rows[at].id);
      } else if i < at {
        assert r[i] == rows[i] && r[j] == rows[j - 1];
      } else {
        assert r[i] == rows[i - 1] && r[j] == rows[j - 1];
      }
    }
  }

  /** What the listing has established after placing every key outside `remaining`. */
  ghost predicate Placed<H>(table: map<nat, H>, remaining: set<nat>, rows: seq<Listed<H>>) {
    && remaining <= table.Keys
    && (forall i, j :: 0 <= i < j < |rows| ==> rows[i].id != rows[j].id)
    && (forall i :: 0 <= i < |rows| ==> rows[i].id in table && rows[i].id !in remaining && table[rows[i].id] == rows[i].hit)
    && (forall id :: id in table && id !in remaining ==> exists i :: 0 <= i < |rows| && rows[i].id == id)
  }

  /** Placing one more key keeps what the listing has established. */
  lemma PlaceStep<H>(table: map<nat, H>, remaining: set<nat>, rows: seq<Listed<H>>,
                     id: nat, at: nat, next: seq<Listed<H>>)
    requires Placed(table, remaining, rows) && id in remaining
    requires at <= |rows| && next == rows[..at] + [Listed(id, table[id])] + rows[at..]
    ensures Placed(table, remaining - {id}, next)
  {
    forall i | 0 <= i < |next|
      ensures next[i].id in table && next[i].id !in remaining - {id} && table[next[i].id] == next[i].hit
    {
      if i < at { assert next[i] == rows[i]; }
      else if i > at { assert next[i] == rows[i - 1]; }
    }
    forall i, j | 0 <= i < j < |next| ensures next[i].id != next[j].id {
      if j < at { assert next[i] == rows[i] && next[j] == rows[j]; }
      else if j == at { assert next[i] == rows[i]; }
      else if i == at { assert next[j] == rows[j - 1]; }
      else if i < at { assert next[i] == rows[i] && next[j] == rows[j - 1]; }
      else { assert next[i] == rows[i - 1] && next[j] == rows[j - 1]; }
    }
    forall k | k in table && k !in remaining - {id} ensures exists i :: 0 <= i < |next| && next[i].id == k {
      if k == id {
        assert next[at].id == id;
      } else {
        var i :| 0 <= i < |rows| && rows[i].id == k;
        if i < at { assert next[i] == rows[i]; }
        else { assert next[i + 1] == rows[i]; }
      }
    }
  }

  /** The rows of `table` in the ordering `before`, each once. */
  method ListRows<H>(table: map<nat, H>, before: (nat, nat) -> bool) returns (rows: seq<Listed<H>>)
    requires TotalPreorder(before)
    ensures Enumerates(table, rows) && SortedBy(rows, before)
  {
    rows := [];
    var remaining := table.Keys;
    while remaining != {}
      invariant Placed(table, remaining, rows) && SortedBy(rows, before)
      decreases remaining
    {
      var id :| id in remaining;
      var next, at := InsertSorted(rows, Listed(id, table[id]), before);
      PlaceStep(table, remaining, rows, id, at, next);
      rows := next;
      remaining := remaining - {id};
    }
  }
}
