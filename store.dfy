/**
 * The part of the persistence store the record manager queries: select the
 * consultations a where-clause matches and order them most recent first.
 */
module Store {
  import opened Records
  import opened FilterResolution

  /** The ids of the rows of a listing. */
  function Ids(rs: seq<Row>): set<ConsultationId>
  {
    set i | 0 <= i < |rs| :: rs[i].id
  }

  /** Ordered by `dateTimeUtc` descending: most recent consultation first. */
  ghost predicate NewestFirst(rs: seq<Row>)
  {
    forall i, j :: 0 <= i < j < |rs| ==> rs[i].record.dateTimeUtc >= rs[j].record.dateTimeUtc
  }

  ghost predicate DistinctIds(rs: seq<Row>)
  {
    forall i, j :: 0 <= i < j < |rs| ==> rs[i].id != rs[j].id
  }

  /** Every row is the record stored under its id. */
  ghost predicate Drawn(store: map<ConsultationId, Consultation>, rs: seq<Row>)
  {
    forall i :: 0 <= i < |rs| ==> rs[i].id in store && store[rs[i].id] == rs[i].record
  }

  /** A listing of stored records: each at most once, most recent first. */
  ghost predicate Listing(store: map<ConsultationId, Consultation>, rs: seq<Row>)
  {
    Drawn(store, rs) && DistinctIds(rs) && NewestFirst(rs)
  }

  lemma {:induction false} IdsOfSplice(rs: seq<Row>, row: Row, k: nat)
    requires k <= |rs|
    ensures Ids(rs[..k] + [row] + rs[k..]) == Ids(rs) + {row.id}
  {
    var out := rs[..k] + [row] + rs[k..];
    forall id | id in Ids(out) ensures id in Ids(rs) + {row.id} {
      var i :| 0 <= i < |out| && out[i].id == id;
      if i < k { assert out[i] == rs[i]; }
      else if i > k { assert out[i] == rs[i - 1]; }
    }
    forall id | id in Ids(rs) ensures id in Ids(out) {
      var i :| 0 <= i < |rs| && rs[i].id == id;
      if i < k { assert out[i] == rs[i]; }
      else { assert out[i + 1] == rs[i]; }
    }
    assert out[k] == row;
  }

  /** A listing mentions no id exactly when it is empty. */
  lemma NoIdsNoRows(rs: seq<Row>)
    ensures Ids(rs) == {} <==> rs == []
  {
    if rs != [] {
      assert rs[0].id in Ids(rs);
    }
  }

  /** A listing holds exactly one row per id it mentions. */
  lemma {:induction false} ListingSize(rs: seq<Row>)
    requires DistinctIds(rs)
    ensures |rs| == |Ids(rs)|
  {
    if rs != [] {
      var tail := rs[1..];
      assert DistinctIds(tail) by {
        forall i, j | 0 <= i < j < |tail| ensures tail[i].id != tail[j].id {
          assert tail[i] == rs[i + 1] && tail[j] == rs[j + 1];
        }
      }
      ListingSize(tail);
      assert rs == rs[..0] + [rs[0]] + tail;
      IdsOfSplice(tail, rs[0], 0);
    }
  }

  /**
   * Insert one row into a listing that is ordered most recent first, after
   * every row at least as recent; `k` is where it goes.
   */
  method InsertByRecency(rs: seq<Row>, row: Row) returns (out: seq<Row>, k: nat)
    requires NewestFirst(rs)
    ensures k <= |rs| && out == rs[..k] + [row] + rs[k..]
    ensures NewestFirst(out)
    ensures forall i :: 0 <= i < k ==> rs[i].record.dateTimeUtc >= row.record.dateTimeUtc
    ensures forall i :: k <= i < |rs| ==> rs[i].record.dateTimeUtc < row.record.dateTimeUtc
  {
    k := 0;
    while k < |rs| && rs[k].record.dateTimeUtc >= row.record.dateTimeUtc
      invariant k <= |rs|
      invariant forall i :: 0 <= i < k ==> rs[i].record.dateTimeUtc >= row.record.dateTimeUtc
    {
      k := k + 1;
    }
    out := rs[..k] + [row] + rs[k..];
    forall i, j | 0 <= i < j < |out|
      ensures out[i].record.dateTimeUtc >= out[j].record.dateTimeUtc
    {
      var t := row.record.dateTimeUtc;
      var ti, tj := out[i].record.dateTimeUtc, out[j].record.dateTimeUtc;
      if j < k {
        assert out[i] == rs[i] && out[j] == rs[j];
      } else if j == k {
        assert out[i] == rs[i];
      } else if i < k {
        assert out[i] == rs[i] && out[j] == rs[j - 1];
      } else if i == k {
        assert out[j] == rs[j - 1];
        assert rs[k].record.dateTimeUtc < t;
      } else {
        assert out[i] == rs[i - 1] && out[j] == rs[j - 1];
      }
    }
  }

  /** Splicing a new stored row into a listing, in order, keeps it a listing. */
  lemma SpliceKeepsListing(store: map<ConsultationId, Consultation>, rs: seq<Row>, row: Row, k: nat)
    requires Listing(store, rs) && k <= |rs|
    requires row.id in store && store[row.id] == row.record && row.id !in Ids(rs)
    requires NewestFirst(rs[..k] + [row] + rs[k..])
    ensures Listing(store, rs[..k] + [row] + rs[k..])
    ensures Ids(rs[..k] + [row] + rs[k..]) == Ids(rs) + {row.id}
  {
    var out := rs[..k] + [row] + rs[k..];
    IdsOfSplice(rs, row, k);
    forall i | 0 <= i < |out| ensures out[i] == row || out[i] in rs {
      if i < k { assert out[i] == rs[i]; }
      else if i > k { assert out[i] == rs[i - 1]; }
    }
    forall i, j | 0 <= i < j < |out| ensures out[i].id != out[j].id {
      if i < k && j < k { assert out[i] == rs[i] && out[j] == rs[j]; }
      else if i < k && j > k { assert out[i] == rs[i] && out[j] == rs[j - 1]; }
      else if i > k { assert out[i] == rs[i - 1] && out[j] == rs[j - 1]; }
      else if i == k { assert out[j] == rs[j - 1]; assert rs[j - 1].id in Ids(rs); }
      else { assert out[i] == rs[i]; assert rs[i].id in Ids(rs); }
    }
  }

  /**
   * The store's `findMany(where, orderBy: dateTimeUtc desc)`: exactly the
   * stored records that satisfy the where-clause, each once, most recent
   * first. Ties between equal instants come in no promised order.
   */
  method FindMany(store: map<ConsultationId, Consultation>, w: Where) returns (rs: seq<Row>)
    ensures Listing(store, rs)
    ensures forall id :: id in Ids(rs) <==> id in store && Satisfies(w, store[id])
  {
    rs := [];
    var pending := store.Keys;
    while pending != {}
      invariant pending <= store.Keys
      invariant Listing(store, rs)
      invariant forall id :: id in Ids(rs) <==> id in store && id !in pending && Satisfies(w, store[id])
      decreases pending
    {
      var id :| id in pending;
      if Satisfies(w, store[id]) {
        var row := Row(id, store[id]);
        var out, k := InsertByRecency(rs, row);
        SpliceKeepsListing(store, rs, row, k);
        rs := out;
      }
      pending := pending - {id};
    }
  }
}
