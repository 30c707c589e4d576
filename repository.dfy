/** The book store (LibraryAPI.Infrastructure/Repositories/BookRepository.cs):
    the persisted rows keyed by identifier, kept in storage order. Each
    request works on entity objects the ORM materialises from the rows, and a
    change reaches the rows only through Add, Update and Delete. */
module Repository {
  import opened Errors
  import opened Domain

  /** No identifier occurs twice. */
  ghost predicate Distinct(s: seq<Guid>) {
    forall i, j :: 0 <= i < j < |s| ==> s[i] != s[j]
  }

  /** The identifiers a sequence holds. */
  ghost function Elements(s: seq<Guid>): (e: set<Guid>)
    ensures forall x :: x in e <==> x in s
  {
    if s == [] then {} else {s[0]} + Elements(s[1..])
  }

  /** A sequence without repetitions has as many elements as its set. */
  lemma {:induction false} DistinctCardinality(s: seq<Guid>)
    requires Distinct(s)
    ensures |Elements(s)| == |s|
  {
    if s != [] {
      TailDistinct(s);
      DistinctCardinality(s[1..]);
      assert s[0] !in Elements(s[1..]);
    }
  }

  lemma TailDistinct(s: seq<Guid>)
    requires Distinct(s) && s != []
    ensures Distinct(s[1..])
  {
    var tail := s[1..];
    forall i, j | 0 <= i < j < |tail| ensures tail[i] != tail[j] {
      assert tail[i] == s[i + 1] && tail[j] == s[j + 1];
    }
  }

  /** Removing the element at index k keeps a sequence without repetitions. */
  lemma RemoveAtKeepsDistinct(s: seq<Guid>, k: nat)
    requires Distinct(s) && k < |s|
    ensures Distinct(s[..k] + s[k + 1..])
    ensures forall x :: x in s[..k] + s[k + 1..] <==> x in s && x != s[k]
  {
    var r := s[..k] + s[k + 1..];
    assert forall i :: 0 <= i < |r| ==> r[i] == if i < k then s[i] else s[i + 1];
    forall x ensures x in r <==> x in s && x != s[k] {
      if x in r {
        var i :| 0 <= i < |r| && r[i] == x;
      }
      if x in s && x != s[k] {
        var i :| 0 <= i < |s| && s[i] == x;
        assert r[if i < k then i else i - 1] == x;
      }
    }
  }

  class BookRepository {
    /** The stored rows, by identifier. */
    var rows: map<Guid, BookState>
    /** The identifiers in storage order, the order GetAll lists them in. */
    var order: seq<Guid>

    ghost predicate Valid()
      reads this
    {
      && Distinct(order)
      && (forall id :: id in order <==> id in rows)
      && (forall id :: id in rows ==> rows[id].id == id)
    }

    constructor ()
      ensures Valid() && rows == map[] && order == []
    {
      rows, order := map[], [];
    }

    /** GetAllAsync: every stored book, once each, in storage order. */
    method GetAll() returns (books: seq<BookState>)
      requires Valid()
      ensures |books| == |order| == |rows|
      ensures forall i :: 0 <= i < |books| ==> order[i] in rows && books[i] == rows[order[i]]
      ensures forall id :: id in rows ==> rows[id] in books
    {
      books := seq(|order|, i requires 0 <= i < |order| && order[i] in rows reads this => rows[order[i]]);
      DistinctCardinality(order);
      assert Elements(order) == rows.Keys;
      forall id | id in rows ensures rows[id] in books {
        var i :| 0 <= i < |order| && order[i] == id;
        assert books[i] == rows[id];
      }
    }

    /** GetByIdAsync: the entity for the stored row, or null when there is none. */
    method GetById(id: Guid) returns (b: Book?)
      requires Valid()
      ensures b == null <==> id !in rows
      ensures b != null ==> fresh(b) && b.Value() == rows[id]
    {
      if id !in rows {
        return null;
      }
      b := new Book.FromRow(rows[id]);
    }

    /** AddAsync: inserts a row for the book; a key that is already stored
        makes the save fail and nothing is written. */
    method Add(book: Book) returns (thrown: Option<Exception>)
      requires Valid()
      modifies this
      ensures Valid()
      ensures book.id in old(rows) ==>
        thrown == Some(Db("Duplicate key")) && rows == old(rows) && order == old(order)
      ensures book.id !in old(rows) ==>
        thrown == None && rows == old(rows)[book.id := book.Value()] && order == old(order) + [book.id]
    {
      if book.id in rows {
        return Some(Db("Duplicate key"));
      }
      rows := rows[book.id := book.Value()];
      order := order + [book.id];
      return None;
    }

    /** UpdateAsync: overwrites the stored row with the same key; a key that
        is not stored makes the save fail and nothing is written. */
    method Update(book: Book) returns (thrown: Option<Exception>)
      requires Valid()
      modifies this
      ensures Valid() && order == old(order)
      ensures book.id !in old(rows) ==>
        thrown == Some(Db("No row to update")) && rows == old(rows)
      ensures book.id in old(rows) ==>
        thrown == None && rows == old(rows)[book.id := book.Value()]
    {
      if book.id !in rows {
        return Some(Db("No row to update"));
      }
      rows := rows[book.id := book.Value()];
      return None;
    }

    /** DeleteAsync: removes the row with that key, and does nothing when
        there is none. */
    method Delete(id: Guid)
      requires Valid()
      modifies this
      ensures Valid()
      ensures id !in old(rows) ==> rows == old(rows) && order == old(order)
      ensures id in old(rows) ==> rows == old(rows) - {id}
      ensures id in old(rows) ==>
        exists k :: 0 <= k < |old(order)| && old(order)[k] == id && order == old(order)[..k] + old(order)[k + 1..]
    {
      if id in rows {
        var k :| 0 <= k < |order| && order[k] == id;
        RemoveAtKeepsDistinct(order, k);
        rows := rows - {id};
        order := order[..k] + order[k + 1..];
      }
    }
  }
}
