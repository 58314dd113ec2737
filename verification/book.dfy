/** Book records as the store holds them, and facts about a mirror
    (an ordered sequence of records) that do not depend on any transition.
 */
module Book {

  /** A record id as the server assigns it. The handlers compare ids with
      strict equality, so a numeric id and a textual id never match each
      other, even when they print alike. */
  datatype BookId = Num(n: int) | Text(s: string)

  /** A record exactly as the server returned it. */
  datatype Book = Book(id: BookId, title: string)

  /** The ids present in a mirror. */
  function Ids(m: seq<Book>): set<BookId> {
    set i | 0 <= i < |m| :: m[i].id
  }

  /** No two positions of the mirror carry the same id. */
  ghost predicate UniqueIds(m: seq<Book>) {
    forall i, j :: 0 <= i < j < |m| ==> m[i].id != m[j].id
  }

  /** How many entries of the mirror carry `id`. */
  function Occurrences(m: seq<Book>, id: BookId): (n: nat)
    ensures n <= |m|
  {
    if |m| == 0 then 0
    else (if m[0].id == id then 1 else 0) + Occurrences(m[1..], id)
  }

  /** An id occurs nowhere exactly when it is not among the ids. */
  lemma {:induction false} NoOccurrencesIff(m: seq<Book>, id: BookId)
    ensures Occurrences(m, id) == 0 <==> id !in Ids(m)
  {
    if |m| > 0 {
      NoOccurrencesIff(m[1..], id);
      assert Ids(m) == {m[0].id} + Ids(m[1..]) by {
        forall x | x in Ids(m) ensures x in {m[0].id} + Ids(m[1..]) {
          var i :| 0 <= i < |m| && m[i].id == x;
          if i > 0 { assert m[1..][i - 1] == m[i]; }
        }
      }
    }
  }

  /** Appending a record adds exactly its id. */
  lemma IdsAppend(m: seq<Book>, b: Book)
    ensures Ids(m + [b]) == Ids(m) + {b.id}
  {
    var m' := m + [b];
    assert m'[|m|] == b;
    forall x | x in Ids(m)
      ensures x in Ids(m')
    {
      var i :| 0 <= i < |m| && m[i].id == x;
      assert m'[i] == m[i];
    }
  }
}
