/** The books context: the client-side mirror of the server's book
    collection and the four handlers that change it.

    Each handler awaits one API call and, only when that call resolves,
    replaces the mirror with a new sequence computed from the mirror it
    started from and the server's response. A rejected call never reaches
    the state update, so the mirror stays as it was. Handlers are modelled
    as pure functions from (mirror, settled outcome) to the next mirror.
 */
module BooksContext {
  import opened Transport
  import opened Book

  /** The mirror before the first load resolves. */
  const Initial: seq<Book> := []

  // ---------------------------------------------------------------------
  // The list operations behind the handlers
  // ---------------------------------------------------------------------

  /** The entries of `m` whose id is not `id`, front to back
      (the filter in the delete handler). */
  function Without(m: seq<Book>, id: BookId): (r: seq<Book>)
    ensures |r| + Occurrences(m, id) == |m|
    ensures forall i :: 0 <= i < |r| ==> r[i].id != id
  {
    if |m| == 0 then []
    else if m[0].id != id then [m[0]] + Without(m[1..], id)
    else Without(m[1..], id)
  }

  /** Every entry of `m` whose id is `id` swapped for `b`, the others kept
      (the map in the edit handler). */
  function Replace(m: seq<Book>, id: BookId, b: Book): (r: seq<Book>)
    ensures |r| == |m|
    ensures forall i :: 0 <= i < |m| ==> r[i] == (if m[i].id == id then b else m[i])
  {
    if |m| == 0 then []
    else [if m[0].id == id then b else m[0]] + Replace(m[1..], id, b)
  }

  // ---------------------------------------------------------------------
  // The handlers
  // ---------------------------------------------------------------------

  /** Load: the mirror becomes the list the server returned. */
  function FetchBooks(m: seq<Book>, reply: Result<seq<Book>>): (r: seq<Book>)
    ensures reply.Ok? ==> r == reply.value
    ensures reply.Err? ==> r == m
  {
    match reply
    case Ok(list) => list
    case Err(_) => m
  }

  /** Create: the created record, as the server returned it, goes to the
      tail of the mirror. The title the user typed only travels in the
      request; the mirror never sees it. */
  function CreateBook(m: seq<Book>, reply: Result<Book>): (r: seq<Book>)
    ensures reply.Ok? ==> |r| == |m| + 1 && r[..|m|] == m && r[|m|] == reply.value
    ensures reply.Ok? ==> Ids(r) == Ids(m) + {reply.value.id}
    ensures reply.Err? ==> r == m
  {
    match reply
    case Ok(b) => IdsAppend(m, b); m + [b]
    case Err(_) => m
  }

  /** Delete: once the server call resolves, every entry carrying `id`
      leaves the mirror. The response body is ignored. */
  function DeleteBookById(m: seq<Book>, id: BookId, reply: Result<()>): (r: seq<Book>)
    ensures reply.Ok? ==> forall i :: 0 <= i < |r| ==> r[i].id != id
    ensures reply.Ok? ==> |r| == |m| - Occurrences(m, id)
    ensures reply.Err? ==> r == m
  {
    match reply
    case Ok(_) => Without(m, id)
    case Err(_) => m
  }

  /** Edit: once the server call resolves, every entry carrying `id` is
      replaced, in place, by the record the server returned. */
  function EditBookById(m: seq<Book>, id: BookId, reply: Result<Book>): (r: seq<Book>)
    ensures |r| == |m|
    ensures reply.Ok? ==>
      forall i :: 0 <= i < |m| ==> (m[i].id == id ==> r[i] == reply.value) && (m[i].id != id ==> r[i] == m[i])
    ensures reply.Err? ==> r == m
  {
    match reply
    case Ok(b) => Replace(m, id, b)
    case Err(_) => m
  }

  // ---------------------------------------------------------------------
  // Create
  // ---------------------------------------------------------------------

  /** Appending keeps ids unique exactly when the appended id is new. */
  lemma CreateUniqueIff(m: seq<Book>, b: Book)
    ensures UniqueIds(CreateBook(m, Ok(b))) <==> UniqueIds(m) && b.id !in Ids(m)
  {
  }

  // ---------------------------------------------------------------------
  // Delete
  // ---------------------------------------------------------------------

  /** Filtering distributes over concatenation. */
  lemma {:induction false} WithoutAppend(a: seq<Book>, b: seq<Book>, id: BookId)
    ensures Without(a + b, id) == Without(a, id) + Without(b, id)
  {
    if |a| == 0 {
      assert a + b == b;
    } else {
      assert (a + b)[0] == a[0];
      assert (a + b)[1..] == a[1..] + b;
      WithoutAppend(a[1..], b, id);
    }
  }

  /** A one-entry mirror keeps its entry exactly when the id differs. */
  lemma WithoutSingleton(b: Book, id: BookId)
    ensures Without([b], id) == if b.id != id then [b] else []
  {
    assert [b][1..] == [];
  }

  /** `r` lists entries of `m` read at the strictly increasing positions
      `ks`: `r` is a subsequence of `m` in the same relative order. */
  ghost predicate Selects(m: seq<Book>, ks: seq<int>, r: seq<Book>) {
    && |ks| == |r|
    && (forall k :: 0 <= k < |ks| ==> 0 <= ks[k] < |m| && r[k] == m[ks[k]])
    && (forall k, l :: 0 <= k < l < |ks| ==> ks[k] < ks[l])
  }

  /** The positions of `m` whose id is not `id`, in increasing order. */
  function KeptPositions(m: seq<Book>, id: BookId): (ks: seq<int>)
    ensures forall k :: 0 <= k < |ks| ==> 0 <= ks[k] < |m|
    ensures forall k, l :: 0 <= k < l < |ks| ==> ks[k] < ks[l]
    ensures forall i :: 0 <= i < |m| ==> (i in ks <==> m[i].id != id)
    decreases |m|
  {
    if |m| == 0 then []
    else
      var n := |m| - 1;
      KeptPositions(m[..n], id) + (if m[n].id != id then [n] else [])
  }

  /** A delete removes exactly the entries carrying the id: the result is
      the mirror read at precisely the other positions, in their original
      order. */
  lemma {:induction false} DeleteKeepsOrder(m: seq<Book>, id: BookId)
    ensures Selects(m, KeptPositions(m, id), DeleteBookById(m, id, Ok(())))
    decreases |m|
  {
    if |m| > 0 {
      var n := |m| - 1;
      var a := m[..n];
      assert m == a + [m[n]];
      WithoutAppend(a, [m[n]], id);
      WithoutSingleton(m[n], id);
      DeleteKeepsOrder(a, id);
      SelectsExtend(a, KeptPositions(a, id), Without(a, id), m[n], m[n].id != id);
    }
  }

  /** Appending an entry to the mirror extends a selection, either keeping
      the new entry at the new last position or skipping it. */
  lemma SelectsExtend(a: seq<Book>, ks: seq<int>, r: seq<Book>, x: Book, keep: bool)
    requires Selects(a, ks, r)
    ensures Selects(a + [x], ks + (if keep then [|a|] else []), r + (if keep then [x] else []))
  {
    var a', ks', r' := a + [x], ks + (if keep then [|a|] else []), r + (if keep then [x] else []);
    forall k | 0 <= k < |ks'|
      ensures 0 <= ks'[k] < |a'| && r'[k] == a'[ks'[k]]
    {
      if k < |ks| {
        assert ks'[k] == ks[k] && r'[k] == r[k] && a'[ks[k]] == a[ks[k]];
      }
    }
  }

  /** A record survives a delete exactly when it was in the mirror and
      does not carry the deleted id. */
  lemma DeleteMembers(m: seq<Book>, id: BookId, b: Book)
    ensures b in DeleteBookById(m, id, Ok(())) <==> b in m && b.id != id
  {
    DeleteKeepsOrder(m, id);
    var r, ks := Without(m, id), KeptPositions(m, id);
    if b in r {
      var k :| 0 <= k < |r| && r[k] == b;
      assert m[ks[k]] == b;
    }
    if b in m && b.id != id {
      var i :| 0 <= i < |m| && m[i] == b;
      assert i in ks;
      var k :| 0 <= k < |ks| && ks[k] == i;
      assert r[k] == b;
    }
  }

  /** Deleting an id that is not in the mirror changes nothing. */
  lemma {:induction false} DeleteAbsentIsNoop(m: seq<Book>, id: BookId)
    requires id !in Ids(m)
    ensures DeleteBookById(m, id, Ok(())) == m
  {
    if |m| > 0 {
      assert m[0].id != id;
      assert id !in Ids(m[1..]) by {
        forall i | 0 <= i < |m[1..]| ensures m[1..][i].id != id {
          assert m[1..][i] == m[i + 1];
        }
      }
      DeleteAbsentIsNoop(m[1..], id);
      assert m == [m[0]] + m[1..];
    }
  }

  /** A delete changes the mirror exactly when some entry carries the id. */
  lemma DeleteChangesIffPresent(m: seq<Book>, id: BookId)
    ensures DeleteBookById(m, id, Ok(())) != m <==> id in Ids(m)
  {
    NoOccurrencesIff(m, id);
    if id !in Ids(m) {
      DeleteAbsentIsNoop(m, id);
    }
  }

  /** Deleting the same id twice equals deleting it once. */
  lemma DeleteIdempotent(m: seq<Book>, id: BookId)
    ensures var once := DeleteBookById(m, id, Ok(()));
      DeleteBookById(once, id, Ok(())) == once
  {
    DeleteAbsentIsNoop(Without(m, id), id);
  }

  /** With unique ids, deleting an id present at position `k` removes that
      one entry and nothing else. */
  lemma DeleteSingle(m: seq<Book>, id: BookId, k: int)
    requires UniqueIds(m)
    requires 0 <= k < |m| && m[k].id == id
    ensures DeleteBookById(m, id, Ok(())) == m[..k] + m[k+1..]
  {
    var pre, post := m[..k], m[k+1..];
    AbsentAround(m, k);
    calc {
      Without(m, id);
      { assert m == (pre + [m[k]]) + post; }
      Without((pre + [m[k]]) + post, id);
      { WithoutAppend(pre + [m[k]], post, id); }
      Without(pre + [m[k]], id) + Without(post, id);
      { WithoutAppend(pre, [m[k]], id); WithoutSingleton(m[k], id); }
      Without(pre, id) + Without(post, id);
      { DeleteAbsentIsNoop(pre, id); DeleteAbsentIsNoop(post, id); }
      pre + post;
    }
  }

  /** With unique ids, the id at position `k` occurs neither before nor
      after it. */
  lemma AbsentAround(m: seq<Book>, k: int)
    requires UniqueIds(m) && 0 <= k < |m|
    ensures m[k].id !in Ids(m[..k]) && m[k].id !in Ids(m[k+1..])
  {
    forall i | 0 <= i < k ensures m[..k][i].id != m[k].id {
      assert m[..k][i] == m[i];
    }
    var post := m[k+1..];
    forall i | 0 <= i < |post| ensures post[i].id != m[k].id {
      assert post[i] == m[k + 1 + i];
    }
  }

  /** A delete removes exactly the target id from the set of ids. */
  lemma DeleteIds(m: seq<Book>, id: BookId)
    ensures Ids(DeleteBookById(m, id, Ok(()))) == Ids(m) - {id}
  {
    var r := Without(m, id);
    forall x | x in Ids(r)
      ensures x in Ids(m) && x != id
    {
      var i :| 0 <= i < |r| && r[i].id == x;
      DeleteMembers(m, id, r[i]);
      var j :| 0 <= j < |m| && m[j] == r[i];
    }
    forall x | x in Ids(m) && x != id
      ensures x in Ids(r)
    {
      var j :| 0 <= j < |m| && m[j].id == x;
      DeleteMembers(m, id, m[j]);
      var i :| 0 <= i < |r| && r[i] == m[j];
    }
  }

  /** A delete keeps ids unique. */
  lemma DeletePreservesUnique(m: seq<Book>, id: BookId)
    requires UniqueIds(m)
    ensures UniqueIds(DeleteBookById(m, id, Ok(())))
  {
    DeleteKeepsOrder(m, id);
  }

  // ---------------------------------------------------------------------
  // Edit
  // ---------------------------------------------------------------------

  /** Editing an id that is not in the mirror changes nothing: the server's
      record is dropped rather than appended. */
  lemma EditAbsentIsNoop(m: seq<Book>, id: BookId, b: Book)
    requires id !in Ids(m)
    ensures EditBookById(m, id, Ok(b)) == m
  {
  }

  /** With unique ids, editing an id present at position `k` replaces that
      one position and keeps every other one. */
  lemma EditAtPosition(m: seq<Book>, id: BookId, b: Book, k: int)
    requires UniqueIds(m)
    requires 0 <= k < |m| && m[k].id == id
    ensures EditBookById(m, id, Ok(b)) == m[k := b]
  {
  }

  /** Edit never adds an id except the one the server put in its response,
      and when the response keeps the target id the set of ids is
      unchanged: membership is changed only by load, create and delete. */
  lemma EditIds(m: seq<Book>, id: BookId, b: Book)
    ensures Ids(EditBookById(m, id, Ok(b))) <= Ids(m) + {b.id}
    ensures b.id == id ==> Ids(EditBookById(m, id, Ok(b))) == Ids(m)
  {
    var r := Replace(m, id, b);
    forall x | x in Ids(r)
      ensures x in Ids(m) + {b.id}
    {
      var i :| 0 <= i < |r| && r[i].id == x;
    }
    if b.id == id {
      forall x | x in Ids(m)
        ensures x in Ids(r)
      {
        var i :| 0 <= i < |m| && m[i].id == x;
        assert r[i].id == x;
      }
    }
  }

  /** An edit whose response keeps the target id keeps ids unique. */
  lemma EditPreservesUnique(m: seq<Book>, id: BookId, b: Book)
    requires UniqueIds(m) && b.id == id
    ensures UniqueIds(EditBookById(m, id, Ok(b)))
  {
    var r := Replace(m, id, b);
    forall i, j | 0 <= i < j < |r|
      ensures r[i].id != r[j].id
    {
      assert m[i].id != m[j].id;
    }
  }

  /** Repeating an edit changes nothing more. When the response keeps the
      target id the second edit rewrites the same positions with the same
      record; when it does not, no entry carries the target id any more. */
  lemma EditIdempotent(m: seq<Book>, id: BookId, b: Book)
    ensures var once := EditBookById(m, id, Ok(b));
      EditBookById(once, id, Ok(b)) == once
  {
    var once := Replace(m, id, b);
    if b.id != id {
      assert id !in Ids(once);
      EditAbsentIsNoop(once, id, b);
    }
  }
}
