/** Sequences of handler calls applied one after another.

    The store runs one handler at a time here: each step starts from the
    mirror the previous step left. A step records what the user asked for
    together with how the awaited API call settled.
 */
module Session {
  import opened Transport
  import opened Book
  import opened BooksContext

  /** One settled handler call. The titles are the raw text the user typed;
      they only travel in the request, so the mirror never depends on them. */
  datatype Step =
    | Load(listReply: Result<seq<Book>>)
    | Create(title: string, bookReply: Result<Book>)
    | Delete(id: BookId, doneReply: Result<()>)
    | Edit(id: BookId, title: string, bookReply: Result<Book>)
  {
    /** The awaited call resolved, so the handler reached its state update. */
    predicate Resolved() {
      match this
      case Load(reply) => reply.Ok?
      case Create(_, reply) => reply.Ok?
      case Delete(_, reply) => reply.Ok?
      case Edit(_, _, reply) => reply.Ok?
    }
  }

  /** The mirror after one step. */
  function Apply(m: seq<Book>, s: Step): seq<Book> {
    match s
    case Load(reply) => FetchBooks(m, reply)
    case Create(_, reply) => CreateBook(m, reply)
    case Delete(id, reply) => DeleteBookById(m, id, reply)
    case Edit(id, _, reply) => EditBookById(m, id, reply)
  }

  /** The mirror after the steps, first to last. */
  function Run(m: seq<Book>, steps: seq<Step>): seq<Book>
    decreases |steps|
  {
    if |steps| == 0 then m else Run(Apply(m, steps[0]), steps[1..])
  }

  /** The steps whose call resolved, in their original order. */
  function ResolvedSteps(steps: seq<Step>): (rs: seq<Step>)
    ensures |rs| <= |steps|
    ensures forall k :: 0 <= k < |rs| ==> rs[k].Resolved()
    ensures forall s :: s in rs <==> s in steps && s.Resolved()
  {
    if |steps| == 0 then []
    else if steps[0].Resolved() then [steps[0]] + ResolvedSteps(steps[1..])
    else ResolvedSteps(steps[1..])
  }

  /** Selecting the resolved steps distributes over concatenation, so the
      selection keeps the order and the multiplicity of the steps. */
  lemma {:induction false} ResolvedStepsAppend(a: seq<Step>, b: seq<Step>)
    ensures ResolvedSteps(a + b) == ResolvedSteps(a) + ResolvedSteps(b)
  {
    if |a| == 0 {
      assert a + b == b;
    } else {
      assert (a + b)[0] == a[0];
      assert (a + b)[1..] == a[1..] + b;
      ResolvedStepsAppend(a[1..], b);
    }
  }

  /** A single step is kept exactly when its call resolved. */
  lemma ResolvedStepsSingleton(s: Step)
    ensures ResolvedSteps([s]) == if s.Resolved() then [s] else []
  {
    assert [s][1..] == [];
  }

  /** A step whose call rejected leaves the mirror unchanged. */
  lemma RejectedStepIsNoop(m: seq<Book>, s: Step)
    requires !s.Resolved()
    ensures Apply(m, s) == m
  {
  }

  /** Rejected calls are invisible: running all the steps gives the same
      mirror as running only those whose call resolved. */
  lemma {:induction false} RejectionsInvisible(m: seq<Book>, steps: seq<Step>)
    ensures Run(m, steps) == Run(m, ResolvedSteps(steps))
    decreases |steps|
  {
    if |steps| > 0 {
      RejectionsInvisible(Apply(m, steps[0]), steps[1..]);
      if steps[0].Resolved() {
        var rs := ResolvedSteps(steps);
        assert rs[0] == steps[0] && rs[1..] == ResolvedSteps(steps[1..]);
      } else {
        RejectedStepIsNoop(m, steps[0]);
      }
    }
  }

  /** What a step must satisfy to keep ids unique: a loaded list has unique
      ids, a created record carries an id not yet in the mirror, and an
      edited record keeps the id it was edited under. */
  ghost predicate KeepsIdsApart(m: seq<Book>, s: Step) {
    match s
    case Load(reply) => reply.Ok? ==> UniqueIds(reply.value)
    case Create(_, reply) => reply.Ok? ==> reply.value.id !in Ids(m)
    case Delete(_, _) => true
    case Edit(id, _, reply) => reply.Ok? ==> reply.value.id == id
  }

  /** Every step of the run, taken from the mirror it actually starts from,
      keeps ids apart. */
  ghost predicate RunKeepsIdsApart(m: seq<Book>, steps: seq<Step>)
    decreases |steps|
  {
    |steps| == 0 ||
    (KeepsIdsApart(m, steps[0]) && RunKeepsIdsApart(Apply(m, steps[0]), steps[1..]))
  }

  /** One step keeps ids unique. */
  lemma StepPreservesUnique(m: seq<Book>, s: Step)
    requires UniqueIds(m) && KeepsIdsApart(m, s)
    ensures UniqueIds(Apply(m, s))
  {
    match s
    case Load(_) =>
    case Create(_, reply) =>
      if reply.Ok? { CreateUniqueIff(m, reply.value); }
    case Delete(id, reply) =>
      if reply.Ok? { DeletePreservesUnique(m, id); }
    case Edit(id, _, reply) =>
      if reply.Ok? { EditPreservesUnique(m, id, reply.value); }
  }

  /** Id uniqueness is an invariant of every run whose steps keep ids
      apart. */
  lemma {:induction false} RunPreservesUnique(m: seq<Book>, steps: seq<Step>)
    requires UniqueIds(m) && RunKeepsIdsApart(m, steps)
    ensures UniqueIds(Run(m, steps))
    decreases |steps|
  {
    if |steps| > 0 {
      StepPreservesUnique(m, steps[0]);
      RunPreservesUnique(Apply(m, steps[0]), steps[1..]);
    }
  }

  /** Starting from the empty mirror, a run that keeps ids apart never
      shows two entries with the same id. */
  lemma SessionIdsUnique(steps: seq<Step>)
    requires RunKeepsIdsApart(Initial, steps)
    ensures UniqueIds(Run(Initial, steps))
  {
    RunPreservesUnique(Initial, steps);
  }

  /** The step cannot bring a new id into the mirror: it is not a load or a
      create, and an edit's response keeps the edited id. */
  predicate AddsNoId(s: Step) {
    match s
    case Load(_) => false
    case Create(_, _) => false
    case Delete(_, _) => true
    case Edit(id, _, reply) => reply.Ok? ==> reply.value.id == id
  }

  /** Membership changes only through load, create and delete: a run of
      deletes and id-keeping edits never adds an id and never grows the
      mirror. */
  lemma {:induction false} NoNewIdsWithoutLoadOrCreate(m: seq<Book>, steps: seq<Step>)
    requires forall k :: 0 <= k < |steps| ==> AddsNoId(steps[k])
    ensures Ids(Run(m, steps)) <= Ids(m)
    ensures |Run(m, steps)| <= |m|
    decreases |steps|
  {
    if |steps| > 0 {
      var s := steps[0];
      assert AddsNoId(s);
      if s.Delete? && s.doneReply.Ok? {
        DeleteIds(m, s.id);
      } else if s.Edit? && s.bookReply.Ok? {
        EditIds(m, s.id, s.bookReply.value);
      }
      NoNewIdsWithoutLoadOrCreate(Apply(m, s), steps[1..]);
    }
  }

  /** A worked session: load one book, create a second, rename the first,
      delete the second. */
  lemma Scenario()
    ensures Run(Initial, [
      Load(Ok([Book(Num(1), "Dune")])),
      Create("Foundation", Ok(Book(Num(2), "Foundation"))),
      Edit(Num(1), "Dune Messiah", Ok(Book(Num(1), "Dune Messiah"))),
      Delete(Num(2), Ok(()))
    ]) == [Book(Num(1), "Dune Messiah")]
  {
    var m0 := [Book(Num(1), "Dune")];
    var m1 := m0 + [Book(Num(2), "Foundation")];
    var m2 := [Book(Num(1), "Dune Messiah"), Book(Num(2), "Foundation")];
    EditAtPosition(m1, Num(1), Book(Num(1), "Dune Messiah"), 0);
    assert EditBookById(m1, Num(1), Ok(Book(Num(1), "Dune Messiah"))) == m2;
    DeleteSingle(m2, Num(2), 1);
  }
}
