/**
  A model of the "result" reducer of the counter application's Redux store.

  The reducer is a pure transition function `(state, action) -> state` over a
  record whose only field, `results`, is an ordered sequence of `{id, value}`
  entries.  Storing appends one entry at the end; deleting keeps every entry
  whose id differs from the one named by the action; every other action hands
  the state back untouched.

  The id of a new entry is a new `Date` object in the original program, and
  the delete compares ids with `!==`, that is by reference, so a new id never
  equals an older one.  Here ids are values of a type with equality, and the
  id of a new entry is an explicit parameter of `Reduce` (`freshId`).  Nothing
  below assumes that ids are unique; the lemmas that need a fresh id, as the
  original program always has, say so in their `requires`.
 */
module ResultReducer {

  /** An absent argument (`undefined` in the original program). */
  datatype Option<T> = None | Some(value: T)

  /** One stored result: the id it was given when stored and the caller's payload. */
  datatype Entry<Id, V> = Entry(id: Id, value: V)

  /** The reducer's slice of the store: the results in insertion order. */
  datatype State<Id, V> = State(results: seq<Entry<Id, V>>)

  /**
    The actions the reducer is given.  `StoreResult` and `DeleteResult` are
    the two it recognises; `Other` stands for every other action type that the
    store dispatches, named by its type string.  `kind` is never
    `STORE_RESULT` or `DELETE_RESULT`: an action with one of those two type
    strings is a `StoreResult` or a `DeleteResult`.
   */
  datatype Action<Id, V> =
    | StoreResult(result: V)
    | DeleteResult(resultElId: Id)
    | Other(kind: string)

  /** The state the reducer starts from when it is given none. */
  function InitialState<Id, V>(): State<Id, V>
  {
    State([])
  }

  /** The default parameter `state = initialState`. */
  function Start<Id, V>(state: Option<State<Id, V>>): State<Id, V>
  {
    match state
    case Some(s) => s
    case None => InitialState()
  }

  /** Does some entry of `rs` carry the id `x`? */
  predicate HasId<Id(==), V>(rs: seq<Entry<Id, V>>, x: Id)
  {
    exists i :: 0 <= i < |rs| && rs[i].id == x
  }

  /** The number of entries of `rs` that carry the id `x`. */
  function CountId<Id(==), V>(rs: seq<Entry<Id, V>>, x: Id): nat
  {
    if |rs| == 0 then 0
    else (if rs[0].id == x then 1 else 0) + CountId(rs[1..], x)
  }

  /**
    `rs.filter(result => result.id !== x)`: the entries of `rs` whose id
    differs from `x`, in their original order.  Whatever it returns is no
    longer than `rs`, holds no entry with id `x`, and holds only entries of `rs`.
   */
  function Without<Id(==), V>(rs: seq<Entry<Id, V>>, x: Id): (r: seq<Entry<Id, V>>)
    ensures |r| <= |rs|
    ensures forall i :: 0 <= i < |r| ==> r[i].id != x
    ensures forall e :: e in r ==> e in rs
  {
    if |rs| == 0 then []
    else if rs[0].id != x then [rs[0]] + Without(rs[1..], x)
    else Without(rs[1..], x)
  }

  /**
    The reducer.  `freshId` is the id the original program creates from the
    clock when it stores a result; it is ignored by every other action.
    `updateObject(state, {results: ...})` is a record update that replaces
    only `results`.  The reducer invents no entry: every entry it returns was
    in the state it started from, or is the one a store adds.
   */
  function Reduce<Id(==), V>(state: Option<State<Id, V>>, action: Action<Id, V>, freshId: Id): (r: State<Id, V>)
    ensures forall e :: e in r.results ==>
              e in Start(state).results || (action.StoreResult? && e == Entry(freshId, action.result))
    ensures |r.results| <= |Start(state).results| + (if action.StoreResult? then 1 else 0)
  {
    var s := Start(state);
    match action
    case StoreResult(v) => s.(results := s.results + [Entry(freshId, v)])
    case DeleteResult(x) => s.(results := Without(s.results, x))
    case Other(_) => s
  }

  /**
    `a` is a subsequence of `b`: `a` is `b` with some entries dropped and the
    rest kept in their order.  An independent description of filtering.
   */
  ghost predicate IsSubsequence<T>(a: seq<T>, b: seq<T>)
    decreases |b|
  {
    || a == []
    || (&& b != []
        && ((a[0] == b[0] && IsSubsequence(a[1..], b[1..])) || IsSubsequence(a, b[1..])))
  }

  // ---------------------------------------------------------------------------
  // Properties of the filter
  // ---------------------------------------------------------------------------

  /** Filtering keeps the surviving entries in their original relative order. */
  lemma {:induction false} WithoutIsSubsequence<Id, V>(rs: seq<Entry<Id, V>>, x: Id)
    ensures IsSubsequence(Without(rs, x), rs)
  {
    if |rs| > 0 {
      WithoutIsSubsequence(rs[1..], x);
      var r := Without(rs, x);
      if rs[0].id != x {
        assert r[0] == rs[0] && r[1..] == Without(rs[1..], x);
      }
    }
  }

  /**
    Filtering removes every copy of an entry with id `x` and keeps every copy
    of every other entry, however many entries share an id.
   */
  lemma {:induction false} WithoutCounts<Id, V>(rs: seq<Entry<Id, V>>, x: Id)
    ensures forall e :: multiset(Without(rs, x))[e] == if e.id == x then 0 else multiset(rs)[e]
  {
    if |rs| > 0 {
      WithoutCounts(rs[1..], x);
      assert rs == [rs[0]] + rs[1..];
      assert multiset(rs) == multiset{rs[0]} + multiset(rs[1..]);
    }
  }

  /** Filtering drops exactly the entries that carry id `x`. */
  lemma {:induction false} WithoutLength<Id, V>(rs: seq<Entry<Id, V>>, x: Id)
    ensures |Without(rs, x)| == |rs| - CountId(rs, x)
  {
    if |rs| > 0 {
      WithoutLength(rs[1..], x);
    }
  }

  /** Some entry carries id `x` exactly when at least one is counted. */
  lemma {:induction false} CountIdPositive<Id, V>(rs: seq<Entry<Id, V>>, x: Id)
    ensures HasId(rs, x) <==> CountId(rs, x) > 0
  {
    if |rs| > 0 {
      CountIdPositive(rs[1..], x);
      if HasId(rs[1..], x) {
        var i :| 0 <= i < |rs[1..]| && rs[1..][i].id == x;
        assert rs[i + 1].id == x;
      }
      if HasId(rs, x) && rs[0].id != x {
        var i :| 0 <= i < |rs| && rs[i].id == x;
        assert rs[1..][i - 1].id == x;
      }
    }
  }

  /** Filtering returns its input exactly when no entry carries id `x`. */
  lemma {:induction false} WithoutUnchanged<Id, V>(rs: seq<Entry<Id, V>>, x: Id)
    ensures Without(rs, x) == rs <==> !HasId(rs, x)
  {
    if |rs| > 0 {
      WithoutUnchanged(rs[1..], x);
      if !HasId(rs, x) {
        assert !HasId(rs[1..], x) by {
          forall i | 0 <= i < |rs[1..]| ensures rs[1..][i].id != x {
            assert rs[1..][i] == rs[i + 1];
          }
        }
        assert rs == [rs[0]] + rs[1..];
      }
    }
  }

  /** Filtering twice by the same id is filtering once. */
  lemma {:induction false} WithoutIdempotent<Id, V>(rs: seq<Entry<Id, V>>, x: Id)
    ensures Without(Without(rs, x), x) == Without(rs, x)
  {
    WithoutUnchanged(Without(rs, x), x);
  }

  /** Filtering a concatenation filters each part. */
  lemma {:induction false} WithoutAppend<Id, V>(a: seq<Entry<Id, V>>, b: seq<Entry<Id, V>>, x: Id)
    ensures Without(a + b, x) == Without(a, x) + Without(b, x)
  {
    if |a| > 0 {
      WithoutAppend(a[1..], b, x);
      assert (a + b)[1..] == a[1..] + b;
    } else {
      assert a + b == b;
    }
  }

  /**
    The filter is THE longest subsequence of `rs` free of id `x`: every such
    subsequence is at most as long, and one that is as long is the filter's
    result.  With `WithoutIsSubsequence` this pins `Without` down uniquely.
   */
  lemma {:induction false} WithoutMaximal<Id, V>(rs: seq<Entry<Id, V>>, x: Id, t: seq<Entry<Id, V>>)
    requires IsSubsequence(t, rs)
    requires forall i :: 0 <= i < |t| ==> t[i].id != x
    ensures |t| <= |Without(rs, x)|
    ensures |t| == |Without(rs, x)| ==> t == Without(rs, x)
    decreases |rs|
  {
    if t == [] {
    } else {
      assert rs != [];
      var w := Without(rs, x);
      var w' := Without(rs[1..], x);
      if t[0] == rs[0] && IsSubsequence(t[1..], rs[1..]) {
        assert rs[0].id != x;
        WithoutMaximal(rs[1..], x, t[1..]);
        assert w == [rs[0]] + w';
        if |t| == |w| {
          assert t == [t[0]] + t[1..];
        }
      } else {
        assert IsSubsequence(t, rs[1..]);
        WithoutMaximal(rs[1..], x, t);
        if rs[0].id == x {
          assert w == w';
        } else {
          assert |w| == |w'| + 1;
        }
      }
    }
  }

  // ---------------------------------------------------------------------------
  // Properties of the reducer
  // ---------------------------------------------------------------------------

  /**
    Without a state the reducer starts from the empty sequence: a store then
    yields exactly the one new entry, every other action yields no entries.
   */
  lemma AbsentStateIsEmpty<Id, V>(action: Action<Id, V>, freshId: Id)
    ensures Reduce(None, action, freshId).results
         == if action.StoreResult? then [Entry(freshId, action.result)] else []
  {
  }

  /**
    A store appends exactly one entry, carrying the fresh id and the action's
    payload, and leaves every earlier entry where and as it was.
   */
  lemma StoreAppendsOne<Id, V>(state: Option<State<Id, V>>, v: V, freshId: Id)
    ensures var before := Start(state).results;
            var after := Reduce(state, StoreResult(v), freshId).results;
            && |after| == |before| + 1
            && after[..|before|] == before
            && after[|before|] == Entry(freshId, v)
  {
  }

  /**
    Storing the same payload twice yields two separate entries at the end,
    in the order they were stored; they are distinct exactly when the two
    ids are.  In the original program the two ids are two distinct `Date`
    objects, so the two entries are always distinct there.
   */
  lemma StoreTwice<Id, V>(state: Option<State<Id, V>>, v: V, id1: Id, id2: Id)
    ensures var before := Start(state).results;
            var after := Reduce(Some(Reduce(state, StoreResult(v), id1)), StoreResult(v), id2).results;
            && after == before + [Entry(id1, v), Entry(id2, v)]
            && (after[|before|] != after[|before| + 1] <==> id1 != id2)
  {
  }

  /**
    A delete leaves exactly the entries whose id differs from the action's,
    in their original order: no entry with that id remains (however many
    there were), every other entry keeps its multiplicity, the length drops
    by the number of matching entries, and the state never grows.
   */
  lemma DeleteKeepsOthers<Id, V>(state: Option<State<Id, V>>, x: Id, freshId: Id)
    ensures var before := Start(state).results;
            var after := Reduce(state, DeleteResult(x), freshId).results;
            && IsSubsequence(after, before)
            && !HasId(after, x)
            && |after| == |before| - CountId(before, x) <= |before|
            && forall e :: multiset(after)[e] == if e.id == x then 0 else multiset(before)[e]
  {
    var before := Start(state).results;
    WithoutIsSubsequence(before, x);
    WithoutLength(before, x);
    WithoutCounts(before, x);
  }

  /** A delete changes nothing exactly when no entry carries the id it names. */
  lemma DeleteUnknownIsNoop<Id, V>(state: Option<State<Id, V>>, x: Id, freshId: Id)
    ensures Reduce(state, DeleteResult(x), freshId) == Start(state) <==> !HasId(Start(state).results, x)
  {
    WithoutUnchanged(Start(state).results, x);
  }

  /** Deleting the same id twice is deleting it once. */
  lemma DeleteIdempotent<Id, V>(state: Option<State<Id, V>>, x: Id, id1: Id, id2: Id)
    ensures var once := Reduce(state, DeleteResult(x), id1);
            Reduce(Some(once), DeleteResult(x), id2) == once
  {
    WithoutIdempotent(Start(state).results, x);
  }

  /** Every action other than a store or a delete returns the state it was given. */
  lemma OtherIsIdentity<Id, V>(s: State<Id, V>, kind: string, freshId: Id)
    ensures Reduce(Some(s), Other(kind), freshId) == s
  {
  }

  /**
    Storing under an id no entry carries and then deleting that id restores
    the state before the store.  A new `Date` object compared by reference
    is always such an id.
   */
  lemma StoreThenDelete<Id, V>(state: Option<State<Id, V>>, v: V, freshId: Id, otherId: Id)
    requires !HasId(Start(state).results, freshId)
    ensures Reduce(Some(Reduce(state, StoreResult(v), freshId)), DeleteResult(freshId), otherId) == Start(state)
  {
    var before := Start(state).results;
    WithoutAppend(before, [Entry(freshId, v)], freshId);
    WithoutUnchanged(before, freshId);
    assert Without([Entry(freshId, v)], freshId) == [];
  }

  /**
    What comparing ids by value costs: if a new id equals one an older entry
    already carries, deleting the new entry by its id takes the older one with
    it, so the state after the store and the delete is strictly shorter than
    before the store.  This cannot happen in the original program, whose new
    ids are new objects compared by reference.
   */
  lemma StoreThenDeleteCollision<Id, V>(state: Option<State<Id, V>>, v: V, freshId: Id, otherId: Id)
    requires HasId(Start(state).results, freshId)
    ensures |Reduce(Some(Reduce(state, StoreResult(v), freshId)), DeleteResult(freshId), otherId).results|
          < |Start(state).results|
  {
    var before := Start(state).results;
    WithoutAppend(before, [Entry(freshId, v)], freshId);
    assert Without([Entry(freshId, v)], freshId) == [];
    CountIdPositive(before, freshId);
    WithoutLength(before, freshId);
  }

  /** Deleting id 1 from `[{1, "a"}, {2, "b"}]` leaves `[{2, "b"}]`; deleting id 999 leaves both. */
  lemma DeleteExamples()
    ensures var s := State([Entry(1, "a"), Entry(2, "b")]);
            && Reduce(Some(s), DeleteResult(1), 0).results == [Entry(2, "b")]
            && Reduce(Some(s), DeleteResult(999), 0).results == s.results
  {
  }
}
