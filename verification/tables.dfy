/** A collection of the document store: rows in insertion order, each with the
    identifier the store assigned to it. Lookups return the FIRST match, which
    is what `findOne`/`findById` return in the store's natural order. */
module Tables {
  import opened Results

  type Id = nat

  datatype Row<T> = Row(id: Id, val: T)

  /** Index of the first row satisfying `p`. */
  function FirstWhere<T>(t: seq<Row<T>>, p: Row<T> -> bool): (r: Option<nat>)
    ensures r.Some? ==> r.value < |t| && p(t[r.value])
    ensures r.Some? ==> forall j :: 0 <= j < r.value ==> !p(t[j])
    ensures r.None? <==> forall j :: 0 <= j < |t| ==> !p(t[j])
    decreases |t|
  {
    if |t| == 0 then None
    else if p(t[0]) then Some(0)
    else match FirstWhere(t[1..], p)
      case None => None
      case Some(k) => Some(k + 1)
  }

  /** Index of the row with identifier `id` (`findById`). */
  function IndexOf<T>(t: seq<Row<T>>, id: Id): (r: Option<nat>)
    ensures r.Some? ==> r.value < |t| && t[r.value].id == id
    ensures r.None? <==> forall j :: 0 <= j < |t| ==> t[j].id != id
  {
    FirstWhere(t, (x: Row<T>) => x.id == id)
  }

  /** The rows satisfying `p`, in table order (`find(filter)`). */
  function Where<T>(t: seq<Row<T>>, p: Row<T> -> bool): (r: seq<Row<T>>)
    ensures |r| <= |t|
    ensures forall i :: 0 <= i < |r| ==> r[i] in t && p(r[i])
    ensures forall j :: 0 <= j < |t| && p(t[j]) ==> t[j] in r
    decreases |t|
  {
    if |t| == 0 then []
    else Where(t[..|t| - 1], p) + (if p(t[|t| - 1]) then [t[|t| - 1]] else [])
  }

  /** The row at index `i` with its value replaced, identifier kept. */
  function Put<T>(t: seq<Row<T>>, i: nat, v: T): (r: seq<Row<T>>)
    requires i < |t|
    ensures |r| == |t| && r[i] == Row(t[i].id, v)
    ensures forall j :: 0 <= j < |t| && j != i ==> r[j] == t[j]
  {
    t[i := Row(t[i].id, v)]
  }

  /** The table without the row at index `i`. */
  function Drop<T>(t: seq<Row<T>>, i: nat): (r: seq<Row<T>>)
    requires i < |t|
    ensures |r| == |t| - 1
    ensures forall j :: 0 <= j < i ==> r[j] == t[j]
    ensures forall j :: i <= j < |r| ==> r[j] == t[j + 1]
  {
    t[..i] + t[i + 1..]
  }

  /** No identifier labels two rows. */
  predicate UniqueIds<T>(t: seq<Row<T>>) {
    forall i, j :: 0 <= i < j < |t| ==> t[i].id != t[j].id
  }

  /** With unique identifiers, dropping the row at `i` removes exactly the
      rows carrying its identifier. */
  lemma DropRemovesId<T>(t: seq<Row<T>>, i: nat)
    requires i < |t| && UniqueIds(t)
    ensures forall x :: x in Drop(t, i) <==> x in t && x.id != t[i].id
  {
    var r := Drop(t, i);
    forall x | x in r
      ensures x in t && x.id != t[i].id
    {
      var k :| 0 <= k < |r| && r[k] == x;
      if k < i {
        assert x == t[k];
      } else {
        assert x == t[k + 1];
      }
    }
    forall x | x in t && x.id != t[i].id
      ensures x in r
    {
      var k :| 0 <= k < |t| && t[k] == x;
      if k < i {
        assert r[k] == x;
      } else {
        assert k != i;
        assert r[k - 1] == x;
      }
    }
  }

  /** Appending a row extends the matches by that row exactly when it matches. */
  lemma WhereSnoc<T>(t: seq<Row<T>>, x: Row<T>, p: Row<T> -> bool)
    ensures Where(t + [x], p) == Where(t, p) + (if p(x) then [x] else [])
  {
    assert (t + [x])[..|t|] == t;
  }

  /** Filtering distributes over concatenation. */
  lemma {:induction false} WhereConcat<T>(a: seq<Row<T>>, b: seq<Row<T>>, p: Row<T> -> bool)
    ensures Where(a + b, p) == Where(a, p) + Where(b, p)
    decreases |b|
  {
    if |b| == 0 {
      assert a + b == a;
    } else {
      var b' := b[..|b| - 1];
      var x := b[|b| - 1];
      assert a + b == (a + b') + [x];
      assert b == b' + [x];
      WhereSnoc(a + b', x, p);
      WhereSnoc(b', x, p);
      WhereConcat(a, b', p);
    }
  }

  /** Dropping a row lowers the number of matches by one exactly when the
      row matches. */
  lemma WhereDrop<T>(t: seq<Row<T>>, i: nat, p: Row<T> -> bool)
    requires i < |t|
    ensures |Where(Drop(t, i), p)| + (if p(t[i]) then 1 else 0) == |Where(t, p)|
  {
    assert t == t[..i] + ([t[i]] + t[i + 1..]);
    WhereConcat(t[..i], [t[i]] + t[i + 1..], p);
    WhereConcat([t[i]], t[i + 1..], p);
    WhereConcat(t[..i], t[i + 1..], p);
    WhereSnoc([], t[i], p);
    assert [] + [t[i]] == [t[i]];
  }

  /** When no row matches, no row is returned. */
  lemma {:induction false} WhereNone<T>(t: seq<Row<T>>, p: Row<T> -> bool)
    requires forall j :: 0 <= j < |t| ==> !p(t[j])
    ensures Where(t, p) == []
    decreases |t|
  {
    if |t| > 0 {
      WhereNone(t[..|t| - 1], p);
    }
  }

  /** Replacing a row by one that agrees on `p` leaves the first match in place. */
  lemma FirstWhereAfterPut<T>(t: seq<Row<T>>, i: nat, v: T, p: Row<T> -> bool)
    requires i < |t|
    requires FirstWhere(t, p) == Some(i)
    requires p(Row(t[i].id, v))
    ensures FirstWhere(Put(t, i, v), p) == Some(i)
  {
    var t' := Put(t, i, v);
    assert forall j :: 0 <= j < i ==> t'[j] == t[j];
  }

  /** No element occurs twice. */
  predicate Distinct<T(==)>(xs: seq<T>) {
    forall i, j :: 0 <= i < j < |xs| ==> xs[i] != xs[j]
  }
}
