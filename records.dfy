/**
 * The student record and the small helpers every other module shares:
 * optional values, results with an error, and the list operations the
 * store performs on a record's subject lists.
 */
module Records {

  datatype Option<+T> = None | Some(value: T)

  datatype Result<+T, +E> = Ok(value: T) | Err(error: E)

  /** One student: an identifier, a name and three subject lists.  `marks[i]`
      is the mark obtained in `completed[i]`. */
  datatype Student = Student(
    id: string,
    name: string,
    enrolled: seq<string>,
    completed: seq<string>,
    marks: seq<int>)

  predicate NoDuplicates<T(==)>(xs: seq<T>) {
    forall i, j :: 0 <= i < j < |xs| ==> xs[i] != xs[j]
  }

  /** The record invariant the store's operations are meant to keep:
      no subject listed twice, a subject never both enrolled and completed,
      one mark per completed subject, every mark in [0, 100]. */
  predicate WellFormed(st: Student) {
    && NoDuplicates(st.enrolled)
    && NoDuplicates(st.completed)
    && (forall x :: x in st.enrolled ==> x !in st.completed)
    && |st.completed| == |st.marks|
    && (forall m :: m in st.marks ==> 0 <= m <= 100)
  }

  /** Position of the first occurrence of `x` (Python's `list.index`). */
  function FirstIndex<T(==)>(xs: seq<T>, x: T): (r: Option<nat>)
    ensures r.Some? ==> r.value < |xs| && xs[r.value] == x
                        && forall j :: 0 <= j < r.value ==> xs[j] != x
    ensures r.None? <==> x !in xs
  {
    if xs == [] then None
    else if xs[0] == x then Some(0)
    else match FirstIndex(xs[1..], x)
      case None => None
      case Some(k) => Some(k + 1)
  }

  /** `xs` without its element at position `k` (Python's `list.pop(k)`). */
  function RemoveAt<T>(xs: seq<T>, k: nat): (r: seq<T>)
    requires k < |xs|
    ensures |r| == |xs| - 1
    ensures forall j :: 0 <= j < k ==> r[j] == xs[j]
    ensures forall j :: k <= j < |r| ==> r[j] == xs[j + 1]
  {
    xs[..k] + xs[k + 1..]
  }

  /** Python's `list.remove(x)`: drops the first occurrence of `x`.  Every
      caller in the store checks `x in xs` first, so `remove` never raises. */
  function RemoveFirst<T(==)>(xs: seq<T>, x: T): (r: seq<T>)
    requires x in xs
    ensures |r| == |xs| - 1
  {
    RemoveAt(xs, FirstIndex(xs, x).value)
  }

  /** `remove` drops the FIRST occurrence: the elements before it do not
      include `x`, and the rest of the list is kept in order. */
  lemma RemoveFirstIsFirst<T>(xs: seq<T>, x: T)
    requires x in xs
    ensures exists k :: 0 <= k < |xs| && xs[k] == x && x !in xs[..k]
                        && RemoveFirst(xs, x) == xs[..k] + xs[k + 1..]
  {
    var k := FirstIndex(xs, x).value;
    assert x !in xs[..k];
  }

  /** `remove` takes away one occurrence of `x` and nothing else. */
  lemma RemoveFirstMultiset<T>(xs: seq<T>, x: T)
    requires x in xs
    ensures multiset(RemoveFirst(xs, x)) == multiset(xs) - multiset{x}
  {
    var k := FirstIndex(xs, x).value;
    assert xs == xs[..k] + [x] + xs[k + 1..];
  }

  /** Removing from a list without duplicates removes the element entirely
      and keeps every other element. */
  lemma RemoveFirstNoDuplicates<T>(xs: seq<T>, x: T)
    requires x in xs && NoDuplicates(xs)
    ensures NoDuplicates(RemoveFirst(xs, x))
    ensures x !in RemoveFirst(xs, x)
    ensures forall y :: y in RemoveFirst(xs, x) <==> y in xs && y != x
  {
    var r := RemoveFirst(xs, x);
    var k := FirstIndex(xs, x).value;
    forall y
      ensures y in r <==> y in xs && y != x
    {
      if y in r {
        var j :| 0 <= j < |r| && r[j] == y;
        if j < k { assert xs[j] == y; } else { assert xs[j + 1] == y; }
      }
      if y in xs && y != x {
        var j :| 0 <= j < |xs| && xs[j] == y;
        if j < k { assert r[j] == y; } else { assert j != k; assert r[j - 1] == y; }
      }
    }
  }

  /** Removing the first occurrence of an element that was appended last
      undoes the append. */
  lemma RemoveFirstOfAppended<T>(xs: seq<T>, x: T)
    requires x !in xs
    ensures RemoveFirst(xs + [x], x) == xs
  {
    FirstIndexOfAppended(xs, x);
  }

  /** Removing the head of a list removes exactly that. */
  lemma RemoveFirstHead<T>(xs: seq<T>, x: T)
    requires |xs| > 0 && xs[0] == x
    ensures RemoveFirst(xs, x) == xs[1..]
  {
    assert FirstIndex(xs, x) == Some(0);
  }

  /** An element appended to a list that lacks it is first found at the end. */
  lemma FirstIndexOfAppended<T>(xs: seq<T>, x: T)
    requires x !in xs
    ensures FirstIndex(xs + [x], x) == Some(|xs|)
  {
    var ys := xs + [x];
    assert ys[|xs|] == x;
    assert forall j :: 0 <= j < |xs| ==> ys[j] == xs[j];
  }

  /** Popping an element keeps only elements of the list. */
  lemma RemoveAtSubset<T>(xs: seq<T>, k: nat)
    requires k < |xs|
    ensures forall y :: y in RemoveAt(xs, k) ==> y in xs
  {
    var r := RemoveAt(xs, k);
    forall y | y in r
      ensures y in xs
    {
      var j :| 0 <= j < |r| && r[j] == y;
      if j < k { assert xs[j] == y; } else { assert xs[j + 1] == y; }
    }
  }

  /** Popping from a list without duplicates leaves one without duplicates
      and without the popped element. */
  lemma RemoveAtNoDuplicates<T>(xs: seq<T>, k: nat)
    requires k < |xs| && NoDuplicates(xs)
    ensures NoDuplicates(RemoveAt(xs, k))
    ensures xs[k] !in RemoveAt(xs, k)
  {
    var r := RemoveAt(xs, k);
    forall i, j | 0 <= i < j < |r|
      ensures r[i] != r[j]
    {
      var i' := if i < k then i else i + 1;
      var j' := if j < k then j else j + 1;
      assert r[i] == xs[i'] && r[j] == xs[j'];
    }
    forall j | 0 <= j < |r|
      ensures r[j] != xs[k]
    {
      var j' := if j < k then j else j + 1;
      assert r[j] == xs[j'];
    }
  }

  /** Appending an element a list lacks keeps it free of duplicates. */
  lemma AppendNoDuplicates<T>(xs: seq<T>, x: T)
    requires NoDuplicates(xs) && x !in xs
    ensures NoDuplicates(xs + [x])
  {
    var r := xs + [x];
    forall i, j | 0 <= i < j < |r|
      ensures r[i] != r[j]
    {
      if j == |xs| { assert r[i] == xs[i]; }
    }
  }

  /** Concatenation is associative. */
  lemma AppendAssociative<T>(x: seq<T>, y: seq<T>, z: seq<T>)
    ensures (x + y) + z == x + (y + z)
  {
  }
}
