/** Single-point crossover of two chromosome strings
    (genetic/crossover.py), with Python's slice semantics for the cut point:
    a negative cut counts from the end and every cut is clamped to the
    string. */
module CrossExercise {

  datatype Result<T> = Ok(value: T) | AssertionError

  /** Where s[:cut] ends (and s[cut:] begins) for a string of length n. */
  function SliceIndex(cut: int, n: nat): (k: nat)
    ensures k <= n
    ensures 0 <= cut <= n ==> k == cut
    ensures cut > n ==> k == n
    ensures cut < -(n as int) ==> k == 0
    ensures -(n as int) <= cut < 0 ==> k == cut + n
  {
    if cut < 0 then (if cut + n < 0 then 0 else cut + n)
    else if cut > n then n
    else cut
  }

  /** cross: an AssertionError for strings of different lengths, otherwise
      a[:cut] + b[cut:] and b[:cut] + a[cut:]. */
  function Cross(a: string, b: string, cut: int): Result<(string, string)>
  {
    if |a| != |b| then AssertionError
    else
      var k := SliceIndex(cut, |a|);
      Ok((a[..k] + b[k..], b[..k] + a[k..]))
  }

  /** Both children are as long as the parents; before the cut each child
      copies its own parent and from the cut on the other parent, so at every
      position the two children hold the parents' two characters, in the
      same or swapped order. */
  lemma CrossSpec(a: string, b: string, cut: int)
    ensures Cross(a, b, cut).AssertionError? <==> |a| != |b|
    ensures Cross(a, b, cut).Ok? ==>
      var (x, y) := Cross(a, b, cut).value;
      var k := SliceIndex(cut, |a|);
      && |x| == |y| == |a|
      && (forall i :: 0 <= i < k ==> x[i] == a[i] && y[i] == b[i])
      && (forall i :: k <= i < |a| ==> x[i] == b[i] && y[i] == a[i])
      && (forall i :: 0 <= i < |a| ==> (x[i] == a[i] && y[i] == b[i]) || (x[i] == b[i] && y[i] == a[i]))
  {
  }

  /** Cutting at 0 (or before the start) swaps the parents. */
  lemma CrossAtStart(a: string, b: string, cut: int)
    requires |a| == |b| && (cut <= -(|a| as int) || cut == 0)
    ensures Cross(a, b, cut) == Ok((b, a))
  {
    assert a[..0] + b[0..] == b;
    assert b[..0] + a[0..] == a;
  }

  /** Cutting at the length (or beyond) returns the parents unchanged. */
  lemma CrossAtEnd(a: string, b: string, cut: int)
    requires |a| == |b| && cut >= |a|
    ensures Cross(a, b, cut) == Ok((a, b))
  {
    assert a[..|a|] + b[|a|..] == a;
    assert b[..|a|] + a[|a|..] == b;
  }

  /** Crossing the children again at the same cut gives back the parents. */
  lemma CrossTwice(a: string, b: string, cut: int)
    requires |a| == |b|
    ensures var (x, y) := Cross(a, b, cut).value;
      Cross(x, y, cut) == Ok((a, b))
  {
    var (x, y) := Cross(a, b, cut).value;
    var k := SliceIndex(cut, |a|);
    assert x[..k] + y[k..] == a[..k] + a[k..] == a;
    assert y[..k] + x[k..] == b[..k] + b[k..] == b;
  }
}
