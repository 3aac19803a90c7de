/** Mutation at chosen locations (genetic/mutation.py and
    genetic/exercises/mutation.py, which are the same program): the string
    becomes a list of characters, each listed location is toggled in turn,
    and the list is joined back. Locations follow Python list indexing: a
    negative location counts from the end, and one outside the list is an
    IndexError. */
module BitToggle {
  import opened Util

  datatype Result<T> = Ok(value: T) | IndexError

  /** '1' for '0' and '0' for anything else. */
  function Toggle(c: char): (t: char)
    ensures c == '0' <==> t == '1'
    ensures c == '1' ==> t == '0'
  {
    if c == '0' then '1' else '0'
  }

  /** The character after k toggles. */
  function ToggleTimes(c: char, k: nat): char
  {
    if k == 0 then c else Toggle(ToggleTimes(c, k - 1))
  }

  /** How many of the locations refer to position p of a list of length n. */
  function Hits(locations: seq<int>, n: nat, p: nat): nat
  {
    multiset(locations)[p] + multiset(locations)[p as int - n]
  }

  /** The list after toggling the locations from first to last; the first
      location outside the list stops everything with an IndexError. */
  function Toggled(s: string, locations: seq<int>): (r: Result<string>)
    ensures r.Ok? ==> |r.value| == |s|
  {
    if locations == [] then Ok(s)
    else
      match Toggled(s, locations[..|locations| - 1])
      case IndexError => IndexError
      case Ok(t) =>
        var x := locations[|locations| - 1];
        if PyIndex(x, |t|) then
          var p := PyPosition(x, |t|);
          Ok(t[p := Toggle(t[p])])
        else IndexError
  }

  /** mutate(chromosome, locations). */
  method Mutate(chromosome: string, locations: seq<int>) returns (r: Result<string>)
    ensures r == Toggled(chromosome, locations)
    ensures locations == [] ==> r == Ok(chromosome)
  {
    var bits := chromosome;
    var i := 0;
    while i < |locations|
      invariant 0 <= i <= |locations|
      invariant Toggled(chromosome, locations[..i]) == Ok(bits)
    {
      var x := locations[i];
      assert locations[..i + 1][..i] == locations[..i];
      if !PyIndex(x, |bits|) {
        assert Toggled(chromosome, locations[..i + 1]) == IndexError;
        IndexErrorSticks(chromosome, locations, i + 1);
        return IndexError;
      }
      var p := PyPosition(x, |bits|);
      bits := bits[p := Toggle(bits[p])];
      i := i + 1;
    }
    assert locations[..i] == locations;
    return Ok(bits);
  }

  /** Once a prefix of the locations fails, the whole list fails. */
  lemma {:induction false} IndexErrorSticks(s: string, locations: seq<int>, i: nat)
    requires i <= |locations| && Toggled(s, locations[..i]) == IndexError
    ensures Toggled(s, locations) == IndexError
    decreases |locations| - i
  {
    if i < |locations| {
      assert locations[..i + 1][..i] == locations[..i];
      IndexErrorSticks(s, locations, i + 1);
    } else {
      assert locations[..i] == locations;
    }
  }

  /** Mutation fails exactly when some location is outside the list;
      otherwise the length is kept and every position holds its character
      toggled once per location that refers to it. */
  lemma {:induction false} ToggledSpec(s: string, locations: seq<int>)
    ensures Toggled(s, locations).Ok? <==> forall k :: 0 <= k < |locations| ==> PyIndex(locations[k], |s|)
    ensures Toggled(s, locations).Ok? ==>
      && |Toggled(s, locations).value| == |s|
      && forall p :: 0 <= p < |s| ==> Toggled(s, locations).value[p] == ToggleTimes(s[p], Hits(locations, |s|, p))
  {
    if locations != [] {
      var front := locations[..|locations| - 1];
      var x := locations[|locations| - 1];
      assert locations == front + [x];
      ToggledSpec(s, front);
      if Toggled(s, front).Ok? {
        var t := Toggled(s, front).value;
        if PyIndex(x, |s|) {
          var q := PyPosition(x, |s|);
          forall p | 0 <= p < |s|
            ensures Toggled(s, locations).value[p] == ToggleTimes(s[p], Hits(locations, |s|, p))
          {
            assert multiset(locations) == multiset(front) + multiset{x};
            if p == q {
              assert Hits(locations, |s|, p) == Hits(front, |s|, p) + 1;
            } else {
              assert Hits(locations, |s|, p) == Hits(front, |s|, p);
            }
          }
        }
      }
    }
  }

  /** Toggling twice restores '0' and '1'. */
  lemma {:induction false} ToggleTimesParity(c: char, k: nat)
    requires c == '0' || c == '1'
    ensures ToggleTimes(c, k) == if k % 2 == 1 then Toggle(c) else c
  {
    if k > 0 {
      ToggleTimesParity(c, k - 1);
    }
  }

  /** On a string of '0' and '1', a position referred to an odd number of
      times is toggled, and any other position (in particular one no
      location refers to) is unchanged. */
  lemma ToggledParity(s: string, locations: seq<int>, p: nat)
    requires forall i :: 0 <= i < |s| ==> s[i] == '0' || s[i] == '1'
    requires Toggled(s, locations).Ok? && p < |s|
    ensures Hits(locations, |s|, p) % 2 == 1 ==> Toggled(s, locations).value[p] == Toggle(s[p])
    ensures Hits(locations, |s|, p) % 2 == 0 ==> Toggled(s, locations).value[p] == s[p]
  {
    ToggledSpec(s, locations);
    ToggleTimesParity(s[p], Hits(locations, |s|, p));
  }

  /** A position no location refers to keeps its character, whatever it is. */
  lemma Untouched(s: string, locations: seq<int>, p: nat)
    requires Toggled(s, locations).Ok? && p < |s|
    requires forall k :: 0 <= k < |locations| ==> locations[k] != p && locations[k] != p - |s|
    ensures Toggled(s, locations).value[p] == s[p]
  {
    ToggledSpec(s, locations);
    assert p !in multiset(locations) && (p - |s|) !in multiset(locations);
  }

  /** The order of the locations does not matter: any rearrangement gives
      the same result (or the same IndexError). */
  lemma OrderIndependent(s: string, l1: seq<int>, l2: seq<int>)
    requires multiset(l1) == multiset(l2)
    ensures Toggled(s, l1) == Toggled(s, l2)
  {
    ToggledSpec(s, l1);
    ToggledSpec(s, l2);
    if Toggled(s, l1).Ok? {
      forall k | 0 <= k < |l2| ensures PyIndex(l2[k], |s|) {
        assert l2[k] in multiset(l1);
      }
      assert Toggled(s, l1).value == Toggled(s, l2).value;
    } else {
      var k :| 0 <= k < |l1| && !PyIndex(l1[k], |s|);
      assert l1[k] in multiset(l2);
    }
  }
}
