/** Sampling without replacement (`RandomUtils.MultiSample`), together with the
    facts about sequences that its contract is stated in. */
module Utils {
  import opened DotNet

  /** The part of `n` a counting loop `while count < n` actually reaches. */
  function Max0(n: int): nat {
    if n < 0 then 0 else n
  }

  /** No value occurs twice. */
  predicate Distinct<T(==)>(s: seq<T>) {
    forall i, j :: 0 <= i < j < |s| ==> s[i] != s[j]
  }

  /** `a` is `b` with some of its elements left out, the rest in their order. */
  predicate IsSubsequence<T(==)>(a: seq<T>, b: seq<T>)
    decreases |b|
  {
    a == [] || (b != [] && ((a[0] == b[0] && IsSubsequence(a[1..], b[1..])) || IsSubsequence(a, b[1..])))
  }

  /** `List.RemoveAt(i)`: the element at `i` leaves, the others close up in order. */
  function RemoveAt<T>(s: seq<T>, i: nat): (r: seq<T>)
    requires i < |s|
    ensures |r| == |s| - 1
    ensures forall k :: 0 <= k < |r| ==> r[k] == if k < i then s[k] else s[k + 1]
  {
    s[..i] + s[i + 1..]
  }

  /** Removing keeps every other element: together with the removed one, the
      multiset is that of the original. */
  lemma RemoveAtMultiset<T>(s: seq<T>, i: nat)
    requires i < |s|
    ensures multiset(RemoveAt(s, i)) + multiset{s[i]} == multiset(s)
  {
    assert s == s[..i] + [s[i]] + s[i + 1..];
  }

  lemma {:induction false} SubsequenceReflexive<T>(s: seq<T>)
    ensures IsSubsequence(s, s)
  {
    if s != [] {
      SubsequenceReflexive(s[1..]);
    }
  }

  lemma {:induction false} SubsequenceTransitive<T>(a: seq<T>, b: seq<T>, c: seq<T>)
    requires IsSubsequence(a, b) && IsSubsequence(b, c)
    ensures IsSubsequence(a, c)
    decreases |c|
  {
    if a != [] {
      assert b != [] && c != [];
      if IsSubsequence(b, c[1..]) {
        SubsequenceTransitive(a, b, c[1..]);
      } else {
        assert b[0] == c[0] && IsSubsequence(b[1..], c[1..]);
        if a[0] == b[0] && IsSubsequence(a[1..], b[1..]) {
          SubsequenceTransitive(a[1..], b[1..], c[1..]);
        } else {
          SubsequenceTransitive(a, b[1..], c[1..]);
        }
      }
    }
  }

  /** Removing one element keeps the others in their relative order. */
  lemma {:induction false} RemoveAtIsSubsequence<T>(s: seq<T>, i: nat)
    requires i < |s|
    ensures IsSubsequence(RemoveAt(s, i), s)
    decreases i
  {
    if i == 0 {
      assert RemoveAt(s, 0) == s[1..];
      SubsequenceReflexive(s[1..]);
    } else {
      RemoveAtIsSubsequence(s[1..], i - 1);
      assert RemoveAt(s, i)[0] == s[0];
      assert RemoveAt(s, i)[1..] == RemoveAt(s[1..], i - 1);
    }
  }

  /** A value that occurs at two positions occurs at least twice in the multiset. */
  lemma RepeatedValueCountsTwice<T>(s: seq<T>, i: nat, j: nat)
    requires i < j < |s| && s[i] == s[j]
    ensures multiset(s)[s[i]] >= 2
  {
    assert s == s[..j] + s[j..];
    assert s[i] in s[..j];
    assert s[j..][0] == s[i];
  }

  lemma {:induction false} DistinctCountsOnce<T>(s: seq<T>, x: T)
    requires Distinct(s)
    ensures multiset(s)[x] <= 1
  {
    if s != [] {
      assert s == [s[0]] + s[1..];
      assert Distinct(s[1..]);
      DistinctCountsOnce(s[1..], x);
      if x == s[0] {
        assert x !in s[1..];
      }
    }
  }

  /** Every part of a sequence without repetitions is itself without repetitions;
      in particular a permutation of one keeps that property. */
  lemma SubMultisetKeepsDistinct<T>(a: seq<T>, b: seq<T>)
    requires multiset(a) <= multiset(b) && Distinct(b)
    ensures Distinct(a)
  {
    forall i, j | 0 <= i < j < |a|
      ensures a[i] != a[j]
    {
      if a[i] == a[j] {
        RepeatedValueCountsTwice(a, i, j);
        DistinctCountsOnce(b, a[i]);
        assert false;
      }
    }
  }

  /** `InvalidOperationException`, with the number of elements that was asked for. */
  datatype Error = InvalidOperation(required: int)

  datatype Result<T> = Ok(value: T) | Err(error: Error)

  datatype Outcome = Pass | Fail(error: Error)

  /** The outcome of sampling: the elements taken, in the order drawn, and what is
      left of the list. */
  datatype Sample<T> = Sample(taken: seq<T>, rest: seq<T>)

  /** `picks` are what `n` successive calls `Random.Next(count)` return while a list of
      `size` elements shrinks by one per call. */
  predicate DrawsFit(size: int, picks: seq<nat>, n: int)
    // the `k`-th pick is a result of `Next(size - k)` that `ElementAt` accepts
    ensures n <= size ==>
              (DrawsFit(size, picks, n) <==> n <= |picks| && forall k :: 0 <= k < n ==> IsNextBelow(size - k, picks[k]))
  {
    n <= |picks| && forall k :: 0 <= k < n ==> picks[k] < size - k
  }

  /** Sampling `n` elements without replacement, drawing the positions `picks`. */
  function Draw<T>(elements: seq<T>, picks: seq<nat>, n: int): (s: Sample<T>)
    requires n <= |elements| && DrawsFit(|elements|, picks, n)
    ensures |s.taken| == Max0(n) && |s.rest| == |elements| - Max0(n)
    decreases n
  {
    if n <= 0 then Sample([], elements)
    else
      var i := picks[0];
      var tail := Draw(RemoveAt(elements, i), picks[1..], n - 1);
      Sample([elements[i]] + tail.taken, tail.rest)
  }

  /** One draw: the first element taken is the one at the first position drawn. */
  lemma DrawFirst<T>(elements: seq<T>, picks: seq<nat>, n: int)
    requires 0 < n <= |elements| && DrawsFit(|elements|, picks, n)
    ensures Draw(elements, picks, n).taken
         == [elements[picks[0]]] + Draw(RemoveAt(elements, picks[0]), picks[1..], n - 1).taken
    ensures Draw(elements, picks, n).rest == Draw(RemoveAt(elements, picks[0]), picks[1..], n - 1).rest
  {
  }

  /** One iteration of the sampling loop keeps what is still to be drawn in step
      with the whole draw. */
  lemma DrawStep<T>(goal: Sample<T>, taken: seq<T>, list: seq<T>, picks: seq<nat>, i: nat, length: int)
    requires i < length && i <= |picks| && length - i <= |list| && DrawsFit(|list|, picks[i..], length - i)
    requires goal.taken == taken + Draw(list, picks[i..], length - i).taken
    requires goal.rest == Draw(list, picks[i..], length - i).rest
    ensures picks[i] < |list|
    ensures DrawsFit(|list| - 1, picks[i + 1..], length - (i + 1))
    ensures goal.taken == (taken + [list[picks[i]]]) + Draw(RemoveAt(list, picks[i]), picks[i + 1..], length - (i + 1)).taken
    ensures goal.rest == Draw(RemoveAt(list, picks[i]), picks[i + 1..], length - (i + 1)).rest
  {
    DrawFirst(list, picks[i..], length - i);
    assert picks[i..][1..] == picks[i + 1..];
    var tail := Draw(RemoveAt(list, picks[i]), picks[i + 1..], length - (i + 1)).taken;
    assert taken + ([list[picks[i]]] + tail) == (taken + [list[picks[i]]]) + tail;
  }

  /** Nothing is lost or invented: what is taken and what is left together make up
      the input. */
  lemma {:induction false} DrawMultiset<T>(elements: seq<T>, picks: seq<nat>, n: int)
    requires n <= |elements| && DrawsFit(|elements|, picks, n)
    ensures multiset(Draw(elements, picks, n).taken) + multiset(Draw(elements, picks, n).rest)
         == multiset(elements)
    decreases n
  {
    if n > 0 {
      var shorter := RemoveAt(elements, picks[0]);
      DrawMultiset(shorter, picks[1..], n - 1);
      RemoveAtMultiset(elements, picks[0]);
    }
  }

  /** What is left keeps its relative order. */
  lemma {:induction false} DrawKeepsOrder<T>(elements: seq<T>, picks: seq<nat>, n: int)
    requires n <= |elements| && DrawsFit(|elements|, picks, n)
    ensures IsSubsequence(Draw(elements, picks, n).rest, elements)
    decreases n
  {
    if n <= 0 {
      SubsequenceReflexive(elements);
    } else {
      var shorter := RemoveAt(elements, picks[0]);
      DrawKeepsOrder(shorter, picks[1..], n - 1);
      RemoveAtIsSubsequence(elements, picks[0]);
      SubsequenceTransitive(Draw(shorter, picks[1..], n - 1).rest, shorter, elements);
    }
  }

  /** Drawing from pairwise distinct elements yields pairwise distinct elements, all
      taken from the input. */
  lemma DrawIsDistinct<T>(elements: seq<T>, picks: seq<nat>, n: int)
    requires n <= |elements| && DrawsFit(|elements|, picks, n)
    ensures forall x :: x in Draw(elements, picks, n).taken ==> x in elements
    ensures Distinct(elements) ==> Distinct(Draw(elements, picks, n).taken)
  {
    var s := Draw(elements, picks, n);
    DrawMultiset(elements, picks, n);
    assert multiset(s.taken) <= multiset(elements);
    forall x | x in s.taken
      ensures x in elements
    {
      assert x in multiset(s.taken);
    }
    if Distinct(elements) {
      SubMultisetKeepsDistinct(s.taken, elements);
    }
  }

  /** Everything `MultiSample` promises about a successful draw. */
  lemma DrawFacts<T>(elements: seq<T>, picks: seq<nat>, n: int)
    requires n <= |elements| && DrawsFit(|elements|, picks, n)
    ensures multiset(Draw(elements, picks, n).taken) + multiset(Draw(elements, picks, n).rest)
         == multiset(elements)
    ensures IsSubsequence(Draw(elements, picks, n).rest, elements)
    ensures Distinct(elements) ==> Distinct(Draw(elements, picks, n).taken)
  {
    DrawMultiset(elements, picks, n);
    DrawKeepsOrder(elements, picks, n);
    DrawIsDistinct(elements, picks, n);
  }

  /** `RandomUtils.MultiSample`: takes `length` elements out of `elements` at the
      positions `picks`, one `RemoveAt` per element. The caller's list is changed in
      place by the source; here its new contents are returned as `remaining`. */
  method MultiSample<T(==)>(elements: seq<T>, length: int, picks: seq<nat>)
    returns (result: Result<seq<T>>, remaining: seq<T>)
    requires length <= |elements| ==> DrawsFit(|elements|, picks, length)
    ensures result.Err? <==> |elements| < length
    ensures result.Err? ==> result.error == InvalidOperation(length) && remaining == elements
    ensures result.Ok? ==> result.value == Draw(elements, picks, length).taken
                           && remaining == Draw(elements, picks, length).rest
    ensures result.Ok? ==> |result.value| == Max0(length) && |remaining| == |elements| - Max0(length)
    ensures result.Ok? ==> multiset(result.value) + multiset(remaining) == multiset(elements)
    ensures result.Ok? ==> IsSubsequence(remaining, elements)
    ensures result.Ok? && Distinct(elements) ==> Distinct(result.value)
  {
    if |elements| < length {
      return Err(InvalidOperation(length)), elements;
    }
    var taken: seq<T> := [];
    var list := elements;
    ghost var goal := Draw(elements, picks, length);
    ghost var i := 0;
    while |taken| < length
      invariant i == |taken| <= Max0(length) && |list| == |elements| - i
      invariant DrawsFit(|list|, picks[i..], length - i)
      invariant goal.taken == taken + Draw(list, picks[i..], length - i).taken
      invariant goal.rest == Draw(list, picks[i..], length - i).rest
      decreases length - i
    {
      var index := picks[|taken|];
      var selectedElement := list[index];
      DrawStep(goal, taken, list, picks, i, length);
      list := RemoveAt(list, index);
      taken := taken + [selectedElement];
      i := i + 1;
    }
    assert taken == goal.taken && list == goal.rest;
    DrawFacts(elements, picks, length);
    return Ok(taken), list;
  }
}
