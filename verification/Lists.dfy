/** A filtering map over sequences: the shape shared by the source's list
    comprehensions and its `for ...: if ...: continue; append` loops. */
module Lists {
  import opened Wrappers

  /** Keeps, in order, the values `f` produces for the elements it accepts. */
  function FilterMap<A(!new), B(!new)>(f: A -> Option<B>, s: seq<A>): (r: seq<B>)
    ensures |r| <= |s|
    decreases |s|
  {
    if s == [] then []
    else
      var rest := FilterMap(f, s[1..]);
      match f(s[0])
      case Some(b) => [b] + rest
      case None => rest
  }

  /** A value is kept exactly when some element of `s` produces it. */
  lemma {:induction false} FilterMapMembers<A(!new), B(!new)>(f: A -> Option<B>, s: seq<A>, b: B)
    ensures b in FilterMap(f, s) <==> exists a :: a in s && f(a) == Some(b)
    decreases |s|
  {
    if s != [] {
      FilterMapMembers(f, s[1..], b);
      assert forall a :: a in s <==> a == s[0] || a in s[1..];
    }
  }

  /** Nothing is dropped exactly when every element produces a value. */
  lemma {:induction false} FilterMapKeepsAll<A(!new), B(!new)>(f: A -> Option<B>, s: seq<A>)
    ensures |FilterMap(f, s)| == |s| <==> forall a :: a in s ==> f(a).Some?
    decreases |s|
  {
    if s != [] {
      FilterMapKeepsAll(f, s[1..]);
      assert forall a :: a in s <==> a == s[0] || a in s[1..];
    }
  }

  /** FilterMap works element by element: it keeps the order of its input. */
  lemma {:induction false} FilterMapAppend<A(!new), B(!new)>(f: A -> Option<B>, s: seq<A>, t: seq<A>)
    ensures FilterMap(f, s + t) == FilterMap(f, s) + FilterMap(f, t)
    decreases |s|
  {
    if s == [] {
      assert s + t == t;
    } else {
      assert (s + t)[1..] == s[1..] + t;
      FilterMapAppend(f, s[1..], t);
    }
  }

  /** FilterMap does not care about the order of its input: inputs that are
      permutations of each other give outputs that are too. */
  lemma {:induction false} FilterMapPermutation<A(!new), B(!new)>(f: A -> Option<B>, s: seq<A>, t: seq<A>)
    requires multiset(s) == multiset(t)
    ensures multiset(FilterMap(f, s)) == multiset(FilterMap(f, t))
    decreases |s|
  {
    if s == [] {
      assert |t| == |multiset(t)| == 0;
    } else {
      var a := s[0];
      assert a in multiset(t);
      var k :| 0 <= k < |t| && t[k] == a;
      var left, right := t[..k], t[k + 1..];
      assert t == left + [a] + right;
      RemoveOne(s, left, a, right);
      FilterMapPermutation(f, s[1..], left + right);
      FilterMapMoveFront(f, left, a, right);
      assert s == [a] + s[1..];
      FilterMapAppend(f, [a], s[1..]);
      MultisetOfAppend(FilterMap(f, [a]), FilterMap(f, s[1..]));
    }
  }

  /** Taking the first element of `s` out of a permutation of `s` leaves a
      permutation of the rest. */
  lemma RemoveOne<A>(s: seq<A>, left: seq<A>, a: A, right: seq<A>)
    requires s != [] && s[0] == a
    requires multiset(s) == multiset(left + [a] + right)
    ensures multiset(s[1..]) == multiset(left + right)
  {
    assert s == [a] + s[1..];
    calc {
      multiset(s[1..]) + multiset{a};
      multiset(s);
      multiset(left + [a] + right);
      multiset(left) + multiset{a} + multiset(right);
      multiset(left + right) + multiset{a};
    }
    var rest, others := multiset(s[1..]), multiset(left + right);
    assert rest == (rest + multiset{a}) - multiset{a};
    assert others == (others + multiset{a}) - multiset{a};
  }

  /** Moving one element to the front does not change what FilterMap keeps,
      counted as a multiset. */
  lemma FilterMapMoveFront<A(!new), B(!new)>(f: A -> Option<B>, left: seq<A>, a: A, right: seq<A>)
    ensures multiset(FilterMap(f, left + [a] + right))
         == multiset(FilterMap(f, [a])) + multiset(FilterMap(f, left + right))
  {
    FilterMapAppend(f, left + [a], right);
    FilterMapAppend(f, left, [a]);
    FilterMapAppend(f, left, right);
    var l, m, r := FilterMap(f, left), FilterMap(f, [a]), FilterMap(f, right);
    MultisetOfAppend(l + m, r);
    MultisetOfAppend(l, m);
    MultisetOfAppend(l, r);
  }

  /** Concatenating permutations gives a permutation. */
  lemma AppendPermutations<T>(a: seq<T>, b: seq<T>, c: seq<T>, d: seq<T>)
    requires multiset(a) == multiset(c) && multiset(b) == multiset(d)
    ensures multiset(a + b) == multiset(c + d)
  {
    MultisetOfAppend(a, b);
    MultisetOfAppend(c, d);
  }

  lemma MultisetOfAppend<T>(x: seq<T>, y: seq<T>)
    ensures multiset(x + y) == multiset(x) + multiset(y)
  {
  }

  lemma FilterMapSingle<A(!new), B(!new)>(f: A -> Option<B>, a: A)
    ensures FilterMap(f, [a]) == if f(a).Some? then [f(a).value] else []
  {
    assert [a][1..] == [];
  }

  /** `f` applied to every element, in order, or `None` when some element
      gives `None`. Built from the end, as a loop that appends does. */
  function MapAll<A, B>(f: A -> Option<B>, s: seq<A>): (r: Option<seq<B>>)
    ensures r.Some? ==> |r.value| == |s|
    decreases |s|
  {
    if s == [] then Some([])
    else
      match MapAll(f, s[..|s| - 1])
      case None => None
      case Some(done) =>
        var last := f(s[|s| - 1]);
        if last.Some? then Some(done + [last.value]) else None
  }

  /** `MapAll` succeeds exactly when every element gives a value, and then
      holds those values position by position. */
  lemma {:induction false} MapAllSpec<A, B>(f: A -> Option<B>, s: seq<A>)
    ensures MapAll(f, s).Some? <==> forall i :: 0 <= i < |s| ==> f(s[i]).Some?
    ensures MapAll(f, s).Some? ==> forall i :: 0 <= i < |s| ==> MapAll(f, s).value[i] == f(s[i]).value
    decreases |s|
  {
    if s != [] {
      var front := s[..|s| - 1];
      MapAllSpec(f, front);
      assert forall i :: 0 <= i < |front| ==> front[i] == s[i];
    }
  }
}
