/** The JavaScript array operations the branch-policy gate relies on
    (`find`, `filter`, `map`) and the truthiness test it applies to the
    value `find` returns. */
module JsArrays {

  /** A value or JavaScript's `undefined`. */
  datatype Option<T> = None | Some(value: T)

  /** `xs.find(p)`: the first element satisfying `p`, or `undefined`. */
  function Find<T>(xs: seq<T>, p: T -> bool): (r: Option<T>)
    ensures r.Some? ==> (exists i :: 0 <= i < |xs| && xs[i] == r.value && p(xs[i])
                           && forall j :: 0 <= j < i ==> !p(xs[j]))
    ensures r.None? ==> forall i :: 0 <= i < |xs| ==> !p(xs[i])
    decreases |xs|
  {
    if |xs| == 0 then None
    else if p(xs[0]) then Some(xs[0])
    else
      var r := Find(xs[1..], p);
      assert r.Some? ==> (exists i :: 1 <= i < |xs| && xs[i] == r.value && p(xs[i])
                            && forall j :: 0 <= j < i ==> !p(xs[j]));
      r
  }

  /** The predicate `branch => branch === x` passed to `find`. */
  function EqualTo<T(==)>(x: T): T -> bool {
    (y: T) => y == x
  }

  /** JavaScript truthiness of a `string | undefined`: `undefined` and the
      empty string are falsy, every other string is truthy. */
  predicate Truthy(v: Option<string>) {
    v.Some? && v.value != ""
  }

  /** Finding by equality returns the sought value exactly when it is an element. */
  lemma FindEqualTo<T>(xs: seq<T>, x: T)
    ensures Find(xs, EqualTo(x)) == if x in xs then Some(x) else None
  {
  }

  /** The truthy `find` test: `xs.find(b => b === h)` is truthy exactly when
      `h` is an element of `xs` and is not the empty string. */
  lemma TruthyFind(xs: seq<string>, h: string)
    ensures Truthy(Find(xs, EqualTo(h))) <==> h in xs && h != ""
  {
  }

  /** `xs.filter(p)`: the elements satisfying `p`, in their original order. */
  function Filter<T>(xs: seq<T>, p: T -> bool): (r: seq<T>)
    ensures |r| <= |xs|
    ensures forall i :: 0 <= i < |r| ==> p(r[i])
    ensures forall i :: 0 <= i < |r| ==> r[i] in xs
    ensures forall i :: 0 <= i < |xs| && p(xs[i]) ==> xs[i] in r
    decreases |xs|
  {
    if |xs| == 0 then []
    else if p(xs[0]) then [xs[0]] + Filter(xs[1..], p)
    else Filter(xs[1..], p)
  }

  /** Filtering a concatenation filters each part and keeps them in order. */
  lemma {:induction false} FilterAppend<T>(xs: seq<T>, ys: seq<T>, p: T -> bool)
    ensures Filter(xs + ys, p) == Filter(xs, p) + Filter(ys, p)
    decreases |xs|
  {
    if |xs| > 0 {
      assert (xs + ys)[0] == xs[0];
      assert (xs + ys)[1..] == xs[1..] + ys;
      FilterAppend(xs[1..], ys, p);
    } else {
      assert xs + ys == ys;
    }
  }

  /** Filtering keeps a sequence whose every element passes. */
  lemma {:induction false} FilterAll<T>(xs: seq<T>, p: T -> bool)
    requires forall i :: 0 <= i < |xs| ==> p(xs[i])
    ensures Filter(xs, p) == xs
    decreases |xs|
  {
    if |xs| > 0 {
      FilterAll(xs[1..], p);
      assert [xs[0]] + xs[1..] == xs;
    }
  }

  /** `xs.map(f)`: `f` applied to every element, in order. */
  function Map<T, U>(xs: seq<T>, f: T -> U): (r: seq<U>)
    ensures |r| == |xs|
    ensures forall i :: 0 <= i < |xs| ==> r[i] == f(xs[i])
    decreases |xs|
  {
    if |xs| == 0 then [] else [f(xs[0])] + Map(xs[1..], f)
  }

  /** Mapping a concatenation maps each part and keeps them in order. */
  lemma MapAppend<T, U>(xs: seq<T>, zs: seq<T>, f: T -> U)
    ensures Map(xs + zs, f) == Map(xs, f) + Map(zs, f)
  {
  }
}
