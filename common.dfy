/** Generic helpers: optional values, results with an error, and the list
    operations that the data-access layer's queries are built from
    (a WHERE filter, a COUNT, a `.first()` lookup and a LIMIT). */
module Common {

  datatype Option<+T> = None | Some(value: T)

  /** The outcome of an operation that the source either returns from or
      raises out of. */
  datatype Result<+T, +E> = Ok(value: T) | Err(error: E)

  /** The elements of `s` that satisfy `p`, in their original order. */
  function Filter<T(==)>(s: seq<T>, p: T -> bool): (r: seq<T>)
    ensures |r| <= |s|
    ensures forall x :: x in r ==> x in s && p(x)
    ensures forall x :: x in s && p(x) ==> x in r
  {
    if s == [] then []
    else if p(s[0]) then [s[0]] + Filter(s[1..], p)
    else Filter(s[1..], p)
  }

  /** The number of elements of `s` that satisfy `p`, counted on its own
      (as SQL `COUNT` does) rather than by building the filtered list. */
  function Count<T(==)>(s: seq<T>, p: T -> bool): (n: nat)
    ensures n <= |s|
  {
    if s == [] then 0
    else (if p(s[0]) then 1 else 0) + Count(s[1..], p)
  }

  /** Counting the matches gives the length of the filtered list. */
  lemma {:induction false} CountIsFilterLength<T>(s: seq<T>, p: T -> bool)
    ensures Count(s, p) == |Filter(s, p)|
  {
    if s != [] {
      CountIsFilterLength(s[1..], p);
    }
  }

  /** Appending one element adds one to the count exactly when it matches. */
  lemma {:induction false} CountAppend<T>(s: seq<T>, x: T, p: T -> bool)
    ensures Count(s + [x], p) == Count(s, p) + (if p(x) then 1 else 0)
  {
    if s == [] {
      assert [x][1..] == [];
    } else {
      assert (s + [x])[1..] == s[1..] + [x];
      CountAppend(s[1..], x, p);
    }
  }

  /** The position of the first element satisfying `p`, or `|s|` if none does. */
  function FirstIndex<T>(s: seq<T>, p: T -> bool): (k: nat)
    ensures k <= |s|
    ensures k < |s| ==> p(s[k])
    ensures forall j :: 0 <= j < k ==> !p(s[j])
  {
    if s == [] then 0
    else if p(s[0]) then 0
    else 1 + FirstIndex(s[1..], p)
  }

  /** The first element satisfying `p` (a query's `.first()`). */
  function First<T>(s: seq<T>, p: T -> bool): (r: Option<T>)
    ensures r.None? <==> forall i :: 0 <= i < |s| ==> !p(s[i])
    ensures r.Some? ==> exists k :: 0 <= k < |s| && s[k] == r.value && p(s[k])
                                  && forall j :: 0 <= j < k ==> !p(s[j])
  {
    var k := FirstIndex(s, p);
    if k < |s| then Some(s[k]) else None
  }

  /** Python's truth value of an optional count: None and 0 are false. */
  predicate Truthy(limit: Option<nat>) {
    limit.Some? && limit.value != 0
  }

  function Min(a: int, b: int): int {
    if a <= b then a else b
  }

  /** An optional row limit: a limit that Python treats as true (present and
      non-zero) keeps at most that many leading rows; otherwise all are kept. */
  function Limit<T>(s: seq<T>, limit: Option<nat>): (r: seq<T>)
    ensures r <= s
    ensures Truthy(limit) ==> |r| == Min(limit.value, |s|)
    ensures !Truthy(limit) ==> r == s
  {
    if Truthy(limit) && limit.value < |s| then s[..limit.value] else s
  }

  /** The keys of `s` strictly increase along the sequence (rows in
      primary-key order, so no key occurs twice). */
  ghost predicate Ascending<T>(s: seq<T>, key: T -> int) {
    forall i, j :: 0 <= i < j < |s| ==> key(s[i]) < key(s[j])
  }

  /** At most one element of `s` satisfies `p`. */
  ghost predicate AtMostOne<T>(s: seq<T>, p: T -> bool) {
    forall i, j :: 0 <= i < j < |s| && p(s[i]) ==> !p(s[j])
  }

  /** A filter keeps the surviving rows in key order. */
  lemma {:induction false} FilterAscending<T>(s: seq<T>, p: T -> bool, key: T -> int)
    requires Ascending(s, key)
    ensures Ascending(Filter(s, p), key)
  {
    if s != [] {
      var tail := s[1..];
      assert Ascending(tail, key) by {
        forall i, j | 0 <= i < j < |tail| ensures key(tail[i]) < key(tail[j]) {
          assert tail[i] == s[i + 1] && tail[j] == s[j + 1];
        }
      }
      FilterAscending(tail, p, key);
      var rest := Filter(tail, p);
      if p(s[0]) {
        var r := [s[0]] + rest;
        forall i, j | 0 <= i < j < |r| ensures key(r[i]) < key(r[j]) {
          if i == 0 {
            assert r[j] == rest[j - 1];
            assert rest[j - 1] in tail;
            var m :| 0 <= m < |tail| && tail[m] == rest[j - 1];
            assert s[m + 1] == tail[m];
          } else {
            assert r[i] == rest[i - 1] && r[j] == rest[j - 1];
          }
        }
      }
    }
  }

  /** A filter that every element passes changes nothing. */
  lemma {:induction false} FilterKeepsAll<T>(s: seq<T>, p: T -> bool)
    requires forall x :: x in s ==> p(x)
    ensures Filter(s, p) == s
  {
    if s != [] {
      assert s[0] in s;
      forall x | x in s[1..] ensures p(x) { assert x in s; }
      FilterKeepsAll(s[1..], p);
      assert [s[0]] + s[1..] == s;
    }
  }

  /** When at most one element satisfies `p`, `.first()` finds that one. */
  lemma FirstOfUnique<T>(s: seq<T>, p: T -> bool, x: T)
    requires AtMostOne(s, p)
    requires x in s && p(x)
    ensures First(s, p) == Some(x)
  {
    var m :| 0 <= m < |s| && s[m] == x;
    var k := FirstIndex(s, p);
    assert k <= m;
    if k < m {
      assert false;
    }
  }

  function AsList<T>(o: Option<T>): seq<T> {
    if o.Some? then [o.value] else []
  }

  /** Filter and map in one pass: `f(x)` says what, if anything, the element
      `x` contributes, and the contributions are kept in element order.
      Defined from the back, the way a loop appending to an accumulator
      builds it. */
  function Collect<A, B>(xs: seq<A>, f: A -> Option<B>): (r: seq<B>)
    ensures |r| <= |xs|
  {
    if xs == [] then []
    else Collect(xs[..|xs| - 1], f) + AsList(f(xs[|xs| - 1]))
  }

  /** Collecting distributes over concatenation, so it keeps element order. */
  lemma {:induction false} CollectAppend<A, B>(xs: seq<A>, ys: seq<A>, f: A -> Option<B>)
    ensures Collect(xs + ys, f) == Collect(xs, f) + Collect(ys, f)
    decreases |ys|
  {
    if ys == [] {
      assert xs + ys == xs;
    } else {
      var n := |ys| - 1;
      var zs := xs + ys;
      assert zs[..|zs| - 1] == xs + ys[..n];
      assert zs[|zs| - 1] == ys[n];
      CollectAppend(xs, ys[..n], f);
      calc {
        Collect(zs, f);
        Collect(xs + ys[..n], f) + AsList(f(ys[n]));
        Collect(xs, f) + Collect(ys[..n], f) + AsList(f(ys[n]));
        Collect(xs, f) + Collect(ys, f);
      }
    }
  }

  /** `y` is collected exactly when some element contributes it. */
  lemma {:induction false} CollectMember<A, B>(xs: seq<A>, f: A -> Option<B>, y: B)
    ensures y in Collect(xs, f) <==> exists i :: 0 <= i < |xs| && f(xs[i]) == Some(y)
  {
    if xs != [] {
      var n := |xs| - 1;
      var init := xs[..n];
      CollectMember(init, f, y);
      if exists i :: 0 <= i < |xs| && f(xs[i]) == Some(y) {
        var i :| 0 <= i < |xs| && f(xs[i]) == Some(y);
        if i < n {
          assert init[i] == xs[i];
        }
      }
      if exists i :: 0 <= i < |init| && f(init[i]) == Some(y) {
        var i :| 0 <= i < |init| && f(init[i]) == Some(y);
        assert xs[i] == init[i];
      }
    }
  }

  /** When each contribution carries its element's key, collecting from
      a key-ordered sequence gives a key-ordered result. */
  lemma {:induction false} CollectAscending<A, B>(xs: seq<A>, f: A -> Option<B>, keyA: A -> int, keyB: B -> int)
    requires Ascending(xs, keyA)
    requires forall x :: f(x).Some? ==> keyB(f(x).value) == keyA(x)
    ensures Ascending(Collect(xs, f), keyB)
  {
    if xs != [] {
      var n := |xs| - 1;
      var init := xs[..n];
      assert Ascending(init, keyA) by {
        forall i, j | 0 <= i < j < |init| ensures keyA(init[i]) < keyA(init[j]) {
          assert init[i] == xs[i] && init[j] == xs[j];
        }
      }
      CollectAscending(init, f, keyA, keyB);
      var front := Collect(init, f);
      var r := Collect(xs, f);
      if f(xs[n]).Some? {
        forall i, j | 0 <= i < j < |r| ensures keyB(r[i]) < keyB(r[j]) {
          if j == |front| {
            assert r[i] == front[i] && front[i] in front;
            CollectMember(init, f, front[i]);
            var m :| 0 <= m < |init| && f(init[m]) == Some(front[i]);
            assert init[m] == xs[m];
          } else {
            assert r[i] == front[i] && r[j] == front[j];
          }
        }
      }
    }
  }

  /** An element that contributes nothing can be dropped from the list. */
  lemma CollectSkip<A, B>(xs: seq<A>, x: A, ys: seq<A>, f: A -> Option<B>)
    requires f(x).None?
    ensures Collect(xs + [x] + ys, f) == Collect(xs + ys, f)
  {
    assert [x][..0] == [];
    assert Collect([x], f) == [];
    CollectAppend(xs, [x], f);
    assert Collect(xs + [x], f) == Collect(xs, f);
    CollectAppend(xs + [x], ys, f);
    CollectAppend(xs, ys, f);
  }
}
