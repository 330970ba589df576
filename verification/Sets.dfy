/** Sizes of finite sets. */
module Sets {

  /** The numbers below `n`. */
  function Below(n: nat): (s: set<nat>)
    ensures |s| == n && forall i: nat :: i in s <==> i < n
  {
    if n == 0 then {} else Below(n - 1) + {n - 1}
  }

  lemma {:induction false} SubsetSize<T>(a: set<T>, b: set<T>)
    requires a <= b
    ensures |a| <= |b|
  {
    if a != {} {
      var x :| x in a;
      SubsetSize(a - {x}, b - {x});
    }
  }

  ghost predicate OneToOne<T, U>(s: set<T>, f: map<T, U>) {
    s <= f.Keys && forall x, y :: x in s && y in s && f[x] == f[y] ==> x == y
  }

  /** A set numbered one to one below `n` has at most `n` elements. */
  lemma {:induction false} Numbered<T>(s: set<T>, f: map<T, nat>, n: nat)
    requires OneToOne(s, f) && forall x :: x in s ==> f[x] < n
    ensures |s| <= n
  {
    var image := set x | x in s :: f[x];
    ImageSize(s, f, image);
    SubsetSize(image, Below(n));
  }

  lemma {:induction false} ImageSize<T, U>(s: set<T>, f: map<T, U>, image: set<U>)
    requires OneToOne(s, f) && image == set x | x in s :: f[x]
    ensures |image| == |s|
  {
    if s != {} {
      var x :| x in s;
      var rest := set y | y in s - {x} :: f[y];
      ImageSize(s - {x}, f, rest);
      assert f[x] !in rest;
      assert image == rest + {f[x]};
    }
  }

  lemma SevenSets<T>(s: set<T>, a: set<T>, b: set<T>, c: set<T>, d: set<T>, e: set<T>, f: set<T>, g: set<T>)
    requires s <= a + b + c + d + e + f + g
    ensures |s| <= |a| + |b| + |c| + |d| + |e| + |f| + |g|
  {
    SubsetSize(s, a + b + c + d + e + f + g);
  }
}
