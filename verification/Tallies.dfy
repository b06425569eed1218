/** Counting, collecting and filtering over sequences, from the front as a loop does. */
module Tallies {
  import opened Wrappers
  import Sequences

  function Last<T>(s: seq<T>): T
    requires s != []
  {
    s[|s| - 1]
  }

  function Init<T>(s: seq<T>): seq<T>
    requires s != []
  {
    s[..|s| - 1]
  }

  function Count<T>(p: T -> bool, s: seq<T>): (n: nat)
    ensures n <= |s|
  {
    if s == [] then 0 else Count(p, Init(s)) + if p(Last(s)) then 1 else 0
  }

  function Sum<T>(f: T -> nat, s: seq<T>): nat {
    if s == [] then 0 else Sum(f, Init(s)) + f(Last(s))
  }

  /** The keys of the elements that have one. */
  function Keys<T, K>(key: T -> Option<K>, s: seq<T>): set<K> {
    if s == [] then {}
    else Keys(key, Init(s)) + match key(Last(s)) case None => {} case Some(k) => {k}
  }

  function CountKey<T, K(==)>(key: T -> Option<K>, k: K, s: seq<T>): nat {
    if s == [] then 0 else CountKey(key, k, Init(s)) + if key(Last(s)) == Some(k) then 1 else 0
  }

  function Filter<T>(p: T -> bool, s: seq<T>): seq<T> {
    if s == [] then [] else Filter(p, Init(s)) + if p(Last(s)) then [Last(s)] else []
  }

  lemma Snoc<T>(s: seq<T>, x: T)
    ensures Init(s + [x]) == s && Last(s + [x]) == x
  {
  }

  lemma {:induction false} KeysAre<T, K>(key: T -> Option<K>, s: seq<T>, k: K)
    ensures k in Keys(key, s) <==> exists i :: 0 <= i < |s| && key(s[i]) == Some(k)
    ensures k in Keys(key, s) <==> CountKey(key, k, s) > 0
  {
    if s != [] {
      KeysAre(key, Init(s), k);
      if k in Keys(key, Init(s)) {
        var i :| 0 <= i < |Init(s)| && key(Init(s)[i]) == Some(k);
        assert key(s[i]) == Some(k);
      } else {
        assert forall i :: 0 <= i < |s| - 1 ==> s[i] == Init(s)[i];
      }
    }
  }

  /** Taking the element at `j` out of a sequence. */
  function Without<T>(s: seq<T>, j: nat): seq<T>
    requires j < |s|
  {
    s[..j] + s[j + 1..]
  }

  lemma {:induction false} CountWithout<T>(p: T -> bool, s: seq<T>, j: nat)
    requires j < |s|
    ensures Count(p, s) == Count(p, Without(s, j)) + if p(s[j]) then 1 else 0
  {
    if j < |s| - 1 {
      CountWithout(p, Init(s), j);
      assert Init(Without(s, j)) == Without(Init(s), j);
      assert Last(Without(s, j)) == Last(s);
    } else {
      assert Without(s, j) == Init(s);
    }
  }

  lemma {:induction false} CountKeyWithout<T, K>(key: T -> Option<K>, k: K, s: seq<T>, j: nat)
    requires j < |s|
    ensures CountKey(key, k, s) == CountKey(key, k, Without(s, j)) + if key(s[j]) == Some(k) then 1 else 0
  {
    if j < |s| - 1 {
      CountKeyWithout(key, k, Init(s), j);
      assert Init(Without(s, j)) == Without(Init(s), j);
      assert Last(Without(s, j)) == Last(s);
    } else {
      assert Without(s, j) == Init(s);
    }
  }

  lemma FindLast<T>(s: seq<T>, t: seq<T>) returns (j: nat)
    requires s != [] && multiset(s) == multiset(t)
    ensures j < |t| && t[j] == Last(s) && multiset(Init(s)) == multiset(Without(t, j))
  {
    assert Last(s) in multiset(s);
    j := PlaceIn(t, Last(s));
    BagOfInit(s);
    BagWithout(t, j);
  }

  lemma PlaceIn<T>(t: seq<T>, x: T) returns (j: nat)
    requires x in multiset(t)
    ensures j < |t| && t[j] == x
  {
    assert x in t;
    j :| 0 <= j < |t| && t[j] == x;
  }

  lemma BagOfInit<T>(s: seq<T>)
    requires s != []
    ensures multiset(s) == multiset(Init(s)) + multiset{Last(s)}
    ensures multiset(Init(s)) == multiset(s) - multiset{Last(s)}
  {
    assert s == Init(s) + [Last(s)];
  }

  lemma BagWithout<T>(t: seq<T>, j: nat)
    requires j < |t|
    ensures multiset(Without(t, j)) == multiset(t) - multiset{t[j]}
  {
    assert t == t[..j] + [t[j]] + t[j + 1..];
    assert multiset(t) == multiset(t[..j]) + multiset{t[j]} + multiset(t[j + 1..]);
    assert multiset(Without(t, j)) == multiset(t[..j]) + multiset(t[j + 1..]);
  }

  /** Counts do not depend on the order. */
  lemma {:induction false} CountPermuted<T>(p: T -> bool, s: seq<T>, t: seq<T>)
    requires multiset(s) == multiset(t)
    ensures Count(p, s) == Count(p, t)
  {
    if s == [] {
      assert |multiset(t)| == 0;
    } else {
      var j := FindLast(s, t);
      CountPermuted(p, Init(s), Without(t, j));
      CountWithout(p, t, j);
    }
  }

  lemma {:induction false} CountKeyPermuted<T, K>(key: T -> Option<K>, k: K, s: seq<T>, t: seq<T>)
    requires multiset(s) == multiset(t)
    ensures CountKey(key, k, s) == CountKey(key, k, t)
  {
    if s == [] {
      assert |multiset(t)| == 0;
    } else {
      var j := FindLast(s, t);
      CountKeyPermuted(key, k, Init(s), Without(t, j));
      CountKeyWithout(key, k, t, j);
    }
  }

  lemma KeysPermuted<T, K(!new)>(key: T -> Option<K>, s: seq<T>, t: seq<T>)
    requires multiset(s) == multiset(t)
    ensures Keys(key, s) == Keys(key, t)
  {
    forall k: K ensures k in Keys(key, s) <==> k in Keys(key, t) {
      KeysAre(key, s, k);
      KeysAre(key, t, k);
      CountKeyPermuted(key, k, s, t);
    }
  }

  /** Dropping elements that are not counted, or have no key, changes nothing; dropping ones
      that are counted shows in full. */
  lemma {:induction false} CountFiltered<T>(p: T -> bool, keep: T -> bool, s: seq<T>)
    ensures |Filter(keep, s)| <= |s|
    ensures (forall x :: x in s && !keep(x) ==> !p(x)) ==> Count(p, s) == Count(p, Filter(keep, s))
    ensures (forall x :: x in s && !keep(x) ==> p(x)) ==>
      Count(p, s) == Count(p, Filter(keep, s)) + |s| - |Filter(keep, s)|
  {
    if s != [] {
      CountFiltered(p, keep, Init(s));
      FilterStep(keep, s);
    }
  }

  lemma FilterStep<T>(keep: T -> bool, s: seq<T>)
    requires s != []
    ensures keep(Last(s)) ==>
      Filter(keep, s) != [] && Init(Filter(keep, s)) == Filter(keep, Init(s)) && Last(Filter(keep, s)) == Last(s)
    ensures !keep(Last(s)) ==> Filter(keep, s) == Filter(keep, Init(s))
  {
  }

  lemma FilterNext<T>(keep: T -> bool, s: seq<T>, i: nat)
    requires i < |s|
    ensures keep(s[i]) ==> Filter(keep, s[..i + 1]) == Filter(keep, s[..i]) + [s[i]]
    ensures !keep(s[i]) ==> Filter(keep, s[..i + 1]) == Filter(keep, s[..i])
  {
    Sequences.TakeNext(s, i);
    Snoc(s[..i], s[i]);
  }

  lemma CountFilterNext<T>(p: T -> bool, keep: T -> bool, s: seq<T>, i: nat)
    requires i < |s|
    ensures Count(p, Filter(keep, s[..i + 1])) == Count(p, Filter(keep, s[..i]))
      + if keep(s[i]) && p(s[i]) then 1 else 0
  {
    FilterNext(keep, s, i);
    if keep(s[i]) {
      Snoc(Filter(keep, s[..i]), s[i]);
    }
  }

  lemma {:induction false} KeysFiltered<T, K>(key: T -> Option<K>, keep: T -> bool, s: seq<T>)
    requires forall x :: x in s && !keep(x) ==> key(x).None?
    ensures Keys(key, s) == Keys(key, Filter(keep, s))
  {
    if s != [] {
      KeysFiltered(key, keep, Init(s));
      FilterStep(keep, s);
    }
  }

  lemma {:induction false} CountKeyFiltered<T, K>(key: T -> Option<K>, k: K, keep: T -> bool, s: seq<T>)
    requires forall x :: x in s && !keep(x) ==> key(x).None?
    ensures CountKey(key, k, s) == CountKey(key, k, Filter(keep, s))
  {
    if s != [] {
      CountKeyFiltered(key, k, keep, Init(s));
      FilterStep(keep, s);
    }
  }

  lemma {:induction false} SumSame<T>(f: T -> nat, g: T -> nat, s: seq<T>)
    requires forall x :: x in s ==> f(x) == g(x)
    ensures Sum(f, s) == Sum(g, s)
  {
    if s != [] {
      SumSame(f, g, Init(s));
    }
  }

  lemma {:induction false} CountSame<T>(p: T -> bool, q: T -> bool, s: seq<T>)
    requires forall x :: x in s ==> p(x) == q(x)
    ensures Count(p, s) == Count(q, s)
  {
    if s != [] {
      CountSame(p, q, Init(s));
    }
  }

  lemma {:induction false} CountComplement<T>(p: T -> bool, q: T -> bool, s: seq<T>)
    requires forall x :: x in s ==> p(x) != q(x)
    ensures Count(p, s) + Count(q, s) == |s|
  {
    if s != [] {
      CountComplement(p, q, Init(s));
    }
  }

  lemma {:induction false} CountZero<T>(p: T -> bool, s: seq<T>)
    ensures Count(p, s) == 0 <==> forall x :: x in s ==> !p(x)
  {
    if s != [] {
      CountZero(p, Init(s));
      assert s == Init(s) + [Last(s)];
    }
  }

  lemma {:induction false} SumZero<T>(f: T -> nat, s: seq<T>)
    ensures Sum(f, s) == 0 <==> forall x :: x in s ==> f(x) == 0
  {
    if s != [] {
      SumZero(f, Init(s));
      assert s == Init(s) + [Last(s)];
    }
  }

  lemma {:induction false} SumAtMost<T>(f: T -> nat, g: T -> nat, s: seq<T>)
    requires forall x :: x in s ==> f(x) <= g(x)
    ensures Sum(f, s) <= Sum(g, s)
  {
    if s != [] {
      SumAtMost(f, g, Init(s));
    }
  }
}
