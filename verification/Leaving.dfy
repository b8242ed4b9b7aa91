/** Sequences from which elements are left out, one by one and some of them first. */
module Leaving {
  import opened Sequences

  /** `a` is what is left of `b` after leaving elements out. */
  ghost predicate Subsequence<T>(a: seq<T>, b: seq<T>) {
    a == [] || (b != [] && ((a[0] == b[0] && Subsequence(a[1..], b[1..])) || Subsequence(a, b[1..])))
  }

  lemma {:induction false} SubsequenceSelf<T>(a: seq<T>)
    ensures Subsequence(a, a)
  {
    if a != [] {
      SubsequenceSelf(a[1..]);
    }
  }

  lemma {:induction false} SubsequenceTrans<T>(a: seq<T>, b: seq<T>, c: seq<T>)
    requires Subsequence(a, b) && Subsequence(b, c)
    ensures Subsequence(a, c)
    decreases |a| + |b| + |c|
  {
    if a != [] {
      if Subsequence(b, c[1..]) {
        SubsequenceTrans(a, b, c[1..]);
      } else if Subsequence(a, b[1..]) {
        SubsequenceTrans(a, b[1..], c[1..]);
      } else {
        SubsequenceTrans(a[1..], b[1..], c[1..]);
      }
    }
  }

  lemma {:induction false} LeaveOut<T>(a: seq<T>, b: seq<T>, c: seq<T>)
    ensures Subsequence(a + c, a + b + c)
    decreases |a| + |b|
  {
    if a != [] {
      LeaveOut(a[1..], b, c);
      assert (a + c)[1..] == a[1..] + c && (a + b + c)[1..] == a[1..] + b + c;
    } else if b != [] {
      LeaveOut([], b[1..], c);
      assert ([] + b + c)[1..] == [] + b[1..] + c;
    } else {
      assert a + c == a + b + c;
      SubsequenceSelf(a + c);
    }
  }

  lemma LeaveOutOf<T>(part: seq<T>, all: seq<T>, a: seq<T>, b: seq<T>, c: seq<T>)
    requires part == a + c && all == a + b + c
    ensures Subsequence(part, all)
  {
    LeaveOut(a, b, c);
  }

  lemma ThreeParts<T>(s: seq<T>, i: nat, j: nat)
    requires i <= j <= |s|
    ensures s == s[..i] + s[i..j] + s[j..] == s[..i] + (s[i..j] + s[j..])
  {
  }

  lemma {:induction false} SubsequenceMembers<T>(a: seq<T>, b: seq<T>)
    requires Subsequence(a, b)
    ensures forall x :: x in a ==> x in b
    decreases |b|
  {
    if a != [] {
      assert forall x :: x in b[1..] ==> x in b;
      if Subsequence(a, b[1..]) {
        SubsequenceMembers(a, b[1..]);
      } else {
        SubsequenceMembers(a[1..], b[1..]);
        assert a == [a[0]] + a[1..] && b[0] in b;
      }
    }
  }

  lemma SuffixIsSubsequence<T>(a: seq<T>, k: nat)
    requires k <= |a|
    ensures Subsequence(a[k..], a)
  {
    LeaveOut([], a[..k], a[k..]);
    assert [] + a[k..] == a[k..] && [] + a[..k] + a[k..] == a;
  }

  // ---- one element less ----

  function Without<T>(s: seq<T>, k: nat): seq<T>
    requires k < |s|
  {
    s[..k] + s[k + 1..]
  }

  /** The elements of which `p` says `b`. */
  function Only<T>(p: T -> bool, b: bool, s: seq<T>): seq<T> {
    if s == [] then [] else (if p(s[0]) == b then [s[0]] else []) + Only(p, b, s[1..])
  }

  lemma OnlyCons<T>(p: T -> bool, b: bool, x: T, s: seq<T>)
    ensures Only(p, b, [x] + s) == (if p(x) == b then [x] else []) + Only(p, b, s)
  {
    assert ([x] + s)[1..] == s;
  }

  lemma {:induction false} OnlyConcat<T>(p: T -> bool, b: bool, s: seq<T>, t: seq<T>)
    ensures Only(p, b, s + t) == Only(p, b, s) + Only(p, b, t)
  {
    if s == [] {
      assert s + t == t;
    } else {
      var first := if p(s[0]) == b then [s[0]] else [];
      assert s + t == [s[0]] + (s[1..] + t);
      OnlyCons(p, b, s[0], s[1..] + t);
      OnlyConcat(p, b, s[1..], t);
      Assoc(first, Only(p, b, s[1..]), Only(p, b, t));
    }
  }

  lemma {:induction false} NoneOnly<T>(p: T -> bool, b: bool, s: seq<T>)
    requires forall i :: 0 <= i < |s| ==> p(s[i]) != b
    ensures Only(p, b, s) == []
  {
    if s != [] {
      NoneOnly(p, b, s[1..]);
    }
  }

  lemma OnlyAround<T>(p: T -> bool, b: bool, s: seq<T>, x: T, t: seq<T>)
    ensures Only(p, b, s + t) == Only(p, b, s) + Only(p, b, t)
    ensures Only(p, b, s + ([x] + t)) == Only(p, b, s) + if p(x) == b then [x] + Only(p, b, t) else Only(p, b, t)
  {
    OnlyConcat(p, b, s, t);
    OnlyConcat(p, b, s, [x] + t);
    OnlyCons(p, b, x, t);
  }

  /** Leaving out the first of its kind leaves the others of its kind, and the other kind as it is. */
  lemma OneLess<T>(p: T -> bool, s: seq<T>, k: nat)
    requires k < |s| && forall i :: 0 <= i < k ==> p(s[i]) != p(s[k])
    ensures Only(p, p(s[k]), s) == [s[k]] + Only(p, p(s[k]), Without(s, k))
    ensures Only(p, !p(s[k]), s) == Only(p, !p(s[k]), Without(s, k))
  {
    SplitAt(s, k);
    OneLessOf(p, s[..k], s[k], s[k + 1..]);
  }

  lemma SplitAt<T>(s: seq<T>, k: nat)
    requires k < |s|
    ensures s == s[..k] + ([s[k]] + s[k + 1..]) == s[..k] + [s[k]] + s[k + 1..]
  {
  }

  lemma OneLessOf<T>(p: T -> bool, a: seq<T>, x: T, b: seq<T>)
    requires forall i :: 0 <= i < |a| ==> p(a[i]) != p(x)
    ensures Only(p, p(x), a + ([x] + b)) == [x] + Only(p, p(x), a + b)
    ensures Only(p, !p(x), a + ([x] + b)) == Only(p, !p(x), a + b)
  {
    OnlyAround(p, p(x), a, x, b);
    OnlyAround(p, !p(x), a, x, b);
    NoneOnly(p, p(x), a);
  }

  // ---- one by one ----

  /** The index of the first element that is not `p`, or the length. */
  function FirstNot<T>(p: T -> bool, s: seq<T>): (k: nat)
    ensures k <= |s| && (k < |s| ==> !p(s[k])) && forall i :: 0 <= i < k ==> p(s[i])
  {
    if s == [] || !p(s[0]) then 0 else 1 + FirstNot(p, s[1..])
  }

  /** The first element that is not `p` is next to go, and the first of all when there is none. */
  function NextToGo<T>(p: T -> bool, s: seq<T>): (k: nat)
    requires s != []
    ensures k < |s|
  {
    var k := FirstNot(p, s);
    if k < |s| then k else 0
  }

  /** The index is determined by what it means. */
  lemma FirstOther<T>(p: T -> bool, s: seq<T>, k: nat)
    requires k <= |s| && (k < |s| ==> !p(s[k])) && forall i :: 0 <= i < k ==> p(s[i])
    ensures FirstNot(p, s) == k
  {
  }

  function AfterGoing<T>(p: T -> bool, s: seq<T>, n: nat): (r: seq<T>)
    ensures |r| == if n < |s| then |s| - n else 0
  {
    if n == 0 || s == [] then s else AfterGoing(p, Without(s, NextToGo(p, s)), n - 1)
  }

  /** Of the elements that are not `p` the first `a` are gone, and of the others the first `b`, if only these are left. */
  ghost predicate GoneFirst<T>(p: T -> bool, kept: seq<T>, s: seq<T>, a: nat, b: nat) {
    && a <= |Only(p, false, s)| && Only(p, false, kept) == Only(p, false, s)[a..]
    && b <= |Only(p, true, s)| && Only(p, true, kept) == Only(p, true, s)[b..]
    && (b > 0 ==> a == |Only(p, false, s)|)
  }

  ghost predicate LeastFirst<T(!new)>(p: T -> bool, kept: seq<T>, s: seq<T>) {
    Subsequence(kept, s) && exists a: nat, b: nat :: GoneFirst(p, kept, s, a, b)
  }

  lemma GoneFirstStep<T>(p: T -> bool, kept: seq<T>, s: seq<T>, a: nat, b: nat) returns (a': nat, b': nat)
    requires s != [] && GoneFirst(p, kept, Without(s, NextToGo(p, s)), a, b)
    ensures GoneFirst(p, kept, s, a', b')
  {
    var k := FirstNot(p, s);
    if k < |s| {
      OneLess(p, s, k);
      a', b' := a + 1, b;
    } else {
      OneLess(p, s, 0);
      NoneOnly(p, false, s);
      a', b' := a, b + 1;
    }
  }

  lemma WithoutIsSubsequence<T>(s: seq<T>, k: nat)
    requires k < |s|
    ensures Subsequence(Without(s, k), s)
  {
    SplitAt(s, k);
    LeaveOutOf(Without(s, k), s, s[..k], [s[k]], s[k + 1..]);
  }

  lemma {:induction false} LeastGoFirst<T(!new)>(p: T -> bool, s: seq<T>, n: nat)
    ensures LeastFirst(p, AfterGoing(p, s, n), s)
  {
    var kept := AfterGoing(p, s, n);
    if n == 0 || s == [] {
      SubsequenceSelf(s);
      assert GoneFirst(p, kept, s, 0, 0);
    } else {
      var t := Without(s, NextToGo(p, s));
      LeastGoFirst(p, t, n - 1);
      WithoutIsSubsequence(s, NextToGo(p, s));
      SubsequenceTrans(kept, t, s);
      var a: nat, b: nat :| GoneFirst(p, kept, t, a, b);
      var a', b' := GoneFirstStep(p, kept, s, a, b);
    }
  }
}
