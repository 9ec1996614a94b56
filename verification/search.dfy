/**
 * The list primitives the program relies on, as functions on sequences:
 * LINQ `FirstOrDefault` (as the index of the first hit), LINQ `Where`, and
 * `List<T>.Remove`, which removes the first element equal to its argument.
 */
module Search {
  import opened Wrappers

  /** `i` is the smallest index whose element satisfies `p`. */
  ghost predicate IsFirst<T>(s: seq<T>, p: T -> bool, i: int)
  {
    0 <= i < |s| && p(s[i]) && forall j :: 0 <= j < i ==> !p(s[j])
  }

  /** The index of the first element satisfying `p`, or `None` if no element does. */
  function FindFirst<T>(s: seq<T>, p: T -> bool): (r: Option<nat>)
    ensures r.Some? ==> IsFirst(s, p, r.value)
    ensures r.None? ==> forall j :: 0 <= j < |s| ==> !p(s[j])
  {
    if |s| == 0 then None
    else if p(s[0]) then Some(0)
    else match FindFirst(s[1..], p)
      case None => None
      case Some(i) => Some(i + 1)
  }

  /** There is at most one first match. */
  lemma FirstIsUnique<T>(s: seq<T>, p: T -> bool, i: int, j: int)
    requires IsFirst(s, p, i) && IsFirst(s, p, j)
    ensures i == j
  {
  }

  /** Searching a concatenation finds the hit in the front part first. */
  lemma FindFirstAppend<T>(s: seq<T>, t: seq<T>, p: T -> bool)
    ensures FindFirst(s, p).Some? ==> FindFirst(s + t, p) == FindFirst(s, p)
    ensures FindFirst(s, p).None? && FindFirst(t, p).Some? ==>
      FindFirst(s + t, p) == Some(|s| + FindFirst(t, p).value)
    ensures FindFirst(s, p).None? && FindFirst(t, p).None? ==> FindFirst(s + t, p).None?
  {
    if FindFirst(s, p).Some? {
      MatchInFront(s, t, p, FindFirst(s, p).value);
    } else if FindFirst(t, p).Some? {
      MatchInBack(s, t, p, FindFirst(t, p).value);
    } else {
      var st := s + t;
      forall k | 0 <= k < |st| ensures !p(st[k]) {
        if k < |s| { assert st[k] == s[k]; } else { assert st[k] == t[k - |s|]; }
      }
    }
  }

  /** A first match in the front part is the first match of the concatenation. */
  lemma MatchInFront<T>(s: seq<T>, t: seq<T>, p: T -> bool, i: int)
    requires IsFirst(s, p, i)
    ensures FindFirst(s + t, p) == Some(i)
  {
    var st := s + t;
    assert IsFirst(st, p, i) by {
      forall j | 0 <= j < i ensures !p(st[j]) { assert st[j] == s[j]; }
    }
    FindFirstIs(st, p, i);
  }

  /** With no match in the front part, the back part's first match is found, shifted by the front's length. */
  lemma MatchInBack<T>(s: seq<T>, t: seq<T>, p: T -> bool, j: int)
    requires forall k :: 0 <= k < |s| ==> !p(s[k])
    requires IsFirst(t, p, j)
    ensures FindFirst(s + t, p) == Some(|s| + j)
  {
    var st := s + t;
    assert IsFirst(st, p, |s| + j) by {
      forall k | 0 <= k < |s| + j ensures !p(st[k]) {
        if k < |s| { assert st[k] == s[k]; } else { assert st[k] == t[k - |s|]; }
      }
    }
    FindFirstIs(st, p, |s| + j);
  }

  /** The search answers with the first match, whenever there is one. */
  lemma FindFirstIs<T>(s: seq<T>, p: T -> bool, i: int)
    requires IsFirst(s, p, i)
    ensures FindFirst(s, p) == Some(i)
  {
    assert FindFirst(s, p).Some?;
    FirstIsUnique(s, p, i, FindFirst(s, p).value);
  }

  /** Once the first match at `i` is cut out, the next match, if any, is found one place earlier than before. */
  lemma FindFirstAfterRemoval<T>(s: seq<T>, p: T -> bool, i: int)
    requires IsFirst(s, p, i)
    ensures FindFirst(s[i + 1..], p).None? ==> FindFirst(s[..i] + s[i + 1..], p).None?
    ensures FindFirst(s[i + 1..], p).Some? ==>
      FindFirst(s[..i] + s[i + 1..], p) == Some(i + FindFirst(s[i + 1..], p).value)
  {
    var front, back := s[..i], s[i + 1..];
    assert FindFirst(front, p).None? by {
      forall j | 0 <= j < |front| ensures !p(front[j]) { assert front[j] == s[j]; }
    }
    FindFirstAppend(front, back, p);
  }

  /** The elements of `s` that satisfy `p`, in the order of `s`. */
  function Filter<T>(s: seq<T>, p: T -> bool): (r: seq<T>)
    ensures |r| <= |s|
    ensures forall k :: 0 <= k < |r| ==> r[k] in s && p(r[k])
    ensures forall k :: 0 <= k < |s| && p(s[k]) ==> s[k] in r
  {
    if |s| == 0 then []
    else if p(s[0]) then [s[0]] + Filter(s[1..], p)
    else Filter(s[1..], p)
  }

  /** Filtering distributes over concatenation: the relative order of the kept elements is that of `s`. */
  lemma {:induction false} FilterAppend<T>(s: seq<T>, t: seq<T>, p: T -> bool)
    ensures Filter(s + t, p) == Filter(s, p) + Filter(t, p)
  {
    if |s| == 0 {
      assert s + t == t;
    } else {
      assert (s + t)[0] == s[0];
      assert (s + t)[1..] == s[1..] + t;
      FilterAppend(s[1..], t, p);
    }
  }

  /** A filter that every element passes keeps the whole sequence. */
  lemma {:induction false} FilterKeepsAll<T>(s: seq<T>, p: T -> bool)
    requires forall j :: 0 <= j < |s| ==> p(s[j])
    ensures Filter(s, p) == s
  {
    if |s| > 0 {
      FilterKeepsAll(s[1..], p);
    }
  }

  /** `List<T>.Remove(x)`: drop the first element equal to `x`; nothing changes if there is none. */
  function RemoveFirst<T(==)>(s: seq<T>, x: T): (r: seq<T>)
    ensures x !in s ==> r == s
    ensures x in s ==> |r| == |s| - 1 && multiset(r) == multiset(s) - multiset{x}
  {
    match FindFirst(s, y => y == x)
    case None => s
    case Some(i) =>
      assert s == s[..i] + [s[i]] + s[i + 1..];
      s[..i] + s[i + 1..]
  }

  /** When no earlier element equals `s[i]`, removing `s[i]` by value removes exactly position `i`. */
  lemma RemoveFirstAt<T>(s: seq<T>, i: int)
    requires 0 <= i < |s|
    requires forall j :: 0 <= j < i ==> s[j] != s[i]
    ensures RemoveFirst(s, s[i]) == s[..i] + s[i + 1..]
  {
    var p := y => y == s[i];
    assert IsFirst(s, p, i);
    FirstIsUnique(s, p, i, FindFirst(s, p).value);
  }

  /** The results of `f` on each element of `xs`, concatenated in the order of `xs`. */
  function Concat<A, B>(xs: seq<A>, f: A -> seq<B>): seq<B>
  {
    if |xs| == 0 then [] else Concat(xs[..|xs| - 1], f) + f(xs[|xs| - 1])
  }

  /** `Concat` proceeds element by element: a concatenation of inputs gives the concatenation of outputs. */
  lemma {:induction false} ConcatAppend<A, B>(xs: seq<A>, ys: seq<A>, f: A -> seq<B>)
    ensures Concat(xs + ys, f) == Concat(xs, f) + Concat(ys, f)
  {
    if |ys| == 0 {
      assert xs + ys == xs;
    } else {
      var zs, init := xs + ys, ys[..|ys| - 1];
      assert zs[..|zs| - 1] == xs + init;
      assert zs[|zs| - 1] == ys[|ys| - 1];
      ConcatAppend(xs, init, f);
    }
  }
}
