/** The JavaScript array operations the organizer and the to-do hosts rely on
    (`filter`, `find`/`findIndex`, `splice`), written over Dafny sequences, with the
    facts about them that the rest of the model uses. */
module Lists {

  import opened Wrappers

  // ---------------------------------------------------------------- filter

  /** `s.filter(keep)`: the elements of `s` that satisfy `keep`, in their original order. */
  function Filter<T>(s: seq<T>, keep: T -> bool): (r: seq<T>)
    ensures |r| <= |s|
    ensures forall i | 0 <= i < |r| :: keep(r[i]) && r[i] in s
  {
    if s == [] then []
    else (if keep(s[0]) then [s[0]] else []) + Filter(s[1..], keep)
  }

  /** The number of elements of `s` that satisfy `p`. */
  function Count<T>(s: seq<T>, p: T -> bool): nat
  {
    if s == [] then 0 else (if p(s[0]) then 1 else 0) + Count(s[1..], p)
  }

  /** `a` is `b` with some elements left out, the rest kept in their order. */
  ghost predicate IsSubsequence<T>(a: seq<T>, b: seq<T>)
    decreases |b|
  {
    if a == [] then true
    else if b == [] then false
    else (a[0] == b[0] && IsSubsequence(a[1..], b[1..])) || IsSubsequence(a, b[1..])
  }

  /** Filtering keeps every element that satisfies `keep` as often as it occurs,
      and drops every other one. */
  lemma {:induction false} FilterMultiset<T>(s: seq<T>, keep: T -> bool, x: T)
    ensures multiset(Filter(s, keep))[x] == if keep(x) then multiset(s)[x] else 0
  {
    if s != [] {
      assert s == [s[0]] + s[1..];
      FilterMultiset(s[1..], keep, x);
    }
  }

  lemma {:induction false} FilterIsSubsequence<T>(s: seq<T>, keep: T -> bool)
    ensures IsSubsequence(Filter(s, keep), s)
  {
    if s != [] {
      FilterIsSubsequence(s[1..], keep);
      var rest := Filter(s[1..], keep);
      if keep(s[0]) {
        assert Filter(s, keep) == [s[0]] + rest;
        assert ([s[0]] + rest)[1..] == rest;
      } else {
        assert Filter(s, keep) == rest;
        SubsequenceDropHead(rest, s);
      }
    }
  }

  lemma {:induction false} SubsequenceDropHead<T>(a: seq<T>, b: seq<T>)
    requires b != [] && IsSubsequence(a, b[1..])
    ensures IsSubsequence(a, b)
  {
  }

  lemma {:induction false} FilterLength<T>(s: seq<T>, keep: T -> bool)
    ensures |Filter(s, keep)| == Count(s, keep)
  {
    if s != [] {
      FilterLength(s[1..], keep);
    }
  }

  /** When `q` is the negation of `p`, the two counts add up to the length. */
  lemma {:induction false} CountComplement<T>(s: seq<T>, p: T -> bool, q: T -> bool)
    requires forall x :: q(x) == !p(x)
    ensures Count(s, p) + Count(s, q) == |s|
  {
    if s != [] {
      CountComplement(s[1..], p, q);
    }
  }

  lemma {:induction false} FilterKeepsAll<T>(s: seq<T>, keep: T -> bool)
    requires forall i | 0 <= i < |s| :: keep(s[i])
    ensures Filter(s, keep) == s
  {
    if s != [] {
      FilterKeepsAll(s[1..], keep);
    }
  }

  lemma {:induction false} FilterIdempotent<T>(s: seq<T>, keep: T -> bool)
    ensures Filter(Filter(s, keep), keep) == Filter(s, keep)
  {
    FilterKeepsAll(Filter(s, keep), keep);
  }

  // ---------------------------------------------------------------- find

  /** `xs.findIndex(y => y == x)`: the first position holding `x`, if any. */
  function IndexOf<T(==)>(xs: seq<T>, x: T): (r: Option<nat>)
    ensures r.Some? ==> r.value < |xs| && xs[r.value] == x
    ensures r.Some? ==> forall i | 0 <= i < r.value :: xs[i] != x
    ensures r.None? <==> x !in xs
  {
    if xs == [] then None
    else if xs[0] == x then Some(0)
    else match IndexOf(xs[1..], x)
      case None => None
      case Some(k) => Some(k + 1)
  }

  // ---------------------------------------------------------------- splice

  /** Where `splice(start, ...)` starts on an array of length `len`: a negative start
      counts from the end, and the result is clamped to `0..len`. */
  function SpliceStart(len: nat, start: int): (k: nat)
    ensures k <= len
    ensures 0 <= start <= len ==> k == start
    ensures start > len ==> k == len
  {
    if start < 0 then (if len + start < 0 then 0 else len + start)
    else if start > len then len
    else start
  }

  /** `a.splice(start, 0, x)` on an array holding `s`: the array afterwards. */
  function SpliceInsert<T>(s: seq<T>, start: int, x: T): (r: seq<T>)
    ensures |r| == |s| + 1
    ensures r[SpliceStart(|s|, start)] == x
    ensures multiset(r) == multiset(s) + multiset{x}
  {
    var k := SpliceStart(|s|, start);
    assert s == s[..k] + s[k..];
    s[..k] + [x] + s[k..]
  }

  /** `a.splice(k, 1)` on an array holding `s`, for a position `k` in range. */
  function RemoveAt<T>(s: seq<T>, k: nat): (r: seq<T>)
    requires k < |s|
    ensures |r| == |s| - 1
    ensures multiset(r) + multiset{s[k]} == multiset(s)
  {
    assert s == s[..k] + [s[k]] + s[k + 1..];
    s[..k] + s[k + 1..]
  }

  // ---------------------------------------------------------------- moving one element

  /** When the element at `from` is moved to `to`, the position in the old sequence of
      the element that ends up at position `i`. */
  function MoveSource(from: nat, to: nat, i: nat): nat
  {
    if i == to then from
    else if from < to && from <= i < to then i + 1
    else if to < from && to < i <= from then i - 1
    else i
  }

  /** `s` with the element at `from` taken out and put back so that it sits at `to`;
      every other element keeps its relative order. */
  function Moved<T>(s: seq<T>, from: nat, to: nat): (r: seq<T>)
    requires from < |s| && to < |s|
    ensures |r| == |s|
    ensures forall i | 0 <= i < |s| :: MoveSource(from, to, i) < |s| && r[i] == s[MoveSource(from, to, i)]
  {
    seq(|s|, i requires 0 <= i < |s| => s[MoveSource(from, to, i)])
  }

  /** Taking the element out with `splice(from, 1)` and putting it back with
      `splice(to, 0, x)` is exactly the move. */
  lemma SpliceMoveIsMoved<T>(s: seq<T>, from: nat, to: nat)
    requires from < |s| && to < |s|
    ensures SpliceInsert(RemoveAt(s, from), to, s[from]) == Moved(s, from, to)
  {
    var r := RemoveAt(s, from);
    var out := SpliceInsert(r, to, s[from]);
    assert out == r[..to] + [s[from]] + r[to..];
    forall i | 0 <= i < |s|
      ensures out[i] == Moved(s, from, to)[i]
    {
      if i < to {
        assert out[i] == r[i];
      } else if i > to {
        assert out[i] == r[i - 1];
      }
    }
  }

  /** Different positions of the result come from different positions of `s`. */
  lemma MoveSourceInjective(n: nat, from: nat, to: nat, i: nat, j: nat)
    requires from < n && to < n && i < n && j < n && i != j
    ensures MoveSource(from, to, i) != MoveSource(from, to, j)
  {
  }

  lemma {:induction false} MovedIsPermutation<T>(s: seq<T>, from: nat, to: nat)
    requires from < |s| && to < |s|
    ensures multiset(Moved(s, from, to)) == multiset(s)
  {
    SpliceMoveIsMoved(s, from, to);
  }

  lemma {:induction false} MovedToTarget<T>(s: seq<T>, from: nat, to: nat)
    requires from < |s| && to < |s|
    ensures Moved(s, from, to)[to] == s[from]
    ensures from == to ==> Moved(s, from, to) == s
  {
  }

  /** Moving the element back from `to` to `from` undoes the move. */
  lemma {:induction false} MovedInverse<T>(s: seq<T>, from: nat, to: nat)
    requires from < |s| && to < |s|
    ensures Moved(Moved(s, from, to), to, from) == s
  {
    var m := Moved(s, from, to);
    var b := Moved(m, to, from);
    forall i | 0 <= i < |s|
      ensures b[i] == s[i]
    {
      assert b[i] == m[MoveSource(to, from, i)];
    }
  }
}
