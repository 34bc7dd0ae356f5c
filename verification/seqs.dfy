/** Generic sequence helpers shared by the DOM passes. */
module Seqs {
  import opened Wrappers


  /** Position of the first occurrence of `x` in `s`, if any. */
  function IndexOf<T(==)>(s: seq<T>, x: T): (r: Option<nat>)
    ensures r.Some? ==> r.value < |s| && s[r.value] == x && x !in s[..r.value]
    ensures r.None? ==> x !in s
  {
    if s == [] then None
    else if s[0] == x then Some(0)
    else
      match IndexOf(s[1..], x)
      case Some(k) => assert s[..k + 1] == [s[0]] + s[1..][..k]; Some(k + 1)
      case None => None
  }

  /** The elements of `s` that satisfy `p`, in their original order. */
  function Filter<T>(p: T -> bool, s: seq<T>): (r: seq<T>)
    ensures |r| <= |s|
    ensures forall i | 0 <= i < |r| :: p(r[i])
  {
    if s == [] then [] else (if p(s[0]) then [s[0]] else []) + Filter(p, s[1..])
  }

  lemma {:induction false} FilterConcat<T>(p: T -> bool, a: seq<T>, b: seq<T>)
    ensures Filter(p, a + b) == Filter(p, a) + Filter(p, b)
  {
    if a == [] {
      assert a + b == b;
    } else {
      assert (a + b)[1..] == a[1..] + b;
      FilterConcat(p, a[1..], b);
    }
  }

  lemma FilterCons<T>(p: T -> bool, x: T, s: seq<T>)
    ensures Filter(p, [x] + s) == (if p(x) then [x] else []) + Filter(p, s)
  {
    assert ([x] + s)[1..] == s;
  }

  /** Filtering a head followed by two runs. */
  lemma FilterSplit<T>(p: T -> bool, x: T, a: seq<T>, b: seq<T>)
    ensures Filter(p, [x] + a + b) == (if p(x) then [x] else []) + Filter(p, a) + Filter(p, b)
  {
    FilterConcat(p, [x] + a, b);
    FilterCons(p, x, a);
  }

  /** Filtering twice with the same predicate changes nothing the second time. */
  lemma {:induction false} FilterIdempotent<T>(p: T -> bool, s: seq<T>)
    ensures Filter(p, Filter(p, s)) == Filter(p, s)
  {
    if s != [] {
      var head := if p(s[0]) then [s[0]] else [];
      FilterConcat(p, head, Filter(p, s[1..]));
      FilterIdempotent(p, s[1..]);
      if p(s[0]) {
        assert Filter(p, head) == head by {
          assert head[1..] == [];
        }
      }
    }
  }


  // Splicing one place of a sequence `pre + [c] + rest`

  lemma Associative<T>(a: seq<T>, b: seq<T>, c: seq<T>)
    ensures (a + b) + c == a + (b + c)
  {
  }

  lemma HeadTail<T>(s: seq<T>)
    requires s != []
    ensures s == [s[0]] + s[1..]
  {
  }

  lemma TakeDrop<T>(s: seq<T>, k: nat)
    requires k <= |s|
    ensures s[..k] + s[k..] == s
  {
  }

  lemma TakeSnoc<T>(s: seq<T>, k: nat)
    requires 0 < k <= |s|
    ensures s[..k] == s[..k - 1] + [s[k - 1]]
  {
  }

  lemma SpliceReplace<T>(pre: seq<T>, c: T, rest: seq<T>, x: T)
    ensures (pre + [c] + rest)[|pre| := x] == pre + ([x] + rest)
  {
  }

  lemma SpliceRemove<T>(pre: seq<T>, c: T, rest: seq<T>)
    ensures var s := pre + [c] + rest; s[..|pre|] + s[|pre| + 1..] == pre + rest
  {
    var s := pre + [c] + rest;
    assert s[..|pre|] == pre && s[|pre| + 1..] == rest;
  }

  /** Overwriting the place after `c`, then removing `c`. */
  lemma SpliceMerge<T>(pre: seq<T>, c: T, rest: seq<T>, x: T)
    requires rest != []
    ensures var s := (pre + [c] + rest)[|pre| + 1 := x]; s[..|pre|] + s[|pre| + 1..] == pre + ([x] + rest[1..])
  {
    var s := (pre + [c] + rest)[|pre| + 1 := x];
    assert s[..|pre|] == pre && s[|pre| + 1..] == [x] + rest[1..];
  }
}
