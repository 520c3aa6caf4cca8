/** Sequence helpers used across the model: order-preserving filtering (the
    `push` into one of several arrays inside a `for` loop), duplicate-freedom,
    and `Array.prototype.join` with a one-character separator. */
module Seqs {

  /** The elements of `s` that satisfy `p`, in their original order. */
  function Filter<T(!new)>(s: seq<T>, p: T -> bool): (r: seq<T>)
    ensures |r| <= |s|
    ensures forall i :: 0 <= i < |r| ==> p(r[i])
  {
    if |s| == 0 then []
    else
      var init := s[..|s| - 1];
      assert s == init + [s[|s| - 1]];
      Filter(init, p) + (if p(s[|s| - 1]) then [s[|s| - 1]] else [])
  }

  /** A filter keeps exactly the elements that satisfy the predicate. */
  lemma {:induction false} FilterMembers<T(!new)>(s: seq<T>, p: T -> bool)
    ensures forall x :: x in Filter(s, p) <==> x in s && p(x)
    decreases |s|
  {
    if |s| > 0 {
      var init := s[..|s| - 1];
      assert s == init + [s[|s| - 1]];
      FilterMembers(init, p);
    }
  }

  lemma {:induction false} FilterAppend<T(!new)>(a: seq<T>, b: seq<T>, p: T -> bool)
    ensures Filter(a + b, p) == Filter(a, p) + Filter(b, p)
    decreases |b|
  {
    if |b| == 0 {
      assert a + b == a;
    } else {
      var init := b[..|b| - 1];
      assert (a + b)[..|a + b| - 1] == a + init;
      FilterAppend(a, init, p);
    }
  }

  /** One more step of a left-to-right filtering loop. */
  lemma FilterSnoc<T(!new)>(s: seq<T>, i: nat, p: T -> bool)
    requires i < |s|
    ensures Filter(s[..i + 1], p) == Filter(s[..i], p) + (if p(s[i]) then [s[i]] else [])
  {
    assert s[..i + 1][..i] == s[..i];
  }

  /** Splitting a sequence by a predicate and its negation loses and adds
      nothing: every element lands in exactly one of the two parts. */
  lemma {:induction false} FilterComplement<T(!new)>(s: seq<T>, p: T -> bool, q: T -> bool)
    requires forall x :: q(x) == !p(x)
    ensures multiset(Filter(s, p)) + multiset(Filter(s, q)) == multiset(s)
    ensures |Filter(s, p)| + |Filter(s, q)| == |s|
    decreases |s|
  {
    if |s| > 0 {
      var init := s[..|s| - 1];
      assert s == init + [s[|s| - 1]];
      FilterComplement(init, p, q);
    }
  }

  /** A filter whose predicate no element meets is empty. */
  lemma FilterNone<T(!new)>(s: seq<T>, p: T -> bool)
    requires forall i :: 0 <= i < |s| ==> !p(s[i])
    ensures Filter(s, p) == []
  {
    FilterMembers(s, p);
  }

  /** Filtering around one inserted element. */
  lemma FilterSplice<T(!new)>(pre: seq<T>, x: T, post: seq<T>, p: T -> bool)
    ensures Filter(pre + [x] + post, p) == Filter(pre, p) + (if p(x) then [x] else []) + Filter(post, p)
    ensures Filter(pre + post, p) == Filter(pre, p) + Filter(post, p)
  {
    FilterAppend(pre + [x], post, p);
    FilterAppend(pre, [x], p);
    FilterAppend(pre, post, p);
    assert [x][..0] == [];
  }

  ghost predicate Distinct<T>(s: seq<T>)
  {
    forall i, j :: 0 <= i < j < |s| ==> s[i] != s[j]
  }

  function Elems<T>(s: seq<T>): set<T>
  {
    set x | x in s
  }

  lemma DistinctConcat<T>(a: seq<T>, b: seq<T>)
    requires Distinct(a) && Distinct(b) && Elems(a) !! Elems(b)
    ensures Distinct(a + b)
    ensures Elems(a + b) == Elems(a) + Elems(b)
  {
    var c := a + b;
    forall i, j | 0 <= i < j < |c| ensures c[i] != c[j] {
      if i < |a| && j >= |a| {
        assert c[i] in Elems(a) && c[j] == b[j - |a|] && c[j] in Elems(b);
      } else if j >= |a| {
        assert c[i] == b[i - |a|] && c[j] == b[j - |a|];
      }
    }
  }

  /** `xs.join(sep)`: the empty list joins to the empty string. */
  function Join(xs: seq<string>, sep: char): string
  {
    if |xs| == 0 then ""
    else if |xs| == 1 then xs[0]
    else Join(xs[..|xs| - 1], sep) + [sep] + xs[|xs| - 1]
  }

  /** Width of `xs` once each element is followed by one separator. */
  function Width(xs: seq<string>): nat
  {
    if |xs| == 0 then 0 else Width(xs[..|xs| - 1]) + |xs[|xs| - 1]| + 1
  }

  /** Position of `xs[i]` inside `Join(xs, sep)`. */
  function Offset(xs: seq<string>, i: nat): nat
    requires i <= |xs|
  {
    Width(xs[..i])
  }

  lemma {:induction false} JoinLength(xs: seq<string>, sep: char)
    requires |xs| > 0
    ensures |Join(xs, sep)| == Width(xs) - 1
    decreases |xs|
  {
    if |xs| == 1 {
      assert xs[..|xs| - 1] == [];
    } else {
      JoinLength(xs[..|xs| - 1], sep);
    }
  }

  /** Element `i` of `xs` occupies the characters of `Join(xs, sep)` from
      `Offset(xs, i)` on. */
  lemma {:induction false} JoinElement(xs: seq<string>, sep: char, i: nat)
    requires i < |xs|
    ensures Offset(xs, i) + |xs[i]| <= |Join(xs, sep)|
    ensures Join(xs, sep)[Offset(xs, i)..Offset(xs, i) + |xs[i]|] == xs[i]
    decreases |xs|
  {
    var n := |xs|;
    var init := xs[..n - 1];
    if n == 1 {
      assert xs[..0] == [];
    } else if i == n - 1 {
      JoinLength(init, sep);
      assert xs[..i] == init;
    } else {
      JoinElement(init, sep, i);
      assert xs[..i] == init[..i];
      var ji := Join(init, sep);
      assert Join(xs, sep) == ji + [sep] + xs[n - 1];
      assert Join(xs, sep)[Offset(xs, i)..Offset(xs, i) + |xs[i]|]
          == ji[Offset(init, i)..Offset(init, i) + |init[i]|];
    }
  }

  /** Every element but the last is followed by exactly one separator. */
  lemma {:induction false} JoinSeparator(xs: seq<string>, sep: char, i: nat)
    requires i + 1 < |xs|
    ensures Offset(xs, i) + |xs[i]| < |Join(xs, sep)|
    ensures Join(xs, sep)[Offset(xs, i) + |xs[i]|] == sep
    decreases |xs|
  {
    var n := |xs|;
    var init := xs[..n - 1];
    var ji := Join(init, sep);
    assert Join(xs, sep) == ji + [sep] + xs[n - 1];
    assert xs[..i] == init[..i];
    JoinLength(init, sep);
    if i + 1 == n - 1 {
      assert init[..i] == init[..|init| - 1];
      assert init[..|init|] == init;
    } else {
      JoinSeparator(init, sep, i);
    }
  }

  /** `text` lays out `xs` one separator apart: element `i` starts at
      `Offset(xs, i)`, a single separator follows every element but the
      last, and nothing else is present. */
  ghost predicate LaidOut(text: string, xs: seq<string>, sep: char)
  {
    && (|xs| == 0 ==> text == "")
    && (|xs| > 0 ==> |text| == Width(xs) - 1)
    && (forall i :: 0 <= i < |xs| ==>
          Offset(xs, i) + |xs[i]| <= |text| &&
          text[Offset(xs, i)..Offset(xs, i) + |xs[i]|] == xs[i])
    && (forall i :: 0 <= i < |xs| - 1 ==>
          Offset(xs, i) + |xs[i]| < |text| && text[Offset(xs, i) + |xs[i]|] == sep)
  }

  lemma JoinLaidOut(xs: seq<string>, sep: char)
    ensures LaidOut(Join(xs, sep), xs, sep)
  {
    if |xs| > 0 {
      JoinLength(xs, sep);
    }
    forall i | 0 <= i < |xs|
      ensures Offset(xs, i) + |xs[i]| <= |Join(xs, sep)|
      ensures Join(xs, sep)[Offset(xs, i)..Offset(xs, i) + |xs[i]|] == xs[i]
    {
      JoinElement(xs, sep, i);
    }
    forall i | 0 <= i < |xs| - 1
      ensures Offset(xs, i) + |xs[i]| < |Join(xs, sep)|
      ensures Join(xs, sep)[Offset(xs, i) + |xs[i]|] == sep
    {
      JoinSeparator(xs, sep, i);
    }
  }
}
