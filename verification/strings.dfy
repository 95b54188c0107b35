/** Character classes and sequence helpers shared by every component. */
module Strings {

  /** JavaScript's `\s` class, which is also the set `String.prototype.trim` removes:
      the ASCII controls TAB, LF, VT, FF, CR, the space, and the Unicode space
      separators, line and paragraph separators and the byte-order mark. */
  predicate IsWhitespace(c: char) {
    || c == '\t' || c == '\n' || c == '\U{B}' || c == '\U{C}' || c == '\r' || c == ' '
    || c == '\U{A0}' || c == '\U{1680}' || ('\U{2000}' <= c <= '\U{200A}')
    || c == '\U{2028}' || c == '\U{2029}' || c == '\U{202F}' || c == '\U{205F}'
    || c == '\U{3000}' || c == '\U{FEFF}'
  }

  /** JavaScript's `\d` class: ASCII digits only. */
  predicate IsDigit(c: char) {
    '0' <= c <= '9'
  }

  predicate AllDigits(s: string) {
    forall i :: 0 <= i < |s| ==> IsDigit(s[i])
  }

  /** `s.startsWith(p)` */
  predicate StartsWith(s: string, p: string) {
    |p| <= |s| && s[..|p|] == p
  }

  /** `sub` occurs in `s` starting at position `i`. */
  predicate OccursAt(s: string, sub: string, i: int) {
    0 <= i && i + |sub| <= |s| && s[i..i + |sub|] == sub
  }

  /** `s.includes(sub)`, searched left to right. */
  function Contains(s: string, sub: string): (b: bool)
    ensures b <==> exists i :: OccursAt(s, sub, i)
    decreases |s|
  {
    if StartsWith(s, sub) then
      assert OccursAt(s, sub, 0);
      true
    else if s == [] then
      false
    else
      var b := Contains(s[1..], sub);
      if b then
        var i :| OccursAt(s[1..], sub, i);
        assert OccursAt(s, sub, i + 1) by {
          assert s[1..][i..i + |sub|] == s[i + 1..i + 1 + |sub|];
        }
        true
      else
        assert !OccursAt(s, sub, 0);
        forall i | 0 < i && OccursAt(s, sub, i)
          ensures OccursAt(s[1..], sub, i - 1)
        {
          assert s[1..][i - 1..i - 1 + |sub|] == s[i..i + |sub|];
        }
        false
  }

  /** `parts.join(sep)` */
  function Join(parts: seq<string>, sep: string): (r: string)
    ensures |parts| == 1 ==> r == parts[0]
    decreases |parts|
  {
    if |parts| == 0 then []
    else if |parts| == 1 then parts[0]
    else parts[0] + sep + Join(parts[1..], sep)
  }

  /** `s.slice(0, n)`: the first `n` elements, or all of them when there are fewer. */
  function Take<T>(s: seq<T>, n: nat): (r: seq<T>)
    ensures |r| <= n && |r| <= |s|
    ensures |s| <= n ==> r == s
    ensures |s| > n ==> |r| == n
    ensures forall i :: 0 <= i < |r| ==> r[i] == s[i]
  {
    if |s| <= n then s else s[..n]
  }

  /** `s.filter(p)`: the elements satisfying `p`, in their original order. */
  function Filter<T>(p: T -> bool, s: seq<T>): (r: seq<T>)
    ensures |r| <= |s|
    ensures forall x :: x in r ==> x in s && p(x)
    ensures forall x :: x in s && p(x) ==> x in r
  {
    if s == [] then []
    else if p(s[0]) then [s[0]] + Filter(p, s[1..])
    else Filter(p, s[1..])
  }

  /** Filtering a single element keeps it exactly when it satisfies `p`. */
  lemma FilterOne<T>(p: T -> bool, x: T)
    ensures Filter(p, [x]) == if p(x) then [x] else []
  {
    assert [x][1..] == [];
  }

  /** Filtering distributes over concatenation: together with `FilterOne`,
      this pins down `Filter` as "the satisfying elements, in order". */
  lemma {:induction false} FilterConcat<T>(p: T -> bool, a: seq<T>, b: seq<T>)
    ensures Filter(p, a + b) == Filter(p, a) + Filter(p, b)
  {
    if a == [] {
      AppendEmpty(b);
      AppendEmpty(Filter(p, b));
    } else {
      FilterConcat(p, a[1..], b);
      DropOfAppend(a, b);
      if p(a[0]) {
        AppendAssoc([a[0]], Filter(p, a[1..]), Filter(p, b));
      }
    }
  }

  /** The `k`-th element of `Filter(p, s)` is the element of `s` at some
      position `i` that satisfies `p` and is preceded by exactly `k`
      elements satisfying `p`. */
  lemma {:induction false} FilterAt<T>(p: T -> bool, s: seq<T>, k: nat)
    requires k < |Filter(p, s)|
    ensures exists i :: 0 <= i < |s| && s[i] == Filter(p, s)[k] && p(s[i])
                        && |Filter(p, s[..i])| == k
  {
    if p(s[0]) && k == 0 {
      assert s[..0] == [];
    } else {
      var k' := if p(s[0]) then k - 1 else k;
      assert Filter(p, s)[k] == Filter(p, s[1..])[k'];
      FilterAt(p, s[1..], k');
      var j :| 0 <= j < |s[1..]| && s[1..][j] == Filter(p, s[1..])[k'] && p(s[1..][j])
               && |Filter(p, s[1..][..j])| == k';
      FilterPrefixStep(p, s, j);
      assert s[j + 1] == s[1..][j];
    }
  }

  /** Counting the matches before position `j + 1` of `s` is counting those
      before position `j` of `s[1..]`, plus one when `s[0]` matches. */
  lemma FilterPrefixStep<T>(p: T -> bool, s: seq<T>, j: nat)
    requires j < |s| - 1
    ensures |Filter(p, s[..j + 1])| == |Filter(p, s[1..][..j])| + if p(s[0]) then 1 else 0
  {
    FilterOne(p, s[0]);
    FilterConcat(p, [s[0]], s[1..][..j]);
    assert s[..j + 1] == [s[0]] + s[1..][..j];
  }

  /** `s.map(f)`. */
  function Map<A, B>(f: A -> B, s: seq<A>): (r: seq<B>)
    ensures |r| == |s|
  {
    if s == [] then [] else [f(s[0])] + Map(f, s[1..])
  }

  lemma {:induction false} MapAt<A, B>(f: A -> B, s: seq<A>, i: nat)
    requires i < |s|
    ensures Map(f, s)[i] == f(s[i])
  {
    if i > 0 {
      MapAt(f, s[1..], i - 1);
    }
  }

  lemma {:induction false} MapConcat<A, B>(f: A -> B, a: seq<A>, b: seq<A>)
    ensures Map(f, a + b) == Map(f, a) + Map(f, b)
  {
    if a == [] {
      AppendEmpty(b);
      AppendEmpty(Map(f, b));
    } else {
      MapConcat(f, a[1..], b);
      DropOfAppend(a, b);
      AppendAssoc([f(a[0])], Map(f, a[1..]), Map(f, b));
    }
  }

  lemma AppendAssoc<T>(a: seq<T>, b: seq<T>, c: seq<T>)
    ensures (a + b) + c == a + (b + c)
  {
  }

  lemma MapSplit<A, B>(f: A -> B, a: seq<A>, x: A, b: seq<A>)
    ensures Map(f, a + [x] + b) == Map(f, a) + [f(x)] + Map(f, b)
  {
    MapConcat(f, a + [x], b);
    MapConcat(f, a, [x]);
  }

  /** The first element and the rest of a concatenation with a non-empty front. */
  lemma DropOfAppend<T>(p: seq<T>, t: seq<T>)
    requires |p| > 0
    ensures (p + t)[0] == p[0] && (p + t)[1..] == p[1..] + t
  {
  }

  lemma ConsTail<T>(p: seq<T>, x: seq<T>)
    requires |p| > 0
    ensures [p[0]] + (p[1..] + x) == p + x
    ensures [p[0]] + p[1..] == p
  {
  }

  lemma Regroup<T>(a: seq<T>, b: seq<T>, c: seq<T>, d: seq<T>)
    ensures a + b + c + d == a + (b + c + d)
  {
  }

  lemma AppendEmpty<T>(s: seq<T>)
    ensures s + [] == s && [] + s == s
  {
  }

  /** The parts of a three-way concatenation, recovered by slicing. */
  lemma SliceOfThree<T>(a: seq<T>, b: seq<T>, c: seq<T>)
    ensures (a + b + c)[..|a|] == a
    ensures (a + b + c)[|a|..] == b + c
    ensures (a + b + c)[|a| + |b|..] == c
  {
  }
}
