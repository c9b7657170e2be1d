/**
 * JavaScript's string order (`a < b`) and the default `Array.prototype.sort`,
 * which sorts strings ascending in that order.
 */
module Lex {

  /** `a < b` on strings: the first differing character decides, and a proper prefix is smaller. */
  predicate Less(a: string, b: string)
    decreases |a|
  {
    if |a| == 0 then |b| > 0
    else |b| > 0 && (if a[0] == b[0] then Less(a[1..], b[1..]) else a[0] < b[0])
  }

  /** `a <= b` on strings. */
  predicate Le(a: string, b: string) {
    a == b || Less(a, b)
  }

  lemma {:induction false} LessIrreflexive(a: string)
    ensures !Less(a, a)
    decreases |a|
  {
    if |a| > 0 {
      LessIrreflexive(a[1..]);
    }
  }

  lemma {:induction false} LessAsymmetric(a: string, b: string)
    ensures !(Less(a, b) && Less(b, a))
    decreases |a|
  {
    if |a| > 0 && |b| > 0 && a[0] == b[0] {
      LessAsymmetric(a[1..], b[1..]);
    }
  }

  lemma {:induction false} LessTransitive(a: string, b: string, c: string)
    requires Less(a, b) && Less(b, c)
    ensures Less(a, c)
    decreases |a|
  {
    if |a| > 0 && a[0] == b[0] && b[0] == c[0] {
      LessTransitive(a[1..], b[1..], c[1..]);
    }
  }

  lemma {:induction false} LessTotal(a: string, b: string)
    ensures a == b || Less(a, b) || Less(b, a)
    decreases |a|
  {
    if |a| > 0 && |b| > 0 && a[0] == b[0] {
      LessTotal(a[1..], b[1..]);
      if a[1..] == b[1..] {
        assert a == [a[0]] + a[1..] && b == [b[0]] + b[1..];
      }
    }
  }

  /** `Le` is the reflexive closure of a strict total order, so `!(b < a)` is `a <= b`. */
  lemma NotLessIsLe(a: string, b: string)
    ensures !Less(b, a) <==> Le(a, b)
  {
  }

  lemma LeTransitive(a: string, b: string, c: string)
    requires Le(a, b) && Le(b, c)
    ensures Le(a, c)
  {
    if a != b && b != c {
      LessTransitive(a, b, c);
    }
  }

  /**
   * Comparing two strings that start with prefixes of the same length: the
   * prefixes decide unless they are equal, and then the rest decides.
   */
  lemma {:induction false} LessAfterEqualWidth(a1: string, b1: string, a2: string, b2: string)
    requires |a1| == |a2|
    ensures Less(a1 + b1, a2 + b2) <==> Less(a1, a2) || (a1 == a2 && Less(b1, b2))
    decreases |a1|
  {
    if |a1| == 0 {
      assert a1 + b1 == b1 && a2 + b2 == b2;
    } else {
      assert (a1 + b1)[0] == a1[0] && (a2 + b2)[0] == a2[0];
      assert (a1 + b1)[1..] == a1[1..] + b1 && (a2 + b2)[1..] == a2[1..] + b2;
      LessAfterEqualWidth(a1[1..], b1, a2[1..], b2);
      if a1[0] == a2[0] && a1[1..] == a2[1..] {
        assert a1 == [a1[0]] + a1[1..] && a2 == [a2[0]] + a2[1..];
      }
      if a1 == a2 {
        assert a1[1..] == a2[1..];
      }
    }
  }

  /** Ascending order: every earlier element is at most every later one. */
  ghost predicate Ascending(s: seq<string>) {
    forall i, j :: 0 <= i < j < |s| ==> Le(s[i], s[j])
  }

  /** Descending order: every earlier element is at least every later one. */
  ghost predicate Descending(s: seq<string>) {
    forall i, j :: 0 <= i < j < |s| ==> Le(s[j], s[i])
  }

  /** Insertion of `x` into a sorted sequence, before the first element not below it. */
  function Insert(x: string, s: seq<string>): seq<string> {
    if s == [] then [x]
    else if Less(s[0], x) then [s[0]] + Insert(x, s[1..])
    else [x] + s
  }

  /** The ascending sort `Array.prototype.sort()` performs on strings (insertion sort). */
  function Sort(s: seq<string>): seq<string> {
    if s == [] then [] else Insert(s[0], Sort(s[1..]))
  }

  /** `Array.prototype.reverse()`. */
  function Reverse(s: seq<string>): seq<string> {
    if s == [] then [] else Reverse(s[1..]) + [s[0]]
  }

  lemma {:induction false} InsertPermutes(x: string, s: seq<string>)
    ensures multiset(Insert(x, s)) == multiset(s) + multiset{x}
    decreases |s|
  {
    if s != [] {
      assert s == [s[0]] + s[1..];
      if Less(s[0], x) {
        InsertPermutes(x, s[1..]);
      }
    }
  }

  /** A head that is at most every element of an ascending list extends it. */
  lemma ConsAscending(a: string, r: seq<string>)
    requires Ascending(r)
    requires forall k :: 0 <= k < |r| ==> Le(a, r[k])
    ensures Ascending([a] + r)
  {
    var full := [a] + r;
    forall i, j | 0 <= i < j < |full| ensures Le(full[i], full[j]) {
      assert full[j] == r[j - 1];
      if i > 0 {
        assert full[i] == r[i - 1];
      }
    }
  }

  /** Every element of `Insert(x, t)` is `x` or an element of `t`. */
  lemma InsertElements(x: string, t: seq<string>, k: nat)
    requires k < |Insert(x, t)|
    ensures Insert(x, t)[k] == x || Insert(x, t)[k] in t
  {
    InsertPermutes(x, t);
    var r := Insert(x, t);
    assert r[k] in multiset(r);
    assert r[k] == x || r[k] in multiset(t);
  }

  lemma {:induction false} InsertAscending(x: string, s: seq<string>)
    requires Ascending(s)
    ensures Ascending(Insert(x, s))
    decreases |s|
  {
    if s == [] {
    } else if Less(s[0], x) {
      var t := s[1..];
      assert Ascending(t) by {
        forall i, j | 0 <= i < j < |t| ensures Le(t[i], t[j]) {
          assert t[i] == s[i + 1] && t[j] == s[j + 1];
        }
      }
      InsertAscending(x, t);
      var r := Insert(x, t);
      forall k | 0 <= k < |r| ensures Le(s[0], r[k]) {
        InsertElements(x, t, k);
        if r[k] != x {
          var m :| 0 <= m < |t| && t[m] == r[k];
          assert s[m + 1] == r[k];
        }
      }
      ConsAscending(s[0], r);
    } else {
      NotLessIsLe(x, s[0]);
      forall k | 0 <= k < |s| ensures Le(x, s[k]) {
        if k > 0 {
          LeTransitive(x, s[0], s[k]);
        }
      }
      ConsAscending(x, s);
    }
  }

  /** `Sort` returns an ascending permutation of its input. */
  lemma {:induction false} SortCorrect(s: seq<string>)
    ensures Ascending(Sort(s))
    ensures multiset(Sort(s)) == multiset(s)
    ensures |Sort(s)| == |s|
    decreases |s|
  {
    if s != [] {
      SortCorrect(s[1..]);
      InsertAscending(s[0], Sort(s[1..]));
      InsertPermutes(s[0], Sort(s[1..]));
      assert s == [s[0]] + s[1..];
      assert |multiset(Sort(s))| == |s|;
    }
  }

  /** `Reverse` keeps the elements and puts the element at `k` at the mirrored place. */
  lemma {:induction false} ReverseAt(s: seq<string>)
    ensures |Reverse(s)| == |s|
    ensures forall k :: 0 <= k < |s| ==> Reverse(s)[k] == s[|s| - 1 - k]
    ensures multiset(Reverse(s)) == multiset(s)
    decreases |s|
  {
    if s != [] {
      ReverseAt(s[1..]);
      assert s == [s[0]] + s[1..];
    }
  }

  /** Reversing an ascending sequence gives a descending one. */
  lemma ReverseOfAscending(s: seq<string>)
    requires Ascending(s)
    ensures Descending(Reverse(s))
  {
    ReverseAt(s);
    var r := Reverse(s);
    forall i, j | 0 <= i < j < |r| ensures Le(r[j], r[i]) {
      assert r[i] == s[|s| - 1 - i] && r[j] == s[|s| - 1 - j];
    }
  }

  /** `xs.sort().reverse()`: a descending permutation of `xs`. */
  lemma SortThenReverse(xs: seq<string>)
    ensures Descending(Reverse(Sort(xs)))
    ensures multiset(Reverse(Sort(xs))) == multiset(xs)
  {
    SortCorrect(xs);
    ReverseAt(Sort(xs));
    ReverseOfAscending(Sort(xs));
  }

  /** In a descending sequence, a strictly greater string stands before a smaller one. */
  lemma GreaterComesFirst(s: seq<string>, i: nat, j: nat)
    requires Descending(s)
    requires i < |s| && j < |s| && Less(s[i], s[j])
    ensures j < i
  {
    LessIrreflexive(s[i]);
    if i < j {
      assert Le(s[j], s[i]);
      LessAsymmetric(s[i], s[j]);
    }
  }
}
