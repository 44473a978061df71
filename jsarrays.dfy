/**
 * The JavaScript array operations the popup relies on, over sequences:
 * `indexOf`, removal of one element with `splice(index, 1)`, `unique_array`
 * (spreading a `Set` built from the array) and `join`.
 */
module JsArrays {

  /** No element occurs twice. */
  predicate NoDup<T(==)>(s: seq<T>) {
    forall i, j :: 0 <= i < j < |s| ==> s[i] != s[j]
  }

  /** `s.indexOf(x)`: the first index holding `x`, or -1 when there is none. */
  function IndexOf<T(==)>(s: seq<T>, x: T): (i: int)
    ensures -1 <= i < |s|
    ensures i == -1 <==> x !in s
    ensures i >= 0 ==> s[i] == x && x !in s[..i]
  {
    if |s| == 0 then -1
    else if s[0] == x then 0
    else
      var j := IndexOf(s[1..], x);
      assert s[1..][..if j < 0 then 0 else j] == s[1..if j < 0 then 1 else j + 1];
      if j == -1 then -1 else j + 1
  }

  /** `s.splice(s.indexOf(x), 1)` guarded by `indexOf > -1`: drop the first `x`, if any. */
  function RemoveFirst<T(==)>(s: seq<T>, x: T): seq<T> {
    var i := IndexOf(s, x);
    if i > -1 then s[..i] + s[i + 1..] else s
  }

  /** Removing an absent value changes nothing. */
  lemma RemoveFirstAbsent<T>(s: seq<T>, x: T)
    requires x !in s
    ensures RemoveFirst(s, x) == s
  {
  }

  /** Removal takes out exactly one copy of `x` when there is one, and nothing else. */
  lemma RemoveFirstCount<T>(s: seq<T>, x: T)
    ensures multiset(RemoveFirst(s, x)) == multiset(s) - multiset{x}
    ensures |RemoveFirst(s, x)| == if x in s then |s| - 1 else |s|
  {
    var i := IndexOf(s, x);
    if i > -1 {
      assert s == s[..i] + [s[i]] + s[i + 1..];
      assert multiset(s) == multiset(s[..i]) + multiset{x} + multiset(s[i + 1..]);
    } else {
      assert x !in multiset(s);
    }
  }

  /** `r` is `s` with some elements deleted, the rest in their original order. */
  predicate IsSubsequence<T(==)>(r: seq<T>, s: seq<T>)
    decreases |s|
  {
    if r == [] then true
    else if s == [] then false
    else if r[0] == s[0] then IsSubsequence(r[1..], s[1..])
    else IsSubsequence(r, s[1..])
  }

  lemma {:induction false} SubsequenceRefl<T>(s: seq<T>)
    ensures IsSubsequence(s, s)
    decreases |s|
  {
    if s != [] {
      SubsequenceRefl(s[1..]);
    }
  }

  /** Deleting one position keeps the relative order of all other elements. */
  lemma {:induction false} DeleteAtIsSubsequence<T>(s: seq<T>, i: nat)
    requires i < |s|
    ensures IsSubsequence(s[..i] + s[i + 1..], s)
    decreases i
  {
    var r := s[..i] + s[i + 1..];
    if i == 0 {
      assert r == s[1..];
      SubsequenceRefl(s[1..]);
      SubsequenceCons(s[1..], s[1..], s[0]);
      assert [s[0]] + s[1..] == s;
    } else {
      assert r[0] == s[0];
      assert r[1..] == s[1..][..i - 1] + s[1..][i..];
      DeleteAtIsSubsequence(s[1..], i - 1);
    }
  }

  /** A subsequence of `s` is also one of `s` with an element put in front. */
  lemma {:induction false} SubsequenceCons<T>(r: seq<T>, s: seq<T>, x: T)
    requires IsSubsequence(r, s)
    ensures IsSubsequence(r, [x] + s)
    decreases |s| + 1, 0
  {
    assert ([x] + s)[1..] == s;
    if r != [] && r[0] == x {
      SubsequenceDropFirst(r, s);
    }
  }

  /** Dropping the first element of a subsequence keeps it a subsequence. */
  lemma {:induction false} SubsequenceDropFirst<T>(a: seq<T>, t: seq<T>)
    requires a != [] && IsSubsequence(a, t)
    ensures IsSubsequence(a[1..], t)
    decreases |t|, 1
  {
    if a[0] == t[0] {
      SubsequenceCons(a[1..], t[1..], t[0]);
    } else {
      SubsequenceDropFirst(a, t[1..]);
      SubsequenceCons(a[1..], t[1..], t[0]);
    }
    assert [t[0]] + t[1..] == t;
  }

  lemma {:induction false} SubsequenceTrans<T>(a: seq<T>, b: seq<T>, c: seq<T>)
    requires IsSubsequence(a, b) && IsSubsequence(b, c)
    ensures IsSubsequence(a, c)
    decreases |c|
  {
    if a == [] {
    } else if b == [] {
    } else if c == [] {
    } else if b[0] == c[0] {
      if a[0] == b[0] {
        SubsequenceTrans(a[1..], b[1..], c[1..]);
      } else {
        SubsequenceTrans(a, b[1..], c[1..]);
      }
    } else {
      SubsequenceTrans(a, b, c[1..]);
      if a[0] == c[0] {
        SubsequenceDropFirst(a, c[1..]);
      }
    }
  }

  /** The elements left after `RemoveFirst` keep their relative order. */
  lemma RemoveFirstOrder<T>(s: seq<T>, x: T)
    ensures IsSubsequence(RemoveFirst(s, x), s)
  {
    var i := IndexOf(s, x);
    if i > -1 {
      DeleteAtIsSubsequence(s, i);
    } else {
      SubsequenceRefl(s);
    }
  }

  /**
   * `unique_array(a)`, that is `[...new Set(a)]`: a `Set` keeps its elements in
   * insertion order and ignores a value it already holds.
   */
  function Unique<T(==)>(s: seq<T>): seq<T>
    decreases |s|
  {
    if s == [] then []
    else
      var u := Unique(s[..|s| - 1]);
      var x := s[|s| - 1];
      if x in u then u else u + [x]
  }

  /**
   * `Unique(s)` holds each distinct element of `s` exactly once, in the order of
   * its first occurrence in `s`.
   */
  lemma {:induction false} UniqueSpec<T>(s: seq<T>)
    ensures NoDup(Unique(s))
    ensures forall x :: x in Unique(s) <==> x in s
    ensures forall i, j :: 0 <= i < j < |Unique(s)| ==> IndexOf(s, Unique(s)[i]) < IndexOf(s, Unique(s)[j])
    ensures |Unique(s)| <= |s|
    decreases |s|
  {
    if s != [] {
      var p := s[..|s| - 1];
      var x := s[|s| - 1];
      UniqueSpec(p);
      assert s == p + [x];
      var u := Unique(p);
      forall y | y in p
        ensures IndexOf(s, y) == IndexOf(p, y)
      {
        IndexOfAppend(p, x, y);
      }
      if x !in u {
        IndexOfAppend(p, x, x);
        assert IndexOf(s, x) == |p|;
        forall i | 0 <= i < |u|
          ensures IndexOf(s, u[i]) < IndexOf(s, x)
        {
          assert u[i] in u;
        }
      }
    }
  }

  lemma {:induction false} IndexOfAppend<T>(p: seq<T>, x: T, y: T)
    ensures IndexOf(p + [x], y) == if y in p then IndexOf(p, y) else if y == x then |p| else -1
    decreases |p|
  {
    if p != [] && p[0] != y {
      assert (p + [x])[1..] == p[1..] + [x];
      IndexOfAppend(p[1..], x, y);
      assert y in p <==> y in p[1..];
    }
  }

  /** A sequence without duplicates is its own `unique_array`. */
  lemma {:induction false} UniqueOfNoDup<T>(s: seq<T>)
    requires NoDup(s)
    ensures Unique(s) == s
    decreases |s|
  {
    if s != [] {
      var p := s[..|s| - 1];
      var x := s[|s| - 1];
      assert NoDup(p);
      UniqueOfNoDup(p);
      forall i | 0 <= i < |p|
        ensures p[i] != x
      {
        assert p[i] == s[i];
      }
      assert s == p + [x];
    }
  }

  /** Applying `unique_array` twice is the same as applying it once. */
  lemma UniqueIdempotent<T>(s: seq<T>)
    ensures Unique(Unique(s)) == Unique(s)
  {
    UniqueSpec(s);
    UniqueOfNoDup(Unique(s));
  }

  /** In a sequence without duplicates a member occurs exactly once. */
  lemma {:induction false} NoDupCount<T>(s: seq<T>, x: T)
    requires NoDup(s)
    ensures multiset(s)[x] == if x in s then 1 else 0
    decreases |s|
  {
    if s != [] {
      var p := s[..|s| - 1];
      assert s == p + [s[|s| - 1]];
      assert NoDup(p);
      NoDupCount(p, x);
      assert multiset(s) == multiset(p) + multiset{s[|s| - 1]};
      assert s[|s| - 1] !in p;
    }
  }

  /** Two duplicate-free sequences with no common element concatenate without duplicates. */
  lemma NoDupConcat<T>(a: seq<T>, b: seq<T>)
    requires NoDup(a) && NoDup(b)
    requires forall x :: x in a ==> x !in b
    ensures NoDup(a + b)
  {
    var s := a + b;
    forall i, j | 0 <= i < j < |s|
      ensures s[i] != s[j]
    {
      if i < |a| && j >= |a| {
        assert s[i] in a && s[j] == b[j - |a|];
      }
    }
  }

  /** Concatenation of the characters of `parts`, `sep` between neighbours: `parts.join(sep)`. */
  function Join(parts: seq<string>, sep: char): string {
    if parts == [] then ""
    else if |parts| == 1 then parts[0]
    else parts[0] + [sep] + Join(parts[1..], sep)
  }

  /** The joined string has the parts' lengths plus one separator between each two parts. */
  lemma {:induction false} JoinLength(parts: seq<string>, sep: char, len: nat)
    requires forall k :: 0 <= k < |parts| ==> |parts[k]| == len
    ensures |parts| > 0 ==> |Join(parts, sep)| + 1 == |parts| * (len + 1)
    ensures |parts| == 0 ==> Join(parts, sep) == ""
  {
    if |parts| > 1 {
      JoinLength(parts[1..], sep, len);
      assert (|parts| - 1) * (len + 1) + (len + 1) == |parts| * (len + 1);
    }
  }

  /**
   * With parts of equal length `len`, part `k` sits at offset `o == k * (len + 1)`
   * and each part but the last is followed by `sep`.
   */
  lemma {:induction false} JoinLayout(parts: seq<string>, sep: char, len: nat, k: nat, o: nat)
    requires forall m :: 0 <= m < |parts| ==> |parts[m]| == len
    requires k < |parts| && o == k * (len + 1)
    ensures o + len <= |Join(parts, sep)|
    ensures k + 1 < |parts| ==> o + len < |Join(parts, sep)|
    ensures Join(parts, sep)[o..o + len] == parts[k]
    ensures k + 1 < |parts| ==> Join(parts, sep)[o + len] == sep
    decreases k
  {
    var j := Join(parts, sep);
    if |parts| > 1 {
      var rest := Join(parts[1..], sep);
      assert j == parts[0] + [sep] + rest;
      if k == 0 {
        assert j[..len] == parts[0];
      } else {
        var o' := (k - 1) * (len + 1);
        assert o == o' + len + 1;
        JoinLayout(parts[1..], sep, len, k - 1, o');
        assert j[o..o + len] == rest[o'..o' + len];
      }
    }
  }

  /** Joining `n` empty parts gives `n - 1` separators. */
  lemma {:induction false} JoinEmpty(parts: seq<string>, sep: char)
    requires |parts| > 0 && forall k :: 0 <= k < |parts| ==> parts[k] == ""
    ensures Join(parts, sep) == seq(|parts| - 1, _ => sep)
  {
    if |parts| > 1 {
      JoinEmpty(parts[1..], sep);
      assert parts[0] == "";
    }
  }

  /** Every character of the joined string is the separator or a character of some part. */
  lemma {:induction false} JoinMembers(parts: seq<string>, sep: char, c: char)
    requires c in Join(parts, sep)
    ensures c == sep || exists k :: 0 <= k < |parts| && c in parts[k]
  {
    if |parts| > 1 {
      var rest := Join(parts[1..], sep);
      assert Join(parts, sep) == parts[0] + [sep] + rest;
      if c !in parts[0] && c != sep {
        assert c in rest;
        JoinMembers(parts[1..], sep, c);
        if c != sep {
          var k :| 0 <= k < |parts[1..]| && c in parts[1..][k];
          assert c in parts[k + 1];
        }
      } else if c in parts[0] {
        assert 0 < |parts| && c in parts[0];
      }
    } else {
      assert 0 < |parts| && c in parts[0];
    }
  }
}
