/** Python's ordering of `str` values and `sorted` on a list of them, as used to
    list the candidates of an ambiguous command name. */
module StrOrder {

  /** `a < b` on Python strings: code points compared left to right, and a proper
      prefix sorts before the longer string. */
  predicate Less(a: string, b: string)
  {
    if a == [] then b != []
    else if b == [] then false
    else if a[0] != b[0] then a[0] < b[0]
    else Less(a[1..], b[1..])
  }

  lemma {:induction false} LessIrreflexive(a: string)
    ensures !Less(a, a)
  {
    if a != [] {
      LessIrreflexive(a[1..]);
    }
  }

  lemma {:induction false} LessAsymmetric(a: string, b: string)
    requires Less(a, b)
    ensures !Less(b, a)
  {
    if a != [] && b != [] && a[0] == b[0] {
      LessAsymmetric(a[1..], b[1..]);
    }
  }

  lemma {:induction false} LessTransitive(a: string, b: string, c: string)
    requires Less(a, b) && Less(b, c)
    ensures Less(a, c)
  {
    if a != [] && a[0] == b[0] && b[0] == c[0] {
      LessTransitive(a[1..], b[1..], c[1..]);
    }
  }

  /** Any two distinct strings are ordered one way or the other. */
  lemma {:induction false} LessTotal(a: string, b: string)
    ensures a == b || Less(a, b) || Less(b, a)
  {
    if a != [] && b != [] && a[0] == b[0] {
      LessTotal(a[1..], b[1..]);
      if a[1..] == b[1..] {
        assert a == [a[0]] + a[1..] && b == [b[0]] + b[1..];
      }
    }
  }

  /** Non-decreasing in Python's order. */
  predicate Sorted(s: seq<string>)
  {
    forall i, j :: 0 <= i < j < |s| ==> !Less(s[j], s[i])
  }

  /** Inserts `x` before the first element that is not smaller than it. */
  function Insert(x: string, s: seq<string>): (r: seq<string>)
  {
    if s == [] then [x]
    else if Less(s[0], x) then [s[0]] + Insert(x, s[1..])
    else [x] + s
  }

  /** `sorted(s)`, by insertion. */
  function Sort(s: seq<string>): (r: seq<string>)
  {
    if s == [] then [] else Insert(s[0], Sort(s[1..]))
  }

  lemma {:induction false} InsertPermutes(x: string, s: seq<string>)
    ensures multiset(Insert(x, s)) == multiset(s) + multiset{x}
  {
    if s != [] && Less(s[0], x) {
      InsertPermutes(x, s[1..]);
      assert s == [s[0]] + s[1..];
    }
  }

  lemma {:induction false} InsertSorted(x: string, s: seq<string>)
    requires Sorted(s)
    ensures Sorted(Insert(x, s))
  {
    if s == [] {
    } else if Less(s[0], x) {
      var rest := Insert(x, s[1..]);
      InsertSorted(x, s[1..]);
      InsertPermutes(x, s[1..]);
      LessAsymmetric(s[0], x);
      forall k | 0 <= k < |rest|
        ensures !Less(rest[k], s[0])
      {
        assert rest[k] in multiset(rest);
        if rest[k] != x {
          assert rest[k] in s[1..];
        }
      }
    } else {
      LessTotal(x, s[0]);
      forall j | 0 < j < |s|
        ensures !Less(s[j], x)
      {
        if Less(s[j], x) {
          LessTransitive(s[j], x, s[0]);
        }
      }
    }
  }

  lemma {:induction false} SortPermutes(s: seq<string>)
    ensures multiset(Sort(s)) == multiset(s)
  {
    if s != [] {
      SortPermutes(s[1..]);
      InsertPermutes(s[0], Sort(s[1..]));
      assert s == [s[0]] + s[1..];
    }
  }

  lemma {:induction false} SortSorted(s: seq<string>)
    ensures Sorted(Sort(s))
  {
    if s != [] {
      SortSorted(s[1..]);
      InsertSorted(s[0], Sort(s[1..]));
    }
  }

  /** A sorted list is determined by its elements: two sorted permutations of
      each other are equal. */
  lemma {:induction false} SortedUnique(a: seq<string>, b: seq<string>)
    requires Sorted(a) && Sorted(b) && multiset(a) == multiset(b)
    ensures a == b
  {
    assert |a| == |multiset(a)| == |b|;
    if a != [] {
      SortedHeadsAgree(a, b);
      assert a == [a[0]] + a[1..] && b == [b[0]] + b[1..];
      assert multiset(a[1..]) == multiset(a) - multiset{a[0]};
      assert multiset(b[1..]) == multiset(b) - multiset{b[0]};
      SortedUnique(a[1..], b[1..]);
    }
  }

  /** The first element of a sorted list is a least element, so two sorted
      permutations of each other start alike. */
  lemma SortedHeadsAgree(a: seq<string>, b: seq<string>)
    requires Sorted(a) && Sorted(b) && multiset(a) == multiset(b)
    requires a != [] && b != []
    ensures a[0] == b[0]
  {
    assert a[0] in multiset(b) && b[0] in multiset(a);
    var k :| 0 <= k < |b| && b[k] == a[0];
    var l :| 0 <= l < |a| && a[l] == b[0];
    LessIrreflexive(a[0]);
    LessIrreflexive(b[0]);
    assert !Less(b[k], b[0]) && !Less(a[l], a[0]);
    LessTotal(a[0], b[0]);
  }

  /** `sep.join(parts)`. */
  function Join(parts: seq<string>, sep: string): (r: string)
  {
    if parts == [] then ""
    else if |parts| == 1 then parts[0]
    else parts[0] + sep + Join(parts[1..], sep)
  }

  /** Where `parts[k]` starts in `sep.join(parts)`: after every earlier part,
      each followed by one separator. */
  function Offset(parts: seq<string>, sep: string, k: nat): (o: nat)
    requires k <= |parts|
  {
    if k == 0 then 0 else |parts[0]| + |sep| + Offset(parts[1..], sep, k - 1)
  }

  /** The layout of `sep.join(parts)`: the `k`-th part sits at `Offset(k)`, a
      separator follows every part but the last, and the string ends with the
      last part. Together these determine the joined string. */
  lemma JoinAt(parts: seq<string>, sep: string, k: nat)
    requires k < |parts|
    ensures Offset(parts, sep, k) + |parts[k]| <= |Join(parts, sep)|
    ensures Join(parts, sep)[Offset(parts, sep, k)..Offset(parts, sep, k) + |parts[k]|] == parts[k]
    ensures k + 1 < |parts| ==>
      && Offset(parts, sep, k) + |parts[k]| + |sep| <= |Join(parts, sep)|
      && Join(parts, sep)[Offset(parts, sep, k) + |parts[k]|..Offset(parts, sep, k) + |parts[k]| + |sep|] == sep
    ensures k + 1 == |parts| ==> |Join(parts, sep)| == Offset(parts, sep, k) + |parts[k]|
  {
    JoinSuffix(parts, sep, k);
    var j := Join(parts, sep)[Offset(parts, sep, k)..];
    assert j[..|parts[k]|] == parts[k];
    if k + 1 < |parts| {
      assert j[|parts[k]|..|parts[k]| + |sep|] == sep;
    }
  }

  /** From the start of its `k`-th part on, `sep.join(parts)` is the join of the
      parts from `k` on. */
  lemma {:induction false} JoinSuffix(parts: seq<string>, sep: string, k: nat)
    requires k < |parts|
    ensures Offset(parts, sep, k) <= |Join(parts, sep)|
    ensures Join(parts, sep)[Offset(parts, sep, k)..] == Join(parts[k..], sep)
  {
    if k > 0 {
      JoinSuffix(parts[1..], sep, k - 1);
      assert parts[1..][k - 1..] == parts[k..];
      var tail := Join(parts[1..], sep);
      var d := |parts[0]| + |sep|;
      assert Join(parts, sep) == parts[0] + sep + tail;
      assert Join(parts, sep)[d..] == tail;
      assert Join(parts, sep)[d + Offset(parts[1..], sep, k - 1)..] == tail[Offset(parts[1..], sep, k - 1)..];
    } else {
      assert parts[0..] == parts;
    }
  }
}
