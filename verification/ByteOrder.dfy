/** The order of `std::vector<uint8_t>`, and the ordered containers and sorting built on it. */
module ByteOrder {
  import opened Common

  /** Lexicographic order. */
  predicate Less(a: Bytes, b: Bytes) {
    b != [] && (a == [] || a[0] < b[0] || (a[0] == b[0] && Less(a[1..], b[1..])))
  }

  /** The order read off the first difference: smaller there, or ended. */
  lemma {:induction false} LessIff(a: Bytes, b: Bytes)
    ensures Less(a, b) <==> exists k :: 0 <= k <= |a| && k < |b| && a[..k] == b[..k] && (k == |a| || a[k] < b[k])
  {
    if b == [] {
    } else if a == [] {
      assert a[..0] == b[..0];
    } else if a[0] == b[0] {
      LessIff(a[1..], b[1..]);
      if k :| 0 <= k <= |a[1..]| && k < |b[1..]| && a[1..][..k] == b[1..][..k]
              && (k == |a[1..]| || a[1..][k] < b[1..][k]) {
        assert a[..k + 1] == [a[0]] + a[1..][..k] && b[..k + 1] == [b[0]] + b[1..][..k];
      }
      if k :| 0 <= k <= |a| && k < |b| && a[..k] == b[..k] && (k == |a| || a[k] < b[k]) {
        assert k > 0;
        assert a[1..][..k - 1] == a[..k][1..] && b[1..][..k - 1] == b[..k][1..];
      }
    } else {
      assert a[..0] == b[..0];
      forall k | 0 < k <= |a| && k < |b|
        ensures a[..k] != b[..k]
      {
        assert a[..k][0] != b[..k][0];
      }
    }
  }

  lemma {:induction false} LessIrreflexive(a: Bytes)
    ensures !Less(a, a)
  {
    if a != [] {
      LessIrreflexive(a[1..]);
    }
  }

  lemma {:induction false} LessTransitive(a: Bytes, b: Bytes, c: Bytes)
    requires Less(a, b) && Less(b, c)
    ensures Less(a, c)
  {
    if a != [] && a[0] == b[0] == c[0] {
      LessTransitive(a[1..], b[1..], c[1..]);
    }
  }

  lemma {:induction false} LessTotal(a: Bytes, b: Bytes)
    ensures Less(a, b) || a == b || Less(b, a)
  {
    if a != [] && b != [] && a[0] == b[0] {
      LessTotal(a[1..], b[1..]);
      assert a == [a[0]] + a[1..] && b == [b[0]] + b[1..];
    }
  }

  lemma LessAsymmetric(a: Bytes, b: Bytes)
    requires Less(a, b)
    ensures !Less(b, a)
  {
    if Less(b, a) {
      LessTransitive(a, b, a);
      LessIrreflexive(a);
    }
  }

  lemma LessNotBoth(a: Bytes, b: Bytes)
    ensures !(Less(a, b) && Less(b, a))
  {
    if Less(a, b) {
      LessAsymmetric(a, b);
    }
  }

  lemma HasMember(s: seq<Bytes>)
    ensures s != [] <==> exists x :: x in s
  {
    if s != [] {
      assert s[0] in s;
    }
  }

  // ---------------------------------------------------------------------------
  // Sorting
  // ---------------------------------------------------------------------------

  predicate Sorted(s: seq<Bytes>) { forall i, j :: 0 <= i < j < |s| ==> !Less(s[j], s[i]) }

  function Insert(x: Bytes, s: seq<Bytes>): seq<Bytes> {
    if s == [] || !Less(s[0], x) then [x] + s else [s[0]] + Insert(x, s[1..])
  }

  /** `std::sort`: the ascending rearrangement of a list. */
  function Sort(s: seq<Bytes>): seq<Bytes> { if s == [] then [] else Insert(s[0], Sort(s[1..])) }

  lemma {:induction false} InsertKeeps(x: Bytes, s: seq<Bytes>)
    requires Sorted(s)
    ensures multiset(Insert(x, s)) == multiset{x} + multiset(s)
    ensures Sorted(Insert(x, s))
  {
    if s == [] {
    } else if !Less(s[0], x) {
      forall j | 0 <= j < |s|
        ensures !Less(s[j], x)
      {
        if Less(s[j], x) {
          LessTotal(s[0], s[j]);
          if Less(s[0], s[j]) {
            LessTransitive(s[0], s[j], x);
          }
        }
      }
    } else {
      InsertKeeps(x, s[1..]);
      var t := Insert(x, s[1..]);
      assert s == [s[0]] + s[1..];
      forall j | 0 <= j < |t|
        ensures !Less(t[j], s[0])
      {
        assert t[j] in multiset(t);
        if t[j] == x {
          LessAsymmetric(s[0], x);
        }
      }
    }
  }

  lemma {:induction false} SortKeeps(s: seq<Bytes>)
    ensures multiset(Sort(s)) == multiset(s) && Sorted(Sort(s)) && |Sort(s)| == |s|
  {
    if s != [] {
      SortKeeps(s[1..]);
      InsertKeeps(s[0], Sort(s[1..]));
      assert s == [s[0]] + s[1..];
    }
    assert |multiset(Sort(s))| == |multiset(s)|;
  }

  lemma HeadIsMinimal(s: seq<Bytes>, x: Bytes)
    requires Sorted(s) && x in multiset(s)
    ensures s != [] && (x == s[0] || Less(s[0], x))
  {
    var i :| 0 <= i < |s| && s[i] == x;
    LessTotal(s[0], x);
  }

  lemma TailMultiset(s: seq<Bytes>)
    requires s != []
    ensures multiset(s[1..]) == multiset(s) - multiset{s[0]} && s[0] in multiset(s)
  {
    assert s == [s[0]] + s[1..];
  }

  /** A multiset has one ascending arrangement. */
  lemma {:induction false} SortedUnique(s: seq<Bytes>, t: seq<Bytes>)
    requires Sorted(s) && Sorted(t) && multiset(s) == multiset(t)
    ensures s == t
  {
    hide Less;
    if s == [] || t == [] {
      assert |multiset(s)| == |s| && |multiset(t)| == |t|;
    } else {
      TailMultiset(s);
      TailMultiset(t);
      HeadIsMinimal(s, t[0]);
      HeadIsMinimal(t, s[0]);
      LessNotBoth(s[0], t[0]);
      SortedUnique(s[1..], t[1..]);
      assert s == [s[0]] + s[1..] && t == [t[0]] + t[1..];
    }
  }

  /** Sorting depends on the contents of the list only, and leaves an ascending list alone. */
  lemma SortCanonical(s: seq<Bytes>, t: seq<Bytes>)
    requires multiset(s) == multiset(t)
    ensures Sort(s) == Sort(t)
    ensures Sorted(s) ==> Sort(t) == s
  {
    SortKeeps(s);
    SortKeeps(t);
    SortedUnique(Sort(s), Sort(t));
    if Sorted(s) {
      SortedUnique(s, Sort(t));
    }
  }

  // ---------------------------------------------------------------------------
  // Ordered sets
  // ---------------------------------------------------------------------------

  /** Strictly ascending: the iteration order of `std::set` and `std::map`. */
  predicate Ascending(s: seq<Bytes>) { forall i, j :: 0 <= i < j < |s| ==> Less(s[i], s[j]) }

  predicate IsLeast(x: Bytes, s: set<Bytes>) { x in s && forall y :: y in s && y != x ==> Less(x, y) }

  lemma LeastExists(s: set<Bytes>)
    requires s != {}
    ensures exists x :: IsLeast(x, s)
    decreases |s|
  {
    var x :| x in s;
    var rest := s - {x};
    if rest == {} {
      assert s == {x};
      assert IsLeast(x, s);
    } else {
      LeastExists(rest);
      var m :| IsLeast(m, rest);
      LessTotal(x, m);
      if Less(x, m) {
        forall y | y in s && y != x
          ensures Less(x, y)
        {
          if y != m {
            LessTransitive(x, m, y);
          }
        }
        assert IsLeast(x, s);
      } else {
        assert IsLeast(m, s);
      }
    }
  }

  lemma LeastUnique(x: Bytes, y: Bytes, s: set<Bytes>)
    requires IsLeast(x, s) && IsLeast(y, s)
    ensures x == y
  {
    if x != y {
      LessAsymmetric(x, y);
    }
  }

  lemma LeastIsUnique(s: set<Bytes>)
    ensures forall x, y :: IsLeast(x, s) && IsLeast(y, s) ==> x == y
  {
    forall x, y | IsLeast(x, s) && IsLeast(y, s)
      ensures x == y
    {
      LeastUnique(x, y, s);
    }
  }

  function Least(s: set<Bytes>): (x: Bytes)
    requires s != {}
    ensures IsLeast(x, s)
  {
    LeastExists(s);
    LeastIsUnique(s);
    var x :| IsLeast(x, s);
    x
  }

  /** The elements of a set in ascending order. */
  function Enumerate(s: set<Bytes>): (r: seq<Bytes>)
    ensures |r| == |s| && forall x :: x in r <==> x in s
    decreases |s|
  {
    if s == {} then [] else [Least(s)] + Enumerate(s - {Least(s)})
  }

  lemma {:induction false} EnumerateAscending(s: set<Bytes>)
    ensures Ascending(Enumerate(s))
    decreases |s|
  {
    hide Less;
    if s != {} {
      EnumerateAscending(s - {Least(s)});
      var tail := Enumerate(s - {Least(s)});
      forall j | 0 <= j < |tail|
        ensures Less(Least(s), tail[j])
      {
        assert tail[j] in tail;
      }
    }
  }

  lemma AscendingIsSorted(s: seq<Bytes>)
    requires Ascending(s)
    ensures Sorted(s)
    ensures forall i, j :: 0 <= i < j < |s| ==> s[i] != s[j]
  {
    hide Less;
    forall i, j | 0 <= i < j < |s|
      ensures !Less(s[j], s[i]) && s[i] != s[j]
    {
      LessAsymmetric(s[i], s[j]);
      LessIrreflexive(s[i]);
    }
  }

  /** A set has one strictly ascending enumeration. */
  lemma {:induction false} AscendingUnique(s: seq<Bytes>, t: seq<Bytes>)
    requires Ascending(s) && Ascending(t) && (forall x :: x in s <==> x in t)
    ensures s == t
  {
    hide Less;
    if s == [] || t == [] {
      HasMember(s);
      HasMember(t);
    } else {
      AscendingIsSorted(s);
      AscendingIsSorted(t);
      assert s[0] in t && t[0] in s;
      HeadIsMinimal(s, t[0]);
      HeadIsMinimal(t, s[0]);
      LessNotBoth(s[0], t[0]);
      forall x
        ensures x in s[1..] <==> x in t[1..]
      {
        TailMembers(s, x);
        TailMembers(t, x);
      }
      AscendingUnique(s[1..], t[1..]);
      assert s == [s[0]] + s[1..] && t == [t[0]] + t[1..];
    }
  }

  lemma TailMembers(s: seq<Bytes>, x: Bytes)
    requires s != [] && Ascending(s)
    ensures x in s[1..] <==> x in s && x != s[0]
  {
    hide Less;
    AscendingIsSorted(s);
    if x in s && x != s[0] {
      var i :| 0 <= i < |s| && s[i] == x;
      assert s[1..][i - 1] == x;
    }
  }

  /** A new greatest element goes to the end of the enumeration. */
  lemma EnumerateLast(s: set<Bytes>, x: Bytes)
    requires forall y :: y in s ==> Less(y, x)
    ensures Enumerate(s + {x}) == Enumerate(s) + [x]
  {
    hide Less;
    EnumerateAscending(s);
    EnumerateAscending(s + {x});
    var r := Enumerate(s) + [x];
    forall i, j | 0 <= i < j < |r|
      ensures Less(r[i], r[j])
    {
      if j == |r| - 1 {
        assert r[i] in Enumerate(s);
      }
    }
    AscendingUnique(Enumerate(s + {x}), r);
  }
}
