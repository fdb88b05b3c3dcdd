/** File names and the order in which the original sorts them. */
module Names {

  type Name = string

  /** Strict lexicographic order, the default order of Array.prototype.sort on strings. */
  predicate Less(a: Name, b: Name) {
    b != "" && (a == "" || a[0] < b[0] || (a[0] == b[0] && Less(a[1..], b[1..])))
  }

  /** A proper prefix comes first; otherwise the first differing character decides. */
  ghost predicate DiffersFirst(a: Name, b: Name, k: nat) {
    k < |a| && k < |b| && a[..k] == b[..k] && a[k] < b[k]
  }

  lemma {:induction false} LessMeans(a: Name, b: Name)
    ensures Less(a, b) <==> (|a| < |b| && a == b[..|a|]) || exists k: nat :: DiffersFirst(a, b, k)
  {
    if a != "" && b != "" && a[0] == b[0] {
      LessMeans(a[1..], b[1..]);
      assert a == [a[0]] + a[1..] && b == [b[0]] + b[1..];
      assert |a| < |b| ==> b[..|a|] == [b[0]] + b[1..][..|a| - 1];
      forall k: nat | DiffersFirst(a[1..], b[1..], k) ensures DiffersFirst(a, b, k + 1) {
        assert a[..k + 1] == [a[0]] + a[1..][..k] && b[..k + 1] == [b[0]] + b[1..][..k];
      }
      forall k: nat | DiffersFirst(a, b, k) ensures k > 0 && DiffersFirst(a[1..], b[1..], k - 1) {
        assert a[1..][..k - 1] == a[..k][1..] && b[1..][..k - 1] == b[..k][1..];
      }
    } else if a != "" && b != "" && a[0] < b[0] {
      assert DiffersFirst(a, b, 0);
    }
  }

  predicate AtMost(a: Name, b: Name) {
    a == b || Less(a, b)
  }

  lemma {:induction false} LessIsTotal(a: Name, b: Name)
    ensures a == b || Less(a, b) || Less(b, a)
  {
    if a != "" && b != "" && a[0] == b[0] {
      LessIsTotal(a[1..], b[1..]);
      assert a == [a[0]] + a[1..] && b == [b[0]] + b[1..];
    }
  }

  lemma {:induction false} LessIsAsymmetric(a: Name, b: Name)
    requires Less(a, b)
    ensures a != b && !Less(b, a)
  {
    if a != "" && a[0] == b[0] {
      LessIsAsymmetric(a[1..], b[1..]);
    }
  }

  lemma LessIsIrreflexive(a: Name)
    ensures !Less(a, a)
  {
    if Less(a, a) { LessIsAsymmetric(a, a); }
  }

  lemma {:induction false} LessIsTransitive(a: Name, b: Name, c: Name)
    requires Less(a, b) && Less(b, c)
    ensures Less(a, c)
  {
    if a != "" && a[0] == b[0] && b[0] == c[0] {
      LessIsTransitive(a[1..], b[1..], c[1..]);
    }
  }

  ghost predicate Distinct<T>(s: seq<T>) {
    forall i, j :: 0 <= i < j < |s| ==> s[i] != s[j]
  }

  ghost predicate Sorted(q: seq<Name>) {
    forall i, j :: 0 <= i < j < |q| ==> AtMost(q[i], q[j])
  }

  function Insert(x: Name, q: seq<Name>): seq<Name> {
    if q == [] then [x]
    else if Less(q[0], x) then [q[0]] + Insert(x, q[1..])
    else [x] + q
  }

  lemma {:induction false} InsertKeepsAll(x: Name, q: seq<Name>)
    ensures multiset(Insert(x, q)) == multiset(q) + multiset{x}
  {
    if q != [] {
      assert q == [q[0]] + q[1..];
      InsertKeepsAll(x, q[1..]);
    }
  }

  ghost predicate BelowAll(x: Name, q: seq<Name>) {
    forall y :: y in q ==> AtMost(x, y)
  }

  lemma SortedCons(x: Name, q: seq<Name>)
    requires Sorted(q) && BelowAll(x, q)
    ensures Sorted([x] + q)
  {
  }

  lemma {:induction false} InsertSorts(x: Name, q: seq<Name>)
    requires Sorted(q)
    ensures Sorted(Insert(x, q))
  {
    if q != [] {
      if Less(q[0], x) {
        InsertSorts(x, q[1..]);
        InsertKeepsAll(x, q[1..]);
        forall y | y in Insert(x, q[1..]) ensures AtMost(q[0], y) {
          assert y in multiset(Insert(x, q[1..]));
          assert y in multiset(q[1..]) || y == x;
        }
        SortedCons(q[0], Insert(x, q[1..]));
      } else {
        LessIsTotal(q[0], x);
        forall y | y in q ensures AtMost(x, y) {
          if x != q[0] && q[0] != y { LessIsTransitive(x, q[0], y); }
        }
        SortedCons(x, q);
      }
    }
  }

  /** What `sort()` leaves in an array of names: the same names, in ascending order. */
  function Sort(q: seq<Name>): (r: seq<Name>)
    ensures multiset(r) == multiset(q)
    ensures Sorted(r)
  {
    if q == [] then [] else
      assert q == [q[0]] + q[1..];
      InsertKeepsAll(q[0], Sort(q[1..]));
      InsertSorts(q[0], Sort(q[1..]));
      Insert(q[0], Sort(q[1..]))
  }

  lemma MembersFromMultiset<T>(s: seq<T>, t: seq<T>)
    requires multiset(s) == multiset(t)
    ensures |s| == |t|
    ensures forall x :: x in s <==> x in t
  {
    assert |multiset(s)| == |s| && |multiset(t)| == |t|;
    forall x ensures x in s <==> x in t {
      assert x in s <==> x in multiset(s);
      assert x in t <==> x in multiset(t);
    }
  }

  ghost function Members<T>(s: seq<T>): set<T> {
    set x | x in s
  }

  lemma {:induction false} MembersSize<T>(s: seq<T>)
    ensures |Members(s)| <= |s|
    ensures |Members(s)| == |s| <==> Distinct(s)
  {
    if s != [] {
      var last := |s| - 1;
      var init := s[..last];
      MembersSize(init);
      assert s == init + [s[last]];
      assert Members(s) == Members(init) + {s[last]};
      if s[last] in init {
        assert Members(s) == Members(init);
      }
    }
  }

  /** A list without repetition is fixed up to order by its members. */
  lemma {:induction false} DistinctMultiset<T>(s: seq<T>, t: seq<T>)
    requires Distinct(s) && Distinct(t)
    requires forall x :: x in s <==> x in t
    ensures multiset(s) == multiset(t)
  {
    forall x ensures multiset(s)[x] == multiset(t)[x] {
      DistinctCount(s, x);
      DistinctCount(t, x);
    }
  }

  lemma {:induction false} DistinctCount<T>(s: seq<T>, x: T)
    requires Distinct(s)
    ensures multiset(s)[x] == if x in s then 1 else 0
  {
    if s != [] {
      var init := s[..|s| - 1];
      assert s == init + [s[|s| - 1]];
      DistinctCount(init, x);
    }
  }

  lemma {:induction false} CountDistinct<T>(s: seq<T>)
    requires forall x :: multiset(s)[x] <= 1
    ensures Distinct(s)
  {
    forall i, j | 0 <= i < j < |s| ensures s[i] != s[j] {
      assert s == s[..j] + s[j..];
      assert s[j..][0] == s[j] && s[..j][i] == s[i];
      assert multiset(s)[s[j]] == multiset(s[..j])[s[j]] + multiset(s[j..])[s[j]];
      assert s[j] in multiset(s[j..]);
      assert s[j] !in multiset(s[..j]);
    }
  }

  lemma SortKeepsList(q: seq<Name>)
    requires Distinct(q)
    ensures Distinct(Sort(q))
    ensures forall x :: x in Sort(q) <==> x in q
    ensures |Sort(q)| == |q|
  {
    forall x ensures multiset(Sort(q))[x] <= 1 {
      DistinctCount(q, x);
    }
    CountDistinct(Sort(q));
    MembersFromMultiset(q, Sort(q));
  }
}
