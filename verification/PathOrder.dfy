/** The archive order of `sorted_tree`: the root first, then names by their UTF-8 bytes. */
module PathOrder {
  import opened Paths

  /** Lexicographic order on byte strings, as Python compares `bytes`. */
  predicate LexLess(a: string, b: string) {
    b != "" && (a == "" || a[0] < b[0] || (a[0] == b[0] && LexLess(a[1..], b[1..])))
  }

  /** Order of the sort key `(item != ".", item.encode("utf-8"))`. */
  predicate Before(a: string, b: string) {
    if a == "." then b != "." else b != "." && LexLess(a, b)
  }

  lemma {:induction false} LexIrreflexive(a: string)
    ensures !LexLess(a, a)
  {
    if a != "" {
      LexIrreflexive(a[1..]);
    }
  }

  lemma {:induction false} LexTransitive(a: string, b: string, c: string)
    requires LexLess(a, b) && LexLess(b, c)
    ensures LexLess(a, c)
  {
    if a != "" && a[0] == b[0] && b[0] == c[0] {
      LexTransitive(a[1..], b[1..], c[1..]);
    }
  }

  lemma {:induction false} LexConnected(a: string, b: string)
    ensures a == b || LexLess(a, b) || LexLess(b, a)
  {
    if a != "" && b != "" && a[0] == b[0] {
      LexConnected(a[1..], b[1..]);
      if a[1..] == b[1..] {
        assert a == [a[0]] + a[1..] == b;
      }
    }
  }

  lemma {:induction false} PrefixIsLess(a: string, b: string)
    requires b != ""
    ensures LexLess(a, a + b)
  {
    if a == "" {
      assert a + b == b;
    } else {
      PrefixIsLess(a[1..], b);
      assert (a + b)[1..] == a[1..] + b;
    }
  }

  lemma BeforeTransitive(a: string, b: string, c: string)
    requires Before(a, b) && Before(b, c)
    ensures Before(a, c)
  {
    if a != "." {
      LexTransitive(a, b, c);
    }
  }

  lemma BeforeIrreflexive(a: string)
    ensures !Before(a, a)
  {
    LexIrreflexive(a);
  }

  lemma BeforeConnected(a: string, b: string)
    ensures a == b || Before(a, b) || Before(b, a)
  {
    LexConnected(a, b);
  }

  ghost predicate Ordered(s: seq<string>) {
    forall i, j :: 0 <= i < j < |s| ==> Before(s[i], s[j])
  }

  function Insert(x: string, s: seq<string>): seq<string> {
    if s == [] then [x]
    else if x == s[0] then s
    else if Before(x, s[0]) then [x] + s
    else [s[0]] + Insert(x, s[1..])
  }

  /** The deduplicated, sorted path list of `sorted_tree`. */
  function Sorted(listing: seq<string>): seq<string> {
    if listing == [] then [] else Insert(listing[0], Sorted(listing[1..]))
  }

  lemma {:induction false} InsertKeepsOrder(x: string, s: seq<string>)
    requires Ordered(s)
    ensures Ordered(Insert(x, s))
    ensures forall y :: y in Insert(x, s) <==> y == x || y in s
  {
    if s != [] && x != s[0] {
      BeforeConnected(x, s[0]);
      if Before(x, s[0]) {
        var r := [x] + s;
        forall i, j | 0 <= i < j < |r| ensures Before(r[i], r[j]) {
          if i == 0 && j > 1 {
            BeforeTransitive(x, s[0], s[j - 1]);
          }
        }
      } else {
        InsertKeepsOrder(x, s[1..]);
        var rest := Insert(x, s[1..]);
        forall y | y in rest ensures Before(s[0], y) {
          if y != x {
            var k :| 0 <= k < |s[1..]| && s[1..][k] == y;
            assert s[k + 1] == y;
          }
        }
        assert forall j :: 0 <= j < |rest| ==> rest[j] in rest;
      }
    }
  }

  lemma {:induction false} SortedIsOrdered(listing: seq<string>)
    ensures Ordered(Sorted(listing))
    ensures forall y :: y in Sorted(listing) <==> y in listing
  {
    if listing != [] {
      SortedIsOrdered(listing[1..]);
      InsertKeepsOrder(listing[0], Sorted(listing[1..]));
    }
  }

  /** `a` comes before `b` bytewise: they agree up to `k`, where `a` ends or has the smaller byte. */
  ghost predicate SmallerAt(a: string, b: string, k: int) {
    0 <= k <= |a| && k < |b| && a[..k] == b[..k] && (k == |a| || a[k] < b[k])
  }

  /** The archive order without the comparison function: the root comes before everything, other names bytewise. */
  ghost predicate Precedes(a: string, b: string) {
    b != "." && (a == "." || exists k :: SmallerAt(a, b, k))
  }

  lemma {:induction false} LexLessIff(a: string, b: string)
    ensures LexLess(a, b) <==> exists k :: SmallerAt(a, b, k)
    decreases a
  {
    forall k | 0 < k <= |a| && k <= |b| && a[..k] == b[..k] ensures a[0] == b[0] {
      assert a[0] == a[..k][0] == b[..k][0];
    }
    if b == "" {
    } else if a == "" || a[0] < b[0] {
      assert SmallerAt(a, b, 0);
    } else if a[0] == b[0] {
      LexLessIff(a[1..], b[1..]);
      if k :| SmallerAt(a[1..], b[1..], k) {
        assert a[..k + 1] == [a[0]] + a[1..][..k] && b[..k + 1] == [b[0]] + b[1..][..k];
        assert SmallerAt(a, b, k + 1);
      }
      if k :| SmallerAt(a, b, k) {
        assert a[1..][..k - 1] == a[..k][1..] && b[1..][..k - 1] == b[..k][1..];
        assert SmallerAt(a[1..], b[1..], k - 1);
      }
    }
  }

  lemma BeforeIff(a: string, b: string)
    ensures Before(a, b) <==> Precedes(a, b)
  {
    LexLessIff(a, b);
  }

  /** The sorted list holds the listed names once each, the root first and the others in bytewise order. */
  lemma SortedIsBytewise(listing: seq<string>)
    ensures forall i, j :: 0 <= i < j < |Sorted(listing)| ==> Precedes(Sorted(listing)[i], Sorted(listing)[j])
    ensures forall y :: y in Sorted(listing) <==> y in listing
  {
    hide Sorted, Before, Precedes;
    SortedIsOrdered(listing);
    forall i, j | 0 <= i < j < |Sorted(listing)| ensures Precedes(Sorted(listing)[i], Sorted(listing)[j]) {
      BeforeIff(Sorted(listing)[i], Sorted(listing)[j]);
    }
  }

  /** An ordered list is determined by its elements. */
  lemma {:induction false} OrderedIsUnique(a: seq<string>, b: seq<string>)
    requires Ordered(a) && Ordered(b)
    requires forall y :: y in a <==> y in b
    ensures a == b
  {
    assert b == [] || b[0] in b;
    if a != [] {
      assert a[0] in b;
      assert b != [] && b[0] in a;
      FirstIsLeast(a, b[0]);
      FirstIsLeast(b, a[0]);
      if a[0] != b[0] {
        BeforeTransitive(a[0], b[0], a[0]);
        BeforeIrreflexive(a[0]);
      }
      forall y ensures y in a[1..] <==> y in b[1..] {
        FirstIsAlone(a);
        FirstIsAlone(b);
        assert a == [a[0]] + a[1..] && b == [b[0]] + b[1..];
        assert y in a <==> y == a[0] || y in a[1..];
        assert y in b <==> y == b[0] || y in b[1..];
      }
      OrderedIsUnique(a[1..], b[1..]);
      assert a == [a[0]] + a[1..] && b == [b[0]] + b[1..];
    }
  }

  lemma FirstIsLeast(s: seq<string>, x: string)
    requires Ordered(s) && x in s
    ensures x == s[0] || Before(s[0], x)
  {
  }

  lemma FirstIsAlone(s: seq<string>)
    requires Ordered(s) && s != []
    ensures s[0] !in s[1..]
  {
    if s[0] in s[1..] {
      var k :| 0 <= k < |s[1..]| && s[1..][k] == s[0];
      assert Before(s[0], s[k + 1]);
      BeforeIrreflexive(s[0]);
    }
  }

  // ----- parents -----

  /** The directory that holds a name, printed as the archive prints it. */
  function ParentName(path: string): string {
    AsPosix(Split(path)[..|Split(path)| - 1])
  }

  lemma ParentIsBefore(path: string)
    requires Descending(Split(path))
    ensures Before(ParentName(path), path)
  {
    var cs := Split(path);
    SplitSingle(".");
    JoinSplit(path);
    if |cs| > 1 {
      var front, last := cs[..|cs| - 1], cs[|cs| - 1];
      assert cs == front + [last];
      JoinLast(front, last);
      PrefixIsLess(Join(front), "/" + last);
      assert Join(front) + ("/" + last) == Join(front) + "/" + last;
      if ParentName(path) == "." {
        SplitJoin(front);
        SplitSingle(".");
      }
    }
  }

  lemma {:induction false} JoinLast(front: seq<string>, last: string)
    requires front != []
    ensures Join(front + [last]) == Join(front) + "/" + last
  {
    var cs := front + [last];
    if |front| == 1 {
      assert cs[1..] == [last];
    } else {
      assert cs[1..] == front[1..] + [last];
      JoinLast(front[1..], last);
      assert front[0] + "/" + (Join(front[1..]) + "/" + last) == front[0] + "/" + Join(front[1..]) + "/" + last;
    }
  }
}
