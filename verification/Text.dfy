/** Go strings as sequences of characters: the ordering that `slices.Sort` uses,
    and the two `strings` operations the operator renders and parses lists with.
    UTF-8 keeps code-point order, so comparing characters agrees with Go's byte order. */
module Text {

  /** Lexicographic "less than or equal". */
  predicate Leq(a: string, b: string) {
    if a == "" then true
    else if b == "" then false
    else a[0] < b[0] || (a[0] == b[0] && Leq(a[1..], b[1..]))
  }

  /** Up to position `i` the strings agree, and there the first one ends or has the smaller character. */
  predicate DecidedAt(a: string, b: string, i: nat) {
    i <= |a| && i <= |b| && a[..i] == b[..i] && (i == |a| || (i < |b| && a[i] < b[i]))
  }

  /** Dictionary order: a prefix comes first, otherwise the first difference decides. */
  lemma {:induction false} LeqMeaning(a: string, b: string)
    ensures Leq(a, b) <==> exists i: nat :: DecidedAt(a, b, i)
  {
    if a == "" {
      assert DecidedAt(a, b, 0);
    } else if b == "" || a[0] != b[0] {
      if Leq(a, b) {
        assert DecidedAt(a, b, 0);
      } else {
        forall i: nat ensures !DecidedAt(a, b, i) {
          if i > 0 && i <= |a| && i <= |b| {
            assert a[..i][0] == a[0] && b[..i][0] == b[0];
          }
        }
      }
    } else {
      LeqMeaning(a[1..], b[1..]);
      forall i: nat ensures DecidedAt(a, b, i + 1) <==> DecidedAt(a[1..], b[1..], i) {
        if i < |a| && i < |b| {
          assert a[..i + 1] == [a[0]] + a[1..][..i] && b[..i + 1] == [b[0]] + b[1..][..i];
          assert a[..i + 1][1..] == a[1..][..i] && b[..i + 1][1..] == b[1..][..i];
        }
      }
      if exists i: nat :: DecidedAt(a, b, i) {
        var i: nat :| DecidedAt(a, b, i);
        assert i > 0 && DecidedAt(a[1..], b[1..], i - 1);
      }
      if Leq(a[1..], b[1..]) {
        var i: nat :| DecidedAt(a[1..], b[1..], i);
        assert DecidedAt(a, b, i + 1);
      }
    }
  }

  lemma {:induction false} LeqTotal(a: string, b: string)
    ensures Leq(a, b) || Leq(b, a)
  {
    if a != "" && b != "" && a[0] == b[0] {
      LeqTotal(a[1..], b[1..]);
    }
  }

  lemma {:induction false} LeqAntisymmetric(a: string, b: string)
    requires Leq(a, b) && Leq(b, a)
    ensures a == b
  {
    if a != "" {
      LeqAntisymmetric(a[1..], b[1..]);
      assert a == [a[0]] + a[1..] && b == [b[0]] + b[1..];
    }
  }

  lemma {:induction false} LeqTransitive(a: string, b: string, c: string)
    requires Leq(a, b) && Leq(b, c)
    ensures Leq(a, c)
  {
    if a != "" && a[0] == b[0] == c[0] {
      LeqTransitive(a[1..], b[1..], c[1..]);
    }
  }

  /** `strings.Split` on a one-character separator: never empty, `Split("", c) == [""]`. */
  function Split(s: string, c: char): (pieces: seq<string>)
    ensures |pieces| >= 1
  {
    if s == "" then [""]
    else
      var rest := Split(s[1..], c);
      if s[0] == c then [""] + rest else [[s[0]] + rest[0]] + rest[1..]
  }

  /** `strings.Join` on a one-character separator. */
  function Join(xs: seq<string>, c: char): string {
    if xs == [] then ""
    else if |xs| == 1 then xs[0]
    else xs[0] + [c] + Join(xs[1..], c)
  }

  ghost predicate AllFree(xs: seq<string>, c: char) {
    forall x <- xs :: c !in x
  }

  lemma {:induction false} SplitPiecesFree(s: string, c: char)
    ensures AllFree(Split(s, c), c)
  {
    if s != "" {
      SplitPiecesFree(s[1..], c);
      var rest := Split(s[1..], c);
      assert rest[0] in rest;
      forall x | x in Split(s, c) ensures c !in x {
        if s[0] != c && x !in rest[1..] {
          assert x == [s[0]] + rest[0];
        }
      }
    }
  }

  lemma {:induction false} SplitFree(a: string, c: char)
    requires c !in a
    ensures Split(a, c) == [a]
  {
    if a != "" {
      SplitFree(a[1..], c);
      assert [a[0]] + a[1..] == a;
    }
  }

  /** A separator-free head is exactly the first piece. */
  lemma {:induction false} SplitHead(a: string, s: string, c: char)
    requires c !in a
    ensures Split(a + [c] + s, c) == [a] + Split(s, c)
  {
    var whole := a + [c] + s;
    if a == "" {
      assert whole[1..] == s;
    } else {
      SplitHead(a[1..], s, c);
      assert whole[1..] == a[1..] + [c] + s;
      assert [a[0]] + a[1..] == a;
    }
  }

  lemma {:induction false} SplitOfJoin(xs: seq<string>, c: char)
    requires xs != [] && AllFree(xs, c)
    ensures Split(Join(xs, c), c) == xs
  {
    if |xs| == 1 {
      SplitFree(xs[0], c);
    } else {
      SplitOfJoin(xs[1..], c);
      SplitHead(xs[0], Join(xs[1..], c), c);
    }
  }

  /** Splitting a joined list gives the list back exactly when the list is non-empty
      and no element contains the separator. */
  lemma SplitJoinRoundTrip(xs: seq<string>, c: char)
    ensures Split(Join(xs, c), c) == xs <==> xs != [] && AllFree(xs, c)
  {
    if xs != [] && AllFree(xs, c) {
      SplitOfJoin(xs, c);
    } else if xs != [] {
      SplitPiecesFree(Join(xs, c), c);
    }
  }

  lemma JoinExtend(x: char, xs: seq<string>, c: char)
    requires xs != []
    ensures Join([[x] + xs[0]] + xs[1..], c) == [x] + Join(xs, c)
    ensures Join([""] + xs, c) == [c] + Join(xs, c)
  {
    var grown, longer := [[x] + xs[0]] + xs[1..], [""] + xs;
    assert grown[1..] == xs[1..] && longer[1..] == xs;
    assert Join(longer, c) == "" + [c] + Join(xs, c);
    if |xs| > 1 {
      assert Join(xs, c) == xs[0] + [c] + Join(xs[1..], c);
      assert Join(grown, c) == ([x] + xs[0]) + [c] + Join(xs[1..], c);
      assert ([x] + xs[0]) + [c] + Join(xs[1..], c) == [x] + (xs[0] + [c] + Join(xs[1..], c));
    }
  }

  /** The other direction of the round trip holds for every string. */
  lemma {:induction false} JoinSplitRoundTrip(s: string, c: char)
    ensures Join(Split(s, c), c) == s
  {
    if s != "" {
      JoinSplitRoundTrip(s[1..], c);
      JoinExtend(s[0], Split(s[1..], c), c);
      assert s == [s[0]] + s[1..];
    }
  }
}
