/** The link records the list shows, and the optimistic removal the delete
    handler applies to them before it reloads. */
module Links {
  import opened Outcomes

  /** One row of the list, with the server's wire names mapped to Dafny ones.
      `shortCode` is optional: the server's table has no short-code column, so
      a fetched record may arrive without one. */
  datatype Link = Link(id: int, originalUrl: string, shortUrl: string, shortCode: Option<string>)

  /** The record is the one the delete key names: its code is present and
      strictly equal to `code`. A record without a code never matches. */
  predicate HasCode(l: Link, code: string)
  {
    l.shortCode == Some(code)
  }

  /** The optimistic filter: every record whose short code is `code` is
      dropped, every other record is kept. */
  function Without(links: seq<Link>, code: string): (r: seq<Link>)
    ensures |r| <= |links|
    ensures forall l :: l in r <==> l in links && !HasCode(l, code)
  {
    if links == [] then []
    else if HasCode(links[0], code) then Without(links[1..], code)
    else [links[0]] + Without(links[1..], code)
  }

  /** Each record that does not carry the code is kept exactly as many times
      as it occurs; a record that carries it is not kept at all. */
  lemma {:induction false} WithoutCounts(links: seq<Link>, code: string)
    ensures forall l :: multiset(Without(links, code))[l] == if HasCode(l, code) then 0 else multiset(links)[l]
    decreases |links|
  {
    if links != [] {
      assert links == [links[0]] + links[1..];
      WithoutCounts(links[1..], code);
    }
  }

  /** `xs` can be obtained from `ys` by deleting elements, without reordering. */
  ghost predicate IsSubsequence<T>(xs: seq<T>, ys: seq<T>)
    decreases |ys|
  {
    || xs == []
    || (ys != [] && ((xs[0] == ys[0] && IsSubsequence(xs[1..], ys[1..])) || IsSubsequence(xs, ys[1..])))
  }

  /** A subsequence holds no element more often than the sequence it comes from. */
  lemma {:induction false} SubsequenceMultiset<T>(xs: seq<T>, ys: seq<T>)
    requires IsSubsequence(xs, ys)
    ensures multiset(xs) <= multiset(ys)
    decreases |ys|
  {
    if xs == [] {
    } else {
      assert ys == [ys[0]] + ys[1..];
      if xs[0] == ys[0] && IsSubsequence(xs[1..], ys[1..]) {
        SubsequenceMultiset(xs[1..], ys[1..]);
        assert xs == [xs[0]] + xs[1..];
      } else {
        SubsequenceMultiset(xs, ys[1..]);
      }
    }
  }

  /** The records the filter keeps stay in their original relative order. */
  lemma {:induction false} WithoutKeepsOrder(links: seq<Link>, code: string)
    ensures IsSubsequence(Without(links, code), links)
    decreases |links|
  {
    if links != [] {
      WithoutKeepsOrder(links[1..], code);
      var rest := Without(links[1..], code);
      if !HasCode(links[0], code) {
        assert Without(links, code) == [links[0]] + rest;
        assert ([links[0]] + rest)[1..] == rest;
      }
    }
  }

  /** The filter is the only way to drop exactly the records with `code`
      while keeping order: any subsequence of `links` that holds no record
      with the code and every other record as often as `links` does is the
      filter's result. */
  lemma {:induction false} WithoutIsUnique(links: seq<Link>, code: string, r: seq<Link>)
    requires IsSubsequence(r, links)
    requires forall l :: multiset(r)[l] == if HasCode(l, code) then 0 else multiset(links)[l]
    ensures r == Without(links, code)
    decreases |links|
  {
    if links == [] {
      assert r == [];
    } else {
      var x, t := links[0], links[1..];
      assert links == [x] + t;
      if HasCode(x, code) {
        assert r == [] || r[0] != x by {
          if r != [] {
            assert r[0] in multiset(r);
          }
        }
        assert IsSubsequence(r, t);
        forall l ensures multiset(r)[l] == if HasCode(l, code) then 0 else multiset(t)[l] {
          if !HasCode(l, code) {
            assert l != x;
          }
        }
        WithoutIsUnique(t, code, r);
      } else {
        if IsSubsequence(r, t) {
          SubsequenceMultiset(r, t);
        }
        assert !IsSubsequence(r, t) by {
          assert multiset(r)[x] == multiset(t)[x] + 1;
        }
        assert r[0] == x && IsSubsequence(r[1..], t);
        assert r == [x] + r[1..];
        forall l ensures multiset(r[1..])[l] == if HasCode(l, code) then 0 else multiset(t)[l] {
          assert multiset(r)[l] == multiset(r[1..])[l] + (if l == x then 1 else 0);
        }
        WithoutIsUnique(t, code, r[1..]);
      }
    }
  }

  /** The filter works record by record: filtering a concatenation is
      concatenating the filtered parts. */
  lemma {:induction false} WithoutAppend(a: seq<Link>, b: seq<Link>, code: string)
    ensures Without(a + b, code) == Without(a, code) + Without(b, code)
    decreases |a|
  {
    if a == [] {
      assert a + b == b;
    } else {
      var ab := a + b;
      assert ab[1..] == a[1..] + b;
      assert ab[0] == a[0];
      WithoutAppend(a[1..], b, code);
      var tail := Without(a[1..], code) + Without(b, code);
      if HasCode(a[0], code) {
        assert Without(ab, code) == Without(ab[1..], code);
        assert Without(a, code) == Without(a[1..], code);
      } else {
        assert Without(ab, code) == [a[0]] + Without(ab[1..], code);
        assert Without(a, code) == [a[0]] + Without(a[1..], code);
        assert [a[0]] + tail == ([a[0]] + Without(a[1..], code)) + Without(b, code);
      }
    }
  }

  /** The list gets shorter exactly when some record carried the code. */
  lemma {:induction false} WithoutShrinks(links: seq<Link>, code: string)
    ensures |Without(links, code)| < |links| <==> exists i :: 0 <= i < |links| && HasCode(links[i], code)
    decreases |links|
  {
    if links != [] {
      WithoutShrinks(links[1..], code);
      if exists i :: 0 <= i < |links[1..]| && HasCode(links[1..][i], code) {
        var i :| 0 <= i < |links[1..]| && HasCode(links[1..][i], code);
        assert HasCode(links[i + 1], code);
      }
      if exists i :: 0 <= i < |links| && HasCode(links[i], code) {
        var i :| 0 <= i < |links| && HasCode(links[i], code);
        if i > 0 {
          assert HasCode(links[1..][i - 1], code);
        }
      }
    }
  }

  /** Filtering twice by the same code is filtering once. */
  lemma {:induction false} WithoutIdempotent(links: seq<Link>, code: string)
    ensures Without(Without(links, code), code) == Without(links, code)
    decreases |links|
  {
    if links != [] {
      WithoutIdempotent(links[1..], code);
      var rest := Without(links[1..], code);
      if !HasCode(links[0], code) {
        assert Without(links, code) == [links[0]] + rest;
        assert ([links[0]] + rest)[1..] == rest;
      }
    }
  }

  /** Every record has an id no other record has. */
  predicate UniqueIds(links: seq<Link>)
  {
    forall i, j :: 0 <= i < j < |links| ==> links[i].id != links[j].id
  }

  /** Removing records never makes two of the remaining ones share an id. */
  lemma {:induction false} WithoutKeepsUniqueIds(links: seq<Link>, code: string)
    requires UniqueIds(links)
    ensures UniqueIds(Without(links, code))
    decreases |links|
  {
    if links != [] {
      var rest := Without(links[1..], code);
      assert UniqueIds(links[1..]) by {
        forall i, j | 0 <= i < j < |links[1..]| ensures links[1..][i].id != links[1..][j].id {
          assert links[1..][i] == links[i + 1] && links[1..][j] == links[j + 1];
        }
      }
      WithoutKeepsUniqueIds(links[1..], code);
      if !HasCode(links[0], code) {
        var r := [links[0]] + rest;
        forall i, j | 0 <= i < j < |r| ensures r[i].id != r[j].id {
          if i == 0 {
            assert r[j] in rest;
            assert r[j] in links[1..];
            var k :| 0 <= k < |links[1..]| && links[1..][k] == r[j];
            assert links[k + 1] == r[j];
          } else {
            assert r[i] == rest[i - 1] && r[j] == rest[j - 1];
          }
        }
      }
    }
  }
}
