/** The final ordering of the merged records (soln.py, `main`): a stable
    sort keyed by the zip string, with a missing zip read as "99999". */
module Ordering {
  import opened Wrappers
  import opened Records

  /** The key used for a record without a `zip` key. */
  const MissingZip := "99999"

  /** `x.get('zip', '99999')`: the zip when the record has one, "99999"
      otherwise. */
  function SortKey(a: Address): (k: string)
    ensures a.zip.Some? ==> k == a.zip.value
    ensures a.zip.None? ==> k == MissingZip
  {
    a.zip.GetOr(MissingZip)
  }

  /** Python's `<=` on strings: code point by code point, and a proper
      prefix comes first. */
  predicate LexLe(a: string, b: string)
    ensures LexLe(a, b) && |a| > 0 ==> |b| > 0 && a[0] <= b[0]
    decreases |a|
  {
    |a| == 0 || (|b| > 0 && (a[0] < b[0] || (a[0] == b[0] && LexLe(a[1..], b[1..]))))
  }

  /** The recursive order is the textbook lexicographic order: `a` is a
      prefix of `b`, or at the first position where they differ `a` has the
      smaller character. */
  lemma {:induction false} LexLeIsLexicographic(a: string, b: string)
    ensures LexLe(a, b) <==>
              (|a| <= |b| && a == b[..|a|])
              || exists k :: 0 <= k < |a| && k < |b| && a[..k] == b[..k] && a[k] < b[k]
    decreases |a|
  {
    if |a| > 0 && |b| > 0 {
      LexLeIsLexicographic(a[1..], b[1..]);
      if a[0] == b[0] {
        if |a| <= |b| {
          assert a == [a[0]] + a[1..] && b[..|a|] == [b[0]] + b[1..][..|a| - 1];
        }
        if exists k :: 0 <= k < |a| && k < |b| && a[..k] == b[..k] && a[k] < b[k] {
          var k :| 0 <= k < |a| && k < |b| && a[..k] == b[..k] && a[k] < b[k];
          assert k > 0;
          assert a[1..][..k - 1] == b[1..][..k - 1] by {
            assert a[1..][..k - 1] == a[..k][1..];
            assert b[1..][..k - 1] == b[..k][1..];
          }
          assert a[1..][k - 1] < b[1..][k - 1];
        }
        if exists k :: 0 <= k < |a| - 1 && k < |b| - 1 && a[1..][..k] == b[1..][..k] && a[1..][k] < b[1..][k] {
          var k :| 0 <= k < |a| - 1 && k < |b| - 1 && a[1..][..k] == b[1..][..k] && a[1..][k] < b[1..][k];
          assert a[..k + 1] == [a[0]] + a[1..][..k];
          assert b[..k + 1] == [b[0]] + b[1..][..k];
        }
      } else if a[0] < b[0] {
        assert a[..0] == b[..0];
      } else {
        if exists k :: 0 <= k < |a| && k < |b| && a[..k] == b[..k] && a[k] < b[k] {
          var k :| 0 <= k < |a| && k < |b| && a[..k] == b[..k] && a[k] < b[k];
          if k > 0 {
            assert a[..k][0] == b[..k][0];
          }
        }
      }
    }
  }

  lemma {:induction false} LexLeReflexive(a: string)
    ensures LexLe(a, a)
    decreases |a|
  {
    if |a| > 0 {
      LexLeReflexive(a[1..]);
    }
  }

  lemma {:induction false} LexLeTotal(a: string, b: string)
    ensures LexLe(a, b) || LexLe(b, a)
    decreases |a|
  {
    if |a| > 0 && |b| > 0 && a[0] == b[0] {
      LexLeTotal(a[1..], b[1..]);
    }
  }

  lemma {:induction false} LexLeAntisymmetric(a: string, b: string)
    requires LexLe(a, b) && LexLe(b, a)
    ensures a == b
    decreases |a|
  {
    if |a| > 0 {
      LexLeAntisymmetric(a[1..], b[1..]);
      assert a == [a[0]] + a[1..];
      assert b == [b[0]] + b[1..];
    }
  }

  lemma {:induction false} LexLeTransitive(a: string, b: string, c: string)
    requires LexLe(a, b) && LexLe(b, c)
    ensures LexLe(a, c)
    decreases |a|
  {
    if |a| > 0 && a[0] == b[0] && b[0] == c[0] {
      LexLeTransitive(a[1..], b[1..], c[1..]);
    }
  }

  /** Ascending by key. */
  predicate Sorted(s: seq<Address>) {
    forall i, j :: 0 <= i < j < |s| ==> LexLe(SortKey(s[i]), SortKey(s[j]))
  }

  /** Places `x` before the first element whose key is not smaller than its
      own, so that it comes ahead of every element with an equal key. */
  function Insert(x: Address, s: seq<Address>): (r: seq<Address>)
    requires Sorted(s)
    ensures Sorted(r)
    ensures |r| == |s| + 1
    ensures forall y :: y in r <==> y == x || y in s
    ensures multiset(r) == multiset(s) + multiset{x}
  {
    if |s| == 0 then
      [x]
    else if LexLe(SortKey(x), SortKey(s[0])) then
      assert forall j :: 0 <= j < |s| ==> LexLe(SortKey(x), SortKey(s[j])) by {
        forall j | 0 <= j < |s| ensures LexLe(SortKey(x), SortKey(s[j])) {
          if j > 0 {
            LexLeTransitive(SortKey(x), SortKey(s[0]), SortKey(s[j]));
          }
        }
      }
      [x] + s
    else
      LexLeTotal(SortKey(x), SortKey(s[0]));
      var rest := Insert(x, s[1..]);
      assert forall y :: y in rest ==> LexLe(SortKey(s[0]), SortKey(y));
      assert s == [s[0]] + s[1..];
      [s[0]] + rest
  }

  /** `list.sort(key=...)` on the merged records: insertion from the back,
      so that earlier records stay ahead of later ones with an equal key. */
  function SortByZip(s: seq<Address>): (r: seq<Address>)
    ensures Sorted(r)
    ensures multiset(r) == multiset(s)
  {
    if |s| == 0 then
      []
    else
      assert s == [s[0]] + s[1..];
      Insert(s[0], SortByZip(s[1..]))
  }

  lemma SortCons(x: Address, s: seq<Address>)
    ensures SortByZip([x] + s) == Insert(x, SortByZip(s))
  {
    assert ([x] + s)[1..] == s;
  }

  lemma InsertFront(x: Address, s: seq<Address>)
    requires Sorted(s) && |s| > 0 && LexLe(SortKey(x), SortKey(s[0]))
    ensures Insert(x, s) == [x] + s
  {
  }

  /** The records whose key is `k`, in order. */
  function WithKey(s: seq<Address>, k: string): seq<Address> {
    if |s| == 0 then [] else (if SortKey(s[0]) == k then [s[0]] else []) + WithKey(s[1..], k)
  }

  lemma {:induction false} WithKeyAppend(a: seq<Address>, b: seq<Address>, k: string)
    ensures WithKey(a + b, k) == WithKey(a, k) + WithKey(b, k)
    decreases |a|
  {
    if |a| == 0 {
      assert a + b == b;
    } else {
      var h := if SortKey(a[0]) == k then [a[0]] else [];
      assert (a + b)[0] == a[0];
      assert (a + b)[1..] == a[1..] + b;
      assert WithKey(a + b, k) == h + WithKey(a[1..] + b, k);
      WithKeyAppend(a[1..], b, k);
      assert WithKey(a, k) == h + WithKey(a[1..], k);
    }
  }

  lemma SortedTail(s: seq<Address>)
    requires Sorted(s) && |s| > 0
    ensures Sorted(s[1..])
  {
    forall i, j | 0 <= i < j < |s| - 1 ensures LexLe(SortKey(s[1..][i]), SortKey(s[1..][j])) {
      assert s[1..][i] == s[i + 1] && s[1..][j] == s[j + 1];
    }
  }

  lemma InsertAfterHead(x: Address, s: seq<Address>)
    requires Sorted(s) && |s| > 0 && !LexLe(SortKey(x), SortKey(s[0]))
    ensures Sorted(s[1..])
    ensures Insert(x, s) == [s[0]] + Insert(x, s[1..])
  {
    SortedTail(s);
  }

  lemma WithKeySingle(x: Address, k: string)
    ensures WithKey([x], k) == if SortKey(x) == k then [x] else []
  {
    assert [x][1..] == [];
  }

  /** Moving `x` past a record `h` with another key keeps the order among
      the records of every key. */
  lemma SwapDistinctKeys(x: Address, h: Address, t: seq<Address>, rest: seq<Address>, k: string)
    requires SortKey(x) != SortKey(h)
    requires WithKey(rest, k) == WithKey([x] + t, k)
    ensures WithKey([h] + rest, k) == WithKey([x] + ([h] + t), k)
  {
    WithKeyAppend([h], rest, k);
    WithKeyAppend([x], t, k);
    WithKeyAppend([h], t, k);
    WithKeyAppend([x], [h] + t, k);
    WithKeySingle(x, k);
    WithKeySingle(h, k);
    var wx, wh, wt := WithKey([x], k), WithKey([h], k), WithKey(t, k);
    assert WithKey([h] + rest, k) == wh + (wx + wt);
    assert WithKey([x] + ([h] + t), k) == wx + (wh + wt);
    assert wx == [] || wh == [];
  }

  /** Inserting keeps the order among records of each key: `x` lands ahead
      of every record with its key. */
  lemma {:induction false} InsertStable(x: Address, s: seq<Address>, k: string)
    requires Sorted(s)
    ensures WithKey(Insert(x, s), k) == WithKey([x] + s, k)
    decreases |s|
  {
    if |s| > 0 && !LexLe(SortKey(x), SortKey(s[0])) {
      var h, t := s[0], s[1..];
      InsertAfterHead(x, s);
      InsertStable(x, t, k);
      LexLeReflexive(SortKey(x));
      assert s == [h] + t;
      SwapDistinctKeys(x, h, t, Insert(x, t), k);
    }
  }

  /** The sort is stable: for every zip, the records with that zip appear in
      the same relative order as in the input. */
  lemma {:induction false} SortStable(s: seq<Address>, k: string)
    ensures WithKey(SortByZip(s), k) == WithKey(s, k)
    decreases |s|
  {
    if |s| > 0 {
      SortStable(s[1..], k);
      InsertStable(s[0], SortByZip(s[1..]), k);
      WithKeyAppend([s[0]], SortByZip(s[1..]), k);
      WithKeyAppend([s[0]], s[1..], k);
      assert [s[0]] + s[1..] == s;
    }
  }

  /** Sorting an already sorted sequence changes nothing; in particular the
      sort is idempotent. */
  lemma {:induction false} SortOfSorted(s: seq<Address>)
    requires Sorted(s)
    ensures SortByZip(s) == s
    decreases |s|
  {
    if |s| > 0 {
      SortOfSorted(s[1..]);
      LexLeReflexive(SortKey(s[0]));
      if |s| > 1 {
        assert LexLe(SortKey(s[0]), SortKey(s[1]));
      }
      assert [s[0]] + s[1..] == s;
    }
  }

  /** Zips compare as strings, not numbers: one record from each file type
      with zips "30301", "10001-0001" and "90210" end up ordered
      "10001-0001", "30301", "90210". */
  lemma SortExample(a: Address, b: Address, c: Address)
    requires a.zip == Some("30301") && b.zip == Some("10001-0001") && c.zip == Some("90210")
    ensures SortByZip([a, b, c]) == [b, a, c]
  {
    assert LexLe(SortKey(b), SortKey(c));
    assert LexLe(SortKey(a), SortKey(c));
    assert !LexLe(SortKey(a), SortKey(b));
    var sc := SortByZip([c]);
    assert sc == [c] by {
      SortCons(c, []);
      assert [c] + [] == [c];
    }
    var sbc := SortByZip([b, c]);
    assert sbc == [b, c] by {
      SortCons(b, [c]);
      assert [b] + [c] == [b, c];
      InsertFront(b, [c]);
    }
    assert Insert(a, [b, c]) == [b, a, c] by {
      InsertAfterHead(a, [b, c]);
      assert [b, c][1..] == [c];
      InsertFront(a, [c]);
    }
    SortCons(a, [b, c]);
    assert [a] + [b, c] == [a, b, c];
  }
}
