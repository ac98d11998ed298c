/** The string primitives the normaliser relies on, with the meaning of
    Python's `strip`, `in`, `split(sep)`, `sep.join`, `replace(pat, '')`,
    `endswith` and `filter(None, ...)` on strings. */
module Strings {
  import opened Wrappers

  /** The whitespace `strip()` removes in this model: space, tab, line feed,
      carriage return, vertical tab and form feed. */
  predicate IsSpace(c: char) {
    c == ' ' || c == '\t' || c == '\n' || c == '\r' || c == '\U{000B}' || c == '\U{000C}'
  }

  predicate AllSpace(s: string) {
    forall k :: 0 <= k < |s| ==> IsSpace(s[k])
  }

  /** Neither starts nor ends with whitespace. */
  predicate Trimmed(s: string) {
    |s| == 0 || (!IsSpace(s[0]) && !IsSpace(s[|s| - 1]))
  }

  /** Python's `s.strip()`: whitespace is dropped from the front, then from
      the back, until neither end is whitespace. */
  function Trim(s: string): (r: string)
    ensures Trimmed(r)
    ensures |r| <= |s|
    decreases |s|
  {
    if |s| > 0 && IsSpace(s[0]) then Trim(s[1..])
    else if |s| > 0 && IsSpace(s[|s| - 1]) then Trim(s[..|s| - 1])
    else s
  }

  /** What `strip()` keeps is a slice of `s` with only whitespace on either
      side of it. */
  lemma {:induction false} TrimIsMiddle(s: string) returns (i: nat)
    ensures i + |Trim(s)| <= |s|
    ensures Trim(s) == s[i..i + |Trim(s)|]
    ensures AllSpace(s[..i]) && AllSpace(s[i + |Trim(s)|..])
    decreases |s|
  {
    if |s| > 0 && IsSpace(s[0]) {
      var t := s[1..];
      assert Trim(s) == Trim(t);
      var j := TrimIsMiddle(t);
      i := SpaceBefore(s, j, |Trim(t)|);
    } else if |s| > 0 && IsSpace(s[|s| - 1]) {
      var t := s[..|s| - 1];
      assert Trim(s) == Trim(t);
      i := TrimIsMiddle(t);
      SpaceAfter(s, i, |Trim(t)|);
    } else {
      i := 0;
      assert Trim(s) == s == s[0..|s|];
    }
  }

  /** A slice of `s[1..]` framed by whitespace stays so framed in `s` when
      `s` starts with whitespace. */
  lemma SpaceBefore(s: string, j: nat, n: nat) returns (i: nat)
    requires |s| > 0 && IsSpace(s[0])
    requires j + n <= |s| - 1
    requires AllSpace(s[1..][..j]) && AllSpace(s[1..][j + n..])
    ensures i == j + 1 && i + n <= |s|
    ensures s[i..i + n] == s[1..][j..j + n]
    ensures AllSpace(s[..i]) && AllSpace(s[i + n..])
  {
    i := j + 1;
    var here, there := s[i..i + n], s[1..][j..j + n];
    assert forall k :: 0 <= k < n ==> here[k] == there[k];
    assert here == there;
    assert s[i + n..] == s[1..][j + n..];
    forall k | 0 <= k < i ensures IsSpace(s[..i][k]) {
      if k > 0 {
        assert s[..i][k] == s[1..][..j][k - 1];
      }
    }
  }

  /** A slice of `s[..|s| - 1]` framed by whitespace stays so framed in `s`
      when `s` ends with whitespace. */
  lemma SpaceAfter(s: string, i: nat, n: nat)
    requires |s| > 0 && IsSpace(s[|s| - 1])
    requires i + n <= |s| - 1
    requires AllSpace(s[..|s| - 1][..i]) && AllSpace(s[..|s| - 1][i + n..])
    ensures s[i..i + n] == s[..|s| - 1][i..i + n]
    ensures AllSpace(s[..i]) && AllSpace(s[i + n..])
  {
    assert s[..|s| - 1][..i] == s[..i];
    var tail := s[i + n..];
    forall k | 0 <= k < |tail| ensures IsSpace(tail[k]) {
      if k < |tail| - 1 {
        assert tail[k] == s[..|s| - 1][i + n..][k];
      }
    }
  }

  /** Trimming a string that is already trimmed changes nothing. */
  lemma TrimOfTrimmed(s: string)
    requires Trimmed(s)
    ensures Trim(s) == s
  {
  }

  /** `strip()` is idempotent. */
  lemma TrimIdempotent(s: string)
    ensures Trim(Trim(s)) == Trim(s)
  {
    TrimOfTrimmed(Trim(s));
  }

  /** Trimming never introduces a character. */
  lemma TrimKeepsAbsent(s: string, c: char)
    requires c !in s
    ensures c !in Trim(s)
  {
    var i := TrimIsMiddle(s);
    assert forall k :: 0 <= k < |Trim(s)| ==> Trim(s)[k] == s[i + k];
  }

  /** `pat` occurs in `s` starting at index `i`. */
  predicate OccursAt(s: string, pat: string, i: int) {
    0 <= i && i + |pat| <= |s| && s[i..i + |pat|] == pat
  }

  /** An occurrence fixes the characters at both of its ends. */
  lemma OccursEnds(s: string, pat: string, i: int)
    requires |pat| > 0 && OccursAt(s, pat, i)
    ensures s[i] == pat[0] && s[i + |pat| - 1] == pat[|pat| - 1]
  {
    assert s[i..i + |pat|][0] == s[i];
    assert s[i..i + |pat|][|pat| - 1] == s[i + |pat| - 1];
  }

  /** An occurrence that ends within a prefix is an occurrence in that prefix. */
  lemma OccursInPrefix(s: string, pat: string, i: int, n: int)
    requires OccursAt(s, pat, i) && i + |pat| <= n <= |s|
    ensures OccursAt(s[..n], pat, i)
  {
    assert s[..n][i..i + |pat|] == s[i..i + |pat|];
  }

  lemma OccursShift(s: string, pat: string, j: int)
    requires |s| > 0 && 0 <= j
    ensures OccursAt(s, pat, j + 1) <==> OccursAt(s[1..], pat, j)
  {
    if j + 1 + |pat| <= |s| {
      assert s[j + 1..j + 1 + |pat|] == s[1..][j..j + |pat|];
    }
  }

  /** Python's `s.find(pat)`: the first index where `pat` occurs, if any. */
  function Find(s: string, pat: string): (r: Option<nat>)
    requires |pat| > 0
    ensures r.Some? ==> OccursAt(s, pat, r.value)
    ensures r.Some? ==> forall j :: 0 <= j < r.value ==> !OccursAt(s, pat, j)
    ensures r.None? ==> forall j :: !OccursAt(s, pat, j)
    decreases |s|
  {
    if |s| < |pat| then
      None
    else if s[..|pat|] == pat then
      Some(0)
    else
      var rest := Find(s[1..], pat);
      assert forall j :: 0 <= j ==> (OccursAt(s, pat, j + 1) <==> OccursAt(s[1..], pat, j)) by {
        forall j | 0 <= j ensures OccursAt(s, pat, j + 1) <==> OccursAt(s[1..], pat, j) {
          OccursShift(s, pat, j);
        }
      }
      assert !OccursAt(s, pat, 0);
      match rest
      case None =>
        assert forall j :: !OccursAt(s, pat, j) by {
          forall j ensures !OccursAt(s, pat, j) {
            if j > 0 {
              assert !OccursAt(s[1..], pat, j - 1);
            }
          }
        }
        None
      case Some(i) =>
        assert forall j :: 0 <= j < i + 1 ==> !OccursAt(s, pat, j) by {
          forall j | 0 <= j < i + 1 ensures !OccursAt(s, pat, j) {
            if j > 0 {
              assert !OccursAt(s[1..], pat, j - 1);
            }
          }
        }
        Some(i + 1)
  }

  /** Python's `pat in s`: `pat` occurs somewhere in `s`. */
  predicate Contains(s: string, pat: string)
    requires |pat| > 0
    ensures Contains(s, pat) <==> exists i :: OccursAt(s, pat, i)
  {
    Find(s, pat).Some?
  }

  /** For a one-character pattern, `in` on strings is membership of the character. */
  lemma ContainsChar(s: string, c: char)
    ensures Contains(s, [c]) <==> c in s
  {
    if c in s {
      var k :| 0 <= k < |s| && s[k] == c;
      assert OccursAt(s, [c], k);
    }
    if Contains(s, [c]) {
      var k := Find(s, [c]).value;
      assert s[k..k + 1][0] == c;
    }
  }

  /** A prefix of `s` that ends before the first occurrence of `pat` does not contain `pat`. */
  lemma PrefixBeforeFirst(s: string, pat: string, i: nat)
    requires |pat| > 0 && i <= |s|
    requires forall j :: 0 <= j < i ==> !OccursAt(s, pat, j)
    ensures !Contains(s[..i], pat)
  {
    var p := s[..i];
    if Contains(p, pat) {
      var j := Find(p, pat).value;
      assert p[j..j + |pat|] == s[j..j + |pat|];
      assert OccursAt(s, pat, j);
    }
  }

  /** Python's `sep.join(parts)`: the parts in order with `sep` between
      neighbours. No parts give "", one part gives itself, and `JoinAppend`
      states how joins of longer lists compose. */
  function Join(parts: seq<string>, sep: string): (r: string)
    ensures |parts| == 0 ==> r == ""
    ensures |parts| == 1 ==> r == parts[0]
  {
    if |parts| == 0 then ""
    else if |parts| == 1 then parts[0]
    else parts[0] + sep + Join(parts[1..], sep)
  }

  /** Joining two non-empty lists of parts one after the other is joining
      each and putting `sep` between the results. */
  lemma {:induction false} JoinAppend(a: seq<string>, b: seq<string>, sep: string)
    requires |a| > 0 && |b| > 0
    ensures Join(a + b, sep) == Join(a, sep) + sep + Join(b, sep)
    decreases |a|
  {
    if |a| == 1 {
      assert (a + b)[1..] == b;
    } else {
      assert (a + b)[1..] == a[1..] + b;
      JoinAppend(a[1..], b, sep);
    }
  }

  /** Python's `s.split(sep)` for a non-empty separator: the pieces between
      the occurrences of `sep` found left to right. There is always at least
      one piece, no piece contains `sep`, the first piece is the text before
      the first occurrence (all of `s` when there is none), and joining the
      pieces with `sep` gives back `s`. */
  function Split(s: string, sep: string): (parts: seq<string>)
    requires |sep| > 0
    ensures |parts| >= 1
    ensures forall k :: 0 <= k < |parts| ==> !Contains(parts[k], sep)
    ensures |parts[0]| <= |s| && parts[0] == s[..|parts[0]|]
    ensures |parts| == 1 <==> !Contains(s, sep)
    ensures Contains(s, sep) ==> OccursAt(s, sep, |parts[0]|)
    ensures Contains(s, sep) ==> Find(s, sep) == Some(|parts[0]|)
    ensures Join(parts, sep) == s
    decreases |s|
  {
    match Find(s, sep)
    case None => [s]
    case Some(i) =>
      PrefixBeforeFirst(s, sep, i);
      var rest := Split(s[i + |sep|..], sep);
      SplitStep(s, sep, i, rest);
      [s[..i]] + rest
  }

  /** After the first piece and the separator that ends it, the remaining
      pieces are the split of the rest of the string: the cuts are made at
      successive first occurrences, left to right. */
  lemma SplitRest(s: string, sep: string)
    requires |sep| > 0 && |Split(s, sep)| > 1
    ensures |Split(s, sep)[0]| + |sep| <= |s|
    ensures Split(s, sep)[1..] == Split(s[|Split(s, sep)[0]| + |sep|..], sep)
  {
    var i := Find(s, sep).value;
    assert Split(s, sep) == [s[..i]] + Split(s[i + |sep|..], sep);
  }

  /** A character that differs from the pattern's rules out an occurrence. */
  lemma MismatchAt(s: string, pat: string, j: int, k: int)
    requires 0 <= j && 0 <= k < |pat| && j + k < |s| && s[j + k] != pat[k]
    ensures !OccursAt(s, pat, j)
  {
    if j + |pat| <= |s| {
      assert s[j..j + |pat|][k] == s[j + k];
    }
  }

  /** A separator that overlaps itself is cut at its first occurrence: with
      three line breaks between two lines, splitting on a blank line gives
      the first line, then the third line break followed by the second line. */
  lemma SplitOverlappingBlankLine(a: string, b: string)
    requires '\n' !in a && '\n' !in b
    ensures Split(a + "\n\n\n" + b, "\n\n") == [a, "\n" + b]
  {
    var s := a + "\n\n\n" + b;
    var rest := "\n" + b;
    FirstBlankLine(a, b);
    assert s[..|a|] == a;
    assert s[|a| + 2..] == rest;
    NoBlankLineAfterBreak(b);
    assert Split(rest, "\n\n") == [rest];
  }

  /** The first blank line of `a + "\n\n\n" + b` starts right after `a`. */
  lemma FirstBlankLine(a: string, b: string)
    requires '\n' !in a
    ensures Find(a + "\n\n\n" + b, "\n\n") == Some(|a|)
  {
    var pat := "\n\n";
    var s := a + "\n\n\n" + b;
    assert OccursAt(s, pat, |a|) by {
      assert s[|a|..|a| + 2] == pat;
    }
    forall j | 0 <= j < |a| ensures !OccursAt(s, pat, j) {
      assert s[j] == a[j];
      MismatchAt(s, pat, j, 0);
    }
    FindAt(s, pat, |a|);
  }

  /** A line break followed by a line holds no blank line. */
  lemma NoBlankLineAfterBreak(b: string)
    requires '\n' !in b
    ensures Find("\n" + b, "\n\n").None?
  {
    var pat := "\n\n";
    var rest := "\n" + b;
    forall j | 0 <= j ensures !OccursAt(rest, pat, j) {
      if 1 <= j < |rest| {
        assert rest[j] == b[j - 1];
        MismatchAt(rest, pat, j, 0);
      } else if j == 0 && |b| > 0 {
        assert rest[1] == b[0];
        MismatchAt(rest, pat, 0, 1);
      }
    }
  }

  /** The recursive case of `Split`: the text before the first separator,
      followed by the pieces of the text after it. */
  lemma SplitStep(s: string, sep: string, i: nat, rest: seq<string>)
    requires |sep| > 0 && OccursAt(s, sep, i) && !Contains(s[..i], sep)
    requires |rest| >= 1 && forall k :: 0 <= k < |rest| ==> !Contains(rest[k], sep)
    requires Join(rest, sep) == s[i + |sep|..]
    ensures forall k :: 0 <= k < |[s[..i]] + rest| ==> !Contains(([s[..i]] + rest)[k], sep)
    ensures Join([s[..i]] + rest, sep) == s
  {
    JoinStep(s[..i], sep, rest);
    AroundOccurrence(s, sep, i);
    PiecesStep(s[..i], sep, rest);
  }

  lemma AroundOccurrence(s: string, pat: string, i: int)
    requires OccursAt(s, pat, i)
    ensures s == s[..i] + pat + s[i + |pat|..]
  {
    assert s[i..i + |pat|] == pat;
    assert s == s[..i] + s[i..i + |pat|] + s[i + |pat|..];
  }

  lemma JoinStep(head: string, sep: string, rest: seq<string>)
    requires |rest| >= 1
    ensures Join([head] + rest, sep) == head + sep + Join(rest, sep)
  {
    assert ([head] + rest)[1..] == rest;
  }

  lemma PiecesStep(head: string, sep: string, rest: seq<string>)
    requires |sep| > 0 && !Contains(head, sep)
    requires forall k :: 0 <= k < |rest| ==> !Contains(rest[k], sep)
    ensures forall k :: 0 <= k < |[head] + rest| ==> !Contains(([head] + rest)[k], sep)
  {
    var parts := [head] + rest;
    forall k | 0 <= k < |parts| ensures !Contains(parts[k], sep) {
      if k > 0 {
        assert parts[k] == rest[k - 1];
      }
    }
  }

  /** Python's `s.replace(pat, '')`: every occurrence of `pat` found left to
      right is deleted in a single pass. */
  function RemoveAll(s: string, pat: string): (r: string)
    requires |pat| > 0
    ensures |r| <= |s|
    decreases |s|
  {
    match Find(s, pat)
    case None => s
    case Some(i) => s[..i] + RemoveAll(s[i + |pat|..], pat)
  }

  /** Deleting every occurrence is the same as splitting on the pattern and
      gluing the pieces back together with nothing in between. */
  lemma {:induction false} RemoveAllIsSplitJoin(s: string, pat: string)
    requires |pat| > 0
    ensures RemoveAll(s, pat) == Join(Split(s, pat), "")
    decreases |s|
  {
    match Find(s, pat)
    case None =>
    case Some(i) =>
      var tail := s[i + |pat|..];
      RemoveAllIsSplitJoin(tail, pat);
      var rest := Split(tail, pat);
      assert Split(s, pat) == [s[..i]] + rest;
      JoinStep(s[..i], "", rest);
      assert s[..i] + "" == s[..i];
  }

  /** Reference definition: `s` with every `c` left out. */
  function Without(s: string, c: char): string {
    if |s| == 0 then "" else (if s[0] == c then "" else [s[0]]) + Without(s[1..], c)
  }

  lemma {:induction false} WithoutAppend(a: string, b: string, c: char)
    ensures Without(a + b, c) == Without(a, c) + Without(b, c)
  {
    if |a| > 0 {
      assert (a + b)[1..] == a[1..] + b;
      WithoutAppend(a[1..], b, c);
    } else {
      assert a + b == b;
    }
  }

  lemma {:induction false} WithoutAbsent(s: string, c: char)
    requires c !in s
    ensures Without(s, c) == s
  {
    if |s| > 0 {
      WithoutAbsent(s[1..], c);
    }
  }

  lemma {:induction false} WithoutRemoves(s: string, c: char)
    ensures c !in Without(s, c)
  {
    if |s| > 0 {
      WithoutRemoves(s[1..], c);
    }
  }

  /** The text before the first `c` holds no `c`. */
  lemma BeforeFirstChar(s: string, c: char, i: nat)
    requires Find(s, [c]) == Some(i)
    ensures i < |s| && s[i] == c
    ensures c !in s[..i]
  {
    assert s[i..i + 1][0] == c;
    PrefixBeforeFirst(s, [c], i);
    ContainsChar(s[..i], c);
  }

  /** `s.replace(c, '')` for a single character `c` removes exactly the
      occurrences of `c` and keeps every other character in order. */
  lemma {:induction false} RemoveCharIsWithout(s: string, c: char)
    ensures RemoveAll(s, [c]) == Without(s, c)
    decreases |s|
  {
    var f := Find(s, [c]);
    if f.None? {
      ContainsChar(s, c);
      WithoutAbsent(s, c);
    } else {
      var i := f.value;
      var head, tail := s[..i], s[i + 1..];
      assert RemoveAll(s, [c]) == head + RemoveAll(tail, [c]);
      RemoveCharIsWithout(tail, c);
      BeforeFirstChar(s, c, i);
      WithoutAbsent(head, c);
      WithoutSplitAt(s, c, i);
    }
  }

  lemma WithoutSplitAt(s: string, c: char, i: nat)
    requires i < |s| && s[i] == c
    ensures Without(s, c) == Without(s[..i], c) + Without(s[i + 1..], c)
  {
    assert s == s[..i] + ([c] + s[i + 1..]);
    WithoutAppend(s[..i], [c] + s[i + 1..], c);
    assert ([c] + s[i + 1..])[1..] == s[i + 1..];
  }

  /** After `s.replace(c, '')` no `c` is left. */
  lemma RemoveCharRemoves(s: string, c: char)
    ensures c !in RemoveAll(s, [c])
  {
    RemoveCharIsWithout(s, c);
    WithoutRemoves(s, c);
  }

  /** The first occurrence of `pat` is at `i` when it occurs there and at
      no earlier index. */
  lemma FindAt(s: string, pat: string, i: nat)
    requires |pat| > 0 && OccursAt(s, pat, i)
    requires forall j :: 0 <= j < i ==> !OccursAt(s, pat, j)
    ensures Find(s, pat) == Some(i)
  {
  }

  /** One pass of `replace` can leave a new occurrence behind: when `pat`
      is cut into `x` and `y` and its first occurrence in `x + pat + y` is
      the middle one, deleting it joins the halves into `pat` again. */
  lemma RemoveAllSinglePass(x: string, y: string, pat: string)
    requires pat == x + y && |x| > 0 && |y| > 0
    requires forall j :: 0 <= j < |x| ==> !OccursAt(x + pat + y, pat, j)
    ensures RemoveAll(x + pat + y, pat) == pat
  {
    var s := x + pat + y;
    assert OccursAt(s, pat, |x|) by {
      assert s[|x|..|x| + |pat|] == pat;
    }
    FindAt(s, pat, |x|);
    assert s[|x| + |pat|..] == y && s[..|x|] == x;
    assert Find(y, pat) == None;
  }

  /** The instance the text format meets: "COUCOUNTYNTY" loses its inner
      "COUNTY" and becomes "COUNTY". */
  lemma CountyRemovedOnce()
    ensures RemoveAll("COUCOUNTYNTY", "COUNTY") == "COUNTY"
  {
    var x, y, pat := "COU", "NTY", "COUNTY";
    var s := x + pat + y;
    assert s == "COUCOUNTYNTY";
    forall j | 0 <= j < |x| ensures !OccursAt(s, pat, j) {
      assert s[j..j + |pat|][3 - j] == 'C';
      assert pat[3 - j] != 'C';
    }
    RemoveAllSinglePass(x, y, pat);
  }

  /** Python's `s.endswith(suffix)`: `s` is some text followed by `suffix`. */
  predicate EndsWith(s: string, suffix: string)
    ensures EndsWith(s, suffix) ==> |suffix| <= |s| && s == s[..|s| - |suffix|] + suffix
  {
    |suffix| <= |s| && s[|s| - |suffix|..] == suffix
  }

  /** Any text followed by `suffix` ends with `suffix`. */
  lemma EndsWithAppend(p: string, suffix: string)
    ensures EndsWith(p + suffix, suffix)
  {
    assert (p + suffix)[|p|..] == suffix;
  }

  /** Python's `filter(None, xs)` on strings: the non-empty ones, in order. */
  function NonEmpty(xs: seq<string>): (r: seq<string>)
    ensures forall k :: 0 <= k < |r| ==> r[k] != ""
    ensures forall x :: x in r <==> x in xs && x != ""
    ensures |r| <= |xs|
  {
    if |xs| == 0 then []
    else (if xs[0] == "" then [] else [xs[0]]) + NonEmpty(xs[1..])
  }

  /** `filter(None, ...)` of one string keeps it exactly when it is not empty. */
  lemma NonEmptySingle(x: string)
    ensures NonEmpty([x]) == if x == "" then [] else [x]
  {
    assert [x][1..] == [];
  }

  /** `filter(None, ...)` works element by element and keeps the order: the
      filter of a concatenation is the concatenation of the filters. With
      `NonEmptySingle` this fixes the result for every list. */
  lemma {:induction false} NonEmptyAppend(a: seq<string>, b: seq<string>)
    ensures NonEmpty(a + b) == NonEmpty(a) + NonEmpty(b)
    decreases |a|
  {
    if |a| == 0 {
      assert a + b == b;
    } else {
      assert (a + b)[0] == a[0];
      assert (a + b)[1..] == a[1..] + b;
      NonEmptyAppend(a[1..], b);
    }
  }

  lemma NonEmptyPair(a: string, b: string)
    ensures NonEmpty([a, b]) == (if a == "" then [] else [a]) + (if b == "" then [] else [b])
  {
    assert [a, b][1..] == [b];
    assert [b][1..] == [];
  }

  /** Joining non-empty trimmed words with single spaces gives a trimmed
      string, and it is empty exactly when there are no words. */
  lemma {:induction false} JoinWordsTrimmed(parts: seq<string>)
    requires forall k :: 0 <= k < |parts| ==> parts[k] != "" && Trimmed(parts[k])
    ensures Trimmed(Join(parts, " "))
    ensures Join(parts, " ") == "" <==> |parts| == 0
  {
    if |parts| > 1 {
      JoinWordsTrimmed(parts[1..]);
      var rest := Join(parts[1..], " ");
      assert Join(parts, " ") == parts[0] + " " + rest;
      assert |parts[1..]| > 0;
    }
  }

  /** Python's `' '.join(filter(None, xs))` over trimmed strings: a trimmed
      string, empty exactly when every one of `xs` is empty. */
  lemma JoinNonBlankTrimmed(xs: seq<string>)
    requires forall k :: 0 <= k < |xs| ==> Trimmed(xs[k])
    ensures Trimmed(Join(NonEmpty(xs), " "))
    ensures Join(NonEmpty(xs), " ") == "" <==> forall k :: 0 <= k < |xs| ==> xs[k] == ""
  {
    var w := NonEmpty(xs);
    forall k | 0 <= k < |w| ensures w[k] != "" && Trimmed(w[k]) {
      assert w[k] in w;
      var j :| 0 <= j < |xs| && xs[j] == w[k];
    }
    JoinWordsTrimmed(w);
    if exists k :: 0 <= k < |xs| && xs[k] != "" {
      var k :| 0 <= k < |xs| && xs[k] != "";
      assert xs[k] in w;
    }
  }

  /** The first `c` in `s` is at `i` when `s[i]` is `c` and no `c` comes before. */
  lemma FindChar(s: string, c: char, i: nat)
    requires i < |s| && s[i] == c && c !in s[..i]
    ensures Find(s, [c]) == Some(i)
  {
    assert OccursAt(s, [c], i) by {
      assert s[i..i + 1] == [c];
    }
    forall j | 0 <= j < i ensures !OccursAt(s, [c], j) {
      assert s[..i][j] == s[j];
      assert s[j..j + 1][0] == s[j];
    }
    FindAt(s, [c], i);
  }

  /** Pieces of `s.split(sep)` never hold a character `s` lacks. */
  lemma {:induction false} SplitPiecesLack(s: string, sep: string, c: char)
    requires |sep| > 0 && c !in s
    ensures forall k :: 0 <= k < |Split(s, sep)| ==> c !in Split(s, sep)[k]
    decreases |s|
  {
    match Find(s, sep)
    case None =>
    case Some(i) =>
      var tail := s[i + |sep|..];
      SplitPiecesLack(tail, sep, c);
      assert Split(s, sep) == [s[..i]] + Split(tail, sep);
      assert c !in s[..i];
  }

  /** Splitting on a character undoes joining with it, when no part holds
      that character. */
  lemma {:induction false} SplitJoinChar(parts: seq<string>, c: char)
    requires |parts| >= 1
    requires forall k :: 0 <= k < |parts| ==> c !in parts[k]
    ensures Split(Join(parts, [c]), [c]) == parts
  {
    if |parts| == 1 {
      ContainsChar(parts[0], c);
    } else {
      var rest := Join(parts[1..], [c]);
      var s := parts[0] + [c] + rest;
      assert Join(parts, [c]) == s;
      var i := |parts[0]|;
      assert s[..i] == parts[0];
      FindChar(s, c, i);
      assert s[i + 1..] == rest;
      SplitJoinChar(parts[1..], c);
      assert Split(s, [c]) == [parts[0]] + parts[1..];
    }
  }
}
