/** The merge step of soln.py's `main`: each path is routed by its suffix to
    a parser, the records are concatenated in argument order, and the result
    is sorted by zip. Reading files and the markup and tabular libraries are
    given as parameters; argument parsing, messages and the output file are
    left out. */
module Aggregator {
  import opened Wrappers
  import opened Strings
  import opened Records
  import Markup
  import Tabular
  import BlockText
  import opened Ordering

  /** What the file system and the libraries present for a path: the ENT
      elements of a markup document, the rows of a tab-separated file, and
      the text of a plain file. Each fails when the file cannot be read or,
      for markup, is not well formed. */
  datatype Sources = Sources(
    entities: string -> Result<seq<Markup.Entity>, Error>,
    rows: string -> Result<seq<Tabular.Row>, Error>,
    content: string -> Result<string, Error>)

  /** The suffix test of `main`, in its order. */
  datatype Format = Xml | Tsv | Txt | Unsupported

  function FormatOf(path: string): (f: Format)
    ensures f == Xml <==> EndsWith(path, ".xml")
    ensures f == Tsv <==> EndsWith(path, ".tsv")
    ensures f == Txt <==> EndsWith(path, ".txt")
    ensures f == Unsupported <==> !EndsWith(path, ".xml") && !EndsWith(path, ".tsv") && !EndsWith(path, ".txt")
  {
    if EndsWith(path, ".xml") then Xml
    else if EndsWith(path, ".tsv") then Tsv
    else if EndsWith(path, ".txt") then Txt
    else Unsupported
  }

  /** The records one path contributes. A path with another suffix is
      skipped and contributes nothing. */
  function ParseFile(path: string, src: Sources): (r: Result<seq<Address>, Error>)
    ensures FormatOf(path) == Unsupported ==> r == Success([])
    ensures FormatOf(path) == Xml ==>
              r == (match src.entities(path)
                    case Failure(e) => Failure(e)
                    case Success(ents) => Markup.ParseEntities(ents))
    ensures FormatOf(path) == Tsv ==>
              r == (match src.rows(path)
                    case Failure(e) => Failure(e)
                    case Success(rows) => Tabular.ParseRows(rows))
    ensures FormatOf(path) == Txt ==>
              r == (match src.content(path)
                    case Failure(e) => Failure(e)
                    case Success(text) => BlockText.ParseText(text))
  {
    match FormatOf(path)
    case Xml =>
      var ents :- src.entities(path);
      Markup.ParseEntities(ents)
    case Tsv =>
      var rows :- src.rows(path);
      Tabular.ParseRows(rows)
    case Txt =>
      var text :- src.content(path);
      BlockText.ParseText(text)
    case Unsupported =>
      Success([])
  }

  /** The `for path in args.files` loop over any per-item parser: the
      records of every item, in order, stopping at the first item that fails. */
  function MergeAll<P>(xs: seq<P>, parse: P -> Result<seq<Address>, Error>): (r: Result<seq<Address>, Error>)
    ensures r.Success? <==> forall i :: 0 <= i < |xs| ==> parse(xs[i]).Success?
    ensures r.Failure? ==>
              exists i :: 0 <= i < |xs| && parse(xs[i]) == Failure(r.error)
                          && forall j :: 0 <= j < i ==> parse(xs[j]).Success?
  {
    if |xs| == 0 then
      Success([])
    else
      var first :- parse(xs[0]);
      var rest :- MergeAll(xs[1..], parse);
      assert forall j :: 1 <= j < |xs| ==> xs[1..][j - 1] == xs[j];
      Success(first + rest)
  }

  /** Merging two lists one after the other succeeds exactly when both do,
      and then gives the first list's records followed by the second's. */
  lemma {:induction false} MergeAppend<P>(p: seq<P>, q: seq<P>, parse: P -> Result<seq<Address>, Error>)
    ensures MergeAll(p + q, parse).Success? <==> MergeAll(p, parse).Success? && MergeAll(q, parse).Success?
    ensures MergeAll(p + q, parse).Success? ==>
              MergeAll(p + q, parse).value == MergeAll(p, parse).value + MergeAll(q, parse).value
    decreases |p|
  {
    if |p| == 0 {
      assert p + q == q;
    } else {
      assert (p + q)[0] == p[0];
      assert (p + q)[1..] == p[1..] + q;
      MergeAppend(p[1..], q, parse);
    }
  }

  lemma MergeSingle<P>(x: P, parse: P -> Result<seq<Address>, Error>)
    ensures MergeAll([x], parse) == parse(x)
  {
    assert [x][1..] == [];
    if parse(x).Success? {
      assert parse(x).value + [] == parse(x).value;
    }
  }

  /** The items `keep` accepts, in order. */
  function Kept<P(!new)>(xs: seq<P>, keep: P -> bool): (r: seq<P>)
    ensures forall x :: x in r <==> x in xs && keep(x)
  {
    if |xs| == 0 then []
    else (if keep(xs[0]) then [xs[0]] else []) + Kept(xs[1..], keep)
  }

  lemma {:induction false} KeptNone<P(!new)>(xs: seq<P>, keep: P -> bool)
    requires forall i :: 0 <= i < |xs| ==> !keep(xs[i])
    ensures Kept(xs, keep) == []
    decreases |xs|
  {
    if |xs| > 0 {
      KeptNone(xs[1..], keep);
    }
  }

  /** Items that parse to no records and cannot fail may be dropped
      without changing the merge. */
  lemma {:induction false} MergeSkipsEmpty<P(!new)>(xs: seq<P>, parse: P -> Result<seq<Address>, Error>, keep: P -> bool)
    requires forall x :: !keep(x) ==> parse(x) == Success([])
    ensures MergeAll(xs, parse) == MergeAll(Kept(xs, keep), parse)
    decreases |xs|
  {
    if |xs| > 0 {
      MergeSkipsEmpty(xs[1..], parse, keep);
      var rest := Kept(xs[1..], keep);
      if keep(xs[0]) {
        assert Kept(xs, keep) == [xs[0]] + rest;
        assert ([xs[0]] + rest)[1..] == rest;
      } else {
        assert Kept(xs, keep) == rest;
        assert MergeAll(xs, parse) == MergeAll(xs[1..], parse) by {
          assert parse(xs[0]) == Success([]);
          if MergeAll(xs[1..], parse).Success? {
            assert [] + MergeAll(xs[1..], parse).value == MergeAll(xs[1..], parse).value;
          }
        }
      }
    }
  }

  /** The records of every path, in argument order, stopping at the first
      path that fails. */
  function Collect(paths: seq<string>, src: Sources): (r: Result<seq<Address>, Error>)
    ensures r.Success? <==> forall i :: 0 <= i < |paths| ==> ParseFile(paths[i], src).Success?
    ensures r.Failure? ==>
              exists i :: 0 <= i < |paths| && ParseFile(paths[i], src) == Failure(r.error)
                          && forall j :: 0 <= j < i ==> ParseFile(paths[j], src).Success?
  {
    MergeAll(paths, p => ParseFile(p, src))
  }

  /** Two argument lists merge to the first's records followed by the
      second's, and fail exactly when one of them fails. */
  lemma CollectAppend(p: seq<string>, q: seq<string>, src: Sources)
    ensures Collect(p + q, src).Success? <==> Collect(p, src).Success? && Collect(q, src).Success?
    ensures Collect(p + q, src).Success? ==>
              Collect(p + q, src).value == Collect(p, src).value + Collect(q, src).value
  {
    MergeAppend(p, q, p => ParseFile(p, src));
  }

  /** One path on its own gives exactly what its parser gives. */
  lemma CollectSingle(path: string, src: Sources)
    ensures Collect([path], src) == ParseFile(path, src)
  {
    MergeSingle(path, p => ParseFile(p, src));
  }

  predicate Supported(path: string) {
    FormatOf(path) != Unsupported
  }

  /** Paths with an unsupported suffix neither add records nor stop the
      run: the merge is the same as over the supported paths alone. */
  lemma UnsupportedSkipped(paths: seq<string>, src: Sources)
    ensures Collect(paths, src) == Collect(Kept(paths, Supported), src)
  {
    MergeSkipsEmpty(paths, p => ParseFile(p, src), Supported);
  }

  /** The whole run: merge, then sort by zip. Any failing file fails the
      run, and nothing is kept from the files before it. On success the
      output is the merged records, sorted ascending by the zip string,
      with records of equal zip in merge order. */
  function Run(paths: seq<string>, src: Sources): (r: Result<seq<Address>, Error>)
    ensures r.Success? <==> forall i :: 0 <= i < |paths| ==> ParseFile(paths[i], src).Success?
    ensures r.Success? ==> Sorted(r.value)
    ensures r.Success? ==> multiset(r.value) == multiset(Collect(paths, src).value)
    ensures r.Success? ==> forall k :: WithKey(r.value, k) == WithKey(Collect(paths, src).value, k)
  {
    var merged :- Collect(paths, src);
    forall k ensures WithKey(SortByZip(merged), k) == WithKey(merged, k) {
      SortStable(merged, k);
    }
    Success(SortByZip(merged))
  }

  /** Whatever format it has, a file that parses yields records that name
      at most one of person and organisation. */
  lemma FileOneIdentity(path: string, src: Sources)
    requires ParseFile(path, src).Success?
    ensures forall a :: a in ParseFile(path, src).value ==> AtMostOneIdentity(a)
  {
    match FormatOf(path)
    case Xml =>
      Markup.ParsedEntitiesHaveOneIdentityAtMost(src.entities(path).value);
    case Tsv =>
      Tabular.ParsedRowsHaveOneIdentityAtMost(src.rows(path).value);
    case Txt =>
      BlockText.ParsedTextShaped(src.content(path).value);
    case Unsupported =>
  }

  /** A merge of items whose records each name at most one identity yields
      only such records. */
  lemma {:induction false} MergeOneIdentity<P>(xs: seq<P>, parse: P -> Result<seq<Address>, Error>)
    requires forall i :: 0 <= i < |xs| && parse(xs[i]).Success? ==>
               forall a :: a in parse(xs[i]).value ==> AtMostOneIdentity(a)
    ensures MergeAll(xs, parse).Success? ==>
              forall a :: a in MergeAll(xs, parse).value ==> AtMostOneIdentity(a)
    decreases |xs|
  {
    if |xs| > 0 && MergeAll(xs, parse).Success? {
      assert forall i :: 1 <= i < |xs| ==> xs[1..][i - 1] == xs[i];
      MergeOneIdentity(xs[1..], parse);
      assert MergeAll(xs, parse).value == parse(xs[0]).value + MergeAll(xs[1..], parse).value;
    }
  }

  /** Every record of a successful run names a person or an organisation,
      never both. */
  lemma RunAtMostOneIdentity(paths: seq<string>, src: Sources)
    requires Run(paths, src).Success?
    ensures forall a :: a in Run(paths, src).value ==> AtMostOneIdentity(a)
  {
    forall i | 0 <= i < |paths| && ParseFile(paths[i], src).Success?
      ensures forall a :: a in ParseFile(paths[i], src).value ==> AtMostOneIdentity(a)
    {
      FileOneIdentity(paths[i], src);
    }
    MergeOneIdentity(paths, p => ParseFile(p, src));
    var out, merged := Run(paths, src).value, Collect(paths, src).value;
    forall a | a in out ensures AtMostOneIdentity(a) {
      assert a in multiset(out);
      assert a in multiset(merged);
    }
  }

  /** With no paths, or only paths of unsupported formats, the run succeeds
      with no records. */
  lemma NothingSupportedNothingOut(paths: seq<string>, src: Sources)
    requires forall i :: 0 <= i < |paths| ==> !Supported(paths[i])
    ensures Run(paths, src) == Success([])
  {
    UnsupportedSkipped(paths, src);
    KeptNone(paths, Supported);
    assert Collect([], src) == Success([]);
  }
}
