/** Normalisation of the rows of a tab-separated file (soln.py,
    `parse_tsv`). Reading the file and splitting it into rows keyed by the
    header belong to the library: a row is given as a column-to-value map. */
module Tabular {
  import opened Wrappers
  import opened Strings
  import opened Records

  /** One data row, keyed by the header's column names. */
  type Row = map<string, string>

  /** The value the `organization` column holds for a person. */
  const PersonSentinel := "N/A"

  /** `row[col]`, failing when the row has no such column. */
  function Column(row: Row, col: string): (r: Result<string, Error>)
    ensures r.Success? <==> col in row
    ensures r.Success? ==> r.value == row[col]
  {
    if col in row then Success(row[col]) else Failure(MissingColumn(col))
  }

  /** Reference condition for a row the normaliser accepts: the columns it
      always reads, plus the three name columns for a person. */
  predicate HasColumns(row: Row) {
    && "organization" in row && "address" in row && "county" in row
    && "city" in row && "state" in row && "zip" in row && "zip4" in row
    && (row["organization"] == PersonSentinel ==> "first" in row && "middle" in row && "last" in row)
  }

  /** A person's name: the stripped first, middle and last names that are
      not blank, joined by single spaces. It is trimmed, and empty only when
      all three are blank. */
  function FullName(first: string, middle: string, last: string): (r: string)
    ensures Trimmed(r)
    ensures r == "" <==> Trim(first) == "" && Trim(middle) == "" && Trim(last) == ""
  {
    var f, m, l := Trim(first), Trim(middle), Trim(last);
    var parts := [f, m, l];
    assert Trimmed(f) && Trimmed(m) && Trimmed(l);
    JoinNonBlankTrimmed(parts);
    assert (forall k :: 0 <= k < |parts| ==> parts[k] == "") <==> f == "" && m == "" && l == "" by {
      assert parts[0] == f && parts[1] == m && parts[2] == l;
    }
    Join(NonEmpty(parts), " ")
  }

  /** When no stripped name holds a space, the words of the name are the
      non-blank stripped first, middle and last names, in that order: each
      separated from the next by exactly one space. */
  lemma FullNameWords(first: string, middle: string, last: string)
    requires ' ' !in Trim(first) && ' ' !in Trim(middle) && ' ' !in Trim(last)
    ensures FullName(first, middle, last) != "" ==>
              Split(FullName(first, middle, last), " ") == NonEmpty([Trim(first), Trim(middle), Trim(last)])
  {
    var xs := [Trim(first), Trim(middle), Trim(last)];
    var parts := NonEmpty(xs);
    assert FullName(first, middle, last) == Join(parts, " ");
    if |parts| > 0 {
      forall k | 0 <= k < |parts| ensures ' ' !in parts[k] {
        assert parts[k] in xs;
      }
      SplitJoinChar(parts, ' ');
    }
  }

  /** The name columns of a person's row, combined by `FullName`. */
  function PersonName(row: Row): (r: Result<string, Error>)
    ensures r.Success? <==> "first" in row && "middle" in row && "last" in row
    ensures r.Success? ==> r.value == FullName(row["first"], row["middle"], row["last"])
  {
    var first :- Column(row, "first");
    var middle :- Column(row, "middle");
    var last :- Column(row, "last");
    Success(FullName(first, middle, last))
  }

  /** The `county` key: absent exactly when the raw value is "", stripped
      otherwise. A row without the column fails, since `row.get` then yields
      None, which differs from "", and the lookup that follows raises. */
  function County(row: Row): (r: Result<Option<string>, Error>)
    ensures r.Success? <==> "county" in row
    ensures r.Success? ==> (r.value.Some? <==> row["county"] != "")
    ensures r.Success? && r.value.Some? ==> r.value.value == Trim(row["county"])
  {
    if "county" in row && row["county"] == "" then
      Success(None)
    else
      var c :- Column(row, "county");
      Success(Some(Trim(c)))
  }

  /** The zip, extended to ZIP+4 when the raw zip4 value is not "": the
      stripped zip, then, for a non-empty zip4, a hyphen and the stripped zip4. */
  function ZipPlus4(zip: string, zip4: string): (r: string)
    ensures zip4 == "" ==> r == Trim(zip)
    ensures zip4 != "" ==>
              |r| == |Trim(zip)| + 1 + |Trim(zip4)|
              && r[..|Trim(zip)|] == Trim(zip)
              && r[|Trim(zip)|] == '-'
              && r[|Trim(zip)| + 1..] == Trim(zip4)
  {
    if zip4 != "" then Trim(zip) + "-" + Trim(zip4) else Trim(zip)
  }

  /** The `zip` key of a row; `zip4` is looked up first, as the source's
      conditional expression tests it before reading `zip`. */
  function Zip(row: Row): (r: Result<string, Error>)
    ensures r.Success? <==> "zip" in row && "zip4" in row
    ensures r.Success? ==> r.value == ZipPlus4(row["zip"], row["zip4"])
  {
    var zip4 :- Column(row, "zip4");
    var zip :- Column(row, "zip");
    Success(ZipPlus4(zip, zip4))
  }

  /** One row as the body of the `parse_tsv` loop builds it. Errors come in
      the order the source looks the columns up. */
  function NormalizeRow(row: Row): (r: Result<Address, Error>)
    ensures r.Success? <==> HasColumns(row)
    ensures r.Success? ==> AtMostOneIdentity(r.value)
    ensures r.Success? && row["organization"] != PersonSentinel ==>
              r.value.name.None? && r.value.organization == Some(row["organization"])
    ensures r.Success? && row["organization"] == PersonSentinel ==>
              r.value.organization.None?
              && r.value.name == Some(FullName(row["first"], row["middle"], row["last"]))
    ensures r.Success? ==> r.value.street == Some(Trim(row["address"]))
    ensures r.Success? ==> r.value.city == Some(Trim(row["city"])) && r.value.state == Some(Trim(row["state"]))
    ensures r.Success? ==> (r.value.county.Some? <==> row["county"] != "")
    ensures r.Success? && r.value.county.Some? ==> r.value.county.value == Trim(row["county"])
    ensures r.Success? ==> r.value.zip == Some(ZipPlus4(row["zip"], row["zip4"]))
    ensures r.Success? ==> r.value.country.None?
  {
    var org :- Column(row, "organization");
    var name :- if org != PersonSentinel then Success(None) else
                  var n :- PersonName(row); Success(Some(n));
    var street :- Column(row, "address");
    var county :- County(row);
    var city :- Column(row, "city");
    var state :- Column(row, "state");
    var zip :- Zip(row);
    Success(Address(
      name := name,
      organization := if org != PersonSentinel then Some(org) else None,
      street := Some(Trim(street)),
      county := county,
      city := Some(Trim(city)),
      state := Some(Trim(state)),
      zip := Some(zip),
      country := None))
  }

  /** `parse_tsv`: one record per row, in file order; any row the normaliser
      rejects fails the whole file. */
  function ParseRows(rows: seq<Row>): (r: Result<seq<Address>, Error>)
    ensures r.Success? <==> forall i :: 0 <= i < |rows| ==> HasColumns(rows[i])
    ensures r.Success? ==> |r.value| == |rows|
    ensures r.Success? ==> forall i :: 0 <= i < |rows| ==> NormalizeRow(rows[i]) == Success(r.value[i])
  {
    Traverse(rows, NormalizeRow)
  }

  /** Every record of a parsed tab-separated file names at most one of
      person and organisation. */
  lemma ParsedRowsHaveOneIdentityAtMost(rows: seq<Row>)
    requires ParseRows(rows).Success?
    ensures forall a :: a in ParseRows(rows).value ==> AtMostOneIdentity(a)
  {
    var rs := ParseRows(rows).value;
    forall a | a in rs ensures AtMostOneIdentity(a) {
      var i :| 0 <= i < |rs| && rs[i] == a;
      assert NormalizeRow(rows[i]) == Success(a);
    }
  }

  /** A file with a header and no data rows contributes no records. */
  lemma NoRowsNoRecords()
    ensures ParseRows([]) == Success([])
  {
  }

  /** The ZIP+4 rule on already stripped values: a non-empty zip4 is
      appended after a hyphen, as in "94105" and "1234" giving
      "94105-1234", and an empty one leaves the zip alone. */
  lemma ZipPlus4OfStripped(zip: string, zip4: string)
    requires Trimmed(zip) && Trimmed(zip4)
    ensures zip4 != "" ==> ZipPlus4(zip, zip4) == zip + "-" + zip4
    ensures zip4 == "" ==> ZipPlus4(zip, zip4) == zip
  {
    TrimOfTrimmed(zip);
    TrimOfTrimmed(zip4);
  }

  /** A zip4 of only blanks still counts as present, since the test looks at
      the raw value: the zip ends in a bare hyphen. */
  lemma BlankZip4KeepsHyphen(zip: string, zip4: string)
    requires zip4 != "" && AllSpace(zip4)
    ensures ZipPlus4(zip, zip4) == Trim(zip) + "-"
  {
    var i := TrimIsMiddle(zip4);
  }
}
