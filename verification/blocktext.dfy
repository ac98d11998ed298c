/** The plain-text parser (soln.py, `parse_txt`): blank-line separated
    blocks, each read by a fixed line layout. It works on the whole file
    content; reading the file is left to the caller. */
module BlockText {
  import opened Wrappers
  import opened Strings
  import opened Records

  const BlockSeparator := "\n\n"
  const LineSeparator := "\n"
  const CountyMarker := "COUNTY"

  /** The city, state and zip read from one line. */
  datatype Place = Place(city: string, state: string, zip: string)

  /** The name line: with a comma, every comma is removed and nothing is
      stripped; without one, the line is stripped. Either way no comma is left. */
  function NameFromLine(line: string): (r: string)
    ensures ',' !in r
    ensures ',' in line ==> r == Without(line, ',')
    ensures ',' !in line ==> r == Trim(line)
  {
    ContainsChar(line, ',');
    if Contains(line, ",") then
      RemoveCharIsWithout(line, ',');
      RemoveCharRemoves(line, ',');
      RemoveAll(line, ",")
    else
      TrimKeepsAbsent(line, ',');
      Trim(line)
  }

  /** A city/state/zip line the parser accepts: it has a comma, and the
      stripped text after the first comma holds a space. */
  predicate PlaceLineOk(line: string) {
    Contains(line, ",") && Contains(Trim(Split(line, ",")[1]), " ")
  }

  /** `line.split(',')`: the city is the stripped first part; the second
      part, stripped and split on single spaces, gives the state and the zip
      as its first two tokens, each stripped. A missing part or token fails. */
  function ParsePlace(line: string): (r: Result<Place, Error>)
    ensures r.Success? <==> PlaceLineOk(line)
    ensures r.Success? ==> r.value.city == Trim(Split(line, ",")[0])
    ensures r.Success? ==>
              var tokens := Split(Trim(Split(line, ",")[1]), " ");
              r.value.state == Trim(tokens[0]) && r.value.zip == Trim(tokens[1])
    ensures r.Success? ==> Trimmed(r.value.city) && Trimmed(r.value.state) && Trimmed(r.value.zip)
    ensures r.Success? ==> ',' !in r.value.city && ',' !in r.value.state && ',' !in r.value.zip
    ensures r.Success? ==> ' ' !in r.value.state && ' ' !in r.value.zip
  {
    var parts := Split(line, ",");
    if |parts| < 2 then
      Failure(MissingPart("text after the comma"))
    else
      var rest := Trim(parts[1]);
      var tokens := Split(rest, " ");
      if |tokens| < 2 then
        Failure(MissingPart("zip after the state"))
      else
        ContainsChar(parts[0], ',');
        ContainsChar(parts[1], ',');
        TrimKeepsAbsent(parts[0], ',');
        TrimKeepsAbsent(parts[1], ',');
        SplitPiecesLack(rest, " ", ',');
        ContainsChar(tokens[0], ' ');
        ContainsChar(tokens[1], ' ');
        TrimKeepsAbsent(tokens[0], ',');
        TrimKeepsAbsent(tokens[1], ',');
        TrimKeepsAbsent(tokens[0], ' ');
        TrimKeepsAbsent(tokens[1], ' ');
        Success(Place(Trim(parts[0]), Trim(tokens[0]), Trim(tokens[1])))
  }

  /** Whether the third line is a county line. */
  predicate HasCountyLine(lines: seq<string>)
    requires |lines| >= 3
  {
    Contains(lines[2], CountyMarker)
  }

  /** Reference condition for a block the parser accepts: three lines, a
      fourth when the third names a county, and a well-formed city/state/zip
      line at the fourth or third position accordingly. */
  predicate LaidOut(lines: seq<string>) {
    && |lines| >= 3
    && (HasCountyLine(lines) ==> |lines| >= 4 && PlaceLineOk(lines[3]))
    && (!HasCountyLine(lines) ==> PlaceLineOk(lines[2]))
  }

  /** The shape every record of a text file has: a comma-free name, no
      organisation or country, stripped street, city, state and zip, a
      comma-free city, and a state and zip that are single tokens. */
  predicate TextShaped(a: Address) {
    && a.name.Some? && ',' !in a.name.value
    && a.organization.None? && a.country.None?
    && a.street.Some? && Trimmed(a.street.value)
    && a.city.Some? && Trimmed(a.city.value) && ',' !in a.city.value
    && a.state.Some? && Trimmed(a.state.value) && ',' !in a.state.value && ' ' !in a.state.value
    && a.zip.Some? && Trimmed(a.zip.value) && ',' !in a.zip.value && ' ' !in a.zip.value
    && (a.county.Some? ==> Trimmed(a.county.value))
  }

  /** One block, as the body of the `parse_txt` loop reads it. An index past
      the end of the lines, comma parts or tokens fails. */
  function ParseBlock(block: string): (r: Result<Address, Error>)
    ensures r.Success? <==> LaidOut(Split(block, LineSeparator))
    ensures r.Success? ==> TextShaped(r.value)
    ensures r.Success? ==>
              var lines := Split(block, LineSeparator);
              && r.value.name == Some(NameFromLine(lines[0]))
              && r.value.street == Some(Trim(lines[1]))
    ensures r.Success? ==>
              var lines := Split(block, LineSeparator);
              && (r.value.county.Some? <==> HasCountyLine(lines))
              && (HasCountyLine(lines) ==>
                    && r.value.county == Some(Trim(RemoveAll(lines[2], CountyMarker)))
                    && ParsePlace(lines[3]) == Success(Place(r.value.city.value, r.value.state.value, r.value.zip.value)))
              && (!HasCountyLine(lines) ==>
                    ParsePlace(lines[2]) == Success(Place(r.value.city.value, r.value.state.value, r.value.zip.value)))
  {
    var lines := Split(block, LineSeparator);
    var name := NameFromLine(lines[0]);
    if |lines| < 2 then
      Failure(MissingLine(1))
    else
      var street := Trim(lines[1]);
      if |lines| < 3 then
        Failure(MissingLine(2))
      else
        var hasCounty := Contains(lines[2], CountyMarker);
        if hasCounty && |lines| < 4 then
          Failure(MissingLine(3))
        else
          var county := if hasCounty then Some(Trim(RemoveAll(lines[2], CountyMarker))) else None;
          var place :- ParsePlace(if hasCounty then lines[3] else lines[2]);
          Success(Address(
            name := Some(name),
            organization := None,
            street := Some(street),
            county := county,
            city := Some(place.city),
            state := Some(place.state),
            zip := Some(place.zip),
            country := None))
  }

  /** The blocks of a file: the stripped content split on blank lines. No
      block holds a blank line, the first block ends at the first blank line
      (there is one block exactly when there is none), and joining the blocks
      with blank lines gives back the stripped content. */
  function Blocks(content: string): (bs: seq<string>)
    ensures |bs| >= 1
    ensures forall k :: 0 <= k < |bs| ==> !Contains(bs[k], BlockSeparator)
    ensures |bs| == 1 <==> !Contains(Trim(content), BlockSeparator)
    ensures Contains(Trim(content), BlockSeparator) ==> Find(Trim(content), BlockSeparator) == Some(|bs[0]|)
    ensures Join(bs, BlockSeparator) == Trim(content)
  {
    Split(Trim(content), BlockSeparator)
  }

  /** `parse_txt` on the file content: one record per block, in block order;
      a block that does not fit the layout fails the whole file. */
  function ParseText(content: string): (r: Result<seq<Address>, Error>)
    ensures r.Success? <==> forall i :: 0 <= i < |Blocks(content)| ==> LaidOut(Split(Blocks(content)[i], LineSeparator))
    ensures r.Success? ==> |r.value| == |Blocks(content)|
    ensures r.Success? ==> forall i :: 0 <= i < |r.value| ==> ParseBlock(Blocks(content)[i]) == Success(r.value[i])
  {
    Traverse(Blocks(content), ParseBlock)
  }

  /** Every record parsed from a text file has the text-record shape. */
  lemma ParsedTextShaped(content: string)
    requires ParseText(content).Success?
    ensures forall a :: a in ParseText(content).value ==> TextShaped(a)
  {
    var bs := Blocks(content);
    var rs := ParseText(content).value;
    forall i | 0 <= i < |rs| ensures TextShaped(rs[i]) {
      var b := bs[i];
      assert ParseBlock(b) == Success(rs[i]);
    }
  }

  /** A file that is empty or only whitespace is one empty block, which has
      no street line, so the whole file fails. */
  lemma BlankTextFails(content: string)
    requires Trim(content) == ""
    ensures ParseText(content).Failure?
  {
    assert Blocks(content) == [""];
    assert Split("", LineSeparator) == [""];
  }

  /** A block written as lines without line breaks inside them reads back
      line by line; the third line decides whether there is a county. */
  lemma {:induction false} BlockOfLines(lines: seq<string>)
    requires |lines| >= 1
    requires forall k :: 0 <= k < |lines| ==> '\n' !in lines[k]
    ensures Split(Join(lines, LineSeparator), LineSeparator) == lines
  {
    SplitJoinChar(lines, '\n');
  }

  /** With a county line, the county is the third line without "COUNTY",
      stripped, and the city, state and zip come from the fourth line. */
  lemma CountyLineShifts(lines: seq<string>)
    requires |lines| >= 4 && Contains(lines[2], CountyMarker) && PlaceLineOk(lines[3])
    requires forall k :: 0 <= k < |lines| ==> '\n' !in lines[k]
    ensures var r := ParseBlock(Join(lines, LineSeparator));
            && r.Success?
            && r.value.county == Some(Trim(RemoveAll(lines[2], CountyMarker)))
            && ParsePlace(lines[3]) == Success(Place(r.value.city.value, r.value.state.value, r.value.zip.value))
  {
    BlockOfLines(lines);
  }

  /** Without a county line there is no county key, and the city, state and
      zip come from the third line. */
  lemma NoCountyLine(lines: seq<string>)
    requires |lines| >= 3 && !Contains(lines[2], CountyMarker) && PlaceLineOk(lines[2])
    requires forall k :: 0 <= k < |lines| ==> '\n' !in lines[k]
    ensures var r := ParseBlock(Join(lines, LineSeparator));
            && r.Success?
            && r.value.county.None?
            && ParsePlace(lines[2]) == Success(Place(r.value.city.value, r.value.state.value, r.value.zip.value))
  {
    BlockOfLines(lines);
  }

  /** A word: non-empty, with no whitespace and no comma. */
  predicate Word(w: string) {
    |w| > 0 && forall k :: 0 <= k < |w| ==> !IsSpace(w[k]) && w[k] != ','
  }

  lemma TrimPadded(mid: string)
    requires |mid| > 0 && !IsSpace(mid[0]) && !IsSpace(mid[|mid| - 1])
    ensures Trim(" " + mid) == mid
  {
    assert (" " + mid)[1..] == mid;
    TrimOfTrimmed(mid);
  }

  lemma SplitAtOnlyComma(head: string, tail: string)
    requires ',' !in head && ',' !in tail
    ensures Split(head + "," + tail, ",") == [head, tail]
  {
    SplitJoinChar([head, tail], ',');
    assert Join([head, tail], ",") == head + "," + tail;
  }

  lemma SplitDoubledSpace(a: string, b: string)
    requires ' ' !in a && ' ' !in b
    ensures Split(a + "  " + b, " ") == [a, "", b]
  {
    SplitJoinChar([a, "", b], ' ');
    assert Join([a, "", b], " ") == a + "  " + b;
  }

  lemma PlaceOfSplits(line: string, city: string, mid: string, state: string, zip: string)
    requires Split(line, ",") == [city, " " + mid]
    requires Trim(" " + mid) == mid
    requires Split(mid, " ") == [state, "", zip]
    requires Trimmed(city) && Trimmed(state)
    ensures ParsePlace(line) == Success(Place(city, state, ""))
  {
    TrimOfTrimmed(city);
    TrimOfTrimmed(state);
    assert Contains(line, ",");
    assert Contains(mid, " ");
  }

  /** Tokens come from splitting on single spaces, so a doubled space
      between state and zip makes the second token empty: the zip is "". */
  lemma DoubleSpaceEmptyZip(city: string, state: string, zip: string)
    requires Word(city) && Word(state) && Word(zip)
    ensures ParsePlace(city + ", " + state + "  " + zip) == Success(Place(city, state, ""))
  {
    var mid := state + "  " + zip;
    var rest := " " + mid;
    var line := city + "," + rest;
    assert line == city + ", " + state + "  " + zip;
    assert ',' !in rest by {
      assert forall k :: 0 <= k < |rest| ==> rest[k] != ',';
    }
    SplitAtOnlyComma(city, rest);
    assert |mid| > 0 && !IsSpace(mid[0]) && !IsSpace(mid[|mid| - 1]);
    TrimPadded(mid);
    assert ' ' !in state && ' ' !in zip;
    SplitDoubledSpace(state, zip);
    assert Trimmed(city) && Trimmed(state);
    PlaceOfSplits(line, city, mid, state, zip);
  }
}
