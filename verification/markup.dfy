/** Normalisation of the ENT elements of a markup document (soln.py,
    `parse_xml`). The document parser and the `.//ENT` search belong to the
    library: an entity is given as what `find` returns for each child tag. */
module Markup {
  import opened Wrappers
  import opened Strings
  import opened Records

  /** What `ent.find(tag)` yields: no element, or an element whose text is
      None (empty element) or a string. */
  datatype Child = Missing | Present(text: Option<string>)

  /** One ENT element, by the child tags the normaliser reads. */
  datatype Entity = Entity(
    name: Child,
    company: Child,
    street: Child,
    street2: Child,
    street3: Child,
    city: Child,
    state: Child,
    postalCode: Child,
    country: Child)

  /** The stripped text of a child, with an empty or missing text read as "". */
  function Text(c: Child): string {
    match c
    case Present(Some(t)) => Trim(t)
    case _ => ""
  }

  predicate HasText(c: Child) {
    c.Present? && c.text.Some?
  }

  /** Reference condition for an entity the normaliser accepts: NAME, COMPANY
      and COUNTRY exist, STREET, CITY, STATE and POSTAL_CODE exist with text,
      and STREET_2 and STREET_3 are each absent or carry text. */
  predicate Readable(e: Entity) {
    && e.name.Present? && e.company.Present? && e.country.Present?
    && e.street2 != Present(None) && e.street3 != Present(None)
    && HasText(e.street) && HasText(e.city) && HasText(e.state) && HasText(e.postalCode)
  }

  /** NAME, COMPANY and COUNTRY: `.text.strip() if .text else ""`. Only a
      missing element fails. */
  function LenientText(c: Child, tag: string): (r: Result<string, Error>)
    ensures r.Success? <==> c.Present?
    ensures r.Success? ==> r.value == Text(c) && Trimmed(r.value)
  {
    match c
    case Missing => Failure(MissingElement(tag))
    case Present(None) => Success("")
    case Present(Some(t)) => Success(Trim(t))
  }

  /** STREET, CITY, STATE and POSTAL_CODE: `.text.strip()`, which fails on a
      missing element and on an element without text. */
  function StrictText(c: Child, tag: string): (r: Result<string, Error>)
    ensures r.Success? <==> HasText(c)
    ensures r.Success? ==> r.value == Text(c) && Trimmed(r.value)
  {
    match c
    case Missing => Failure(MissingElement(tag))
    case Present(None) => Failure(ElementWithoutText(tag))
    case Present(Some(t)) => Success(Trim(t))
  }

  /** STREET_2 and STREET_3: skipped when missing or blank, kept stripped
      otherwise; an element without text fails when it is stripped. */
  function ExtraStreet(c: Child, tag: string): (r: Result<Option<string>, Error>)
    ensures r.Success? <==> c != Present(None)
    ensures r.Success? ==> (r.value.Some? <==> Text(c) != "")
    ensures r.Success? && r.value.Some? ==> r.value.value == Text(c)
  {
    match c
    case Missing => Success(None)
    case Present(None) => Failure(ElementWithoutText(tag))
    case Present(Some(t)) => var s := Trim(t); Success(if s == "" then None else Some(s))
  }

  /** `postal_code.split(' -')[0]`: the text before the first " -", or all
      of it when there is none. */
  function CleanPostalCode(p: string): (z: string)
    ensures |z| <= |p| && z == p[..|z|]
    ensures !Contains(z, " -")
    ensures Contains(p, " -") ==> OccursAt(p, " -", |z|)
    ensures !Contains(p, " -") ==> z == p
  {
    Split(p, " -")[0]
  }

  /** Cleaning a cleaned postal code changes nothing. */
  lemma CleanPostalCodeIdempotent(p: string)
    ensures CleanPostalCode(CleanPostalCode(p)) == CleanPostalCode(p)
  {
  }

  /** A postal code made of a base without " -", then " -", then anything,
      is cleaned down to the base. */
  lemma CleanPostalCodeCut(base: string, rest: string)
    requires !Contains(base, " -")
    ensures CleanPostalCode(base + " -" + rest) == base
  {
    var p := base + " -" + rest;
    var z := CleanPostalCode(p);
    assert p[..|base|] == base;
    assert p[|base|..|base| + 2] == " -";
    assert OccursAt(p, " -", |base|);
    FirstCutAt(p, |base|, |z|);
  }

  /** Where the first " -" of `p` sits, given one at `n` and none before. */
  lemma FirstCutAt(p: string, n: nat, k: nat)
    requires n + 2 <= |p| && p[n] == ' ' && p[n + 1] == '-'
    requires !Contains(p[..n], " -")
    requires OccursAt(p, " -", k)
    requires k <= |p| && !Contains(p[..k], " -")
    ensures k == n
  {
    if k + 2 <= n {
      OccursInPrefix(p, " -", k, n);
      assert false;
    } else if k == n - 1 {
      OccursEnds(p, " -", k);
      assert false;
    } else if k == n + 1 {
      OccursEnds(p, " -", k);
      assert false;
    } else if k >= n + 2 {
      OccursInPrefix(p, " -", n, k);
      assert false;
    }
  }

  /** The extra street lines the entity keeps, in order. */
  function KeptExtraStreets(a: Option<string>, b: Option<string>): seq<string> {
    (if a.Some? then [a.value] else []) + (if b.Some? then [b.value] else [])
  }

  /** One entity as the body of the `parse_xml` loop builds it. Errors come
      in the order the source evaluates the children. */
  function NormalizeEntity(e: Entity): (r: Result<Address, Error>)
    ensures r.Success? <==> Readable(e)
    ensures r.Success? ==> AtMostOneIdentity(r.value)
    ensures r.Success? ==> (r.value.name.Some? <==> Text(e.name) != "")
    ensures r.Success? && r.value.name.Some? ==> r.value.name.value == Text(e.name)
    ensures r.Success? ==> (r.value.organization.Some? <==> Text(e.name) == "" && Text(e.company) != "")
    ensures r.Success? && r.value.organization.Some? ==> r.value.organization.value == Text(e.company)
    ensures r.Success? ==>
              r.value.street == Some(Join([Text(e.street)] + NonEmpty([Text(e.street2), Text(e.street3)]), " "))
    ensures r.Success? ==> r.value.city == Some(Text(e.city)) && r.value.state == Some(Text(e.state))
    ensures r.Success? ==> r.value.zip.Some? && r.value.zip.value == CleanPostalCode(Text(e.postalCode))
    ensures r.Success? ==> r.value.county.None?
    ensures r.Success? ==> (r.value.country.Some? <==> Text(e.country) != "")
    ensures r.Success? && r.value.country.Some? ==> r.value.country.value == Text(e.country)
  {
    var name :- LenientText(e.name, "NAME");
    var company :- LenientText(e.company, "COMPANY");
    var street2 :- ExtraStreet(e.street2, "STREET_2");
    var street3 :- ExtraStreet(e.street3, "STREET_3");
    var street :- StrictText(e.street, "STREET");
    var city :- StrictText(e.city, "CITY");
    var state :- StrictText(e.state, "STATE");
    var postal :- StrictText(e.postalCode, "POSTAL_CODE");
    var country :- LenientText(e.country, "COUNTRY");
    NonEmptyPair(Text(e.street2), Text(e.street3));
    Success(Address(
      name := if name != "" then Some(name) else None,
      organization := if name == "" && company != "" then Some(company) else None,
      street := Some(Join([street] + KeptExtraStreets(street2, street3), " ")),
      county := None,
      city := Some(city),
      state := Some(state),
      zip := Some(CleanPostalCode(postal)),
      country := if country != "" then Some(country) else None))
  }

  /** `parse_xml`: one record per entity, in document order; any entity the
      normaliser rejects fails the whole file. */
  function ParseEntities(ents: seq<Entity>): (r: Result<seq<Address>, Error>)
    ensures r.Success? <==> forall i :: 0 <= i < |ents| ==> Readable(ents[i])
    ensures r.Success? ==> |r.value| == |ents|
    ensures r.Success? ==> forall i :: 0 <= i < |ents| ==> NormalizeEntity(ents[i]) == Success(r.value[i])
  {
    Traverse(ents, NormalizeEntity)
  }

  /** Every record of a parsed document names at most one of person and
      organisation. */
  lemma ParsedEntitiesHaveOneIdentityAtMost(ents: seq<Entity>)
    requires ParseEntities(ents).Success?
    ensures forall a :: a in ParseEntities(ents).value ==> AtMostOneIdentity(a)
  {
    var rs := ParseEntities(ents).value;
    forall a | a in rs ensures AtMostOneIdentity(a) {
      var i :| 0 <= i < |rs| && rs[i] == a;
      assert NormalizeEntity(ents[i]) == Success(a);
    }
  }

  /** An entity whose NAME and COMPANY are both blank gets neither identity
      key, although the record schema asks for exactly one. */
  lemma BlankIdentityGivesNeither(e: Entity)
    requires Readable(e) && Text(e.name) == "" && Text(e.company) == ""
    ensures NormalizeEntity(e).Success?
    ensures NormalizeEntity(e).value.name.None? && NormalizeEntity(e).value.organization.None?
  {
  }

  /** A blank STREET next to a kept STREET_2 or STREET_3 still takes its
      place in the join, so the street starts with the separating space. */
  lemma BlankStreetLeadingSpace(e: Entity)
    requires Readable(e) && Text(e.street) == "" && Text(e.street2) != ""
    ensures NormalizeEntity(e).Success?
    ensures NormalizeEntity(e).value.street ==
              Some(" " + Join(NonEmpty([Text(e.street2), Text(e.street3)]), " "))
  {
    var kept := NonEmpty([Text(e.street2), Text(e.street3)]);
    NonEmptyPair(Text(e.street2), Text(e.street3));
    assert |kept| > 0;
    JoinAppend([""], kept, " ");
    assert Join([""], " ") == "";
    assert Join([""] + kept, " ") == " " + Join(kept, " ");
    assert [Text(e.street)] + kept == [""] + kept;
    assert NormalizeEntity(e).value.street == Some(Join([""] + kept, " "));
  }
}
