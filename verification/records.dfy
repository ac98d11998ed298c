/** The canonical address record every parser produces, and the errors that
    abort a file. */
module Records {
  import opened Wrappers

  /** One output address. Each field is one key of the output dictionary;
      `None` means the key is absent. */
  datatype Address = Address(
    name: Option<string>,
    organization: Option<string>,
    street: Option<string>,
    county: Option<string>,
    city: Option<string>,
    state: Option<string>,
    zip: Option<string>,
    country: Option<string>)

  /** Why a file could not be normalised. Every one of them aborts the run. */
  datatype Error =
    | MissingElement(tag: string)      // a child element `find` did not find
    | ElementWithoutText(tag: string)  // a child element whose text is None, then stripped
    | MissingColumn(column: string)    // a row lookup of a column the row lacks
    | MissingLine(index: nat)          // a block line index past the end
    | MissingPart(what: string)        // a comma part or space token index past the end
    | Unreadable(path: string)         // the file could not be read or parsed by the library

  /** The record names a person or an organisation, but not both. */
  predicate AtMostOneIdentity(a: Address) {
    !(a.name.Some? && a.organization.Some?)
  }
}
