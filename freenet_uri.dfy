/** The part of Freenet's URI library that the result grouping relies on.
    The library is foreign code, so its operations are not defined here: a
    caller supplies them as a `UriLib` record, and every property proved
    about the grouping holds for any such record. */
module FreenetUri {
  import opened Options
  import opened JavaStrings

  /** Java's `long`. */
  const LongMin: int := -0x8000_0000_0000_0000
  const LongMax: int := 0x7FFF_FFFF_FFFF_FFFF
  type Long = x: int | LongMin <= x <= LongMax

  /** The operations of a parsed URI of type `U`:
      - `parse`: `new FreenetURI(s)`, `None` where it throws `MalformedURLException`;
      - `isSSKForUSK`, `uskForSSK`, `edition`: the USK view of an SSK URI;
      - `siteString`: `setMetaString(null).setSuggestedEdition(0).toString()`;
      - `shortString`: `toShortString()`;
      - `text`: `toString()`. */
  datatype UriLib<!U> = UriLib(
    parse: string -> Option<U>,
    isSSKForUSK: U -> bool,
    uskForSSK: U -> U,
    edition: U -> Long,
    siteString: U -> string,
    shortString: U -> string,
    text: U -> string)

  /** The site key of a URI: its string form without meta strings and with
      edition 0, with the first "/0" removed. */
  function SiteBase<U>(lib: UriLib<U>, u: U): string {
    RemoveFirst(lib.siteString(u), "/0")
  }
}
