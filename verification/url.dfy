/**
 * The part of the WHATWG URL Standard the wallpaper validator reads. The
 * parser itself (section 4.4 "URL parsing" of the URL Standard) is not
 * re-implemented: it is a parameter of every operation that needs it.
 */
module Url {
  import opened Wrappers

  /** What `new URL(input)` exposes to the validator: the `pathname` getter's
      value and, in order, the names of the pairs `searchParams` holds (the
      query parsed as application/x-www-form-urlencoded, section 5.1 of the
      URL Standard: split on `&`, name before the first `=`, `+` read as a
      space, percent-decoded). */
  datatype ParsedUrl = ParsedUrl(pathname: string, queryKeys: seq<string>)

  /** `new URL(input)` with no base URL; None stands for the TypeError the
      constructor throws when parsing returns failure. */
  type UrlParser = string -> Option<ParsedUrl>

  /** `URLSearchParams.prototype.has(name)`: some pair carries exactly this name. */
  predicate HasQueryKey(u: ParsedUrl, name: string) {
    name in u.queryKeys
  }

  /** A consequence of section 4.4 of the URL Standard that every conforming
      parser has: with no base URL, an input whose scheme is not terminated by
      `:` reaches the "no scheme state" and fails, so an input without any `:`
      never parses. */
  ghost predicate RejectsSchemeless(parse: UrlParser) {
    forall input :: ':' !in input ==> parse(input).None?
  }
}
