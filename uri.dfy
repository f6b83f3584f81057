/** Percent-decoding of URI components (`decodeURIComponent`, section 2.1
    of RFC 3986 followed by UTF-8 decoding). The decoder itself is not
    modelled: every operation that decodes takes it as a parameter. */
module Uri {
  import opened Wrappers

  /** The decoded text, or None where `decodeURIComponent` throws a URIError
      (a `%` not followed by two hex digits, or bytes that are not UTF-8). */
  type Decoder = string -> Option<string>
}
