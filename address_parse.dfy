/**
 * `parse_ipv6_addr`: parse the address text directly, and only when that
 * fails parse the repaired text instead. The standard library's IPv6 parser
 * is a parameter: what it accepts is not part of this model.
 */
module AddressParse {
  import opened Bytes
  import opened Wrappers
  import opened AddressRepair

  /** The error `parse_ipv6_addr` reports: the text it was given and the
      repaired text it tried. */
  datatype ParseError = ParseError(original: Bytes, tried: Bytes)

  /** `parse_ipv6_addr(s)`, with `parse` in the place of `str::parse::<Ipv6Addr>`. */
  function ParseIpv6Addr<A>(parse: Bytes -> Option<A>, s: Bytes): (r: Result<A, ParseError>)
    ensures r.Ok? <==> parse(s).Some? || parse(Repaired(s)).Some?
    ensures parse(s).Some? ==> r == Ok(parse(s).value)
    ensures parse(s).None? && r.Ok? ==> r.value == parse(Repaired(s)).value
    ensures r.Err? ==> r.error == ParseError(s, Repaired(s))
  {
    match parse(s)
    case Some(v) => Ok(v)
    case None =>
      var fixed := Repaired(s);
      match parse(fixed)
      case Some(v) => Ok(v)
      case None => Err(ParseError(s, fixed))
  }

  /** When the direct parse succeeds the repaired text is never consulted:
      two parsers that agree on `s` give the same result, whatever they do
      with the repaired text. */
  lemma DirectParseWins<A>(parse: Bytes -> Option<A>, other: Bytes -> Option<A>, s: Bytes)
    requires parse(s).Some? && other(s) == parse(s)
    ensures ParseIpv6Addr(other, s) == ParseIpv6Addr(parse, s) == Ok(parse(s).value)
  {
  }

  /** When both parses fail, feeding the repaired text back in cannot help:
      its repair is itself, so the retry fails naming the repaired text twice. */
  lemma RetryAfterFailure<A>(parse: Bytes -> Option<A>, s: Bytes)
    requires ParseIpv6Addr(parse, s).Err?
    ensures ParseIpv6Addr(parse, Repaired(s)) == Err(ParseError(Repaired(s), Repaired(s)))
  {
    RepairedIdempotent(s);
  }

  /** A successful parse of the repaired text is a successful parse of the
      original text, with the same address, whenever the original does not
      parse directly. */
  lemma RepairedParseAgrees<A>(parse: Bytes -> Option<A>, s: Bytes)
    requires parse(s).None? && ParseIpv6Addr(parse, Repaired(s)).Ok?
    ensures ParseIpv6Addr(parse, s) == ParseIpv6Addr(parse, Repaired(s))
  {
    RepairedIdempotent(s);
  }
}
