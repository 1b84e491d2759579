/**
 * The WebSocket handshake's origin rule: a request carrying an Origin
 * header is turned away only when a trusted-origin list is configured and
 * the header is not on it. An absent header reads as the empty string.
 */
module Origin {

  datatype Verdict = Accept | Reject(reason: string)

  /** Linear membership scan of the configured list. */
  function Contains(list: seq<string>, x: string): (found: bool)
    ensures found <==> x in list
  {
    if |list| == 0 then false
    else if list[0] == x then true
    else
      var rest := Contains(list[1..], x);
      assert list == [list[0]] + list[1..];
      rest
  }

  /** The handshake's accept/reject decision and its error text. */
  function Handshake(origin: string, trustedOrigins: seq<string>): (v: Verdict)
    ensures v.Reject? <==> origin != "" && |trustedOrigins| != 0 && origin !in trustedOrigins
    ensures v.Reject? ==> v.reason == "origin not allowed: " + origin
  {
    if origin != "" && |trustedOrigins| != 0 then
      if Contains(trustedOrigins, origin) then Accept
      else Reject("origin not allowed: " + origin)
    else Accept
  }
}
