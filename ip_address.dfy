/**
 * The client address recorded with logins and sessions: the first entry
 * of `X-Forwarded-For` when a proxy set it, otherwise the address the
 * framework reports (`request.ip`), otherwise the socket's peer address.
 */
module IpAddress {
  import opened Base

  /** The header as Node delivers it: missing, one string, or one string per repeated header line. */
  datatype ForwardedHeader = Absent | Single(value: string) | Multiple(values: seq<string>)

  /** `s.split(',')[0]`: everything before the first comma, untrimmed. */
  function FirstEntry(s: string): (r: string)
    ensures |r| <= |s| && r == s[..|r|]
    ensures forall i :: 0 <= i < |r| ==> r[i] != ','
    ensures |r| < |s| ==> s[|r|] == ','
    decreases |s|
  {
    if s == [] || s[0] == ',' then []
    else [s[0]] + FirstEntry(s[1..])
  }

  /** A header without a comma is returned whole, with no trimming of blanks. */
  lemma NoCommaIsWhole(s: string)
    requires forall i :: 0 <= i < |s| ==> s[i] != ','
    ensures FirstEntry(s) == s
  {
  }

  /** With several comma-separated addresses, exactly the first one is taken. */
  lemma {:induction false} FirstOfList(first: string, rest: string)
    requires forall i :: 0 <= i < |first| ==> first[i] != ','
    ensures FirstEntry(first + "," + rest) == first
    decreases |first|
  {
    var s := first + "," + rest;
    if first != [] {
      assert s[0] == first[0] && s[1..] == first[1..] + "," + rest;
      FirstOfList(first[1..], rest);
      assert first == [first[0]] + first[1..];
    }
  }

  /**
   * The decorator: a present, non-empty header decides (an array header, even
   * an empty one, is truthy and yields its first element or nothing); otherwise
   * a non-empty `request.ip`, and failing that the remote address, possibly none.
   */
  function ClientIp(header: ForwardedHeader, ip: Option<string>, remoteAddress: Option<string>): (r: Option<string>)
    ensures header.Single? && header.value != "" ==> r == Some(FirstEntry(header.value))
    ensures header.Multiple? ==> r == (if header.values == [] then None else Some(header.values[0]))
    ensures header.Absent? || header == Single("") ==>
      r == (if ip.Some? && ip.value != "" then ip else remoteAddress)
    ensures r.Some? && header.Single? && header.value != "" ==> ',' !in r.value
  {
    match header
    case Multiple(values) => if values == [] then None else Some(values[0])
    case Single(value) =>
      if value != "" then Some(FirstEntry(value))
      else Fallback(ip, remoteAddress)
    case Absent => Fallback(ip, remoteAddress)
  }

  function Fallback(ip: Option<string>, remoteAddress: Option<string>): Option<string>
  {
    if ip.Some? && ip.value != "" then ip else remoteAddress
  }
}
