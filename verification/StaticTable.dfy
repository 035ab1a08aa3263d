/** The static table, Appendix A of RFC 7541. The bridge reads it out of its HPACK decoder. */
module StaticTable {
  import opened Octets

  type Header = (Bytes, Bytes)

  const STATIC_SIZE: nat := 61

  function Ascii(s: string): (b: Bytes)
    ensures |b| == |s|
  {
    seq(|s|, i requires 0 <= i < |s| => s[i] as int % 256)
  }

  function StaticName(index: nat): string {
    match index
    case 1 => ":authority"
    case 2 => ":method"
    case 3 => ":method"
    case 4 => ":path"
    case 5 => ":path"
    case 6 => ":scheme"
    case 7 => ":scheme"
    case 8 => ":status"
    case 9 => ":status"
    case 10 => ":status"
    case 11 => ":status"
    case 12 => ":status"
    case 13 => ":status"
    case 14 => ":status"
    case 15 => "accept-charset"
    case 16 => "accept-encoding"
    case 17 => "accept-language"
    case 18 => "accept-ranges"
    case 19 => "accept"
    case 20 => "access-control-allow-origin"
    case 21 => "age"
    case 22 => "allow"
    case 23 => "authorization"
    case 24 => "cache-control"
    case 25 => "content-disposition"
    case 26 => "content-encoding"
    case 27 => "content-language"
    case 28 => "content-length"
    case 29 => "content-location"
    case 30 => "content-range"
    case 31 => "content-type"
    case 32 => "cookie"
    case 33 => "date"
    case 34 => "etag"
    case 35 => "expect"
    case 36 => "expires"
    case 37 => "from"
    case 38 => "host"
    case 39 => "if-match"
    case 40 => "if-modified-since"
    case 41 => "if-none-match"
    case 42 => "if-range"
    case 43 => "if-unmodified-since"
    case 44 => "last-modified"
    case 45 => "link"
    case 46 => "location"
    case 47 => "max-forwards"
    case 48 => "proxy-authenticate"
    case 49 => "proxy-authorization"
    case 50 => "range"
    case 51 => "referer"
    case 52 => "refresh"
    case 53 => "retry-after"
    case 54 => "server"
    case 55 => "set-cookie"
    case 56 => "strict-transport-security"
    case 57 => "transfer-encoding"
    case 58 => "user-agent"
    case 59 => "vary"
    case 60 => "via"
    case _ => "www-authenticate"
  }

  function StaticValue(index: nat): string {
    match index
    case 2 => "GET"
    case 3 => "POST"
    case 4 => "/"
    case 5 => "/index.html"
    case 6 => "http"
    case 7 => "https"
    case 8 => "200"
    case 9 => "204"
    case 10 => "206"
    case 11 => "304"
    case 12 => "400"
    case 13 => "404"
    case 14 => "500"
    case 16 => "gzip, deflate"
    case _ => ""
  }

  function Static(index: nat): Header
    requires 1 <= index <= STATIC_SIZE
  {
    (Ascii(StaticName(index)), Ascii(StaticValue(index)))
  }
}
