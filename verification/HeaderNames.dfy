/** The header names the program knows by heart, in canonical and in lower-case form. */
module HeaderNames {
  import opened Text

  /** name is a token in canonical form, and lower is its lower-case form. */
  lemma KnownName(name: string, lower: string)
    requires |name| == |lower|
    requires forall i :: 0 <= i < |name| ==> IsTokenChar(name[i])
    requires forall i :: 0 <= i < |name| ==> lower[i] == LowerChar(name[i])
    requires forall i :: 0 <= i < |name| ==> CapitalAt(name, i) == name[i]
    ensures Canonical(name) == name && ToLower(name) == lower && IsToken(name)
  {
    assert Capitalize(name) == name;
    assert ToLower(name) == lower;
  }

  datatype Name = Connection | KeepAlive | TransferEncoding | ContentLength | XForwardedFor | Host | Date | Server

  function Canon(k: Name): string {
    match k
    case Connection => "Connection"
    case KeepAlive => "Keep-Alive"
    case TransferEncoding => "Transfer-Encoding"
    case ContentLength => "Content-Length"
    case XForwardedFor => "X-Forwarded-For"
    case Host => "Host"
    case Date => "Date"
    case Server => "Server"
  }

  function Lower(k: Name): string {
    match k
    case Connection => "connection"
    case KeepAlive => "keep-alive"
    case TransferEncoding => "transfer-encoding"
    case ContentLength => "content-length"
    case XForwardedFor => "x-forwarded-for"
    case Host => "host"
    case Date => "date"
    case Server => "server"
  }

  lemma TableTokens(k: Name)
    ensures forall i :: 0 <= i < |Canon(k)| ==> IsTokenChar(Canon(k)[i])
  {
  }

  lemma TableCapitals(k: Name)
    ensures forall i :: 0 <= i < |Canon(k)| ==> CapitalAt(Canon(k), i) == Canon(k)[i]
  {
  }

  lemma TableLowerLong(k: Name)
    requires k.TransferEncoding? || k.ContentLength? || k.XForwardedFor?
    ensures |Lower(k)| == |Canon(k)|
    ensures forall i :: 0 <= i < |Canon(k)| ==> Lower(k)[i] == LowerChar(Canon(k)[i])
  {
  }

  lemma TableLowerShort(k: Name)
    requires !(k.TransferEncoding? || k.ContentLength? || k.XForwardedFor?)
    ensures |Lower(k)| == |Canon(k)|
    ensures forall i :: 0 <= i < |Canon(k)| ==> Lower(k)[i] == LowerChar(Canon(k)[i])
  {
  }

  /** Every name of the table is a token in canonical form with that lower-case form. */
  lemma Known(k: Name)
    ensures Canonical(Canon(k)) == Canon(k) && ToLower(Canon(k)) == Lower(k) && IsToken(Canon(k))
  {
    hide Canonical, ToLower, IsToken, Canon, Lower, IsTokenChar, CapitalAt, LowerChar;
    TableTokens(k);
    TableCapitals(k);
    if k.TransferEncoding? || k.ContentLength? || k.XForwardedFor? { TableLowerLong(k); } else { TableLowerShort(k); }
    KnownName(Canon(k), Lower(k));
  }
}
