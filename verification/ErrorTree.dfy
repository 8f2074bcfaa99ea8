/** Go error values: a kind, the text Error() returns, and the errors Unwrap() leads to. */
module ErrorTree {
  import opened Bytes

  /** The dynamic types the delivery code asks about. */
  datatype Kind =
    | ProtocolError(code: int)                                       // *textproto.Error
    | SmtpError(code: int)                                           // *smtp.SMTPError
    | DnsError(isNotFound: bool, isTimeout: bool, isTemporary: bool) // *net.DNSError
    | NetError                                                       // any other net.Error
    | CertificateError                                               // *tls.CertificateVerificationError
    | HostnameError(dnsNames: Option<seq<bytes>>)                    // x509.HostnameError, with its certificate
    | SqliteError(code: int)                                         // *sqlite.Error
    | OtherError

  /** `inner` is empty, one wrapped error, or the errors that were joined. */
  datatype Error = Error(kind: Kind, text: bytes, inner: seq<Error>)

  /** The type of errors.As's target. */
  datatype Target = AsProtocol | AsSmtp | AsDns | AsNet | AsCertificate | AsHostname | AsSqlite

  predicate Matches(k: Kind, t: Target) {
    match t
    case AsProtocol => k.ProtocolError?
    case AsSmtp => k.SmtpError?
    case AsDns => k.DnsError?
    case AsNet => k.NetError? || k.DnsError?
    case AsCertificate => k.CertificateError?
    case AsHostname => k.HostnameError?
    case AsSqlite => k.SqliteError?
  }

  /** errors.As: the first match in depth-first preorder. */
  function As(e: Error, t: Target): (r: Option<Error>)
    ensures r.Some? ==> Matches(r.value.kind, t)
    decreases e, 1
  {
    if Matches(e.kind, t) then Some(e) else AsAny(e.inner, t)
  }

  function AsAny(es: seq<Error>, t: Target): (r: Option<Error>)
    ensures r.Some? ==> Matches(r.value.kind, t)
    decreases es, 0
  {
    if es == [] then None
    else
      match As(es[0], t)
      case Some(k) => Some(k)
      case None => AsAny(es[1..], t)
  }

  /** Some error of the given type lies in the tree. */
  predicate Contains(e: Error, t: Target)
    decreases e
  {
    Matches(e.kind, t) || exists i :: 0 <= i < |e.inner| && Contains(e.inner[i], t)
  }

  /** errors.As succeeds exactly when the tree holds an error of the type, however deep. */
  lemma {:induction false} AsIff(e: Error, t: Target)
    ensures As(e, t).Some? <==> Contains(e, t)
    decreases e, 1
  {
    AsAnyIff(e.inner, t);
  }

  lemma {:induction false} AsAnyIff(es: seq<Error>, t: Target)
    ensures AsAny(es, t).Some? <==> exists i :: 0 <= i < |es| && Contains(es[i], t)
    decreases es, 0
  {
    if es != [] {
      AsIff(es[0], t);
      AsAnyIff(es[1..], t);
      assert forall i :: 0 < i < |es| ==> es[i] == es[1..][i - 1];
    }
  }

  function Wrap(text: bytes, e: Error): Error {
    Error(OtherError, text, [e])
  }

  /** errors.Join. */
  function Join(a: Error, b: Error): Error {
    Error(OtherError, a.text + [0x0A] + b.text, [a, b])
  }

  /** A reply code in the permanent class. */
  predicate Is5xx(code: int) { 500 <= code <= 599 }

  /** isPermanentSMTPResponse. */
  predicate IsPermanentSmtpResponse(e: Error) {
    As(e, AsProtocol).Some? && Is5xx(As(e, AsProtocol).value.kind.code)
  }
}
