/** The exception classes of errors.py and the HTTP status each carries. */
module Errors {

  datatype ErrorClass =
    | ConfigError
    | InvalidCredential
    | UntrustedDelegationRoot
    | ScopeEscalation
    | BrokenDelegationLink
    | DelegationDepthExceeded
    | CredentialReplay
    | CredentialNotYetValid
    | CredentialExpired
    | CredentialRevoked
    | RevocationStatusUnknown
    | InvalidRevocation
    | HolderProofInvalid
    | AttestationFailed
    | SealedChannelError
    | ProvenanceLinkBroken
    | TraceDigestUnsupported
    | TraceRecordInvalid
    | ScopeNotPermitted
    | TransportError
    | ResponseAuthenticationFailed
    | PyValueError

  /** `http_status`. `PyValueError` is Python's own ValueError and carries none. */
  function HttpStatus(e: ErrorClass): (s: int)
    ensures e != PyValueError ==> 400 <= s <= 599
  {
    match e
    case ConfigError => 500
    case InvalidCredential => 400
    case UntrustedDelegationRoot => 403
    case ScopeEscalation => 403
    case BrokenDelegationLink => 409
    case DelegationDepthExceeded => 403
    case CredentialReplay => 409
    case CredentialNotYetValid => 403
    case CredentialExpired => 403
    case CredentialRevoked => 403
    case RevocationStatusUnknown => 503
    case InvalidRevocation => 400
    case HolderProofInvalid => 401
    case AttestationFailed => 412
    case SealedChannelError => 500
    case ProvenanceLinkBroken => 409
    case TraceDigestUnsupported => 501
    case TraceRecordInvalid => 422
    case ScopeNotPermitted => 403
    case TransportError => 400
    case ResponseAuthenticationFailed => 400
    case PyValueError => 0
  }
}
