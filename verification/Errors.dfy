/** The ways a CMS operation can fail. */
module Errors {
  import opened Bytes
  import Ber

  datatype CmsError =
    | BerFailure(e: Ber.BerError)
    | BadAsn1               // any error of encoding/asn1
    | TrailingData
    | WrongType
    | Unsupported
    | NoCertificate
    | BadClassOrTag
    | BadAttributeCount
    | BadElementCount
    | CertificateAlreadyAdded
    | AlreadyDetached
    | DetachedSignature
    | NotDetached
    | NoSignatures
    | MissingSignedAttrs
    | MissingContent
    | ContentTypeMismatch
    | DigestMismatch
    | BadSignature
    | CertificateExpired
    | ChainRejected
    | ImprintMismatch
    | KeyFailure            // the key could not be marshalled or the signer refused
    | ResponseFailure       // no usable answer from the timestamp service
    | NilDereference        // a Go run-time panic, not an error value

  type Outcome<+T> = Result<T, CmsError>
}
