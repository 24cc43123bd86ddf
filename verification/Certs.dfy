/** A generated certificate. */
module Certs {
  import opened Bytes

  /** The certificate, the blob that replaces the original one, and the key. */
  datatype Cert = Cert(pub: seq<Byte>, mangled: seq<Byte>, priv: seq<Byte>)
}
