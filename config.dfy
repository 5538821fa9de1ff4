/** The server's fixed configuration (src/lib.rs). */
module Config {

  /** Listening address; used only by the listener, which is not part of this model. */
  const BIND_ADDR: string := "127.0.0.1:8080"
  /** Document root, relative to the working directory. */
  const DOC_ROOT: string := "./html/"
  /** File served for a request target of exactly `/`. */
  const DEFAULT_INDEX: string := "index.html"
  /** Declared but never used by the server. */
  const NOTFOUND_PAGE: string := "404.html"
  /** The protocol version of every parsed request and every response (RFC 2616). */
  const HTTP_PROTO_VERSION: string := "HTTP/1.1"
  /** Length of the connection handler's read buffer, in bytes: the array literal `[0; 1024]` of src/lib.rs:46, which has no named constant. */
  const BUF_SIZE: nat := 1024
}
