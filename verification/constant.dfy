/** The content-type names of src/constant.rs, as the bytes of their text. */
module Constant {
  import opened Bytes

  const APPLICATION_X_WWW_FORM_URLENCODED: bytes := Ascii("application/x-www-form-urlencoded")
  const MULTIPART_FORM_DATA: bytes := Ascii("multipart/form-data")
  const APPLICATION_JSON: bytes := Ascii("application/json")
  const APPLICATION_OCTET_STREAM: bytes := Ascii("application-octet-stream")
  const TEXT_HTML: bytes := Ascii("text/html")
  const TEXT_CSS: bytes := Ascii("text/css")
  const TEXT_JAVASCRIPT: bytes := Ascii("text/javascript")
  const TEXT_PLAIN: bytes := Ascii("text/plain")
}
