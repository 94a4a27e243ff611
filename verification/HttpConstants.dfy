/** The constants of libhttp-cpp/include/http_constants.h that the models use. */
module HttpConstants {

  datatype Method = OPTIONS | GET | HEAD | POST | PUT | DELETE | TRACE | CONNECT

  const METHODS: seq<(string, Method)> := [
    ("OPTIONS", OPTIONS), ("GET", GET), ("HEAD", HEAD), ("POST", POST),
    ("PUT", PUT), ("DELETE", DELETE), ("TRACE", TRACE), ("CONNECT", CONNECT)]

  const GENERAL_HEADER: seq<string> := [
    "Cache-Control", "Connection", "Date", "Pragma", "Trailer", "Transfer-Encoding", "Upgrade", "Via", "Warning"]

  const REQUEST_HEADER: seq<string> := [
    "Accept", "Accept-Charset", "Accept-Encoding", "Accept-Language", "Authorization", "Expect", "From", "Host",
    "If-Match", "If-Modified-Since", "If-None-Match", "If-Range", "If-Unmodified-Since", "Max-Forwards",
    "Proxy-Authorization", "Range", "Referer", "TE", "User-Agent"]
}
