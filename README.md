# Multi-IP forward proxy: a verified model of its request decisions

The proxy (`src/main.rs`) is a forward proxy built on the pingora engine.
It admits a request only when the `Proxy-Authorization` header equals
precomputed HTTP Basic credentials. Each admitted request advances a
round-robin counter over a pool of source addresses and is sent to the
upstream peer named by the request URI. At start-up the pool is parsed from
`IP_POOL`, and the pool, user name and password are checked.

The model is split into modules that follow the program's parts:

- `Strings`: the parts of Rust's string library the proxy relies on. These
  are `str::split(char)`, `str::trim` (with `char::is_whitespace`) and the
  decimal `Display` of a `u16`.
- `Utf8`: `str::as_bytes`, with a reference decoder.
- `Base64`: the `STANDARD` engine of the `base64` crate, with a reference
  decoder.
- `Config`: `ProxyConfig::parse_ip_pool` and `ProxyConfig::validate`. The
  value of `IP_POOL` is a parameter.
- `Target`: `extract_target_info` and `create_http_peer`. The answers of the
  URI parser are the fields of a `Uri` record.
- `Proxy`: the `MultiIPProxy` class. Its counter field is updated in place by
  `SelectNextIp`. It also holds the credential gate and the order of the
  engine's two callbacks.

Where the design of the proxy and its code differ, the model follows the code:

- `upstream_peer` takes the next source address before it reads the target
  from the URI (src/main.rs:124-125).
- The selected address is only logged and never reaches the peer. The
  `HttpPeer` built by `create_http_peer` has no bind address.
- Pool entries are trimmed and non-empty but are never checked to be IP
  addresses.
- The host is the whole authority text. When the authority names a port, as
  every CONNECT target does, the peer address repeats it: `h:p:p`
  (`Target.AuthorityPortRepeated`). A CONNECT URI has no scheme, so such a
  peer never uses TLS.
- The counter is a 64-bit `AtomicUsize` whose `fetch_add` wraps. Round robin
  therefore holds only between wrap-arounds unless the pool size divides
  2^64 (`Proxy.WrapRepeatsIndex`).
- The gate compares one Basic header, not a user name and a password. A user
  name containing ':' is indistinguishable from a shorter user name whose
  password starts with the rest (`Proxy.ColonInUserIsAmbiguous`). The pair is
  recovered exactly only for user names without ':'
  (`Proxy.HeaderDeterminesColonFreeUser`).

## Model

| member | source | states |
|---|---|---|
| `Strings.TrimStart` | src/main.rs:43 | the result is a suffix of the input, everything dropped is whitespace, and the result does not start with whitespace |
| `Strings.TrimEnd` | src/main.rs:43 | the result is a prefix of the input, everything dropped is whitespace, and the result does not end with whitespace |
| `Strings.Trim` | src/main.rs:43 | the result neither starts nor ends with whitespace, and it is empty exactly when the input is all whitespace |
| `Strings.TrimIsSlice` | src/main.rs:43 | the trimmed string is a contiguous slice of the input with only whitespace cut off on either side |
| `Strings.TrimKeepsCharacters` | src/main.rs:43 | trimming adds no character (so a field without ',' stays without ',') |
| `Strings.TrimIdempotent` | src/main.rs:43 | trimming a trimmed string changes nothing |
| `Strings.Split` | src/main.rs:42 | splitting yields at least one field, no field contains the separator, and joining the fields with the separator gives the input back |
| `Strings.SplitJoin` | src/main.rs:42 | splitting the join of separator-free fields gives exactly those fields |
| `Strings.SplitSingle` | src/main.rs:42 | a string without the separator is a single field |
| `Strings.SplitAppend` | src/main.rs:42 | the fields of `a,b` are the fields of `a` followed by the fields of `b` |
| `Strings.NatToDecimal` | src/main.rs:188 | the port is written as a non-empty run of decimal digits with no leading zero |
| `Strings.DecimalRoundTrip` | src/main.rs:188 | reading the decimal form back gives the number |
| `Strings.DecimalInjective` | src/main.rs:188 | different numbers have different decimal forms |
| `Utf8.Encode` | src/main.rs:90-91 | the UTF-8 bytes are at least as many as the characters |
| `Utf8.DecodeEncode` | src/main.rs:90-91 | decoding the UTF-8 bytes of a string gives the string back |
| `Utf8.EncodeInjective` | src/main.rs:90-91 | different strings have different UTF-8 bytes |
| `Utf8.EncodeAppend` | src/main.rs:90-91 | the bytes of a concatenation are the concatenation of the bytes |
| `Base64.Encode` | src/main.rs:91 | the padded encoding has four characters per started group of three bytes |
| `Base64.EncodeAlphabet` | src/main.rs:91 | the encoding uses only the 64 symbols of the standard alphabet and '=' |
| `Base64.DecodeEncode` | src/main.rs:91 | decoding the encoding gives the bytes back |
| `Base64.EncodeInjective` | src/main.rs:91 | different byte sequences have different encodings |
| `Config.NonBlankFieldsClean` | src/main.rs:43-44 | every kept field is non-empty, trimmed, and free of ',' when the fields are |
| `Config.ParseIpPool` | src/main.rs:39-46 | every pool entry is non-empty, has no leading or trailing whitespace and contains no ',' |
| `Config.ParseIpPoolUnset` | src/main.rs:40-41 | an unset `IP_POOL` gives the pool `["127.0.0.1"]` |
| `Config.ParseIpPoolField` | src/main.rs:43-44 | one field gives its trimmed form, or nothing when it is blank |
| `Config.ParseIpPoolAppend` | src/main.rs:42-45 | entries keep the input order: the pool of `a,b` is the pool of `a` followed by the pool of `b` |
| `Config.Validate` | src/main.rs:48-62 | `Ok` exactly when pool, user name and password are all non-empty; otherwise the message of the first failing check, in the order pool, user name, password |
| `Target.ExtractTargetInfo` | src/main.rs:168-185 | TLS exactly when the scheme is "https"; the host is the authority or "localhost"; the port is the URI's, else 443 with TLS and 80 without |
| `Target.CreateHttpPeer` | src/main.rs:187-190 | TLS flag and SNI name are passed through, and splitting the address at its last ':' gives back the host and the port |
| `Target.HostPortRoundTrip` | src/main.rs:188 | `host:port` splits back into the host, whatever colons it holds, and the port |
| `Target.AuthorityPortRepeated` | src/main.rs:170-188 | an authority that names its port yields the address `h:p:p` |
| `Target.EmptyUriDefaults` | src/main.rs:168-190 | a URI with no scheme, authority or port goes to `localhost` port 80 without TLS |
| `Proxy.CreateBasicAuthHeader` | src/main.rs:89-93 | the header is "Basic " followed by text that Base64-decodes to bytes that UTF-8-decode to `user:password` |
| `Proxy.SameHeaderIffSameCredentials` | src/main.rs:89-93 | two credential pairs give the same header exactly when they join to the same `user:password` |
| `Proxy.HeaderDeterminesColonFreeUser` | src/main.rs:89-93 | for user names without ':', equal headers mean equal user names and equal passwords, and conversely |
| `Proxy.ColonInUserIsAmbiguous` | src/main.rs:90 | user `a:b` with password `c` gets the same header as user `a` with password `b:c` |
| `Proxy.WrappingIncrement` | src/main.rs:96 | `fetch_add(1)` adds one below the largest 64-bit word and wraps the largest to 0 |
| `Proxy.IncrementIsModular` | src/main.rs:96 | a wrapping increment of `m` modulo 2^64 gives `m + 1` modulo 2^64, so after `k` calls from 0 the counter holds `k` modulo 2^64 |
| `Proxy.RotationIndex` | src/main.rs:97 | the index taken is always inside the pool |
| `Proxy.Rotation` | src/main.rs:95-99 | `k` calls hand out `k` addresses, call `i` getting the pool entry at the counter's value modulo the pool size |
| `Proxy.RotationFromZero` | src/main.rs:84-99 | from a fresh counter, call `i` gets the entry at `i` modulo the pool size, for the first 2^64 calls |
| `Proxy.RotationStep` | src/main.rs:95-99 | one more call appends the entry at the current counter value, and the counter advances by one wrapping increment |
| `Proxy.WindowServesEachIndexOnce` | src/main.rs:95-99 | any pool-size many consecutive calls that do not cross the wrap-around hand out each pool index exactly once |
| `Proxy.WrapRepeatsIndex` | src/main.rs:96-97 | with three addresses, the calls on either side of the wrap-around both get index 0 |
| `Proxy.TenRequestsOverThreeAddresses` | src/main.rs:95-99 | ten calls over three addresses hand out 1, 2, 3, 1, 2, 3, 1, 2, 3, 1 |
| `Proxy.MultiIPProxy.constructor` | src/main.rs:76-87 | the expected header is precomputed from the credentials and the counter starts at 0 with nothing handed out |
| `Proxy.MultiIPProxy.SelectNextIp` | src/main.rs:95-99 | returns the entry at the old counter modulo the pool size, advances the counter by one wrapping increment, and keeps the history equal to the rotation from 0 |
| `Proxy.MultiIPProxy.VerifyAuthentication` | src/main.rs:101-106 | true exactly when a header is present and equals the expected header character for character |
| `Proxy.MultiIPProxy.UpstreamPeer` | src/main.rs:119-134 | takes one address from the rotation, then returns the peer built from the URI alone |
| `Proxy.MultiIPProxy.HandleRequest` | src/main.rs:136-147 | a request is challenged exactly when its header does not verify, and then the counter is untouched; otherwise it is forwarded to the URI's peer and consumes one rotation slot |

## Left out

- `main`, `start_proxy_server`, `initialize_logger`, `log_startup_info` and `ProxyConfig::load_from_environment`: process start-up, environment reads and logging. `IP_POOL` is a parameter of `Config.ParseIpPool`. The defaults for `PROXY_USER`, `PROXY_PASS` and `LISTEN_ADDR` are not part of this model.
- `send_auth_required_response`, `logging` and `get_response_status`: writes and reads on the engine's session. The 407 answer is the `Challenged` outcome of `HandleRequest`.
- `extract_auth_header` and the `http::Uri` parser: the header is an `Option<string>` input. `authority()`, `scheme_str()` and `port_u16()` are the fields of `Target.Uri`. A header that is not visible ASCII, which `to_str` rejects, arrives as `None`.
- `HttpPeer::new` and the `ProxyHttp` trait plumbing belong to the engine and are not part of this model. The peer is the record of its three arguments.
- Atomic memory ordering and concurrent callers: each `SelectNextIp` call is one sequential step.
- `Proxy.MultiIPProxy.SelectNextIp`: requires a non-empty pool. On an empty pool the source divides by zero and panics; `validate` rejects that configuration before the proxy is built.
- `Proxy.MultiIPProxy.UpstreamPeer`: requires a non-empty pool, for the same reason.
- `Proxy.MultiIPProxy.HandleRequest`: requires a non-empty pool, for the same reason.
- `Proxy.WindowServesEachIndexOnce`: covers only windows that end before the counter wraps. Across the wrap the property fails unless the pool size divides 2^64.
- The round-robin history `served` is ghost state of the model; the source keeps no such history.
- `usize` is taken to be 64 bits wide.
- test-proxy.py is a client that talks to a live network service and is not part of this model.
