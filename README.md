# cloudflare-workers-acme-dns, modelled in Dafny

The repository is a single Cloudflare Worker (`index.js`). It serves ACME DNS-01
clients. `POST /register` issues a fresh user name, which is also the client's
subdomain, together with a password. The password is the HMAC-SHA256 of the user
name under a shared secret, in unpadded base64url. `POST /update` checks the
`X-Api-User`/`X-Api-Key` headers against the JSON body `{subdomain, txt}`. On
success it asks the Cloudflare API to create a TXT record
`<subdomain>.<DOMAIN_SUFFIX>`. A scheduled sweep deletes every listed TXT record
created more than ten minutes ago.

This project models the deterministic logic under that glue:

- `TextEncoding`: the UTF-8 encoding `TextEncoder.encode` applies (RFC 3629). It
  proves that equal encodings of an ASCII string and any other string mean
  equal strings.
- `Base64`: `Uint8Array.prototype.toBase64` with its `alphabet` and
  `omitPadding` options, following sections 4 and 5 of RFC 4648.
- `Credential`: covers `generateHMAC`, the `replace` chain on index.js:14,
  `timingSafeEqual` and `verifyHMAC`. HMAC-SHA256 is a function-typed parameter
  `mac`. The main results:
  - the replace chain turns padded standard base64 into unpadded base64url;
  - verification accepts a claim exactly when it is the issued credential.
- `Json`: the parsed request body. It covers property lookup, JavaScript
  truthiness and the string conversion of a template literal, including the
  case where that conversion throws.
- `Worker`: `handleRegister`, `handleUpdate` and `fetch` as pure functions. The
  `randomUUID` value and the provider's answer to the create call are inputs. An
  `Outcome` reports the response, and the create request issued, if any.
- `Cleanup`: the stale filter and the early exits of `cleanupStaleRecords`. Dates
  are integer milliseconds, and an unparsable date is `None`.

Behaviour of index.js worth knowing, all of it modelled:

- The registration response carries the fields `username`, `password`,
  `fulldomain`, `subdomain` and `allowfrom`.
- The sweep deletes every listed TXT record older than ten minutes. It does not
  check what the record belongs to.
- A JSON body that is literally `null` is not replaced by `{}`: the `catch` on
  index.js:47 only handles a parse failure. Reading `body.subdomain` then throws
  a `TypeError`, which the model reports as `Threw`.
- If `txt` is an object with its own `toString` member (at any depth inside
  arrays), `${body.txt}` on index.js:92 throws inside the `try`. The handler
  then answers 500 without calling the provider.

## Model

| member | source | states |
|---|---|---|
| `TextEncoding.EncodeAscii` | index.js:19-21 | an ASCII string encodes to one byte per character, byte i being code point i |
| `TextEncoding.EncodeInjectiveOnAscii` | index.js:19-21 | if the encoding of any string equals that of an ASCII string, the two strings are equal |
| `Base64.UnitsShape` | index.js:14 | unpadded base 64 of n bytes has ceil(4n/3) characters, all from the chosen alphabet, ASCII, none `=` |
| `Base64.PaddedShape` | index.js:14 | padded standard base 64 (what `toBase64()` returns) has length 4*ceil(n/3); its `=` are exactly the positions after the data characters |
| `Credential.ReplaceAll` | index.js:14 | `replace(/x/g, y)` keeps the length and replaces exactly the x characters, position by position |
| `Credential.StripTrailing` | index.js:14 | `replace(/c+$/, '')` yields a prefix that does not end in c, and what it removes is all c |
| `Credential.UrlSafe` | index.js:14 | for any string: no `+` or `/` remains, the result does not end in `=`, kept characters keep their positions (translated), and exactly the maximal trailing `=` run is removed |
| `Credential.UnitsTranslate` | index.js:14 | substituting `-` for `+` and `_` for `/` in standard base 64 units gives the base64url units |
| `Credential.StripPadding` | index.js:14 | stripping trailing c from x + (all-c padding) gives x back when x holds no c |
| `Credential.UrlSafeIsBase64Url` | index.js:14 | the replace chain applied to `toBase64()` equals `toBase64({alphabet: "base64url", omitPadding: true})` |
| `Credential.GenerateHmac` | index.js:2-15 | the credential is unpadded base64url of HMAC(secret, message), ASCII, without `=`, ceil(4n/3) characters (43 for a 32-byte digest), UTF-8 length equal to its length |
| `Credential.DifferenceZero` | index.js:21 | the or-of-xors accumulator over equal-length byte sequences is zero iff the sequences are equal |
| `Credential.TimingSafeEqual` | index.js:21 | on equal lengths (the built-in throws otherwise), the result is true iff the byte sequences are equal |
| `Credential.VerifyHmac` | index.js:17-22 | a claim whose UTF-8 length differs from the expected credential is rejected, and the result is true iff the claim equals `generateHMAC(message, secret)` |
| `Credential.VerifyIssued` | index.js:17-22 | round trip: the credential issued for a message always verifies for it |
| `Json.ToText` | index.js:92 | `${value}` fails exactly when some object reachable through arrays has its own `toString` member; a string converts to itself |
| `Json.JoinItems` | index.js:92 | joining array elements from index i fails exactly when one of those elements' conversion fails |
| `Worker.UnparsedBodyRejected` | index.js:47-56 | a body that fails to parse is answered 400 "bad request" with no provider call |
| `Worker.HandleRegister` | index.js:24-42 | status 201, no provider call, subdomain = username = the UUID, fulldomain = UUID + "." + suffix, password = `generateHMAC(UUID, secret)` (which verifies), allowfrom the two open CIDR ranges |
| `Worker.HandleUpdate` | index.js:44-120 | throws only on a `null` body; 400 "bad request" iff a field is missing/falsy or the user differs from `subdomain`; 401 "unauthorized" iff those pass but the key is not the issued credential; the create call is made iff all three guards pass and `${txt}` does not throw, for the TXT record subdomain + "." + suffix with content `"txt"` and ttl 1; 200 (echoing txt) iff the provider succeeds; 500 "internal server error" iff the guards pass and either the conversion throws (no create call) or the provider fails |
| `Worker.Fetch` | index.js:181-200 | `POST /register` and `POST /update` reach their handlers; a 404 `{error: "Not found"}` with no provider call comes back iff the method/path is neither |
| `Worker.RegisteredPassesGuards` | index.js:49-75 | the name and password issued at registration, with a body naming that subdomain and a truthy txt, pass all three guards (assumes a non-empty digest) |
| `Worker.RegisterThenUpdate` | index.js:24-120 | after registration, an update with the issued name and password, a body naming that subdomain and a truthy txt passes every guard: it creates the record for the registered fulldomain and answers 200 or 500 as the provider does, or answers 500 with no create call when `${txt}` throws (assumes a non-empty digest, as HMAC-SHA256's 32 bytes are) |
| `Worker.TxtWithToStringMember` | index.js:80-119 | an authenticated update whose `txt` is `{"toString": 1}` is answered 500 with no create call |
| `Cleanup.SelectStale` | index.js:146-147 | every selected record is stale (`created_on < now - 600000`), and each stale record is selected exactly as many times as it is listed |
| `Cleanup.SelectStaleKeepsOrder` | index.js:147 | the selection is an order-preserving subsequence of the listing |
| `Cleanup.SelectStaleMonotone` | index.js:146-147 | a later sweep over the same listing selects a superset, in the same order |
| `Cleanup.CleanupStaleRecords` | index.js:140-150 | a failed listing, an empty listing and no stale record are the three early exits; deletion happens iff some listed record is stale, and targets the filter's result |
| `Cleanup.DeletesExactlyStale` | index.js:140-171 | the ids sent DELETE are exactly those of listed stale records; a failed or empty listing deletes nothing |
| `Cleanup.BoundaryExample` | index.js:146-147 | with ages 5, 9, 10, 11 and 60 minutes only the 11- and 60-minute records are selected; one exactly ten minutes old stays |

## Left out

- HMAC-SHA256 and `crypto.subtle.importKey`/`sign` (index.js:6-13) are foreign cryptography. They are the parameter `mac`. Only `Worker.RegisteredPassesGuards`, `Worker.RegisterThenUpdate` and `Worker.TxtWithToStringMember` assume anything of it: that the digest is non-empty, as HMAC-SHA256's 32 bytes are (with an empty digest the issued password is empty and `!password` at index.js:49 answers 400). The model does not capture that `importKey` rejects an empty `HMAC_SECRET`, nor any cryptographic strength.
- The constant-time behaviour of `timingSafeEqual` is not modelled, because timing cannot be expressed. Only its result is modelled, through the xor/or accumulator.
- `crypto.randomUUID` (index.js:25) is randomness. Its value is the parameter `uuid`.
- The Cloudflare API calls (index.js:81-97, 122-138, 156-166), JSON response parsing, `Response` headers and `JSON.stringify` are network I/O. The create call's result is the input `provider`. A thrown exception and a falsy `success` are both `false`.
- The runtime's reply to an exception thrown by a handler (the `null` body case) is outside the worker. The model stops at `Threw`.
- The `Promise.all` fan-out of deletions (index.js:154-171) is concurrency, and so are the results of the DELETE calls. Only the ids targeted are modelled.
- `listRecords` is network I/O. Its result is the input `listing`. A truthy `result` that is not an array, and the `per_page=3500` cap on one listing, are not modelled.
- `Date` parsing and `Date.now()` are replaced by integer milliseconds. The range limits of `Date` are not modelled.
- JSON numbers are integers in `Json`. The model does not capture fractions and exponents, or their `String()` forms.
- Json.ToText: prints a number as its exact decimal. JavaScript holds JSON numbers as doubles: it rounds integers beyond 2^53 to the nearest double (`9007199254740993` prints as `9007199254740992`), and it prints 10^21 and above in exponent form (`1e+21`). For such a `txt` the model's record content differs from the source's.
- `Json.Property` covers only the two keys the handler reads. No built-in prototype defines them, so lookup of inherited members is not modelled.
- Body strings with unpaired surrogates (a `txt` such as `"\ud800"`, which `JSON.parse` accepts) cannot be represented, because a Dafny `char` is a Unicode scalar value; header values are decoded from bytes and cannot hold them.
- `console.log` logging is left out.
- `eslint.config.js` is lint configuration with no behaviour.
