# Secret value codec of vault-backend-migrator

This project models `vault/client.go`, the thin wrapper the migrator puts
around the HashiCorp Vault client library. The wrapper converts between the
store's dynamically typed secrets and flat maps from field name to base64
text:

- `List` picks the names out of the `keys` array of a list response.
- `Read` turns each field of a secret into text and base64-encodes it. A
  string is used as is, a `json.Number` gives its literal text, and a bool
  gives `true` or `false`. Null, arrays, objects and any other kind give the
  empty string.
- `Write` base64-decodes every value. It gives up on the first corrupt value
  before the store is called. Otherwise it sends the decoded body and fails
  on a store error or on a reply without a secret.

Go strings are byte strings, so every string here is a `seq<uint8>`. Field
names are byte strings too. The store is never called. Each call's answer is
an input instead (`Api.Reply`): a secret or nil, and whether the call
returned an error. `Write` returns the body it hands to the store, or `None`
when it never calls the store.

Base64 is `base64.StdEncoding` of the Go standard library. That is the
padded alphabet of section 4 of RFC 4648. The encoding is not in strict mode,
so the decoder accepts a padded final quantum whose unused bits are not zero,
such as `Zh==` for `f`. `Base64.Decode` therefore accepts exactly the
well-formed strings (`IsBase64`). Only on the canonical strings (`IsCanonical`),
the ones `Encode` produces, is it the inverse of `Encode`.

Files: `wrappers.dfy` (Option), `bytes.dfy` (octets), `base64.dfy` (the codec
of the standard library), `api.dfy` (the library's reply shapes), `client.dfy`
(the operations of `vault/client.go`).

## Behaviour worth noting

The model follows three details of the code in `vault/client.go`:
- `List` returns nil, not an empty list, when the path is missing (vault/client.go:44-45, 59-60).
- `List` prints its failure diagnostic only when a failed call still returned
  a secret. The check for a nil secret comes first (vault/client.go:44-49; `logged` in `Vault.List`).
- `Read` does not drop a field of an unsupported kind. The field stays in the
  map with the empty string as its value (vault/client.go:89, 106-112).

## Model

| member | source | states |
|---|---|---|
| Vault.List | vault/client.go:42-60 | The result is present exactly when a secret came back, the call did not fail, and `Data["keys"]` is an array. It then holds every element's name in the array's order. The diagnostic is printed exactly when a failed call still returned a secret. |
| Vault.Read | vault/client.go:65-116 | The result is nil exactly when the store call failed. Otherwise its key set is the secret's field set, and it is empty when there is no secret or no data. A string field maps to base64 of the string, and a number to base64 of its text. A bool maps to base64 of `true` or `false`, and every other kind to the empty string. The diagnostic goes to exactly the array, object and other-typed fields, never to null ones. |
| Vault.Write | vault/client.go:119-139 | It fails with a corrupt-input error exactly when some value is not well-formed base64, and then the store is never called. Otherwise the body sent has the input's keys. Each key carries the octets its value decodes to, which re-encode to the value whenever the value is canonical. The call fails with the store's error when the store failed, and with a no-secret error when no secret came back. It succeeds only when neither happened. |
| Vault.ReadThenWrite | vault/client.go:89-128 | Writing what a successful `Read` returned always reaches the store. The store gets every field of the secret as its textual form: the string itself, the number's text, `true`/`false`, or empty for the other kinds. The result is never a corrupt-input error. |
| Base64.Encode | vault/client.go:111 | `EncodeToString` output is four characters for every started group of three octets. |
| Base64.DecodeEncode | vault/client.go:111-124 | `DecodeString(EncodeToString(b))` gives back `b` for every octet string. |
| Base64.EncodeDecode | vault/client.go:124 | A canonical string decodes, and re-encoding its octets gives the string back. |
| Base64.DecodeAcceptsExactlyBase64 | vault/client.go:124-127 | For input without line breaks, `DecodeString` fails exactly on strings that are not well-formed padded base64. Well-formed means a multiple of four alphabet characters, where `=` may stand only in the last one or two places. |
| Base64.EncodeIsCanonical | vault/client.go:111 | Every encoding is well formed, and its unused padding bits are zero. |
| Base64.KnownVectorsEncode | vault/client.go:111 | The encoder agrees with the test vectors of section 10 of RFC 4648 for `f`, `fo` and `foo`. |
| Base64.KnownVectorsDecode | vault/client.go:124 | The decoder agrees with those vectors. It accepts `Zh==` as `f` although that string is not canonical, and it rejects a short input and an input padded before its end. |

## Left out

- `NewClient` and `Client` (vault/client.go:15-38) are left out. They read the environment, construct the library client and print an advisory, which is I/O glue.
- The library's `Logical().List/Read/Write` calls are left out. Transport, authentication and JSON parsing happen inside a library that is not part of this model. Each call is replaced by its reply (`Api.Reply`).
- The text of the printed diagnostics is left out (vault/client.go:48, 70, 95, 107). `List` and `Read` model only whether a diagnostic is printed, and for which fields. The print after a failed `Read` call carries no information beyond the nil result.
- Vault.List: the panic of `r[i].(string)` on a non-string element of `keys` is a precondition (`KeysAreStrings`), not a modelled failure.
- Base64.Decode: Go's decoder skips embedded `\r` and `\n` characters. The model rejects them, so it covers only input without line breaks.
- Vault.Write: the map is walked in an unspecified order, as Go's is. The model says only that some corrupt value stops the call. It does not say which value, or the byte offset Go's `CorruptInputError` carries.
- Vault.Write: the error values carry a tag only. The store's own error and the message naming the path are not modelled.
