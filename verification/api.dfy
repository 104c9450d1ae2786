/** The shapes the Go client library hands back to `vault/client.go`. The
    library itself (transport, authentication, JSON parsing) is not part of
    this model: its answers are inputs. */
module Api {
  import opened Wrappers
  import opened Bytes

  /** The dynamic type of one field of a secret, as the library decodes the
      store's JSON with numbers kept as `json.Number`. */
  datatype Value =
    | Str(s: Bytes)                   // string
    | Num(text: Bytes)                // json.Number: the number's literal text
    | Bool(b: bool)                   // bool
    | Null                            // JSON null, the nil interface value
    | Arr(items: seq<Value>)          // []interface{}
    | Obj(fields: map<Bytes, Value>)  // map[string]interface{}
    | Other                           // any other dynamic type, a float64 for one

  /** `*api.Secret`: only its `Data` map is used, and that map may be nil. */
  datatype Secret = Secret(data: Option<map<Bytes, Value>>)

  /** The `(secret, err)` pair a `Logical().List/Read/Write` call returns:
      the secret pointer may be nil, and `failed` says whether `err != nil`. */
  datatype Reply = Reply(secret: Option<Secret>, failed: bool)
}
