/** `vault/client.go`: `List`, `Read` and `Write`, the codec between the
    store's dynamically typed secrets and flat maps of base64 strings. The
    store call of each operation is replaced by its reply, given as an input;
    `Write` reports the body it would hand to the store, or `None` when it
    never calls the store. */
module Vault {
  import opened Wrappers
  import opened Bytes
  import opened Api
  import Base64

  /** `map[string]string` of base64 text, as `Read` returns and `Write` takes. */
  type EncodedRecord = map<Bytes, Bytes>

  /** The field of a list response that holds the names. */
  function KeysField(): Bytes { Ascii("keys") }

  function TrueText(): Bytes { Ascii("true") }

  function FalseText(): Bytes { Ascii("false") }

  // ------------------------------------------------------------------- List

  /** The condition under which `List` finds a names array: a secret came
      back, the call did not fail, and `Data["keys"]` is a JSON array. */
  predicate HasKeysArray(reply: Reply) {
    && reply.secret.Some?
    && !reply.failed
    && reply.secret.value.data.Some?
    && KeysField() in reply.secret.value.data.value
    && reply.secret.value.data.value[KeysField()].Arr?
  }

  /** The `r[i].(string)` assertion panics on any other element, so callers
      must only list paths whose names are strings. */
  predicate KeysAreStrings(reply: Reply) {
    HasKeysArray(reply) ==>
      var items := reply.secret.value.data.value[KeysField()].items;
      forall i :: 0 <= i < |items| ==> items[i].Str?
  }

  /** `List`: the names of the `keys` array in their order, or `None` (a nil
      slice) when there is no secret, the call failed, or there is no array.
      `logged` says whether it prints its "Unable to read path" diagnostic,
      which it only reaches when a failed call still returned a secret. */
  method List(reply: Reply) returns (names: Option<seq<Bytes>>, logged: bool)
    requires KeysAreStrings(reply)
    ensures names.Some? <==> HasKeysArray(reply)
    ensures names.Some? ==>
      var items := reply.secret.value.data.value[KeysField()].items;
      && |names.value| == |items|
      && forall i :: 0 <= i < |items| ==> items[i] == Str(names.value[i])
    ensures logged <==> reply.secret.Some? && reply.failed
  {
    if reply.secret.None? {
      return None, false;
    }
    if reply.failed {
      return None, true;
    }
    var data := reply.secret.value.data;
    if data.None? || KeysField() !in data.value || !data.value[KeysField()].Arr? {
      return None, false;
    }
    var items := data.value[KeysField()].items;
    var out: seq<Bytes> := [];
    var i := 0;
    while i < |items|
      invariant 0 <= i <= |items|
      invariant |out| == i
      invariant forall j :: 0 <= j < i ==> items[j] == Str(out[j])
    {
      out := out + [items[i].s];
      i := i + 1;
    }
    names, logged := Some(out), false;
  }

  // ------------------------------------------------------------------- Read

  /** The fields `Read` walks: those of the secret's `Data`, or none when the
      store returned no secret or a secret without data. */
  function Fields(reply: Reply): map<Bytes, Value> {
    if reply.secret.Some? && reply.secret.value.data.Some? then reply.secret.value.data.value
    else map[]
  }

  /** The kinds `Read` knows how to turn into text. */
  predicate IsTextual(v: Value) {
    v.Str? || v.Num? || v.Bool?
  }

  /** The kinds that reach the `default` branch of `Read`'s type switch and
      get a diagnostic; a nil value skips the switch silently. */
  predicate IsReported(v: Value) {
    v.Arr? || v.Obj? || v.Other?
  }

  /** `r` in `Read`: the text a field is encoded from. */
  function TextOf(v: Value): Bytes {
    match v
    case Str(s) => s
    case Num(t) => t
    case Bool(b) => if b then TrueText() else FalseText()
    case _ => []
  }

  /** `Read`: `None` (a nil map) when the call failed; otherwise one base64
      entry per field of the secret, the empty string for the kinds it cannot
      represent. `reported` holds the fields it prints a diagnostic for. */
  method Read(reply: Reply) returns (out: Option<EncodedRecord>, reported: set<Bytes>)
    ensures out.None? <==> reply.failed
    ensures out.None? ==> reported == {}
    ensures out.Some? ==> out.value.Keys == Fields(reply).Keys
    ensures out.Some? ==> forall k :: k in Fields(reply) && Fields(reply)[k].Str? ==>
      out.value[k] == Base64.Encode(Fields(reply)[k].s)
    ensures out.Some? ==> forall k :: k in Fields(reply) && Fields(reply)[k].Num? ==>
      out.value[k] == Base64.Encode(Fields(reply)[k].text)
    ensures out.Some? ==> forall k :: k in Fields(reply) && Fields(reply)[k] == Bool(true) ==>
      out.value[k] == Base64.Encode(TrueText())
    ensures out.Some? ==> forall k :: k in Fields(reply) && Fields(reply)[k] == Bool(false) ==>
      out.value[k] == Base64.Encode(FalseText())
    ensures out.Some? ==> forall k :: k in Fields(reply) && !IsTextual(Fields(reply)[k]) ==>
      out.value[k] == []
    ensures forall k :: k in reported <==> out.Some? && k in Fields(reply) && IsReported(Fields(reply)[k])
  {
    if reply.failed {
      return None, {};
    }
    var fields := Fields(reply);
    var m: EncodedRecord := map[];
    reported := {};
    var pending := fields.Keys;
    while pending != {}
      invariant pending <= fields.Keys
      invariant m.Keys == fields.Keys - pending
      invariant forall k :: k in m ==> m[k] == Base64.Encode(TextOf(fields[k]))
      invariant forall k :: k in reported <==> k in m && IsReported(fields[k])
      decreases pending
    {
      var k :| k in pending;
      var v := fields[k];
      var r: Bytes := [];
      if v != Null {
        match v
        case Str(s) => r := s;
        case Num(t) => r := t;
        case Bool(b) => r := if b then TrueText() else FalseText();
        case _ => reported := reported + {k};
      }
      m := m[k := Base64.Encode(r)];
      pending := pending - {k};
    }
    out := Some(m);
  }

  // ------------------------------------------------------------------ Write

  /** Why `Write` fails: a value that is not base64 (before any store call),
      an error from the store, or a store that answered without a secret. */
  datatype WriteError = CorruptInput | StoreFailed | NoSecretReturned

  /** `Write`: decode every value, giving up on the first corrupt one without
      calling the store; otherwise send the decoded body and check the reply.
      `sent` is the body handed to the store, `None` when it is never called. */
  method Write(data: EncodedRecord, reply: Reply) returns (sent: Option<map<Bytes, Bytes>>, err: Option<WriteError>)
    ensures err == Some(CorruptInput) <==> exists k :: k in data && !Base64.IsBase64(data[k])
    ensures sent.None? <==> err == Some(CorruptInput)
    ensures sent.Some? ==> sent.value.Keys == data.Keys
    ensures sent.Some? ==> forall k :: k in data ==> Base64.Decode(data[k]) == Some(sent.value[k])
    ensures sent.Some? ==> forall k :: k in data && Base64.IsCanonical(data[k]) ==> Base64.Encode(sent.value[k]) == data[k]
    ensures sent.Some? ==> (err == Some(StoreFailed) <==> reply.failed)
    ensures sent.Some? ==> (err == Some(NoSecretReturned) <==> !reply.failed && reply.secret.None?)
    ensures err.None? <==> sent.Some? && !reply.failed && reply.secret.Some?
  {
    var body: map<Bytes, Bytes> := map[];
    var pending := data.Keys;
    while pending != {}
      invariant pending <= data.Keys
      invariant body.Keys == data.Keys - pending
      invariant forall k :: k in body ==> Base64.Decode(data[k]) == Some(body[k])
      decreases pending
    {
      var k :| k in pending;
      match Base64.Decode(data[k])
      case None =>
        Base64.DecodeAcceptsExactlyBase64(data[k]);
        return None, Some(CorruptInput);
      case Some(b) =>
        body := body[k := b];
      pending := pending - {k};
    }
    forall k | k in data
      ensures Base64.IsBase64(data[k])
      ensures Base64.IsCanonical(data[k]) ==> Base64.Encode(body[k]) == data[k]
    {
      Base64.DecodeAcceptsExactlyBase64(data[k]);
      if Base64.IsCanonical(data[k]) {
        Base64.EncodeDecode(data[k]);
      }
    }
    sent := Some(body);
    if reply.failed {
      err := Some(StoreFailed);
    } else if reply.secret.None? {
      err := Some(NoSecretReturned);
    } else {
      err := None;
    }
  }

  // ------------------------------------------------------------- round trip

  /** `Read` followed by `Write` of its result: the store is sent every field
      of the secret, each as its textual form, and the only failures left are
      the store's own. */
  method ReadThenWrite(source: Reply, target: Reply) returns (sent: Option<map<Bytes, Bytes>>, err: Option<WriteError>)
    requires !source.failed
    ensures sent.Some? && sent.value.Keys == Fields(source).Keys
    ensures forall k :: k in Fields(source) && Fields(source)[k].Str? ==> sent.value[k] == Fields(source)[k].s
    ensures forall k :: k in Fields(source) && Fields(source)[k].Num? ==> sent.value[k] == Fields(source)[k].text
    ensures forall k :: k in Fields(source) && Fields(source)[k] == Bool(true) ==> sent.value[k] == TrueText()
    ensures forall k :: k in Fields(source) && Fields(source)[k] == Bool(false) ==> sent.value[k] == FalseText()
    ensures forall k :: k in Fields(source) && !IsTextual(Fields(source)[k]) ==> sent.value[k] == []
    ensures err != Some(CorruptInput)
  {
    var encoded, _ := Read(source);
    var fields, data := Fields(source), encoded.value;
    forall k | k in data
      ensures Base64.Decode(data[k]) == Some(TextOf(fields[k]))
      ensures Base64.IsBase64(data[k])
    {
      var v := fields[k];
      assert data[k] == Base64.Encode(TextOf(v)) by {
        if v.Bool? {
          assert v == Bool(true) || v == Bool(false);
        }
      }
      Base64.DecodeEncode(TextOf(v));
      Base64.DecodeAcceptsExactlyBase64(data[k]);
    }
    sent, err := Write(data, target);
    assert forall k :: k in fields ==> sent.value[k] == TextOf(fields[k]);
  }
}
