/** The document transform: `deidentify` replaces the declared PII fields of
    a document with tokens and saves each token's ciphertext; `reidentify`
    puts the decrypted plaintext back.

    Each transform is given twice: as a function over values (`Deidentified`,
    `Reidentified`), which the theorems in `PseudonymizerProofs` are about,
    and as a method that runs the source's loop over the declared keys against
    a `MappingStore` object and is proved to compute that function. */
module Pseudonymizer {
  import opened Wrappers
  import opened Security
  import opened Storage

  /** A JSON value as the Python code sees it after parsing. */
  datatype Value =
    | Null
    | Str(s: string)
    | Num(n: int)
    | Bool(b: bool)
    | List(items: seq<Value>)
    | Dict(fields: map<string, Value>)

  /** A document, and its `PII` sub-object: string-keyed dictionaries. */
  type Document = map<string, Value>
  type Fields = map<string, Value>

  /** Why a transform raises instead of returning a document. */
  datatype TransformError =
    | UnhashableDocumentType  // `dtype in PII_KEYS_BY_DOC` with a list or dict `dtype`: TypeError
    | InvalidToken            // Fernet rejects the stored blob, or it is not UTF-8

  /** The outcome of `deidentify`: the document (or the error it raised) and
      the mapping table afterwards. */
  datatype Deidentification = Deidentification(result: Result<Document, TransformError>, table: Table)

  /** `PII_KEYS_BY_DOC`. */
  const PiiKeysByDoc: map<string, seq<string>> := map[
    "Medical Report" := ["Name", "DOB", "ID", "Date"],
    "Lab Report" := ["Name", "DOB", "ID", "Date"],
    "Discharge Summary" := ["Name", "DOB", "ID", "Admission_Date", "Discharge_Date"],
    "Admission Slip" := ["Name", "DOB", "ID", "Date"]
  ]

  /** `d.get(k)`: a missing key reads as `None`. */
  function Get(d: map<string, Value>, k: string): Value {
    if k in d then d[k] else Null
  }

  predicate NoDuplicates(keys: seq<string>) {
    forall i, j :: 0 <= i < j < |keys| ==> keys[i] != keys[j]
  }

  /** How `dtype in PII_KEYS_BY_DOC` and `PII_KEYS_BY_DOC[dtype]` come out. */
  datatype FieldLookup = Undeclared | Unhashable | Declared(keys: seq<string>)

  function FieldsFor(dtype: Value): (r: FieldLookup)
    ensures r.Declared? <==> dtype.Str? && dtype.s in PiiKeysByDoc
    ensures r.Unhashable? <==> dtype.List? || dtype.Dict?
    ensures r.Declared? ==> NoDuplicates(r.keys) && r.keys == PiiKeysByDoc[dtype.s]
  {
    match dtype
    case List(_) => Unhashable
    case Dict(_) => Unhashable
    case Str(s) => if s in PiiKeysByDoc then Declared(PiiKeysByDoc[s]) else Undeclared
    case _ => Undeclared
  }

  /** `_is_token`: a string that starts with `TOKEN_PREFIX`, the same `TKN_`
      that `token_for_value` writes. */
  predicate IsToken(v: Value) {
    v.Str? && |TokenPrefix| <= |v.s| && v.s[..|TokenPrefix|] == TokenPrefix
  }

  /** A value `_pseudo_value` tokenises: a string that is not already a token. */
  predicate IsPlaintext(v: Value) {
    v.Str? && !IsToken(v)
  }

  /** What `token_for_value` returns is recognised by `_is_token`, so a
      tokenised field is never tokenised again. */
  lemma TokensAreRecognised(c: Crypto, s: string)
    ensures IsToken(Str(TokenForValue(c, s)))
    ensures |TokenForValue(c, s)| == 28
  {
  }

  /** `_pseudo_value` on a table: the value it returns and the table after. */
  function Pseudonymized(c: Crypto, v: Value, t: Table, iv: Nonce): (r: (Value, Table))
    ensures !IsPlaintext(v) ==> r == (v, t)
    ensures IsPlaintext(v) ==> r.0 == Str(TokenForValue(c, v.s)) && IsToken(r.0)
    ensures IsPlaintext(v) ==> r.1.Keys == t.Keys + {TokenForValue(c, v.s)}
    ensures IsPlaintext(v) && TokenForValue(c, v.s) !in t ==> r.1[TokenForValue(c, v.s)] == c.encrypt(c.key, v.s, iv)
    ensures forall k :: k in t ==> k in r.1 && r.1[k] == t[k]
  {
    if !v.Str? then (v, t)
    else if IsToken(v) then (v, t)
    else
      var token := TokenForValue(c, v.s);
      TokensAreRecognised(c, v.s);
      (Str(token), InsertIfAbsent(t, token, c.encrypt(c.key, v.s, iv)))
  }

  /** `_restore_value` on a table: non-strings, non-tokens and unknown tokens
      come back as they are; a known token decrypts or raises. */
  function Restored(c: Crypto, v: Value, t: Table): (r: Result<Value, TransformError>)
    ensures !IsToken(v) ==> r == Success(v)
    ensures IsToken(v) && v.s !in t ==> r == Success(v)
    ensures IsToken(v) && v.s in t ==>
      (r.Success? <==> c.decrypt(c.key, t[v.s]).Some?) &&
      (r.Success? ==> r.value == Str(c.decrypt(c.key, t[v.s]).value))
  {
    if !v.Str? then Success(v)
    else if !IsToken(v) then Success(v)
    else if v.s !in t then Success(v)
    else match c.decrypt(c.key, t[v.s])
      case Some(plain) => Success(Str(plain))
      case None => Failure(InvalidToken)
  }

  /** The `for k in keys` loop of `deidentify` run over `keys` in order; the
      i-th key's encryption draws `ivs(i)`. */
  function DeidentifiedFields(c: Crypto, keys: seq<string>, pii: Fields, t: Table, ivs: nat -> Nonce): (Fields, Table)
    decreases |keys|
  {
    if keys == [] then (pii, t)
    else
      var before := DeidentifiedFields(c, keys[..|keys| - 1], pii, t, ivs);
      var k := keys[|keys| - 1];
      if k in before.0 && !before.0[k].Null? then
        var step := Pseudonymized(c, before.0[k], before.1, ivs(|keys| - 1));
        (before.0[k := step.0], step.1)
      else before
  }

  /** The `for k in keys` loop of `reidentify`, stopping at the first raise. */
  function ReidentifiedFields(c: Crypto, keys: seq<string>, pii: Fields, t: Table): Result<Fields, TransformError>
    decreases |keys|
  {
    if keys == [] then Success(pii)
    else
      match ReidentifiedFields(c, keys[..|keys| - 1], pii, t)
      case Failure(e) => Failure(e)
      case Success(p) =>
        var k := keys[|keys| - 1];
        if k in p && !p[k].Null? then
          match Restored(c, p[k], t)
          case Failure(e) => Failure(e)
          case Success(v) => Success(p[k := v])
        else Success(p)
  }

  /** A raise in the loop of `reidentify` ends the whole call: once a prefix
      of the keys fails, so does every longer prefix. */
  lemma {:induction false} ReidentifiedFieldsFailureSticks(c: Crypto, keys: seq<string>, n: nat, pii: Fields, t: Table)
    requires n <= |keys| && ReidentifiedFields(c, keys[..n], pii, t).Failure?
    ensures ReidentifiedFields(c, keys, pii, t) == ReidentifiedFields(c, keys[..n], pii, t)
    decreases |keys| - n
  {
    if n < |keys| {
      var front := keys[..|keys| - 1];
      assert front[..n] == keys[..n];
      ReidentifiedFieldsFailureSticks(c, front, n, pii, t);
    } else {
      assert keys[..n] == keys;
    }
  }

  /** `deidentify(doc)` against table `t`. */
  function Deidentified(c: Crypto, doc: Document, t: Table, ivs: nat -> Nonce): Deidentification {
    match Get(doc, "PII")
    case Dict(pii) =>
      (match FieldsFor(Get(doc, "Document_Type"))
       case Unhashable => Deidentification(Failure(UnhashableDocumentType), t)
       case Undeclared => Deidentification(Success(doc), t)
       case Declared(keys) =>
         var fields := DeidentifiedFields(c, keys, pii, t, ivs);
         Deidentification(Success(doc["PII" := Dict(fields.0)]), fields.1))
    case _ => Deidentification(Success(doc), t)
  }

  /** `reidentify(doc)` against table `t`, which it only reads. */
  function Reidentified(c: Crypto, doc: Document, t: Table): Result<Document, TransformError> {
    match Get(doc, "PII")
    case Dict(pii) =>
      (match FieldsFor(Get(doc, "Document_Type"))
       case Unhashable => Failure(UnhashableDocumentType)
       case Undeclared => Success(doc)
       case Declared(keys) =>
         match ReidentifiedFields(c, keys, pii, t)
         case Failure(e) => Failure(e)
         case Success(fields) => Success(doc["PII" := Dict(fields)]))
    case _ => Success(doc)
  }

  /** `_pseudo_value`: tokenise a plaintext string and save its ciphertext. */
  method PseudoValue(store: MappingStore, c: Crypto, v: Value, iv: Nonce) returns (r: Value)
    requires store.Valid()
    modifies store
    ensures store.Valid()
    ensures (r, store.Table()) == Pseudonymized(c, v, old(store.Table()), iv)
  {
    if !v.Str? {
      return v;
    }
    if IsToken(v) {
      return v;
    }
    var token := TokenForValue(c, v.s);
    store.SaveMapping(token, c.encrypt(c.key, v.s, iv));
    return Str(token);
  }

  /** `_restore_value`: look the token up and decrypt it, or pass it through. */
  method RestoreValue(store: MappingStore, c: Crypto, v: Value) returns (r: Result<Value, TransformError>)
    requires store.Valid()
    ensures r == Restored(c, v, store.Table())
  {
    if !v.Str? {
      return Success(v);
    }
    if !IsToken(v) {
      return Success(v);
    }
    var blob := store.GetMapping(v.s);
    if blob.None? {
      return Success(v);
    }
    match c.decrypt(c.key, blob.value)
    case Some(plain) => return Success(Str(plain));
    case None => return Failure(InvalidToken);
  }

  /** `deidentify`: copy the document and its `PII`, tokenise each declared
      non-null field in order, save the mappings. */
  method Deidentify(store: MappingStore, c: Crypto, doc: Document, ivs: nat -> Nonce)
    returns (r: Result<Document, TransformError>)
    requires store.Valid()
    modifies store
    ensures store.Valid()
    ensures Deidentification(r, store.Table()) == Deidentified(c, doc, old(store.Table()), ivs)
  {
    var pii := Get(doc, "PII");
    if !pii.Dict? {
      return Success(doc);
    }
    var lookup := FieldsFor(Get(doc, "Document_Type"));
    if lookup.Unhashable? {
      return Failure(UnhashableDocumentType);
    }
    if lookup.Undeclared? {
      return Success(doc);
    }
    var keys := lookup.keys;
    var piiOut := pii.fields;
    var i := 0;
    while i < |keys|
      invariant 0 <= i <= |keys|
      invariant store.Valid()
      invariant (piiOut, store.Table()) == DeidentifiedFields(c, keys[..i], pii.fields, old(store.Table()), ivs)
    {
      assert keys[..i + 1][..i] == keys[..i];
      var k := keys[i];
      if k in piiOut && !piiOut[k].Null? {
        var v := PseudoValue(store, c, piiOut[k], ivs(i));
        piiOut := piiOut[k := v];
      }
      i := i + 1;
    }
    assert keys[..i] == keys;
    return Success(doc["PII" := Dict(piiOut)]);
  }

  /** `reidentify`: copy the document and its `PII`, restore each declared
      non-null field in order; a decryption failure aborts the whole call. */
  method Reidentify(store: MappingStore, c: Crypto, doc: Document) returns (r: Result<Document, TransformError>)
    requires store.Valid()
    ensures r == Reidentified(c, doc, store.Table())
  {
    var pii := Get(doc, "PII");
    if !pii.Dict? {
      return Success(doc);
    }
    var lookup := FieldsFor(Get(doc, "Document_Type"));
    if lookup.Unhashable? {
      return Failure(UnhashableDocumentType);
    }
    if lookup.Undeclared? {
      return Success(doc);
    }
    var keys := lookup.keys;
    var piiOut := pii.fields;
    var i := 0;
    while i < |keys|
      invariant 0 <= i <= |keys|
      invariant ReidentifiedFields(c, keys[..i], pii.fields, store.Table()) == Success(piiOut)
    {
      assert keys[..i + 1][..i] == keys[..i];
      var k := keys[i];
      if k in piiOut && !piiOut[k].Null? {
        var v := RestoreValue(store, c, piiOut[k]);
        if v.Failure? {
          assert ReidentifiedFields(c, keys[..i + 1], pii.fields, store.Table()) == Failure(v.error);
          ReidentifiedFieldsFailureSticks(c, keys, i + 1, pii.fields, store.Table());
          return Failure(v.error);
        }
        piiOut := piiOut[k := v.value];
      }
      i := i + 1;
    }
    assert keys[..i] == keys;
    return Success(doc["PII" := Dict(piiOut)]);
  }
}
