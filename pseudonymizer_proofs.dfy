/** What the two transforms promise, proved of `Deidentified` and
    `Reidentified`: which fields change and into what, that `deidentify` is
    idempotent, that `reidentify` passes through what it cannot restore, and
    that `reidentify` undoes `deidentify` when no two plaintexts share a
    token and the table holds nothing contrary for them. */
module PseudonymizerProofs {
  import opened Wrappers
  import opened Security
  import opened Storage
  import opened Pseudonymizer

  /** The strings `deidentify` tokenises in `pii` for the given keys. */
  ghost function DeclaredPlaintexts(keys: seq<string>, pii: Fields): set<string> {
    set k | k in pii && k in keys && IsPlaintext(pii[k]) :: pii[k].s
  }

  /** No two strings of `S` share a token. */
  ghost predicate InjectiveOn(c: Crypto, S: set<string>) {
    forall s1, s2 :: s1 in S && s2 in S && TokenForValue(c, s1) == TokenForValue(c, s2) ==> s1 == s2
  }

  /** Every entry of `t` under the token of a string of `S` decrypts to that string. */
  ghost predicate Recoverable(c: Crypto, t: Table, S: set<string>) {
    forall s :: s in S && TokenForValue(c, s) in t ==> c.decrypt(c.key, t[TokenForValue(c, s)]) == Some(s)
  }

  /** The field loop of `deidentify`, field by field: a declared plaintext
      becomes its token, every other field is kept; the table keeps every
      entry it had, gains the token of every declared plaintext, and gains
      nothing else. */
  lemma {:induction false} DeidentifiedFieldsPointwise(c: Crypto, keys: seq<string>, pii: Fields, t: Table, ivs: nat -> Nonce)
    ensures var out := DeidentifiedFields(c, keys, pii, t, ivs);
      && out.0.Keys == pii.Keys
      && (forall k :: k in pii ==>
            out.0[k] == if k in keys && IsPlaintext(pii[k]) then Str(TokenForValue(c, pii[k].s)) else pii[k])
      && (forall tok :: tok in t ==> tok in out.1 && out.1[tok] == t[tok])
      && (forall k :: k in keys && k in pii && IsPlaintext(pii[k]) ==> TokenForValue(c, pii[k].s) in out.1)
      && (forall tok :: tok in out.1 && tok !in t ==>
            exists k :: k in keys && k in pii && IsPlaintext(pii[k]) && tok == TokenForValue(c, pii[k].s))
    decreases |keys|
  {
    if keys != [] {
      var front, k := keys[..|keys| - 1], keys[|keys| - 1];
      assert keys == front + [k];
      DeidentifiedFieldsPointwise(c, front, pii, t, ivs);
      var before := DeidentifiedFields(c, front, pii, t, ivs);
      if k in before.0 && !before.0[k].Null? {
        var v := before.0[k];
        if k in front && IsPlaintext(pii[k]) {
          TokensAreRecognised(c, pii[k].s);
        }
        var step := Pseudonymized(c, v, before.1, ivs(|keys| - 1));
        assert DeidentifiedFields(c, keys, pii, t, ivs) == (before.0[k := step.0], step.1);
        if IsPlaintext(v) {
          assert v == pii[k];
        }
      }
    }
  }

  /** With no declared plaintext left, the field loop changes nothing. */
  lemma DeidentifiedFieldsNothingToDo(c: Crypto, keys: seq<string>, pii: Fields, t: Table, ivs: nat -> Nonce)
    requires forall k :: k in keys && k in pii ==> !IsPlaintext(pii[k])
    ensures DeidentifiedFields(c, keys, pii, t, ivs) == (pii, t)
  {
    DeidentifiedFieldsPointwise(c, keys, pii, t, ivs);
    var out := DeidentifiedFields(c, keys, pii, t, ivs);
    assert out.0 == pii;
    assert out.1 == t;
  }

  /** The field loop keeps the table recoverable for a set of plaintexts that
      contains every declared one and shares no token. */
  lemma {:induction false} DeidentifiedFieldsRecoverable(c: Crypto, keys: seq<string>, pii: Fields, t: Table, ivs: nat -> Nonce, S: set<string>)
    requires CipherRoundTrip(c)
    requires DeclaredPlaintexts(keys, pii) <= S
    requires InjectiveOn(c, S) && Recoverable(c, t, S)
    ensures Recoverable(c, DeidentifiedFields(c, keys, pii, t, ivs).1, S)
    decreases |keys|
  {
    if keys != [] {
      var front, k := keys[..|keys| - 1], keys[|keys| - 1];
      assert keys == front + [k];
      assert DeclaredPlaintexts(front, pii) <= DeclaredPlaintexts(keys, pii);
      DeidentifiedFieldsRecoverable(c, front, pii, t, ivs, S);
      DeidentifiedFieldsPointwise(c, front, pii, t, ivs);
      var before := DeidentifiedFields(c, front, pii, t, ivs);
      if k in before.0 && !before.0[k].Null? && IsPlaintext(before.0[k]) {
        var v := before.0[k];
        assert v == pii[k];
        assert v.s in S;
        var token := TokenForValue(c, v.s);
        var blob := c.encrypt(c.key, v.s, ivs(|keys| - 1));
        var after := InsertIfAbsent(before.1, token, blob);
        assert DeidentifiedFields(c, keys, pii, t, ivs).1 == after;
        forall s | s in S && TokenForValue(c, s) in after
          ensures c.decrypt(c.key, after[TokenForValue(c, s)]) == Some(s)
        {
          if TokenForValue(c, s) == token {
            assert s == v.s;
          }
        }
      }
    }
  }

  /** The field loop of `reidentify`, field by field (declared keys are
      distinct): it raises exactly when some declared field holds a stored
      token whose blob does not decrypt; otherwise every declared field is
      what `_restore_value` makes of it and every other field is kept. */
  lemma {:induction false} ReidentifiedFieldsPointwise(c: Crypto, keys: seq<string>, pii: Fields, t: Table)
    requires NoDuplicates(keys)
    ensures var r := ReidentifiedFields(c, keys, pii, t);
      && (r.Failure? <==> exists k :: k in keys && k in pii && Restored(c, pii[k], t).Failure?)
      && (r.Failure? ==> r.error == InvalidToken)
      && (r.Success? ==>
            && r.value.Keys == pii.Keys
            && forall k :: k in pii ==>
                 if k in keys then Restored(c, pii[k], t) == Success(r.value[k]) else r.value[k] == pii[k])
    decreases |keys|
  {
    if keys != [] {
      var front, k := keys[..|keys| - 1], keys[|keys| - 1];
      assert keys == front + [k];
      assert k !in front by {
        forall i | 0 <= i < |front| ensures front[i] != k {
          assert front[i] == keys[i];
        }
      }
      assert NoDuplicates(front) by {
        forall i, j | 0 <= i < j < |front| ensures front[i] != front[j] {
          assert front[i] == keys[i] && front[j] == keys[j];
        }
      }
      ReidentifiedFieldsPointwise(c, front, pii, t);
    }
  }

  /** `deidentify(doc)` raises only where Python's `in` raises on an unhashable
      `Document_Type`, and only when `PII` is a dictionary. */
  ghost predicate RaisesTypeError(doc: Document) {
    Get(doc, "PII").Dict? && FieldsFor(Get(doc, "Document_Type")).Unhashable?
  }

  /** The output keeps every top-level key; keys other than `PII`, undeclared
      `PII` keys and null declared fields are untouched; and a document of an
      undeclared type or without a `PII` dictionary is returned as it is. */
  ghost predicate Scoped(doc: Document, out: Document) {
    && out.Keys == doc.Keys
    && (forall k :: k in doc && k != "PII" ==> out[k] == doc[k])
    && match Get(doc, "PII")
       case Dict(pii) =>
         (match FieldsFor(Get(doc, "Document_Type"))
          case Declared(keys) =>
            && out["PII"].Dict?
            && out["PII"].fields.Keys == pii.Keys
            && (forall k :: k in pii && (k !in keys || pii[k].Null?) ==> out["PII"].fields[k] == pii[k])
          case _ => out == doc)
       case _ => out == doc
  }

  /** Field scoping of `deidentify`: it raises exactly on an unhashable type;
      otherwise its output is scoped, the table keeps every entry it had, and
      a document it does not transform leaves the table as it was. */
  lemma DeidentifyIsScoped(c: Crypto, doc: Document, t: Table, ivs: nat -> Nonce)
    ensures var o := Deidentified(c, doc, t, ivs);
      && (o.result.Failure? <==> RaisesTypeError(doc))
      && (o.result.Success? ==> Scoped(doc, o.result.value))
      && (forall tok :: tok in t ==> tok in o.table && o.table[tok] == t[tok])
      && (!(Get(doc, "PII").Dict? && FieldsFor(Get(doc, "Document_Type")).Declared?) ==> o.table == t)
  {
    if Get(doc, "PII").Dict? && FieldsFor(Get(doc, "Document_Type")).Declared? {
      var pii, keys := Get(doc, "PII").fields, FieldsFor(Get(doc, "Document_Type")).keys;
      DeidentifiedFieldsPointwise(c, keys, pii, t, ivs);
    }
  }

  /** Field scoping of `reidentify`: it reads the table only, raises on an
      unhashable type, and otherwise its output is scoped. */
  lemma ReidentifyIsScoped(c: Crypto, doc: Document, t: Table)
    ensures var r := Reidentified(c, doc, t);
      && (RaisesTypeError(doc) ==> r == Failure(UnhashableDocumentType))
      && (r.Success? ==> Scoped(doc, r.value))
  {
    if Get(doc, "PII").Dict? && FieldsFor(Get(doc, "Document_Type")).Declared? {
      var pii, keys := Get(doc, "PII").fields, FieldsFor(Get(doc, "Document_Type")).keys;
      ReidentifiedFieldsPointwise(c, keys, pii, t);
    }
  }

  /** What `deidentify` writes: each declared plaintext field becomes the
      28-character token of its value, that token is in the table afterwards,
      and every entry the table gains is the token of a declared plaintext. */
  lemma DeidentifyTokenisesDeclaredPlaintext(c: Crypto, doc: Document, t: Table, ivs: nat -> Nonce)
    requires Get(doc, "PII").Dict? && FieldsFor(Get(doc, "Document_Type")).Declared?
    ensures var pii, keys := Get(doc, "PII").fields, FieldsFor(Get(doc, "Document_Type")).keys;
      var o := Deidentified(c, doc, t, ivs);
      && o.result.Success?
      && Get(o.result.value, "PII").Dict?
      && Get(o.result.value, "PII").fields.Keys == pii.Keys
      && (forall k :: k in keys && k in pii && IsPlaintext(pii[k]) ==>
            var out := Get(o.result.value, "PII").fields[k];
            out == Str(TokenForValue(c, pii[k].s)) && IsToken(out) && |out.s| == 28 && out.s in o.table)
      && (forall tok :: tok in o.table && tok !in t ==>
            exists k :: k in keys && k in pii && IsPlaintext(pii[k]) && tok == TokenForValue(c, pii[k].s))
  {
    var pii, keys := Get(doc, "PII").fields, FieldsFor(Get(doc, "Document_Type")).keys;
    DeidentifiedFieldsPointwise(c, keys, pii, t, ivs);
    forall k | k in keys && k in pii && IsPlaintext(pii[k]) ensures IsToken(Str(TokenForValue(c, pii[k].s))) {
      TokensAreRecognised(c, pii[k].s);
    }
  }

  /** Idempotence: running `deidentify` on its own output, with the table it
      left and any fresh randomness, returns the same document and writes
      nothing. */
  lemma DeidentifyIdempotent(c: Crypto, doc: Document, t: Table, ivs: nat -> Nonce, ivs2: nat -> Nonce)
    ensures var o := Deidentified(c, doc, t, ivs);
      o.result.Success? ==> Deidentified(c, o.result.value, o.table, ivs2) == o
  {
    var o := Deidentified(c, doc, t, ivs);
    if o.result.Success? && Get(doc, "PII").Dict? && FieldsFor(Get(doc, "Document_Type")).Declared? {
      var pii, keys := Get(doc, "PII").fields, FieldsFor(Get(doc, "Document_Type")).keys;
      DeidentifiedFieldsPointwise(c, keys, pii, t, ivs);
      var out := DeidentifiedFields(c, keys, pii, t, ivs);
      forall k | k in keys && k in out.0 ensures !IsPlaintext(out.0[k]) {
        if IsPlaintext(pii[k]) {
          TokensAreRecognised(c, pii[k].s);
        }
      }
      DeidentifiedFieldsNothingToDo(c, keys, out.0, out.1, ivs2);
      var d1 := o.result.value;
      assert Get(d1, "PII") == Dict(out.0);
      assert Get(d1, "Document_Type") == Get(doc, "Document_Type");
      assert d1["PII" := Dict(out.0)] == d1;
    }
  }

  /** Fail-open: if no declared field holds a token the table knows (none is
      a token at all, or every token is unknown), `reidentify` returns the
      document unchanged, unless the type is unhashable. */
  lemma ReidentifyFailOpen(c: Crypto, doc: Document, t: Table)
    requires Get(doc, "PII").Dict? && FieldsFor(Get(doc, "Document_Type")).Declared? ==>
      var pii, keys := Get(doc, "PII").fields, FieldsFor(Get(doc, "Document_Type")).keys;
      forall k :: k in keys && k in pii && IsToken(pii[k]) ==> pii[k].s !in t
    ensures Reidentified(c, doc, t) == if RaisesTypeError(doc) then Failure(UnhashableDocumentType) else Success(doc)
  {
    if Get(doc, "PII").Dict? && FieldsFor(Get(doc, "Document_Type")).Declared? {
      var pii, keys := Get(doc, "PII").fields, FieldsFor(Get(doc, "Document_Type")).keys;
      ReidentifiedFieldsPointwise(c, keys, pii, t);
      var r := ReidentifiedFields(c, keys, pii, t);
      assert r.Success?;
      assert r.value == pii;
      assert doc["PII" := Dict(pii)] == doc;
    }
  }

  /** The conditions under which `reidentify` undoes `deidentify` on `doc`
      against table `t`: no declared string is already a token, no two
      declared plaintexts share a token, and the table holds nothing under
      their tokens that decrypts to something else. */
  ghost predicate RoundTripSafe(c: Crypto, doc: Document, t: Table) {
    match Get(doc, "PII")
    case Dict(pii) =>
      (match FieldsFor(Get(doc, "Document_Type"))
       case Declared(keys) =>
         && (forall k :: k in keys && k in pii ==> !IsToken(pii[k]))
         && InjectiveOn(c, DeclaredPlaintexts(keys, pii))
         && Recoverable(c, t, DeclaredPlaintexts(keys, pii))
       case _ => true)
    case _ => true
  }

  lemma FieldsRoundTrip(c: Crypto, keys: seq<string>, pii: Fields, t: Table, ivs: nat -> Nonce)
    requires NoDuplicates(keys) && CipherRoundTrip(c)
    requires forall k :: k in keys && k in pii ==> !IsToken(pii[k])
    requires InjectiveOn(c, DeclaredPlaintexts(keys, pii)) && Recoverable(c, t, DeclaredPlaintexts(keys, pii))
    ensures var out := DeidentifiedFields(c, keys, pii, t, ivs);
      ReidentifiedFields(c, keys, out.0, out.1) == Success(pii)
  {
    var S := DeclaredPlaintexts(keys, pii);
    var out := DeidentifiedFields(c, keys, pii, t, ivs);
    DeidentifiedFieldsPointwise(c, keys, pii, t, ivs);
    DeidentifiedFieldsRecoverable(c, keys, pii, t, ivs, S);
    ReidentifiedFieldsPointwise(c, keys, out.0, out.1);
    forall k | k in keys && k in out.0 ensures Restored(c, out.0[k], out.1) == Success(pii[k]) {
      if IsPlaintext(pii[k]) {
        assert pii[k].s in S;
        TokensAreRecognised(c, pii[k].s);
      }
    }
    var r := ReidentifiedFields(c, keys, out.0, out.1);
    assert r.Success?;
    assert r.value == pii;
  }

  /** Round trip: `reidentify(deidentify(doc)) == doc`, against the table
      `deidentify` leaves, whenever the conditions above hold and Fernet
      decrypts what it encrypted. */
  lemma RoundTrip(c: Crypto, doc: Document, t: Table, ivs: nat -> Nonce)
    requires CipherRoundTrip(c) && RoundTripSafe(c, doc, t)
    ensures var o := Deidentified(c, doc, t, ivs);
      o.result.Success? ==> Reidentified(c, o.result.value, o.table) == Success(doc)
  {
    var o := Deidentified(c, doc, t, ivs);
    if o.result.Success? && Get(doc, "PII").Dict? && FieldsFor(Get(doc, "Document_Type")).Declared? {
      var pii, keys := Get(doc, "PII").fields, FieldsFor(Get(doc, "Document_Type")).keys;
      FieldsRoundTrip(c, keys, pii, t, ivs);
      var out := DeidentifiedFields(c, keys, pii, t, ivs);
      var d1 := o.result.value;
      assert Get(d1, "PII") == Dict(out.0);
      assert Get(d1, "Document_Type") == Get(doc, "Document_Type");
      assert d1["PII" := Dict(pii)] == doc;
    }
  }

  /** A lab report with all four declared fields filled in. */
  function LabReport(): Document {
    map[
      "Document_Type" := Str("Lab Report"),
      "PII" := Dict(map["Name" := Str("Jane Doe"), "DOB" := Str("1990-01-01"),
                        "ID" := Str("P123"), "Date" := Str("2024-01-01")])
    ]
  }

  /** `out` is the 28-character token of the string `plain`, and the blob
      stored under it in `t` decrypts to `plain`. */
  ghost predicate TokenFor(c: Crypto, t: Table, plain: Value, out: Value) {
    && plain.Str?
    && out == Str(TokenForValue(c, plain.s)) && IsToken(out) && |out.s| == 28
    && out.s in t && c.decrypt(c.key, t[out.s]) == Some(plain.s)
  }

  /** The lab report against an empty table: every declared field comes out
      as a 28-character token, the stored blob under it decrypts to the
      original value, and `reidentify` gives back the document exactly. */
  lemma LabReportScenario(c: Crypto, ivs: nat -> Nonce)
    requires CipherRoundTrip(c)
    requires InjectiveOn(c, {"Jane Doe", "1990-01-01", "P123", "2024-01-01"})
    ensures var o := Deidentified(c, LabReport(), map[], ivs);
      && o.result.Success?
      && Get(o.result.value, "PII").Dict?
      && (forall k :: k in LabReport()["PII"].fields ==>
            k in Get(o.result.value, "PII").fields &&
            TokenFor(c, o.table, LabReport()["PII"].fields[k], Get(o.result.value, "PII").fields[k]))
      && Reidentified(c, o.result.value, o.table) == Success(LabReport())
  {
    var doc := LabReport();
    var pii := doc["PII"].fields;
    var keys := FieldsFor(Get(doc, "Document_Type")).keys;
    assert keys == ["Name", "DOB", "ID", "Date"];
    assert pii.Keys == {"Name", "DOB", "ID", "Date"};
    LabReportFieldsArePlaintext();
    var S := DeclaredPlaintexts(keys, pii);
    assert S == {"Jane Doe", "1990-01-01", "P123", "2024-01-01"} by {
      assert pii["Name"].s in S && pii["DOB"].s in S && pii["ID"].s in S && pii["Date"].s in S;
    }
    assert RoundTripSafe(c, doc, map[]);
    DeidentifyTokenisesDeclaredPlaintext(c, doc, map[], ivs);
    var o := Deidentified(c, doc, map[], ivs);
    DeidentifiedFieldsRecoverable(c, keys, pii, map[], ivs, S);
    assert o.table == DeidentifiedFields(c, keys, pii, map[], ivs).1;
    assert Recoverable(c, o.table, S);
    var piiOut := Get(o.result.value, "PII").fields;
    forall k | k in pii
      ensures k in piiOut && TokenFor(c, o.table, pii[k], piiOut[k])
    {
      assert k in keys && IsPlaintext(pii[k]);
      assert pii[k].s in S;
    }
    RoundTrip(c, doc, map[], ivs);
  }

  lemma LabReportFieldsArePlaintext()
    ensures forall k :: k in LabReport()["PII"].fields ==> IsPlaintext(LabReport()["PII"].fields[k])
  {
    var pii := LabReport()["PII"].fields;
    assert pii.Keys == {"Name", "DOB", "ID", "Date"};
    assert !IsToken(Str("Jane Doe")) by { assert "Jane Doe"[..4] == "Jane"; }
    assert !IsToken(Str("1990-01-01")) by { assert "1990-01-01"[..4] == "1990"; }
    assert !IsToken(Str("P123")) by { assert "P123"[..4] == "P123"; }
    assert !IsToken(Str("2024-01-01")) by { assert "2024-01-01"[..4] == "2024"; }
  }
}
