/**
 * `ParameterFileReader.ReadYamlFile` and `ReadInputParametersFiles`: read an inputs file,
 * resolve its `!GetParam` references against the parameter store, normalise its `Secrets`
 * entry and flatten it into the dictionary of input values.
 *
 * The YAML parser is a black box. What it produces is modelled as a `Node` tree per
 * top-level key, in which `!GetParam` scalars are still visible; "parsing" with a given
 * reference dictionary is `Substitute`, which does at each reference what the node
 * deserializer does. The parameter store is a map from names to stored parameters, the
 * re-encryption is an opaque function and the key service's alias lookup a map from alias
 * names to key ARNs.
 */
module ParameterFile {
  import opened Wrappers
  import opened Strings
  import opened Paths
  import opened Dictionaries
  import opened ParameterStore

  /** A node of the parsed document. */
  datatype Node =
    | Text(text: string)
    | GetParam(key: string)
    | NullNode
    | Items(items: seq<Node>)
    | Fields(fields: seq<(string, Node)>)

  /** A deserialized value: a string, null, a list or a mapping. */
  datatype Value =
    | Str(text: string)
    | NullValue
    | List(elements: seq<Value>)
    | Mapping(entries: seq<(string, Value)>)

  // ---------------------------------------------------------------------------
  // Parsing

  /** The `!GetParam` keys of `node`, in document order. */
  function RefsOf(node: Node): seq<string>
    decreases node
  {
    match node
    case GetParam(k) => [k]
    case Items(xs) => Concat(seq(|xs|, i requires 0 <= i < |xs| => RefsOf(xs[i])))
    case Fields(fs) =>
      Concat(seq(|fs|, i requires 0 <= i < |fs| => var f := fs[i]; assert f in fs; RefsOf(f.1)))
    case _ => []
  }

  /** The `!GetParam` keys of the whole document, in document order. */
  function DocumentRefs(doc: Dict<Node>): seq<string>
    requires Valid(doc)
  {
    Concat(seq(|doc.keys|, i requires 0 <= i < |doc.keys| => RefsOf(doc.values[doc.keys[i]])))
  }

  /**
   * The value the parser builds for `node` when the deserializer holds dictionary `d`: a
   * known reference becomes its recorded value (a recorded null stays null), an unknown one
   * its own key text.
   */
  function Substitute(node: Node, d: map<string, Option<string>>): Value
    decreases node
  {
    match node
    case Text(t) => Str(t)
    case NullNode => NullValue
    case GetParam(k) =>
      if k !in d then Str(k)
      else if d[k].Some? then Str(d[k].value)
      else NullValue
    case Items(xs) => List(seq(|xs|, i requires 0 <= i < |xs| => Substitute(xs[i], d)))
    case Fields(fs) =>
      Mapping(seq(|fs|, i requires 0 <= i < |fs| => var f := fs[i]; assert f in fs; (f.0, Substitute(f.1, d))))
  }

  /** `Deserialize<Dictionary<string, object>>(source)`: the top-level keys in document order. */
  function ParseDocument(doc: Dict<Node>, d: map<string, Option<string>>): (r: Dict<Value>)
    ensures r.keys == doc.keys && (forall k :: k in r.values <==> k in doc.values)
    ensures forall k :: k in doc.values ==> r.values[k] == Substitute(doc.values[k], d)
    ensures Valid(doc) ==> Valid(r)
  {
    Dict(doc.keys, map k | k in doc.values :: Substitute(doc.values[k], d))
  }

  // ---------------------------------------------------------------------------
  // Resolving the references

  /**
   * The first part of `ReadYamlFile`: the parsed inputs, the "unable to find" messages and
   * the batches of names requested from the store. The first parse records every reference;
   * when there are any, they are resolved in batches and the document is parsed again.
   */
  function ResolveInputs(doc: Dict<Node>, store: map<string, StoredParameter>, encrypt: string -> string)
    : (r: (Dict<Value>, seq<string>, seq<seq<string>>))
    requires Valid(doc)
    ensures Valid(r.0) && r.0.keys == doc.keys
  {
    var recorded := RecordReferences(Empty(), DocumentRefs(doc));
    if recorded.values == map[] then (ParseDocument(doc, map[]), [], [])
    else
      var batches := BatchesFrom(recorded.keys, 0);
      var resolved := ResolveBatches(recorded, batches, store, encrypt);
      (ParseDocument(doc, resolved.values), MissingKeyErrors(resolved), batches)
  }

  /** `e` reports a referenced key the store does not hold. */
  ghost predicate IsUnresolvedReference(refs: seq<string>, store: map<string, StoredParameter>, e: string) {
    exists k :: k in refs && k !in store && e == MissingKeyMessage(k)
  }

  /**
   * The document the reader goes on with is the document with every reference replaced by
   * its store value (re-encrypted when the store holds it encrypted) or by null, and the
   * requests name each referenced key once, in order of first reference, at most ten at a
   * time.
   */
  lemma ResolvedInputs(doc: Dict<Node>, store: map<string, StoredParameter>, encrypt: string -> string)
    requires Valid(doc)
    ensures var refs := DocumentRefs(doc);
      var r := ResolveInputs(doc, store, encrypt);
      r.0 == ParseDocument(doc, ResolvedReferences(refs, store, encrypt))
      && Concat(r.2) == FirstOccurrences(refs)
      && (forall i :: 0 <= i < |r.2| ==> 1 <= |r.2[i]| <= BatchSize)
  {
    ResolvedDocument(doc, store, encrypt);
    RequestedBatches(doc, store, encrypt);
  }

  lemma ResolvedDocument(doc: Dict<Node>, store: map<string, StoredParameter>, encrypt: string -> string)
    requires Valid(doc)
    ensures ResolveInputs(doc, store, encrypt).0 == ParseDocument(doc, ResolvedReferences(DocumentRefs(doc), store, encrypt))
  {
    var refs := DocumentRefs(doc);
    var recorded := RecordReferences(Empty(), refs);
    RecordsSomething(refs);
    if recorded.values == map[] {
      assert ResolvedReferences(refs, store, encrypt) == map[];
    } else {
      ResolutionOfReferences(refs, store, encrypt);
    }
  }

  lemma RequestedBatches(doc: Dict<Node>, store: map<string, StoredParameter>, encrypt: string -> string)
    requires Valid(doc)
    ensures var r := ResolveInputs(doc, store, encrypt);
      Concat(r.2) == FirstOccurrences(DocumentRefs(doc))
      && (forall i :: 0 <= i < |r.2| ==> 1 <= |r.2[i]| <= BatchSize)
  {
    var refs := DocumentRefs(doc);
    var recorded := RecordReferences(Empty(), refs);
    RecordedReferencesAreNull(refs);
    RecordsSomething(refs);
    if recorded.values != map[] {
      BatchesPartitionKeys(recorded.keys, 0);
      assert recorded.keys[0..] == recorded.keys;
    }
  }

  /** Every referenced key the store lacks gets exactly one "unable to find" message, and there is no other message. */
  lemma UnresolvedReferencesReportedOnce(doc: Dict<Node>, store: map<string, StoredParameter>, encrypt: string -> string)
    requires Valid(doc)
    ensures var refs := DocumentRefs(doc);
      var errors := ResolveInputs(doc, store, encrypt).1;
      (forall k :: k in refs && k !in store ==> MissingKeyMessage(k) in errors)
      && (forall i :: 0 <= i < |errors| ==> IsUnresolvedReference(refs, store, errors[i]))
      && (forall i, j :: 0 <= i < j < |errors| ==> errors[i] != errors[j])
  {
    var refs := DocumentRefs(doc);
    var recorded := RecordReferences(Empty(), refs);
    RecordedReferencesAreNull(refs);
    RecordsSomething(refs);
    if recorded.values != map[] {
      ResolutionOfReferences(refs, store, encrypt);
      var d := ResolveBatches(recorded, BatchesFrom(recorded.keys, 0), store, encrypt);
      MissingKeysReportedOnce(d);
      var errors := MissingKeyErrors(d);
      forall i | 0 <= i < |errors| ensures IsUnresolvedReference(refs, store, errors[i]) {
        assert IsMissingKeyMessage(d, errors[i]);
        var k :| k in d.values && d.values[k].None? && errors[i] == MissingKeyMessage(k);
        assert k in refs && k !in store;
      }
    }
  }

  /**
   * The first parse: the parser consults the deserializer at every node, and the
   * deserializer acts only on the `!GetParam` scalars, which it meets in document order.
   */
  method RecordDocumentReferences(deserializer: ParameterStoreFunctionNodeDeserializer, refs: seq<string>)
    requires deserializer.Valid() && deserializer.dictionary == Empty()
    modifies deserializer
    ensures deserializer.Valid() && deserializer.dictionary == RecordReferences(Empty(), refs)
  {
    for i := 0 to |refs|
      invariant deserializer.Valid()
      invariant deserializer.dictionary == RecordReferences(Empty(), refs[..i])
    {
      var _, _ := deserializer.Deserialize(ScalarEvent(GetParamTag, Some(refs[i])));
      assert refs[..i + 1][..i] == refs[..i];
    }
    assert refs[..|refs|] == refs;
  }

  /**
   * The `foreach` over one response: a parameter the store holds encrypted is re-encrypted,
   * any other is kept in plain text, and either way it overwrites its key.
   */
  method ApplyParameters(deserializer: ParameterStoreFunctionNodeDeserializer, found: seq<string>,
                         store: map<string, StoredParameter>, encrypt: string -> string)
    requires forall k :: k in found ==> k in store
    modifies deserializer
    ensures deserializer.dictionary == ApplyResponse(old(deserializer.dictionary), found, store, encrypt)
  {
    for j := 0 to |found|
      invariant deserializer.dictionary == ApplyResponse(old(deserializer.dictionary), found[..j], store, encrypt)
    {
      var name := found[j];
      var parameter := store[name];
      assert found[..j + 1][..j] == found[..j];
      if parameter.parameterType == SecureStringType {
        deserializer.dictionary := Put(deserializer.dictionary, name, Some(encrypt(parameter.value)));
      } else {
        deserializer.dictionary := Put(deserializer.dictionary, name, Some(parameter.value));
      }
    }
    assert found[..|found|] == found;
  }

  /**
   * The `for` loop over batches of the recorded keys: each batch is requested and every
   * parameter of the response overwrites its key in the deserializer's dictionary.
   */
  method FetchBatches(deserializer: ParameterStoreFunctionNodeDeserializer,
                      store: map<string, StoredParameter>, encrypt: string -> string)
    returns (requests: seq<seq<string>>)
    modifies deserializer
    ensures requests == BatchesFrom(old(deserializer.dictionary.keys), 0)
    ensures deserializer.dictionary == ResolveBatches(old(deserializer.dictionary), requests, store, encrypt)
  {
    var allParameterKeys := deserializer.dictionary.keys;
    ghost var recorded := deserializer.dictionary;
    ghost var all := BatchesFrom(allParameterKeys, 0);
    ghost var target := ResolveBatches(recorded, all, store, encrypt);
    requests := [];
    var offset := 0;
    var batch := Take(allParameterKeys);
    assert allParameterKeys[0..] == allParameterKeys;
    ghost var remaining := all;
    while batch != []
      invariant offset <= |allParameterKeys|
      invariant batch == Take(allParameterKeys[offset..])
      invariant remaining == BatchesFrom(allParameterKeys, offset)
      invariant requests + remaining == all
      invariant ResolveBatches(deserializer.dictionary, remaining, store, encrypt) == target
      decreases |allParameterKeys| - offset
    {
      BatchesStep(allParameterKeys, offset);
      FetchStep(requests, batch, remaining[1..], deserializer.dictionary, all, target, store, encrypt);
      offset := offset + |batch|;
      requests := requests + [batch];
      remaining := remaining[1..];
      ApplyParameters(deserializer, GetParameters(batch, store), store, encrypt);
      batch := Take(allParameterKeys[offset..]);
    }
  }

  /** One pass of the batch loop keeps its invariants. */
  lemma FetchStep(sent: seq<seq<string>>, batch: seq<string>, rest: seq<seq<string>>, before: Dict<Option<string>>,
                  all: seq<seq<string>>, target: Dict<Option<string>>,
                  store: map<string, StoredParameter>, encrypt: string -> string)
    requires sent + ([batch] + rest) == all
    requires ResolveBatches(before, [batch] + rest, store, encrypt) == target
    ensures (sent + [batch]) + rest == all
    ensures ResolveBatches(ApplyResponse(before, GetParameters(batch, store), store, encrypt), rest, store, encrypt) == target
  {
    ResolveBatchesStep(before, batch, rest, store, encrypt);
    assert (sent + [batch]) + rest == sent + ([batch] + rest);
  }

  /** The `foreach` over the null entries of the dictionary: one message each, in key order. */
  method ReportMissingKeys(d: Dict<Option<string>>) returns (errors: seq<string>)
    requires Valid(d)
    ensures errors == MissingKeyErrors(d)
  {
    errors := [];
    for i := 0 to |d.keys|
      invariant errors == MissingKeyErrors(Dict(d.keys[..i], d.values))
    {
      var key := d.keys[i];
      MissingKeyErrorsStep(d.keys[..i + 1], d.values);
      assert d.keys[..i + 1][..i] == d.keys[..i];
      if d.values[key].None? {
        errors := errors + [MissingKeyMessage(key)];
      }
    }
    assert d.keys[..|d.keys|] == d.keys;
  }

  /** The first parse, the batch loop and the report of unresolved keys, then the second parse. */
  method ResolveDocument(doc: Dict<Node>, store: map<string, StoredParameter>, encrypt: string -> string)
    returns (inputs: Dict<Value>, errors: seq<string>, requests: seq<seq<string>>)
    requires Valid(doc)
    ensures (inputs, errors, requests) == ResolveInputs(doc, store, encrypt)
  {
    var deserializer := new ParameterStoreFunctionNodeDeserializer(None);
    RecordDocumentReferences(deserializer, DocumentRefs(doc));
    inputs := ParseDocument(doc, map[]);
    errors := [];
    requests := [];
    if deserializer.dictionary.values != map[] {
      ghost var recorded := deserializer.dictionary;
      requests := FetchBatches(deserializer, store, encrypt);
      ResolvingAllKeys(recorded, store, encrypt);
      errors := ReportMissingKeys(deserializer.dictionary);
      inputs := ParseDocument(doc, deserializer.dictionary.values);
    }
  }

  // ---------------------------------------------------------------------------
  // Secrets

  const SecretsKey: string := "Secrets"

  /** The alias name looked up for `name`: "alias/" is put in front unless it is there. */
  function AliasOf(name: string): string {
    if StartsWith(name, "alias/") then name else "alias/" + name
  }

  /** `keyId` names a key that is not an ARN and whose alias the key service does not know. */
  predicate Unresolved(keyId: Option<string>, keyArns: map<string, string>) {
    keyId.Some? && !StartsWith(keyId.value, "arn:") && AliasOf(keyId.value) !in keyArns
  }

  function FailedAliasMessage(keyId: string): string {
    "failed to resolve key alias: " + keyId
  }

  /**
   * The local function `ConvertAliasToKeyArn` and what it logs. `keyArns` is what the key
   * service's `DescribeKey` knows: alias name to key ARN. Null stays null, an ARN is kept,
   * anything else is looked up as an alias, with "alias/" put in front unless it is there;
   * a failed lookup logs the name it was given and gives null.
   */
  function ConvertAliasToKeyArn(keyId: Option<string>, keyArns: map<string, string>): (r: (Option<string>, seq<string>))
    ensures keyId.None? ==> r == (None, [])
    ensures keyId.Some? && StartsWith(keyId.value, "arn:") ==> r == (keyId, [])
    ensures r.0.Some? ==> r.1 == [] && (r.0 == keyId || r.0.value in keyArns.Values)
    ensures r.0.None? && keyId.Some? ==> r.1 == [FailedAliasMessage(keyId.value)]
    ensures keyId.Some? && !StartsWith(keyId.value, "arn:") ==>
      (r.0.Some? <==> AliasOf(keyId.value) in keyArns)
      && (AliasOf(keyId.value) in keyArns ==> r.0 == Some(keyArns[AliasOf(keyId.value)]))
  {
    if keyId.None? then (None, [])
    else if StartsWith(keyId.value, "arn:") then (keyId, [])
    else
      var alias := AliasOf(keyId.value);
      if alias in keyArns then (Some(keyArns[alias]), []) else (None, [FailedAliasMessage(keyId.value)])
  }

  /** A bare name and its "alias/" form resolve to the same key, and do so exactly when the key service knows the alias. */
  lemma AliasFormsAgree(name: string, keyArns: map<string, string>)
    requires !StartsWith(name, "arn:") && !StartsWith(name, "alias/")
    ensures ConvertAliasToKeyArn(Some(name), keyArns).0 == ConvertAliasToKeyArn(Some("alias/" + name), keyArns).0
    ensures ConvertAliasToKeyArn(Some(name), keyArns).0.Some? <==> "alias/" + name in keyArns
  {
    var long := "alias/" + name;
    assert long[..6] == "alias/";
    assert long[..4] != "arn:" by {
      assert long[1] == 'l';
    }
  }

  /** When every ARN the key service gives starts with "arn:", converting a converted key changes nothing. */
  lemma ConvertingTwiceIsConvertingOnce(keyId: Option<string>, keyArns: map<string, string>)
    requires forall a :: a in keyArns.Values ==> StartsWith(a, "arn:")
    ensures var once := ConvertAliasToKeyArn(keyId, keyArns).0;
      once.Some? ==> ConvertAliasToKeyArn(once, keyArns) == (once, [])
  {
    var once := ConvertAliasToKeyArn(keyId, keyArns).0;
    if once.Some? && once != keyId {
      assert once.value in keyArns.Values;
    }
  }

  function ToValue(key: Option<string>): Value {
    if key.Some? then Str(key.value) else NullValue
  }

  /** `item as string`. */
  function AsString(v: Value): Option<string> {
    if v.Str? then Some(v.text) else None
  }

  /** The names among `keyIds` that the key service cannot resolve, in order, read from the front. */
  function FailedAliases(keyIds: seq<Option<string>>, keyArns: map<string, string>): (names: seq<string>)
    ensures |names| <= |keyIds|
  {
    if keyIds == [] then []
    else (if Unresolved(keyIds[0], keyArns) then [keyIds[0].value] else []) + FailedAliases(keyIds[1..], keyArns)
  }

  /** The failed names are exactly the unresolved items' names. */
  lemma {:induction false} FailedAliasesAreUnresolved(keyIds: seq<Option<string>>, keyArns: map<string, string>)
    ensures var names := FailedAliases(keyIds, keyArns);
      (forall n :: n in names ==> Some(n) in keyIds && Unresolved(Some(n), keyArns))
      && (forall i :: 0 <= i < |keyIds| && Unresolved(keyIds[i], keyArns) ==> keyIds[i].value in names)
    decreases |keyIds|
  {
    if keyIds != [] {
      var tail := keyIds[1..];
      FailedAliasesAreUnresolved(tail, keyArns);
      assert forall i :: 1 <= i < |keyIds| ==> keyIds[i] == tail[i - 1];
      assert forall k :: k in tail ==> k in keyIds;
    }
  }

  /** Filtering an extended sequence extends the filtered one by the new item's contribution. */
  lemma {:induction false} FailedAliasesAppend(keyIds: seq<Option<string>>, keyId: Option<string>, keyArns: map<string, string>)
    ensures FailedAliases(keyIds + [keyId], keyArns) == FailedAliases(keyIds, keyArns)
      + (if Unresolved(keyId, keyArns) then [keyId.value] else [])
    decreases |keyIds|
  {
    var all := keyIds + [keyId];
    if keyIds == [] {
      assert all == [keyId] && all[1..] == [];
    } else {
      var head := if Unresolved(keyIds[0], keyArns) then [keyIds[0].value] else [];
      var tail := keyIds[1..];
      assert all[0] == keyIds[0] && all[1..] == tail + [keyId];
      assert FailedAliases(all, keyArns) == head + FailedAliases(tail + [keyId], keyArns);
      assert FailedAliases(keyIds, keyArns) == head + FailedAliases(tail, keyArns);
      FailedAliasesAppend(tail, keyId, keyArns);
      var last := if Unresolved(keyId, keyArns) then [keyId.value] else [];
      assert (head + FailedAliases(tail, keyArns)) + last == head + (FailedAliases(tail, keyArns) + last);
    }
  }

  /** One "failed to resolve" message per name, in order. */
  function AliasMessages(names: seq<string>): (ms: seq<string>)
    ensures |ms| == |names| && forall j :: 0 <= j < |names| ==> ms[j] == FailedAliasMessage(names[j])
  {
    seq(|names|, j requires 0 <= j < |names| => FailedAliasMessage(names[j]))
  }

  lemma AliasMessagesAppend(a: seq<string>, b: seq<string>)
    ensures AliasMessages(a + b) == AliasMessages(a) + AliasMessages(b)
  {
    var l := AliasMessages(a + b);
    var r := AliasMessages(a) + AliasMessages(b);
    assert |l| == |r|;
    forall j | 0 <= j < |l| ensures l[j] == r[j] {
      if j < |a| { assert (a + b)[j] == a[j]; } else { assert (a + b)[j] == b[j - |a|]; }
    }
  }

  /**
   * `Select(ConvertAliasToKeyArn).ToList()`: the items converted in order; the log holds one
   * "failed to resolve" message per item the key service cannot resolve, in item order.
   */
  function ConvertAll(keyIds: seq<Option<string>>, keyArns: map<string, string>): (r: (seq<Value>, seq<string>))
    ensures |r.0| == |keyIds|
    ensures forall i :: 0 <= i < |keyIds| ==> r.0[i] == ToValue(ConvertAliasToKeyArn(keyIds[i], keyArns).0)
    ensures r.1 == [] <==> forall i :: 0 <= i < |keyIds| ==> ConvertAliasToKeyArn(keyIds[i], keyArns).1 == []
    ensures r.1 == AliasMessages(FailedAliases(keyIds, keyArns))
    decreases |keyIds|
  {
    if keyIds == [] then ([], [])
    else
      var init := keyIds[..|keyIds| - 1];
      var keyId := keyIds[|keyIds| - 1];
      var rest := ConvertAll(init, keyArns);
      var last := ConvertAliasToKeyArn(keyId, keyArns);
      ConvertAllValuesStep(keyIds, keyArns, rest.0);
      ConvertAllLogStep(keyIds, keyArns);
      QuietExactlyWhenResolved(keyIds, keyArns);
      (rest.0 + [ToValue(last.0)], rest.1 + last.1)
  }

  /** The converted items of one more item are those so far followed by that item's value. */
  lemma ConvertAllValuesStep(keyIds: seq<Option<string>>, keyArns: map<string, string>, init: seq<Value>)
    requires keyIds != [] && |init| == |keyIds| - 1
    requires forall i :: 0 <= i < |init| ==> init[i] == ToValue(ConvertAliasToKeyArn(keyIds[i], keyArns).0)
    ensures var vs := init + [ToValue(ConvertAliasToKeyArn(keyIds[|keyIds| - 1], keyArns).0)];
      forall i :: 0 <= i < |keyIds| ==> vs[i] == ToValue(ConvertAliasToKeyArn(keyIds[i], keyArns).0)
  {
  }

  /** No failure is logged exactly when no item logs anything. */
  lemma QuietExactlyWhenResolved(keyIds: seq<Option<string>>, keyArns: map<string, string>)
    ensures AliasMessages(FailedAliases(keyIds, keyArns)) == [] <==>
      forall i :: 0 <= i < |keyIds| ==> ConvertAliasToKeyArn(keyIds[i], keyArns).1 == []
  {
    var names := FailedAliases(keyIds, keyArns);
    FailedAliasesAreUnresolved(keyIds, keyArns);
    assert |AliasMessages(names)| == |names|;
    forall i | 0 <= i < |keyIds| ensures ConvertAliasToKeyArn(keyIds[i], keyArns).1 == [] <==> !Unresolved(keyIds[i], keyArns) {
    }
    if names != [] {
      assert names[0] in names;
    }
  }

  /** The log of one more item is the log so far followed by that item's message, if any. */
  lemma ConvertAllLogStep(keyIds: seq<Option<string>>, keyArns: map<string, string>)
    requires keyIds != []
    ensures var init := keyIds[..|keyIds| - 1];
      AliasMessages(FailedAliases(init, keyArns)) + ConvertAliasToKeyArn(keyIds[|keyIds| - 1], keyArns).1
      == AliasMessages(FailedAliases(keyIds, keyArns))
  {
    var init := keyIds[..|keyIds| - 1];
    var keyId := keyIds[|keyIds| - 1];
    assert keyIds == init + [keyId];
    FailedAliasesAppend(init, keyId, keyArns);
    var failed := if Unresolved(keyId, keyArns) then [keyId.value] else [];
    AliasMessagesAppend(FailedAliases(init, keyArns), failed);
    assert ConvertAliasToKeyArn(keyId, keyArns).1 == AliasMessages(failed);
  }

  /** `key.Split(',')` with every piece trimmed. */
  function TrimmedPieces(s: string): (ids: seq<Option<string>>)
    ensures |ids| == |Split(s, ',')|
    ensures forall i :: 0 <= i < |ids| ==> ids[i] == Some(Trim(Split(s, ',')[i]))
  {
    var items := Split(s, ',');
    seq(|items|, i requires 0 <= i < |items| => Some(Trim(items[i])))
  }

  /** Converting names that are all present: the results are all strings exactly when nothing was logged. */
  lemma ConvertedNamesAreStrings(keyIds: seq<Option<string>>, keyArns: map<string, string>)
    requires forall i :: 0 <= i < |keyIds| ==> keyIds[i].Some?
    ensures AllStrings(ConvertAll(keyIds, keyArns).0) <==> ConvertAll(keyIds, keyArns).1 == []
  {
    var r := ConvertAll(keyIds, keyArns);
    forall i | 0 <= i < |keyIds| ensures r.0[i].Str? <==> ConvertAliasToKeyArn(keyIds[i], keyArns).1 == [] {
    }
  }

  /** The `Secrets` rule: a string is split on ',' and each trimmed piece converted; a list has each item converted; anything else stays. */
  function NormaliseSecrets(v: Value, keyArns: map<string, string>): (r: (Value, seq<string>))
    ensures !v.Str? && !v.List? ==> r == (v, [])
  {
    match v
    case Str(s) =>
      var converted := ConvertAll(TrimmedPieces(s), keyArns);
      (List(converted.0), converted.1)
    case List(xs) =>
      var converted := ConvertAll(seq(|xs|, i requires 0 <= i < |xs| => AsString(xs[i])), keyArns);
      (List(converted.0), converted.1)
    case _ => (v, [])
  }

  /** `inputs["Secrets"] = ...` when the inputs have a `Secrets` entry: only that value changes, in place. */
  function ApplySecrets(inputs: Dict<Value>, keyArns: map<string, string>): (r: (Dict<Value>, seq<string>))
    requires Valid(inputs)
    ensures Valid(r.0) && r.0.keys == inputs.keys && (forall k :: k in r.0.values <==> k in inputs.values)
    ensures forall k :: k in inputs.values && k != SecretsKey ==> r.0.values[k] == inputs.values[k]
    ensures SecretsKey in inputs.values ==>
      (r.1 == NormaliseSecrets(inputs.values[SecretsKey], keyArns).1
       && r.0.values[SecretsKey] == NormaliseSecrets(inputs.values[SecretsKey], keyArns).0)
    ensures SecretsKey !in inputs.values ==> r == (inputs, [])
  {
    if SecretsKey in inputs.values then
      var normalised := NormaliseSecrets(inputs.values[SecretsKey], keyArns);
      PutKeepsOrder(inputs, SecretsKey, normalised.0);
      (Put(inputs, SecretsKey, normalised.0), normalised.1)
    else (inputs, [])
  }

  // ---------------------------------------------------------------------------
  // The final dictionary

  predicate AllStrings(xs: seq<Value>) {
    forall i :: 0 <= i < |xs| ==> xs[i].Str?
  }

  function Texts(xs: seq<Value>): (ts: seq<string>)
    requires AllStrings(xs)
    ensures |ts| == |xs| && forall i :: 0 <= i < |xs| ==> ts[i] == xs[i].text
  {
    seq(|xs|, i requires 0 <= i < |xs| => xs[i].text)
  }

  /**
   * The `switch` of the final loop: a string as it is; a collection whose elements are all
   * strings (a list of strings, or an empty list or mapping) as its elements joined by ',';
   * `None` for anything else (null, a mapping with entries, a list holding a non-string).
   */
  function FinalValue(v: Value): (r: Option<string>)
    ensures r.Some? <==> v.Str? || (v.List? && AllStrings(v.elements)) || (v.Mapping? && v.entries == [])
    ensures v.Str? ==> r == Some(v.text)
    ensures v.List? && AllStrings(v.elements) ==> r == Some(Join(",", Texts(v.elements)))
    ensures v.Mapping? && v.entries == [] ==> r == Some("")
  {
    match v
    case Str(t) => Some(t)
    case List(xs) => if AllStrings(xs) then Some(Join(",", Texts(xs))) else None
    case Mapping(es) => if es == [] then Some("") else None
    case NullValue => None
  }

  /** A list of ','-free strings flattens to a value that splits back into it; an empty list or mapping flattens to "". */
  lemma JoinedListSplitsBack(ts: seq<string>)
    requires forall i :: 0 <= i < |ts| ==> Free(ts[i], ',')
    ensures var r := FinalValue(List(seq(|ts|, i requires 0 <= i < |ts| => Str(ts[i]))));
      r.Some? && (ts != [] ==> Split(r.value, ',') == ts) && (ts == [] ==> r.value == "")
    ensures FinalValue(Mapping([])) == Some("")
  {
    var xs := seq(|ts|, i requires 0 <= i < |ts| => Str(ts[i]));
    assert Texts(xs) == ts;
    if ts != [] {
      SplitJoin(ts, ',');
    }
  }

  /**
   * A `Secrets` string yields one converted name per ','-separated piece; it flattens to a
   * value exactly when every piece resolves, and the log holds one message per piece that fails, in order.
   */
  lemma SecretsFromString(s: string, keyArns: map<string, string>)
    ensures var pieces := Split(s, ',');
      var r := NormaliseSecrets(Str(s), keyArns);
      r.0.List? && |r.0.elements| == |pieces|
      && (forall i :: 0 <= i < |pieces| ==>
            r.0.elements[i] == ToValue(ConvertAliasToKeyArn(Some(Trim(pieces[i])), keyArns).0))
      && (FinalValue(r.0).Some? <==> r.1 == [])
      && r.1 == AliasMessages(FailedAliases(TrimmedPieces(s), keyArns))
  {
    ConvertedNamesAreStrings(TrimmedPieces(s), keyArns);
  }

  /**
   * A `Secrets` list keeps its length; each string item is converted and each other item
   * becomes null; the string items the key service cannot resolve are logged, in order.
   */
  lemma SecretsFromList(xs: seq<Value>, keyArns: map<string, string>)
    ensures var r := NormaliseSecrets(List(xs), keyArns);
      r.0.List? && |r.0.elements| == |xs|
      && (forall i :: 0 <= i < |xs| && xs[i].Str? ==>
            r.0.elements[i] == ToValue(ConvertAliasToKeyArn(Some(xs[i].text), keyArns).0))
      && (forall i :: 0 <= i < |xs| && !xs[i].Str? ==> r.0.elements[i] == NullValue)
      && r.1 == AliasMessages(FailedAliases(seq(|xs|, i requires 0 <= i < |xs| => AsString(xs[i])), keyArns))
  {
  }

  /**
   * A `Secrets` string that lists ARNs, separated by ',' and without surrounding white
   * space, is kept as it is.
   */
  lemma SecretsOfArnsAreKept(arns: seq<string>, keyArns: map<string, string>)
    requires arns != []
    requires forall i :: 0 <= i < |arns| ==> StartsWith(arns[i], "arn:")
    requires forall i :: 0 <= i < |arns| ==> Free(arns[i], ',') && Trim(arns[i]) == arns[i]
    ensures var s := Join(",", arns);
      NormaliseSecrets(Str(s), keyArns).1 == [] && FinalValue(NormaliseSecrets(Str(s), keyArns).0) == Some(s)
  {
    var s := Join(",", arns);
    var pieces := TrimmedPieces(s);
    TrimmedPiecesOfJoin(arns);
    ArnsConvertToThemselves(pieces, arns, keyArns);
    var converted := ConvertAll(pieces, keyArns);
    assert NormaliseSecrets(Str(s), keyArns) == (List(converted.0), converted.1);
  }

  /** Names without ',' and without surrounding white space come back, one per piece, from their ','-join. */
  lemma TrimmedPiecesOfJoin(names: seq<string>)
    requires names != []
    requires forall i :: 0 <= i < |names| ==> Free(names[i], ',') && Trim(names[i]) == names[i]
    ensures var ids := TrimmedPieces(Join(",", names));
      |ids| == |names| && forall i :: 0 <= i < |names| ==> ids[i] == Some(names[i])
  {
    var ids := TrimmedPieces(Join(",", names));
    SplitOfCommaJoin(names);
    forall i | 0 <= i < |names| ensures ids[i] == Some(names[i]) {
      assert ids[i] == Some(Trim(names[i]));
    }
  }

  /** Splitting names joined by ',' gives them back when none holds a ','. */
  lemma SplitOfCommaJoin(names: seq<string>)
    requires names != []
    requires forall i :: 0 <= i < |names| ==> Free(names[i], ',')
    ensures Split(Join(",", names), ',') == names
  {
    assert "," == [','];
    SplitJoin(names, ',');
  }

  /** Names that are all ARNs convert to themselves, with nothing logged. */
  lemma ArnsConvertToThemselves(keyIds: seq<Option<string>>, arns: seq<string>, keyArns: map<string, string>)
    requires |keyIds| == |arns| && forall i :: 0 <= i < |arns| ==> keyIds[i] == Some(arns[i])
    requires forall i :: 0 <= i < |arns| ==> StartsWith(arns[i], "arn:")
    ensures var converted := ConvertAll(keyIds, keyArns);
      converted.1 == [] && AllStrings(converted.0) && Texts(converted.0) == arns
  {
    var converted := ConvertAll(keyIds, keyArns);
    forall i | 0 <= i < |keyIds| ensures converted.0[i] == Str(arns[i]) && ConvertAliasToKeyArn(keyIds[i], keyArns).1 == [] {
      assert ConvertAliasToKeyArn(keyIds[i], keyArns) == (Some(arns[i]), []);
    }
  }

  function InvalidValueMessage(key: string): string {
    "parameter '" + key + "' have an invalid value"
  }

  function DuplicateKeyMessage(key: string): string {
    "An item with the same key has already been added. Key: " + key
  }

  /**
   * The final `foreach`, from dictionary `acc` over the remaining input keys: a valid input
   * is added under its key with every "::" removed, an invalid one is logged and skipped,
   * and adding a key already present throws, which ends the loop with that exception.
   */
  function BuildFrom(acc: Dict<string>, keys: seq<string>, values: map<string, Value>)
    : (r: (Result<Dict<string>>, seq<string>))
    requires forall k :: k in keys ==> k in values
    decreases |keys|
  {
    if keys == [] then (Ok(acc), [])
    else
      var input := keys[0];
      match FinalValue(values[input])
      case None =>
        var rest := BuildFrom(acc, keys[1..], values);
        (rest.0, [InvalidValueMessage(input)] + rest.1)
      case Some(text) =>
        match Add(acc, StripDoubleColons(input), text)
        case None => (Err(DuplicateKeyMessage(StripDoubleColons(input))), [])
        case Some(next) => BuildFrom(next, keys[1..], values)
  }

  /** Input `k` contributes a value to the final dictionary. */
  predicate Valued(values: map<string, Value>, k: string) {
    k in values && FinalValue(values[k]).Some?
  }

  /** No valid input lands on a key of `acc`, and no two valid inputs land on the same key, once "::" is removed. */
  predicate NoCollision(acc: Dict<string>, keys: seq<string>, values: map<string, Value>) {
    (forall i :: 0 <= i < |keys| && Valued(values, keys[i]) ==> StripDoubleColons(keys[i]) !in acc.values)
    && (forall i, j :: 0 <= i < j < |keys| && Valued(values, keys[i]) && Valued(values, keys[j]) ==>
          StripDoubleColons(keys[i]) != StripDoubleColons(keys[j]))
  }

  /** The loop ends without an exception exactly when no two keys collide. */
  lemma {:induction false} BuildSucceedsWithoutCollision(acc: Dict<string>, keys: seq<string>, values: map<string, Value>)
    requires forall k :: k in keys ==> k in values
    ensures BuildFrom(acc, keys, values).0.Ok? <==> NoCollision(acc, keys, values)
    decreases |keys|
  {
    if keys != [] {
      var input := keys[0];
      var tail := keys[1..];
      assert forall i :: 0 <= i < |tail| ==> tail[i] == keys[i + 1];
      if FinalValue(values[input]).None? {
        BuildSucceedsWithoutCollision(acc, tail, values);
        NoCollisionPastInvalid(acc, keys, values);
      } else {
        var key := StripDoubleColons(input);
        if key !in acc.values {
          var next := Put(acc, key, FinalValue(values[input]).value);
          BuildSucceedsWithoutCollision(next, tail, values);
          NoCollisionPastValid(acc, keys, values);
        }
      }
    }
  }

  lemma NoCollisionPastInvalid(acc: Dict<string>, keys: seq<string>, values: map<string, Value>)
    requires keys != [] && !Valued(values, keys[0])
    ensures NoCollision(acc, keys, values) <==> NoCollision(acc, keys[1..], values)
  {
    var tail := keys[1..];
    assert forall i :: 0 <= i < |tail| ==> tail[i] == keys[i + 1];
    if NoCollision(acc, tail, values) {
      forall i, j | 0 <= i < j < |keys| && Valued(values, keys[i]) && Valued(values, keys[j])
        ensures StripDoubleColons(keys[i]) != StripDoubleColons(keys[j])
      {
        assert keys[i] == tail[i - 1] && keys[j] == tail[j - 1];
      }
    }
  }

  lemma NoCollisionPastValid(acc: Dict<string>, keys: seq<string>, values: map<string, Value>)
    requires keys != [] && Valued(values, keys[0]) && StripDoubleColons(keys[0]) !in acc.values
    ensures var next := Put(acc, StripDoubleColons(keys[0]), FinalValue(values[keys[0]]).value);
      NoCollision(acc, keys, values) <==> NoCollision(next, keys[1..], values)
  {
    var key := StripDoubleColons(keys[0]);
    var next := Put(acc, key, FinalValue(values[keys[0]]).value);
    var tail := keys[1..];
    assert forall i :: 0 <= i < |tail| ==> tail[i] == keys[i + 1];
    assert forall x :: x in next.values <==> x in acc.values || x == key;
    if NoCollision(next, tail, values) {
      forall i, j | 0 <= i < j < |keys| && Valued(values, keys[i]) && Valued(values, keys[j])
        ensures StripDoubleColons(keys[i]) != StripDoubleColons(keys[j])
      {
        assert keys[j] == tail[j - 1];
        if 0 < i {
          assert keys[i] == tail[i - 1];
        }
      }
    }
  }

  /** `key` is the "::"-free form of a valid input. */
  ghost predicate ProducedBy(keys: seq<string>, values: map<string, Value>, key: string) {
    exists i :: 0 <= i < |keys| && Valued(values, keys[i]) && StripDoubleColons(keys[i]) == key
  }

  /**
   * When the loop ends without an exception, the dictionary is well formed, keeps what
   * `acc` held, holds every valid input under its "::"-free key with its flattened value,
   * and holds nothing else.
   */
  lemma {:induction false} BuildContents(acc: Dict<string>, keys: seq<string>, values: map<string, Value>)
    requires Valid(acc) && forall k :: k in keys ==> k in values
    ensures var r := BuildFrom(acc, keys, values).0;
      r.Ok? ==>
        Valid(r.value)
        && (forall k :: k in acc.values ==> k in r.value.values && r.value.values[k] == acc.values[k])
        && (forall i :: 0 <= i < |keys| && Valued(values, keys[i]) ==>
              StripDoubleColons(keys[i]) in r.value.values
              && r.value.values[StripDoubleColons(keys[i])] == FinalValue(values[keys[i]]).value)
        && (forall k :: k in r.value.values ==> k in acc.values || ProducedBy(keys, values, k))
    decreases |keys|
  {
    if keys != [] {
      var input := keys[0];
      var tail := keys[1..];
      assert forall i :: 0 <= i < |tail| ==> tail[i] == keys[i + 1];
      var r := BuildFrom(acc, keys, values).0;
      if FinalValue(values[input]).None? {
        BuildContents(acc, tail, values);
        forall k | r.Ok? && k in r.value.values && k !in acc.values ensures ProducedBy(keys, values, k) {
          var i :| 0 <= i < |tail| && Valued(values, tail[i]) && StripDoubleColons(tail[i]) == k;
          assert keys[i + 1] == tail[i];
        }
      } else {
        var key := StripDoubleColons(input);
        var text := FinalValue(values[input]).value;
        if key !in acc.values {
          var next := Put(acc, key, text);
          PutKeepsOrder(acc, key, text);
          BuildContents(next, tail, values);
          if r.Ok? {
            forall k | k in r.value.values && k !in acc.values ensures ProducedBy(keys, values, k) {
              if k != key {
                var i :| 0 <= i < |tail| && Valued(values, tail[i]) && StripDoubleColons(tail[i]) == k;
                assert keys[i + 1] == tail[i];
              }
            }
          }
        }
      }
    }
  }

  /** `e` reports an input whose value cannot be flattened. */
  ghost predicate IsInvalidInput(keys: seq<string>, values: map<string, Value>, e: string) {
    exists i :: 0 <= i < |keys| && !Valued(values, keys[i]) && e == InvalidValueMessage(keys[i])
  }

  /** When the loop ends without an exception, every invalid input has been logged, and nothing else. */
  lemma {:induction false} BuildLogsInvalidInputs(acc: Dict<string>, keys: seq<string>, values: map<string, Value>)
    requires forall k :: k in keys ==> k in values
    ensures var r := BuildFrom(acc, keys, values);
      r.0.Ok? ==>
        (forall i :: 0 <= i < |keys| && !Valued(values, keys[i]) ==> InvalidValueMessage(keys[i]) in r.1)
        && (forall e :: e in r.1 ==> IsInvalidInput(keys, values, e))
    decreases |keys|
  {
    if keys != [] {
      var input := keys[0];
      var tail := keys[1..];
      assert forall i :: 0 <= i < |tail| ==> tail[i] == keys[i + 1];
      var r := BuildFrom(acc, keys, values);
      var next := if FinalValue(values[input]).None? then acc
        else Put(acc, StripDoubleColons(input), FinalValue(values[input]).value);
      BuildLogsInvalidInputs(next, tail, values);
      var rest := BuildFrom(next, tail, values);
      if r.0.Ok? {
        if FinalValue(values[input]).Some? {
          var key := StripDoubleColons(input);
          assert key !in acc.values && Add(acc, key, FinalValue(values[input]).value) == Some(next);
        }
        assert r.0 == rest.0;
        forall e | e in rest.1 ensures IsInvalidInput(keys, values, e) {
          assert IsInvalidInput(tail, values, e);
          var i :| 0 <= i < |tail| && !Valued(values, tail[i]) && e == InvalidValueMessage(tail[i]);
          assert keys[i + 1] == tail[i];
        }
        if FinalValue(values[input]).None? {
          assert IsInvalidInput(keys, values, InvalidValueMessage(input)) by {
            assert !Valued(values, keys[0]);
          }
        }
      }
    }
  }

  /**
   * The final dictionary of a set of inputs. Its construction fails exactly when two valid
   * inputs have the same key once "::" is removed; otherwise it holds the valid inputs,
   * each under its key with every "::" removed and with its flattened value, no key of it
   * contains "::", and exactly the invalid inputs are logged.
   */
  lemma FinalDictionary(inputs: Dict<Value>)
    requires Valid(inputs)
    ensures var r := BuildFrom(Empty(), inputs.keys, inputs.values);
      (r.0.Ok? <==>
         forall i, j ::
           (0 <= i < j < |inputs.keys| && Valued(inputs.values, inputs.keys[i]) && Valued(inputs.values, inputs.keys[j]))
           ==> StripDoubleColons(inputs.keys[i]) != StripDoubleColons(inputs.keys[j]))
      && (r.0.Ok? ==>
            Valid(r.0.value)
            && (forall k :: k in inputs.values && Valued(inputs.values, k) ==>
                  StripDoubleColons(k) in r.0.value.values
                  && r.0.value.values[StripDoubleColons(k)] == FinalValue(inputs.values[k]).value)
            && (forall k :: k in r.0.value.values ==> ProducedBy(inputs.keys, inputs.values, k) && !HasDoubleColon(k))
            && (forall k :: k in inputs.values && !Valued(inputs.values, k) ==> InvalidValueMessage(k) in r.1)
            && (forall e :: e in r.1 ==> IsInvalidInput(inputs.keys, inputs.values, e)))
  {
    BuildSucceedsWithoutCollision(Empty(), inputs.keys, inputs.values);
    FinalContents(inputs);
    FinalLog(inputs);
  }

  lemma FinalContents(inputs: Dict<Value>)
    requires Valid(inputs)
    ensures var r := BuildFrom(Empty(), inputs.keys, inputs.values).0;
      r.Ok? ==>
        Valid(r.value)
        && (forall k :: k in inputs.values && Valued(inputs.values, k) ==>
              StripDoubleColons(k) in r.value.values
              && r.value.values[StripDoubleColons(k)] == FinalValue(inputs.values[k]).value)
        && (forall k :: k in r.value.values ==> ProducedBy(inputs.keys, inputs.values, k) && !HasDoubleColon(k))
  {
    var r := BuildFrom(Empty(), inputs.keys, inputs.values).0;
    BuildContents(Empty(), inputs.keys, inputs.values);
    if r.Ok? {
      forall k | k in inputs.values && Valued(inputs.values, k) ensures
        StripDoubleColons(k) in r.value.values
        && r.value.values[StripDoubleColons(k)] == FinalValue(inputs.values[k]).value
      {
        var i :| 0 <= i < |inputs.keys| && inputs.keys[i] == k;
      }
      forall k | k in r.value.values ensures !HasDoubleColon(k) {
        var i :| 0 <= i < |inputs.keys| && Valued(inputs.values, inputs.keys[i]) && StripDoubleColons(inputs.keys[i]) == k;
        StripLeavesNoDoubleColon(inputs.keys[i]);
      }
    }
  }

  lemma FinalLog(inputs: Dict<Value>)
    requires Valid(inputs)
    ensures var r := BuildFrom(Empty(), inputs.keys, inputs.values);
      r.0.Ok? ==>
        (forall k :: k in inputs.values && !Valued(inputs.values, k) ==> InvalidValueMessage(k) in r.1)
        && (forall e :: e in r.1 ==> IsInvalidInput(inputs.keys, inputs.values, e))
  {
    var r := BuildFrom(Empty(), inputs.keys, inputs.values);
    BuildLogsInvalidInputs(Empty(), inputs.keys, inputs.values);
    if r.0.Ok? {
      forall k | k in inputs.values && !Valued(inputs.values, k) ensures InvalidValueMessage(k) in r.1 {
        var i :| 0 <= i < |inputs.keys| && inputs.keys[i] == k;
      }
    }
  }

  /** The final `foreach` over the inputs, adding to `result` with `Add`. */
  method BuildFinalDictionary(inputs: Dict<Value>) returns (result: Result<Dict<string>>, log: seq<string>)
    requires Valid(inputs)
    ensures (result, log) == BuildFrom(Empty(), inputs.keys, inputs.values)
  {
    var dictionary: Dict<string> := Empty();
    log := [];
    assert inputs.keys[0..] == inputs.keys;
    assert log + BuildFrom(dictionary, inputs.keys, inputs.values).1 == BuildFrom(dictionary, inputs.keys, inputs.values).1;
    for i := 0 to |inputs.keys|
      invariant BuildFrom(dictionary, inputs.keys[i..], inputs.values).0 == BuildFrom(Empty(), inputs.keys, inputs.values).0
      invariant log + BuildFrom(dictionary, inputs.keys[i..], inputs.values).1
        == BuildFrom(Empty(), inputs.keys, inputs.values).1
    {
      var input := inputs.keys[i];
      var key := StripDoubleColons(input);
      assert inputs.keys[i..][0] == input && inputs.keys[i..][1..] == inputs.keys[i + 1..];
      var value := FinalValue(inputs.values[input]);
      if value.None? {
        log := log + [InvalidValueMessage(input)];
      } else if key in dictionary.values {
        assert BuildFrom(dictionary, inputs.keys[i..], inputs.values) == (Err(DuplicateKeyMessage(key)), []);
        assert log + [] == log;
        return Err(DuplicateKeyMessage(key)), log;
      } else {
        dictionary := Put(dictionary, key, value.value);
      }
    }
    assert inputs.keys[|inputs.keys|..] == [];
    assert BuildFrom(dictionary, [], inputs.values) == (Ok(dictionary), []);
    assert log + [] == log;
    return Ok(dictionary), log;
  }

  // ---------------------------------------------------------------------------
  // Reading a file

  /** `ReadYamlFile` on a parsed document: the final dictionary or the exception, all it logs, and the batches it requests. */
  function ReadYaml(doc: Dict<Node>, store: map<string, StoredParameter>, encrypt: string -> string,
                    keyArns: map<string, string>): (r: (Result<Dict<string>>, seq<string>, seq<seq<string>>))
    requires Valid(doc)
  {
    var resolved := ResolveInputs(doc, store, encrypt);
    var secrets := ApplySecrets(resolved.0, keyArns);
    var final := BuildFrom(Empty(), secrets.0.keys, secrets.0.values);
    (final.0, resolved.1 + secrets.1 + final.1, resolved.2)
  }

  method ReadYamlFile(doc: Dict<Node>, store: map<string, StoredParameter>, encrypt: string -> string,
                      keyArns: map<string, string>)
    returns (result: Result<Dict<string>>, log: seq<string>, requests: seq<seq<string>>)
    requires Valid(doc)
    ensures (result, log, requests) == ReadYaml(doc, store, encrypt, keyArns)
  {
    var inputs, errors;
    inputs, errors, requests := ResolveDocument(doc, store, encrypt);
    var secretsLog := [];
    if SecretsKey in inputs.values {
      var normalised := NormaliseSecrets(inputs.values[SecretsKey], keyArns);
      PutKeepsOrder(inputs, SecretsKey, normalised.0);
      inputs := Put(inputs, SecretsKey, normalised.0);
      secretsLog := normalised.1;
    }
    var finalLog;
    result, finalLog := BuildFinalDictionary(inputs);
    log := errors + secretsLog + finalLog;
  }

  /** `x` occurs in one of the sequences, so it occurs in their concatenation. */
  lemma {:induction false} ConcatContains(xss: seq<seq<string>>, i: nat, x: string)
    requires i < |xss| && x in xss[i]
    ensures x in Concat(xss)
    decreases i
  {
    if i > 0 {
      ConcatContains(xss[1..], i - 1, x);
    }
  }

  /** A reference that is the whole value of an input is one of the document's references. */
  lemma InputReferenceIsRecorded(doc: Dict<Node>, k: string)
    requires Valid(doc) && k in doc.values && doc.values[k].GetParam?
    ensures doc.values[k].key in DocumentRefs(doc)
  {
    var i :| 0 <= i < |doc.keys| && doc.keys[i] == k;
    var xss := seq(|doc.keys|, j requires 0 <= j < |doc.keys| => RefsOf(doc.values[doc.keys[j]]));
    assert xss[i] == [doc.values[k].key];
    ConcatContains(xss, i, doc.values[k].key);
  }

  /**
   * An input other than `Secrets` whose value is a `!GetParam` reference the store holds
   * ends up, when the final dictionary is built, under its "::"-free key with the store's
   * value, re-encrypted when the store holds it encrypted.
   */
  lemma ReferencedInputGetsStoreValue(doc: Dict<Node>, store: map<string, StoredParameter>, encrypt: string -> string,
                                      keyArns: map<string, string>, k: string)
    requires Valid(doc) && k in doc.values && k != SecretsKey
    requires doc.values[k].GetParam? && doc.values[k].key in store
    ensures var r := ReadYaml(doc, store, encrypt, keyArns).0;
      r.Ok? ==>
        StripDoubleColons(k) in r.value.values
        && r.value.values[StripDoubleColons(k)] == StoredValue(store[doc.values[k].key], encrypt)
  {
    var inputs := ResolveInputs(doc, store, encrypt).0;
    ResolvedInputIsStoreValue(doc, store, encrypt, k);
    var secrets := ApplySecrets(inputs, keyArns).0;
    assert secrets.values[k] == Str(StoredValue(store[doc.values[k].key], encrypt));
    FinalContents(secrets);
  }

  /** Such an input has the store's value once the references are resolved. */
  lemma ResolvedInputIsStoreValue(doc: Dict<Node>, store: map<string, StoredParameter>, encrypt: string -> string, k: string)
    requires Valid(doc) && k in doc.values
    requires doc.values[k].GetParam? && doc.values[k].key in store
    ensures var inputs := ResolveInputs(doc, store, encrypt).0;
      k in inputs.values && inputs.values[k] == Str(StoredValue(store[doc.values[k].key], encrypt))
  {
    ResolvedDocument(doc, store, encrypt);
    InputReferenceIsRecorded(doc, k);
  }

  /**
   * An input whose value is a `!GetParam` reference the store lacks is reported as not
   * found; when the final dictionary is built, the input is also reported as invalid, since
   * its value has become null.
   */
  lemma UnresolvedInputIsReported(doc: Dict<Node>, store: map<string, StoredParameter>, encrypt: string -> string,
                                  keyArns: map<string, string>, k: string)
    requires Valid(doc) && k in doc.values && k != SecretsKey
    requires doc.values[k].GetParam? && doc.values[k].key !in store
    ensures var r := ReadYaml(doc, store, encrypt, keyArns);
      MissingKeyMessage(doc.values[k].key) in r.1
      && (r.0.Ok? ==> InvalidValueMessage(k) in r.1)
  {
    var p := doc.values[k].key;
    var resolved := ResolveInputs(doc, store, encrypt);
    InputReferenceIsRecorded(doc, k);
    UnresolvedReferencesReportedOnce(doc, store, encrypt);
    assert MissingKeyMessage(p) in resolved.1;
    UnresolvedInputIsNull(doc, store, encrypt, k);
    var secrets := ApplySecrets(resolved.0, keyArns);
    assert !Valued(secrets.0.values, k);
    FinalLog(secrets.0);
  }

  /** Such an input has the value null once the references are resolved. */
  lemma UnresolvedInputIsNull(doc: Dict<Node>, store: map<string, StoredParameter>, encrypt: string -> string, k: string)
    requires Valid(doc) && k in doc.values
    requires doc.values[k].GetParam? && doc.values[k].key !in store
    ensures var inputs := ResolveInputs(doc, store, encrypt).0;
      k in inputs.values && inputs.values[k] == NullValue
  {
    ResolvedDocument(doc, store, encrypt);
    InputReferenceIsRecorded(doc, k);
  }

  /** The message of the `NullReferenceException` that `inputs.TryGetValue` throws on a null document. */
  const NullReferenceMessage := "Object reference not set to an instance of an object."

  /**
   * `ReadInputParametersFiles`. The file system's answer, and the parser's answer (the
   * document, `None` for a document the parser reads as null, or the message of the YAML
   * exception), are inputs; a `None` result is the source's null.
   */
  method ReadInputParametersFiles(fileExists: bool, sourceFilename: string, onWindows: bool, parsed: Result<Option<Dict<Node>>>,
                                  store: map<string, StoredParameter>, encrypt: string -> string,
                                  keyArns: map<string, string>)
    returns (result: Option<Dict<string>>, log: seq<string>, requests: seq<seq<string>>)
    requires parsed.Ok? && parsed.value.Some? ==> Valid(parsed.value.value)
    ensures !fileExists ==> result.None? && log == ["cannot find parameters file"] && requests == []
    ensures fileExists && !IsYamlFile(sourceFilename, onWindows) ==>
      result.None? && log == ["incompatible inputs file format"] && requests == []
    ensures fileExists && IsYamlFile(sourceFilename, onWindows) && parsed.Err? ==>
      result.None? && log == ["parsing error near " + parsed.message] && requests == []
    ensures fileExists && IsYamlFile(sourceFilename, onWindows) && parsed == Ok(None) ==>
      result.None? && log == [NullReferenceMessage] && requests == []
    ensures fileExists && IsYamlFile(sourceFilename, onWindows) && parsed.Ok? && parsed.value.Some? ==>
      var r := ReadYaml(parsed.value.value, store, encrypt, keyArns);
      requests == r.2
      && (r.0.Ok? ==> result == Some(r.0.value) && log == r.1)
      && (r.0.Err? ==> result.None? && log == r.1 + [r.0.message])
  {
    requests := [];
    if !fileExists {
      return None, ["cannot find parameters file"], requests;
    }
    if !IsYamlFile(sourceFilename, onWindows) {
      return None, ["incompatible inputs file format"], requests;
    }
    if parsed.Err? {
      return None, ["parsing error near " + parsed.message], requests;
    }
    if parsed.value.None? {
      // an empty document has no references, so the first use of the null inputs throws
      return None, [NullReferenceMessage], requests;
    }
    var outcome;
    outcome, log, requests := ReadYamlFile(parsed.value.value, store, encrypt, keyArns);
    if outcome.Err? {
      // any other exception is logged as it is
      return None, log + [outcome.message], requests;
    }
    return Some(outcome.value), log, requests;
  }
}
