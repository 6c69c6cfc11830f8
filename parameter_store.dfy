/**
 * The parameter-store references of an inputs file: the `!GetParam` node deserializer and
 * its shared dictionary (reference key -> resolved value, absent value = null), the split
 * of the recorded keys into request batches of ten, the overwrite of each key the store
 * returns, and the "unable to find" report for every key left unresolved.
 */
module ParameterStore {
  import opened Wrappers
  import opened Dictionaries

  const GetParamTag: string := "!GetParam"

  /**
   * The event the YAML parser is at when it asks the node deserializer. For a scalar,
   * `nestedKey` is what the library's scalar deserializer makes of it when that is a
   * string, and `None` when it fails or gives something else.
   */
  datatype ParserEvent =
    | ScalarEvent(tag: string, nestedKey: Option<string>)
    | CollectionEvent(tag: string)
    | OtherEvent

  /**
   * One call of the node deserializer on dictionary `d`: (handled, value, new dictionary).
   * A `!GetParam` scalar naming a known key gives that key's value (possibly null); one
   * naming an unknown key records it as null and keeps the key text as its value; every
   * other event is declined with a null value.
   */
  function Lookup(d: Dict<Option<string>>, event: ParserEvent): (r: (bool, Option<string>, Dict<Option<string>>))
    ensures r.0 <==> event.ScalarEvent? && event.tag == GetParamTag && event.nestedKey.Some?
    ensures !r.0 ==> r.1.None? && r.2 == d
    ensures r.0 && event.nestedKey.value in d.values ==> r.1 == d.values[event.nestedKey.value] && r.2 == d
    ensures r.0 && event.nestedKey.value !in d.values ==>
      r.1 == event.nestedKey && r.2.values == d.values[event.nestedKey.value := None]
  {
    if event.ScalarEvent? && event.tag == GetParamTag && event.nestedKey.Some? then
      var key := event.nestedKey.value;
      if key in d.values then (true, d.values[key], d) else (true, Some(key), Put(d, key, None))
    else (false, None, d)
  }

  /** Asking twice about the same reference: the second call finds the key and changes nothing. */
  lemma LookupIsIdempotent(d: Dict<Option<string>>, key: string)
    ensures var first := Lookup(d, ScalarEvent(GetParamTag, Some(key)));
      var second := Lookup(first.2, ScalarEvent(GetParamTag, Some(key)));
      second.0 && second.2 == first.2 && key in first.2.values
      && (key !in d.values ==> second.1.None?)
  {
  }

  class ParameterStoreFunctionNodeDeserializer {
    var dictionary: Dict<Option<string>>

    ghost predicate Valid()
      reads this
    {
      Dictionaries.Valid(dictionary)
    }

    /** The given dictionary, or a new empty one. */
    constructor(given: Option<Dict<Option<string>>>)
      requires given.Some? ==> Dictionaries.Valid(given.value)
      ensures dictionary == (if given.Some? then given.value else Empty()) && Valid()
    {
      dictionary := if given.Some? then given.value else Empty();
    }

    /** `Deserialize`: the lookup-or-record rule on the shared dictionary. */
    method Deserialize(event: ParserEvent) returns (handled: bool, value: Option<string>)
      requires Valid()
      modifies this
      ensures Valid()
      ensures (handled, value, dictionary) == Lookup(old(dictionary), event)
    {
      if event.ScalarEvent? && event.tag == GetParamTag {
        if event.nestedKey.Some? {
          var key := event.nestedKey.value;
          value := Some(key);
          if key in dictionary.values {
            value := dictionary.values[key];
          } else {
            PutKeepsOrder(dictionary, key, None);
            dictionary := Put(dictionary, key, None);
          }
          return true, value;
        }
      }
      return false, None;
    }
  }

  // ---------------------------------------------------------------------------
  // The references of a document

  /** The dictionary after the deserializer has seen the `!GetParam` keys `refs`, in order. */
  function RecordReferences(d: Dict<Option<string>>, refs: seq<string>): Dict<Option<string>>
    decreases |refs|
  {
    if refs == [] then d
    else Lookup(RecordReferences(d, refs[..|refs| - 1]), ScalarEvent(GetParamTag, Some(refs[|refs| - 1]))).2
  }

  /** `refs` without repetitions, each at its first occurrence. */
  function FirstOccurrences(refs: seq<string>): seq<string>
    decreases |refs|
  {
    if refs == [] then []
    else
      var init := FirstOccurrences(refs[..|refs| - 1]);
      if refs[|refs| - 1] in init then init else init + [refs[|refs| - 1]]
  }

  /**
   * Starting empty, the deserializer ends up with every referenced key once, in order of
   * first reference, each still null.
   */
  lemma {:induction false} RecordedReferencesAreNull(refs: seq<string>)
    ensures var d := RecordReferences(Empty(), refs);
      Valid(d)
      && d.keys == FirstOccurrences(refs)
      && (forall k :: k in d.values <==> k in refs)
      && (forall k :: k in d.values ==> d.values[k].None?)
    decreases |refs|
  {
    if refs != [] {
      var init := refs[..|refs| - 1];
      var last := refs[|refs| - 1];
      RecordedReferencesAreNull(init);
      var d0 := RecordReferences(Empty(), init);
      var d := RecordReferences(Empty(), refs);
      assert d == Lookup(d0, ScalarEvent(GetParamTag, Some(last))).2;
      assert forall k :: k in refs <==> k in init || k == last by {
        assert refs == init + [last];
      }
      if last in d0.values {
        assert d == d0;
        assert FirstOccurrences(refs) == FirstOccurrences(init);
      } else {
        assert d == Put(d0, last, None);
        PutKeepsOrder(d0, last, None);
        assert FirstOccurrences(refs) == FirstOccurrences(init) + [last];
      }
    }
  }

  /** The deserializer records something exactly when the document has a reference. */
  lemma RecordsSomething(refs: seq<string>)
    ensures RecordReferences(Empty(), refs).values == map[] <==> refs == []
  {
    RecordedReferencesAreNull(refs);
    if refs != [] {
      assert refs[|refs| - 1] in RecordReferences(Empty(), refs).values;
    }
  }

  // ---------------------------------------------------------------------------
  // Batches

  const BatchSize: nat := 10

  /** `keys.Take(10)`. */
  function Take(keys: seq<string>): (batch: seq<string>)
    ensures |batch| == if |keys| < BatchSize then |keys| else BatchSize
    ensures batch == keys[..|batch|]
  {
    if |keys| <= BatchSize then keys else keys[..BatchSize]
  }

  /** The batches of the `for` loop from `offset` on: `keys.Skip(offset).Take(10)` until one is empty. */
  function BatchesFrom(keys: seq<string>, offset: nat): seq<seq<string>>
    requires offset <= |keys|
    decreases |keys| - offset
  {
    var batch := Take(keys[offset..]);
    if batch == [] then [] else [batch] + BatchesFrom(keys, offset + |batch|)
  }

  /** A batch that is not empty is followed by the batches after it. */
  lemma BatchesStep(keys: seq<string>, offset: nat)
    requires offset <= |keys| && Take(keys[offset..]) != []
    ensures var batch := Take(keys[offset..]);
      offset + |batch| <= |keys|
      && BatchesFrom(keys, offset) == [batch] + BatchesFrom(keys, offset + |batch|)
  {
  }

  function Concat(batches: seq<seq<string>>): seq<string> {
    if batches == [] then [] else batches[0] + Concat(batches[1..])
  }

  /**
   * The batches are consecutive slices of the keys that together give the keys back, in
   * order and each once; every batch holds one to ten keys and all but the last hold ten.
   */
  lemma {:induction false} BatchesPartitionKeys(keys: seq<string>, offset: nat)
    requires offset <= |keys|
    ensures var bs := BatchesFrom(keys, offset);
      Concat(bs) == keys[offset..]
      && (forall i :: 0 <= i < |bs| ==> 1 <= |bs[i]| <= BatchSize)
      && (forall i :: 0 <= i < |bs| - 1 ==> |bs[i]| == BatchSize)
    decreases |keys| - offset
  {
    var batch := Take(keys[offset..]);
    if batch != [] {
      var next := offset + |batch|;
      BatchesPartitionKeys(keys, next);
      var bs := BatchesFrom(keys, offset);
      var rest := BatchesFrom(keys, next);
      assert bs == [batch] + rest;
      assert bs[1..] == rest;
      assert keys[offset..] == batch + keys[next..];
      if rest != [] {
        assert |keys[offset..]| > BatchSize;
      }
      assert forall i :: 1 <= i < |bs| ==> bs[i] == rest[i - 1];
    }
  }

  // ---------------------------------------------------------------------------
  // Resolution

  datatype ParameterType = StringType | StringListType | SecureStringType

  datatype StoredParameter = StoredParameter(parameterType: ParameterType, value: string)

  /** The parameters a `GetParameters` request for `names` returns: those the store holds. */
  function GetParameters(names: seq<string>, store: map<string, StoredParameter>): (found: seq<string>)
    ensures forall k :: k in found <==> k in names && k in store
  {
    if names == [] then []
    else
      var rest := GetParameters(names[1..], store);
      assert forall k :: k in names <==> k == names[0] || k in names[1..];
      if names[0] in store then [names[0]] + rest else rest
  }

  /** The value kept for a returned parameter: re-encrypted when the store holds it encrypted, plain otherwise. */
  function StoredValue(p: StoredParameter, encrypt: string -> string): string {
    if p.parameterType == SecureStringType then encrypt(p.value) else p.value
  }

  /** The `foreach` over a response: each returned parameter overwrites its key. */
  function ApplyResponse(d: Dict<Option<string>>, found: seq<string>, store: map<string, StoredParameter>,
                         encrypt: string -> string): Dict<Option<string>>
    requires forall k :: k in found ==> k in store
    decreases |found|
  {
    if found == [] then d
    else
      var k := found[|found| - 1];
      Put(ApplyResponse(d, found[..|found| - 1], store, encrypt), k, Some(StoredValue(store[k], encrypt)))
  }

  /** One response: its keys get their store values, every other key keeps its value, and the key order stays when all its keys were already present. */
  lemma {:induction false} ApplyResponseOverwrites(d: Dict<Option<string>>, found: seq<string>,
                                                  store: map<string, StoredParameter>, encrypt: string -> string)
    requires Valid(d) && forall k :: k in found ==> k in store && k in d.values
    ensures var r := ApplyResponse(d, found, store, encrypt);
      Valid(r) && r.keys == d.keys
      && (forall k :: k in r.values <==> k in d.values)
      && (forall k :: k in d.values ==>
            r.values[k] == if k in found then Some(StoredValue(store[k], encrypt)) else d.values[k])
    decreases |found|
  {
    if found != [] {
      var init := found[..|found| - 1];
      var k := found[|found| - 1];
      assert forall x :: x in found <==> x in init || x == k;
      ApplyResponseOverwrites(d, init, store, encrypt);
      PutKeepsOrder(ApplyResponse(d, init, store, encrypt), k, Some(StoredValue(store[k], encrypt)));
    }
  }

  /** The whole batch loop: one request per batch, each response applied in turn. */
  function ResolveBatches(d: Dict<Option<string>>, batches: seq<seq<string>>, store: map<string, StoredParameter>,
                          encrypt: string -> string): Dict<Option<string>>
    decreases |batches|
  {
    if batches == [] then d
    else ResolveBatches(ApplyResponse(d, GetParameters(batches[0], store), store, encrypt), batches[1..], store, encrypt)
  }

  /** One batch of the loop: its response is applied, then the remaining batches. */
  lemma ResolveBatchesStep(d: Dict<Option<string>>, batch: seq<string>, rest: seq<seq<string>>,
                           store: map<string, StoredParameter>, encrypt: string -> string)
    ensures ResolveBatches(d, [batch] + rest, store, encrypt)
      == ResolveBatches(ApplyResponse(d, GetParameters(batch, store), store, encrypt), rest, store, encrypt)
  {
    assert ([batch] + rest)[0] == batch && ([batch] + rest)[1..] == rest;
  }

  /**
   * After the batch loop every requested key the store holds has its store value, every
   * other key is unchanged, and no key is added, removed or moved.
   */
  lemma {:induction false} ResolveBatchesOverwrites(d: Dict<Option<string>>, batches: seq<seq<string>>,
                                                   store: map<string, StoredParameter>, encrypt: string -> string)
    requires Valid(d) && forall k :: k in Concat(batches) ==> k in d.values
    ensures var r := ResolveBatches(d, batches, store, encrypt);
      Valid(r) && r.keys == d.keys
      && (forall k :: k in r.values <==> k in d.values)
      && (forall k :: k in d.values ==>
            r.values[k] == if k in Concat(batches) && k in store then Some(StoredValue(store[k], encrypt)) else d.values[k])
    decreases |batches|
  {
    if batches != [] {
      var found := GetParameters(batches[0], store);
      assert Concat(batches) == batches[0] + Concat(batches[1..]);
      ApplyResponseOverwrites(d, found, store, encrypt);
      var next := ApplyResponse(d, found, store, encrypt);
      ResolveBatchesOverwrites(next, batches[1..], store, encrypt);
    }
  }

  /** The value every recorded key has once its references are resolved: the store's, or null. */
  function ResolvedValue(k: string, store: map<string, StoredParameter>, encrypt: string -> string): Option<string> {
    if k in store then Some(StoredValue(store[k], encrypt)) else None
  }

  /** Resolving all keys of a dictionary in batches: each key the store holds gets its store value, the others keep theirs. */
  lemma ResolvingAllKeys(d: Dict<Option<string>>, store: map<string, StoredParameter>, encrypt: string -> string)
    requires Valid(d)
    ensures var r := ResolveBatches(d, BatchesFrom(d.keys, 0), store, encrypt);
      Valid(r) && r.keys == d.keys
      && (forall k :: k in r.values <==> k in d.values)
      && (forall k :: k in d.values ==> r.values[k] == if k in store then ResolvedValue(k, store, encrypt) else d.values[k])
  {
    BatchesPartitionKeys(d.keys, 0);
    assert d.keys[0..] == d.keys;
    ResolveBatchesOverwrites(d, BatchesFrom(d.keys, 0), store, encrypt);
  }

  /** The keys the references name, each mapped to its store value or null. */
  function ResolvedReferences(refs: seq<string>, store: map<string, StoredParameter>, encrypt: string -> string)
    : map<string, Option<string>>
  {
    map k | k in refs :: ResolvedValue(k, store, encrypt)
  }

  /** Recording a document's references and resolving them in batches gives each referenced key its resolved value. */
  lemma ResolutionOfReferences(refs: seq<string>, store: map<string, StoredParameter>, encrypt: string -> string)
    ensures var d := RecordReferences(Empty(), refs);
      var r := ResolveBatches(d, BatchesFrom(d.keys, 0), store, encrypt);
      Valid(r) && r.keys == FirstOccurrences(refs)
      && (forall k :: k in r.values <==> k in refs)
      && (forall k :: k in r.values ==> r.values[k] == ResolvedValue(k, store, encrypt))
      && r.values == ResolvedReferences(refs, store, encrypt)
  {
    RecordedReferencesAreNull(refs);
    var d := RecordReferences(Empty(), refs);
    ResolvingAllKeys(d, store, encrypt);
    ResolvedMapIsResolvedReferences(ResolveBatches(d, BatchesFrom(d.keys, 0), store, encrypt).values, refs, store, encrypt);
  }

  lemma ResolvedMapIsResolvedReferences(m: map<string, Option<string>>, refs: seq<string>,
                                        store: map<string, StoredParameter>, encrypt: string -> string)
    requires forall k :: k in m <==> k in refs
    requires forall k :: k in m ==> m[k] == ResolvedValue(k, store, encrypt)
    ensures m == ResolvedReferences(refs, store, encrypt)
  {
    var r := ResolvedReferences(refs, store, encrypt);
    assert forall k :: k in m <==> k in r;
    assert forall k :: k in m ==> m[k] == r[k];
  }

  // ---------------------------------------------------------------------------
  // Unresolved keys

  function MissingKeyMessage(k: string): string {
    "unable to find '" + k + "' in parameter store"
  }

  /** The keys of `d` whose value is still null, in key order. */
  function MissingKeys(keys: seq<string>, values: map<string, Option<string>>): (missing: seq<string>)
    ensures forall k :: k in missing <==> k in keys && k in values && values[k].None?
    ensures |missing| <= |keys|
  {
    if keys == [] then []
    else
      var init := MissingKeys(keys[..|keys| - 1], values);
      var k := keys[|keys| - 1];
      assert forall x :: x in keys <==> x in keys[..|keys| - 1] || x == k;
      if k in values && values[k].None? then init + [k] else init
  }

  /** The messages the `foreach` over null entries logs, one per entry, in key order. */
  function MissingKeyErrors(d: Dict<Option<string>>): (errors: seq<string>)
    ensures |errors| == |MissingKeys(d.keys, d.values)|
  {
    var missing := MissingKeys(d.keys, d.values);
    seq(|missing|, i requires 0 <= i < |missing| => MissingKeyMessage(missing[i]))
  }

  /** The messages for `keys` are those for all but the last key, then the last key's if it is null. */
  lemma MissingKeyErrorsStep(keys: seq<string>, values: map<string, Option<string>>)
    requires keys != []
    ensures var k := keys[|keys| - 1];
      MissingKeyErrors(Dict(keys, values))
        == MissingKeyErrors(Dict(keys[..|keys| - 1], values))
           + (if k in values && values[k].None? then [MissingKeyMessage(k)] else [])
  {
  }

  /** Different keys get different messages. */
  lemma MissingKeyMessageInjective(a: string, b: string)
    ensures MissingKeyMessage(a) == MissingKeyMessage(b) ==> a == b
  {
    if MissingKeyMessage(a) == MissingKeyMessage(b) {
      var prefix := "unable to find '";
      assert |a| == |b|;
      assert MissingKeyMessage(a)[|prefix|..|prefix| + |a|] == a;
      assert MissingKeyMessage(b)[|prefix|..|prefix| + |b|] == b;
    }
  }

  lemma {:induction false} MissingKeysDistinct(keys: seq<string>, values: map<string, Option<string>>)
    requires Distinct(keys)
    ensures Distinct(MissingKeys(keys, values))
    decreases |keys|
  {
    if keys != [] {
      var init := keys[..|keys| - 1];
      MissingKeysDistinct(init, values);
      var k := keys[|keys| - 1];
      assert k !in init;
    }
  }

  /** `e` is the message for some key whose value is null. */
  ghost predicate IsMissingKeyMessage(d: Dict<Option<string>>, e: string) {
    exists k :: k in d.values && d.values[k].None? && e == MissingKeyMessage(k)
  }

  /**
   * Every key still null after resolution gets exactly one "unable to find" message, and
   * there is no other message.
   */
  lemma MissingKeysReportedOnce(d: Dict<Option<string>>)
    requires Valid(d)
    ensures var errors := MissingKeyErrors(d);
      (forall k :: k in d.values && d.values[k].None? ==> MissingKeyMessage(k) in errors)
      && (forall i :: 0 <= i < |errors| ==> IsMissingKeyMessage(d, errors[i]))
      && (forall i, j :: 0 <= i < j < |errors| ==> errors[i] != errors[j])
  {
    var missing := MissingKeys(d.keys, d.values);
    var errors := MissingKeyErrors(d);
    MissingKeysDistinct(d.keys, d.values);
    forall k | k in d.values && d.values[k].None? ensures MissingKeyMessage(k) in errors {
      var i :| 0 <= i < |missing| && missing[i] == k;
      assert errors[i] == MissingKeyMessage(k);
    }
    forall i | 0 <= i < |errors| ensures IsMissingKeyMessage(d, errors[i]) {
      var k := missing[i];
      assert k in missing;
      assert k in d.values && d.values[k].None? && errors[i] == MissingKeyMessage(k);
    }
    forall i, j | 0 <= i < j < |errors| ensures errors[i] != errors[j] {
      assert errors[i] == MissingKeyMessage(missing[i]) && errors[j] == MissingKeyMessage(missing[j]);
      assert missing[i] != missing[j];
      MissingKeyMessageInjective(missing[i], missing[j]);
    }
  }
}
