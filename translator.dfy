/**
 * `Command::Ai::Translator`: the deterministic parts around the language-model call:
 * the clean-up of the parsed model output (`normalize`), the cache key under which a
 * translation is stored, and the description of what the user is looking at.
 */
module Translator {
  import opened Wrappers
  import opened Json
  import Text

  const ContextKey := StrKey("context")
  const CommandsKey := StrKey("commands")

  /** No two keys share a spelling, so symbolizing the keys cannot merge two entries. */
  ghost predicate Symbolizable(m: map<Key, Value>) {
    forall k1, k2 :: k1 in m && k2 in m && k1.name == k2.name ==> k1 == k2
  }

  /** All keys are symbols. */
  ghost predicate SymbolKeys(m: map<Key, Value>) {
    forall k :: k in m ==> k.SymKey?
  }

  /** What `JSON.parse` yields: string keys at the top and inside `"context"`. */
  ghost predicate FromParse(json: map<Key, Value>) {
    && (forall k :: k in json ==> k.StrKey?)
    && (ContextKey in json && json[ContextKey].Object? ==>
          forall k :: k in json[ContextKey].fields ==> k.StrKey?)
  }

  /** Both levels that normalization touches can be symbolized. */
  ghost predicate Normalizable(json: map<Key, Value>) {
    && Symbolizable(json)
    && (ContextKey in json && json[ContextKey].Object? ==> Symbolizable(json[ContextKey].fields))
  }

  lemma ParsedIsNormalizable(json: map<Key, Value>)
    requires FromParse(json)
    ensures Normalizable(json)
  {
  }

  /** The symbol keys `symbolize_keys` produces from the keys of `m`. */
  function SymbolizedKeys(m: map<Key, Value>): (keys: set<Key>)
    ensures forall k :: k in keys ==> k.SymKey?
    ensures forall n :: SymKey(n) in keys <==> StrKey(n) in m || SymKey(n) in m
  {
    var keys := set k | k in m :: SymKey(k.name);
    assert forall n :: StrKey(n) in m ==> SymKey(StrKey(n).name) in keys;
    assert forall n :: SymKey(n) in m ==> SymKey(SymKey(n).name) in keys;
    keys
  }

  /**
   * `symbolize_keys`: every key becomes the symbol with the same spelling. Where a
   * string and a symbol key share a spelling (never the case for the Hashes
   * normalization sees, see `Symbolizable`) the symbol's value is kept.
   */
  function Symbolize(m: map<Key, Value>): (r: map<Key, Value>)
    ensures SymbolKeys(r)
    ensures forall n :: SymKey(n) in r <==> StrKey(n) in m || SymKey(n) in m
    ensures forall n :: SymKey(n) in m ==> r[SymKey(n)] == m[SymKey(n)]
    ensures forall n :: StrKey(n) in m && SymKey(n) !in m ==> r[SymKey(n)] == m[StrKey(n)]
  {
    map k | k in SymbolizedKeys(m) :: if k in m then m[k] else m[StrKey(k.name)]
  }

  /** Without two keys of one spelling, every string key's value moves to its symbol. */
  lemma SymbolizeSpec(m: map<Key, Value>)
    requires Symbolizable(m)
    ensures forall n :: StrKey(n) in m ==> SymKey(n) !in m && Symbolize(m)[SymKey(n)] == m[StrKey(n)]
  {
  }

  /** `compact`: no nil is left, and every other entry is kept as it was. */
  function Compact(m: map<Key, Value>): (r: map<Key, Value>)
    ensures r.Keys <= m.Keys
    ensures forall k :: k in r ==> !r[k].Null? && r[k] == m[k]
    ensures forall k :: k in m && !m[k].Null? ==> k in r
  {
    map k | k in m && !m[k].Null? :: m[k]
  }

  /** Every value replaced by its `presence`. */
  function PresentValues(fields: map<Key, Value>): (r: map<Key, Value>)
    ensures r.Keys == fields.Keys
  {
    map k | k in fields :: Presence(fields[k])
  }

  /** `context.each { |key, value| context[key] = value.presence }`, as the loop it is. */
  method PresenceLoop(context: map<Key, Value>) returns (fields: map<Key, Value>)
    ensures fields.Keys == context.Keys
    ensures forall k :: k in fields ==> fields[k] == Presence(context[k])
  {
    fields := context;
    var pending := fields.Keys;
    while pending != {}
      invariant pending <= fields.Keys
      invariant fields.Keys == context.Keys
      invariant forall k :: k in fields ==>
        fields[k] == if k in pending then context[k] else Presence(context[k])
      decreases pending
    {
      ghost var some := Inhabitant(pending);
      var key :| key in pending;
      fields := fields[key := Presence(fields[key])];
      pending := pending - {key};
    }
  }

  /** The context after its loop, `symbolize_keys!` and `compact!`. */
  function CompactContext(fields: map<Key, Value>): map<Key, Value>
    requires Symbolizable(fields)
  {
    Compact(Symbolize(PresentValues(fields)))
  }

  /** The body of `if context = json["context"]` on a Hash context, mutating it in place. */
  method CompactContextInPlace(context: map<Key, Value>) returns (fields: map<Key, Value>)
    requires Symbolizable(context)
    ensures fields == CompactContext(context)
  {
    fields := PresenceLoop(context);
    assert fields == PresentValues(context);
    fields := Compact(Symbolize(fields));
  }

  /** The Hash after the `if context = json["context"]` block, when it does not raise. */
  function WithCompactedContext(json: map<Key, Value>): (r: map<Key, Value>)
    requires Normalizable(json)
    ensures r.Keys == json.Keys
  {
    if ContextKey in json && json[ContextKey].Object?
    then json[ContextKey := Object(CompactContext(json[ContextKey].fields))]
    else json
  }

  /** `json.delete(key) if json[key].blank?` (an absent key reads as nil, and deleting it does nothing). */
  function DeleteIfBlank(m: map<Key, Value>, key: Key): (r: map<Key, Value>)
    ensures r.Keys <= m.Keys
    ensures forall k :: k in r ==> r[k] == m[k]
    ensures forall k :: k in m && k != key ==> k in r
    ensures key in r <==> key in m && !Blank(m[key])
  {
    if key in m && Blank(m[key]) then m - {key} else m
  }

  lemma SymbolizableSubset(m: map<Key, Value>, sub: map<Key, Value>)
    requires Symbolizable(m) && sub.Keys <= m.Keys
    ensures Symbolizable(sub)
  {
  }

  /** The Hash normalization works on before its last step, when it does not raise. */
  function Trimmed(json: map<Key, Value>): map<Key, Value>
    requires Normalizable(json)
  {
    DeleteIfBlank(DeleteIfBlank(WithCompactedContext(json), ContextKey), CommandsKey)
  }

  /** Whether `normalize` raises: a truthy `"context"` that is not a Hash. */
  predicate Raises(json: map<Key, Value>) {
    ContextKey in json && Truthy(json[ContextKey]) && !json[ContextKey].Object?
  }

  /**
   * `normalize`. A truthy `"context"` that is not a Hash makes Ruby raise: a string,
   * number or `true` has no `each`; an Array has one, but assigning at a non-integer
   * index raises TypeError, and otherwise `symbolize_keys!` is undefined on it. The label
   * `Err("NoMethodError")` stands for any of these raises. Otherwise: blank context values
   * are dropped and the context keys symbolized; a blank context or blank commands are
   * deleted; the top-level keys are symbolized and nil values dropped.
   */
  function Normalized(json: map<Key, Value>): (r: Result<map<Key, Value>>)
    requires Normalizable(json)
    ensures r.Err? <==> Raises(json)
  {
    if Raises(json) then Err("NoMethodError") else Ok(Compact(Symbolize(Trimmed(json))))
  }

  /** The result's keys are all symbols and none of its values is nil. */
  lemma NormalizedShape(json: map<Key, Value>)
    requires Normalizable(json) && !Raises(json)
    ensures SymbolKeys(Normalized(json).value)
    ensures forall k :: k in Normalized(json).value ==> !Normalized(json).value[k].Null?
  {
    var t := Trimmed(json);
    SymbolizableSubset(json, t);
    SymbolizeSpec(t);
  }

  /**
   * `normalize`, step by step as the source mutates the parsed Hash: the loop replaces
   * each context value by its `presence`, then the context keys are symbolized and its
   * nils compacted, blank `context`/`commands` deleted, and the top level symbolized
   * and compacted.
   */
  method Normalize(json: map<Key, Value>) returns (r: Result<map<Key, Value>>)
    requires Normalizable(json)
    ensures r == Normalized(json)
  {
    var j := json;
    if ContextKey in j && Truthy(j[ContextKey]) {
      var context := j[ContextKey];
      if !context.Object? {
        return Err("NoMethodError");
      }
      var fields := CompactContextInPlace(context.fields);
      j := j[ContextKey := Object(fields)];
      assert j == WithCompactedContext(json);
    } else {
      assert j == WithCompactedContext(json);
    }
    j := DeleteIfBlank(j, ContextKey);
    j := DeleteIfBlank(j, CommandsKey);
    return Ok(Compact(Symbolize(j)));
  }

  /** For parsed input, each top-level entry of the result is the trimmed entry of the same name. */
  lemma TopLevelEntry(json: map<Key, Value>, n: string)
    requires FromParse(json) && !Raises(json)
    ensures Normalized(json).Ok?
    ensures var r := Normalized(json).value;
            var t := Trimmed(json);
            && (SymKey(n) in r <==> StrKey(n) in t && !t[StrKey(n)].Null?)
            && (SymKey(n) in r ==> r[SymKey(n)] == t[StrKey(n)])
  {
    var t := Trimmed(json);
    assert t.Keys <= json.Keys;
    SymbolizableSubset(json, t);
    SymbolizeSpec(t);
    assert SymKey(n) !in t;
  }

  /** For a parsed Hash context, each entry of the compacted context is the entry of the same name, if not blank. */
  lemma ContextEntry(fields: map<Key, Value>, n: string)
    requires forall k :: k in fields ==> k.StrKey?
    ensures Symbolizable(fields)
    ensures var c := CompactContext(fields);
            && SymbolKeys(c)
            && (SymKey(n) in c <==> StrKey(n) in fields && !Blank(fields[StrKey(n)]))
            && (SymKey(n) in c ==> c[SymKey(n)] == fields[StrKey(n)])
  {
    var p := PresentValues(fields);
    SymbolizableSubset(fields, p);
    SymbolizeSpec(p);
    assert SymKey(n) !in p;
  }

  /** Two symbol-keyed Hashes with the same entry under every spelling are equal. */
  lemma SameEntriesByName(a: map<Key, Value>, b: map<Key, Value>)
    requires SymbolKeys(a) && SymbolKeys(b)
    requires forall n :: SymKey(n) in a <==> SymKey(n) in b
    requires forall n :: SymKey(n) in a ==> a[SymKey(n)] == b[SymKey(n)]
    ensures a == b
  {
    assert forall k :: k in a <==> k in b by {
      forall k ensures k in a <==> k in b {
        if k in a || k in b {
          assert k == SymKey(k.name);
        }
      }
    }
    forall k | k in a ensures a[k] == b[k] {
      assert k == SymKey(k.name);
    }
  }

  /** The context survives trimming exactly when it is a Hash with something left after compaction. */
  lemma TrimmedContext(json: map<Key, Value>)
    requires Normalizable(json) && !Raises(json)
    ensures ContextKey in Trimmed(json) <==>
              ContextKey in json && json[ContextKey].Object? && |CompactContext(json[ContextKey].fields)| > 0
    ensures ContextKey in Trimmed(json) ==> Trimmed(json)[ContextKey] == Object(CompactContext(json[ContextKey].fields))
  {
    var w := WithCompactedContext(json);
    var d := DeleteIfBlank(w, ContextKey);
    assert Trimmed(json) == DeleteIfBlank(d, CommandsKey);
    assert ContextKey != CommandsKey;
    if ContextKey in json && json[ContextKey].Object? {
      assert w[ContextKey] == Object(CompactContext(json[ContextKey].fields));
    } else if ContextKey in json {
      assert Blank(w[ContextKey]);
    }
  }

  /** The result has a context exactly when the input's context is a Hash with something left after compaction, and then it is that compacted Hash. */
  lemma ResultContext(json: map<Key, Value>)
    requires FromParse(json) && !Raises(json)
    ensures Normalizable(json) && Normalized(json).Ok?
    ensures SymKey("context") in Normalized(json).value <==>
              ContextKey in json && json[ContextKey].Object? && |CompactContext(json[ContextKey].fields)| > 0
    ensures SymKey("context") in Normalized(json).value ==>
              Normalized(json).value[SymKey("context")] == Object(CompactContext(json[ContextKey].fields))
  {
    ParsedIsNormalizable(json);
    TopLevelEntry(json, "context");
    TrimmedContext(json);
  }

  /** After normalization a context, when present, is a non-empty Hash with symbol keys and no blank value. */
  lemma ContextHasNoBlankValue(json: map<Key, Value>)
    requires FromParse(json) && !Raises(json)
    ensures Normalized(json).Ok?
    ensures var r := Normalized(json).value;
            SymKey("context") in r ==>
              && r[SymKey("context")].Object?
              && |r[SymKey("context")].fields| > 0
              && SymbolKeys(r[SymKey("context")].fields)
              && forall k :: k in r[SymKey("context")].fields ==> !Blank(r[SymKey("context")].fields[k])
  {
    var r := Normalized(json).value;
    ResultContext(json);
    if SymKey("context") in r {
      var fields := json[ContextKey].fields;
      var c := r[SymKey("context")].fields;
      ContextEntry(fields, "context");
      forall k | k in c ensures !Blank(c[k]) {
        ContextEntry(fields, k.name);
        assert k == SymKey(k.name);
      }
    }
  }

  /**
   * A context entry survives normalization exactly when its value is not blank, and
   * then keeps its value under the symbol of the same name.
   */
  lemma ContextKeepsNonBlank(json: map<Key, Value>, n: string)
    requires FromParse(json) && !Raises(json)
    requires ContextKey in json && json[ContextKey].Object?
    ensures Normalized(json).Ok?
    ensures var r := Normalized(json).value;
            var fields := json[ContextKey].fields;
            && (SymKey("context") in r && SymKey(n) in r[SymKey("context")].fields
                <==> StrKey(n) in fields && !Blank(fields[StrKey(n)]))
            && (StrKey(n) in fields && !Blank(fields[StrKey(n)]) ==>
                  r[SymKey("context")].fields[SymKey(n)] == fields[StrKey(n)])
  {
    var fields := json[ContextKey].fields;
    ResultContext(json);
    ContextEntry(fields, n);
    CompactContextEmpty(fields);
  }

  /** A compacted context is empty exactly when every value of the parsed context is blank. */
  lemma CompactContextEmpty(fields: map<Key, Value>)
    requires forall k :: k in fields ==> k.StrKey?
    ensures Symbolizable(fields)
    ensures |CompactContext(fields)| == 0 <==> forall k :: k in fields ==> Blank(fields[k])
  {
    var c := CompactContext(fields);
    ContextEntry(fields, "");
    if exists k :: k in fields && !Blank(fields[k]) {
      var k :| k in fields && !Blank(fields[k]);
      ContextEntry(fields, k.name);
      assert SymKey(k.name) in c;
    } else {
      forall k | k in c ensures false {
        ContextEntry(fields, k.name);
      }
      assert c.Keys == {};
    }
  }

  /** The result has no context exactly when the input has none, a falsy one, or one whose every value is blank. */
  lemma ContextDroppedWhenEmpty(json: map<Key, Value>)
    requires FromParse(json) && !Raises(json)
    ensures Normalized(json).Ok?
    ensures SymKey("context") !in Normalized(json).value <==>
              || ContextKey !in json
              || !json[ContextKey].Object?
              || forall k :: k in json[ContextKey].fields ==> Blank(json[ContextKey].fields[k])
  {
    ResultContext(json);
    if ContextKey in json && json[ContextKey].Object? {
      CompactContextEmpty(json[ContextKey].fields);
    }
  }

  /** The commands are kept, in their order, exactly when they are not blank. */
  lemma CommandsKeptUnlessBlank(json: map<Key, Value>)
    requires FromParse(json) && !Raises(json)
    ensures Normalized(json).Ok?
    ensures SymKey("commands") in Normalized(json).value <==> CommandsKey in json && !Blank(json[CommandsKey])
    ensures SymKey("commands") in Normalized(json).value ==>
              Normalized(json).value[SymKey("commands")] == json[CommandsKey]
  {
    TopLevelEntry(json, "commands");
  }

  /** Any other top-level entry passes through under its symbol unless its value is nil. */
  lemma OtherKeysPassThrough(json: map<Key, Value>, n: string)
    requires FromParse(json) && !Raises(json)
    requires n != "context" && n != "commands"
    ensures Normalized(json).Ok?
    ensures SymKey(n) in Normalized(json).value <==> StrKey(n) in json && !json[StrKey(n)].Null?
    ensures SymKey(n) in Normalized(json).value ==> Normalized(json).value[SymKey(n)] == json[StrKey(n)]
  {
    TopLevelEntry(json, n);
  }

  /** Normalizing a normalized Hash changes nothing. */
  lemma NormalizeIdempotent(json: map<Key, Value>)
    requires Normalizable(json) && !Raises(json)
    ensures var r := Normalized(json).value;
            Normalizable(r) && Normalized(r) == Ok(r)
  {
    var r := Normalized(json).value;
    NormalizedShape(json);
    assert ContextKey !in r && CommandsKey !in r;
    assert Trimmed(r) == r;
    SymbolizeSpec(r);
    SameEntriesByName(Compact(Symbolize(r)), r);
  }

  /** The string keys `JSON.generate` followed by `JSON.parse` turns the keys of `m` into. */
  function StringifiedKeys(m: map<Key, Value>): set<Key> {
    set k | k in m :: StrKey(k.name)
  }

  /** One level of a Hash written out as JSON and parsed again: every key becomes a string. */
  function Stringify(m: map<Key, Value>): map<Key, Value> {
    map k | k in StringifiedKeys(m) :: if k in m then m[k] else m[SymKey(k.name)]
  }

  lemma StringifySpec(m: map<Key, Value>)
    requires SymbolKeys(m)
    ensures forall k :: k in Stringify(m) ==> k.StrKey?
    ensures forall n :: StrKey(n) in Stringify(m) <==> SymKey(n) in m
    ensures forall n :: SymKey(n) in m ==> Stringify(m)[StrKey(n)] == m[SymKey(n)]
  {
    forall n | SymKey(n) in m ensures StrKey(n) in Stringify(m) {
      assert StrKey(SymKey(n).name) in StringifiedKeys(m);
    }
  }

  /**
   * A normalized result serialized to JSON and parsed back: its top-level keys and its
   * context's keys become strings again (deeper keys were strings all along).
   */
  function Reparsed(r: map<Key, Value>): map<Key, Value> {
    var top := Stringify(r);
    if ContextKey in top && top[ContextKey].Object?
    then top[ContextKey := Object(Stringify(top[ContextKey].fields))]
    else top
  }

  /** Symbol keys written out as strings and symbolized again come back unchanged. */
  lemma SymbolizeStringify(m: map<Key, Value>)
    requires SymbolKeys(m)
    ensures forall k :: k in Stringify(m) ==> k.StrKey?
    ensures Symbolizable(Stringify(m))
    ensures Symbolize(Stringify(m)) == m
  {
    var s := Stringify(m);
    StringifySpec(m);
    assert Symbolizable(s) by {
      forall k1, k2 | k1 in s && k2 in s && k1.name == k2.name ensures k1 == k2 {
        assert k1.StrKey? && k2.StrKey?;
      }
    }
    SymbolizeSpec(s);
    forall n ensures SymKey(n) in Symbolize(s) <==> SymKey(n) in m {
      assert SymKey(n) !in s;
    }
    SameEntriesByName(Symbolize(s), m);
  }

  /** What normalization leaves: symbol keys, no nil, a non-empty context of non-blank values, non-blank commands. */
  ghost predicate NormalShape(r: map<Key, Value>) {
    && SymbolKeys(r)
    && (forall k :: k in r ==> !r[k].Null?)
    && (SymKey("context") in r ==>
          && r[SymKey("context")].Object?
          && |r[SymKey("context")].fields| > 0
          && SymbolKeys(r[SymKey("context")].fields)
          && forall k :: k in r[SymKey("context")].fields ==> !Blank(r[SymKey("context")].fields[k]))
    && (SymKey("commands") in r ==> !Blank(r[SymKey("commands")]))
  }

  /** A normalized result has the shape `NormalShape` describes. */
  lemma NormalizedHasNormalShape(json: map<Key, Value>)
    requires FromParse(json) && !Raises(json)
    ensures Normalized(json).Ok? && NormalShape(Normalized(json).value)
  {
    NormalizedShape(json);
    ContextHasNoBlankValue(json);
    CommandsKeptUnlessBlank(json);
  }

  /** A context of non-blank values, stringified, is compacted back to itself. */
  lemma CompactStringifiedContext(c: map<Key, Value>)
    requires SymbolKeys(c)
    requires forall k :: k in c ==> !Blank(c[k])
    ensures Symbolizable(Stringify(c))
    ensures CompactContext(Stringify(c)) == c
  {
    var sc := Stringify(c);
    SymbolizeStringify(c);
    assert PresentValues(sc) == sc;
    assert Compact(c) == c;
  }

  /** A re-parsed normal result has string keys at both levels and a Hash context, so it does not raise. */
  lemma ReparsedIsParsed(r: map<Key, Value>)
    requires NormalShape(r)
    ensures FromParse(Reparsed(r)) && !Raises(Reparsed(r))
  {
    StringifySpec(r);
    if SymKey("context") in r {
      StringifySpec(r[SymKey("context")].fields);
      assert Stringify(r)[ContextKey] == r[SymKey("context")];
    }
  }

  lemma UpdateTwice<K, V>(m: map<K, V>, k: K, v: V, w: V)
    ensures m[k := v][k := w] == m[k := w]
  {
  }

  lemma UpdateSame<K, V>(m: map<K, V>, k: K, v: V)
    requires k in m && m[k] == v
    ensures m[k := v] == m
  {
  }

  /** Compacting the context of a re-parsed normal result gives back the result with string keys. */
  lemma CompactedReparsed(r: map<Key, Value>)
    requires NormalShape(r)
    ensures FromParse(Reparsed(r)) && Normalizable(Reparsed(r))
    ensures WithCompactedContext(Reparsed(r)) == Stringify(r)
  {
    ReparsedIsParsed(r);
    var p := Reparsed(r);
    ParsedIsNormalizable(p);
    var top := Stringify(r);
    StringifySpec(r);
    if SymKey("context") in r {
      var c := r[SymKey("context")].fields;
      assert top[ContextKey] == Object(c);
      assert p == top[ContextKey := Object(Stringify(c))];
      CompactStringifiedContext(c);
      assert p[ContextKey].fields == Stringify(c);
      UpdateTwice(top, ContextKey, Object(Stringify(c)), Object(c));
      UpdateSame(top, ContextKey, Object(c));
    } else {
      assert ContextKey !in top;
      assert p == top;
    }
  }

  /** A normal result's context and commands, under string keys again, are still not blank. */
  lemma StringifiedNotBlank(r: map<Key, Value>)
    requires NormalShape(r)
    ensures var top := Stringify(r);
            && !(ContextKey in top && Blank(top[ContextKey]))
            && !(CommandsKey in top && Blank(top[CommandsKey]))
  {
    StringifySpec(r);
  }

  /** On a re-parsed normal result, the steps before the final symbolization only restore string keys. */
  lemma TrimmedReparsed(r: map<Key, Value>)
    requires NormalShape(r)
    ensures FromParse(Reparsed(r)) && !Raises(Reparsed(r))
    ensures Trimmed(Reparsed(r)) == Stringify(r)
  {
    var top := Stringify(r);
    CompactedReparsed(r);
    StringifiedNotBlank(r);
    assert DeleteIfBlank(top, ContextKey) == top;
    assert DeleteIfBlank(top, CommandsKey) == top;
  }

  /**
   * Serializing a normalized result to JSON, parsing it and normalizing again gives
   * the same result: no blank or empty entry reappears.
   */
  lemma ReparsedNormalizesBack(json: map<Key, Value>)
    requires FromParse(json) && !Raises(json)
    ensures Normalized(json).Ok?
    ensures var r := Normalized(json).value;
            FromParse(Reparsed(r)) && !Raises(Reparsed(r)) && Normalized(Reparsed(r)) == Ok(r)
  {
    NormalizedHasNormalShape(json);
    NormalShapeReparses(Normalized(json).value);
  }

  /** Any Hash of the normal shape, serialized and re-parsed, normalizes back to itself. */
  lemma NormalShapeReparses(r: map<Key, Value>)
    requires NormalShape(r)
    ensures FromParse(Reparsed(r)) && !Raises(Reparsed(r))
    ensures Normalized(Reparsed(r)) == Ok(r)
  {
    TrimmedReparsed(r);
    SymbolizeStringify(r);
    CompactWithoutNil(r);
  }

  lemma CompactWithoutNil(m: map<Key, Value>)
    requires forall k :: k in m ==> !m[k].Null?
    ensures Compact(m) == m
  {
  }

  /** What the user is looking at when the command is typed. */
  datatype View = InsideCard | ListOfCards | NoCards

  /** The view the command context reports; looking inside a card takes precedence over a list. */
  function ViewOf(viewingCardContents: bool, viewingListOfCards: bool): (v: View)
    ensures v == InsideCard <==> viewingCardContents
    ensures v == ListOfCards <==> !viewingCardContents && viewingListOfCards
    ensures v == NoCards <==> !viewingCardContents && !viewingListOfCards
  {
    if viewingCardContents then InsideCard
    else if viewingListOfCards then ListOfCards
    else NoCards
  }

  /** The phrase naming a view, in the prompt and in the cache key. */
  function Description(v: View): string {
    match v
    case InsideCard => "inside a card"
    case ListOfCards => "viewing a list of cards"
    case NoCards => "not seeing cards"
  }

  /** `current_view_description`. */
  function CurrentViewDescription(viewingCardContents: bool, viewingListOfCards: bool): (d: string)
    ensures viewingCardContents ==> d == "inside a card"
    ensures !viewingCardContents && viewingListOfCards ==> d == "viewing a list of cards"
    ensures !viewingCardContents && !viewingListOfCards ==> d == "not seeing cards"
    ensures forall i :: 0 <= i < |d| ==> d[i] != ':'
  {
    Description(ViewOf(viewingCardContents, viewingListOfCards))
  }

  const CacheKeyPrefix := "command_translator:"

  /** `cache_key_for`: the translation is cached per user, query text and view. */
  function CacheKey(userId: int, query: string, view: View): (key: string)
    ensures |key| > |CacheKeyPrefix| && key[..|CacheKeyPrefix|] == CacheKeyPrefix
  {
    CacheKeyPrefix + Text.ShowInt(userId) + ":" + query + ":" + Description(view)
  }

  lemma CharAfterColon(q: string, d: string, j: int)
    requires 0 <= j < |d|
    ensures (q + ":" + d)[|q|] == ':' && (q + ":" + d)[|q| + 1 + j] == d[j]
  {
  }

  /** Two views' phrases never end a string the same way after a `:`, whatever precedes them. */
  lemma DescriptionSuffixes(q1: string, v1: View, q2: string, v2: View)
    requires q1 + ":" + Description(v1) == q2 + ":" + Description(v2)
    ensures v1 == v2 && q1 == q2
  {
    if v1 != v2 {
      if v1 == InsideCard || v2 == InsideCard {
        LastCharsDiffer(q1, v1, q2, v2);
      } else if v1 == NoCards {
        ListAndNoCardsDiffer(q1, q2);
      } else {
        ListAndNoCardsDiffer(q2, q1);
      }
      assert false;
    }
    var x := q1 + ":" + Description(v1);
    assert q1 == x[..|q1|] == q2;
  }

  /** "inside a card" ends in `d`, the other two phrases in `s`. */
  lemma LastCharsDiffer(q1: string, v1: View, q2: string, v2: View)
    requires v1 != v2 && (v1 == InsideCard || v2 == InsideCard)
    ensures q1 + ":" + Description(v1) != q2 + ":" + Description(v2)
  {
    var d1, d2 := Description(v1), Description(v2);
    CharAfterColon(q1, d1, |d1| - 1);
    CharAfterColon(q2, d2, |d2| - 1);
  }

  /** 17 characters from the end: the `:` before "not seeing cards", the `g` of "viewing". */
  lemma ListAndNoCardsDiffer(qn: string, ql: string)
    ensures qn + ":" + Description(NoCards) != ql + ":" + Description(ListOfCards)
  {
    CharAfterColon(qn, Description(NoCards), 0);
    CharAfterColon(ql, Description(ListOfCards), 6);
  }

  /** A field without `:` followed by `:` is recovered from the string it starts. */
  lemma FirstField(s1: string, t1: string, s2: string, t2: string)
    requires s1 + ":" + t1 == s2 + ":" + t2
    requires forall i :: 0 <= i < |s1| ==> s1[i] != ':'
    requires forall i :: 0 <= i < |s2| ==> s2[i] != ':'
    ensures s1 == s2 && t1 == t2
  {
    var rest := s1 + ":" + t1;
    Text.FindSepAfter(s1, ":", t1);
    Text.FindSepAfter(s2, ":", t2);
    assert s1 == rest[..|s1|] == s2;
    assert t1 == rest[|s1| + 1..] == t2;
  }

  /** The key after its fixed prefix: the user id, a `:`, and the rest. */
  lemma KeyAfterPrefix(u: int, q: string, v: View)
    ensures CacheKey(u, q, v)[|CacheKeyPrefix|..] == Text.ShowInt(u) + ":" + (q + ":" + Description(v))
    ensures forall i :: 0 <= i < |Text.ShowInt(u)| ==> Text.ShowInt(u)[i] != ':'
  {
    FieldsAfter(CacheKeyPrefix, Text.ShowInt(u), q, Description(v));
    ShowIntHasNoColon(u);
  }

  lemma FieldsAfter(prefix: string, id: string, q: string, d: string)
    ensures (prefix + id + ":" + q + ":" + d)[|prefix|..] == id + ":" + (q + ":" + d)
  {
    assert prefix + id + ":" + q + ":" + d == prefix + (id + ":" + (q + ":" + d));
  }

  lemma ShowIntHasNoColon(u: int)
    ensures forall i :: 0 <= i < |Text.ShowInt(u)| ==> Text.ShowInt(u)[i] != ':'
  {
    var id := Text.ShowInt(u);
    forall i | 0 <= i < |id| ensures id[i] != ':' {
      assert Text.IsDigit(id[i]) || id[i] == '-';
    }
  }

  /**
   * Different users, queries or views never share a cache entry: the key determines
   * all three, even when the query itself contains `:`.
   */
  lemma CacheKeyInjective(u1: int, q1: string, v1: View, u2: int, q2: string, v2: View)
    requires CacheKey(u1, q1, v1) == CacheKey(u2, q2, v2)
    ensures u1 == u2 && q1 == q2 && v1 == v2
  {
    KeyAfterPrefix(u1, q1, v1);
    KeyAfterPrefix(u2, q2, v2);
    FirstField(Text.ShowInt(u1), q1 + ":" + Description(v1), Text.ShowInt(u2), q2 + ":" + Description(v2));
    Text.ShowIntInjective(u1, u2);
    DescriptionSuffixes(q1, v1, q2, v2);
  }
}
